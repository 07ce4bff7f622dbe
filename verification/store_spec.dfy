/** What each statement of the recipe store (data/sqlite.ts) does to the
    database file, as functions from one database state to the next. The
    SQL engine is abstract: CREATE TABLE IF NOT EXISTS is idempotent, a
    statement on a missing table fails, an INSERT on a taken primary key
    fails, UPDATE and DELETE with `WHERE id = ?` touch only matching rows,
    and a SELECT without ORDER BY sees rows in insertion order. A failing
    statement leaves the database as it was. */
module StoreSpec {

  import opened RecipeTypes

  /** The schema version the code is written for. */
  const DB_VERSION: int := 1

  const RECIPES := "recipes"
  const DB_VERSION_TABLE := "db_version"

  /** The two ways a statement of this module fails. */
  datatype DbError = NoSuchTable(table: string) | DuplicateKey(id: string)

  datatype Result<+T> = Ok(value: T) | Err(error: DbError)

  datatype Outcome = Done | Failed(error: DbError)

  /** What the database file holds: the `db_version` table and its row,
      and the `recipes` table and its rows in storage order. */
  datatype DbState = DbState(
    versionTable: bool,
    version: Option<int>,
    recipesTable: bool,
    rows: seq<Row>)

  /** A database after a statement (or a run of them) and how it ended. */
  datatype Run = Run(state: DbState, outcome: Outcome)

  /** A database file that has never been opened before. */
  const Empty := DbState(false, None, false, [])

  predicate HasId(rows: seq<Row>, id: string) {
    exists i :: 0 <= i < |rows| && rows[i].id == id
  }

  /** The primary key of `recipes`. */
  predicate UniqueIds(rows: seq<Row>) {
    forall i, j :: 0 <= i < j < |rows| ==> rows[i].id != rows[j].id
  }

  /** What the engine guarantees of every database: no row in a missing
      table, and distinct ids. */
  predicate Wf(s: DbState) {
    && (!s.versionTable ==> s.version.None?)
    && (!s.recipesTable ==> s.rows == [])
    && UniqueIds(s.rows)
  }

  // ---------------------------------------------------------------- schema

  /** `getCurrentVersion`: the stored version, 0 when there is no row; the
      SELECT fails when the table is missing. */
  function CurrentVersion(s: DbState): (r: Result<int>)
    ensures r.Ok? <==> s.versionTable
    ensures r.Ok? && s.version.Some? ==> r.value == s.version.value
    ensures r.Ok? && s.version.None? ==> r.value == 0
  {
    if !s.versionTable then Err(NoSuchTable(DB_VERSION_TABLE))
    else match s.version
      case None => Ok(0)
      // `version?.version || 0`: a stored 0 is falsy and also gives 0
      case Some(v) => Ok(if v != 0 then v else 0)
  }

  /** `updateVersion`: sets the version of every row; with no row it
      changes nothing, it never adds one. */
  function SetVersion(s: DbState, v: int): (r: Run)
    ensures r.outcome.Done? <==> s.versionTable
    ensures r.state.version.Some? <==> s.version.Some?
    ensures r.outcome.Done? && s.version.Some? ==> r.state.version == Some(v)
    ensures r.state.(version := s.version) == s
  {
    if !s.versionTable then Run(s, Failed(NoSuchTable(DB_VERSION_TABLE)))
    else Run(s.(version := if s.version.Some? then Some(v) else None), Done)
  }

  /** `initVersionTable`: creates `db_version` if missing and records
      DB_VERSION only when it holds no row yet; an existing row is kept. */
  function InitVersionTable(s: DbState): (r: DbState)
    ensures r.versionTable && r.version.Some?
    ensures s.version.Some? ==> r.version == s.version
    ensures s.version.None? ==> r.version == Some(DB_VERSION)
    ensures r.recipesTable == s.recipesTable && r.rows == s.rows
  {
    var created := s.(versionTable := true);
    if created.version.None? then created.(version := Some(DB_VERSION)) else created
  }

  /** `runMigrations`: creates `recipes` exactly when the version it read
      is below 1, then records DB_VERSION in the existing row. */
  function RunMigrations(s: DbState): (r: Run)
    ensures r.outcome.Done? <==> s.versionTable
    ensures r.outcome.Failed? ==> r.state == s
    ensures r.outcome.Done? ==>
      (r.state.recipesTable <==> s.recipesTable || CurrentVersion(s).value < 1)
    ensures r.outcome.Done? && s.version.Some? ==> r.state.version == Some(DB_VERSION)
    ensures r.outcome.Done? && s.version.None? ==> r.state.version.None?
    ensures r.state.versionTable == s.versionTable && r.state.rows == s.rows
  {
    match CurrentVersion(s)
    case Err(e) => Run(s, Failed(e))
    case Ok(current) =>
      var migrated := if current < 1 then s.(recipesTable := true) else s;
      SetVersion(migrated, DB_VERSION)
  }

  /** `initRecipesTable`: never fails and always ends at DB_VERSION; the
      `recipes` table exists afterwards only if it existed before or an
      earlier row recorded a version below 1. A store without a version
      row never gets it (see FreshStoreLacksRecipesTable). */
  function InitRecipesTable(s: DbState): (r: Run)
    ensures r.outcome == Done
    ensures r.state.versionTable && r.state.version == Some(DB_VERSION)
    ensures r.state.recipesTable <==> s.recipesTable || (s.version.Some? && s.version.value < 1)
    ensures r.state.rows == s.rows
  {
    RunMigrations(InitVersionTable(s))
  }

  /** Running the schema set-up twice is running it once. */
  lemma InitRecipesTableIdempotent(s: DbState)
    ensures InitRecipesTable(InitRecipesTable(s).state) == InitRecipesTable(s)
  {
  }

  /** The code as written: on a database that was never opened, the
      version row is created holding 1 before the migration reads it, so
      the `< 1` test is false and `recipes` is never created. Everything
      after it fails: the seeding and every read of the table. */
  lemma FreshStoreLacksRecipesTable(seeds: seq<Recipe>)
    ensures InitRecipesTable(Empty) == Run(DbState(true, Some(DB_VERSION), false, []), Done)
    ensures Seed(InitRecipesTable(Empty).state, seeds).outcome == Failed(NoSuchTable(RECIPES))
    ensures SelectAll(InitRecipesTable(Empty).state) == Err(NoSuchTable(RECIPES))
  {
  }

  /** The set-up corrected so that the version-1 migration runs on a new
      database, as the migration chain expects: a missing version row is
      recorded as 0, below every migration. */
  function InitVersionTableIntended(s: DbState): (r: DbState)
    ensures r.versionTable && r.version.Some?
    ensures s.version.Some? ==> r.version == s.version
    ensures s.version.None? ==> r.version == Some(0)
    ensures r.recipesTable == s.recipesTable && r.rows == s.rows
  {
    var created := s.(versionTable := true);
    if created.version.None? then created.(version := Some(0)) else created
  }

  function InitRecipesTableIntended(s: DbState): (r: Run)
    ensures r.outcome == Done
    ensures r.state.versionTable && r.state.version == Some(DB_VERSION)
    ensures r.state.recipesTable <==> s.recipesTable || s.version.None? || s.version.value < 1
    ensures r.state.rows == s.rows
  {
    RunMigrations(InitVersionTableIntended(s))
  }

  /** With the intended set-up a fresh database ends at version 1 with an
      empty `recipes` table, and seeding then inserts every seed record. */
  lemma FreshStoreIntended(seeds: seq<Recipe>)
    requires DistinctIds(seeds)
    ensures InitRecipesTableIntended(Empty) == Run(DbState(true, Some(DB_VERSION), true, []), Done)
    ensures SelectAll(InitRecipesTableIntended(Empty).state) == Ok([])
    ensures var t := InitRecipesTableIntended(Empty).state;
      Seed(t, seeds) == Run(t.(rows := RowsOf(seeds)), Done)
  {
    var t := InitRecipesTableIntended(Empty).state;
    SeedIntoEmptyTable(t, seeds);
  }

  // ------------------------------------------------------------------ rows

  /** The row an index lookup on the primary key finds: the first one with
      that id. */
  function FindRow(rows: seq<Row>, id: string): (r: Option<Row>)
    ensures r.Some? <==> HasId(rows, id)
    ensures r.Some? ==> r.value.id == id && r.value in rows
  {
    if rows == [] then None
    else if rows[0].id == id then Some(rows[0])
    else
      assert forall i :: 0 < i < |rows| ==> rows[i] == rows[1..][i - 1];
      FindRow(rows[1..], id)
  }

  /** With distinct ids, looking up the id of a row finds that very row. */
  lemma {:induction false} FindRowUnique(rows: seq<Row>, k: nat)
    requires UniqueIds(rows) && k < |rows|
    ensures FindRow(rows, rows[k].id) == Some(rows[k])
  {
    if k > 0 {
      assert rows[0].id != rows[k].id;
      assert rows[1..][k - 1] == rows[k];
      FindRowUnique(rows[1..], k - 1);
    }
  }

  /** `addRecipe`: fails on a missing table or a taken id, and otherwise
      appends exactly one row carrying the recipe's twelve fields. */
  function Insert(s: DbState, r: Recipe): (res: Run)
    ensures res.outcome.Done? <==> s.recipesTable && !HasId(s.rows, r.id)
    ensures !s.recipesTable ==> res.outcome == Failed(NoSuchTable(RECIPES))
    ensures s.recipesTable && HasId(s.rows, r.id) ==> res.outcome == Failed(DuplicateKey(r.id))
    ensures res.outcome.Failed? ==> res.state == s
    ensures res.outcome.Done? ==> res.state == s.(rows := s.rows + [ToRow(r)])
    ensures Wf(s) ==> Wf(res.state)
  {
    if !s.recipesTable then Run(s, Failed(NoSuchTable(RECIPES)))
    else if FindRow(s.rows, r.id).Some? then Run(s, Failed(DuplicateKey(r.id)))
    else Run(s.(rows := s.rows + [ToRow(r)]), Done)
  }

  /** The decoding of every row, in storage order. */
  function DecodeAll(rows: seq<Row>): (rs: seq<Recipe>)
    ensures |rs| == |rows|
    ensures forall i :: 0 <= i < |rows| ==> rs[i] == FromRow(rows[i])
  {
    if rows == [] then [] else [FromRow(rows[0])] + DecodeAll(rows[1..])
  }

  /** `getAllRecipes`. */
  function SelectAll(s: DbState): (r: Result<seq<Recipe>>)
    ensures r.Ok? <==> s.recipesTable
    ensures r.Ok? ==> |r.value| == |s.rows|
    ensures r.Ok? ==> forall i :: 0 <= i < |s.rows| ==> r.value[i] == FromRow(s.rows[i])
  {
    if !s.recipesTable then Err(NoSuchTable(RECIPES)) else Ok(DecodeAll(s.rows))
  }

  /** `getRecipeById`: the decoded row with that id, or null. */
  function SelectById(s: DbState, id: string): (r: Result<Option<Recipe>>)
    ensures r.Ok? <==> s.recipesTable
    ensures r.Ok? ==> (r.value.Some? <==> HasId(s.rows, id))
    ensures r.Ok? && r.value.Some? ==> r.value.value.id == id
    ensures r.Ok? && r.value.Some? ==>
      exists k :: 0 <= k < |s.rows| && s.rows[k].id == id && r.value.value == FromRow(s.rows[k])
  {
    if !s.recipesTable then Err(NoSuchTable(RECIPES))
    else match FindRow(s.rows, id)
      case None => Ok(None)
      case Some(row) => Ok(Some(FromRow(row)))
  }

  /** Reading a recipe back after adding it gives exactly that recipe, and
      reading all gives the earlier recipes followed by it. */
  lemma AddThenGet(s: DbState, r: Recipe)
    requires Wf(s) && Insert(s, r).outcome.Done?
    ensures SelectById(Insert(s, r).state, r.id) == Ok(Some(r))
    ensures SelectAll(Insert(s, r).state) == Ok(SelectAll(s).value + [r])
  {
    var t := Insert(s, r).state;
    assert t.rows == s.rows + [ToRow(r)];
    assert FindRow(t.rows, r.id) == Some(ToRow(r)) by {
      FindRowUnique(t.rows, |s.rows|);
    }
    assert DecodeAll(t.rows) == DecodeAll(s.rows) + [r] by {
      assert t.rows[|s.rows|] == ToRow(r);
    }
  }

  /** The row written by `updateRecipe` over `row`: every column from `r`
      except `id` and `createdAt`, which are the row's own. */
  function Updated(row: Row, r: Recipe): (u: Row)
    ensures FromRow(u) == r.(id := row.id, createdAt := row.createdAt)
  {
    row.(title := r.title, description := r.description,
         prepTime := r.prepTime, cookTime := r.cookTime,
         servings := r.servings, calories := r.calories,
         ingredients := r.ingredients, instructions := r.instructions,
         imageUrl := r.imageUrl, updatedAt := r.updatedAt)
  }

  /** `UPDATE recipes SET ... WHERE id = ?` applied row by row. */
  function UpdateRows(rows: seq<Row>, r: Recipe): (u: seq<Row>)
    ensures |u| == |rows|
    ensures forall i :: 0 <= i < |rows| ==>
      u[i] == (if rows[i].id == r.id then Updated(rows[i], r) else rows[i])
  {
    if rows == [] then []
    else [if rows[0].id == r.id then Updated(rows[0], r) else rows[0]] + UpdateRows(rows[1..], r)
  }

  /** `updateRecipe`: ids never change, so the key stays unique. */
  function Update(s: DbState, r: Recipe): (res: Run)
    ensures res.outcome.Done? <==> s.recipesTable
    ensures res.outcome.Failed? ==> res.state == s
    ensures res.state.(rows := s.rows) == s
    ensures |res.state.rows| == |s.rows|
    ensures forall i :: 0 <= i < |s.rows| ==> res.state.rows[i].id == s.rows[i].id
    ensures Wf(s) ==> Wf(res.state)
  {
    if !s.recipesTable then Run(s, Failed(NoSuchTable(RECIPES)))
    else Run(s.(rows := UpdateRows(s.rows, r)), Done)
  }

  /** An update for an id that is not stored changes nothing. */
  lemma UpdateUnknownId(s: DbState, r: Recipe)
    requires !HasId(s.rows, r.id)
    ensures Update(s, r).state == s
  {
    assert UpdateRows(s.rows, r) == s.rows;
  }

  /** After an update the row with that id reads back as the new recipe
      with the stored `createdAt`, and every other id reads back as
      before. */
  lemma UpdateThenGet(s: DbState, r: Recipe, k: nat, other: string)
    requires Wf(s) && s.recipesTable && k < |s.rows| && s.rows[k].id == r.id
    requires other != r.id
    ensures SelectById(Update(s, r).state, r.id) == Ok(Some(r.(createdAt := s.rows[k].createdAt)))
    ensures SelectById(Update(s, r).state, other) == SelectById(s, other)
  {
    var t := Update(s, r).state;
    FindRowUnique(t.rows, k);
    if HasId(s.rows, other) {
      var j :| 0 <= j < |s.rows| && s.rows[j].id == other;
      FindRowUnique(s.rows, j);
      FindRowUnique(t.rows, j);
    }
  }

  /** `DELETE FROM recipes WHERE id = ?` applied row by row. */
  function DeleteRows(rows: seq<Row>, id: string): (d: seq<Row>)
    ensures !HasId(d, id) && |d| <= |rows|
  {
    if rows == [] then []
    else if rows[0].id == id then DeleteRows(rows[1..], id)
    else [rows[0]] + DeleteRows(rows[1..], id)
  }

  /** Deleting an id that no row has changes nothing. */
  lemma {:induction false} DeleteRowsAbsent(rows: seq<Row>, id: string)
    requires !HasId(rows, id)
    ensures DeleteRows(rows, id) == rows
  {
    if rows != [] {
      assert !HasId(rows[1..], id) by {
        forall i | 0 <= i < |rows[1..]| ensures rows[1..][i].id != id {
          assert rows[1..][i] == rows[i + 1];
        }
      }
      DeleteRowsAbsent(rows[1..], id);
      assert [rows[0]] + rows[1..] == rows;
    }
  }

  /** Deleting the id of row `k` removes just that row and keeps the others
      in order. */
  lemma {:induction false} DeleteRowsAt(rows: seq<Row>, k: nat)
    requires UniqueIds(rows) && k < |rows|
    ensures DeleteRows(rows, rows[k].id) == rows[..k] + rows[k + 1..]
  {
    var id := rows[k].id;
    var tail := rows[1..];
    UniqueTail(rows);
    if k == 0 {
      DeleteRowsAbsent(tail, id);
      assert rows[..0] + rows[1..] == tail;
    } else {
      assert tail[k - 1] == rows[k];
      DeleteRowsAt(tail, k - 1);
      assert [rows[0]] + (tail[..k - 1] + tail[k..]) == rows[..k] + rows[k + 1..] by {
        assert tail[..k - 1] == rows[1..k];
        assert tail[k..] == rows[k + 1..];
        assert [rows[0]] + rows[1..k] == rows[..k];
      }
    }
  }

  /** Below the first row, the ids are still unique and none is the first
      row's. */
  lemma UniqueTail(rows: seq<Row>)
    requires UniqueIds(rows) && rows != []
    ensures UniqueIds(rows[1..]) && !HasId(rows[1..], rows[0].id)
  {
    var tail := rows[1..];
    forall i | 0 <= i < |tail| ensures tail[i].id != rows[0].id {
      assert tail[i] == rows[i + 1];
    }
    forall i, j | 0 <= i < j < |tail| ensures tail[i].id != tail[j].id {
      assert tail[i] == rows[i + 1] && tail[j] == rows[j + 1];
    }
  }

  /** Deleting keeps the primary key unique. */
  lemma DeleteKeepsUnique(rows: seq<Row>, id: string)
    requires UniqueIds(rows)
    ensures UniqueIds(DeleteRows(rows, id))
  {
    if HasId(rows, id) {
      var k :| 0 <= k < |rows| && rows[k].id == id;
      DeleteRowsAt(rows, k);
      UniqueWithout(rows, k);
    } else {
      DeleteRowsAbsent(rows, id);
    }
  }

  /** Leaving one row out keeps the ids of the others unique. */
  lemma UniqueWithout(rows: seq<Row>, k: nat)
    requires UniqueIds(rows) && k < |rows|
    ensures UniqueIds(rows[..k] + rows[k + 1..])
  {
    var d := rows[..k] + rows[k + 1..];
    forall i, j | 0 <= i < j < |d| ensures d[i].id != d[j].id {
      var i' := if i < k then i else i + 1;
      var j' := if j < k then j else j + 1;
      assert d[i] == rows[i'] && d[j] == rows[j'];
    }
  }

  /** `deleteRecipe`. */
  function Delete(s: DbState, id: string): (res: Run)
    ensures res.outcome.Done? <==> s.recipesTable
    ensures res.outcome.Failed? ==> res.state == s
    ensures res.state.(rows := s.rows) == s
    ensures res.outcome.Done? ==> !HasId(res.state.rows, id)
    ensures res.outcome.Done? ==> res.state.rows == DeleteRows(s.rows, id)
    ensures Wf(s) ==> Wf(res.state)
  {
    if !s.recipesTable then Run(s, Failed(NoSuchTable(RECIPES)))
    else
      var d := DeleteRows(s.rows, id);
      assert UniqueIds(s.rows) ==> UniqueIds(d) by {
        if UniqueIds(s.rows) { DeleteKeepsUnique(s.rows, id); }
      }
      Run(s.(rows := d), Done)
  }

  /** Deleting a stored recipe removes its row and only its row; the
      others keep their order. */
  lemma DeleteRemovesOnly(s: DbState, k: nat)
    requires Wf(s) && s.recipesTable && k < |s.rows|
    ensures Delete(s, s.rows[k].id) == Run(s.(rows := s.rows[..k] + s.rows[k + 1..]), Done)
  {
    DeleteRowsAt(s.rows, k);
  }

  /** Deleting an id that is not stored changes nothing. */
  lemma DeleteUnknownId(s: DbState, id: string)
    requires s.recipesTable && !HasId(s.rows, id)
    ensures Delete(s, id) == Run(s, Done)
  {
    DeleteRowsAbsent(s.rows, id);
  }

  /** After a delete, reading that id finds nothing. */
  lemma DeleteThenGet(s: DbState, id: string)
    requires s.recipesTable
    ensures SelectById(Delete(s, id).state, id) == Ok(None)
  {
  }

  // --------------------------------------------------------------- seeding

  /** The rows the given recipes are stored as, in order. */
  function RowsOf(rs: seq<Recipe>): (rows: seq<Row>)
    ensures |rows| == |rs|
    ensures forall i :: 0 <= i < |rs| ==> rows[i] == ToRow(rs[i])
  {
    if rs == [] then [] else [ToRow(rs[0])] + RowsOf(rs[1..])
  }

  predicate DistinctIds(rs: seq<Recipe>) {
    forall i, j :: 0 <= i < j < |rs| ==> rs[i].id != rs[j].id
  }

  /** `SELECT COUNT(*) FROM recipes`. */
  function Count(s: DbState): (r: Result<nat>)
    ensures r.Ok? <==> s.recipesTable
    ensures r.Ok? ==> (r.value == 0 <==> s.rows == [])
  {
    if !s.recipesTable then Err(NoSuchTable(RECIPES)) else Ok(|s.rows|)
  }

  /** The `for` loop of `migrateDefaultRecipes`: `addRecipe` on each record
      in turn, stopping at the first that fails. The rows inserted before
      the failure stay, as nothing wraps the loop in a transaction. */
  function InsertAll(s: DbState, rs: seq<Recipe>): (r: Run)
    decreases |rs|
    ensures r.state.(rows := s.rows) == s
  {
    if rs == [] then Run(s, Done)
    else
      var step := Insert(s, rs[0]);
      if step.outcome.Failed? then step else InsertAll(step.state, rs[1..])
  }

  /** The loop only ever appends: the rows already stored stay in front. */
  lemma {:induction false} InsertAllKeepsPrefix(s: DbState, rs: seq<Recipe>)
    ensures |s.rows| <= |InsertAll(s, rs).state.rows|
    ensures InsertAll(s, rs).state.rows[..|s.rows|] == s.rows
    decreases |rs|
  {
    if rs != [] {
      var step := Insert(s, rs[0]);
      if step.outcome.Done? {
        var rest := InsertAll(step.state, rs[1..]).state.rows;
        InsertAllKeepsPrefix(step.state, rs[1..]);
        assert rest[..|s.rows|] == rest[..|s.rows| + 1][..|s.rows|];
      }
    }
  }

  /** A loop that stops at a failing record `k` has stored the records
      before it, in order, and reports that record's failure. */
  lemma {:induction false} InsertAllStops(s: DbState, rs: seq<Recipe>)
    ensures InsertAll(s, rs).outcome.Failed? ==>
      exists k :: 0 <= k < |rs| && StoppedAt(s, rs, k, InsertAll(s, rs))
    decreases |rs|
  {
    if rs != [] {
      var step := Insert(s, rs[0]);
      if step.outcome.Failed? {
        assert s.rows + RowsOf(rs[..0]) == s.rows;
        assert StoppedAt(s, rs, 0, InsertAll(s, rs));
      } else {
        var rest := InsertAll(step.state, rs[1..]);
        assert InsertAll(s, rs) == rest;
        InsertAllStops(step.state, rs[1..]);
        if rest.outcome.Failed? {
          var j :| 0 <= j < |rs[1..]| && StoppedAt(step.state, rs[1..], j, rest);
          StoppedLater(s, rs, j, rest);
        }
      }
    }
  }

  /** The loop over `rs` stopped at record `k`: the records before it went
      in, in order, and adding record `k` failed as reported. */
  ghost predicate StoppedAt(s: DbState, rs: seq<Recipe>, k: nat, r: Run)
    requires k < |rs|
  {
    && r.state == s.(rows := s.rows + RowsOf(rs[..k]))
    && r.outcome.Failed?
    && Insert(r.state, rs[k]).outcome == r.outcome
  }

  lemma StoppedLater(s: DbState, rs: seq<Recipe>, j: nat, r: Run)
    requires rs != [] && Insert(s, rs[0]).outcome.Done? && j < |rs| - 1
    requires StoppedAt(Insert(s, rs[0]).state, rs[1..], j, r)
    ensures StoppedAt(s, rs, j + 1, r)
  {
    var t := Insert(s, rs[0]).state;
    assert rs[1..][j] == rs[j + 1];
    assert t.rows + RowsOf(rs[1..][..j]) == s.rows + RowsOf(rs[..j + 1]) by {
      RowsOfPrefix(rs, j);
      AppendRowsOf(s.rows, rs[..j + 1]);
    }
  }

  lemma RowsOfPrefix(rs: seq<Recipe>, j: nat)
    requires j < |rs|
    ensures rs[..j + 1] != [] && rs[..j + 1][0] == rs[0] && rs[..j + 1][1..] == rs[1..][..j]
  {
  }

  /** A loop that runs to the end has appended every record, in order. */
  lemma {:induction false} InsertAllComplete(s: DbState, rs: seq<Recipe>)
    ensures InsertAll(s, rs).outcome.Done? ==> InsertAll(s, rs).state.rows == s.rows + RowsOf(rs)
    decreases |rs|
  {
    if rs == [] {
      assert s.rows + RowsOf(rs) == s.rows;
    } else if Insert(s, rs[0]).outcome.Done? {
      var t := Insert(s, rs[0]).state;
      InsertAllComplete(t, rs[1..]);
      AppendRowsOf(s.rows, rs);
    }
  }

  lemma AppendRowsOf(rows: seq<Row>, rs: seq<Recipe>)
    requires rs != []
    ensures rows + RowsOf(rs) == (rows + [ToRow(rs[0])]) + RowsOf(rs[1..])
  {
    assert RowsOf(rs) == [ToRow(rs[0])] + RowsOf(rs[1..]);
  }

  /** Every prefix of the loop leaves a well-formed database. */
  lemma {:induction false} InsertAllKeepsWf(s: DbState, rs: seq<Recipe>)
    requires Wf(s)
    ensures Wf(InsertAll(s, rs).state)
    decreases |rs|
  {
    if rs != [] && Insert(s, rs[0]).outcome.Done? {
      InsertAllKeepsWf(Insert(s, rs[0]).state, rs[1..]);
    }
  }

  /** `migrateDefaultRecipes`: the seed records go in only when the table
      holds no row; a missing table makes the count fail. */
  function Seed(s: DbState, seeds: seq<Recipe>): (r: Run)
    ensures !s.recipesTable ==> r == Run(s, Failed(NoSuchTable(RECIPES)))
    ensures s.recipesTable && s.rows != [] ==> r == Run(s, Done)
    ensures r.outcome.Done? && s.rows == [] ==> r.state == s.(rows := RowsOf(seeds))
    ensures Wf(s) ==> Wf(r.state)
  {
    match Count(s)
    case Err(e) => Run(s, Failed(e))
    case Ok(n) =>
      if n == 0 then
        InsertAllComplete(s, seeds);
        if Wf(s) then InsertAllKeepsWf(s, seeds); InsertAll(s, seeds) else InsertAll(s, seeds)
      else Run(s, Done)
  }

  /** Records with distinct ids that are not yet stored all go in, in
      order. */
  lemma InsertAllFresh(s: DbState, rs: seq<Recipe>)
    requires s.recipesTable && DistinctIds(rs)
    requires forall i :: 0 <= i < |rs| ==> !HasId(s.rows, rs[i].id)
    ensures InsertAll(s, rs) == Run(s.(rows := s.rows + RowsOf(rs)), Done)
  {
    InsertAllFreshDone(s, rs);
    InsertAllComplete(s, rs);
  }

  lemma {:induction false} InsertAllFreshDone(s: DbState, rs: seq<Recipe>)
    requires s.recipesTable && DistinctIds(rs)
    requires forall i :: 0 <= i < |rs| ==> !HasId(s.rows, rs[i].id)
    ensures InsertAll(s, rs).outcome.Done?
    decreases |rs|
  {
    if rs != [] {
      var t := Insert(s, rs[0]).state;
      StillFresh(s, rs);
      InsertAllFreshDone(t, rs[1..]);
    }
  }

  /** After the first record goes in, the remaining ones are still fresh. */
  lemma StillFresh(s: DbState, rs: seq<Recipe>)
    requires s.recipesTable && DistinctIds(rs) && rs != []
    requires forall i :: 0 <= i < |rs| ==> !HasId(s.rows, rs[i].id)
    ensures Insert(s, rs[0]).outcome.Done?
    ensures DistinctIds(rs[1..])
    ensures forall i :: 0 <= i < |rs[1..]| ==> !HasId(Insert(s, rs[0]).state.rows, rs[1..][i].id)
  {
    var t := Insert(s, rs[0]).state;
    assert t.rows == s.rows + [ToRow(rs[0])];
    forall i | 0 <= i < |rs[1..]| ensures !HasId(t.rows, rs[1..][i].id) {
      var id := rs[i + 1].id;
      assert rs[1..][i] == rs[i + 1];
      assert id != rs[0].id;
      forall j | 0 <= j < |t.rows| ensures t.rows[j].id != id {
        if j < |s.rows| { assert t.rows[j] == s.rows[j]; }
      }
    }
  }

  /** Seeding an empty table stores every seed record, in order. */
  lemma SeedIntoEmptyTable(s: DbState, seeds: seq<Recipe>)
    requires s.recipesTable && s.rows == [] && DistinctIds(seeds)
    ensures Seed(s, seeds) == Run(s.(rows := RowsOf(seeds)), Done)
  {
    InsertAllFresh(s, seeds);
  }

  /** Seeding twice is seeding once: a second call finds the table either
      non-empty or, with no seed records at all, still empty and adds
      nothing. */
  lemma SeedIdempotent(s: DbState, seeds: seq<Recipe>)
    requires Seed(s, seeds).outcome.Done?
    ensures Seed(Seed(s, seeds).state, seeds) == Seed(s, seeds)
  {
    var t := Seed(s, seeds).state;
    if s.rows == [] && seeds == [] {
      assert t == s;
      assert InsertAll(s, []) == Run(s, Done);
    }
  }

  /** A recipe added to an empty table is all that reading gives back,
      and after it is deleted reading gives nothing. */
  lemma AddReadDeleteScenario(s: DbState, tea: Recipe)
    requires s.recipesTable && s.rows == []
    ensures Insert(s, tea).outcome == Done
    ensures SelectAll(Insert(s, tea).state) == Ok([tea])
    ensures SelectAll(Delete(Insert(s, tea).state, tea.id).state) == Ok([])
  {
    var t := Insert(s, tea).state;
    assert t.rows == [ToRow(tea)];
    assert DecodeAll(t.rows) == [tea];
    assert DeleteRows(t.rows, tea.id) == DeleteRows([], tea.id);
  }
}

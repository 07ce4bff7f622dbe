/** The recipe store of data/sqlite.ts as an object: the module-level
    cached handle `db` and the database file it gives access to. Each
    method first obtains the handle through GetDb, as every exported
    function of the module does, and then runs its statements; its
    postcondition ties the new database to the matching function of
    StoreSpec, where the properties are proved. */
module RecipeStore {

  import opened RecipeTypes
  import opened StoreSpec

  /** The file name passed to the engine when the database is opened. */
  const DB_FILE := "recipes.db"

  /** A handle on an opened database file. */
  class Connection {
    const path: string

    constructor Open(path: string)
      ensures this.path == path
    {
      this.path := path;
    }
  }

  class RecipeDb {
    /** The cached handle; null until the first GetDb. */
    var db: Connection?
    /** How many times the database file has been opened. */
    ghost var opens: nat

    /** The contents of the database file. */
    var versionTable: bool
    var version: Option<int>
    var recipesTable: bool
    var rows: seq<Row>

    function State(): DbState
      reads this
    {
      DbState(versionTable, version, recipesTable, rows)
    }

    ghost predicate Valid()
      reads this
    {
      && opens <= 1
      && (db == null <==> opens == 0)
      && Wf(State())
    }

    /** What every operation leaves behind: an open handle, the file opened
        once in all, and a handle cached before the call still in place. */
    twostate predicate Opened()
      reads this
    {
      db != null && opens == 1 && (old(db) != null ==> db == old(db))
    }

    /** The module as loaded at process start, over the file as earlier
        runs left it. */
    constructor (file: DbState)
      requires Wf(file)
      ensures Valid() && db == null && State() == file
    {
      db := null;
      opens := 0;
      versionTable, version, recipesTable, rows := file.versionTable, file.version, file.recipesTable, file.rows;
    }

    /** `getDb`: opens the file on the first call only; later calls return
        the cached handle. */
    method GetDb() returns (h: Connection)
      requires Valid()
      modifies this`db, this`opens
      ensures Valid() && Opened() && h == db
      ensures old(db) == null ==> fresh(h) && h.path == DB_FILE
      ensures old(db) != null ==> h == old(db) && opens == old(opens)
    {
      if db == null {
        db := new Connection.Open(DB_FILE);
        opens := opens + 1;
      }
      h := db;
    }

    /** `getCurrentVersion`. */
    method GetCurrentVersion() returns (r: Result<int>)
      requires Valid()
      modifies this`db, this`opens
      ensures Valid() && Opened()
      ensures r == CurrentVersion(State())
    {
      var _ := GetDb();
      if !versionTable {
        return Err(NoSuchTable(DB_VERSION_TABLE));
      }
      match version
      case None => r := Ok(0);
      case Some(v) => r := Ok(if v != 0 then v else 0);
    }

    /** `updateVersion`. */
    method UpdateVersion(v: int) returns (o: Outcome)
      requires Valid()
      modifies this
      ensures Valid() && Opened()
      ensures Run(State(), o) == SetVersion(old(State()), v)
    {
      var _ := GetDb();
      if !versionTable {
        return Failed(NoSuchTable(DB_VERSION_TABLE));
      }
      if version.Some? {
        version := Some(v);
      }
      o := Done;
    }

    /** `initVersionTable`. */
    method InitVersionTable()
      requires Valid()
      modifies this
      ensures Valid() && Opened()
      ensures State() == StoreSpec.InitVersionTable(old(State()))
    {
      var _ := GetDb();
      versionTable := true;
      var row := version;
      if row.None? {
        version := Some(DB_VERSION);
      }
    }

    /** `runMigrations`. */
    method RunMigrations() returns (o: Outcome)
      requires Valid()
      modifies this
      ensures Valid() && Opened()
      ensures Run(State(), o) == StoreSpec.RunMigrations(old(State()))
    {
      var current := GetCurrentVersion();
      if current.Err? {
        return Failed(current.error);
      }
      var _ := GetDb();
      if current.value < 1 {
        recipesTable := true;
      }
      o := UpdateVersion(DB_VERSION);
    }

    /** `initRecipesTable`. */
    method InitRecipesTable() returns (o: Outcome)
      requires Valid()
      modifies this
      ensures Valid() && Opened()
      ensures Run(State(), o) == StoreSpec.InitRecipesTable(old(State()))
    {
      InitVersionTable();
      o := RunMigrations();
    }

    /** `migrateDefaultRecipes`, with the bundled sample records passed in. */
    method MigrateDefaultRecipes(seeds: seq<Recipe>) returns (o: Outcome)
      requires Valid()
      modifies this
      ensures Valid() && Opened()
      ensures Run(State(), o) == Seed(old(State()), seeds)
    {
      var _ := GetDb();
      if !recipesTable {
        return Failed(NoSuchTable(RECIPES));
      }
      var count := |rows|;
      if count == 0 {
        assert seeds[0..] == seeds;
        var i := 0;
        while i < |seeds|
          invariant 0 <= i <= |seeds|
          invariant Valid() && Opened()
          invariant InsertAll(State(), seeds[i..]) == Seed(old(State()), seeds)
        {
          ghost var before := State();
          var added := AddRecipe(seeds[i]);
          assert seeds[i..][0] == seeds[i] && seeds[i..][1..] == seeds[i + 1..];
          if added.Failed? {
            assert InsertAll(before, seeds[i..]) == Run(State(), added);
            return added;
          }
          assert InsertAll(before, seeds[i..]) == InsertAll(State(), seeds[i + 1..]);
          i := i + 1;
        }
      }
      o := Done;
    }

    /** `addRecipe`. */
    method AddRecipe(r: Recipe) returns (o: Outcome)
      requires Valid()
      modifies this
      ensures Valid() && Opened()
      ensures Run(State(), o) == Insert(old(State()), r)
    {
      var _ := GetDb();
      if !recipesTable {
        return Failed(NoSuchTable(RECIPES));
      }
      if FindRow(rows, r.id).Some? {
        return Failed(DuplicateKey(r.id));
      }
      rows := rows + [ToRow(r)];
      o := Done;
    }

    /** `getAllRecipes`. */
    method GetAllRecipes() returns (r: Result<seq<Recipe>>)
      requires Valid()
      modifies this`db, this`opens
      ensures Valid() && Opened()
      ensures r == SelectAll(State())
    {
      var _ := GetDb();
      if !recipesTable {
        return Err(NoSuchTable(RECIPES));
      }
      r := Ok(DecodeAll(rows));
    }

    /** `deleteRecipe`. */
    method DeleteRecipe(id: string) returns (o: Outcome)
      requires Valid()
      modifies this
      ensures Valid() && Opened()
      ensures Run(State(), o) == Delete(old(State()), id)
    {
      var _ := GetDb();
      if !recipesTable {
        return Failed(NoSuchTable(RECIPES));
      }
      DeleteKeepsUnique(rows, id);
      rows := DeleteRows(rows, id);
      o := Done;
    }

    /** `getRecipeById`. */
    method GetRecipeById(id: string) returns (r: Result<Option<Recipe>>)
      requires Valid()
      modifies this`db, this`opens
      ensures Valid() && Opened()
      ensures r == SelectById(State(), id)
    {
      var _ := GetDb();
      if !recipesTable {
        return Err(NoSuchTable(RECIPES));
      }
      var row := FindRow(rows, id);
      if row.None? {
        return Ok(None);
      }
      r := Ok(Some(FromRow(row.value)));
    }

    /** `updateRecipe`. */
    method UpdateRecipe(r: Recipe) returns (o: Outcome)
      requires Valid()
      modifies this
      ensures Valid() && Opened()
      ensures Run(State(), o) == Update(old(State()), r)
    {
      var _ := GetDb();
      if !recipesTable {
        return Failed(NoSuchTable(RECIPES));
      }
      rows := UpdateRows(rows, r);
      o := Done;
    }
  }
}

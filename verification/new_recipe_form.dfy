/** The logic of the new-recipe screen (app/recipe/new.tsx): the editable
    ingredient and instruction lists, and the save handler that checks the
    form, builds a trimmed Recipe and writes it to the store. */
module NewRecipeForm {

  import opened RecipeTypes
  import opened JsText
  import opened StoreSpec
  import opened RecipeStore

  // ------------------------------------------------------ the list handlers

  /** `[...rows, ""]`: the add handlers. */
  function AddRow(rows: seq<string>): (r: seq<string>)
    ensures |r| == |rows| + 1
    ensures r[..|rows|] == rows && r[|rows|] == ""
  {
    rows + [""]
  }

  /** A copy of `rows` with `newArr[idx] = text`: the change handlers. The
      screen only passes the index of a row it shows. */
  function ChangeRow(rows: seq<string>, idx: nat, text: string): (r: seq<string>)
    requires idx < |rows|
    ensures |r| == |rows| && r[idx] == text
    ensures forall i :: 0 <= i < |rows| && i != idx ==> r[i] == rows[i]
  {
    rows[idx := text]
  }

  /** `rows.filter((_, i) => i !== idx)`, over the positions from `from` on. */
  function FilterIndex(rows: seq<string>, idx: int, from: nat): (r: seq<string>)
    requires from <= |rows|
    ensures |r| == if from <= idx < |rows| then |rows| - from - 1 else |rows| - from
    ensures forall x :: x in r ==> x in rows[from..]
    decreases |rows| - from
  {
    if from == |rows| then []
    else (if from != idx then [rows[from]] else []) + FilterIndex(rows, idx, from + 1)
  }

  /** The filter drops position `idx` and nothing else, keeping the order;
      an index outside the list drops nothing. */
  lemma {:induction false} FilterIndexDrops(rows: seq<string>, idx: int, from: nat)
    requires from <= |rows|
    ensures from <= idx < |rows| ==> FilterIndex(rows, idx, from) == rows[from..idx] + rows[idx + 1..]
    ensures !(from <= idx < |rows|) ==> FilterIndex(rows, idx, from) == rows[from..]
    decreases |rows| - from
  {
    if from < |rows| {
      FilterIndexDrops(rows, idx, from + 1);
      if from == idx {
        assert rows[from..idx] == [];
      } else if from < idx < |rows| {
        assert rows[from..idx] == [rows[from]] + rows[from + 1..idx];
      } else {
        assert rows[from..] == [rows[from]] + rows[from + 1..];
      }
    }
  }

  /** The remove handlers: no-ops on a one-row list, otherwise the row at
      `idx` goes and the others keep their order. A list that has a row
      keeps at least one. */
  function RemoveRow(rows: seq<string>, idx: int): (r: seq<string>)
    ensures |rows| >= 1 ==> |r| >= 1
    ensures |rows| <= 1 ==> r == rows
    ensures |rows| > 1 && 0 <= idx < |rows| ==> r == rows[..idx] + rows[idx + 1..]
    ensures !(0 <= idx < |rows|) ==> r == rows
  {
    if |rows| == 1 then rows
    else
      FilterIndexDrops(rows, idx, 0);
      assert rows[0..] == rows;
      FilterIndex(rows, idx, 0)
  }

  // ------------------------------------------------------------ validation

  /** The checks of the save handler, in the order it runs them. */
  datatype Check =
    | TitleRequired
    | DescriptionRequired
    | PrepTimeNumber
    | CookTimeNumber
    | ServingsNumber
    | CaloriesNumber
    | IngredientsFilled
    | InstructionsFilled
  {
    /** The position of the check in the chain. */
    function Rank(): nat {
      match this
      case TitleRequired => 0
      case DescriptionRequired => 1
      case PrepTimeNumber => 2
      case CookTimeNumber => 3
      case ServingsNumber => 4
      case CaloriesNumber => 5
      case IngredientsFilled => 6
      case InstructionsFilled => 7
    }

    /** The alert shown when the check fails. */
    function Message(): string {
      match this
      case TitleRequired => "Title is required"
      case DescriptionRequired => "Description is required"
      case PrepTimeNumber => "Prep time must be a number"
      case CookTimeNumber => "Cook time must be a number"
      case ServingsNumber => "Servings must be a number"
      case CaloriesNumber => "Calories must be a number"
      case IngredientsFilled => "All ingredients must be filled"
      case InstructionsFilled => "All instructions must be filled"
    }
  }

  /** Each failed check shows its own alert. */
  lemma MessagesDistinct(c: Check, d: Check)
    requires c != d
    ensures c.Message() != d.Message()
  {
  }

  /** What the form holds when Save is pressed. */
  datatype Fields = Fields(
    title: string,
    description: string,
    prepTime: string,
    cookTime: string,
    servings: string,
    calories: string,
    ingredients: seq<string>,
    instructions: seq<string>,
    imageUrl: Option<string>)

  /** `!s || isNaN(Number(s))`: empty, or not a number. A field that
      trims to an optionally signed run of digits passes (its value is
      given by `NumberOfDecimal`), and so does a non-empty blank one;
      every other field fails. */
  predicate NotANumber(s: string): (b: bool)
    ensures s == "" ==> b
    ensures s != "" && IsBlank(s) ==> !b
    ensures b <==> s == "" || (!IsBlank(s) && !IsIntegerLiteral(Trim(s)))
  {
    s == "" || ParseNumber(s).None?
  }

  /** A field whose trimmed text holds a character other than a digit,
      apart from a sign in front of at least one more character, is
      rejected as not a number by this model's `Number`, and so by
      `HandleSave`. (JavaScript's `Number` also reads fractions,
      exponents, `Infinity` and hex literals, which this model does not.) */
  lemma NonNumericRejected(s: string, i: nat)
    requires i < |Trim(s)| && !IsDigit(Trim(s)[i])
    requires !(i == 0 && |Trim(s)| > 1 && (Trim(s)[0] == '-' || Trim(s)[0] == '+'))
    ensures NotANumber(s)
  {
    var t := Trim(s);
    if i > 0 {
      assert t[1..][i - 1] == t[i];
    }
  }

  /** `rows.some((i) => !i.trim())`: a row trims to nothing exactly when
      it is blank. */
  predicate SomeBlank(rows: seq<string>): (b: bool)
    ensures b <==> HasBlankRow(rows)
  {
    exists i :: 0 <= i < |rows| && Trim(rows[i]) == ""
  }

  predicate HasBlankRow(rows: seq<string>) {
    exists i :: 0 <= i < |rows| && IsBlank(rows[i])
  }

  /** Whether check `c`, taken on its own, rejects the form. */
  predicate Fails(f: Fields, c: Check) {
    match c
    case TitleRequired => IsBlank(f.title)
    case DescriptionRequired => IsBlank(f.description)
    case PrepTimeNumber => NotANumber(f.prepTime)
    case CookTimeNumber => NotANumber(f.cookTime)
    case ServingsNumber => NotANumber(f.servings)
    case CaloriesNumber => NotANumber(f.calories)
    case IngredientsFilled => HasBlankRow(f.ingredients)
    case InstructionsFilled => HasBlankRow(f.instructions)
  }

  /** The guard chain of the save handler: the first failing check, or
      None when every check passes. */
  function Validate(f: Fields): (r: Option<Check>)
    ensures r.Some? ==> Fails(f, r.value)
    ensures r.Some? ==> forall c: Check :: c.Rank() < r.value.Rank() ==> !Fails(f, c)
    ensures r.None? ==> forall c: Check :: !Fails(f, c)
  {
    if Trim(f.title) == "" then
      PassesBelow(f, 0);
      Some(TitleRequired)
    else if Trim(f.description) == "" then
      PassesBelow(f, 1);
      Some(DescriptionRequired)
    else if NotANumber(f.prepTime) then
      PassesBelow(f, 2);
      Some(PrepTimeNumber)
    else if NotANumber(f.cookTime) then
      PassesBelow(f, 3);
      Some(CookTimeNumber)
    else if NotANumber(f.servings) then
      PassesBelow(f, 4);
      Some(ServingsNumber)
    else if NotANumber(f.calories) then
      PassesBelow(f, 5);
      Some(CaloriesNumber)
    else if SomeBlank(f.ingredients) then
      PassesBelow(f, 6);
      Some(IngredientsFilled)
    else if SomeBlank(f.instructions) then
      PassesBelow(f, 7);
      Some(InstructionsFilled)
    else
      PassesBelow(f, 8);
      None
  }

  /** The checks ranked below `k` all pass when each of them passes. */
  lemma PassesBelow(f: Fields, k: nat)
    requires k > 0 ==> !Fails(f, TitleRequired)
    requires k > 1 ==> !Fails(f, DescriptionRequired)
    requires k > 2 ==> !Fails(f, PrepTimeNumber)
    requires k > 3 ==> !Fails(f, CookTimeNumber)
    requires k > 4 ==> !Fails(f, ServingsNumber)
    requires k > 5 ==> !Fails(f, CaloriesNumber)
    requires k > 6 ==> !Fails(f, IngredientsFilled)
    requires k > 7 ==> !Fails(f, InstructionsFilled)
    ensures forall c: Check :: c.Rank() < k ==> !Fails(f, c)
  {
    forall c: Check | c.Rank() < k ensures !Fails(f, c) {
      match c
      case TitleRequired =>
      case DescriptionRequired =>
      case PrepTimeNumber =>
      case CookTimeNumber =>
      case ServingsNumber =>
      case CaloriesNumber =>
      case IngredientsFilled =>
      case InstructionsFilled =>
    }
  }

  /** What a form that passed every check holds. */
  lemma PassedChecks(f: Fields)
    requires Validate(f).None?
    ensures !IsBlank(f.title) && !IsBlank(f.description)
    ensures ParseNumber(f.prepTime).Some? && ParseNumber(f.cookTime).Some?
    ensures ParseNumber(f.servings).Some? && ParseNumber(f.calories).Some?
    ensures forall i :: 0 <= i < |f.ingredients| ==> !IsBlank(f.ingredients[i])
    ensures forall i :: 0 <= i < |f.instructions| ==> !IsBlank(f.instructions[i])
  {
    assert !Fails(f, TitleRequired) && !Fails(f, DescriptionRequired);
    assert !Fails(f, PrepTimeNumber) && !Fails(f, CookTimeNumber);
    assert !Fails(f, ServingsNumber) && !Fails(f, CaloriesNumber);
    assert !Fails(f, IngredientsFilled) && !Fails(f, InstructionsFilled);
  }

  /** `rows.map((i) => i.trim())`. */
  function TrimAll(rows: seq<string>): (r: seq<string>)
    ensures |r| == |rows|
    ensures forall i :: 0 <= i < |rows| ==> r[i] == Trim(rows[i])
  {
    seq(|rows|, i requires 0 <= i < |rows| => Trim(rows[i]))
  }

  /** The record the save handler writes for a form that passed every
      check, with the generated id and the current time passed in. */
  function BuildRecipe(f: Fields, id: string, now: string): (r: Recipe)
    requires Validate(f).None?
    ensures r.id == id
    ensures r.title == Trim(f.title) && r.title != ""
    ensures r.description == Trim(f.description) && r.description != ""
    ensures Some(r.prepTime) == ParseNumber(f.prepTime) && Some(r.cookTime) == ParseNumber(f.cookTime)
    ensures Some(r.servings) == ParseNumber(f.servings) && Some(r.calories) == ParseNumber(f.calories)
    ensures |r.ingredients| == |f.ingredients|
    ensures forall i :: 0 <= i < |f.ingredients| ==>
      r.ingredients[i] == Trim(f.ingredients[i]) && r.ingredients[i] != ""
    ensures |r.instructions| == |f.instructions|
    ensures forall i :: 0 <= i < |f.instructions| ==>
      r.instructions[i] == Trim(f.instructions[i]) && r.instructions[i] != ""
    ensures r.imageUrl == f.imageUrl
    ensures r.createdAt == r.updatedAt == now
  {
    PassedChecks(f);
    Recipe(
      id := id,
      title := Trim(f.title),
      description := Trim(f.description),
      prepTime := ParseNumber(f.prepTime).value,
      cookTime := ParseNumber(f.cookTime).value,
      servings := ParseNumber(f.servings).value,
      ingredients := TrimAll(f.ingredients),
      instructions := TrimAll(f.instructions),
      imageUrl := f.imageUrl,
      calories := ParseNumber(f.calories).value,
      createdAt := now,
      updatedAt := now)
  }

  /** The numeric checks let through a field of spaces, read as 0... */
  lemma BlankNumberIsZero(pad: string)
    requires pad != "" && IsBlank(pad)
    ensures !NotANumber(pad) && ParseNumber(pad) == Some(0)
  {
  }

  /** ... and a negative number, read as itself. */
  lemma {:induction false} NegativeNumberAdmitted(n: nat)
    ensures !NotANumber("-" + ShowNat(n)) && ParseNumber("-" + ShowNat(n)) == Some(-(n as int))
  {
    var d := ShowNat(n);
    var s := "-" + d;
    assert s[1..] == d;
    assert TrimStart(s) == s;
    assert TrimEnd(s) == s;
    assert Trim(s) == s;
    ShowNatValue(n);
  }

  // -------------------------------------------------------- the form state

  /** How a press of Save ended and which alert it showed. */
  datatype SaveResult =
    | Rejected(check: Check)
    | Saved(recipe: Recipe)
    | SaveFailed(error: DbError)
  {
    function Alert(): (m: string)
      ensures Rejected? ==> m == check.Message()
      ensures Saved? <==> m == "Recipe saved!"
      ensures SaveFailed? <==> m == "Error saving recipe"
    {
      match this
      case Rejected(c) => c.Message()
      case Saved(_) => "Recipe saved!"
      case SaveFailed(_) => "Error saving recipe"
    }
  }

  /** What happened to the `saving` flag and the store, in order. */
  datatype Event = SavingSet(value: bool) | WriteStarted(saving: bool)

  class Form {
    var title: string
    var description: string
    var prepTime: string
    var cookTime: string
    var servings: string
    var calories: string
    var ingredients: seq<string>
    var instructions: seq<string>
    var imageUrl: Option<string>
    var saving: bool
    /** Every change of `saving` and every write to the store, in order. */
    ghost var trace: seq<Event>

    function FieldsOf(): Fields
      reads this
    {
      Fields(title, description, prepTime, cookTime, servings, calories,
             ingredients, instructions, imageUrl)
    }

    /** Neither list ever drops below one row. */
    ghost predicate Valid()
      reads this
    {
      |ingredients| >= 1 && |instructions| >= 1
    }

    /** The screen as it mounts: empty fields and one empty row in each list. */
    constructor ()
      ensures Valid()
      ensures FieldsOf() == Fields("", "", "", "", "", "", [""], [""], None)
      ensures !saving && trace == []
    {
      title, description := "", "";
      prepTime, cookTime, servings, calories := "", "", "", "";
      ingredients, instructions := [""], [""];
      imageUrl := None;
      saving := false;
      trace := [];
    }

    method HandleAddIngredient()
      requires Valid()
      modifies this`ingredients
      ensures Valid() && ingredients == AddRow(old(ingredients))
    {
      ingredients := AddRow(ingredients);
    }

    method HandleIngredientChange(text: string, idx: nat)
      requires Valid() && idx < |ingredients|
      modifies this`ingredients
      ensures Valid() && ingredients == ChangeRow(old(ingredients), idx, text)
    {
      ingredients := ChangeRow(ingredients, idx, text);
    }

    method HandleRemoveIngredient(idx: int)
      requires Valid()
      modifies this`ingredients
      ensures Valid() && ingredients == RemoveRow(old(ingredients), idx)
    {
      ingredients := RemoveRow(ingredients, idx);
    }

    method HandleAddInstruction()
      requires Valid()
      modifies this`instructions
      ensures Valid() && instructions == AddRow(old(instructions))
    {
      instructions := AddRow(instructions);
    }

    method HandleInstructionChange(text: string, idx: nat)
      requires Valid() && idx < |instructions|
      modifies this`instructions
      ensures Valid() && instructions == ChangeRow(old(instructions), idx, text)
    {
      instructions := ChangeRow(instructions, idx, text);
    }

    method HandleRemoveInstruction(idx: int)
      requires Valid()
      modifies this`instructions
      ensures Valid() && instructions == RemoveRow(old(instructions), idx)
    {
      instructions := RemoveRow(instructions, idx);
    }

    /** `handleSave`, with the generated id and the current time passed in.
        A rejected form writes nothing and leaves `saving` alone; otherwise
        `saving` is raised, the built recipe is added, and `saving` is
        lowered again whether the write succeeded or failed. */
    method HandleSave(store: RecipeDb, id: string, now: string) returns (result: SaveResult)
      requires store.Valid()
      modifies this`saving, this`trace, store
      ensures store.Valid() && FieldsOf() == old(FieldsOf())
      ensures Validate(FieldsOf()).Some? ==>
        && result == Rejected(Validate(FieldsOf()).value)
        && saving == old(saving) && trace == old(trace)
        && unchanged(store)
      ensures Validate(FieldsOf()).None? ==>
        var r := BuildRecipe(FieldsOf(), id, now);
        var write := Insert(old(store.State()), r);
        && store.State() == write.state
        && result == (if write.outcome.Done? then Saved(r) else SaveFailed(write.outcome.error))
        && !saving
        && trace == old(trace) + [SavingSet(true), WriteStarted(true), SavingSet(false)]
    {
      var f := FieldsOf();
      var rejected := Validate(f);
      if rejected.Some? {
        return Rejected(rejected.value);
      }
      var r := BuildRecipe(f, id, now);
      ghost var before := store.State();
      result := WriteWhileSaving(store, r);
      assert FieldsOf() == f && before == old(store.State());
    }

    /** The `try`/`finally` block of `handleSave`: `saving` is up while the
        recipe is added, and down again however the write ends. */
    method WriteWhileSaving(store: RecipeDb, r: Recipe) returns (result: SaveResult)
      requires store.Valid()
      modifies this`saving, this`trace, store
      ensures store.Valid()
      ensures var write := Insert(old(store.State()), r);
        && store.State() == write.state
        && result == (if write.outcome.Done? then Saved(r) else SaveFailed(write.outcome.error))
      ensures !saving && trace == old(trace) + [SavingSet(true), WriteStarted(true), SavingSet(false)]
    {
      saving := true;
      trace := trace + [SavingSet(saving)];
      var written := Write(store, r);
      if written.Done? {
        result := Saved(r);
      } else {
        result := SaveFailed(written.error);
      }
      saving := false;
      trace := trace + [SavingSet(saving)];
    }

    /** The `addRecipe` call, recorded with the value `saving` has when the
        write starts. */
    method Write(store: RecipeDb, r: Recipe) returns (o: Outcome)
      requires store.Valid()
      modifies this`trace, store
      ensures store.Valid()
      ensures Run(store.State(), o) == Insert(old(store.State()), r)
      ensures trace == old(trace) + [WriteStarted(saving)]
    {
      trace := trace + [WriteStarted(saving)];
      o := store.AddRecipe(r);
    }
  }
}

# Recipe store and new-recipe form, modelled in Dafny

This project models the two stateful parts of a small recipe app:

- **The local recipe store** (`data/sqlite.ts`). A module-level cached database handle sits over a SQLite file. The file holds a `db_version` table with one version row and a `recipes` table. The module does schema set-up with a one-step migration, seeds sample recipes into an empty table, and does create, read, update and delete on recipes.
- **The new-recipe screen** (`app/recipe/new.tsx`). It edits the ingredient and instruction lists row by row. Its save handler checks the form in a fixed order, builds a trimmed `Recipe` and writes it through the store.

Files:

- `recipe.dfy` (module `RecipeTypes`): the `Recipe` record (`types/recipe.ts`), the `Row` it is stored as, and the conversions between the two.
- `js_text.dfy` (module `JsText`): the two JavaScript built-ins the form relies on. These are `String.prototype.trim`, with the white-space set of ECMA-262 sections 12.2 and 12.3, and the string-to-number conversion `Number(s)` of ECMA-262 section 7.1.4.1.1, restricted to integers.
- `store_spec.dfy` (module `StoreSpec`): what each statement of the store does to the database, as functions on a `DbState` value. It also holds the lemmas about them.
  - The SQL engine is abstract: a statement on a missing table fails, an INSERT on a taken primary key fails, and a SELECT sees rows in insertion order.
  - A failing statement changes nothing.
- `store.dfy` (module `RecipeStore`): class `RecipeDb`, the module state itself. Its fields are the cached handle `db` and the file contents. It has one method per exported or internal function.
  - Every method obtains the handle through `GetDb` first, as the source does.
  - Every method is proved to leave the file as the matching `StoreSpec` function says.
- `new_recipe_form.dfy` (module `NewRecipeForm`) holds the screen's logic:
  - the list handlers, as functions on `seq<string>`;
  - the validation chain;
  - the record builder;
  - class `Form`, whose fields are the screen's state variables and whose methods are the handlers. `HandleSave` raises `saving`, writes through a `RecipeDb`, and lowers `saving` however the write ends.

Three behaviours of the code matter for what the model promises:

- **Missing version row.** `initVersionTable` fills a missing version row with `DB_VERSION`, which is 1 (data/sqlite.ts:39-41). The migration at data/sqlite.ts:50 therefore never runs on a new database; see Findings.
- **Numeric fields.** The numeric checks at app/recipe/new.tsx:74-81 let through `"-5"`, which is stored as -5, and a field of spaces, which is stored as 0. `Recipe`'s numbers are therefore `int`, and `NegativeNumberAdmitted` and `BlankNumberIsZero` prove that these inputs pass.
- **No transactions.** Nothing in data/sqlite.ts:45-99 runs inside a transaction. A migration that fails part-way is not rolled back. The seeding loop keeps the rows it added before a failing record (`InsertAllStops`).

## Model

| member | source | states |
|---|---|---|
| RecipeTypes.ToRow | data/sqlite.ts:103-120 | The INSERT binds the recipe's twelve fields, and an absent image becomes NULL. Decoding the bound row gives back the recipe, up to the absent/null image noted under "Left out". |
| RecipeTypes.FromRow | data/sqlite.ts:126-134 | Decoding a row keeps its id and creation time. |
| RecipeTypes.RowRoundTrip | data/sqlite.ts:126-134 | Re-binding a decoded row gives the same row: no column is lost or swapped between table and record. |
| JsText.LeadingSpaces | app/recipe/new.tsx:72 | The count of leading white-space characters: every counted character is white space, and the next one is not. |
| JsText.TrailingSpaces | app/recipe/new.tsx:72 | The same at the end of the string. |
| JsText.TrimStart | app/recipe/new.tsx:72 | The result is a suffix of the input. What was cut off is blank, and the result starts with a non-space. |
| JsText.TrimEnd | app/recipe/new.tsx:72 | The result is a prefix of the input. What was cut off is blank, and the result ends with a non-space. |
| JsText.Trim | app/recipe/new.tsx:72-73 | `trim()` gives the empty string exactly when the input is blank. Otherwise the result starts and ends with a non-space and is no longer than the input. |
| JsText.TrimIdempotent | app/recipe/new.tsx:92-99 | Trimming an already trimmed value changes nothing. |
| JsText.TrimKeeps | app/recipe/new.tsx:92 | A string with non-space ends is its own trim. |
| JsText.TrimPadded | app/recipe/new.tsx:92 | Trimming removes exactly the blank padding around a string with non-space ends. |
| JsText.ParseNumber | app/recipe/new.tsx:74-81 | `Number(s)` of a blank or empty string is 0, and `Number(s)` is a number exactly when `s` is blank or trims to an optionally signed run of digits; every other string is NaN. |
| JsText.PlusSignIgnored | app/recipe/new.tsx:74-81 | `Number("+" + d)` for a run of digits d is the value of d, the same as `Number(d)`; it is what `handleSave` stores at new.tsx:94-97. |
| JsText.MinusSignNegates | app/recipe/new.tsx:74-81 | `Number("-" + d)` for a run of digits d is minus `Number(d)`. |
| JsText.ShowNatValue | app/recipe/new.tsx:94-97 | The decimal digits of a natural number read back as that number. |
| JsText.NumberOfDecimal | app/recipe/new.tsx:94-97 | A number typed in decimal form, with spaces on either side, converts to itself. |
| JsText.NumberOfDigits | app/recipe/new.tsx:94-97 | A string that trims to a run of digits converts to their value. |
| StoreSpec.CurrentVersion | data/sqlite.ts:18-22 | Fails exactly when `db_version` is missing. Otherwise it gives the stored version, and 0 when there is no row. |
| StoreSpec.SetVersion | data/sqlite.ts:24-27 | Fails exactly when `db_version` is missing. The UPDATE sets an existing row's version and never adds a row. Nothing else changes. |
| StoreSpec.InitVersionTable | data/sqlite.ts:29-43 | Afterwards the table exists and holds a row. An existing row is kept; otherwise the row records DB_VERSION. `recipes` is untouched. |
| StoreSpec.RunMigrations | data/sqlite.ts:45-80 | Fails, changing nothing, exactly when the version cannot be read. Otherwise it creates `recipes` exactly when the version read is below 1. An existing version row then records DB_VERSION; with no row, there is still none afterwards. |
| StoreSpec.InitRecipesTable | data/sqlite.ts:82-88 | Never fails and always ends at DB_VERSION. Afterwards `recipes` exists exactly when it existed before or a stored version was below 1. The rows are untouched. |
| StoreSpec.InitRecipesTableIdempotent | data/sqlite.ts:82-88 | Running the schema set-up twice is running it once. |
| StoreSpec.FreshStoreLacksRecipesTable | data/sqlite.ts:37-50 | On a database file never opened before, the set-up ends at version 1 without a `recipes` table. Seeding and reading all then fail on the missing table. |
| StoreSpec.InitVersionTableIntended | data/sqlite.ts:37-42 | Corrected set-up: a missing version row is recorded as 0. |
| StoreSpec.InitRecipesTableIntended | data/sqlite.ts:82-88 | Corrected set-up: `recipes` exists afterwards whenever there was no version row, or the version was below 1. |
| StoreSpec.FreshStoreIntended | data/sqlite.ts:45-99 | With the corrected set-up, a fresh file ends at version 1 with an empty `recipes` table, and seeding then stores every seed recipe in order. |
| StoreSpec.FindRow | data/sqlite.ts:144 | The primary-key lookup finds a row exactly when one has the id, and the row found has that id. |
| StoreSpec.FindRowUnique | data/sqlite.ts:144 | With unique ids, looking up a row's id finds that very row. |
| StoreSpec.Insert | data/sqlite.ts:101-121 | Succeeds exactly when `recipes` exists and the id is free. A missing table or a taken id is the error. On failure nothing changes; on success exactly the recipe's row is appended. Well-formedness is kept. |
| StoreSpec.DecodeAll | data/sqlite.ts:126-134 | Every row is decoded, one record per row, in storage order. |
| StoreSpec.SelectAll | data/sqlite.ts:123-135 | Fails exactly when `recipes` is missing. Otherwise record i is the decoding of stored row i, for every row, in storage order. |
| StoreSpec.SelectById | data/sqlite.ts:142-155 | Fails exactly when `recipes` is missing. Otherwise it finds a record exactly when a row has the id, and that record is the decoding of a stored row with the id. |
| StoreSpec.AddThenGet | data/sqlite.ts:101-155 | After a successful add, reading the id gives the recipe back unchanged, up to the absent/null image noted under "Left out". Reading all gives the earlier records followed by it. |
| StoreSpec.Updated | data/sqlite.ts:159-185 | The rewritten row decodes to the new recipe with the row's own id and `createdAt`. |
| StoreSpec.UpdateRows | data/sqlite.ts:159-185 | Rows with the id are rewritten, all others kept, in place and in order. |
| StoreSpec.Update | data/sqlite.ts:157-186 | Fails exactly when `recipes` is missing, changing nothing. Otherwise it keeps the number of rows and every row's id, and so keeps the key unique. |
| StoreSpec.UpdateUnknownId | data/sqlite.ts:157-186 | An update for an id that is not stored changes nothing. |
| StoreSpec.UpdateThenGet | data/sqlite.ts:142-186 | After an update, the id reads back as the new recipe with the stored `createdAt`. Every other id reads back as before. |
| StoreSpec.DeleteRows | data/sqlite.ts:139 | No row with the id remains, and no row is added. |
| StoreSpec.DeleteRowsAbsent | data/sqlite.ts:139 | Deleting an id no row has changes nothing. |
| StoreSpec.DeleteRowsAt | data/sqlite.ts:139 | With unique ids, deleting row k's id removes exactly row k and keeps the others in order. |
| StoreSpec.DeleteKeepsUnique | data/sqlite.ts:139 | Deleting keeps the primary key unique. |
| StoreSpec.Delete | data/sqlite.ts:137-140 | Fails exactly when `recipes` is missing, changing nothing. Otherwise only the rows change: they become the `WHERE id = ?` filter of the old rows, the id is gone, and well-formedness is kept. |
| StoreSpec.DeleteRemovesOnly | data/sqlite.ts:137-140 | Deleting a stored recipe's id removes exactly its row; the other rows keep their order. |
| StoreSpec.DeleteUnknownId | data/sqlite.ts:137-140 | Deleting an id that is not stored changes nothing. |
| StoreSpec.DeleteThenGet | data/sqlite.ts:137-155 | After a delete, reading that id finds nothing. |
| StoreSpec.RowsOf | data/sqlite.ts:95-97 | The rows of a list of recipes, one per recipe, in order. |
| StoreSpec.Count | data/sqlite.ts:93-94 | The count fails exactly when `recipes` is missing, and is 0 exactly when the table is empty. |
| StoreSpec.InsertAll | data/sqlite.ts:95-97 | The seeding loop changes only the rows. |
| StoreSpec.InsertAllKeepsPrefix | data/sqlite.ts:95-97 | The loop only appends. The rows stored before it stay in front, whether or not an add fails. |
| StoreSpec.InsertAllStops | data/sqlite.ts:95-97 | A loop that fails stopped at some record k. The records before k are stored, in order, after the earlier rows. Adding record k failed with the error the loop reports. |
| StoreSpec.InsertAllComplete | data/sqlite.ts:95-97 | A loop that runs to the end has appended every recipe's row, in order. |
| StoreSpec.InsertAllKeepsWf | data/sqlite.ts:95-97 | The loop keeps the database well-formed. |
| StoreSpec.InsertAllFresh | data/sqlite.ts:95-97 | Recipes with distinct ids not yet stored all go in, in order. |
| StoreSpec.Seed | data/sqlite.ts:91-99 | A missing table fails. A non-empty table is left alone. Seeding an empty table that runs to the end stores exactly the seed rows. Well-formedness is kept. |
| StoreSpec.SeedIntoEmptyTable | data/sqlite.ts:91-99 | Seeding an empty table with distinct ids stores every seed recipe in order. |
| StoreSpec.SeedIdempotent | data/sqlite.ts:91-99 | Seeding twice is seeding once. |
| StoreSpec.AddReadDeleteScenario | data/sqlite.ts:101-140 | Add a recipe to an empty table, read all, delete it, read all: the reads give `[recipe]` and then `[]`. |
| RecipeStore.Connection.Open | data/sqlite.ts:9 | The handle is on the file it was opened with. |
| RecipeStore.RecipeDb.constructor | data/sqlite.ts:5 | The module starts with no cached handle, over the file as earlier runs left it. |
| RecipeStore.RecipeDb.GetDb | data/sqlite.ts:7-14 | The first call opens `recipes.db`. Later calls return the cached handle without opening again. |
| RecipeStore.RecipeDb.GetCurrentVersion | data/sqlite.ts:18-22 | Returns `CurrentVersion` of the file. |
| RecipeStore.RecipeDb.UpdateVersion | data/sqlite.ts:24-27 | Leaves the file and outcome that `SetVersion` gives. |
| RecipeStore.RecipeDb.InitVersionTable | data/sqlite.ts:29-43 | Leaves the file that `StoreSpec.InitVersionTable` gives. |
| RecipeStore.RecipeDb.RunMigrations | data/sqlite.ts:45-80 | Leaves the file and outcome that `StoreSpec.RunMigrations` gives. |
| RecipeStore.RecipeDb.InitRecipesTable | data/sqlite.ts:82-88 | Leaves the file and outcome that `StoreSpec.InitRecipesTable` gives. |
| RecipeStore.RecipeDb.MigrateDefaultRecipes | data/sqlite.ts:91-99 | Its loop of `AddRecipe` calls leaves the file and outcome that `Seed` gives. |
| RecipeStore.RecipeDb.AddRecipe | data/sqlite.ts:101-121 | Leaves the file and outcome that `Insert` gives. |
| RecipeStore.RecipeDb.GetAllRecipes | data/sqlite.ts:123-135 | Returns `SelectAll` of the file. |
| RecipeStore.RecipeDb.DeleteRecipe | data/sqlite.ts:137-140 | Leaves the file and outcome that `Delete` gives. |
| RecipeStore.RecipeDb.GetRecipeById | data/sqlite.ts:142-155 | Returns `SelectById` of the file. |
| RecipeStore.RecipeDb.UpdateRecipe | data/sqlite.ts:157-186 | Leaves the file and outcome that `Update` gives. |
| NewRecipeForm.AddRow | app/recipe/new.tsx:35 | One more row, empty, after the unchanged old rows. |
| NewRecipeForm.ChangeRow | app/recipe/new.tsx:36-40 | Same length. Row `idx` holds the new text, and every other row is unchanged. |
| NewRecipeForm.FilterIndex | app/recipe/new.tsx:43 | The filter is one shorter than the list exactly when the index is inside it. It keeps only rows of the list. |
| NewRecipeForm.FilterIndexDrops | app/recipe/new.tsx:43 | The index filter drops exactly position `idx`, keeping order. An index outside the list drops nothing. |
| NewRecipeForm.RemoveRow | app/recipe/new.tsx:41-44 | A one-row list is untouched, and a list with rows keeps at least one. Otherwise exactly row `idx` goes, the others keep their order, and an out-of-range index changes nothing. |
| NewRecipeForm.Validate | app/recipe/new.tsx:72-85 | The chain reports a check that fails, and every check before it passes. When it reports nothing, every check passes. |
| NewRecipeForm.NotANumber | app/recipe/new.tsx:74-81 | An empty field fails the check. A non-empty field of spaces passes it. Otherwise a field fails exactly when its trimmed text is not an optionally signed run of digits. |
| NewRecipeForm.NonNumericRejected | app/recipe/new.tsx:74-81 | A field whose trimmed text has a non-digit, other than a leading sign before more text, fails the model's numeric check, so the model's `HandleSave` rejects it. The screen itself also accepts fractions, exponents, `Infinity` and hex literals; see the `JsText.ParseNumber` line under "Left out". |
| NewRecipeForm.SomeBlank | app/recipe/new.tsx:82-85 | Some row trims to the empty string exactly when some row is blank. |
| NewRecipeForm.MessagesDistinct | app/recipe/new.tsx:72-85 | Each failed check shows an alert of its own. |
| NewRecipeForm.SaveResult.Alert | app/recipe/new.tsx:72-108 | A rejection shows its check's message. "Recipe saved!" is shown exactly after a successful write, and "Error saving recipe" exactly after a failed one. |
| NewRecipeForm.PassedChecks | app/recipe/new.tsx:72-85 | A form that passes: non-blank title and description, four fields that convert to numbers, and no blank list row. |
| NewRecipeForm.TrimAll | app/recipe/new.tsx:98-99 | Every row trimmed, in order. |
| NewRecipeForm.BuildRecipe | app/recipe/new.tsx:89-103 | The record carries the given id, and the trimmed, non-empty title and description. The four numbers are `Number` of the fields, and the lists are trimmed row by row with no empty row. The image is exactly the one picked, or none, and both timestamps are the same instant. |
| NewRecipeForm.BlankNumberIsZero | app/recipe/new.tsx:74-81 | A numeric field of spaces passes its check and is stored as 0. |
| NewRecipeForm.NegativeNumberAdmitted | app/recipe/new.tsx:74-81 | A negative integer passes its check and is stored as itself. |
| NewRecipeForm.Form.constructor | app/recipe/new.tsx:24-33 | The screen mounts with empty fields, one empty row in each list, no image and `saving` down. |
| NewRecipeForm.Form.HandleAddIngredient | app/recipe/new.tsx:35 | The ingredient list becomes `AddRow` of itself. |
| NewRecipeForm.Form.HandleIngredientChange | app/recipe/new.tsx:36-40 | The ingredient list becomes `ChangeRow` of itself. |
| NewRecipeForm.Form.HandleRemoveIngredient | app/recipe/new.tsx:41-44 | The ingredient list becomes `RemoveRow` of itself and never drops below one row. |
| NewRecipeForm.Form.HandleAddInstruction | app/recipe/new.tsx:46 | The instruction list becomes `AddRow` of itself. |
| NewRecipeForm.Form.HandleInstructionChange | app/recipe/new.tsx:47-51 | The instruction list becomes `ChangeRow` of itself. |
| NewRecipeForm.Form.HandleRemoveInstruction | app/recipe/new.tsx:52-55 | The instruction list becomes `RemoveRow` of itself and never drops below one row. |
| NewRecipeForm.Form.HandleSave | app/recipe/new.tsx:70-112 | A rejected form shows the first failing check's alert and touches neither `saving` nor the store. A form that passes has its built record inserted, and the result is "saved" or the store's error. The trace, which records the value of `saving` at each change and at the write, shows it raised, still up when the write starts, and lowered after it. |
| NewRecipeForm.Form.WriteWhileSaving | app/recipe/new.tsx:87-111 | The value of `saving` is recorded when it is set and when the write starts. It is up at the write and down afterwards, on success and on failure. The store ends as `Insert` says. |
| NewRecipeForm.Form.Write | app/recipe/new.tsx:90-103 | The `addRecipe` call: the store ends as `Insert` says, and the trace records the value `saving` has when the write starts. |

## Left out

- JSON encoding of the lists: `JSON.stringify` on write and `JSON.parse` on read are not modelled. The lists are stored as sequences of strings, so the round trip through their text form is taken as given.
- The two PRAGMA statements in `getDb` (journal mode, foreign keys): they have no effect on what this model observes.
- Engine failures other than a missing table and a taken primary key are not modelled: opening the file, disk errors and constraint checks on column types. `getDb` always succeeds.
- `async`/`await` interleaving: each call runs to completion before the next starts. Two overlapping first calls to `getDb` (which could open the file twice), or overlapping runs of `migrateDefaultRecipes`, are not modelled.
- JsText.ParseNumber: models `Number(s)` only for blank strings and optionally signed decimal integers. Fractions, exponents, `Infinity`, and hex, octal and binary literals come out as NaN here, although JavaScript accepts them. So the model rejects some inputs the screen accepts, and the numeric fields are integers. Integers are exact here, whereas JavaScript rounds beyond 2^53: `Number("9007199254740993")` is 9007199254740992. ParseNumber and NumberOfDecimal give the exact value for such inputs.
- RecipeTypes.FromRow: a NULL image reads back as `imageUrl: null`, because the reads spread the row (data/sqlite.ts:127, :147), not as an absent field as `imageUrl?: string` declares (types/recipe.ts:10). The model maps null and an absent field both to `None`, so its round trips are exact where JavaScript's differ in that one field.
- The `Number(...)` conversions of stored numeric columns on read are the identity on integers and are not modelled separately.
- `uuid.v4()` and `new Date().toISOString()` are parameters (`id`, `now`) of `HandleSave`, and the bundled `mockRecipes` are the `seeds` parameter of the seeding operations.
- `Alert.alert`, `router.back()` and `console.log`: the alert text is `SaveResult.Alert()` and `Check.Message()`, and navigation and logging are not modelled.
- `pickImage` and the image picker: `imageUrl` is a form field the model takes as given.
- The render tree, the text-field setters bound to each input, and the other screens (list, detail, edit) are not part of this model.
- NewRecipeForm.ChangeRow: requires an index inside the list. JavaScript would extend the array for an index past the end, but the screen only passes the index of a row it shows.
- A second press of Save while `saving` is up: the button is disabled only in the render tree, which is not modelled.

## Findings

| source | as written | input that shows it | evidently intended | confidence | as-written member | corrected member |
|---|---|---|---|---|---|---|
| data/sqlite.ts:37-50 | `initVersionTable` fills a missing version row with `DB_VERSION` (1) before `runMigrations` reads it, so `currentVersion < 1` is false and `CREATE TABLE recipes` never runs | a database file opened for the first time (`StoreSpec.Empty`): set-up ends at version 1 without `recipes`, then `migrateDefaultRecipes` and every read fail with "no such table" | a missing version row counts as version 0, so the version-1 migration creates `recipes` and seeding fills it | high for the model; not executed | StoreSpec.FreshStoreLacksRecipesTable | StoreSpec.FreshStoreIntended |

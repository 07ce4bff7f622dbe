/** The one entity of the application, shared by the store and the screens
    (types/recipe.ts), and the row it is stored as (data/sqlite.ts). */
module RecipeTypes {

  datatype Option<+T> = None | Some(value: T)

  /** A recipe as the screens handle it. `imageUrl == None` is the absent
      optional field; the four numbers are whatever `Number(...)` produced,
      so nothing here forces them to be non-negative. The two lists are kept
      as lists of strings: their JSON text form in the table is not modelled. */
  datatype Recipe = Recipe(
    id: string,
    title: string,
    description: string,
    prepTime: int,
    cookTime: int,
    servings: int,
    ingredients: seq<string>,
    instructions: seq<string>,
    imageUrl: Option<string>,
    calories: int,
    createdAt: string,
    updatedAt: string)

  /** One row of the `recipes` table, in the column order of its CREATE
      TABLE. `imageUrl == None` is SQL NULL, the only nullable column. */
  datatype Row = Row(
    id: string,
    title: string,
    description: string,
    prepTime: int,
    cookTime: int,
    servings: int,
    calories: int,
    ingredients: seq<string>,
    instructions: seq<string>,
    imageUrl: Option<string>,
    createdAt: string,
    updatedAt: string)

  /** The twelve bound parameters of the INSERT: an absent image becomes NULL. */
  function ToRow(r: Recipe): (row: Row)
    ensures row.id == r.id && row.createdAt == r.createdAt
    ensures row.imageUrl.None? <==> r.imageUrl.None?
    ensures FromRow(row) == r
  {
    Row(r.id, r.title, r.description, r.prepTime, r.cookTime, r.servings, r.calories,
        r.ingredients, r.instructions, r.imageUrl, r.createdAt, r.updatedAt)
  }

  /** The row decoding shared by `getAllRecipes` and `getRecipeById`: the
      spread of the row with the numeric and list columns converted back. */
  function FromRow(row: Row): (r: Recipe)
    ensures r.id == row.id && r.createdAt == row.createdAt
  {
    Recipe(row.id, row.title, row.description, row.prepTime, row.cookTime, row.servings,
           row.ingredients, row.instructions, row.imageUrl, row.calories,
           row.createdAt, row.updatedAt)
  }

  /** Decoding then re-binding a row gives back the same row: no column is
      lost or moved between the table and the record. */
  lemma RowRoundTrip(row: Row)
    ensures ToRow(FromRow(row)) == row
  {
  }
}

/**
 * The two records the app persists locally. Both tables carry an
 * auto-generated integer primary key; a freshly constructed record holds
 * the key 0, which auto-generation reads as "not yet assigned".
 */
module Entities {
  import opened Rows

  datatype Option<T> = None | Some(value: T)

  /** A row of the `items` table. `category` refers to a category by name, not by key. */
  datatype Item = Item(id: int, name: string, description: string, category: string, imagePath: string)

  /** A row of the `categories` table. */
  datatype Category = Category(id: int, name: string)

  /** `new Item(name, description, category, imagePath)`: the key is left unassigned. */
  function NewItem(name: string, description: string, category: string, imagePath: string): (r: Item)
    ensures r.name == name && r.description == description
    ensures r.category == category && r.imagePath == imagePath
    ensures forall rows: seq<Item> :: InsertOutcomeOf(rows, ItemId, r.id).Inserted?
  {
    Item(UNASSIGNED_KEY, name, description, category, imagePath)
  }

  /** `new Category(name)`: the key is left unassigned. */
  function NewCategory(name: string): (r: Category)
    ensures r.name == name
    ensures forall rows: seq<Category> :: InsertOutcomeOf(rows, CategoryId, r.id).Inserted?
  {
    Category(UNASSIGNED_KEY, name)
  }

  // Column accessors, passed to the generic row operations of module Rows.
  function ItemId(i: Item): int { i.id }
  function ItemName(i: Item): string { i.name }
  function CategoryId(c: Category): int { c.id }
  function CategoryName(c: Category): string { c.name }
}

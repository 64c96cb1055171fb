/**
 * The `items` table and the six operations its data access object declares
 * (ItemDao.java). Room turns each annotation into one SQL statement:
 *   insert      INSERT (abort on a key collision; key 0 means "generate one")
 *   update      UPDATE ... WHERE id = item.id
 *   delete      DELETE ... WHERE id = item.id
 *   deleteById  DELETE FROM items WHERE id = :itemId
 *   getAllItems SELECT * FROM items ORDER BY name ASC
 *   getItemsByCategory
 *               SELECT * FROM items WHERE category = :category ORDER BY name ASC
 * The pure functions below give each statement's effect on the table's rows;
 * class ItemTable holds the rows and changes them in place.
 */
module ItemDao {
  import opened Entities
  import opened Rows

  /** A write the DAO performs; the repository queues these. */
  datatype Write =
    | InsertWrite(item: Item)
    | UpdateWrite(item: Item)
    | DeleteWrite(item: Item)
    | DeleteByIdWrite(itemId: int)

  /** A call the DAO receives, as a recording test double would log it. */
  datatype Call =
    | WriteCall(write: Write)
    | GetAllItemsCall
    | GetItemsByCategoryCall(category: string)

  /** A live query handle; its value is re-evaluated against the table as it is now. */
  datatype Query = AllItemsQuery | ByCategoryQuery(category: string)

  function Ids(rows: seq<Item>): set<int>
  {
    KeysOf(rows, ItemId)
  }

  /** The table's integrity: keys are unique, and no stored row holds the unassigned key. */
  predicate WellFormed(rows: seq<Item>)
  {
    KeysWellFormed(rows, ItemId)
  }

  /** What `insert(item)` does: an unassigned key gets a fresh one, a taken key aborts. */
  function ItemInsertOutcome(rows: seq<Item>, item: Item): (o: InsertOutcome)
    ensures o.ConstraintViolation? <==> item.id != UNASSIGNED_KEY && item.id in Ids(rows)
    ensures o.Inserted? ==> o.id != UNASSIGNED_KEY && o.id !in Ids(rows)
    ensures o.Inserted? && item.id != UNASSIGNED_KEY ==> o.id == item.id
  {
    InsertOutcomeOf(rows, ItemId, item.id)
  }

  /** The rows after `insert(item)`; a rejected insert leaves them as they were. */
  function AfterInsert(rows: seq<Item>, item: Item): (r: seq<Item>)
    ensures WellFormed(rows) ==> WellFormed(r)
    ensures ItemInsertOutcome(rows, item).ConstraintViolation? ==> r == rows
    ensures ItemInsertOutcome(rows, item).Inserted? ==>
              |r| == |rows| + 1 && r[..|rows|] == rows
              && r[|rows|] == item.(id := ItemInsertOutcome(rows, item).id)
  {
    match ItemInsertOutcome(rows, item)
    case ConstraintViolation => rows
    case Inserted(id) =>
      var row := item.(id := id);
      assert WellFormed(rows) ==> WellFormed(rows + [row]) by {
        if WellFormed(rows) { AppendKeepsKeysWellFormed(rows, ItemId, row); }
      }
      rows + [row]
  }

  /** The rows after `update(item)`: the row with the same key takes the new values in place. */
  function AfterUpdate(rows: seq<Item>, item: Item): (r: seq<Item>)
    ensures |r| == |rows|
    ensures forall i :: 0 <= i < |rows| ==> r[i] == if rows[i].id == item.id then item else rows[i]
  {
    if rows == [] then []
    else [if rows[0].id == item.id then item else rows[0]] + AfterUpdate(rows[1..], item)
  }

  /** Accepts the rows a delete by `itemId` keeps. */
  function OtherThan(itemId: int): Item -> bool
  {
    KeyOtherThan(ItemId, itemId)
  }

  /** The rows after `deleteById(itemId)` (and after `delete(item)`, which Room matches by key). */
  function AfterDeleteById(rows: seq<Item>, itemId: int): (r: seq<Item>)
    ensures forall x :: x in r <==> x in rows && x.id != itemId
    ensures WellFormed(rows) ==> WellFormed(r)
  {
    FilterSpec(rows, OtherThan(itemId));
    assert WellFormed(rows) ==> WellFormed(Filter(rows, OtherThan(itemId))) by {
      if WellFormed(rows) { DeleteKeyKeepsKeysWellFormed(rows, ItemId, itemId); }
    }
    Filter(rows, OtherThan(itemId))
  }

  /** The effect of one queued write on the rows: integrity is kept, and `delete(item)`
      strikes out the rows holding the item's key, whatever their other columns. */
  function ApplyWrite(rows: seq<Item>, w: Write): (r: seq<Item>)
    ensures WellFormed(rows) ==> WellFormed(r)
    ensures w.DeleteWrite? ==> forall x :: x in r <==> x in rows && x.id != w.item.id
  {
    match w
    case InsertWrite(item) => AfterInsert(rows, item)
    case UpdateWrite(item) =>
      assert WellFormed(rows) ==> WellFormed(AfterUpdate(rows, item)) by {
        if WellFormed(rows) { UpdateKeepsWellFormed(rows, item); }
      }
      AfterUpdate(rows, item)
    case DeleteWrite(item) => AfterDeleteById(rows, item.id)
    case DeleteByIdWrite(itemId) => AfterDeleteById(rows, itemId)
  }

  /** The DAO call a queued write makes, as a function value for `Executor.Log`. */
  function CallOf(w: Write): Call
  {
    WriteCall(w)
  }

  /** The writes applied one after another. */
  function ApplyAll(rows: seq<Item>, ws: seq<Write>): seq<Item>
    decreases |ws|
  {
    if ws == [] then rows else ApplyAll(ApplyWrite(rows, ws[0]), ws[1..])
  }

  lemma ApplyTwo(rows: seq<Item>, w1: Write, w2: Write)
    ensures ApplyAll(rows, [w1, w2]) == ApplyWrite(ApplyWrite(rows, w1), w2)
  {
    var r1 := ApplyWrite(rows, w1);
    assert [w1, w2][0] == w1 && [w1, w2][1..] == [w2];
    assert ApplyAll(rows, [w1, w2]) == ApplyAll(r1, [w2]);
    assert [w2][0] == w2 && [w2][1..] == [];
    assert ApplyAll(r1, [w2]) == ApplyAll(ApplyWrite(r1, w2), []);
  }

  /** Applying a queue of writes and then one more is applying the longer queue. */
  lemma {:induction false} ApplyAllAppend(rows: seq<Item>, ws: seq<Write>, w: Write)
    ensures ApplyAll(rows, ws + [w]) == ApplyWrite(ApplyAll(rows, ws), w)
    decreases |ws|
  {
    if ws == [] {
      assert [w][1..] == [];
    } else {
      assert (ws + [w])[0] == ws[0] && (ws + [w])[1..] == ws[1..] + [w];
      ApplyAllAppend(ApplyWrite(rows, ws[0]), ws[1..], w);
    }
  }

  /** `SELECT * FROM items ORDER BY name ASC`. */
  function AllItemsOf(rows: seq<Item>): (r: seq<Item>)
    ensures SortedBy(r, ItemName)
    ensures multiset(r) == multiset(rows)
  {
    SortBySpec(rows, ItemName);
    SortBy(rows, ItemName)
  }

  function InCategory(category: string): Item -> bool
  {
    (r: Item) => r.category == category
  }

  /** `SELECT * FROM items WHERE category = :category ORDER BY name ASC`: exactly the
      rows of that category, and the all-items list with the other rows struck out. */
  function ItemsInCategoryOf(rows: seq<Item>, category: string): (r: seq<Item>)
    ensures SortedBy(r, ItemName)
    ensures forall x :: x in r <==> x in rows && x.category == category
    ensures multiset(r) <= multiset(rows)
    ensures r == Filter(AllItemsOf(rows), InCategory(category))
  {
    ItemsInCategorySpec(rows, category);
    SortBy(Filter(rows, InCategory(category)), ItemName)
  }

  lemma ItemsInCategorySpec(rows: seq<Item>, category: string)
    ensures var r := SortBy(Filter(rows, InCategory(category)), ItemName);
      && SortedBy(r, ItemName)
      && (forall x :: x in r <==> x in rows && x.category == category)
      && multiset(r) <= multiset(rows)
      && r == Filter(AllItemsOf(rows), InCategory(category))
  {
    var f := Filter(rows, InCategory(category));
    var r := SortBy(f, ItemName);
    FilterSpec(rows, InCategory(category));
    SortBySpec(f, ItemName);
    SortByFilter(rows, ItemName, InCategory(category));
    forall x ensures x in r <==> x in f {
      assert x in r <==> x in multiset(r);
      assert x in f <==> x in multiset(f);
    }
  }

  /** The value a live query currently holds: a name-ordered selection of the rows, all
      of them for `getAllItems`, exactly those of the category for `getItemsByCategory`. */
  function Value(q: Query, rows: seq<Item>): (r: seq<Item>)
    ensures SortedBy(r, ItemName)
    ensures multiset(r) <= multiset(rows)
    ensures q.AllItemsQuery? ==> multiset(r) == multiset(rows)
    ensures q.ByCategoryQuery? ==> forall x :: x in r <==> x in rows && x.category == q.category
  {
    match q
    case AllItemsQuery => AllItemsOf(rows)
    case ByCategoryQuery(category) => ItemsInCategoryOf(rows, category)
  }

  /** When no two items share a name, `ORDER BY name ASC` admits one listing only, and
      `getAllItems` is it: the order among equal names is the model's only choice. */
  lemma AllItemsOrderForced(rows: seq<Item>, listed: seq<Item>)
    requires NamesDistinct(multiset(rows), ItemName)
    requires SortedBy(listed, ItemName) && multiset(listed) == multiset(rows)
    ensures listed == AllItemsOf(rows)
  {
    SortedByDistinctNamesUnique(AllItemsOf(rows), listed, ItemName);
  }

  /** Likewise for `getItemsByCategory(c)`: with distinct names, any name-ordered listing
      of exactly the category's rows is the model's. */
  lemma ItemsInCategoryOrderForced(rows: seq<Item>, category: string, listed: seq<Item>)
    requires NamesDistinct(multiset(rows), ItemName)
    requires SortedBy(listed, ItemName)
    requires multiset(listed) == multiset(Filter(rows, InCategory(category)))
    ensures listed == ItemsInCategoryOf(rows, category)
  {
    var r := ItemsInCategoryOf(rows, category);
    SortBySpec(Filter(rows, InCategory(category)), ItemName);
    FilterSpec(rows, InCategory(category));
    NamesDistinctPart(multiset(rows), multiset(r), ItemName);
    SortedByDistinctNamesUnique(r, listed, ItemName);
  }

  /** After an accepted insert every previous item is still listed, and so is the new
      one under the key the insert reported; an item with the unassigned key is always
      accepted. */
  lemma InsertKeepsEveryRow(rows: seq<Item>, item: Item)
    ensures item.id == UNASSIGNED_KEY ==> ItemInsertOutcome(rows, item).Inserted?
    ensures forall x :: x in rows ==> x in AllItemsOf(AfterInsert(rows, item))
    ensures ItemInsertOutcome(rows, item).Inserted? ==>
              item.(id := ItemInsertOutcome(rows, item).id) in AllItemsOf(AfterInsert(rows, item))
    ensures |AllItemsOf(AfterInsert(rows, item))|
            == |rows| + (if ItemInsertOutcome(rows, item).Inserted? then 1 else 0)
  {
    var r := AfterInsert(rows, item);
    var listed := AllItemsOf(r);
    assert |listed| == |multiset(listed)| == |multiset(r)| == |r|;
    forall x | x in r ensures x in listed {
      assert x in multiset(r);
    }
    if ItemInsertOutcome(rows, item).Inserted? {
      assert r == rows + [r[|rows|]];
      assert r[|rows|] in r;
    }
  }

  /** `update` rewrites exactly the row with the item's key and leaves the others in place. */
  lemma UpdateReplacesRow(rows: seq<Item>, item: Item, k: int)
    requires WellFormed(rows) && 0 <= k < |rows| && rows[k].id == item.id
    ensures AfterUpdate(rows, item) == rows[k := item]
    ensures WellFormed(AfterUpdate(rows, item))
  {
    var r := AfterUpdate(rows, item);
    forall i | 0 <= i < |rows| ensures r[i] == rows[k := item][i] {
      if i != k {
        KeyAtUnique(rows, ItemId, i, k);
      }
    }
    assert r == rows[k := item];
    forall i, j | 0 <= i < j < |r| ensures r[i].id != r[j].id {
      KeyAtUnique(rows, ItemId, i, j);
    }
  }

  /** `update` of a key the table does not hold changes nothing. */
  lemma UpdateAbsentIsNoop(rows: seq<Item>, item: Item)
    requires item.id !in Ids(rows)
    ensures AfterUpdate(rows, item) == rows
  {
    var r := AfterUpdate(rows, item);
    forall i | 0 <= i < |rows| ensures r[i] == rows[i] {
      assert rows[i] in rows;
    }
  }

  /** `update` never breaks the table's integrity. */
  lemma UpdateKeepsWellFormed(rows: seq<Item>, item: Item)
    requires WellFormed(rows)
    ensures WellFormed(AfterUpdate(rows, item))
  {
    if k :| 0 <= k < |rows| && rows[k].id == item.id {
      UpdateReplacesRow(rows, item, k);
    } else {
      forall x | x in rows ensures x.id != item.id {
        var k :| 0 <= k < |rows| && rows[k] == x;
      }
      UpdateAbsentIsNoop(rows, item);
    }
  }

  /** `deleteById` removes exactly the row holding that key and keeps the rest in order. */
  lemma DeleteByIdRemovesRow(rows: seq<Item>, k: int)
    requires WellFormed(rows) && 0 <= k < |rows|
    ensures AfterDeleteById(rows, rows[k].id) == rows[..k] + rows[k + 1..]
  {
    DeleteKeyRemovesRow(rows, ItemId, k);
  }

  /** `deleteById` of a key the table does not hold changes nothing. */
  lemma DeleteByIdAbsentIsNoop(rows: seq<Item>, itemId: int)
    requires itemId !in Ids(rows)
    ensures AfterDeleteById(rows, itemId) == rows
  {
    DeleteKeyAbsentIsNoop(rows, ItemId, itemId);
  }

  /** After a delete, the all-items list is the old list with the deleted row struck out. */
  lemma DeleteByIdQuery(rows: seq<Item>, itemId: int)
    ensures AllItemsOf(AfterDeleteById(rows, itemId)) == Filter(AllItemsOf(rows), OtherThan(itemId))
  {
    SortByFilter(rows, ItemName, OtherThan(itemId));
  }

  /** Inserting into an empty table makes the all-items list that one item, with
      every field as given and the key the insert reported. */
  lemma InsertIntoEmptyTable(item: Item)
    ensures ItemInsertOutcome([], item).Inserted?
    ensures AllItemsOf(AfterInsert([], item)) == [item.(id := ItemInsertOutcome([], item).id)]
  {
    var row := item.(id := ItemInsertOutcome([], item).id);
    assert AfterInsert([], item) == [row];
    assert SortBy([row], ItemName) == InsertSorted(row, SortBy([], ItemName), ItemName);
  }

  /** Updating the only row, addressed by the key its insert reported, leaves that one
      row with the new values. */
  lemma UpdateOnlyRow(item: Item, changed: Item)
    requires changed.id == ItemInsertOutcome([], item).id
    ensures AllItemsOf(AfterUpdate(AfterInsert([], item), changed)) == [changed]
  {
    InsertIntoEmptyTable(item);
    var rows := AfterInsert([], item);
    assert AfterUpdate(rows, changed) == [changed];
    assert SortBy([changed], ItemName) == InsertSorted(changed, SortBy([], ItemName), ItemName);
  }

  /** Deleting the only row by the key its insert reported empties the table. */
  lemma DeleteOnlyRow(item: Item)
    ensures AllItemsOf(AfterDeleteById(AfterInsert([], item), ItemInsertOutcome([], item).id)) == []
  {
    InsertIntoEmptyTable(item);
    var rows := AfterInsert([], item);
    assert rows == [item.(id := ItemInsertOutcome([], item).id)];
    assert rows[..0] + rows[1..] == [];
    DeleteByIdRemovesRow(rows, 0);
  }

  /** `update` with a record still holding the unassigned key (the insert's generated key
      is not written back into it) matches no row: the table keeps the old values. */
  lemma UpdateWithUnassignedKeyIsNoop(name: string, description: string, category: string, imagePath: string,
                                      newName: string)
    ensures var item := NewItem(name, description, category, imagePath);
      AllItemsOf(AfterUpdate(AfterInsert([], item), item.(name := newName)))
        == [item.(id := ItemInsertOutcome([], item).id)]
  {
    var item := NewItem(name, description, category, imagePath);
    InsertIntoEmptyTable(item);
    var rows := AfterInsert([], item);
    assert rows == [item.(id := ItemInsertOutcome([], item).id)];
    UpdateAbsentIsNoop(rows, item.(name := newName));
  }

  /** `delete` with a record still holding the unassigned key matches no row: the
      inserted row stays. */
  lemma DeleteWithUnassignedKeyIsNoop(name: string, description: string, category: string, imagePath: string)
    ensures var item := NewItem(name, description, category, imagePath);
      |AllItemsOf(AfterDeleteById(AfterInsert([], item), item.id))| == 1
  {
    var item := NewItem(name, description, category, imagePath);
    var rows := AfterInsert([], item);
    assert rows == [item.(id := ItemInsertOutcome([], item).id)];
    DeleteByIdAbsentIsNoop(rows, item.id);
  }

  /** Two new items in different categories: filtering by the first category yields
      just the first item. */
  lemma ItemsByCategoryTwoItems(a: Item, b: Item)
    requires a.id == UNASSIGNED_KEY && b.id == UNASSIGNED_KEY && a.category != b.category
    ensures
      var rows := AfterInsert(AfterInsert([], a), b);
      |ItemsInCategoryOf(rows, a.category)| == 1
      && ItemsInCategoryOf(rows, a.category)[0] == a.(id := ItemInsertOutcome([], a).id)
  {
    var ra := a.(id := ItemInsertOutcome([], a).id);
    var rows1 := AfterInsert([], a);
    assert rows1 == [ra];
    var rb := b.(id := ItemInsertOutcome(rows1, b).id);
    var rows := AfterInsert(rows1, b);
    assert rows == [ra, rb];
    var f := Filter(rows, InCategory(a.category));
    assert f == [ra] by {
      assert rows[1..] == [rb];
      assert Filter([rb], InCategory(a.category)) == [];
    }
    assert SortBy([ra], ItemName) == InsertSorted(ra, SortBy([], ItemName), ItemName);
  }

  /** The `items` table held in memory, with the log of calls it received. */
  class ItemTable {
    var rows: seq<Item>
    ghost var calls: seq<Call>

    ghost predicate Valid()
      reads this
    {
      WellFormed(rows)
    }

    constructor ()
      ensures Valid() && rows == [] && calls == []
    {
      rows := [];
      calls := [];
    }

    method Insert(item: Item) returns (outcome: InsertOutcome)
      requires Valid()
      modifies this
      ensures Valid()
      ensures outcome == ItemInsertOutcome(old(rows), item)
      ensures rows == AfterInsert(old(rows), item)
      ensures calls == old(calls) + [WriteCall(InsertWrite(item))]
    {
      outcome := ItemInsertOutcome(rows, item);
      rows := AfterInsert(rows, item);
      calls := calls + [WriteCall(InsertWrite(item))];
    }

    method Update(item: Item)
      requires Valid()
      modifies this
      ensures Valid()
      ensures rows == AfterUpdate(old(rows), item)
      ensures calls == old(calls) + [WriteCall(UpdateWrite(item))]
    {
      UpdateKeepsWellFormed(rows, item);
      rows := AfterUpdate(rows, item);
      calls := calls + [WriteCall(UpdateWrite(item))];
    }

    method Delete(item: Item)
      requires Valid()
      modifies this
      ensures Valid()
      ensures rows == AfterDeleteById(old(rows), item.id)
      ensures calls == old(calls) + [WriteCall(DeleteWrite(item))]
    {
      rows := AfterDeleteById(rows, item.id);
      calls := calls + [WriteCall(DeleteWrite(item))];
    }

    method DeleteById(itemId: int)
      requires Valid()
      modifies this
      ensures Valid()
      ensures rows == AfterDeleteById(old(rows), itemId)
      ensures calls == old(calls) + [WriteCall(DeleteByIdWrite(itemId))]
    {
      rows := AfterDeleteById(rows, itemId);
      calls := calls + [WriteCall(DeleteByIdWrite(itemId))];
    }

    method GetAllItems() returns (q: Query)
      modifies this`calls
      ensures q == AllItemsQuery
      ensures calls == old(calls) + [GetAllItemsCall]
    {
      q := AllItemsQuery;
      calls := calls + [GetAllItemsCall];
    }

    method GetItemsByCategory(category: string) returns (q: Query)
      modifies this`calls
      ensures q == ByCategoryQuery(category)
      ensures calls == old(calls) + [GetItemsByCategoryCall(category)]
    {
      q := ByCategoryQuery(category);
      calls := calls + [GetItemsByCategoryCall(category)];
    }
  }
}

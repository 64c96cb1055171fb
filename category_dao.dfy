/**
 * The `categories` table and the three operations its data access object
 * declares (CategoryDao.java). Room turns each annotation into one SQL statement:
 *   insert            INSERT (abort on a key collision; key 0 means "generate one")
 *   delete            DELETE ... WHERE id = category.id
 *   getAllCategories  SELECT * FROM categories ORDER BY name ASC
 * The pure functions below give each statement's effect on the table's rows;
 * class CategoryTable holds the rows and changes them in place.
 */
module CategoryDao {
  import opened Entities
  import opened Rows

  /** A write the DAO performs; the repository queues these. */
  datatype Write =
    | InsertCategoryWrite(category: Category)
    | DeleteCategoryWrite(category: Category)

  /** A call the DAO receives, as a recording test double would log it. */
  datatype Call = WriteCall(write: Write) | GetAllCategoriesCall

  /** The one live query the DAO offers. */
  datatype Query = AllCategoriesQuery

  function Ids(rows: seq<Category>): set<int>
  {
    KeysOf(rows, CategoryId)
  }

  /** The table's integrity: keys are unique, and no stored row holds the unassigned key. */
  predicate WellFormed(rows: seq<Category>)
  {
    KeysWellFormed(rows, CategoryId)
  }

  /** What `insert(category)` does: an unassigned key gets a fresh one, a taken key aborts. */
  function CategoryInsertOutcome(rows: seq<Category>, category: Category): (o: InsertOutcome)
    ensures o.ConstraintViolation? <==> category.id != UNASSIGNED_KEY && category.id in Ids(rows)
    ensures o.Inserted? ==> o.id != UNASSIGNED_KEY && o.id !in Ids(rows)
    ensures o.Inserted? && category.id != UNASSIGNED_KEY ==> o.id == category.id
  {
    InsertOutcomeOf(rows, CategoryId, category.id)
  }

  /** The rows after `insert(category)`; a rejected insert leaves them as they were. */
  function AfterInsert(rows: seq<Category>, category: Category): (r: seq<Category>)
    ensures WellFormed(rows) ==> WellFormed(r)
    ensures CategoryInsertOutcome(rows, category).ConstraintViolation? ==> r == rows
    ensures CategoryInsertOutcome(rows, category).Inserted? ==>
              |r| == |rows| + 1 && r[..|rows|] == rows
              && r[|rows|] == category.(id := CategoryInsertOutcome(rows, category).id)
  {
    match CategoryInsertOutcome(rows, category)
    case ConstraintViolation => rows
    case Inserted(id) =>
      var row := category.(id := id);
      assert WellFormed(rows) ==> WellFormed(rows + [row]) by {
        if WellFormed(rows) { AppendKeepsKeysWellFormed(rows, CategoryId, row); }
      }
      rows + [row]
  }

  /** Accepts the rows a delete of a category with key `id` keeps. */
  function OtherThan(id: int): Category -> bool
  {
    KeyOtherThan(CategoryId, id)
  }

  /** The rows after `delete(category)`: Room matches the row by key alone. */
  function AfterDelete(rows: seq<Category>, category: Category): (r: seq<Category>)
    ensures forall x :: x in r <==> x in rows && x.id != category.id
    ensures WellFormed(rows) ==> WellFormed(r)
  {
    FilterSpec(rows, OtherThan(category.id));
    assert WellFormed(rows) ==> WellFormed(Filter(rows, OtherThan(category.id))) by {
      if WellFormed(rows) { DeleteKeyKeepsKeysWellFormed(rows, CategoryId, category.id); }
    }
    Filter(rows, OtherThan(category.id))
  }

  /** The effect of one queued write on the rows: integrity is kept, and a delete strikes
      out the rows holding the category's key, whatever their name. */
  function ApplyWrite(rows: seq<Category>, w: Write): (r: seq<Category>)
    ensures WellFormed(rows) ==> WellFormed(r)
    ensures w.DeleteCategoryWrite? ==> forall x :: x in r <==> x in rows && x.id != w.category.id
  {
    match w
    case InsertCategoryWrite(category) => AfterInsert(rows, category)
    case DeleteCategoryWrite(category) => AfterDelete(rows, category)
  }

  /** The DAO call a queued write makes, as a function value for `Executor.Log`. */
  function CallOf(w: Write): Call
  {
    WriteCall(w)
  }

  /** The writes applied one after another. */
  function ApplyAll(rows: seq<Category>, ws: seq<Write>): seq<Category>
    decreases |ws|
  {
    if ws == [] then rows else ApplyAll(ApplyWrite(rows, ws[0]), ws[1..])
  }

  /** Applying a queue and then one more write is applying the longer queue. */
  lemma {:induction false} ApplyAllAppend(rows: seq<Category>, ws: seq<Write>, w: Write)
    ensures ApplyAll(rows, ws + [w]) == ApplyWrite(ApplyAll(rows, ws), w)
    decreases |ws|
  {
    if ws == [] {
      assert [w][0] == w && [w][1..] == [];
    } else {
      assert (ws + [w])[0] == ws[0] && (ws + [w])[1..] == ws[1..] + [w];
      ApplyAllAppend(ApplyWrite(rows, ws[0]), ws[1..], w);
    }
  }

  /** `SELECT * FROM categories ORDER BY name ASC`. */
  function AllCategoriesOf(rows: seq<Category>): (r: seq<Category>)
    ensures SortedBy(r, CategoryName)
    ensures multiset(r) == multiset(rows)
  {
    SortBySpec(rows, CategoryName);
    SortBy(rows, CategoryName)
  }

  /** The value the live query currently holds: every row, ordered by name. */
  function Value(q: Query, rows: seq<Category>): (r: seq<Category>)
    ensures SortedBy(r, CategoryName)
    ensures multiset(r) == multiset(rows)
  {
    match q
    case AllCategoriesQuery => AllCategoriesOf(rows)
  }

  /** When no two categories share a name, `ORDER BY name ASC` admits one listing only,
      and `getAllCategories` is it: the order among equal names is the model's only choice. */
  lemma AllCategoriesOrderForced(rows: seq<Category>, listed: seq<Category>)
    requires NamesDistinct(multiset(rows), CategoryName)
    requires SortedBy(listed, CategoryName) && multiset(listed) == multiset(rows)
    ensures listed == AllCategoriesOf(rows)
  {
    SortedByDistinctNamesUnique(AllCategoriesOf(rows), listed, CategoryName);
  }

  /** After an accepted insert every previous category is still listed, and so is the new
      one under the key the insert reported; a rejected insert lists the same rows. */
  lemma InsertKeepsEveryRow(rows: seq<Category>, category: Category)
    ensures forall x :: x in rows ==> x in AllCategoriesOf(AfterInsert(rows, category))
    ensures CategoryInsertOutcome(rows, category).Inserted? ==>
              category.(id := CategoryInsertOutcome(rows, category).id)
                in AllCategoriesOf(AfterInsert(rows, category))
    ensures |AllCategoriesOf(AfterInsert(rows, category))|
            == |rows| + (if CategoryInsertOutcome(rows, category).Inserted? then 1 else 0)
  {
    var r := AfterInsert(rows, category);
    var listed := AllCategoriesOf(r);
    assert |listed| == |multiset(listed)| == |multiset(r)| == |r|;
    forall x | x in r ensures x in listed {
      assert x in multiset(r);
    }
    if CategoryInsertOutcome(rows, category).Inserted? {
      assert r == rows + [r[|rows|]];
      assert r[|rows|] in r;
    }
  }

  /** Whatever writes ran before it, the insert of a new category named `name` that runs
      last is accepted and leaves a category of that name listed. */
  lemma NewCategoryListedAfterQueue(rows: seq<Category>, ws: seq<Write>, name: string)
    ensures var before := ApplyAll(rows, ws);
      && CategoryInsertOutcome(before, NewCategory(name)).Inserted?
      && Category(CategoryInsertOutcome(before, NewCategory(name)).id, name)
           in AllCategoriesOf(ApplyAll(rows, ws + [InsertCategoryWrite(NewCategory(name))]))
  {
    ApplyAllAppend(rows, ws, InsertCategoryWrite(NewCategory(name)));
    InsertKeepsEveryRow(ApplyAll(rows, ws), NewCategory(name));
  }

  /** `delete` of a stored category removes it: no listed category holds its key
      afterwards, and the list is one row shorter. */
  lemma DeleteRemovesCategory(rows: seq<Category>, k: int)
    requires WellFormed(rows) && 0 <= k < |rows|
    ensures AfterDelete(rows, rows[k]) == rows[..k] + rows[k + 1..]
    ensures forall x :: x in AllCategoriesOf(AfterDelete(rows, rows[k])) ==> x.id != rows[k].id
    ensures |AllCategoriesOf(AfterDelete(rows, rows[k]))| == |rows| - 1
  {
    DeleteKeyRemovesRow(rows, CategoryId, k);
    var r := AfterDelete(rows, rows[k]);
    var listed := AllCategoriesOf(r);
    assert |listed| == |multiset(listed)| == |multiset(r)| == |r|;
    forall x | x in listed ensures x.id != rows[k].id {
      assert x in multiset(r);
    }
  }

  /** `delete` leaves every other category listed, and the list afterwards is the old
      sorted list with the deleted category's row struck out, so it stays sorted. */
  lemma DeleteKeepsOthersSorted(rows: seq<Category>, category: Category)
    ensures AllCategoriesOf(AfterDelete(rows, category))
            == Filter(AllCategoriesOf(rows), OtherThan(category.id))
    ensures forall x :: x in rows && x.id != category.id ==> x in AllCategoriesOf(AfterDelete(rows, category))
  {
    SortByFilter(rows, CategoryName, OtherThan(category.id));
    var r := AfterDelete(rows, category);
    forall x | x in rows && x.id != category.id ensures x in AllCategoriesOf(r) {
      assert x in multiset(r);
    }
  }

  /** `delete` of a category whose key the table does not hold changes nothing. */
  lemma DeleteAbsentIsNoop(rows: seq<Category>, category: Category)
    requires category.id !in Ids(rows)
    ensures AfterDelete(rows, category) == rows
  {
    DeleteKeyAbsentIsNoop(rows, CategoryId, category.id);
  }

  /** The `categories` table held in memory, with the log of calls it received. */
  class CategoryTable {
    var rows: seq<Category>
    ghost var calls: seq<Call>

    ghost predicate Valid()
      reads this
    {
      WellFormed(rows)
    }

    constructor ()
      ensures Valid() && rows == [] && calls == []
    {
      rows := [];
      calls := [];
    }

    method Insert(category: Category) returns (outcome: InsertOutcome)
      requires Valid()
      modifies this
      ensures Valid()
      ensures outcome == CategoryInsertOutcome(old(rows), category)
      ensures rows == AfterInsert(old(rows), category)
      ensures calls == old(calls) + [WriteCall(InsertCategoryWrite(category))]
    {
      outcome := CategoryInsertOutcome(rows, category);
      rows := AfterInsert(rows, category);
      calls := calls + [WriteCall(InsertCategoryWrite(category))];
    }

    method Delete(category: Category)
      requires Valid()
      modifies this
      ensures Valid()
      ensures rows == AfterDelete(old(rows), category)
      ensures calls == old(calls) + [WriteCall(DeleteCategoryWrite(category))]
    {
      rows := AfterDelete(rows, category);
      calls := calls + [WriteCall(DeleteCategoryWrite(category))];
    }

    method GetAllCategories() returns (q: Query)
      modifies this`calls
      ensures q == AllCategoriesQuery
      ensures calls == old(calls) + [GetAllCategoriesCall]
    {
      q := AllCategoriesQuery;
      calls := calls + [GetAllCategoriesCall];
    }
  }
}

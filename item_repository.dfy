/**
 * ItemRepository.java: every write is wrapped in a task and handed to the
 * executor, never applied on the caller's thread; reads return the DAO's
 * live queries. The executor is modelled by its queue of pending writes
 * (`pending`, in submission order) and its number of worker threads; a
 * task takes effect only through the explicit step `RunNext`.
 */
module ItemRepository {
  import opened Entities
  import opened ItemDao
  import opened Executor

  class ItemRepository {
    const dao: ItemTable
    /** The all-items handle, fetched from the DAO once, at construction. */
    const allItems: Query
    /** Worker threads of the executor. */
    const threads: nat
    /** Writes submitted to the executor and not yet applied, oldest first. */
    var pending: seq<Write>

    ghost predicate Valid()
      reads this, dao
    {
      dao.Valid() && threads >= 1 && allItems == AllItemsQuery
    }

    /** `ItemRepository(Application)`: the app database's item DAO and a pool of two threads. */
    constructor FromDatabase(database: ItemTable)
      requires database.Valid()
      modifies database`calls
      ensures Valid() && dao == database && threads == ITEM_POOL_THREADS && pending == []
      ensures database.calls == old(database.calls) + [GetAllItemsCall]
    {
      var q := database.GetAllItems();
      dao := database;
      allItems := q;
      threads := ITEM_POOL_THREADS;
      pending := [];
    }

    /** `ItemRepository(ItemDao, ExecutorService)`: an injected DAO and an injected
        executor, the latter described by its number of worker threads. */
    constructor (itemDao: ItemTable, executorThreads: nat)
      requires itemDao.Valid() && executorThreads >= 1
      modifies itemDao`calls
      ensures Valid() && dao == itemDao && threads == executorThreads && pending == []
      ensures itemDao.calls == old(itemDao.calls) + [GetAllItemsCall]
    {
      var q := itemDao.GetAllItems();
      dao := itemDao;
      allItems := q;
      threads := executorThreads;
      pending := [];
    }

    /** The handle captured at construction; the DAO is not asked again. */
    function GetAllItems(): (q: Query)
      requires Valid()
      reads this, dao
      ensures q == AllItemsQuery
    {
      allItems
    }

    /** Asks the DAO afresh on every call, with the same category; queues nothing. */
    method GetItemsByCategory(category: string) returns (q: Query)
      requires Valid()
      modifies dao`calls
      ensures Valid()
      ensures q == ByCategoryQuery(category)
      ensures dao.calls == old(dao.calls) + [GetItemsByCategoryCall(category)]
    {
      q := dao.GetItemsByCategory(category);
    }

    method Insert(item: Item)
      requires Valid()
      modifies this`pending
      ensures Valid()
      ensures pending == old(pending) + [InsertWrite(item)]
      ensures dao.rows == old(dao.rows) && dao.calls == old(dao.calls)
    {
      pending := pending + [InsertWrite(item)];
    }

    method Update(item: Item)
      requires Valid()
      modifies this`pending
      ensures Valid()
      ensures pending == old(pending) + [UpdateWrite(item)]
      ensures dao.rows == old(dao.rows) && dao.calls == old(dao.calls)
    {
      pending := pending + [UpdateWrite(item)];
    }

    method Delete(item: Item)
      requires Valid()
      modifies this`pending
      ensures Valid()
      ensures pending == old(pending) + [DeleteWrite(item)]
      ensures dao.rows == old(dao.rows) && dao.calls == old(dao.calls)
    {
      pending := pending + [DeleteWrite(item)];
    }

    method DeleteById(itemId: int)
      requires Valid()
      modifies this`pending
      ensures Valid()
      ensures pending == old(pending) + [DeleteByIdWrite(itemId)]
      ensures dao.rows == old(dao.rows) && dao.calls == old(dao.calls)
    {
      pending := pending + [DeleteByIdWrite(itemId)];
    }

    /** One queued task takes effect: it makes the DAO call its write names, with the
        argument it captured. An insert that collides fails inside the task and
        leaves the table as it was. */
    method RunNext(k: nat)
      requires Valid() && CanRunNext(pending, threads, k)
      modifies this`pending, dao
      ensures Valid()
      ensures pending == Take(old(pending), k)
      ensures dao.rows == ApplyWrite(old(dao.rows), old(pending)[k])
      ensures dao.calls == old(dao.calls) + [WriteCall(old(pending)[k])]
    {
      match pending[k] {
        case InsertWrite(item) =>
          var _ := dao.Insert(item);
        case UpdateWrite(item) =>
          dao.Update(item);
        case DeleteWrite(item) =>
          dao.Delete(item);
        case DeleteByIdWrite(itemId) =>
          dao.DeleteById(itemId);
      }
      pending := Take(pending, k);
    }

    /** The executor drains its queue along a legal schedule: the table ends as if the
        writes had been applied in that schedule's completion order. */
    method RunPending(choices: seq<nat>)
      requires Valid() && LegalSchedule(pending, threads, choices) && |choices| == |pending|
      modifies this`pending, dao
      ensures Valid() && pending == []
      ensures dao.rows == ApplyAll(old(dao.rows), CompletionOrder(old(pending), threads, choices))
      ensures dao.calls == old(dao.calls) + Log(CompletionOrder(old(pending), threads, choices), CallOf)
    {
      ghost var target := ApplyAll(dao.rows, CompletionOrder(pending, threads, choices));
      ghost var targetCalls := dao.calls + Log(CompletionOrder(pending, threads, choices), CallOf);
      var i := 0;
      while i < |choices|
        invariant 0 <= i <= |choices|
        invariant Valid()
        invariant |pending| == |choices| - i
        invariant LegalSchedule(pending, threads, choices[i..])
        invariant ApplyAll(dao.rows, CompletionOrder(pending, threads, choices[i..])) == target
        invariant dao.calls + Log(CompletionOrder(pending, threads, choices[i..]), CallOf) == targetCalls
      {
        assert choices[i..][0] == choices[i] && choices[i..][1..] == choices[i + 1..];
        DrainStep(dao.rows, dao.calls, pending, threads, choices[i..]);
        RunNext(choices[i]);
        i := i + 1;
      }
    }
  }

  /** Two saves of the same item, one after the other: with the pool's two threads the
      table may end with either version, so the later save can be lost. */
  lemma TwoUpdatesMayLandInEitherOrder(rows: seq<Item>, k: nat, first: Item, second: Item)
    requires WellFormed(rows) && k < |rows| && rows[k].id == first.id == second.id
    ensures
      var pending := [UpdateWrite(first), UpdateWrite(second)];
      && LegalSchedule(pending, ITEM_POOL_THREADS, [0, 0])
      && ApplyAll(rows, CompletionOrder(pending, ITEM_POOL_THREADS, [0, 0])) == rows[k := second]
      && LegalSchedule(pending, ITEM_POOL_THREADS, [1, 0])
      && ApplyAll(rows, CompletionOrder(pending, ITEM_POOL_THREADS, [1, 0])) == rows[k := first]
  {
    TwoThreadsMayReorder(UpdateWrite(first), UpdateWrite(second));
    UpdatesInSequence(rows, k, first, second);
    UpdatesInSequence(rows, k, second, first);
  }

  /** Two updates of one row applied in turn: the later one's values remain. */
  lemma UpdatesInSequence(rows: seq<Item>, k: nat, a: Item, b: Item)
    requires WellFormed(rows) && k < |rows| && rows[k].id == a.id == b.id
    ensures ApplyAll(rows, [UpdateWrite(a), UpdateWrite(b)]) == rows[k := b]
  {
    UpdateReplacesRow(rows, a, k);
    var r1 := rows[k := a];
    UpdateReplacesRow(r1, b, k);
    ApplyTwo(rows, UpdateWrite(a), UpdateWrite(b));
    assert r1[k := b] == rows[k := b];
  }

  /** The first step of a drain: its task's write comes first, on the rows and in the call log. */
  lemma DrainStep(rows: seq<Item>, calls: seq<Call>, pending: seq<Write>, threads: nat, choices: seq<nat>)
    requires LegalSchedule(pending, threads, choices) && choices != []
    ensures var rest := CompletionOrder(Take(pending, choices[0]), threads, choices[1..]);
      && ApplyAll(rows, CompletionOrder(pending, threads, choices))
         == ApplyAll(ApplyWrite(rows, pending[choices[0]]), rest)
      && calls + Log(CompletionOrder(pending, threads, choices), CallOf)
         == (calls + [WriteCall(pending[choices[0]])]) + Log(rest, CallOf)
  {
    var task := pending[choices[0]];
    var rest := CompletionOrder(Take(pending, choices[0]), threads, choices[1..]);
    CompletionOrderStep(pending, threads, choices);
    DrainStepLog(pending, threads, choices, CallOf);
    assert ([task] + rest)[0] == task && ([task] + rest)[1..] == rest;
  }
}

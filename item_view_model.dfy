/**
 * ItemViewModel.java: a forwarder. Its read getters return the repository's
 * all-items handle (captured once, at construction) or the repository's
 * category query; its mutations hand the item to the repository, which only
 * queues the write. Nothing here touches the table.
 */
module ItemViewModel {
  import opened Rows
  import opened Entities
  import opened ItemDao
  import opened Executor
  import opened ItemRepository

  class ItemViewModel {
    const repository: ItemRepository
    /** The all-items handle, taken from the repository once, at construction. */
    const allItems: Query

    ghost predicate Valid()
      reads this, repository, repository.dao
    {
      repository.Valid() && allItems == AllItemsQuery
    }

    /** `ItemViewModel(Application)`: builds its own repository over the app database. */
    constructor FromApplication(database: ItemTable)
      requires database.Valid()
      modifies database`calls
      ensures Valid() && fresh(repository)
      ensures repository.dao == database && repository.threads == ITEM_POOL_THREADS
      ensures repository.pending == []
      ensures database.calls == old(database.calls) + [GetAllItemsCall]
    {
      var r := new ItemRepository.FromDatabase(database);
      repository := r;
      allItems := r.GetAllItems();
    }

    /** `ItemViewModel(Application, ItemRepository)`: an injected repository; its handle
        is read, and nothing else about it changes. */
    constructor (itemRepository: ItemRepository)
      requires itemRepository.Valid()
      ensures Valid() && repository == itemRepository
    {
      repository := itemRepository;
      allItems := itemRepository.GetAllItems();
    }

    /** The handle captured at construction. */
    function GetAllItems(): (q: Query)
      requires Valid()
      reads this, repository, repository.dao
      ensures q == repository.GetAllItems()
      ensures q == AllItemsQuery
    {
      allItems
    }

    /** Forwards `category` unchanged to the repository, which asks the DAO. */
    method GetItemsByCategory(category: string) returns (q: Query)
      requires Valid()
      modifies repository.dao`calls
      ensures Valid()
      ensures q == ByCategoryQuery(category)
      ensures repository.dao.calls == old(repository.dao.calls) + [GetItemsByCategoryCall(category)]
      ensures repository.pending == old(repository.pending)
    {
      q := repository.GetItemsByCategory(category);
    }

    /** Queues exactly one insert of `item`; the table is untouched. */
    method Insert(item: Item)
      requires Valid()
      modifies repository`pending
      ensures Valid()
      ensures repository.pending == old(repository.pending) + [InsertWrite(item)]
      ensures repository.dao.rows == old(repository.dao.rows)
      ensures repository.dao.calls == old(repository.dao.calls)
    {
      repository.Insert(item);
    }

    /** Queues exactly one update with `item`; the table is untouched. */
    method Update(item: Item)
      requires Valid()
      modifies repository`pending
      ensures Valid()
      ensures repository.pending == old(repository.pending) + [UpdateWrite(item)]
      ensures repository.dao.rows == old(repository.dao.rows)
      ensures repository.dao.calls == old(repository.dao.calls)
    {
      repository.Update(item);
    }

    /** `delete(Item)`: queues exactly one delete of `item`; the table is untouched. */
    method Delete(item: Item)
      requires Valid()
      modifies repository`pending
      ensures Valid()
      ensures repository.pending == old(repository.pending) + [DeleteWrite(item)]
      ensures repository.dao.rows == old(repository.dao.rows)
      ensures repository.dao.calls == old(repository.dao.calls)
    {
      repository.Delete(item);
    }

    /** `delete(int)`: forwards to the repository's `deleteById`, queueing one delete by key. */
    method DeleteById(itemId: int)
      requires Valid()
      modifies repository`pending
      ensures Valid()
      ensures repository.pending == old(repository.pending) + [DeleteByIdWrite(itemId)]
      ensures repository.dao.rows == old(repository.dao.rows)
      ensures repository.dao.calls == old(repository.dao.calls)
    {
      repository.DeleteById(itemId);
    }
  }

  /** A screen saves a new item through the view model, and the executor then drains its
      queue, the writes queued before the save included, along a legal schedule. The
      table ends as that schedule's completion order leaves it. When the save completes
      last, which with a single thread it always does, the item is listed by the
      all-items query under a freshly assigned key, beside every item the earlier writes
      left listed. */
  method SaveNewItem(vm: ItemViewModel, item: Item, choices: seq<nat>) returns (newId: int)
    requires vm.Valid() && item.id == UNASSIGNED_KEY
    requires LegalSchedule(vm.repository.pending + [InsertWrite(item)], vm.repository.threads, choices)
    requires |choices| == |vm.repository.pending| + 1
    modifies vm.repository`pending, vm.repository.dao
    ensures vm.Valid() && vm.repository.pending == []
    ensures vm.repository.dao.rows == ApplyAll(old(vm.repository.dao.rows),
              CompletionOrder(old(vm.repository.pending) + [InsertWrite(item)], vm.repository.threads, choices))
    ensures vm.repository.threads == SINGLE_THREAD ==>
              CompletionOrder(old(vm.repository.pending) + [InsertWrite(item)], vm.repository.threads, choices)
              == old(vm.repository.pending) + [InsertWrite(item)]
    ensures var order := CompletionOrder(old(vm.repository.pending) + [InsertWrite(item)], vm.repository.threads, choices);
      var earlier := ApplyAll(old(vm.repository.dao.rows), order[..|order| - 1]);
      order[|order| - 1] == InsertWrite(item) ==>
        && newId != UNASSIGNED_KEY && newId !in Ids(earlier)
        && item.(id := newId) in Value(vm.GetAllItems(), vm.repository.dao.rows)
        && forall x :: x in earlier ==> x in Value(vm.GetAllItems(), vm.repository.dao.rows)
  {
    var queued := vm.repository.pending + [InsertWrite(item)];
    var order := CompletionOrder(queued, vm.repository.threads, choices);
    var earlier := ApplyAll(vm.repository.dao.rows, order[..|order| - 1]);
    SavedLast(vm.repository.dao.rows, order, item);
    newId := ItemInsertOutcome(earlier, item).id;
    if vm.repository.threads == SINGLE_THREAD {
      SingleThreadIsFifo(queued, choices);
      assert queued[..|choices|] == queued;
    }
    vm.Insert(item);
    vm.repository.RunPending(choices);
  }

  /** A save that completes after the writes `order[..|order| - 1]` is given a fresh key and
      is listed beside every row those writes left. */
  lemma SavedLast(rows: seq<Item>, order: seq<Write>, item: Item)
    requires item.id == UNASSIGNED_KEY && order != []
    ensures var earlier := ApplyAll(rows, order[..|order| - 1]);
      && ItemInsertOutcome(earlier, item).Inserted?
      && (order[|order| - 1] == InsertWrite(item) ==>
            && item.(id := ItemInsertOutcome(earlier, item).id) in Value(AllItemsQuery, ApplyAll(rows, order))
            && forall x :: x in earlier ==> x in Value(AllItemsQuery, ApplyAll(rows, order)))
  {
    var earlier := ApplyAll(rows, order[..|order| - 1]);
    InsertKeepsEveryRow(earlier, item);
    if order[|order| - 1] == InsertWrite(item) {
      assert order == order[..|order| - 1] + [InsertWrite(item)];
      ApplyAllAppend(rows, order[..|order| - 1], InsertWrite(item));
    }
  }

  /** With the pool's two threads a saved item need not be listed once the queue drains:
      a delete by key queued before the save, naming the key the save is about to be
      given, may complete after the save and remove the new row again. The lemma uses
      only the key the insert reports, not how that key is generated. */
  lemma QueuedDeleteMayRemoveSave(rows: seq<Item>, item: Item)
    requires WellFormed(rows) && item.id == UNASSIGNED_KEY
    ensures var k := ItemInsertOutcome(rows, item).id;
      && LegalSchedule([DeleteByIdWrite(k), InsertWrite(item)], ITEM_POOL_THREADS, [1, 0])
      && CompletionOrder([DeleteByIdWrite(k), InsertWrite(item)], ITEM_POOL_THREADS, [1, 0])
         == [InsertWrite(item), DeleteByIdWrite(k)]
      && ApplyAll(rows, [InsertWrite(item), DeleteByIdWrite(k)]) == rows
      && item.(id := k) !in Value(AllItemsQuery, rows)
  {
    var k := ItemInsertOutcome(rows, item).id;
    TwoThreadsMayReorder(DeleteByIdWrite(k), InsertWrite(item));
    InsertThenDeleteRestores(rows, item);
    ListedOnlyIfStored(rows, item.(id := k));
  }

  /** An insert followed by a delete of the key it was given leaves the table as before. */
  lemma InsertThenDeleteRestores(rows: seq<Item>, item: Item)
    requires WellFormed(rows) && item.id == UNASSIGNED_KEY
    ensures var k := ItemInsertOutcome(rows, item).id;
      && ApplyAll(rows, [InsertWrite(item), DeleteByIdWrite(k)]) == rows
      && item.(id := k) !in rows
  {
    var k := ItemInsertOutcome(rows, item).id;
    var inserted := AfterInsert(rows, item);
    assert inserted == rows + [item.(id := k)];
    DeleteKeyRemovesRow(inserted, ItemId, |rows|);
    assert inserted[..|rows|] == rows && inserted[|rows| + 1..] == [];
    ApplyTwo(rows, InsertWrite(item), DeleteByIdWrite(k));
  }

  /** The all-items query lists only rows the table holds. */
  lemma ListedOnlyIfStored(rows: seq<Item>, row: Item)
    requires row !in rows
    ensures row !in Value(AllItemsQuery, rows)
  {
    assert row !in multiset(Value(AllItemsQuery, rows));
  }
}

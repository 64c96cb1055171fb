/**
 * CategoryRepository.java: both writes are wrapped in a task and handed to
 * the executor, never applied on the caller's thread; the all-categories
 * live query is fetched from the DAO once, at construction. The executor is
 * modelled by its queue of pending writes (`pending`, in submission order)
 * and its number of worker threads; the production executor has one thread,
 * so its writes take effect in the order they were submitted.
 */
module CategoryRepository {
  import opened Entities
  import opened CategoryDao
  import opened Executor

  class CategoryRepository {
    const dao: CategoryTable
    /** The all-categories handle, fetched from the DAO once, at construction. */
    const allCategories: Query
    /** Worker threads of the executor. */
    const threads: nat
    /** Writes submitted to the executor and not yet applied, oldest first. */
    var pending: seq<Write>

    ghost predicate Valid()
      reads this, dao
    {
      dao.Valid() && threads >= 1 && allCategories == AllCategoriesQuery
    }

    /** `CategoryRepository(Application)`: the app database's category DAO and the
        single-thread executor the field initialiser creates. */
    constructor FromDatabase(database: CategoryTable)
      requires database.Valid()
      modifies database`calls
      ensures Valid() && dao == database && threads == SINGLE_THREAD && pending == []
      ensures database.calls == old(database.calls) + [GetAllCategoriesCall]
    {
      var q := database.GetAllCategories();
      dao := database;
      allCategories := q;
      threads := SINGLE_THREAD;
      pending := [];
    }

    /** `CategoryRepository(CategoryDao, ExecutorService)`: an injected DAO and an injected
        executor, the latter described by its number of worker threads. */
    constructor (categoryDao: CategoryTable, executorThreads: nat)
      requires categoryDao.Valid() && executorThreads >= 1
      modifies categoryDao`calls
      ensures Valid() && dao == categoryDao && threads == executorThreads && pending == []
      ensures categoryDao.calls == old(categoryDao.calls) + [GetAllCategoriesCall]
    {
      var q := categoryDao.GetAllCategories();
      dao := categoryDao;
      allCategories := q;
      threads := executorThreads;
      pending := [];
    }

    /** The handle captured at construction; the DAO is not asked again. */
    function GetAllCategories(): (q: Query)
      requires Valid()
      reads this, dao
      ensures q == AllCategoriesQuery
    {
      allCategories
    }

    /** Queues the insert of a new category carrying `categoryName` and an unassigned key. */
    method InsertCategory(categoryName: string)
      requires Valid()
      modifies this`pending
      ensures Valid()
      ensures pending == old(pending) + [InsertCategoryWrite(NewCategory(categoryName))]
      ensures dao.rows == old(dao.rows) && dao.calls == old(dao.calls)
    {
      pending := pending + [InsertCategoryWrite(NewCategory(categoryName))];
    }

    /** Queues the delete of exactly `category`. */
    method Delete(category: Category)
      requires Valid()
      modifies this`pending
      ensures Valid()
      ensures pending == old(pending) + [DeleteCategoryWrite(category)]
      ensures dao.rows == old(dao.rows) && dao.calls == old(dao.calls)
    {
      pending := pending + [DeleteCategoryWrite(category)];
    }

    /** One queued task takes effect: it makes the DAO call its write names, with the
        argument it captured. */
    method RunNext(k: nat)
      requires Valid() && CanRunNext(pending, threads, k)
      modifies this`pending, dao
      ensures Valid()
      ensures pending == Take(old(pending), k)
      ensures dao.rows == ApplyWrite(old(dao.rows), old(pending)[k])
      ensures dao.calls == old(dao.calls) + [WriteCall(old(pending)[k])]
    {
      match pending[k] {
        case InsertCategoryWrite(category) =>
          var _ := dao.Insert(category);
        case DeleteCategoryWrite(category) =>
          dao.Delete(category);
      }
      pending := Take(pending, k);
    }

    /** The executor drains its queue along a legal schedule: the table ends as if the
        writes had been applied in that schedule's completion order, which with a
        single thread is the order they were submitted in, and the DAO receives one
        write call per task, in that same order. */
    method RunPending(choices: seq<nat>)
      requires Valid() && LegalSchedule(pending, threads, choices) && |choices| == |pending|
      modifies this`pending, dao
      ensures Valid() && pending == []
      ensures dao.rows == ApplyAll(old(dao.rows), CompletionOrder(old(pending), threads, choices))
      ensures dao.calls == old(dao.calls) + Log(CompletionOrder(old(pending), threads, choices), CallOf)
      ensures threads == SINGLE_THREAD ==> dao.rows == ApplyAll(old(dao.rows), old(pending))
      ensures threads == SINGLE_THREAD ==> dao.calls == old(dao.calls) + Log(old(pending), CallOf)
    {
      ghost var submitted := pending;
      ghost var target := ApplyAll(dao.rows, CompletionOrder(pending, threads, choices));
      ghost var targetCalls := dao.calls + Log(CompletionOrder(pending, threads, choices), CallOf);
      var i := 0;
      while i < |choices|
        invariant 0 <= i <= |choices|
        invariant Valid()
        invariant |pending| == |choices| - i
        invariant LegalSchedule(pending, threads, choices[i..])
        invariant ApplyAll(dao.rows, CompletionOrder(pending, threads, choices[i..])) == target
        invariant dao.calls + Log(CompletionOrder(pending, threads, choices[i..]), CallOf) == targetCalls
      {
        assert choices[i..][0] == choices[i] && choices[i..][1..] == choices[i + 1..];
        DrainStep(dao.rows, dao.calls, pending, threads, choices[i..]);
        RunNext(choices[i]);
        i := i + 1;
      }
      if threads == SINGLE_THREAD {
        SingleThreadIsFifo(submitted, choices);
        assert submitted[..|choices|] == submitted;
      }
    }
  }

  /** The first step of a drain: its task's write comes first, on the rows and in the call log. */
  lemma DrainStep(rows: seq<Category>, calls: seq<Call>, pending: seq<Write>, threads: nat, choices: seq<nat>)
    requires LegalSchedule(pending, threads, choices) && choices != []
    ensures var rest := CompletionOrder(Take(pending, choices[0]), threads, choices[1..]);
      && ApplyAll(rows, CompletionOrder(pending, threads, choices))
         == ApplyAll(ApplyWrite(rows, pending[choices[0]]), rest)
      && calls + Log(CompletionOrder(pending, threads, choices), CallOf)
         == (calls + [WriteCall(pending[choices[0]])]) + Log(rest, CallOf)
  {
    var task := pending[choices[0]];
    var rest := CompletionOrder(Take(pending, choices[0]), threads, choices[1..]);
    CompletionOrderStep(pending, threads, choices);
    DrainStepLog(pending, threads, choices, CallOf);
    assert ([task] + rest)[0] == task && ([task] + rest)[1..] == rest;
  }
}

/**
 * CategoryViewModel.java: a forwarder. `getAllCategories` returns the
 * repository's handle (captured once, at construction); `insertCategory` and
 * `delete` hand their argument to the repository, which only queues the
 * write. Nothing here touches the table.
 */
module CategoryViewModel {
  import opened Entities
  import opened CategoryDao
  import opened Executor
  import opened CategoryRepository

  class CategoryViewModel {
    const repository: CategoryRepository
    /** The all-categories handle, taken from the repository once, at construction. */
    const allCategories: Query

    ghost predicate Valid()
      reads this, repository, repository.dao
    {
      repository.Valid() && allCategories == AllCategoriesQuery
    }

    /** `CategoryViewModel(Application)`: builds its own repository over the app database. */
    constructor FromApplication(database: CategoryTable)
      requires database.Valid()
      modifies database`calls
      ensures Valid() && fresh(repository)
      ensures repository.dao == database && repository.threads == SINGLE_THREAD
      ensures repository.pending == []
      ensures database.calls == old(database.calls) + [GetAllCategoriesCall]
    {
      var r := new CategoryRepository.FromDatabase(database);
      repository := r;
      allCategories := r.GetAllCategories();
    }

    /** `CategoryViewModel(Application, CategoryRepository)`: an injected repository; its
        handle is read, and nothing else about it changes. */
    constructor (categoryRepository: CategoryRepository)
      requires categoryRepository.Valid()
      ensures Valid() && repository == categoryRepository
    {
      repository := categoryRepository;
      allCategories := categoryRepository.GetAllCategories();
    }

    /** The handle captured at construction. */
    function GetAllCategories(): (q: Query)
      requires Valid()
      reads this, repository, repository.dao
      ensures q == repository.GetAllCategories()
      ensures q == AllCategoriesQuery
    {
      allCategories
    }

    /** Queues exactly one insert of a new category named `categoryName`; the table is untouched. */
    method InsertCategory(categoryName: string)
      requires Valid()
      modifies repository`pending
      ensures Valid()
      ensures repository.pending == old(repository.pending) + [InsertCategoryWrite(NewCategory(categoryName))]
      ensures repository.dao.rows == old(repository.dao.rows)
      ensures repository.dao.calls == old(repository.dao.calls)
    {
      repository.InsertCategory(categoryName);
    }

    /** Queues exactly one delete of `category`; the table is untouched. */
    method Delete(category: Category)
      requires Valid()
      modifies repository`pending
      ensures Valid()
      ensures repository.pending == old(repository.pending) + [DeleteCategoryWrite(category)]
      ensures repository.dao.rows == old(repository.dao.rows)
      ensures repository.dao.calls == old(repository.dao.calls)
    {
      repository.Delete(category);
    }
  }

  /** A screen adds a category through the view model and the single-thread executor
      then drains its queue: the earlier writes take effect first, in submission order,
      and the new category is listed afterwards under a freshly assigned key. */
  method AddCategoryAndDrain(vm: CategoryViewModel, name: string) returns (newId: int)
    requires vm.Valid() && vm.repository.threads == SINGLE_THREAD
    modifies vm.repository`pending, vm.repository.dao
    ensures vm.Valid() && vm.repository.pending == []
    ensures vm.repository.dao.rows
            == ApplyAll(old(vm.repository.dao.rows), old(vm.repository.pending) + [InsertCategoryWrite(NewCategory(name))])
    ensures Category(newId, name) in Value(vm.GetAllCategories(), vm.repository.dao.rows)
  {
    ghost var rows0 := vm.repository.dao.rows;
    ghost var pending0 := vm.repository.pending;
    NewCategoryListedAfterQueue(rows0, pending0, name);
    ApplyAllAppend(rows0, pending0, InsertCategoryWrite(NewCategory(name)));
    var beforeInsert := ApplyAll(vm.repository.dao.rows, vm.repository.pending);
    newId := CategoryInsertOutcome(beforeInsert, NewCategory(name)).id;
    vm.InsertCategory(name);
    SingleThreadDrain(vm.repository.pending);
    var choices: seq<nat> := seq(|vm.repository.pending|, _ => 0);
    vm.repository.RunPending(choices);
  }
}

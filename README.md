# Inventory: local persistence path, user list selection and login session

This project models the local data path of the Inventory Android app and
proves properties of that model. It also models two small pieces of client
state.

- **Tables.** `items(id, name, description, category, imagePath)` and
  `categories(id, name)` are each a class holding a sequence of rows
  (`ItemDao.ItemTable`, `CategoryDao.CategoryTable`). Every DAO operation is
  a method on that class. The method is proved against a pure function of
  the old rows (`AfterInsert`, `AfterUpdate`, `AfterDeleteById`,
  `AfterDelete`).
- **Live queries.** A live query is a handle whose value is a function of
  the rows as they are now:
  - `AllItemsOf` / `AllCategoriesOf` give `ORDER BY name ASC`.
  - `ItemsInCategoryOf` gives `WHERE category = :category ORDER BY name ASC`.
- **Name order.** The names are compared as SQLite's default BINARY
  collation does: lexicographically by code point (`Rows.NameLe`, proved a
  total order). A stable insertion sort (`Rows.SortBy`) orders the rows.
- **Repositories.** A repository holds the queue of writes it has handed to
  its executor (`pending`, oldest first). Its mutations only append to that
  queue. `RunNext(k)` makes the task at queue position `k` call the DAO.
  `RunPending(choices)` drains the queue along a schedule.
- **Executor model.** An executor with `n` threads takes tasks from one FIFO
  queue, so the next task to take effect is one of the first `n` still
  pending (`Executor.CanRunNext`):
  - the item repository's pool has two threads, so a later write may
    overtake an earlier one;
  - the category repository's single thread applies writes in submission
    order.
- **View models.** These are forwarders to the repositories. End-to-end
  scenario methods (`SaveNewItem`, `AddCategoryAndDrain`) go through the
  view model, the queue and the table.
- **User list.** `UserAdapter` models the list of users and the selected
  position.
- **Login session.** `UserManager` models the session as a `map<string,
  string>` with the keys `"token"` and `"user"`.

The Room annotations are read by their documented SQL meaning:

- `@Insert` aborts on a key collision, and key 0 asks for a generated key.
  The generated key is not written back into the Java object.
- `@Update` is `UPDATE … WHERE id = item.id`.
- `@Delete` is `DELETE … WHERE id = item.id`.

Three consequences of the code are worth stating plainly:

- `update` is not an insert-or-replace: an item whose key the table does not
  hold changes nothing (`ItemDao.UpdateAbsentIsNoop`).
- `delete(entity)` matches the row by key alone, not by every column
  (`CategoryDao.AfterDelete`, `ItemDao.ItemTable.Delete`).
- The session stores the token and the user's JSON text
  (`UserManager.AfterSaveLogin`).

`ORDER BY name ASC` fixes the order only among rows with different names.
The model sorts stably, so rows with equal names stay in table order; the
lemmas `ItemDao.AllItemsOrderForced`, `ItemDao.ItemsInCategoryOrderForced`
and `CategoryDao.AllCategoriesOrderForced` show that when no two rows share
a name, every name-ordered listing of the rows is the model's.

## Model

| member | source | states |
|---|---|---|
| Entities.NewCategory | app/src/main/java/com/hattonky/inventory/repositories/CategoryRepository.java:72 | `new Category(name)` carries the name and a key that any insert accepts and replaces with a generated one |
| Entities.NewItem | app/src/test/java/com/hattonky/inventory/repositories/ItemRepositoryTest.java:112 | `new Item(name, description, category, imagePath)` carries those fields and a key that any insert accepts and replaces with a generated one |
| Rows.NameLeTotal | app/src/main/java/com/hattonky/inventory/data/dao/ItemDao.java:61 | `ORDER BY name ASC` compares names totally: of any two names one is at most the other under the BINARY collation |
| Rows.NameLeTransitive | app/src/main/java/com/hattonky/inventory/data/dao/ItemDao.java:61 | the name order is transitive, so a sorted list is ordered pairwise |
| Rows.NameLeAntisymmetric | app/src/main/java/com/hattonky/inventory/data/dao/ItemDao.java:61 | two names each at most the other are the same name |
| Rows.SortBySpec | app/src/main/java/com/hattonky/inventory/data/dao/ItemDao.java:61-62 | sorting by name yields a list sorted ascending by name that is a permutation of its input (same multiset, same length) |
| Rows.FilterSpec | app/src/main/java/com/hattonky/inventory/data/dao/ItemDao.java:71-72 | a `WHERE` keeps exactly the rows that satisfy it: membership iff, a sub-multiset, no longer than the table |
| Rows.SortByFilter | app/src/main/java/com/hattonky/inventory/data/dao/ItemDao.java:61-72 | for the model's stable sort, filtering then sorting equals sorting then filtering; with equal names this fixes a tie order SQLite does not promise |
| Rows.SortedByDistinctNamesUnique | app/src/main/java/com/hattonky/inventory/data/dao/ItemDao.java:61 | when no two rows share a name, two name-ordered listings of the same rows are the same list, so `ORDER BY name` leaves no choice |
| Rows.FilterKeysUnique | app/src/main/java/com/hattonky/inventory/data/dao/ItemDao.java:52-53 | removing rows keeps the primary keys unique |
| Rows.FreshKey | app/src/main/java/com/hattonky/inventory/data/dao/ItemDao.java:27-28 | a generated key is positive and above every key in use |
| Rows.InsertOutcomeOf | app/src/main/java/com/hattonky/inventory/data/dao/ItemDao.java:27-28 | an insert is rejected exactly when it names an assigned key already in use; an accepted insert files the row under a key not in use, the requested one when one was given |
| Rows.AppendKeepsKeysWellFormed | app/src/main/java/com/hattonky/inventory/data/dao/ItemDao.java:27-28 | adding a row under an unused assigned key keeps keys unique and assigned |
| Rows.DeleteKeyRemovesRow | app/src/main/java/com/hattonky/inventory/data/dao/ItemDao.java:52-53 | deleting by a stored key removes exactly that row and keeps every other row, in order |
| Rows.DeleteKeyAbsentIsNoop | app/src/main/java/com/hattonky/inventory/data/dao/ItemDao.java:52-53 | deleting by a key no row holds changes nothing |
| Rows.DeleteKeyKeepsKeysWellFormed | app/src/main/java/com/hattonky/inventory/data/dao/CategoryDao.java:36-37 | a delete by key keeps the table's keys unique and assigned |
| ItemDao.ItemInsertOutcome | app/src/main/java/com/hattonky/inventory/data/dao/ItemDao.java:27-28 | `insert(item)` is rejected iff the item carries an assigned key already stored; otherwise it gets a fresh key, or its own key |
| ItemDao.AfterInsert | app/src/main/java/com/hattonky/inventory/data/dao/ItemDao.java:27-28 | an accepted insert appends the item, with the reported key, after the unchanged old rows; a rejected one leaves the rows as they were; integrity is kept |
| ItemDao.AfterUpdate | app/src/main/java/com/hattonky/inventory/data/dao/ItemDao.java:31-37 | `update` keeps the row count and gives each row with the item's key the item's values, every other row untouched |
| ItemDao.AfterDeleteById | app/src/main/java/com/hattonky/inventory/data/dao/ItemDao.java:44-53 | after a delete by key exactly the rows without that key remain; integrity is kept |
| ItemDao.AllItemsOf | app/src/main/java/com/hattonky/inventory/data/dao/ItemDao.java:61-62 | `getAllItems` lists every row, each as often as stored, sorted ascending by name |
| ItemDao.ItemsInCategoryOf | app/src/main/java/com/hattonky/inventory/data/dao/ItemDao.java:71-72 | `getItemsByCategory(c)` lists exactly the rows of category `c`, sorted by name, a sub-multiset of the table, and, in the model's tie order, equals `getAllItems` with the other categories struck out |
| ItemDao.InsertKeepsEveryRow | app/src/main/java/com/hattonky/inventory/data/dao/ItemDao.java:27-28 | an item with the unassigned key is always accepted; after an insert every earlier item is still listed, the new one is listed under its key, and the list grew by one exactly when the insert was accepted |
| ItemDao.UpdateReplacesRow | app/src/main/java/com/hattonky/inventory/data/dao/ItemDao.java:31-37 | updating a stored key replaces exactly that row in place (`rows[k := item]`) and keeps integrity |
| ItemDao.UpdateAbsentIsNoop | app/src/main/java/com/hattonky/inventory/data/dao/ItemDao.java:36-37 | updating a key the table does not hold changes nothing |
| ItemDao.UpdateKeepsWellFormed | app/src/main/java/com/hattonky/inventory/data/dao/ItemDao.java:36-37 | every update keeps keys unique and assigned |
| ItemDao.DeleteByIdRemovesRow | app/src/main/java/com/hattonky/inventory/data/dao/ItemDao.java:52-53 | `deleteById` of a stored key removes exactly that row and keeps the rest in order |
| ItemDao.DeleteByIdAbsentIsNoop | app/src/main/java/com/hattonky/inventory/data/dao/ItemDao.java:52-53 | `deleteById` of a key no row holds changes nothing |
| ItemDao.DeleteByIdQuery | app/src/main/java/com/hattonky/inventory/data/dao/ItemDao.java:52-62 | after a delete, `getAllItems` is the old sorted list with the deleted key's row struck out (in the model's tie order) |
| ItemDao.AllItemsOrderForced | app/src/main/java/com/hattonky/inventory/data/dao/ItemDao.java:61-62 | when no two items share a name, any name-ordered listing of all rows is exactly `AllItemsOf` |
| ItemDao.ItemsInCategoryOrderForced | app/src/main/java/com/hattonky/inventory/data/dao/ItemDao.java:71-72 | when no two items share a name, any name-ordered listing of exactly the category's rows is exactly `ItemsInCategoryOf` |
| ItemDao.ApplyWrite | app/src/main/java/com/hattonky/inventory/repositories/ItemRepository.java:85-115 | a queued task's write keeps the table's integrity, and `delete(item)` strikes out exactly the rows with the item's key |
| ItemDao.Value | app/src/main/java/com/hattonky/inventory/data/dao/ItemDao.java:61-72 | a live query's current value is name-ordered and drawn from the rows: all of them for `getAllItems`, exactly the category's for `getItemsByCategory` |
| ItemDao.ApplyAllAppend | app/src/main/java/com/hattonky/inventory/repositories/ItemRepository.java:84-116 | applying a queue of writes and then one more is applying the longer queue |
| ItemDao.InsertIntoEmptyTable | app/src/test/java/com/hattonky/inventory/data/dao/ItemDaoTest.java:50-65 | one insert into an empty table makes `getAllItems` the one-element list holding that item's fields under the reported key |
| ItemDao.UpdateOnlyRow | app/src/test/java/com/hattonky/inventory/data/dao/ItemDaoTest.java:67-83 | updating the only row through the key its insert reported leaves exactly the updated item listed |
| ItemDao.DeleteOnlyRow | app/src/test/java/com/hattonky/inventory/data/dao/ItemDaoTest.java:85-99 | deleting the only row through the key its insert reported leaves `getAllItems` empty |
| ItemDao.UpdateWithUnassignedKeyIsNoop | app/src/test/java/com/hattonky/inventory/data/dao/ItemDaoTest.java:67-83 | updating through the Java object that still holds key 0 after its insert leaves the original row listed unchanged |
| ItemDao.DeleteWithUnassignedKeyIsNoop | app/src/test/java/com/hattonky/inventory/data/dao/ItemDaoTest.java:85-99 | deleting through the Java object that still holds key 0 after its insert leaves the row listed |
| ItemDao.ItemsByCategoryTwoItems | app/src/test/java/com/hattonky/inventory/data/dao/ItemDaoTest.java:101-117 | with two new items in different categories, the first category's query lists just the first item |
| ItemDao.ItemTable.constructor | app/src/main/java/com/hattonky/inventory/data/dao/ItemDao.java:18-19 | a new table is empty and has received no calls |
| ItemDao.ItemTable.Insert | app/src/main/java/com/hattonky/inventory/data/dao/ItemDao.java:27-28 | the rows become `AfterInsert` of the old rows, the outcome is reported, integrity is kept, and one insert call is logged |
| ItemDao.ItemTable.Update | app/src/main/java/com/hattonky/inventory/data/dao/ItemDao.java:36-37 | the rows become `AfterUpdate` of the old rows, integrity is kept, one update call is logged |
| ItemDao.ItemTable.Delete | app/src/main/java/com/hattonky/inventory/data/dao/ItemDao.java:44-45 | the rows become the old rows without the item's key, one delete call is logged |
| ItemDao.ItemTable.DeleteById | app/src/main/java/com/hattonky/inventory/data/dao/ItemDao.java:52-53 | the rows become the old rows without that key, one deleteById call is logged |
| ItemDao.ItemTable.GetAllItems | app/src/main/java/com/hattonky/inventory/data/dao/ItemDao.java:61-62 | hands out the all-items live query and logs one call |
| ItemDao.ItemTable.GetItemsByCategory | app/src/main/java/com/hattonky/inventory/data/dao/ItemDao.java:71-72 | hands out the live query for that very category and logs one call with it |
| CategoryDao.CategoryInsertOutcome | app/src/main/java/com/hattonky/inventory/data/dao/CategoryDao.java:27-28 | `insert(category)` is rejected iff it carries an assigned key already stored; otherwise it gets a fresh key, or its own |
| CategoryDao.AfterInsert | app/src/main/java/com/hattonky/inventory/data/dao/CategoryDao.java:27-28 | an accepted insert appends the category under the reported key after the unchanged old rows; a rejected one changes nothing; integrity is kept |
| CategoryDao.AfterDelete | app/src/main/java/com/hattonky/inventory/data/dao/CategoryDao.java:36-37 | after `delete(category)` exactly the rows without its key remain; integrity is kept |
| CategoryDao.AllCategoriesOf | app/src/main/java/com/hattonky/inventory/data/dao/CategoryDao.java:46-47 | `getAllCategories` lists every row, each as often as stored, sorted ascending by name |
| CategoryDao.ApplyWrite | app/src/main/java/com/hattonky/inventory/repositories/CategoryRepository.java:72-82 | a queued task's write keeps the table's integrity, and a delete strikes out exactly the rows with the category's key |
| CategoryDao.Value | app/src/main/java/com/hattonky/inventory/data/dao/CategoryDao.java:46-47 | the live query's current value is every row, name-ordered |
| CategoryDao.AllCategoriesOrderForced | app/src/main/java/com/hattonky/inventory/data/dao/CategoryDao.java:46-47 | when no two categories share a name, any name-ordered listing of the rows is exactly `AllCategoriesOf` |
| CategoryDao.ApplyAllAppend | app/src/main/java/com/hattonky/inventory/repositories/CategoryRepository.java:71-83 | applying a queue of writes and then one more is applying the longer queue |
| CategoryDao.InsertKeepsEveryRow | app/src/main/java/com/hattonky/inventory/data/dao/CategoryDao.java:27-28 | after an insert every earlier category is still listed, an accepted one is listed under its key, and the list grew by one exactly when accepted |
| CategoryDao.NewCategoryListedAfterQueue | app/src/main/java/com/hattonky/inventory/repositories/CategoryRepository.java:71-73 | whatever writes ran first, an insert of `new Category(name)` that runs last is accepted and a category of that name is listed |
| CategoryDao.DeleteRemovesCategory | app/src/main/java/com/hattonky/inventory/data/dao/CategoryDao.java:36-37 | deleting a stored category removes exactly its row: no listed category keeps its key and the list is one shorter |
| CategoryDao.DeleteKeepsOthersSorted | app/src/main/java/com/hattonky/inventory/data/dao/CategoryDao.java:36-47 | after a delete every other category is still listed, and the list is the old sorted list with the deleted row struck out (in the model's tie order) |
| CategoryDao.DeleteAbsentIsNoop | app/src/main/java/com/hattonky/inventory/data/dao/CategoryDao.java:36-37 | deleting a category whose key no row holds changes nothing |
| CategoryDao.CategoryTable.constructor | app/src/main/java/com/hattonky/inventory/data/dao/CategoryDao.java:18-19 | a new table is empty and has received no calls |
| CategoryDao.CategoryTable.Insert | app/src/main/java/com/hattonky/inventory/data/dao/CategoryDao.java:27-28 | the rows become `AfterInsert` of the old rows, the outcome is reported, one insert call is logged |
| CategoryDao.CategoryTable.Delete | app/src/main/java/com/hattonky/inventory/data/dao/CategoryDao.java:36-37 | the rows become `AfterDelete` of the old rows, one delete call is logged |
| CategoryDao.CategoryTable.GetAllCategories | app/src/main/java/com/hattonky/inventory/data/dao/CategoryDao.java:46-47 | hands out the all-categories live query and logs one call |
| Executor.CanRunNext | app/src/main/java/com/hattonky/inventory/repositories/ItemRepository.java:42 | the next task to take effect is one of the first `threads` pending; with a single thread it can only be the oldest |
| Executor.LegalSchedule | app/src/main/java/com/hattonky/inventory/repositories/CategoryRepository.java:28 | a schedule the executor can follow takes at most as many steps as there are pending tasks |
| Executor.CompletionOrder | app/src/main/java/com/hattonky/inventory/repositories/ItemRepository.java:42 | a legal schedule completes one task per step |
| Executor.LogSpec | app/src/main/java/com/hattonky/inventory/repositories/ItemRepository.java:84-116 | running a list of queued tasks leaves one DAO call per task, the `i`-th being the call the `i`-th task makes |
| Executor.DrainStepLog | app/src/main/java/com/hattonky/inventory/repositories/ItemRepository.java:84-116 | the task a schedule's first step picks makes its DAO call ahead of every later task's |
| Executor.TakeKeepsOthers | app/src/main/java/com/hattonky/inventory/repositories/ItemRepository.java:42 | taking one task out of the queue loses no other task and duplicates none |
| Executor.DrainAppliesEachOnce | app/src/main/java/com/hattonky/inventory/repositories/ItemRepository.java:84-116 | a schedule that drains the queue applies every submitted write exactly once, whatever its order |
| Executor.SingleThreadIsFifo | app/src/main/java/com/hattonky/inventory/repositories/CategoryRepository.java:28 | with one worker thread, writes take effect in submission order |
| Executor.SingleThreadDrain | app/src/main/java/com/hattonky/inventory/repositories/CategoryRepository.java:28 | with one worker thread the queue can always be drained, oldest first, and that drain applies the queue as submitted |
| Executor.TwoThreadsMayReorder | app/src/main/java/com/hattonky/inventory/repositories/ItemRepository.java:42 | with the pool's two threads, two queued writes may take effect in either order |
| ItemRepository.ItemRepository.FromDatabase | app/src/main/java/com/hattonky/inventory/repositories/ItemRepository.java:37-43 | uses the database's item DAO and a two-thread pool, starts with nothing queued, and asks the DAO for all items exactly once |
| ItemRepository.ItemRepository.constructor | app/src/main/java/com/hattonky/inventory/repositories/ItemRepository.java:51-55 | keeps the injected DAO and executor, starts with nothing queued, asks the DAO for all items exactly once |
| ItemRepository.ItemRepository.GetAllItems | app/src/main/java/com/hattonky/inventory/repositories/ItemRepository.java:63-65 | returns the all-items handle captured at construction, without asking the DAO |
| ItemRepository.ItemRepository.GetItemsByCategory | app/src/main/java/com/hattonky/inventory/repositories/ItemRepository.java:74-76 | asks the DAO afresh with the same category each call and queues nothing |
| ItemRepository.ItemRepository.Insert | app/src/main/java/com/hattonky/inventory/repositories/ItemRepository.java:84-86 | queues exactly one insert of the item; the table and the DAO's call log are unchanged |
| ItemRepository.ItemRepository.Update | app/src/main/java/com/hattonky/inventory/repositories/ItemRepository.java:94-96 | queues exactly one update with the item; the table and the call log are unchanged |
| ItemRepository.ItemRepository.Delete | app/src/main/java/com/hattonky/inventory/repositories/ItemRepository.java:104-106 | queues exactly one delete of the item; the table and the call log are unchanged |
| ItemRepository.ItemRepository.DeleteById | app/src/main/java/com/hattonky/inventory/repositories/ItemRepository.java:114-116 | queues exactly one delete by that key; the table and the call log are unchanged |
| ItemRepository.ItemRepository.RunNext | app/src/main/java/com/hattonky/inventory/repositories/ItemRepository.java:85-115 | one of the first `threads` queued tasks runs (two for the production pool): it makes the DAO call its write names with the captured argument, and that write's effect on the rows is applied |
| ItemRepository.ItemRepository.RunPending | app/src/main/java/com/hattonky/inventory/repositories/ItemRepository.java:42-116 | draining along a legal schedule empties the queue, leaves the rows as if the writes had run in that schedule's completion order, and logs one DAO write call per task in that order |
| ItemRepository.TwoUpdatesMayLandInEitherOrder | app/src/main/java/com/hattonky/inventory/repositories/ItemRepository.java:42-96 | two queued updates of one item may leave either version in the table, so the later save can be lost |
| ItemViewModel.ItemViewModel.FromApplication | app/src/main/java/com/hattonky/inventory/viewmodels/ItemViewModel.java:21-26 | builds a fresh repository over the database (two threads, nothing queued) and takes its all-items handle |
| ItemViewModel.ItemViewModel.constructor | app/src/main/java/com/hattonky/inventory/viewmodels/ItemViewModel.java:28-32 | keeps the injected repository and takes its all-items handle |
| ItemViewModel.ItemViewModel.GetAllItems | app/src/main/java/com/hattonky/inventory/viewmodels/ItemViewModel.java:35-37 | returns the repository's all-items handle captured at construction |
| ItemViewModel.ItemViewModel.GetItemsByCategory | app/src/main/java/com/hattonky/inventory/viewmodels/ItemViewModel.java:40-42 | forwards the category unchanged: one DAO query for it, nothing queued |
| ItemViewModel.ItemViewModel.Insert | app/src/main/java/com/hattonky/inventory/viewmodels/ItemViewModel.java:45-47 | queues exactly one insert of the same item through the repository; the table is untouched |
| ItemViewModel.ItemViewModel.Update | app/src/main/java/com/hattonky/inventory/viewmodels/ItemViewModel.java:50-52 | queues exactly one update with the same item; the table is untouched |
| ItemViewModel.ItemViewModel.Delete | app/src/main/java/com/hattonky/inventory/viewmodels/ItemViewModel.java:55-57 | queues exactly one delete of the same item; the table is untouched |
| ItemViewModel.ItemViewModel.DeleteById | app/src/main/java/com/hattonky/inventory/viewmodels/ItemViewModel.java:59-61 | `delete(int)` queues exactly one delete by that key, the repository's `deleteById`; the table is untouched |
| ItemViewModel.SaveNewItem | app/src/main/java/com/hattonky/inventory/viewmodels/ItemViewModel.java:45-47 | a new item saved behind any queue of writes and drained along any legal schedule leaves the table as the completion order does; with a single thread the save completes last, and when it does the item is listed by the all-items query under a fresh key, beside every item the earlier writes left listed |
| ItemViewModel.SavedLast | app/src/main/java/com/hattonky/inventory/repositories/ItemRepository.java:84-86 | a save completing after some writes is given a key unused by the rows they left, and is listed beside all of those rows |
| ItemViewModel.QueuedDeleteMayRemoveSave | app/src/main/java/com/hattonky/inventory/repositories/ItemRepository.java:42-116 | with the two-thread pool, a delete queued before a save that names the key the save will be given can complete after the save; the table then ends as it began and the saved item is not listed |
| ItemViewModel.InsertThenDeleteRestores | app/src/main/java/com/hattonky/inventory/data/dao/ItemDao.java:27-53 | inserting a new item and then deleting by the key it was given leaves the table exactly as before |
| CategoryRepository.CategoryRepository.FromDatabase | app/src/main/java/com/hattonky/inventory/repositories/CategoryRepository.java:28-41 | uses the database's category DAO and a single-thread executor, starts with nothing queued, asks the DAO for all categories exactly once |
| CategoryRepository.CategoryRepository.constructor | app/src/main/java/com/hattonky/inventory/repositories/CategoryRepository.java:49-53 | keeps the injected DAO and executor, starts with nothing queued, asks the DAO for all categories exactly once |
| CategoryRepository.CategoryRepository.GetAllCategories | app/src/main/java/com/hattonky/inventory/repositories/CategoryRepository.java:61-63 | returns the handle captured at construction, without asking the DAO |
| CategoryRepository.CategoryRepository.InsertCategory | app/src/main/java/com/hattonky/inventory/repositories/CategoryRepository.java:71-73 | queues exactly one insert of a new category carrying that name and the unassigned key; no DAO call, the table unchanged |
| CategoryRepository.CategoryRepository.Delete | app/src/main/java/com/hattonky/inventory/repositories/CategoryRepository.java:81-83 | queues exactly one delete of that very category; no DAO call, the table unchanged |
| CategoryRepository.CategoryRepository.RunNext | app/src/main/java/com/hattonky/inventory/repositories/CategoryRepository.java:72-82 | a runnable task makes the DAO call its write names with the captured argument, and that write's effect is applied |
| CategoryRepository.CategoryRepository.RunPending | app/src/main/java/com/hattonky/inventory/repositories/CategoryRepository.java:28 | draining empties the queue and applies the writes, and logs one DAO write call per task, in the schedule's completion order, which with one thread is submission order |
| CategoryViewModel.CategoryViewModel.FromApplication | app/src/main/java/com/hattonky/inventory/viewmodels/CategoryViewModel.java:18-22 | builds a fresh single-thread repository over the database and takes its all-categories handle |
| CategoryViewModel.CategoryViewModel.constructor | app/src/main/java/com/hattonky/inventory/viewmodels/CategoryViewModel.java:24-28 | keeps the injected repository and takes its all-categories handle |
| CategoryViewModel.CategoryViewModel.GetAllCategories | app/src/main/java/com/hattonky/inventory/viewmodels/CategoryViewModel.java:30-32 | returns the repository's handle captured at construction |
| CategoryViewModel.CategoryViewModel.InsertCategory | app/src/main/java/com/hattonky/inventory/viewmodels/CategoryViewModel.java:34-36 | queues exactly one insert of a new category with that name through the repository; the table is untouched |
| CategoryViewModel.CategoryViewModel.Delete | app/src/main/java/com/hattonky/inventory/viewmodels/CategoryViewModel.java:38-40 | queues exactly one delete of the same category; the table is untouched |
| CategoryViewModel.AddCategoryAndDrain | app/src/main/java/com/hattonky/inventory/viewmodels/CategoryViewModel.java:34-36 | a category added through the view model, once the single thread has drained its queue, is listed, and the earlier writes took effect first in submission order |
| UserAdapter.SelectedIn | app/src/main/java/com/hattonky/inventory/adapters/UserAdapter.java:48-53 | there is a selected user exactly when the position is a list index, and it is the user at that index |
| UserAdapter.UserAdapter.constructor | app/src/main/java/com/hattonky/inventory/adapters/UserAdapter.java:27-29 | a new adapter has an empty list, no selected position, no listener, and no selected user |
| UserAdapter.UserAdapter.SetOnUserClickListener | app/src/main/java/com/hattonky/inventory/adapters/UserAdapter.java:35-37 | the given listener (or none) is the one notified from now on |
| UserAdapter.UserAdapter.SetUsers | app/src/main/java/com/hattonky/inventory/adapters/UserAdapter.java:39-42 | the list is replaced and the selected position kept, so a list too short for it selects nobody |
| UserAdapter.UserAdapter.GetUsers | app/src/main/java/com/hattonky/inventory/adapters/UserAdapter.java:44-46 | the list returned is as long as the item count |
| UserAdapter.UserAdapter.GetSelectedUser | app/src/main/java/com/hattonky/inventory/adapters/UserAdapter.java:48-53 | returns the user at the selected position only when a position is selected and below the list length, otherwise none |
| UserAdapter.UserAdapter.GetItemCount | app/src/main/java/com/hattonky/inventory/adapters/UserAdapter.java:81-83 | the item count is the list length |
| UserAdapter.UserAdapter.Bind | app/src/main/java/com/hattonky/inventory/adapters/UserAdapter.java:63-68 | a bound row shows the user at its position and is marked selected exactly at the selected position |
| UserAdapter.UserAdapter.OnClick | app/src/main/java/com/hattonky/inventory/adapters/UserAdapter.java:69-77 | a click selects the row's current position, redraws the old and new positions, and notifies a set listener, and only a set one, with the bound user and that position |
| UserAdapter.ClickBoundRow | app/src/main/java/com/hattonky/inventory/adapters/UserAdapter.java:63-77 | clicking a bound row that has not moved makes its user the selected user and the one the listener hears of |
| UserManager.Lookup | app/src/main/java/com/hattonky/inventory/data/UserManager.java:21-23 | `getString(key, null)` yields the stored value exactly when the key is present |
| UserManager.Put | app/src/main/java/com/hattonky/inventory/data/UserManager.java:17-19 | `putString` makes the key read back the given value, null meaning absent, and leaves every other key as it was |
| UserManager.AfterSaveLogin | app/src/main/java/com/hattonky/inventory/data/UserManager.java:17-19 | after `saveLogin(t, u)` the token key reads back `t` (absent when null), the user key reads back `u`, every other key as before |
| UserManager.TokenIn | app/src/main/java/com/hattonky/inventory/data/UserManager.java:21-23 | `getToken` yields the stored token exactly when the token key is present |
| UserManager.LoggedInWith | app/src/main/java/com/hattonky/inventory/data/UserManager.java:36-38 | the session is open exactly when the token key is present |
| UserManager.AfterLogout | app/src/main/java/com/hattonky/inventory/data/UserManager.java:32-34 | after `clear()` no key reads back anything |
| UserManager.UserIn | app/src/main/java/com/hattonky/inventory/data/UserManager.java:25-30 | `getUser` yields the stored user text exactly when one is stored and it parses; a missing or unparsable one reads as none |
| UserManager.SaveLoginReadsBack | app/src/main/java/com/hattonky/inventory/data/UserManager.java:17-38 | after `saveLogin(t, u)` the token reads back `t`, the user reads back `u` when it parses, the session is open iff `t` is not null, and no other key changes |
| UserManager.SecondSaveOverwrites | app/src/main/java/com/hattonky/inventory/data/UserManager.java:17-19 | a second `saveLogin` leaves the store exactly as the second one alone would |
| UserManager.LogoutEndsSession | app/src/main/java/com/hattonky/inventory/data/UserManager.java:32-38 | after `logout` there is no token, no user and no session |
| UserManager.UserManager.constructor | app/src/main/java/com/hattonky/inventory/data/UserManager.java:13-15 | opens the store with whatever an earlier session left in it |
| UserManager.UserManager.SaveLogin | app/src/main/java/com/hattonky/inventory/data/UserManager.java:17-19 | both keys are written in one edit; the token reads back as given and the session is open iff it is not null |
| UserManager.UserManager.GetToken | app/src/main/java/com/hattonky/inventory/data/UserManager.java:21-23 | returns the stored token, or none when the key is absent |
| UserManager.UserManager.GetUser | app/src/main/java/com/hattonky/inventory/data/UserManager.java:25-30 | returns the stored user text when present and parsable, otherwise none, never failing |
| UserManager.UserManager.Logout | app/src/main/java/com/hattonky/inventory/data/UserManager.java:32-34 | clears the store: no token, no user, not logged in |
| UserManager.UserManager.IsLoggedIn | app/src/main/java/com/hattonky/inventory/data/UserManager.java:36-38 | logged in exactly when `getToken()` is not null |

## Left out

- Threads and LiveData delivery are not modelled. A live query's value is a function of the current rows. The executor is a queue plus an explicit step that applies one task whole; a DAO write is taken to be atomic.
- Rows.FreshKey: SQLite's AUTOINCREMENT, which Room uses for an auto-generated key, never gives out a key again once a row has held it. `Rows.FreshKey` gives the largest key present plus one, so after the row with the highest key is deleted it would give that key again. The model therefore promises only that a generated key is positive and unused by the rows present, and no lemma depends on its exact value. The 32-bit width of the Java `int` key is not modelled either.
- The order among rows with equal names is not SQLite's promise: the model keeps such rows in table order. So the list equalities of `Rows.SortByFilter`, `ItemDao.ItemsInCategoryOf` (its last ensures), `ItemDao.DeleteByIdQuery` and `CategoryDao.DeleteKeepsOthersSorted` hold for the model's tie order only. What holds for any tie order is "sorted and the same rows"; when names are distinct the equalities hold for every listing SQLite can give (`ItemDao.AllItemsOrderForced`, `ItemDao.ItemsInCategoryOrderForced`, `CategoryDao.AllCategoriesOrderForced`).
- A null Java string (a null name, category or image path) is not modelled. Every text field is a `string`.
- A null `user` passed to `saveLogin` is not modelled. The Java code would throw on `user.toString()`, so the model takes the user as its JSON text (`UserManager.UserManager.SaveLogin`).
- JSON parsing by org.json is passed in as the predicate `parsesAsObject`. The parsed object is represented by the stored text.
- The uniqueness-violation exception from `insert` is modelled as an `InsertOutcome` that leaves the table unchanged. Its propagation on the executor thread is not modelled.
- `notifyDataSetChanged`, view inflation and the view holder's text fields in `UserAdapter` are left out. `notifyItemChanged` is modelled only as the list of redrawn positions.
- UserAdapter.UserAdapter.SetUsers: the Java adapter keeps a reference to the caller's list, so later changes the caller makes to that list show through. The model copies a value, so this aliasing is left out.
- ItemRepository.ItemRepository.Insert, ItemRepository.ItemRepository.Update, ItemRepository.ItemRepository.Delete and CategoryRepository.CategoryRepository.Delete: the Java task captures a reference to the caller's `Item` or `Category` object and writes whatever that object holds when the task runs. The queued write carries the object's value at submission, so a change the caller makes after submitting is not modelled.
- UserAdapter.UserAdapter.GetUsers: the contract states only the length relation to `getItemCount`. The value returned is the `users` field itself.
- `AppDatabase` / `InventoryDatabase` (lazy synchronized singletons) are left out. The production constructors take the table they would open as a parameter.
- The unused single-thread executor that `CategoryRepository`'s field initialiser creates before the injecting constructor replaces it is left out.
- ItemViewModel.SaveNewItem: the item is promised to be listed only when the save completes after every write queued before it. With the two-thread pool another queued write may complete later and rewrite or delete the new row (`ItemViewModel.QueuedDeleteMayRemoveSave` shows one such schedule).
- A listener object is modelled by an identity number. Its own behaviour is not modelled.

## Findings

| source | as written | input that shows it | evidently intended | confidence | as-written member | corrected member |
|---|---|---|---|---|---|---|
| app/src/test/java/com/hattonky/inventory/data/dao/ItemDaoTest.java:67-83 | the test updates through the Java object it inserted, whose key is still 0 because `@Insert` does not write the generated key back | `new Item("OriginalName", …)`, insert, `setName("UpdatedName")`, update: the row keeps "OriginalName" | update the row through the key the insert assigned | medium, not executed; the `Item` entity file is not part of this model, so the key being auto-generated is inferred from the constructor call sites | ItemDao.UpdateWithUnassignedKeyIsNoop | ItemDao.UpdateOnlyRow |
| app/src/test/java/com/hattonky/inventory/data/dao/ItemDaoTest.java:85-99 | the test deletes through the Java object it inserted, whose key is still 0 | `new Item("DeleteMe", …)`, insert, delete: one row is still listed | delete the row through the key the insert assigned | medium, not executed; same inference as above | ItemDao.DeleteWithUnassignedKeyIsNoop | ItemDao.DeleteOnlyRow |

# Todo lists in a session — a Dafny model of todo.rb

todo.rb is a small Sinatra application. It keeps a user's todo lists in the
session. Each list has an integer id, a name and a sequence of todos. Each
todo has an id, a text (`name`) and a completed flag. Request handlers create,
rename and delete lists, and add, delete and complete todos. View helpers
compute whether a list is complete and give the order in which lists and todos
are shown.

The model has six modules:

- `Records` (records.dfy): the list and todo records, and an `Option` type.
- `Builtins` (builtins.dfy): the Ruby core methods the handlers use, written
  over sequences: `select`/`reject`/`delete_if` (`Select`), `partition`,
  `find` (`FindIndex`, which returns the position of the match), `max`, and `String#strip`.
- `Helpers` (helpers.dfy): `count_todos`, `uncompleted_todos_count`,
  `list_completed?`, `sort_lists` and `sort_todos`.
- `Validators` (validators.dfy): `error_for_list_name` and `error_for_todo`,
  with their messages.
- `ListOps` (list_ops.dfy): `next_element_id`, `load_list`, and one pure
  function for each handler's change to the list it touches. It also defines
  `WellFormed`, the invariant the handlers keep: list ids are unique and
  positive; list names are unique and have 1 to 100 characters; within each
  list, todo ids are unique and positive and todo texts have 1 to 100
  characters.
- `SessionStore` (store.dfy): class `Store`, whose field `lists` is
  `session[:lists]`. It has one method for each POST handler. Each method
  states its new `lists` through the `ListOps` functions and keeps
  `WellFormed`. The "complete all" handler's `each` loop stays a loop.
  `GroceriesScenario` walks one session through create, add, complete and two
  rejected creations.

Points where todo.rb behaves in a way a reader might not expect:

- Renaming a list to the name it already has is rejected as "The list name
  must be unique.". The rename handler (todo.rb:138) checks the new name
  against every list, the renamed one included. `ListOps.RenameToOwnNameRejected`
  proves this.
- `sort_lists` and `sort_todos` yield each item alone, with no index
  (todo.rb:38-39, 45-46). The model returns the items in the order they are
  yielded.
- Deleting a list whose id does not exist fails in todo.rb: `find` returns
  `nil` and `[:name]` is called on it (todo.rb:152). It does not answer "not
  found". `Store.DeleteList` therefore requires the list to exist. Likewise,
  a status update for a todo id that does not exist fails (todo.rb:202), so
  `Store.SetTodoCompleted` requires the todo to exist when the list does.
- A list's `:completed` key is written only by the status update and by
  complete-all (todo.rb:203, 216). It is absent when the list is created, so
  it is `cachedCompleted: Option<bool>` here with value `None` at creation.
  Adding or deleting a todo leaves it as it was, so it can disagree with
  `list_completed?`. todo.rb never reads the key. `WithTodoAdded` and
  `WithoutTodosNamed` state that the key is unchanged.

## Model

| member | source | states |
|---|---|---|
| `Builtins.Select` | todo.rb:26 | the block-`select` result is no longer than the input, and each of its elements comes from the input and satisfies the block |
| `Builtins.SelectKeeps` | todo.rb:26 | the reverse direction: an input element that satisfies the block is in the result |
| `Builtins.SelectCount` | todo.rb:26 | the size of a `select` is the number of positions whose element the block accepts |
| `Builtins.SelectKeepsOrder` | todo.rb:186 | two accepted elements appear in the result in the order they had in the input |
| `Builtins.SelectAppend` | todo.rb:153 | filtering a concatenation is the same as concatenating the two filtered parts |
| `Builtins.Partition` | todo.rb:36 | the two halves together are as long as the input; the first holds only elements the block accepts, the second only elements it rejects |
| `Builtins.PartitionIsSelect` | todo.rb:43 | the halves of `partition` are exactly `select` and `reject` with the same block, order kept |
| `Builtins.PartitionPermutes` | todo.rb:43 | the two halves together hold exactly the input's elements, with multiplicity |
| `Builtins.FindIndex` | todo.rb:88 | when found, the index is the first position whose element satisfies the block; nothing is found exactly when no element satisfies it |
| `Builtins.Max` | todo.rb:99 | `max` is `nil` exactly for an empty input; otherwise it is an element of the input and no element exceeds it |
| `Builtins.Strip` | todo.rb:105 | the result is a contiguous piece of the input with only whitespace cut from either side, and it neither starts nor ends with whitespace |
| `Builtins.StripIdempotent` | todo.rb:134 | stripping an already stripped name changes nothing |
| `Builtins.StripClean` | todo.rb:167 | a text with no whitespace at either end is its own `strip` |
| `Helpers.CountTodos` | todo.rb:20-22 | the size of the list's todo array, every todo counted, repeated texts included; `Helpers.CountTodosSplits` gives it its content |
| `Helpers.CountTodosSplits` | todo.rb:20-27 | `count_todos` is the uncompleted count plus the number of completed todos |
| `Helpers.UncompletedTodosCount` | todo.rb:25-27 | the count is the number of positions holding an uncompleted todo; it never exceeds `count_todos`, is 0 exactly when every todo is completed, and equals `count_todos` exactly when none is |
| `Helpers.ListCompleted` | todo.rb:15-17 | a list is complete exactly when it has at least one todo and all of its todos are completed |
| `Helpers.SortLists` | todo.rb:35-40 | the incomplete lists in input order, then the complete ones in input order; the output is a permutation of the input and no complete list precedes an incomplete one |
| `Helpers.SortTodos` | todo.rb:42-47 | the uncompleted todos in input order, then the completed ones; the output is a permutation of the input and no completed todo precedes an uncompleted one |
| `Helpers.SortListsKeepsGroupOrder` | todo.rb:36-39 | selecting complete (or incomplete) lists from the sorted output gives the same lists, in the same order, as selecting them from the input |
| `Helpers.SortTodosKeepsGroupOrder` | todo.rb:43-46 | selecting completed (or uncompleted) todos from the sorted output gives the same todos, in the same order, as selecting them from the input |
| `Validators.ErrorForListName` | todo.rb:71-77 | the length error comes exactly when the name has fewer than 1 or more than 100 characters; the uniqueness error exactly when the length is fine and some list already has this name; no error exactly when both checks pass |
| `Validators.Message` | todo.rb:71-84 | each validation failure has its own message, with the exact text todo.rb stores in the session, and no two failures share one |
| `Validators.ErrorForTodo` | todo.rb:80-84 | no error exactly when the text has 1 to 100 characters; todo texts are not checked for uniqueness |
| `ListOps.NextElementId` | todo.rb:98-101 | 1 when no id is in use; otherwise one more than an id in use; in every case above every id in use |
| `ListOps.NewList` | todo.rb:106-112 | the appended list has id `next_element_id` of the ids in use, so above every one of them (1 for the first list), the given name, no todos and no `:completed` key, so it is not complete |
| `ListOps.FindListIndex` | todo.rb:88 | the position of the first list with this id; `None` exactly when no list has it |
| `ListOps.FindTodoIndex` | todo.rb:202 | the position of the first todo with this id; `None` exactly when no todo has it |
| `ListOps.LoadList` | todo.rb:87-95 | `None` (the "not found" path) exactly when no list has the id; otherwise a list of the session with that id |
| `ListOps.LoadListFindsTheList` | todo.rb:88 | with unique ids, `load_list` of a list's id returns that very list |
| `ListOps.WithoutList` | todo.rb:153 | every remaining list was in the input and has another id, and every input list with another id remains |
| `ListOps.WithoutListRemovesOne` | todo.rb:152-153 | with unique ids, deleting the list at position i leaves exactly the lists before and after it, in order |
| `ListOps.WithTodoAdded` | todo.rb:174-175 | the old todos are kept as a prefix, followed by one uncompleted todo with the text whose id is `next_element_id` of the list's todo ids, and so above every other; the list becomes incomplete and its uncompleted count grows by one; id, name and `:completed` key are untouched |
| `ListOps.WithoutTodosNamed` | todo.rb:186 | every remaining todo was in the list and has another text; every todo with another text remains; id, name and `:completed` key are untouched |
| `ListOps.WithoutTodosNamedKeepsOrder` | todo.rb:186 | two todos that survive the deletion appear in the result in the order they had before |
| `ListOps.WithTodoCompleted` | todo.rb:200-203 | the first todo with the id gets the flag, every other todo is unchanged, no id or text changes, and the `:completed` key becomes `list_completed?` of the updated list |
| `ListOps.WithTodoCompletedTargetsId` | todo.rb:202 | with unique todo ids, the status update sets the flag of exactly the todos carrying the id and leaves every other flag as it was |
| `ListOps.WithAllCompleted` | todo.rb:213-216 | each todo is the old one with `completed` true; no todo is left uncompleted; the list is complete, and its `:completed` key true, exactly when it has at least one todo |
| `ListOps.RenameToOwnNameRejected` | todo.rb:134-141 | renaming a list to the name it already has gets the "must be unique" error |
| `ListOps.CreateListKeepsWellFormed` | todo.rb:106-112 | appending a new empty list with the next id and a validated name keeps every invariant |
| `ListOps.RenameKeepsWellFormed` | todo.rb:138-143 | renaming a list to a validated name keeps every invariant |
| `ListOps.DeleteListKeepsWellFormed` | todo.rb:153 | removing lists keeps every invariant |
| `ListOps.ReplaceListKeepsWellFormed` | todo.rb:143 | replacing one list by one with the same id and name and well-formed todos keeps every invariant |
| `ListOps.AddTodoKeepsWellFormed` | todo.rb:169-175 | adding a validated text keeps the list's todo ids unique and positive and its texts 1 to 100 characters long |
| `ListOps.DeleteTodosKeepsWellFormed` | todo.rb:186 | deleting todos keeps the list's todos well formed |
| `ListOps.SameIdsAndNames` | todo.rb:214 | changing only the completed flags keeps a list's todos well formed |
| `ListOps.SetTodoCompletedKeepsWellFormed` | todo.rb:202-203 | the status update keeps every invariant |
| `ListOps.CompleteAllKeepsWellFormed` | todo.rb:213-216 | complete-all keeps every invariant |
| `SessionStore.Store.constructor` | todo.rb:51-53 | a new session starts with no lists, which satisfies the invariant |
| `SessionStore.Store.CreateList` | todo.rb:104-116 | the error is `error_for_list_name` of the stripped name against the old lists; on error nothing changes, otherwise exactly one new list with the next id, the stripped name, no todos and no `:completed` key is appended; the invariant is kept |
| `SessionStore.Store.RenameList` | todo.rb:133-147 | "not found" exactly when no list has the id; a rejected name leaves the lists unchanged with the validator's error; on success only that list's name changes, to the stripped name; the invariant is kept |
| `SessionStore.Store.DeleteList` | todo.rb:150-153 | returns the deleted list's name and leaves exactly the other lists, in order; the invariant is kept |
| `SessionStore.Store.AddTodo` | todo.rb:164-179 | "not found" exactly when no list has the id; a rejected text leaves the lists unchanged; on success only that list changes, by `WithTodoAdded` of the stripped text; the invariant is kept |
| `SessionStore.Store.DeleteTodo` | todo.rb:182-186 | "not found" exactly when no list has the id; otherwise only that list changes, by `WithoutTodosNamed` of the unstripped name, so the other todos stay in order; the invariant is kept |
| `SessionStore.Store.SetTodoCompleted` | todo.rb:196-203 | "not found" exactly when no list has the id; otherwise only that list changes, by `WithTodoCompleted` with the flag "parameter is the string true"; the invariant is kept |
| `SessionStore.Store.CompleteAll` | todo.rb:209-216 | "not found" exactly when no list has the id; otherwise the loop leaves only that list changed, to `WithAllCompleted` of it; the invariant is kept |

`SessionStore.GroceriesScenario` has no contract of its own. It is a client
of the `Store` methods: it shows that their contracts fix a concrete session
exactly (the created list is `TodoList(1, "Groceries", [], None)`, and so on).

## Left out

- HTTP, routing, redirects, ERB rendering and the `configure` block are not
  modelled. Handlers return an `Outcome` instead. The flash messages in
  `session[:success]` and `session[:error]` are left out, except the
  validation messages, which `Validators.Message` gives.
- The XMLHttpRequest branches of the two delete handlers differ from the
  normal ones only in their response, so they are not modelled.
- The GET handlers only render views. Their one piece of logic is
  `load_list`, which is modelled. The `not_found` handler is only a response.
- `list_class` (todo.rb:30-32) only chooses a CSS class string from
  `list_completed?`, which is modelled.
- The request parameters arrive already parsed. The `to_i` conversion of ids
  is not modelled: ids are parameters of type `int`.
- `sort_lists` and `sort_todos` yield to a view block. The model returns the
  sequence the block would see, rather than calling a block.
- Ruby hashes are mutable and shared by reference. A handler changes the
  list hash that `load_list` returned. The model reassigns the list at its
  position in `lists`. This differs only where a hash is reachable from two
  places, and todo.rb never makes that happen.
- `Builtins.Strip`: the model uses a fixed whitespace set: NUL, tab, line
  feed, vertical tab, form feed, carriage return and space. It does not model
  how Ruby versions differ on NUL at the start of a string.
- Strings are sequences of Unicode scalar values, so a length is a count of
  characters as Ruby's `String#size` gives it for UTF-8 text. Strings that
  are not valid UTF-8 are not modelled.
- Sessions are stored in a signed cookie. Concurrent requests on one session
  are not modelled.
- `SessionStore.Store.DeleteList` requires a list with the id to exist. todo.rb
  raises an exception there (todo.rb:152), and the model does not include that
  crash path.
- `SessionStore.Store.SetTodoCompleted` requires the todo id to exist in the
  list once the list is found. todo.rb raises an exception otherwise
  (todo.rb:202).

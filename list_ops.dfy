/**
 * What the route handlers of todo.rb do to the session's lists, as functions
 * of the lists before the request: id assignment (`next_element_id`), lookup
 * (`load_list` and the `find` of a todo), and the new value of the one list a
 * handler changes. The invariants the handlers keep are stated here too.
 */
module ListOps {
  import opened Records
  import opened Builtins
  import opened Helpers
  import opened Validators

  function ListIds(lists: seq<TodoList>): seq<int>
  {
    seq(|lists|, i requires 0 <= i < |lists| => lists[i].id)
  }

  function TodoIds(todos: seq<Todo>): seq<int>
  {
    seq(|todos|, i requires 0 <= i < |todos| => todos[i].id)
  }

  /**
   * `next_element_id`: one more than the largest id in use, or 1 when there
   * is none. The result exceeds every id in use, so appending an element with
   * it keeps ids unique.
   */
  function NextElementId(ids: seq<int>): (r: int)
    ensures ids == [] ==> r == 1
    ensures forall i :: 0 <= i < |ids| ==> ids[i] < r
    ensures ids != [] ==> r - 1 in ids
  {
    var max := match Max(ids) case None => 0 case Some(m) => m;
    max + 1
  }

  /** The position of the first list with this id (the `find` in `load_list`). */
  function FindListIndex(lists: seq<TodoList>, id: int): (r: Option<nat>)
    ensures r.Some? ==> r.value < |lists| && lists[r.value].id == id
    ensures r.Some? ==> forall j :: 0 <= j < r.value ==> lists[j].id != id
    ensures r.None? <==> forall j :: 0 <= j < |lists| ==> lists[j].id != id
  {
    FindIndex(lists, (l: TodoList) => l.id == id)
  }

  /** The position of the first todo with this id (the `find` of the status update). */
  function FindTodoIndex(todos: seq<Todo>, id: int): (r: Option<nat>)
    ensures r.Some? ==> r.value < |todos| && todos[r.value].id == id
    ensures r.Some? ==> forall j :: 0 <= j < r.value ==> todos[j].id != id
    ensures r.None? <==> forall j :: 0 <= j < |todos| ==> todos[j].id != id
  {
    FindIndex(todos, (t: Todo) => t.id == id)
  }

  /**
   * `load_list`: the list with this id, or `None` where todo.rb records
   * "The specified list was not found." and redirects.
   */
  function LoadList(lists: seq<TodoList>, id: int): (r: Option<TodoList>)
    ensures r.None? <==> forall j :: 0 <= j < |lists| ==> lists[j].id != id
    ensures r.Some? ==> r.value in lists && r.value.id == id
  {
    match FindListIndex(lists, id)
    case None => None
    case Some(i) => Some(lists[i])
  }

  /** The hash the create handler appends: `{id: next_element_id(lists), name:, todos: []}`. */
  function NewList(lists: seq<TodoList>, name: string): (r: TodoList)
    ensures forall i :: 0 <= i < |lists| ==> lists[i].id < r.id
    ensures lists == [] ==> r.id == 1
    ensures r.id == NextElementId(ListIds(lists))
    ensures r.name == name && r.todos == [] && r.cachedCompleted == None
    ensures !ListCompleted(r)
  {
    assert forall i :: 0 <= i < |lists| ==> ListIds(lists)[i] == lists[i].id;
    TodoList(NextElementId(ListIds(lists)), name, [], None)
  }

  /**
   * The lists after `reject! { |list| list[:id] == id }`: those with another
   * id, in their original order.
   */
  function WithoutList(lists: seq<TodoList>, id: int): (r: seq<TodoList>)
    ensures forall i :: 0 <= i < |r| ==> r[i] in lists && r[i].id != id
    ensures forall i :: 0 <= i < |lists| && lists[i].id != id ==> lists[i] in r
  {
    var r := Select(lists, IdIsNot(id));
    assert forall i :: 0 <= i < |lists| && lists[i].id != id ==> lists[i] in r by {
      forall i | 0 <= i < |lists| && lists[i].id != id ensures lists[i] in r {
        SelectKeeps(lists, IdIsNot(id), i);
      }
    }
    r
  }

  /** The block of `reject!` in the delete handler, negated: the list's id is not `id`. */
  function IdIsNot(id: int): TodoList -> bool
  {
    (l: TodoList) => l.id != id
  }

  /**
   * The list after the add-todo handler appends `{id:, name: text, completed: false}`:
   * one more todo, with an id above all others, which leaves the list incomplete.
   */
  function WithTodoAdded(l: TodoList, text: string): (r: TodoList)
    ensures r.id == l.id && r.name == l.name && r.cachedCompleted == l.cachedCompleted
    ensures |r.todos| == |l.todos| + 1 && r.todos[..|l.todos|] == l.todos
    ensures r.todos[|l.todos|].name == text && !r.todos[|l.todos|].completed
    ensures forall i :: 0 <= i < |l.todos| ==> l.todos[i].id < r.todos[|l.todos|].id
    ensures r.todos[|l.todos|].id == NextElementId(TodoIds(l.todos))
    ensures !ListCompleted(r)
    ensures UncompletedTodosCount(r) == UncompletedTodosCount(l) + 1
  {
    var ids := TodoIds(l.todos);
    var todo := Todo(NextElementId(ids), text, false);
    var r := l.(todos := l.todos + [todo]);
    assert forall i :: 0 <= i < |l.todos| ==> l.todos[i].id == ids[i];
    assert r.todos[..|l.todos|] == l.todos;
    assert r.todos[|l.todos|] == todo;
    SelectAppend(l.todos, [todo], IsPending);
    assert Select([todo], IsPending) == [todo];
    r
  }

  /**
   * The list after `delete_if { |todo| todo[:name] == name }`: every todo with
   * exactly that name is gone, every other one is still there, in order.
   */
  function WithoutTodosNamed(l: TodoList, name: string): (r: TodoList)
    ensures r.id == l.id && r.name == l.name && r.cachedCompleted == l.cachedCompleted
    ensures forall i :: 0 <= i < |r.todos| ==> r.todos[i] in l.todos && r.todos[i].name != name
    ensures forall i :: 0 <= i < |l.todos| && l.todos[i].name != name ==> l.todos[i] in r.todos
  {
    var kept := Select(l.todos, NameIsNot(name));
    assert forall i :: 0 <= i < |l.todos| && l.todos[i].name != name ==> l.todos[i] in kept by {
      forall i | 0 <= i < |l.todos| && l.todos[i].name != name ensures l.todos[i] in kept {
        SelectKeeps(l.todos, NameIsNot(name), i);
      }
    }
    l.(todos := kept)
  }

  /** Deleting todos keeps the survivors in their order: two kept todos appear in the result as they did before. */
  lemma WithoutTodosNamedKeepsOrder(l: TodoList, name: string, i: nat, j: nat)
    requires i < j < |l.todos| && l.todos[i].name != name && l.todos[j].name != name
    ensures var r := WithoutTodosNamed(l, name).todos;
            exists a, b :: 0 <= a < b < |r| && r[a] == l.todos[i] && r[b] == l.todos[j]
  {
    SelectKeepsOrder(l.todos, NameIsNot(name), i, j);
  }

  /** The block of `delete_if` in the delete-todo handler, negated: the todo's text is not `name`. */
  function NameIsNot(name: string): Todo -> bool
  {
    (t: Todo) => t.name != name
  }

  /**
   * The list after the status update: the first todo with `todoId` gets the
   * flag, nothing else about any todo changes, and the list's `:completed`
   * key is set to `list_completed?` of the updated list.
   */
  function WithTodoCompleted(l: TodoList, todoId: int, flag: bool): (r: TodoList)
    requires FindTodoIndex(l.todos, todoId).Some?
    ensures r.id == l.id && r.name == l.name && |r.todos| == |l.todos|
    ensures forall k :: 0 <= k < |l.todos| ==>
              r.todos[k].id == l.todos[k].id && r.todos[k].name == l.todos[k].name
    ensures forall k :: 0 <= k < |l.todos| && k != FindTodoIndex(l.todos, todoId).value ==>
              r.todos[k] == l.todos[k]
    ensures r.todos[FindTodoIndex(l.todos, todoId).value].completed == flag
    ensures r.cachedCompleted == Some(ListCompleted(r))
  {
    var j := FindTodoIndex(l.todos, todoId).value;
    var marked := l.(todos := l.todos[j := l.todos[j].(completed := flag)]);
    marked.(cachedCompleted := Some(ListCompleted(marked)))
  }

  /**
   * The list after complete-all: every todo completed, ids and names as they
   * were, and the `:completed` key true exactly when the list has todos.
   */
  function WithAllCompleted(l: TodoList): (r: TodoList)
    ensures r.id == l.id && r.name == l.name && |r.todos| == |l.todos|
    ensures forall k :: 0 <= k < |l.todos| ==> r.todos[k] == l.todos[k].(completed := true)
    ensures UncompletedTodosCount(r) == 0
    ensures ListCompleted(r) <==> |l.todos| > 0
    ensures r.cachedCompleted == Some(|l.todos| > 0)
  {
    var marked := l.(todos := seq(|l.todos|, k requires 0 <= k < |l.todos| => l.todos[k].(completed := true)));
    marked.(cachedCompleted := Some(ListCompleted(marked)))
  }

  /** The invariants of one list's todos: unique positive ids, texts of 1 to 100 characters. */
  predicate TodosWellFormed(todos: seq<Todo>)
  {
    && UniqueKeys(todos, TodoId)
    && forall i :: 0 <= i < |todos| ==> todos[i].id >= 1 && LengthInRange(todos[i].name)
  }

  /**
   * The invariants the handlers keep over the session's lists: unique
   * positive ids, unique names of 1 to 100 characters, well-formed todos.
   */
  predicate WellFormed(lists: seq<TodoList>)
  {
    && UniqueKeys(lists, ListId)
    && UniqueKeys(lists, ListName)
    && forall i :: 0 <= i < |lists| ==>
         lists[i].id >= 1 && LengthInRange(lists[i].name) && TodosWellFormed(lists[i].todos)
  }

  /** With unique ids, `load_list` returns the one list carrying the id. */
  lemma LoadListFindsTheList(lists: seq<TodoList>, i: nat)
    requires WellFormed(lists) && i < |lists|
    ensures LoadList(lists, lists[i].id) == Some(lists[i])
  {
    var k := FindListIndex(lists, lists[i].id).value;
    assert ListId(lists[k]) == ListId(lists[i]);
  }

  /** With unique ids, the status update reaches exactly the todos carrying `todoId`. */
  lemma WithTodoCompletedTargetsId(l: TodoList, todoId: int, flag: bool)
    requires UniqueKeys(l.todos, TodoId) && FindTodoIndex(l.todos, todoId).Some?
    ensures forall k :: 0 <= k < |l.todos| ==>
              WithTodoCompleted(l, todoId, flag).todos[k].completed ==
              (if l.todos[k].id == todoId then flag else l.todos[k].completed)
  {
    var j := FindTodoIndex(l.todos, todoId).value;
    forall k | 0 <= k < |l.todos| && l.todos[k].id == todoId ensures k == j {
      assert TodoId(l.todos[k]) == TodoId(l.todos[j]);
    }
  }

  /**
   * Renaming a list to the name it already has is rejected as a duplicate:
   * the check runs over all lists, the renamed one included.
   */
  lemma RenameToOwnNameRejected(lists: seq<TodoList>, i: nat)
    requires WellFormed(lists) && i < |lists|
    ensures ErrorForListName(lists, lists[i].name) == Some(ListNameTaken)
  {
  }

  /** With unique ids, deleting a list removes exactly that one and keeps the rest in order. */
  lemma WithoutListRemovesOne(lists: seq<TodoList>, i: nat)
    requires UniqueKeys(lists, ListId) && i < |lists|
    ensures WithoutList(lists, lists[i].id) == lists[..i] + lists[i + 1..]
  {
    var keep := IdIsNot(lists[i].id);
    var before, after := lists[..i], lists[i + 1..];
    assert forall k :: 0 <= k < |before| ==> keep(before[k]) by {
      forall k | 0 <= k < |before| ensures keep(before[k]) {
        assert before[k] == lists[k] && ListId(lists[k]) != ListId(lists[i]);
      }
    }
    assert forall k :: 0 <= k < |after| ==> keep(after[k]) by {
      forall k | 0 <= k < |after| ensures keep(after[k]) {
        assert after[k] == lists[i + 1 + k] && ListId(lists[i]) != ListId(lists[i + 1 + k]);
      }
    }
    assert lists == before + [lists[i]] + after;
    SelectDropsOne(before, lists[i], after, keep);
  }

  /** A list created from a name that passed validation keeps every invariant. */
  lemma CreateListKeepsWellFormed(lists: seq<TodoList>, name: string)
    requires WellFormed(lists) && ErrorForListName(lists, name) == None
    ensures WellFormed(lists + [NewList(lists, name)])
  {
    var r := lists + [NewList(lists, name)];
    var n := |lists|;
    forall i | 0 <= i < n ensures r[i].id < r[n].id {
      assert ListIds(lists)[i] == lists[i].id;
    }
    assert forall i :: 0 <= i < n ==> r[i] == lists[i];
  }

  /** A rename that passed validation keeps every invariant. */
  lemma RenameKeepsWellFormed(lists: seq<TodoList>, i: nat, name: string)
    requires WellFormed(lists) && i < |lists| && ErrorForListName(lists, name) == None
    ensures WellFormed(lists[i := lists[i].(name := name)])
  {
  }

  /** Deleting lists keeps every invariant. */
  lemma DeleteListKeepsWellFormed(lists: seq<TodoList>, id: int)
    requires WellFormed(lists)
    ensures WellFormed(WithoutList(lists, id))
  {
    SelectKeepsUniqueKeys(lists, IdIsNot(id), ListId);
    SelectKeepsUniqueKeys(lists, IdIsNot(id), ListName);
    var r := WithoutList(lists, id);
    forall i | 0 <= i < |r|
      ensures r[i].id >= 1 && LengthInRange(r[i].name) && TodosWellFormed(r[i].todos)
    {
      assert r[i] in lists;
    }
  }

  /** Replacing one list by one with the same id and name and well-formed todos keeps every invariant. */
  lemma ReplaceListKeepsWellFormed(lists: seq<TodoList>, i: nat, l: TodoList)
    requires WellFormed(lists) && i < |lists|
    requires l.id == lists[i].id && l.name == lists[i].name && TodosWellFormed(l.todos)
    ensures WellFormed(lists[i := l])
  {
    var r := lists[i := l];
    assert forall k :: 0 <= k < |r| ==> ListId(r[k]) == ListId(lists[k]) && ListName(r[k]) == ListName(lists[k]);
  }

  /** A todo text that passed validation gives a list whose todos are well formed. */
  lemma AddTodoKeepsWellFormed(l: TodoList, text: string)
    requires TodosWellFormed(l.todos) && ErrorForTodo(text) == None
    ensures TodosWellFormed(WithTodoAdded(l, text).todos)
  {
    var r := WithTodoAdded(l, text).todos;
    var n := |l.todos|;
    var added := r[n];
    assert r == l.todos + [added];
    assert added.id >= 1 by {
      if n > 0 {
        assert l.todos[0].id < added.id;
      }
    }
    assert UniqueKeys(r, TodoId) by {
      forall a, b | 0 <= a < b < |r| ensures TodoId(r[a]) != TodoId(r[b]) {
        if b < n {
          assert TodoId(l.todos[a]) != TodoId(l.todos[b]);
        } else {
          assert l.todos[a].id < added.id;
        }
      }
    }
  }

  /** Deleting todos keeps the list's todos well formed. */
  lemma DeleteTodosKeepsWellFormed(l: TodoList, name: string)
    requires TodosWellFormed(l.todos)
    ensures TodosWellFormed(WithoutTodosNamed(l, name).todos)
  {
    SelectKeepsUniqueKeys(l.todos, NameIsNot(name), TodoId);
    var r := WithoutTodosNamed(l, name).todos;
    forall k | 0 <= k < |r| ensures r[k].id >= 1 && LengthInRange(r[k].name) {
      assert r[k] in l.todos;
    }
  }

  /** Two todo sequences that agree on every id and text are well formed together. */
  lemma SameIdsAndNames(a: seq<Todo>, b: seq<Todo>)
    requires |a| == |b| && TodosWellFormed(a)
    requires forall k :: 0 <= k < |a| ==> a[k].id == b[k].id && a[k].name == b[k].name
    ensures TodosWellFormed(b)
  {
    assert forall k :: 0 <= k < |a| ==> TodoId(a[k]) == TodoId(b[k]);
  }

  /** Setting one todo's flag keeps every invariant. */
  lemma SetTodoCompletedKeepsWellFormed(lists: seq<TodoList>, i: nat, todoId: int, flag: bool)
    requires WellFormed(lists) && i < |lists| && FindTodoIndex(lists[i].todos, todoId).Some?
    ensures WellFormed(lists[i := WithTodoCompleted(lists[i], todoId, flag)])
  {
    var updated := WithTodoCompleted(lists[i], todoId, flag);
    SameIdsAndNames(lists[i].todos, updated.todos);
    ReplaceListKeepsWellFormed(lists, i, updated);
  }

  /** Completing every todo of one list keeps every invariant. */
  lemma CompleteAllKeepsWellFormed(lists: seq<TodoList>, i: nat)
    requires WellFormed(lists) && i < |lists|
    ensures WellFormed(lists[i := WithAllCompleted(lists[i])])
  {
    var updated := WithAllCompleted(lists[i]);
    SameIdsAndNames(lists[i].todos, updated.todos);
    ReplaceListKeepsWellFormed(lists, i, updated);
  }
}

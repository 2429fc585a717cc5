/**
 * The session's lists and the POST handlers of todo.rb that change them.
 * Each handler is a method on `Store`; what it leaves in `lists` is stated
 * with the functions of `ListOps`, whose properties are proved there.
 */
module SessionStore {
  import opened Records
  import opened Builtins
  import opened Helpers
  import opened Validators
  import opened ListOps

  /** How a handler ended: it changed the lists, `load_list` found no list, or the input was rejected. */
  datatype Outcome = Done | NotFound | Invalid(error: ValidationError)

  class Store {
    /** `session[:lists]`. */
    var lists: seq<TodoList>

    ghost predicate Valid()
      reads this
    {
      WellFormed(lists)
    }

    /** The `before` filter on a new session: `session[:lists] ||= []`. */
    constructor ()
      ensures Valid() && lists == []
    {
      lists := [];
    }

    /**
     * POST /lists: strip the name, validate it, and on success append a new
     * empty list with the next id; on failure nothing changes.
     */
    method CreateList(listName: string) returns (error: Option<ValidationError>)
      requires Valid()
      modifies this
      ensures Valid()
      ensures error == ErrorForListName(old(lists), Strip(listName))
      ensures error != None ==> lists == old(lists)
      ensures error == None ==> lists == old(lists) + [NewList(old(lists), Strip(listName))]
    {
      var name := Strip(listName);
      var id := NextElementId(ListIds(lists));
      error := ErrorForListName(lists, name);
      if error == None {
        CreateListKeepsWellFormed(lists, name);
        lists := lists + [TodoList(id, name, [], None)];
      }
    }

    /**
     * POST /list/:id: load the list, validate the stripped name against all
     * lists (the one being renamed included), and on success set its name.
     */
    method RenameList(id: int, listName: string) returns (outcome: Outcome)
      requires Valid()
      modifies this
      ensures Valid()
      ensures outcome == NotFound <==> LoadList(old(lists), id) == None
      ensures outcome.Invalid? ==> ErrorForListName(old(lists), Strip(listName)) == Some(outcome.error)
      ensures outcome == Done ==> ErrorForListName(old(lists), Strip(listName)) == None
      ensures outcome != Done ==> lists == old(lists)
      ensures outcome == Done ==>
                var i := FindListIndex(old(lists), id).value;
                lists == old(lists)[i := old(lists)[i].(name := Strip(listName))]
    {
      var name := Strip(listName);
      var found := FindListIndex(lists, id);
      if found == None {
        return NotFound;
      }
      var i := found.value;
      var error := ErrorForListName(lists, name);
      if error != None {
        return Invalid(error.value);
      }
      RenameKeepsWellFormed(lists, i, name);
      lists := lists[i := lists[i].(name := name)];
      outcome := Done;
    }

    /**
     * POST /list/:id/delete: remember the name of the list with this id and
     * remove every list with this id. todo.rb does not guard against a
     * missing id here, so the list must exist.
     */
    method DeleteList(id: int) returns (deletedName: string)
      requires Valid()
      requires LoadList(lists, id) != None
      modifies this
      ensures Valid()
      ensures deletedName == LoadList(old(lists), id).value.name
      ensures lists == WithoutList(old(lists), id)
      ensures var i := FindListIndex(old(lists), id).value;
              lists == old(lists)[..i] + old(lists)[i + 1..]
    {
      var i := FindListIndex(lists, id).value;
      deletedName := lists[i].name;
      WithoutListRemovesOne(lists, i);
      DeleteListKeepsWellFormed(lists, id);
      lists := WithoutList(lists, id);
    }

    /**
     * POST /list/:list_id/todos: load the list, strip and validate the text,
     * and on success append an uncompleted todo with the next id of that list.
     */
    method AddTodo(listId: int, todo: string) returns (outcome: Outcome)
      requires Valid()
      modifies this
      ensures Valid()
      ensures outcome == NotFound <==> LoadList(old(lists), listId) == None
      ensures outcome.Invalid? ==> ErrorForTodo(Strip(todo)) == Some(outcome.error)
      ensures outcome == Done ==> ErrorForTodo(Strip(todo)) == None
      ensures outcome != Done ==> lists == old(lists)
      ensures outcome == Done ==>
                var i := FindListIndex(old(lists), listId).value;
                lists == old(lists)[i := WithTodoAdded(old(lists)[i], Strip(todo))]
    {
      var found := FindListIndex(lists, listId);
      if found == None {
        return NotFound;
      }
      var i := found.value;
      var text := Strip(todo);
      var error := ErrorForTodo(text);
      if error != None {
        return Invalid(error.value);
      }
      var list := lists[i];
      var id := NextElementId(TodoIds(list.todos));
      AddTodoKeepsWellFormed(list, text);
      ReplaceListKeepsWellFormed(lists, i, WithTodoAdded(list, text));
      lists := lists[i := list.(todos := list.todos + [Todo(id, text, false)])];
      outcome := Done;
    }

    /**
     * POST /list/:list_id/delete_todo/:name: load the list and delete every
     * todo whose text is exactly `name` (not stripped).
     */
    method DeleteTodo(listId: int, name: string) returns (outcome: Outcome)
      requires Valid()
      modifies this
      ensures Valid()
      ensures outcome == NotFound <==> LoadList(old(lists), listId) == None
      ensures outcome == Done || outcome == NotFound
      ensures outcome == NotFound ==> lists == old(lists)
      ensures outcome == Done ==>
                var i := FindListIndex(old(lists), listId).value;
                lists == old(lists)[i := WithoutTodosNamed(old(lists)[i], name)]
    {
      var found := FindListIndex(lists, listId);
      if found == None {
        return NotFound;
      }
      var i := found.value;
      DeleteTodosKeepsWellFormed(lists[i], name);
      ReplaceListKeepsWellFormed(lists, i, WithoutTodosNamed(lists[i], name));
      lists := lists[i := WithoutTodosNamed(lists[i], name)];
      outcome := Done;
    }

    /**
     * POST /list/:list_id/todos/:id: load the list, set the completed flag of
     * the todo with this id to whether the parameter is the string "true",
     * then store `list_completed?` in the list's `:completed` key. todo.rb
     * does not guard against a missing todo id, so it must exist.
     */
    method SetTodoCompleted(listId: int, todoId: int, completed: string) returns (outcome: Outcome)
      requires Valid()
      requires FindListIndex(lists, listId) != None ==>
                 FindTodoIndex(lists[FindListIndex(lists, listId).value].todos, todoId) != None
      modifies this
      ensures Valid()
      ensures outcome == NotFound <==> LoadList(old(lists), listId) == None
      ensures outcome == NotFound ==> lists == old(lists)
      ensures outcome != NotFound ==> outcome == Done
      ensures outcome == Done ==>
                var i := FindListIndex(old(lists), listId).value;
                lists == old(lists)[i := WithTodoCompleted(old(lists)[i], todoId, completed == "true")]
    {
      var found := FindListIndex(lists, listId);
      if found == None {
        return NotFound;
      }
      var i := found.value;
      var isCompleted := completed == "true";
      var list := lists[i];
      var j := FindTodoIndex(list.todos, todoId).value;
      ghost var updated := WithTodoCompleted(list, todoId, isCompleted);
      SetTodoCompletedKeepsWellFormed(lists, i, todoId, isCompleted);
      var marked := list.(todos := list.todos[j := list.todos[j].(completed := isCompleted)]);
      lists := lists[i := marked];
      assert lists[i] == marked;
      lists := lists[i := lists[i].(cachedCompleted := Some(ListCompleted(lists[i])))];
      assert lists[i] == marked.(cachedCompleted := Some(ListCompleted(marked)));
      assert lists[i] == updated;
      assert lists == old(lists)[i := updated];
      outcome := Done;
    }

    /**
     * POST /list/:list_id/complete_all: load the list, mark each of its
     * todos completed one at a time, then store `list_completed?` in the
     * list's `:completed` key.
     */
    method CompleteAll(listId: int) returns (outcome: Outcome)
      requires Valid()
      modifies this
      ensures Valid()
      ensures outcome == NotFound <==> LoadList(old(lists), listId) == None
      ensures outcome == NotFound ==> lists == old(lists)
      ensures outcome != NotFound ==> outcome == Done
      ensures outcome == Done ==>
                var i := FindListIndex(old(lists), listId).value;
                lists == old(lists)[i := WithAllCompleted(old(lists)[i])]
    {
      var found := FindListIndex(lists, listId);
      if found == None {
        return NotFound;
      }
      var i := found.value;
      ghost var before := lists[i];
      CompleteAllKeepsWellFormed(lists, i);
      var k := 0;
      while k < |lists[i].todos|
        invariant i < |lists| && lists == old(lists)[i := lists[i]]
        invariant lists[i] == before.(todos := lists[i].todos)
        invariant |lists[i].todos| == |before.todos| && 0 <= k <= |before.todos|
        invariant forall m :: 0 <= m < k ==> lists[i].todos[m] == before.todos[m].(completed := true)
        invariant forall m :: k <= m < |before.todos| ==> lists[i].todos[m] == before.todos[m]
      {
        var todo := lists[i].todos[k];
        lists := lists[i := lists[i].(todos := lists[i].todos[k := todo.(completed := true)])];
        k := k + 1;
      }
      lists := lists[i := lists[i].(cachedCompleted := Some(ListCompleted(lists[i])))];
      ghost var spec := WithAllCompleted(before);
      assert lists[i].todos == spec.todos;
      assert lists[i] == spec;
      assert lists == old(lists)[i := spec];
      outcome := Done;
    }
  }

  /**
   * A session walked through the example of the todo list: create
   * "Groceries", add "Milk", complete it, and see the list become complete;
   * a second "Groceries" and an empty name are refused.
   */
  method GroceriesScenario()
  {
    var store := new Store();
    StripClean("Groceries");
    var error := store.CreateList("Groceries");
    assert error == None;
    assert store.lists == [TodoList(1, "Groceries", [], None)];
    assert !ListCompleted(store.lists[0]);

    StripClean("Milk");
    var outcome := store.AddTodo(1, "Milk");
    assert outcome == Done;
    assert store.lists[0].todos == [Todo(1, "Milk", false)];
    assert !ListCompleted(store.lists[0]);

    outcome := store.SetTodoCompleted(1, 1, "true");
    assert outcome == Done;
    assert store.lists[0].todos == [Todo(1, "Milk", true)];
    assert ListCompleted(store.lists[0]);
    assert store.lists[0].cachedCompleted == Some(true);

    error := store.CreateList("Groceries");
    assert error == Some(ListNameTaken);

    StripClean("");
    error := store.CreateList("");
    assert error == Some(ListNameLength);
    assert Message(error.value) == "The list name must be between 1 and 100 characters.";
  }
}

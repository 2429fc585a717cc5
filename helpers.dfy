/**
 * The view helpers of todo.rb: whether a list is complete, the two counts it
 * is computed from, and the presentation order of lists and todos.
 */
module Helpers {
  import opened Records
  import opened Builtins

  /** `count_todos`: how many todos the list holds, counting repeated texts separately. */
  function CountTodos(l: TodoList): (n: nat)
    ensures n == |l.todos|
  {
    |l.todos|
  }

  /** The block of `uncompleted_todos_count`'s `select`: `todo[:completed] == false`. */
  predicate IsPending(t: Todo)
  {
    t.completed == false
  }

  /** The block of `sort_todos`' `partition`: `todo[:completed]`. */
  predicate IsDone(t: Todo)
  {
    t.completed
  }

  /** `uncompleted_todos_count`: the number of todos not yet completed. */
  function UncompletedTodosCount(l: TodoList): (n: nat)
    ensures n <= CountTodos(l)
    ensures n == 0 <==> forall i :: 0 <= i < |l.todos| ==> l.todos[i].completed
    ensures n == CountTodos(l) <==> forall i :: 0 <= i < |l.todos| ==> !l.todos[i].completed
    ensures n == |set i | 0 <= i < |l.todos| && !l.todos[i].completed|
  {
    var pending := Select(l.todos, IsPending);
    assert |pending| == |set i | 0 <= i < |l.todos| && !l.todos[i].completed| by {
      SelectCount(l.todos, IsPending);
      var selected := Positions(l.todos, IsPending);
      var uncompleted := set i | 0 <= i < |l.todos| && !l.todos[i].completed;
      assert selected == uncompleted by {
        forall i ensures i in selected <==> i in uncompleted {
        }
      }
    }
    assert (forall i :: 0 <= i < |l.todos| ==> l.todos[i].completed) <==> pending == [] by {
      if forall i :: 0 <= i < |l.todos| ==> l.todos[i].completed {
        SelectNone(l.todos, IsPending);
      } else {
        var i :| 0 <= i < |l.todos| && !l.todos[i].completed;
        SelectKeeps(l.todos, IsPending, i);
      }
    }
    assert |pending| == |l.todos| <==> forall i :: 0 <= i < |l.todos| ==> !l.todos[i].completed by {
      if |pending| == |l.todos| {
        SelectFull(l.todos, IsPending);
      }
      if forall i :: 0 <= i < |l.todos| ==> !l.todos[i].completed {
        SelectAll(l.todos, IsPending);
      }
    }
    |pending|
  }

  /**
   * `list_completed?`: a list is complete exactly when it has at least one
   * todo and every todo is completed; an empty list is never complete.
   */
  function ListCompleted(l: TodoList): (complete: bool)
    ensures complete <==> |l.todos| > 0 && forall i :: 0 <= i < |l.todos| ==> l.todos[i].completed
  {
    CountTodos(l) > 0 && UncompletedTodosCount(l) == 0
  }

  /**
   * `sort_lists`: the incomplete lists in their original order, then the
   * complete lists in their original order. The result is a rearrangement of
   * the input in which no complete list comes before an incomplete one.
   */
  function SortLists(lists: seq<TodoList>): (r: seq<TodoList>)
    ensures r == Select(lists, Not(ListCompleted)) + Select(lists, ListCompleted)
    ensures multiset(r) == multiset(lists)
    ensures forall i, j :: 0 <= i < j < |r| && ListCompleted(r[i]) ==> ListCompleted(r[j])
  {
    var (complete, incomplete) := Partition(lists, ListCompleted);
    PartitionIsSelect(lists, ListCompleted);
    PartitionPermutes(lists, ListCompleted);
    incomplete + complete
  }

  /**
   * `sort_todos`: the todos not yet done in their original order, then the
   * done ones in their original order; a rearrangement of the input in
   * which no completed todo comes before an uncompleted one.
   */
  function SortTodos(todos: seq<Todo>): (r: seq<Todo>)
    ensures r == Select(todos, IsPending) + Select(todos, IsDone)
    ensures multiset(r) == multiset(todos)
    ensures forall i, j :: 0 <= i < j < |r| && r[i].completed ==> r[j].completed
  {
    var (complete, incomplete) := Partition(todos, IsDone);
    PartitionIsSelect(todos, IsDone);
    PartitionPermutes(todos, IsDone);
    SelectSame(todos, Not(IsDone), IsPending);
    incomplete + complete
  }

  /** Every todo is either uncompleted or completed, so the two counts add up to `count_todos`. */
  lemma CountTodosSplits(l: TodoList)
    ensures CountTodos(l) == UncompletedTodosCount(l) + |Select(l.todos, IsDone)|
  {
    PartitionIsSelect(l.todos, IsDone);
    forall x: Todo ensures Not(IsDone)(x) == IsPending(x) {
      assert Not(IsDone)(x) == !IsDone(x);
    }
    SelectSame(l.todos, Not(IsDone), IsPending);
  }

  /** Filtering the sorted lists by completion gives back the input's groups, order included. */
  lemma SortListsKeepsGroupOrder(lists: seq<TodoList>)
    ensures Select(SortLists(lists), ListCompleted) == Select(lists, ListCompleted)
    ensures Select(SortLists(lists), Not(ListCompleted)) == Select(lists, Not(ListCompleted))
  {
    var incomplete, complete := Select(lists, Not(ListCompleted)), Select(lists, ListCompleted);
    SelectAppend(incomplete, complete, ListCompleted);
    SelectAppend(incomplete, complete, Not(ListCompleted));
    SelectNone(incomplete, ListCompleted);
    SelectAll(complete, ListCompleted);
    SelectAll(incomplete, Not(ListCompleted));
    SelectNone(complete, Not(ListCompleted));
  }

  /** Filtering the sorted todos by status gives back the input's groups, order included. */
  lemma SortTodosKeepsGroupOrder(todos: seq<Todo>)
    ensures Select(SortTodos(todos), IsDone) == Select(todos, IsDone)
    ensures Select(SortTodos(todos), IsPending) == Select(todos, IsPending)
  {
    var pending, done := Select(todos, IsPending), Select(todos, IsDone);
    SelectAppend(pending, done, IsDone);
    SelectAppend(pending, done, IsPending);
    SelectNone(pending, IsDone);
    SelectAll(done, IsDone);
    SelectAll(pending, IsPending);
    SelectNone(done, IsPending);
  }
}

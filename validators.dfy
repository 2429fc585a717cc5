/** The two input checks of todo.rb: `error_for_list_name` and `error_for_todo`. */
module Validators {
  import opened Records

  /** The validation failures, one per message todo.rb can produce. */
  datatype ValidationError = ListNameLength | ListNameTaken | TodoLength

  /** The message the handler puts in the session for each failure. */
  function Message(e: ValidationError): (m: string)
    ensures e == ListNameLength <==> m == "The list name must be between 1 and 100 characters."
    ensures e == ListNameTaken <==> m == "The list name must be unique."
    ensures e == TodoLength <==> m == "Todo must be between 1 and 100 characters."
  {
    match e
    case ListNameLength => "The list name must be between 1 and 100 characters."
    case ListNameTaken => "The list name must be unique."
    case TodoLength => "Todo must be between 1 and 100 characters."
  }

  /** Names and todo texts must have between 1 and 100 characters, both ends included. */
  predicate LengthInRange(s: string)
  {
    1 <= |s| <= 100
  }

  /**
   * `error_for_list_name`: the length is checked first, then whether some
   * existing list already has exactly this name; no error means both passed.
   */
  function ErrorForListName(lists: seq<TodoList>, name: string): (r: Option<ValidationError>)
    ensures r == Some(ListNameLength) <==> |name| < 1 || 100 < |name|
    ensures r == Some(ListNameTaken) <==>
              LengthInRange(name) && exists i :: 0 <= i < |lists| && lists[i].name == name
    ensures r == None <==>
              LengthInRange(name) && forall i :: 0 <= i < |lists| ==> lists[i].name != name
  {
    if !LengthInRange(name) then Some(ListNameLength)
    else if exists l <- lists :: l.name == name then Some(ListNameTaken)
    else None
  }

  /** `error_for_todo`: only the length is checked; todo texts need not be unique. */
  function ErrorForTodo(name: string): (r: Option<ValidationError>)
    ensures r == None <==> 1 <= |name| <= 100
    ensures r != None ==> r == Some(TodoLength)
  {
    if !LengthInRange(name) then Some(TodoLength) else None
  }
}

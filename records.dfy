/** The records the session holds: lists of todos, each a hash in todo.rb. */
module Records {

  datatype Option<+T> = None | Some(value: T)

  /** One todo item: `{id:, name:, completed:}`. */
  datatype Todo = Todo(id: int, name: string, completed: bool)

  /**
   * One todo list: `{id:, name:, todos:}`. The handlers that change a todo's
   * status also store a `:completed` key on the list; `cachedCompleted` is that
   * key, `None` while it has never been written.
   */
  datatype TodoList = TodoList(id: int, name: string, todos: seq<Todo>, cachedCompleted: Option<bool>)

  /** The keys the uniqueness invariants are stated over. */
  function ListId(l: TodoList): int { l.id }
  function ListName(l: TodoList): string { l.name }
  function TodoId(t: Todo): int { t.id }
}

/**
 The values the application works with: a to-do item as the remote store
 returns it, the payload sent to create one, the three filter modes and the
 outcome of a request to the store.
 */
module Todos {

  /** A to-do item; `id` is assigned by the remote store. */
  datatype Todo = Todo(id: int, userId: int, title: string, completed: bool)

  /** The payload of a creation request: a to-do item without its `id`. */
  datatype NewTodo = NewTodo(userId: int, title: string, completed: bool)

  /**
   The filter modes. They form a numeric enumeration: at run time a mode
   is the number given by `Ordinal`, and the enumeration object also maps
   each number back to the mode's name.
   */
  datatype FilterTypes = All | Active | Completed

  function Ordinal(f: FilterTypes): (n: nat)
    ensures n < 3
  {
    match f
    case All => 0
    case Active => 1
    case Completed => 2
  }

  function Name(f: FilterTypes): string
  {
    match f
    case All => "All"
    case Active => "Active"
    case Completed => "Completed"
  }

  /** The outcome of a request to the remote store: the value it resolved with, or a rejection. */
  datatype Response<T> = Success(value: T) | Failure

  datatype Option<T> = None | Some(value: T)

  predicate IsActive(t: Todo)
  {
    !t.completed
  }

  predicate IsCompleted(t: Todo)
  {
    t.completed
  }
}

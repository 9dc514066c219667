/** The records shared by the whole application (src/types/todo.ts). */
module TodoTypes {
  /** One item of a user's list. Identifiers and timestamps are opaque strings
      assigned by the remote store. */
  datatype Todo = Todo(
    id: string,
    title: string,
    completed: bool,
    createdAt: string,
    updatedAt: string,
    userId: string,
    position: int)

  /** The three view modes of the list. */
  datatype Filter = All | Active | Completed

  predicate IsActive(t: Todo) { !t.completed }

  predicate IsCompleted(t: Todo) { t.completed }
}

/** The `useTodos` hook as an object: the list and the filter are the state
    cells it updates in place; the actions change the list through the pure
    updaters of the other modules. */
module Store {
  import opened Wrappers
  import opened TodoTypes
  import opened Sequences
  import opened TodoList
  import opened ChangeFeed
  import opened Actions
  import opened Views

  class TodoStore {
    var todos: seq<Todo>
    var filter: Filter

    constructor ()
      ensures todos == [] && filter == All
    {
      todos := [];
      filter := All;
    }

    /** `setFilter`. */
    method SetFilter(f: Filter)
      modifies this`filter
      ensures filter == f
    {
      filter := f;
    }

    /** `fetchTodos`: with nobody signed in or a failed query the list stays
        as it was; otherwise it becomes the rows the store returned. */
    method Load(user: Option<string>, response: Option<seq<Todo>>)
      modifies this`todos
      ensures user.Some? && response.Some? ==> todos == response.value
      ensures user.None? || response.None? ==> todos == old(todos)
    {
      if user.Some? && response.Some? {
        todos := response.value;
      }
    }

    /** One change-feed event, reconciled into the list. */
    method OnChange(e: Event)
      modifies this`todos
      ensures todos == Apply(old(todos), e)
      ensures UniqueIds(old(todos)) ==> UniqueIds(todos)
    {
      todos := Apply(todos, e);
    }

    /** `addTodo`: returns the insert it sends (none for blank text or no
        user); `response` is the store's reply, `None` for an error. The list
        changes only on a successful reply. */
    method AddTodo(text: string, user: Option<string>, response: Option<seq<Todo>>) returns (w: Write)
      modifies this`todos
      ensures w == AddRequest(text, user)
      ensures todos == if w.InsertRow? && response.Some? then MergeInserted(old(todos), response.value) else old(todos)
      ensures UniqueIds(old(todos)) && (response.Some? ==> UniqueIds(response.value)) ==> UniqueIds(todos)
    {
      w := AddRequest(text, user);
      if w.InsertRow? && response.Some? {
        todos := MergeInserted(todos, response.value);
      }
    }

    /** The optimistic half of `toggleTodo`. */
    method BeginToggle(id: string) returns (w: Write, u: Undo)
      modifies this`todos
      ensures Step(todos, w, u) == ToggleStep(old(todos), id)
    {
      var step := ToggleStep(todos, id);
      todos, w, u := step.todos, step.write, step.undo;
    }

    /** The optimistic half of `editTodo`. */
    method BeginEdit(id: string, text: string) returns (w: Write, u: Undo)
      modifies this`todos
      ensures Step(todos, w, u) == EditStep(old(todos), id, text)
    {
      var step := EditStep(todos, id, text);
      todos, w, u := step.todos, step.write, step.undo;
    }

    /** The optimistic half of `deleteTodo`. */
    method BeginDelete(id: string) returns (w: Write, u: Undo)
      modifies this`todos
      ensures Step(todos, w, u) == DeleteStep(old(todos), id)
    {
      var step := DeleteStep(todos, id);
      todos, w, u := step.todos, step.write, step.undo;
    }

    /** The optimistic half of `clearCompleted`. */
    method BeginClearCompleted() returns (w: Write, u: Undo)
      modifies this`todos
      ensures Step(todos, w, u) == ClearStep(old(todos))
    {
      var step := ClearStep(todos);
      todos, w, u := step.todos, step.write, step.undo;
    }

    /** The second half of an action, once its write has completed: nothing
        on success, the captured revert on failure. */
    method Settle(u: Undo, writeOk: bool)
      modifies this`todos
      ensures todos == if writeOk then old(todos) else Revert(old(todos), u)
      ensures !u.Reinsert? ==> Ids(todos) == Ids(old(todos))
      ensures !u.Reinsert? && UniqueIds(old(todos)) ==> UniqueIds(todos)
      ensures (u.Reinsert? && UniqueIds(old(todos)) && UniqueIds(u.items)
               && forall t :: t in u.items ==> !HasId(old(todos), t.id)) ==> UniqueIds(todos)
    {
      if !writeOk {
        todos := Revert(todos, u);
      }
    }

    /** `toggleTodo` with no event in between: a failed write leaves the
        list as it was. */
    method ToggleTodo(id: string, writeOk: bool) returns (w: Write)
      requires UniqueIds(todos)
      modifies this`todos
      ensures w == ToggleStep(old(todos), id).write
      ensures todos == if writeOk then ToggleStep(old(todos), id).todos else old(todos)
    {
      var u;
      w, u := BeginToggle(id);
      Settle(u, writeOk);
      ToggleRollback(old(todos), id);
    }

    /** `editTodo` with no event in between: a failed write leaves the list
        as it was. */
    method EditTodo(id: string, text: string, writeOk: bool) returns (w: Write)
      requires UniqueIds(todos)
      modifies this`todos
      ensures w == EditStep(old(todos), id, text).write
      ensures todos == if writeOk then EditStep(old(todos), id, text).todos else old(todos)
    {
      var u;
      w, u := BeginEdit(id, text);
      Settle(u, writeOk);
      EditRollback(old(todos), id, text);
    }

    /** `deleteTodo` with no event in between: a failed write gives back the
        same items, the deleted one first. */
    method DeleteTodo(id: string, writeOk: bool) returns (w: Write)
      requires UniqueIds(todos)
      modifies this`todos
      ensures w == DeleteRow(id)
      ensures writeOk ==> todos == DeleteStep(old(todos), id).todos
      ensures !writeOk ==> todos == Revert(DeleteStep(old(todos), id).todos, DeleteStep(old(todos), id).undo)
      ensures !writeOk ==> multiset(todos) == multiset(old(todos))
      ensures UniqueIds(todos)
    {
      var u;
      w, u := BeginDelete(id);
      Settle(u, writeOk);
      DeleteRollback(old(todos), id);
    }

    /** `clearCompleted` with no event in between: a failed write gives back
        the same items, the completed ones first. */
    method ClearCompleted(writeOk: bool) returns (w: Write)
      modifies this`todos
      ensures w == ClearStep(old(todos)).write
      ensures writeOk ==> todos == ClearStep(old(todos)).todos
      ensures !writeOk ==> todos == Revert(ClearStep(old(todos)).todos, ClearStep(old(todos)).undo)
      ensures !writeOk ==> multiset(todos) == multiset(old(todos))
      ensures UniqueIds(old(todos)) ==> UniqueIds(todos)
    {
      var u;
      w, u := BeginClearCompleted();
      Settle(u, writeOk);
      ClearRollback(old(todos));
    }

    /** The list the hook hands to the view (`filteredTodos`). */
    function Visible(): (r: seq<Todo>)
      reads this
      ensures forall t :: t in r <==> t in todos && Matches(filter, t)
      ensures IsSubsequence(r, todos)
    {
      View(todos, filter)
    }

    /** `activeCount` and `completedCount`, which always sum to the length. */
    function Counts(): (r: (nat, nat))
      reads this
      ensures r.0 + r.1 == |todos|
      ensures r.0 == |View(todos, Active)| && r.1 == |View(todos, Completed)|
    {
      CountsSum(todos);
      (ActiveCount(todos), CompletedCount(todos))
    }
  }
}

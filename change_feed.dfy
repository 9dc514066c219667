/** Reconciliation of the realtime change feed into the local list
    (the `postgres_changes` handler of src/hooks/useTodos.ts). */
module ChangeFeed {
  import opened TodoTypes
  import opened Sequences
  import opened TodoList

  /** A row-level change notification. An insertion and an update carry the
      new row; a deletion carries the prior one, of which only the id is used. */
  datatype Event = Inserted(row: Todo) | Updated(row: Todo) | Deleted(prior: Todo)

  /** The list updater the handler passes to `setTodos` for one event. */
  function Apply(todos: seq<Todo>, e: Event): (r: seq<Todo>)
    ensures e.Inserted? ==> HasId(r, e.row.id) && (forall id :: HasId(r, id) <==> HasId(todos, id) || id == e.row.id)
    ensures e.Updated? ==> |r| == |todos| && (forall id :: HasId(r, id) <==> HasId(todos, id))
    ensures e.Deleted? ==> (forall id :: HasId(r, id) <==> HasId(todos, id) && id != e.prior.id)
    ensures UniqueIds(todos) ==> UniqueIds(r)
  {
    match e
    case Inserted(row) =>
      if HasId(todos, row.id) then todos
      else
        var r := [row] + todos;
        assert r[0].id == row.id;
        assert forall i :: 0 <= i < |todos| ==> r[i + 1] == todos[i];
        r
    case Updated(row) =>
      MapByIdKeepsIds(todos, row.id, _ => row);
      var r := MapById(todos, row.id, _ => row);
      assert forall i :: 0 <= i < |r| ==> r[i].id == todos[i].id;
      r
    case Deleted(prior) =>
      var r := RemoveById(todos, prior.id);
      assert forall i :: 0 <= i < |r| ==> r[i] in r;
      assert forall i :: 0 <= i < |todos| && todos[i].id != prior.id ==> todos[i] in r;
      r
  }

  /** An insertion is prepended exactly when its id is not yet present;
      otherwise the list is left as it was. */
  lemma InsertPrependsIffAbsent(todos: seq<Todo>, row: Todo)
    ensures !HasId(todos, row.id) ==> Apply(todos, Inserted(row)) == [row] + todos
    ensures HasId(todos, row.id) ==> Apply(todos, Inserted(row)) == todos
  {
  }

  /** Delivering the same insertion twice is delivering it once. */
  lemma InsertIdempotent(todos: seq<Todo>, row: Todo)
    ensures Apply(Apply(todos, Inserted(row)), Inserted(row)) == Apply(todos, Inserted(row))
  {
  }

  /** An update keeps the length and position of every item and replaces
      exactly the items with the event's id; with no such item it is a no-op. */
  lemma UpdateReplacesInPlace(todos: seq<Todo>, row: Todo)
    ensures |Apply(todos, Updated(row))| == |todos|
    ensures forall i :: 0 <= i < |todos| ==>
      Apply(todos, Updated(row))[i] == (if todos[i].id == row.id then row else todos[i])
    ensures !HasId(todos, row.id) ==> Apply(todos, Updated(row)) == todos
  {
  }

  /** Delivering the same update twice is delivering it once. */
  lemma UpdateIdempotent(todos: seq<Todo>, row: Todo)
    ensures Apply(Apply(todos, Updated(row)), Updated(row)) == Apply(todos, Updated(row))
  {
    var once := Apply(todos, Updated(row));
    assert forall i :: 0 <= i < |once| ==> once[i].id == todos[i].id;
  }

  /** A deletion removes exactly the items with the event's id, keeps the rest
      in their relative order, and is a no-op when no item has that id. */
  lemma DeleteRemovesExactly(todos: seq<Todo>, prior: Todo)
    ensures forall t :: t in Apply(todos, Deleted(prior)) <==> t in todos && t.id != prior.id
    ensures IsSubsequence(Apply(todos, Deleted(prior)), todos)
    ensures !HasId(todos, prior.id) ==> Apply(todos, Deleted(prior)) == todos
  {
    RemoveByIdIsSubsequence(todos, prior.id);
    if !HasId(todos, prior.id) {
      RemoveByIdAbsent(todos, prior.id);
    }
  }

  /** Delivering the same deletion twice is delivering it once. */
  lemma DeleteIdempotent(todos: seq<Todo>, prior: Todo)
    ensures Apply(Apply(todos, Deleted(prior)), Deleted(prior)) == Apply(todos, Deleted(prior))
  {
    RemoveByIdAbsent(Apply(todos, Deleted(prior)), prior.id);
  }
}

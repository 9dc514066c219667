/** The user actions of src/hooks/useTodos.ts, each split the way it runs:
    an optimistic step that captures a pre-image, changes the list and names
    the remote write to issue, and a revert applied only if that write fails.
    Change-feed events may be applied between the two. */
module Actions {
  import opened Wrappers
  import opened TodoTypes
  import opened Strings
  import opened Sequences
  import opened TodoList
  import ChangeFeed

  /** The row `addTodo` asks the store to create. */
  datatype NewTodo = NewTodo(title: string, userId: string)

  /** The remote write an action issues. */
  datatype Write =
    | NoWrite
    | InsertRow(row: NewTodo)
    | UpdateCompleted(id: string, completed: bool)
    | UpdateTitle(id: string, title: string)
    | DeleteRow(id: string)
    | DeleteRows(ids: seq<string>)

  /** What to do to the list if the write fails, built from the pre-image the
      action captured. */
  datatype Undo =
    | NoUndo
    | RestoreCompleted(id: string, completed: bool)
    | RestoreTitle(id: string, title: string)
    | Reinsert(items: seq<Todo>)

  /** The outcome of an optimistic step. */
  datatype Step = Step(todos: seq<Todo>, write: Write, undo: Undo)

  /** `prev.map(t => t.id === id ? { ...t, completed } : t)`. */
  function SetCompleted(todos: seq<Todo>, id: string, completed: bool): (r: seq<Todo>)
    ensures Ids(r) == Ids(todos)
    ensures UniqueIds(todos) ==> UniqueIds(r)
  {
    MapByIdKeepsIds(todos, id, (t: Todo) => t.(completed := completed));
    MapById(todos, id, (t: Todo) => t.(completed := completed))
  }

  /** `prev.map(t => t.id === id ? { ...t, title } : t)`. */
  function SetTitle(todos: seq<Todo>, id: string, title: string): (r: seq<Todo>)
    ensures Ids(r) == Ids(todos)
    ensures UniqueIds(todos) ==> UniqueIds(r)
  {
    MapByIdKeepsIds(todos, id, (t: Todo) => t.(title := title));
    MapById(todos, id, (t: Todo) => t.(title := title))
  }

  /** Setting back the flag every item with the id had undoes a flag change. */
  lemma SetCompletedRestores(todos: seq<Todo>, id: string, flag: bool, was: bool)
    requires forall i :: 0 <= i < |todos| && todos[i].id == id ==> todos[i].completed == was
    ensures SetCompleted(SetCompleted(todos, id, flag), id, was) == todos
  {
    var back := SetCompleted(SetCompleted(todos, id, flag), id, was);
    assert forall i :: 0 <= i < |todos| ==> back[i] == todos[i];
  }

  /** Setting back the title every item with the id had undoes a title change. */
  lemma SetTitleRestores(todos: seq<Todo>, id: string, title: string, was: string)
    requires forall i :: 0 <= i < |todos| && todos[i].id == id ==> todos[i].title == was
    ensures SetTitle(SetTitle(todos, id, title), id, was) == todos
  {
    var back := SetTitle(SetTitle(todos, id, title), id, was);
    assert forall i :: 0 <= i < |todos| ==> back[i] == todos[i];
  }

  /** The revert updater of a failed write. Restoring a flag or a title keeps
      every id in place; reinserting items keeps ids unique only when the
      items' ids are unique and none of them is in the current list. */
  function Revert(todos: seq<Todo>, u: Undo): (r: seq<Todo>)
    ensures !u.Reinsert? ==> Ids(r) == Ids(todos)
    ensures !u.Reinsert? && UniqueIds(todos) ==> UniqueIds(r)
    ensures u.Reinsert? ==> |r| == |u.items| + |todos| && r[|u.items|..] == todos
    ensures (u.Reinsert? && UniqueIds(todos) && UniqueIds(u.items)
             && forall t :: t in u.items ==> !HasId(todos, t.id)) ==> UniqueIds(r)
  {
    match u
    case NoUndo => todos
    case RestoreCompleted(id, completed) => SetCompleted(todos, id, completed)
    case RestoreTitle(id, title) => SetTitle(todos, id, title)
    case Reinsert(items) =>
      if UniqueIds(todos) && UniqueIds(items) && (forall t :: t in items ==> !HasId(todos, t.id)) then
        UniqueAppend(items, todos);
        items + todos
      else
        items + todos
  }

  // ---------------------------------------------------------------- addTodo

  /** The guard and request of `addTodo`: nothing is sent when the text is all
      white space or nobody is signed in; otherwise the trimmed text is sent
      as the title, owned by the signed-in user. */
  function AddRequest(text: string, user: Option<string>): (w: Write)
    ensures w.InsertRow? <==> !AllSpace(text) && user.Some?
    ensures !w.InsertRow? ==> w == NoWrite
    ensures w.InsertRow? ==> w.row.title == Trim(text) && w.row.userId == user.value
    ensures w.InsertRow? ==> w.row.title != [] && IsTrimmed(w.row.title)
  {
    TrimEmptyIff(text);
    if Trim(text) == [] || user.None? then NoWrite
    else InsertRow(NewTodo(Trim(text), user.value))
  }

  /** The success updater of `addTodo`: the returned rows whose id is not yet
      in the list are prepended, in the order returned; the existing items
      stay as they were, after them. */
  function MergeInserted(todos: seq<Todo>, rows: seq<Todo>): (r: seq<Todo>)
    ensures |r| >= |todos| && r[|r| - |todos|..] == todos
    ensures forall t :: t in r[..|r| - |todos|] <==> t in rows && !HasId(todos, t.id)
    ensures IsSubsequence(r[..|r| - |todos|], rows)
    ensures forall id :: HasId(r, id) <==> HasId(todos, id) || HasId(rows, id)
    ensures UniqueIds(todos) && UniqueIds(rows) ==> UniqueIds(r)
  {
    var added := Keep(rows, (t: Todo) => !HasId(todos, t.id));
    var r := added + todos;
    assert r[|added|..] == todos && r[..|added|] == added;
    KeepKeepsUnique(rows, (t: Todo) => !HasId(todos, t.id));
    KeepIsSubsequence(rows, (t: Todo) => !HasId(todos, t.id));
    if UniqueIds(todos) && UniqueIds(rows) then
      UniqueAppend(added, todos);
      r
    else
      r
  }

  /** A reply repeated (or a second merge of the same rows) changes nothing. */
  lemma MergeIdempotent(todos: seq<Todo>, rows: seq<Todo>)
    ensures MergeInserted(MergeInserted(todos, rows), rows) == MergeInserted(todos, rows)
  {
    var once := MergeInserted(todos, rows);
    var again := Keep(rows, (t: Todo) => !HasId(once, t.id));
    if again != [] {
      assert again[0] in again;
    }
  }

  /** For a single row, the success updater of `addTodo` is the change feed's
      insertion handler: both prepend only a row whose id is absent. */
  lemma MergeOneIsFeedInsert(todos: seq<Todo>, row: Todo)
    ensures MergeInserted(todos, [row]) == ChangeFeed.Apply(todos, ChangeFeed.Inserted(row))
  {
    var added := Keep([row], (t: Todo) => !HasId(todos, t.id));
    assert [row][1..] == [];
    assert added == if HasId(todos, row.id) then [] else [row];
    assert MergeInserted(todos, [row]) == added + todos;
  }

  /** The race between the insert's reply and the feed's notice of the same
      row: in either order the row ends up in the list exactly once. */
  lemma AddRaceConverges(todos: seq<Todo>, row: Todo)
    ensures ChangeFeed.Apply(MergeInserted(todos, [row]), ChangeFeed.Inserted(row))
         == MergeInserted(ChangeFeed.Apply(todos, ChangeFeed.Inserted(row)), [row])
         == ChangeFeed.Apply(todos, ChangeFeed.Inserted(row))
  {
    MergeOneIsFeedInsert(todos, row);
    MergeOneIsFeedInsert(ChangeFeed.Apply(todos, ChangeFeed.Inserted(row)), row);
    ChangeFeed.InsertIdempotent(todos, row);
  }

  // ------------------------------------------------------------- toggleTodo

  /** `toggleTodo`: unknown id, nothing happens; otherwise the completion flag
      of the item(s) with that id is set to the negation of the found item's
      flag, the new flag is sent, and the old one is kept for the revert. */
  function ToggleStep(todos: seq<Todo>, id: string): (r: Step)
    ensures !HasId(todos, id) <==> r.write == NoWrite
    ensures !HasId(todos, id) ==> r == Step(todos, NoWrite, NoUndo)
    ensures |r.todos| == |todos| && Ids(r.todos) == Ids(todos)
    ensures forall i :: 0 <= i < |todos| && todos[i].id != id ==> r.todos[i] == todos[i]
    ensures UniqueIds(todos) ==> forall i :: 0 <= i < |todos| && todos[i].id == id ==>
      r.todos[i] == todos[i].(completed := !todos[i].completed)
      && r.write == UpdateCompleted(id, !todos[i].completed)
    ensures UniqueIds(todos) ==> UniqueIds(r.todos)
  {
    match Find(todos, id)
    case None => Step(todos, NoWrite, NoUndo)
    case Some(t) =>
      FindUniqueAll(todos, id);
      Step(SetCompleted(todos, id, !t.completed),
           UpdateCompleted(id, !t.completed),
           RestoreCompleted(id, t.completed))
  }

  /** A failed toggle restores the list it started from. */
  lemma ToggleRollback(todos: seq<Todo>, id: string)
    requires UniqueIds(todos)
    ensures Revert(ToggleStep(todos, id).todos, ToggleStep(todos, id).undo) == todos
  {
    if HasId(todos, id) {
      var t := Find(todos, id).value;
      assert ToggleStep(todos, id).todos == SetCompleted(todos, id, !t.completed);
      assert ToggleStep(todos, id).undo == RestoreCompleted(id, t.completed);
      FindUniqueAll(todos, id);
      SetCompletedRestores(todos, id, !t.completed, t.completed);
    }
  }

  // --------------------------------------------------------------- editTodo

  /** `editTodo`: text that is all white space, nothing happens; otherwise
      the title of the item(s) with that id becomes the trimmed text, which is
      sent, and the found item's title is kept for the revert (no revert when
      no item had the id; the update is sent all the same). */
  function EditStep(todos: seq<Todo>, id: string, text: string): (r: Step)
    ensures AllSpace(text) ==> r == Step(todos, NoWrite, NoUndo)
    ensures !AllSpace(text) ==> r.write == UpdateTitle(id, Trim(text)) && r.write.title != [] && IsTrimmed(r.write.title)
    ensures !HasId(todos, id) ==> r.todos == todos && r.undo == NoUndo
    ensures |r.todos| == |todos| && Ids(r.todos) == Ids(todos)
    ensures forall i :: 0 <= i < |todos| && todos[i].id != id ==> r.todos[i] == todos[i]
    ensures forall i :: 0 <= i < |todos| && todos[i].id == id && !AllSpace(text) ==>
      r.todos[i] == todos[i].(title := Trim(text))
    ensures UniqueIds(todos) ==> UniqueIds(r.todos)
  {
    TrimEmptyIff(text);
    var title := Trim(text);
    if title == [] then Step(todos, NoWrite, NoUndo)
    else
      var undo := match Find(todos, id)
        case None => NoUndo
        case Some(t) => RestoreTitle(id, t.title);
      if !HasId(todos, id) then
        MapByIdAbsent(todos, id, (t: Todo) => t.(title := title));
        Step(SetTitle(todos, id, title), UpdateTitle(id, title), undo)
      else
        Step(SetTitle(todos, id, title), UpdateTitle(id, title), undo)
  }

  /** A failed edit restores the list it started from. */
  lemma EditRollback(todos: seq<Todo>, id: string, text: string)
    requires UniqueIds(todos)
    ensures Revert(EditStep(todos, id, text).todos, EditStep(todos, id, text).undo) == todos
  {
    TrimEmptyIff(text);
    var title := Trim(text);
    if HasId(todos, id) && title != [] {
      var t := Find(todos, id).value;
      assert EditStep(todos, id, text).todos == SetTitle(todos, id, title);
      assert EditStep(todos, id, text).undo == RestoreTitle(id, t.title);
      FindUniqueAll(todos, id);
      SetTitleRestores(todos, id, title, t.title);
    }
  }

  // ------------------------------------------------------------- deleteTodo

  /** `deleteTodo`: every item with that id is removed and the deletion is
      sent, whether or not the id was present; the found item is kept so that
      the revert can put it back at the front. */
  function DeleteStep(todos: seq<Todo>, id: string): (r: Step)
    ensures r.write == DeleteRow(id)
    ensures forall t :: t in r.todos <==> t in todos && t.id != id
    ensures !HasId(todos, id) ==> r.todos == todos && r.undo == NoUndo
    ensures r.todos == RemoveById(todos, id)
    ensures HasId(todos, id) ==> r.undo == Reinsert([Find(todos, id).value])
    ensures UniqueIds(todos) ==> UniqueIds(r.todos)
  {
    if !HasId(todos, id) then
      RemoveByIdAbsent(todos, id);
      Step(RemoveById(todos, id), DeleteRow(id), NoUndo)
    else
      Step(RemoveById(todos, id), DeleteRow(id), Reinsert([Find(todos, id).value]))
  }

  /** The items with one id in a list with unique ids: just the one found. */
  lemma {:induction false} KeepIdIsFound(todos: seq<Todo>, id: string)
    requires UniqueIds(todos) && HasId(todos, id)
    ensures Keep(todos, (t: Todo) => t.id == id) == [Find(todos, id).value]
  {
    var rest := todos[1..];
    if todos[0].id == id {
      forall t | t in rest ensures t.id != id {
        var j :| 0 <= j < |rest| && rest[j] == t;
        assert todos[j + 1] == t;
      }
      KeepNone(rest, (t: Todo) => t.id == id);
    } else {
      var t :| t in todos && t.id == id;
      assert t in rest;
      KeepIdIsFound(rest, id);
    }
  }

  /** A failed delete restores the same items, though the restored one now
      comes first rather than where it was. */
  lemma DeleteRollback(todos: seq<Todo>, id: string)
    requires UniqueIds(todos)
    ensures multiset(Revert(DeleteStep(todos, id).todos, DeleteStep(todos, id).undo)) == multiset(todos)
    ensures UniqueIds(Revert(DeleteStep(todos, id).todos, DeleteStep(todos, id).undo))
  {
    if HasId(todos, id) {
      var found := Find(todos, id).value;
      var kept := RemoveById(todos, id);
      assert forall t :: t in [found] ==> !HasId(kept, t.id);
      assert kept == Keep(todos, (t: Todo) => t.id != id);
      assert Revert(DeleteStep(todos, id).todos, DeleteStep(todos, id).undo) == [found] + kept;
      KeepIdIsFound(todos, id);
      KeepPartition(todos, (t: Todo) => t.id != id, (t: Todo) => t.id == id);
      assert multiset([found] + kept) == multiset(kept + [found]);
    }
  }

  /** The revert of a failed delete need not give back the original list:
      deleting the second of two items and failing puts it first. */
  lemma DeleteRollbackMayReorder()
    ensures exists todos: seq<Todo>, id: string ::
      (UniqueIds(todos) && Revert(DeleteStep(todos, id).todos, DeleteStep(todos, id).undo) != todos)
  {
    var a := Todo("a", "first", false, "", "", "u", 0);
    var b := Todo("b", "second", false, "", "", "u", 1);
    assert [a, b][1].id == "b";
    RemoveByIdAbsent([a], "b");
    assert Keep([a, b], (t: Todo) => t.id != "b") == [a] + Keep([b], (t: Todo) => t.id != "b");
    assert Revert(DeleteStep([a, b], "b").todos, DeleteStep([a, b], "b").undo) == [b, a];
  }

  // --------------------------------------------------------- clearCompleted

  /** `clearCompleted`: nothing happens when no item is completed; otherwise
      the completed items are removed, the deletion of their ids is sent, and
      they are kept, in list order, for the revert. */
  function ClearStep(todos: seq<Todo>): (r: Step)
    ensures (forall t :: t in todos ==> !t.completed) <==> r.write == NoWrite
    ensures r.write == NoWrite ==> r == Step(todos, NoWrite, NoUndo)
    ensures r.todos == Keep(todos, IsActive)
    ensures forall t :: t in r.todos <==> t in todos && !t.completed
    ensures r.write.DeleteRows? ==> r.write.ids == Ids(Keep(todos, IsCompleted)) && r.write.ids != []
    ensures r.write.DeleteRows? ==> r.undo == Reinsert(Keep(todos, IsCompleted))
    ensures UniqueIds(todos) ==> UniqueIds(r.todos)
  {
    var done := Keep(todos, IsCompleted);
    KeepKeepsUnique(todos, IsActive);
    if |Ids(done)| == 0 then
      KeepAll(todos, IsActive);
      Step(todos, NoWrite, NoUndo)
    else
      assert done[0] in done;
      Step(Keep(todos, IsActive), DeleteRows(Ids(done)), Reinsert(done))
  }

  /** Clearing keeps the active items in their relative order. */
  lemma ClearKeepsOrder(todos: seq<Todo>)
    ensures IsSubsequence(ClearStep(todos).todos, todos)
  {
    KeepIsSubsequence(todos, IsActive);
  }

  /** A failed clear restores the same items: the completed ones come back at
      the front in their original relative order. */
  lemma ClearRollback(todos: seq<Todo>)
    ensures multiset(Revert(ClearStep(todos).todos, ClearStep(todos).undo)) == multiset(todos)
    ensures ClearStep(todos).undo.Reinsert? ==> IsSubsequence(ClearStep(todos).undo.items, todos)
    ensures UniqueIds(todos) ==> UniqueIds(Revert(ClearStep(todos).todos, ClearStep(todos).undo))
  {
    var step := ClearStep(todos);
    if step.write.DeleteRows? {
      var done := Keep(todos, IsCompleted);
      assert Revert(step.todos, step.undo) == done + step.todos;
      KeepPartition(todos, IsCompleted, IsActive);
      KeepIsSubsequence(todos, IsCompleted);
      if UniqueIds(todos) {
        KeepKeepsUnique(todos, IsCompleted);
        forall t, a | t in done && a in step.todos ensures a.id != t.id {
          SameIdSameItem(todos, a, t);
        }
      }
    }
  }
}

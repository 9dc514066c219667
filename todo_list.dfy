/** The id-keyed list operations that every updater of src/hooks/useTodos.ts
    is built from: `some`, `find`, a `map` that rewrites the items with one
    id, and a `filter` that drops them. */
module TodoList {
  import opened Wrappers
  import opened TodoTypes
  import opened Sequences

  /** `todos.some(t => t.id === id)`. */
  predicate HasId(todos: seq<Todo>, id: string)
    ensures HasId(todos, id) <==> exists i :: 0 <= i < |todos| && todos[i].id == id
  {
    exists t :: t in todos && t.id == id
  }

  /** No two items share an identifier. */
  predicate UniqueIds(todos: seq<Todo>) {
    forall i, j :: 0 <= i < j < |todos| ==> todos[i].id != todos[j].id
  }

  /** In a list with unique ids, two items with the same id are the same item. */
  lemma SameIdSameItem(todos: seq<Todo>, a: Todo, b: Todo)
    requires UniqueIds(todos) && a in todos && b in todos
    ensures a.id == b.id ==> a == b
  {
    var i :| 0 <= i < |todos| && todos[i] == a;
    var j :| 0 <= j < |todos| && todos[j] == b;
    assert a.id == b.id ==> i == j;
  }

  /** Two lists with unique ids and no id in common concatenate to one. */
  lemma UniqueAppend(a: seq<Todo>, b: seq<Todo>)
    requires UniqueIds(a) && UniqueIds(b)
    requires forall t :: t in a ==> !HasId(b, t.id)
    ensures UniqueIds(a + b)
  {
    var r := a + b;
    forall i, j | 0 <= i < j < |r| ensures r[i].id != r[j].id {
      if i < |a| && |a| <= j {
        assert r[i] in a && r[j] == b[j - |a|] && b[j - |a|] in b;
      } else if |a| <= i {
        assert r[i] == b[i - |a|] && r[j] == b[j - |a|];
      }
    }
  }

  /** The identifiers, in list order (`todos.map(t => t.id)`). */
  function Ids(todos: seq<Todo>): (r: seq<string>)
    ensures |r| == |todos| && forall i :: 0 <= i < |todos| ==> r[i] == todos[i].id
  {
    seq(|todos|, i requires 0 <= i < |todos| => todos[i].id)
  }

  /** `todos.find(t => t.id === id)`: the first item with that id, if any. */
  function Find(todos: seq<Todo>, id: string): (r: Option<Todo>)
    ensures r.None? <==> !HasId(todos, id)
    ensures r.Some? ==> r.value in todos && r.value.id == id
  {
    if todos == [] then None
    else if todos[0].id == id then Some(todos[0])
    else
      var r := Find(todos[1..], id);
      assert forall i :: 1 <= i < |todos| ==> todos[i] == todos[1..][i - 1];
      r
  }

  /** In a list with unique ids, `find` returns the one item with that id. */
  lemma {:induction false} FindUnique(todos: seq<Todo>, id: string, i: nat)
    requires UniqueIds(todos) && i < |todos| && todos[i].id == id
    ensures Find(todos, id) == Some(todos[i])
  {
    if i > 0 {
      FindUnique(todos[1..], id, i - 1);
    }
  }

  /** In a list with unique ids, every item with the id is the one found. */
  lemma FindUniqueAll(todos: seq<Todo>, id: string)
    ensures UniqueIds(todos) ==> forall i :: 0 <= i < |todos| && todos[i].id == id ==> Find(todos, id) == Some(todos[i])
  {
    if UniqueIds(todos) {
      forall i | 0 <= i < |todos| && todos[i].id == id ensures Find(todos, id) == Some(todos[i]) {
        FindUnique(todos, id, i);
      }
    }
  }

  /** `todos.map(t => t.id === id ? f(t) : t)`. */
  function MapById(todos: seq<Todo>, id: string, f: Todo -> Todo): (r: seq<Todo>)
    ensures |r| == |todos|
    ensures forall i :: 0 <= i < |todos| && todos[i].id != id ==> r[i] == todos[i]
    ensures forall i :: 0 <= i < |todos| && todos[i].id == id ==> r[i] == f(todos[i])
  {
    seq(|todos|, i requires 0 <= i < |todos| => if todos[i].id == id then f(todos[i]) else todos[i])
  }

  /** A rewrite that keeps the identifier of the items it touches keeps every
      identifier in place, and so keeps them unique. */
  lemma MapByIdKeepsIds(todos: seq<Todo>, id: string, f: Todo -> Todo)
    requires forall t: Todo :: t.id == id ==> f(t).id == id
    ensures Ids(MapById(todos, id, f)) == Ids(todos)
    ensures UniqueIds(todos) ==> UniqueIds(MapById(todos, id, f))
  {
    var r := MapById(todos, id, f);
    assert forall i :: 0 <= i < |todos| ==> r[i].id == todos[i].id;
  }

  /** Rewriting the items of an absent id changes nothing. */
  lemma MapByIdAbsent(todos: seq<Todo>, id: string, f: Todo -> Todo)
    requires !HasId(todos, id)
    ensures MapById(todos, id, f) == todos
  {
  }

  /** `todos.filter(t => t.id !== id)`. */
  function RemoveById(todos: seq<Todo>, id: string): (r: seq<Todo>)
    ensures forall t :: t in r <==> t in todos && t.id != id
    ensures !HasId(r, id)
    ensures UniqueIds(todos) ==> UniqueIds(r)
  {
    KeepKeepsUnique(todos, (t: Todo) => t.id != id);
    var r := Keep(todos, (t: Todo) => t.id != id);
    assert forall i :: 0 <= i < |r| ==> r[i] in r;
    r
  }

  /** Removal keeps the remaining items in their relative order. */
  lemma RemoveByIdIsSubsequence(todos: seq<Todo>, id: string)
    ensures IsSubsequence(RemoveById(todos, id), todos)
  {
    KeepIsSubsequence(todos, (t: Todo) => t.id != id);
  }

  /** Removing an absent id changes nothing. */
  lemma RemoveByIdAbsent(todos: seq<Todo>, id: string)
    requires !HasId(todos, id)
    ensures RemoveById(todos, id) == todos
  {
    forall t | t in todos ensures t.id != id {
      var i :| 0 <= i < |todos| && todos[i] == t;
    }
    KeepAll(todos, (t: Todo) => t.id != id);
  }

  /** Any filter of a list with unique ids has unique ids. */
  lemma {:induction false} KeepKeepsUnique(todos: seq<Todo>, p: Todo -> bool)
    ensures UniqueIds(todos) ==> UniqueIds(Keep(todos, p))
  {
    if todos != [] && UniqueIds(todos) {
      KeepKeepsUnique(todos[1..], p);
      var rest := Keep(todos[1..], p);
      if p(todos[0]) {
        forall j | 0 <= j < |rest| ensures rest[j].id != todos[0].id {
          assert rest[j] in todos[1..];
        }
      }
    }
  }
}

/** The values derived from the list on every render: the filtered view and
    the active and completed counts (src/hooks/useTodos.ts). */
module Views {
  import opened TodoTypes
  import opened Sequences

  /** Whether an item belongs in the view selected by `f`. */
  predicate Matches(f: Filter, t: Todo)
    ensures f == All ==> Matches(f, t)
    ensures f != All ==> (Matches(f, t) <==> (t.completed <==> f == Completed))
  {
    match f
    case All => true
    case Active => !t.completed
    case Completed => t.completed
  }

  /** `filteredTodos`: `all` gives the list itself; `active` and `completed`
      give the matching items, each exactly once per occurrence, in list order. */
  function View(todos: seq<Todo>, f: Filter): (r: seq<Todo>)
    ensures f == All ==> r == todos
    ensures forall t :: t in r <==> t in todos && Matches(f, t)
    ensures IsSubsequence(r, todos)
  {
    match f
    case All =>
      KeepAll(todos, t => true);
      KeepIsSubsequence(todos, t => true);
      todos
    case Active =>
      KeepIsSubsequence(todos, IsActive);
      Keep(todos, IsActive)
    case Completed =>
      KeepIsSubsequence(todos, IsCompleted);
      Keep(todos, IsCompleted)
  }

  /** The view of a concatenation is the concatenation of the views: filtering
      neither reorders nor moves items across one another. */
  lemma ViewAppend(a: seq<Todo>, b: seq<Todo>, f: Filter)
    ensures View(a + b, f) == View(a, f) + View(b, f)
  {
    match f
    case All =>
    case Active => KeepAppend(a, b, IsActive);
    case Completed => KeepAppend(a, b, IsCompleted);
  }

  /** `activeCount`: the number of items not completed, which is the length
      of the `active` view. */
  function ActiveCount(todos: seq<Todo>): (n: nat)
    ensures n == |View(todos, Active)|
    ensures n <= |todos|
  {
    |Keep(todos, IsActive)|
  }

  /** `completedCount`: the number of completed items, which is the length of
      the `completed` view. */
  function CompletedCount(todos: seq<Todo>): (n: nat)
    ensures n == |View(todos, Completed)|
    ensures n <= |todos|
  {
    |Keep(todos, IsCompleted)|
  }

  /** Every item is counted exactly once: the two counts sum to the length. */
  lemma CountsSum(todos: seq<Todo>)
    ensures ActiveCount(todos) + CompletedCount(todos) == |todos|
  {
    KeepPartition(todos, IsActive, IsCompleted);
  }

  /** The `active` and `completed` views together hold every item of the list,
      each as often as in the list. */
  lemma ViewsPartition(todos: seq<Todo>)
    ensures multiset(View(todos, Active) + View(todos, Completed)) == multiset(todos)
  {
    KeepPartition(todos, IsActive, IsCompleted);
  }
}

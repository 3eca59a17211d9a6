/** What the page shows for a list and a filter value: the visible todos
    (getFilteredTodos), the "N items left" summary (updateItemsCount), the
    empty-state message and hint (renderEmptyState), and which of the two
    renderTodos draws. */
module View {
  import opened Sequences
  import opened Todos

  /** The filter value. The buttons carry "all", "active" and "completed";
      setFilter stores whatever string it is given, so any other string is
      kept as Other. */
  datatype Filter = All | Active | Completed | Other(name: string)

  function FilterName(f: Filter): string {
    match f
    case All => "all"
    case Active => "active"
    case Completed => "completed"
    case Other(name) => name
  }

  /** The filter a string denotes. No string is lost: its name is the string. */
  function ParseFilter(name: string): (f: Filter)
    ensures FilterName(f) == name
    ensures f.Other? <==> name != "all" && name != "active" && name != "completed"
  {
    if name == "all" then All
    else if name == "active" then Active
    else if name == "completed" then Completed
    else Other(name)
  }

  /** A filter value ParseFilter can produce: Other never holds one of the three button names. */
  predicate IsCanonical(f: Filter) {
    f.Other? ==> f.name != "all" && f.name != "active" && f.name != "completed"
  }

  /** Parsing the name of a canonical filter gives the filter back. */
  lemma ParseFilterName(f: Filter)
    requires IsCanonical(f)
    ensures ParseFilter(FilterName(f)) == f
  {
  }

  /** Whether a todo is shown under a filter: "active" shows the open ones,
      "completed" the done ones, every other value shows everything. */
  predicate Shows(f: Filter, t: Todo) {
    match f
    case Active => !t.completed
    case Completed => t.completed
    case _ => true
  }

  /** getFilteredTodos: the todos the filter shows, each with its multiplicity,
      in list order. */
  function Visible(todos: seq<Todo>, f: Filter): (r: seq<Todo>)
    ensures IsSubsequence(r, todos)
    ensures forall t :: multiset(r)[t] == if Shows(f, t) then multiset(todos)[t] else 0
  {
    match f
    case Active =>
      FilterIsSubsequence(todos, IsActive);
      FilterCounts(todos, IsActive);
      Sequences.Filter(todos, IsActive)
    case Completed =>
      FilterIsSubsequence(todos, IsCompleted);
      FilterCounts(todos, IsCompleted);
      Sequences.Filter(todos, IsCompleted)
    case _ =>
      assert IsSubsequence(todos, todos) by { SubsequenceReflexive(todos); }
      todos
  }

  /** The active count of updateItemsCount: the number of todos not completed.
      It does not depend on the filter, and the open and done todos together
      are the whole list. */
  function ActiveCount(todos: seq<Todo>): (n: nat)
    ensures n == |Visible(todos, Active)|
    ensures n + |Visible(todos, Completed)| == |todos|
  {
    FilterComplement(todos, IsActive, IsCompleted);
    |Sequences.Filter(todos, IsActive)|
  }

  /** The wording after the count: singular exactly when the count is 1. */
  function ItemsLeftLabel(n: int): (wording: string)
    ensures wording == "item left" <==> n == 1
    ensures wording == "items left" <==> n != 1
  {
    if n == 1 then "item left" else "items left"
  }

  /** renderEmptyState: the message and hint for an empty view, chosen by the
      filter alone. */
  function EmptyState(f: Filter): (string, string) {
    match f
    case Active => ("No active todos", "All todos are completed")
    case Completed => ("No completed todos", "Complete some todos to see them here")
    case _ => ("No todos yet", "Add a todo to get started!")
  }

  /** Every filter string other than "active" and "completed", "all" included,
      falls to the default pair. */
  lemma EmptyStateDefault(name: string)
    requires name != "active" && name != "completed"
    ensures EmptyState(ParseFilter(name)) == ("No todos yet", "Add a todo to get started!")
    ensures EmptyState(ParseFilter(name)) == EmptyState(All)
  {
  }

  /** The list area renderTodos fills: the empty-state text or the visible todos. */
  datatype Listing = Empty(message: string, hint: string) | Items(todos: seq<Todo>)

  /** Everything renderTodos derives from the state, with the markup left out. */
  datatype Screen = Screen(listing: Listing, activeCount: nat, itemsLeft: string)

  /** renderTodos: the empty state exactly when nothing is visible, otherwise
      the visible todos; the summary always counts the whole list. */
  function Render(todos: seq<Todo>, f: Filter): (s: Screen)
    ensures s.listing.Empty? <==> Visible(todos, f) == []
    ensures s.listing.Empty? ==> (s.listing.message, s.listing.hint) == EmptyState(f)
    ensures s.listing.Items? ==> s.listing.todos == Visible(todos, f)
    ensures s.activeCount == |Visible(todos, Active)|
    ensures s.itemsLeft == (if s.activeCount == 1 then "item left" else "items left")
  {
    var visible := Visible(todos, f);
    var n := ActiveCount(todos);
    var listing := if visible == [] then Empty(EmptyState(f).0, EmptyState(f).1) else Items(visible);
    Screen(listing, n, ItemsLeftLabel(n))
  }

  /** Nothing is visible exactly when no todo is shown by the filter. */
  lemma VisibleEmptyIff(todos: seq<Todo>, f: Filter)
    ensures Visible(todos, f) == [] <==> forall i :: 0 <= i < |todos| ==> !Shows(f, todos[i])
  {
    var r := Visible(todos, f);
    if r == [] {
      forall i | 0 <= i < |todos| ensures !Shows(f, todos[i]) {
        assert todos[i] in multiset(todos);
        assert multiset(r)[todos[i]] == 0;
      }
    } else {
      SubsequenceMembers(r, todos);
      assert r[0] in multiset(r);
      var i :| 0 <= i < |todos| && todos[i] == r[0];
    }
  }

  /** The empty-state text never contradicts the list: "No todos yet" only for
      an empty list, "All todos are completed" only when every todo is done,
      "No completed todos" only when none is done, and each of them is shown
      whenever its condition holds. */
  lemma EmptyStateTruthful(todos: seq<Todo>, f: Filter)
    ensures Render(todos, f).listing.Empty? <==> match f
      case Active => forall i :: 0 <= i < |todos| ==> todos[i].completed
      case Completed => forall i :: 0 <= i < |todos| ==> !todos[i].completed
      case _ => todos == []
  {
    VisibleEmptyIff(todos, f);
    if !f.Active? && !f.Completed? && todos != [] {
      assert Shows(f, todos[0]);
    }
  }

  /** The three empty-state pairs differ, so the message tells which filter is in force. */
  lemma EmptyStatesDistinct(f: Filter, g: Filter)
    requires EmptyState(f) == EmptyState(g)
    ensures f.Active? <==> g.Active?
    ensures f.Completed? <==> g.Completed?
  {
  }

  /** The active and completed views split the list. */
  lemma ViewsPartition(todos: seq<Todo>)
    ensures |Visible(todos, Active)| + |Visible(todos, Completed)| == |todos|
    ensures |Visible(todos, All)| == |todos|
  {
    FilterComplement(todos, IsActive, IsCompleted);
  }

  /** With the seed list and the "completed" filter, one todo is visible and the
      summary still reads "2 items left". */
  lemma SeedUnderCompleted(now: string)
    ensures Render(Seed(now), Completed).listing == Items([Seed(now)[0]])
    ensures Render(Seed(now), Completed).activeCount == 2
    ensures Render(Seed(now), Completed).itemsLeft == "items left"
  {
    ViewsPartition(Seed(now));
  }
}

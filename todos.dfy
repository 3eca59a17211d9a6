/** The todo record and the list transformations of the app: the seed list used
    when storage holds nothing, adding a todo, and the map/filter rebuilds done by
    toggle, delete and clear-completed. */
module Todos {
  import opened JsText
  import opened Sequences

  /** One todo. createdAt is the ISO-8601 timestamp string; nothing reads it. */
  datatype Todo = Todo(id: int, text: string, completed: bool, createdAt: string)

  predicate IsActive(t: Todo) {
    !t.completed
  }

  predicate IsCompleted(t: Todo) {
    t.completed
  }

  /** The test deleteTodo filters with: the item's id differs from the given one. */
  function WithoutId(id: int): Todo -> bool {
    (t: Todo) => t.id != id
  }

  /** No two todos share an id. */
  predicate UniqueIds(todos: seq<Todo>) {
    forall i, j :: 0 <= i < j < |todos| ==> todos[i].id != todos[j].id
  }

  /** The data invariant the add form establishes: distinct ids, and every
      text non-empty with no surrounding whitespace. */
  predicate WellFormed(todos: seq<Todo>) {
    && UniqueIds(todos)
    && forall i :: 0 <= i < |todos| ==> IsTrimmed(todos[i].text)
  }

  predicate HasId(todos: seq<Todo>, id: int) {
    exists i :: 0 <= i < |todos| && todos[i].id == id
  }

  /** The three sample todos put in place of an empty list at start-up; every
      createdAt is the start-up time. */
  function Seed(now: string): (r: seq<Todo>)
    ensures |r| == 3 && r[0].id == 1 && r[1].id == 2 && r[2].id == 3
    ensures r[0].text == "Complete online JavaScript course"
    ensures Filter(r, IsCompleted) == [r[0]]
  {
    var r := [
      Todo(1, "Complete online JavaScript course", true, now),
      Todo(2, "Jog around the park 3x", false, now),
      Todo(3, "10 minutes meditation", false, now)
    ];
    assert Filter(r[1..], IsCompleted) == [] by {
      FilterKeepsNone(r[1..], IsCompleted);
    }
    r
  }

  /** The seed list satisfies the data invariant. */
  lemma SeedWellFormed(now: string)
    ensures WellFormed(Seed(now))
  {
    var r := Seed(now);
    assert IsTrimmed(r[0].text) by {
      var t := "Complete online JavaScript course";
      assert t[0] == 'C' && t[|t| - 1] == 'e';
    }
    assert IsTrimmed(r[1].text) by {
      var t := "Jog around the park 3x";
      assert t[0] == 'J' && t[|t| - 1] == 'x';
    }
    assert IsTrimmed(r[2].text) by {
      var t := "10 minutes meditation";
      assert t[0] == '1' && t[|t| - 1] == 'n';
    }
  }

  /** addTodo: input that is only whitespace adds nothing; any other input,
      trimmed, becomes a new active todo in front of all the existing ones. */
  function Add(todos: seq<Todo>, input: string, id: int, now: string): (r: seq<Todo>)
    ensures AllWhitespace(input) ==> r == todos
    ensures !AllWhitespace(input) ==> |r| == |todos| + 1 && r[1..] == todos
    ensures !AllWhitespace(input) ==> r[0] == Todo(id, Trim(input), false, now) && IsTrimmed(r[0].text)
  {
    TrimEmptyIffWhitespace(input);
    var text := Trim(input);
    if text == [] then todos else [Todo(id, text, false, now)] + todos
  }

  /** toggleTodo: every item carrying the id has completed negated, every other
      item and every other field is left as it was. */
  function Toggle(todos: seq<Todo>, id: int): (r: seq<Todo>)
    ensures |r| == |todos|
    ensures forall i :: 0 <= i < |todos| ==>
      && r[i].id == todos[i].id && r[i].text == todos[i].text && r[i].createdAt == todos[i].createdAt
      && r[i].completed == (todos[i].completed != (todos[i].id == id))
  {
    if todos == [] then []
    else
      var t := todos[0];
      [if t.id == id then t.(completed := !t.completed) else t] + Toggle(todos[1..], id)
  }

  /** deleteTodo: exactly the items whose id differs, in their original order. */
  function Delete(todos: seq<Todo>, id: int): (r: seq<Todo>)
    ensures IsSubsequence(r, todos)
    ensures forall t :: multiset(r)[t] == if t.id != id then multiset(todos)[t] else 0
  {
    FilterIsSubsequence(todos, WithoutId(id));
    FilterCounts(todos, WithoutId(id));
    Filter(todos, WithoutId(id))
  }

  /** clearCompletedTodos: exactly the active items, in their original order. */
  function ClearCompleted(todos: seq<Todo>): (r: seq<Todo>)
    ensures IsSubsequence(r, todos)
    ensures forall t :: multiset(r)[t] == if t.completed then 0 else multiset(todos)[t]
  {
    FilterIsSubsequence(todos, IsActive);
    FilterCounts(todos, IsActive);
    Filter(todos, IsActive)
  }

  /** Toggling the same id twice gives back the original list. */
  lemma ToggleTwice(todos: seq<Todo>, id: int)
    ensures Toggle(Toggle(todos, id), id) == todos
  {
    var r := Toggle(Toggle(todos, id), id);
    assert forall i :: 0 <= i < |todos| ==> r[i] == todos[i];
  }

  /** Toggling an id no item carries leaves the list as it was. */
  lemma ToggleUnknown(todos: seq<Todo>, id: int)
    requires !HasId(todos, id)
    ensures Toggle(todos, id) == todos
  {
    var r := Toggle(todos, id);
    assert forall i :: 0 <= i < |todos| ==> r[i] == todos[i];
  }

  /** With distinct ids, toggling changes the one item that carries the id. */
  lemma ToggleOne(todos: seq<Todo>, k: nat)
    requires UniqueIds(todos) && k < |todos|
    ensures Toggle(todos, todos[k].id) == todos[k := todos[k].(completed := !todos[k].completed)]
  {
    var r := Toggle(todos, todos[k].id);
    var expected := todos[k := todos[k].(completed := !todos[k].completed)];
    forall i | 0 <= i < |todos| ensures r[i] == expected[i] {
      if i < k {
        assert todos[i].id != todos[k].id;
      } else if i > k {
        assert todos[k].id != todos[i].id;
      }
    }
  }

  /** Toggling keeps ids and texts, so it keeps the data invariant. */
  lemma ToggleKeepsWellFormed(todos: seq<Todo>, id: int)
    requires WellFormed(todos)
    ensures WellFormed(Toggle(todos, id))
  {
  }

  /** Deleting the same id a second time changes nothing. */
  lemma DeleteTwice(todos: seq<Todo>, id: int)
    ensures Delete(Delete(todos, id), id) == Delete(todos, id)
  {
    FilterIdempotent(todos, WithoutId(id));
  }

  /** Deleting an id no item carries leaves the list as it was. */
  lemma DeleteUnknown(todos: seq<Todo>, id: int)
    requires !HasId(todos, id)
    ensures Delete(todos, id) == todos
  {
    FilterKeepsAll(todos, WithoutId(id));
  }

  /** With distinct ids, deleting removes exactly the one item carrying the id. */
  lemma DeleteOne(todos: seq<Todo>, k: nat)
    requires UniqueIds(todos) && k < |todos|
    ensures Delete(todos, todos[k].id) == RemoveAt(todos, k)
  {
    var keep := WithoutId(todos[k].id);
    assert forall i :: 0 <= i < |todos| && i != k ==> keep(todos[i]);
    FilterDropsOne(todos, k, keep);
  }

  /** Clearing completed todos twice is clearing them once. */
  lemma ClearCompletedTwice(todos: seq<Todo>)
    ensures ClearCompleted(ClearCompleted(todos)) == ClearCompleted(todos)
  {
    FilterIdempotent(todos, IsActive);
  }

  /** A list with no completed todo is left as it was. */
  lemma ClearCompletedWhenAllActive(todos: seq<Todo>)
    requires forall i :: 0 <= i < |todos| ==> !todos[i].completed
    ensures ClearCompleted(todos) == todos
  {
    FilterKeepsAll(todos, IsActive);
  }

  /** Taking a subsequence keeps the data invariant. */
  lemma {:induction false} SubsequenceKeepsWellFormed(r: seq<Todo>, todos: seq<Todo>)
    requires IsSubsequence(r, todos) && WellFormed(todos)
    ensures WellFormed(r)
  {
    if r != [] {
      assert WellFormed(todos[1..]);
      if r[0] == todos[0] && IsSubsequence(r[1..], todos[1..]) {
        SubsequenceKeepsWellFormed(r[1..], todos[1..]);
        SubsequenceMembers(r[1..], todos[1..]);
        forall j | 0 < j < |r| ensures r[0].id != r[j].id {
          assert r[j] == r[1..][j - 1] && r[j] in r[1..];
          assert r[j] in todos[1..];
          var m :| 0 <= m < |todos[1..]| && todos[1..][m] == r[j];
          assert todos[m + 1] == r[j];
        }
        forall i, j | 0 <= i < j < |r| ensures r[i].id != r[j].id {
          if i > 0 {
            assert r[i] == r[1..][i - 1] && r[j] == r[1..][j - 1];
          }
        }
        forall i | 0 <= i < |r| ensures IsTrimmed(r[i].text) {
          if i > 0 {
            assert r[i] == r[1..][i - 1];
          }
        }
      } else {
        SubsequenceKeepsWellFormed(r, todos[1..]);
      }
    }
  }

  /** Delete keeps the data invariant. */
  lemma DeleteKeepsWellFormed(todos: seq<Todo>, id: int)
    requires WellFormed(todos)
    ensures WellFormed(Delete(todos, id))
  {
    SubsequenceKeepsWellFormed(Delete(todos, id), todos);
  }

  /** Clear-completed keeps the data invariant. */
  lemma ClearCompletedKeepsWellFormed(todos: seq<Todo>)
    requires WellFormed(todos)
    ensures WellFormed(ClearCompleted(todos))
  {
    SubsequenceKeepsWellFormed(ClearCompleted(todos), todos);
  }

  /** Adding with an id no item carries keeps the data invariant. */
  lemma AddKeepsWellFormed(todos: seq<Todo>, input: string, id: int, now: string)
    requires WellFormed(todos) && !HasId(todos, id)
    ensures WellFormed(Add(todos, input, id, now))
  {
    var r := Add(todos, input, id, now);
    if !AllWhitespace(input) {
      forall i, j | 0 <= i < j < |r| ensures r[i].id != r[j].id {
        assert r[j] == todos[j - 1];
        if i > 0 {
          assert r[i] == todos[i - 1];
        }
      }
      forall i | 0 <= i < |r| ensures IsTrimmed(r[i].text) {
        if i > 0 {
          assert r[i] == todos[i - 1];
        }
      }
    }
  }
}

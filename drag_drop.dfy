/** The list part of handleDrop: the dragged todo is cut out with
    splice(draggedIndex, 1) and put back with splice(dropIndex, 0, todo).
    The indices are inputs here; how the page obtains them is not modelled. */
module DragDrop {
  import opened Wrappers
  import opened Sequences
  import opened Todos
  import opened JsText

  datatype ReorderError = OutOfRange

  /** A move keeps the data invariant: it only rearranges the todos. */
  lemma MoveKeepsWellFormed(todos: seq<Todo>, from: nat, to: nat)
    requires from < |todos| && to < |todos|
    ensures WellFormed(todos) ==> WellFormed(Move(todos, from, to))
  {
    if !WellFormed(todos) {
      return;
    }
    var r := Move(todos, from, to);
    forall i | 0 <= i < |r| ensures IsTrimmed(r[i].text) {
      MoveAt(todos, from, to, i);
    }
    forall i, j | 0 <= i < j < |r| ensures r[i].id != r[j].id {
      MoveAt(todos, from, to, i);
      MoveAt(todos, from, to, j);
      var a, b := MovedFrom(from, to, i), MovedFrom(from, to, j);
      if a > b {
        assert todos[b].id != todos[a].id;
      }
    }
  }

  /** The reorder with the bounds check the drop handler lacks: a position
      outside the list is an error and changes nothing; otherwise the dragged
      todo ends up at the drop position, the others keep their relative order,
      and the result is a rearrangement of the list. */
  function Reorder(todos: seq<Todo>, dragged: int, drop: int): (r: Result<seq<Todo>, ReorderError>)
    ensures r.Err? <==> !(0 <= dragged < |todos| && 0 <= drop < |todos|)
    ensures r.Ok? ==> |r.value| == |todos| && multiset(r.value) == multiset(todos)
    ensures r.Ok? ==> r.value[drop] == todos[dragged] && RemoveAt(r.value, drop) == RemoveAt(todos, dragged)
    ensures r.Ok? && WellFormed(todos) ==> WellFormed(r.value)
  {
    if 0 <= dragged < |todos| && 0 <= drop < |todos| then
      MoveIsPermutation(todos, dragged, drop);
      MoveKeepsWellFormed(todos, dragged, drop);
      Ok(Move(todos, dragged, drop))
    else
      Err(OutOfRange)
  }

  /** Dropping a todo onto its own position leaves the list as it was. */
  lemma ReorderInPlace(todos: seq<Todo>, i: int)
    requires 0 <= i < |todos|
    ensures Reorder(todos, i, i) == Ok(todos)
  {
    MoveInPlace(todos, i);
  }

  /** Dragging the todo back to where it came from undoes a reorder. */
  lemma ReorderUndo(todos: seq<Todo>, dragged: int, drop: int)
    requires 0 <= dragged < |todos| && 0 <= drop < |todos|
    ensures Reorder(todos, dragged, drop).Ok?
    ensures Reorder(Reorder(todos, dragged, drop).value, drop, dragged) == Ok(todos)
  {
    MoveInverse(todos, dragged, drop);
  }

  /** Moving index 2 to index 0 turns [A, B, C, D] into [C, A, B, D]. */
  lemma ReorderTowardsFront(a: Todo, b: Todo, c: Todo, d: Todo)
    ensures Reorder([a, b, c, d], 2, 0) == Ok([c, a, b, d])
  {
    assert RemoveAt([a, b, c, d], 2) == [a, b, d];
    assert InsertAt([a, b, d], 0, c) == [c, a, b, d];
  }

  /** Moving index 0 to index 3 turns [A, B, C, D] into [B, C, D, A]. */
  lemma ReorderTowardsBack(a: Todo, b: Todo, c: Todo, d: Todo)
    ensures Reorder([a, b, c, d], 0, 3) == Ok([b, c, d, a])
  {
    assert RemoveAt([a, b, c, d], 0) == [b, c, d];
    assert InsertAt([b, c, d], 3, a) == [b, c, d, a];
  }

  /** The list as the script holds it once undefined can appear in it. */
  function Lift(todos: seq<Todo>): (cells: seq<Option<Todo>>)
    ensures |cells| == |todos|
    ensures forall i :: 0 <= i < |todos| ==> cells[i] == Some(todos[i])
  {
    seq(|todos|, i requires 0 <= i < |todos| => Some(todos[i]))
  }

  /** handleDrop's reorder as written, for any indices indexOf can return:
      state.todos[draggedIndex] is undefined (None) outside the list, and
      splice counts a negative start from the end. */
  function DropAsWritten(todos: seq<Todo>, dragged: int, drop: int): seq<Option<Todo>> {
    var moving := if 0 <= dragged < |todos| then Some(todos[dragged]) else None;
    Splice(Splice(Lift(todos), dragged, 1, []), drop, 0, [moving])
  }

  lemma LiftRemoveAt(todos: seq<Todo>, i: nat)
    requires i < |todos|
    ensures Lift(RemoveAt(todos, i)) == RemoveAt(Lift(todos), i)
  {
  }

  lemma LiftInsertAt(todos: seq<Todo>, i: nat, t: Todo)
    requires i <= |todos|
    ensures Lift(InsertAt(todos, i, t)) == InsertAt(Lift(todos), i, Some(t))
  {
    var r, cells := InsertAt(todos, i, t), InsertAt(Lift(todos), i, Some(t));
    forall k | 0 <= k < |r| ensures Lift(r)[k] == cells[k] {
      if k < i {
        assert r[k] == RemoveAt(r, i)[k] && cells[k] == RemoveAt(cells, i)[k];
      } else if k > i {
        assert r[k] == RemoveAt(r, i)[k - 1] && cells[k] == RemoveAt(cells, i)[k - 1];
      }
    }
  }

  /** For positions inside the list the code as written does what Reorder does. */
  lemma DropAsWrittenAgrees(todos: seq<Todo>, dragged: int, drop: int)
    requires 0 <= dragged < |todos| && 0 <= drop < |todos|
    ensures Reorder(todos, dragged, drop).Ok?
    ensures DropAsWritten(todos, dragged, drop) == Lift(Reorder(todos, dragged, drop).value)
  {
    var cells, moving := Lift(todos), todos[dragged];
    SpliceInRange(cells, dragged, Some(moving));
    LiftRemoveAt(todos, dragged);
    var shorter := RemoveAt(todos, dragged);
    SpliceInRange(Lift(shorter), drop, Some(moving));
    LiftInsertAt(shorter, drop, moving);
  }

  /** When indexOf finds no dragged element (draggedIndex -1), the code as
      written deletes the last todo and puts undefined at the drop position. */
  lemma DropAsWrittenLosesLast(todos: seq<Todo>, drop: int)
    requires todos != [] && 0 <= drop < |todos|
    ensures DropAsWritten(todos, -1, drop) == InsertAt(Lift(todos[..|todos| - 1]), drop, None)
  {
    var cells := Lift(todos);
    SpliceMinusOne(cells);
    assert cells[..|cells| - 1] == Lift(todos[..|todos| - 1]);
    SpliceInRange(cells[..|cells| - 1], drop, None);
  }

  /** On the seed list, a drop with no dragged todo onto the first item loses
      "10 minutes meditation" and leaves an undefined entry in front, while
      Reorder refuses the position. */
  lemma DropAsWrittenOnSeed(now: string)
    ensures DropAsWritten(Seed(now), -1, 0) == [None, Some(Seed(now)[0]), Some(Seed(now)[1])]
    ensures Some(Seed(now)[2]) !in DropAsWritten(Seed(now), -1, 0)
    ensures Reorder(Seed(now), -1, 0) == Err(OutOfRange)
  {
    var s := Seed(now);
    DropAsWrittenLosesLast(s, 0);
    assert Lift(s[..2]) == [Some(s[0]), Some(s[1])];
  }
}

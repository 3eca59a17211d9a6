/** The Array methods the list code relies on, as functions on sequences:
    filter (Array.prototype.filter) and the two splice shapes used to move an
    element (splice(i, 1) and splice(i, 0, x)), plus JavaScript's full splice
    argument handling for the as-written drop handler. */
module Sequences {

  /** Array.prototype.filter: the elements for which keep holds, in their order. */
  function Filter<T(==)>(s: seq<T>, keep: T -> bool): (r: seq<T>)
    ensures |r| <= |s|
    ensures forall i :: 0 <= i < |r| ==> keep(r[i])
  {
    if s == [] then []
    else if keep(s[0]) then [s[0]] + Filter(s[1..], keep)
    else Filter(s[1..], keep)
  }

  /** r is obtained from s by deleting elements, keeping the order of the rest. */
  predicate IsSubsequence<T(==)>(r: seq<T>, s: seq<T>)
    decreases |s|
  {
    r == [] || (s != [] && ((r[0] == s[0] && IsSubsequence(r[1..], s[1..])) || IsSubsequence(r, s[1..])))
  }

  lemma {:induction false} SubsequenceReflexive<T>(s: seq<T>)
    ensures IsSubsequence(s, s)
  {
    if s != [] {
      SubsequenceReflexive(s[1..]);
    }
  }

  lemma {:induction false} SubsequenceMembers<T>(r: seq<T>, s: seq<T>)
    requires IsSubsequence(r, s)
    ensures forall x :: x in r ==> x in s
  {
    if r != [] {
      if r[0] == s[0] && IsSubsequence(r[1..], s[1..]) {
        SubsequenceMembers(r[1..], s[1..]);
        assert r == [r[0]] + r[1..];
      } else {
        SubsequenceMembers(r, s[1..]);
      }
    }
  }

  /** Filtering keeps the survivors in their original relative order. */
  lemma {:induction false} FilterIsSubsequence<T>(s: seq<T>, keep: T -> bool)
    ensures IsSubsequence(Filter(s, keep), s)
  {
    if s != [] {
      FilterIsSubsequence(s[1..], keep);
      if keep(s[0]) {
        assert ([s[0]] + Filter(s[1..], keep))[1..] == Filter(s[1..], keep);
      }
    }
  }

  /** Filtering keeps every occurrence of an element that satisfies keep and
      no occurrence of one that does not. */
  lemma {:induction false} FilterCounts<T>(s: seq<T>, keep: T -> bool)
    ensures forall x :: multiset(Filter(s, keep))[x] == if keep(x) then multiset(s)[x] else 0
  {
    if s != [] {
      FilterCounts(s[1..], keep);
      assert s == [s[0]] + s[1..];
      assert multiset(s) == multiset{s[0]} + multiset(s[1..]);
    }
  }

  /** When every element satisfies keep, filter returns its input. */
  lemma {:induction false} FilterKeepsAll<T>(s: seq<T>, keep: T -> bool)
    requires forall i :: 0 <= i < |s| ==> keep(s[i])
    ensures Filter(s, keep) == s
  {
    if s != [] {
      FilterKeepsAll(s[1..], keep);
      assert s == [s[0]] + s[1..];
    }
  }

  /** Filtering twice with the same test is filtering once. */
  lemma FilterIdempotent<T>(s: seq<T>, keep: T -> bool)
    ensures Filter(Filter(s, keep), keep) == Filter(s, keep)
  {
    FilterKeepsAll(Filter(s, keep), keep);
  }

  /** When no element satisfies keep, filter returns the empty sequence. */
  lemma {:induction false} FilterKeepsNone<T>(s: seq<T>, keep: T -> bool)
    requires forall i :: 0 <= i < |s| ==> !keep(s[i])
    ensures Filter(s, keep) == []
  {
    if s != [] {
      FilterKeepsNone(s[1..], keep);
    }
  }

  /** Filters with complementary tests split a sequence: their lengths add up to its length. */
  lemma {:induction false} FilterComplement<T>(s: seq<T>, keep: T -> bool, drop: T -> bool)
    requires forall x :: x in s ==> drop(x) == !keep(x)
    ensures |Filter(s, keep)| + |Filter(s, drop)| == |s|
  {
    if s != [] {
      FilterComplement(s[1..], keep, drop);
    }
  }

  /** A filter that rejects exactly one position removes that position. */
  lemma {:induction false} FilterDropsOne<T>(s: seq<T>, k: nat, keep: T -> bool)
    requires k < |s| && !keep(s[k])
    requires forall i :: 0 <= i < |s| && i != k ==> keep(s[i])
    ensures Filter(s, keep) == s[..k] + s[k + 1..]
  {
    var rest := s[1..];
    if k == 0 {
      assert forall i :: 0 <= i < |rest| ==> keep(rest[i]) by {
        forall i | 0 <= i < |rest| ensures keep(rest[i]) {
          assert rest[i] == s[i + 1];
        }
      }
      FilterKeepsAll(rest, keep);
    } else {
      assert forall i :: 0 <= i < |rest| && i != k - 1 ==> keep(rest[i]) by {
        forall i | 0 <= i < |rest| && i != k - 1 ensures keep(rest[i]) {
          assert rest[i] == s[i + 1];
        }
      }
      FilterDropsOne(rest, k - 1, keep);
      assert s[..k] == [s[0]] + rest[..k - 1];
      assert s[k + 1..] == rest[k..];
    }
  }

  /** s with the element at index i taken out: splice(i, 1). */
  function RemoveAt<T>(s: seq<T>, i: nat): (r: seq<T>)
    requires i < |s|
    ensures |r| == |s| - 1
    ensures forall k :: 0 <= k < |r| ==> r[k] == if k < i then s[k] else s[k + 1]
  {
    s[..i] + s[i + 1..]
  }

  /** s with x put in at index i, everything from i on shifted right: splice(i, 0, x). */
  function InsertAt<T>(s: seq<T>, i: nat, x: T): (r: seq<T>)
    requires i <= |s|
    ensures |r| == |s| + 1 && r[i] == x
    ensures RemoveAt(r, i) == s
  {
    var r := s[..i] + [x] + s[i..];
    assert RemoveAt(r, i) == s;
    r
  }

  /** Moving the element at from to position to: remove it, then reinsert it
      at to in the shortened sequence. The moved element lands at to, and
      apart from it the two sequences hold the same elements in the same order. */
  function Move<T>(s: seq<T>, from: nat, to: nat): (r: seq<T>)
    requires from < |s| && to < |s|
    ensures |r| == |s| && r[to] == s[from]
    ensures RemoveAt(r, to) == RemoveAt(s, from)
  {
    InsertAt(RemoveAt(s, from), to, s[from])
  }

  /** Where the element at position k after Move(s, from, to) came from:
      the moved element at to, the ones it passed over shifted by one
      towards from, the rest in place. */
  function MovedFrom(from: nat, to: nat, k: nat): nat {
    if k == to then from
    else if from < to && from <= k < to then k + 1
    else if to < k <= from then k - 1
    else k
  }

  /** Move agrees, position by position, with the shift description. */
  lemma MoveAt<T>(s: seq<T>, from: nat, to: nat, k: nat)
    requires from < |s| && to < |s| && k < |s|
    ensures MovedFrom(from, to, k) < |s|
    ensures Move(s, from, to)[k] == s[MovedFrom(from, to, k)]
  {
    var shorter := RemoveAt(s, from);
    var r := Move(s, from, to);
    if k < to {
      assert r[k] == shorter[k];
    } else if k > to {
      assert r[k] == shorter[k - 1];
    }
  }

  lemma RemoveAtCounts<T>(s: seq<T>, i: nat)
    requires i < |s|
    ensures multiset(RemoveAt(s, i)) + multiset{s[i]} == multiset(s)
  {
    assert s == s[..i] + [s[i]] + s[i + 1..];
    assert RemoveAt(s, i) == s[..i] + s[i + 1..];
  }

  lemma InsertAtCounts<T>(s: seq<T>, i: nat, x: T)
    requires i <= |s|
    ensures multiset(InsertAt(s, i, x)) == multiset(s) + multiset{x}
  {
    assert s == s[..i] + s[i..];
    assert InsertAt(s, i, x) == s[..i] + [x] + s[i..];
  }

  /** Move rearranges the elements without adding or losing any. */
  lemma MoveIsPermutation<T>(s: seq<T>, from: nat, to: nat)
    requires from < |s| && to < |s|
    ensures multiset(Move(s, from, to)) == multiset(s)
  {
    RemoveAtCounts(s, from);
    InsertAtCounts(RemoveAt(s, from), to, s[from]);
  }

  /** Moving back undoes a move. */
  lemma MoveInverse<T>(s: seq<T>, from: nat, to: nat)
    requires from < |s| && to < |s|
    ensures Move(Move(s, from, to), to, from) == s
  {
    var r := Move(s, from, to);
    assert s == InsertAt(RemoveAt(s, from), from, s[from]);
  }

  /** Moving an element onto its own position changes nothing. */
  lemma MoveInPlace<T>(s: seq<T>, i: nat)
    requires i < |s|
    ensures Move(s, i, i) == s
  {
    assert s == InsertAt(RemoveAt(s, i), i, s[i]);
  }

  /** The position Array.prototype.splice starts at for a given start argument
      (ECMA-262, section 23.1.3.31): a negative start counts back from the end
      and is clamped at 0, a start past the end is clamped to the length. */
  function SpliceStart(len: nat, start: int): (k: nat)
    ensures k <= len
    ensures 0 <= start <= len ==> k == start
    ensures start < 0 && len + start >= 0 ==> k == len + start
    ensures start > len ==> k == len
    ensures len + start < 0 ==> k == 0
  {
    if start < 0 then (if len + start < 0 then 0 else len + start)
    else if start > len then len
    else start
  }

  /** The number of elements splice removes: deleteCount clamped between 0 and
      what lies after the start. */
  function SpliceCount(len: nat, start: int, deleteCount: int): (d: nat)
    ensures d <= len - SpliceStart(len, start)
    ensures deleteCount <= 0 ==> d == 0
    ensures 0 <= deleteCount <= len - SpliceStart(len, start) ==> d == deleteCount
    ensures deleteCount > len - SpliceStart(len, start) ==> d == len - SpliceStart(len, start)
  {
    var k := SpliceStart(len, start);
    if deleteCount < 0 then 0 else if deleteCount > len - k then len - k else deleteCount
  }

  /** Array.prototype.splice(start, deleteCount, ...items) as a function of the
      array (ECMA-262, section 23.1.3.31): what lies before the start stays, the
      items take the place of the removed elements, and what lies after them
      follows unchanged. */
  function Splice<T>(s: seq<T>, start: int, deleteCount: int, items: seq<T>): (r: seq<T>)
    ensures var k := SpliceStart(|s|, start);
      var d := SpliceCount(|s|, start, deleteCount);
      |r| == |s| + |items| - d && r[..k] == s[..k] && r[k..k + |items|] == items
      && r[k + |items|..] == s[k + d..]
    ensures deleteCount <= 0 ==> |r| == |s| + |items| && r[SpliceStart(|s|, start) + |items|..] == s[SpliceStart(|s|, start)..]
  {
    var k := SpliceStart(|s|, start);
    s[..k] + items + s[k + SpliceCount(|s|, start, deleteCount)..]
  }

  /** For an index inside the array, splice(i, 1) is RemoveAt and splice(i, 0, x) is InsertAt. */
  lemma SpliceInRange<T>(s: seq<T>, i: int, x: T)
    ensures 0 <= i < |s| ==> Splice(s, i, 1, []) == RemoveAt(s, i)
    ensures 0 <= i <= |s| ==> Splice(s, i, 0, [x]) == InsertAt(s, i, x)
  {
  }

  /** splice(-1, 1) on a non-empty array removes its last element. */
  lemma SpliceMinusOne<T>(s: seq<T>)
    requires s != []
    ensures Splice(s, -1, 1, []) == s[..|s| - 1]
  {
  }
}

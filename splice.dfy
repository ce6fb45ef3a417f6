/** The array operations behind both drag-and-drop reorders: `indexOf`, `splice(i, 1)`,
    `splice(i, 0, x)`, and the move of one element built from the two splices. */
module Splice {

  /** `s.indexOf(x)`: the first index that holds `x`, or -1 when there is none. */
  function IndexOf<T(==)>(s: seq<T>, x: T): (i: int)
    ensures i == -1 <==> x !in s
    ensures i != -1 ==> 0 <= i < |s| && s[i] == x && x !in s[..i]
  {
    if s == [] then -1
    else if s[0] == x then 0
    else
      var j := IndexOf(s[1..], x);
      assert j != -1 ==> s[..j + 1] == [s[0]] + s[1..][..j];
      if j == -1 then -1 else j + 1
  }

  /** `splice(i, 1)` on a copy of `s`: the element at `i` is taken out and the
      elements after it close the gap. */
  function RemoveAt<T>(s: seq<T>, i: nat): (r: seq<T>)
    requires i < |s|
    ensures |r| == |s| - 1
    ensures forall k {:trigger r[k]} :: 0 <= k < i ==> r[k] == s[k]
    ensures forall k {:trigger r[k]} :: i <= k < |r| ==> r[k] == s[k + 1]
  {
    s[..i] + s[i + 1..]
  }

  /** `splice(i, 0, x)` on a copy of `s`: `x` lands at index `i` and the elements
      from `i` on move one place up; taking `x` out again gives `s` back. */
  function InsertAt<T>(s: seq<T>, i: nat, x: T): (r: seq<T>)
    requires i <= |s|
    ensures |r| == |s| + 1 && r[i] == x
    ensures RemoveAt(r, i) == s
  {
    var r := s[..i] + [x] + s[i..];
    assert r[..i] == s[..i] && r[i + 1..] == s[i..];
    assert s == s[..i] + s[i..];
    r
  }

  /** The two-splice reorder: take the element at `from` out, then put it back at `to`
      of the shortened sequence. */
  function Move<T>(s: seq<T>, from: nat, to: nat): (r: seq<T>)
    requires from < |s| && to < |s|
    ensures |r| == |s| && r[to] == s[from]
    ensures RemoveAt(r, to) == RemoveAt(s, from)
  {
    InsertAt(RemoveAt(s, from), to, s[from])
  }

  /** Dropping an element where it already is changes nothing. */
  lemma {:induction false} MoveInPlace<T>(s: seq<T>, i: nat)
    requires i < |s|
    ensures Move(s, i, i) == s
  {
    var r := Move(s, i, i);
    forall k | 0 <= k < |s|
      ensures r[k] == s[k]
    {
      if k < i {
        assert r[k] == RemoveAt(r, i)[k];
      } else if k > i {
        assert r[k] == RemoveAt(r, i)[k - 1];
      }
    }
  }

  /** A move to index 0 puts the element in front of the others; a move to the last
      index puts it behind them. */
  lemma {:induction false} MoveToEnds<T>(s: seq<T>, from: nat)
    requires from < |s|
    ensures Move(s, from, 0) == [s[from]] + RemoveAt(s, from)
    ensures Move(s, from, |s| - 1) == RemoveAt(s, from) + [s[from]]
  {
    var rest := RemoveAt(s, from);
    var front, back := Move(s, from, 0), Move(s, from, |s| - 1);
    assert front[1..] == RemoveAt(front, 0);
    assert back[..|s| - 1] == RemoveAt(back, |s| - 1);
    assert front == [front[0]] + front[1..];
    assert back == back[..|s| - 1] + [back[|s| - 1]];
  }

  /** Taking an element out and putting it back elsewhere permutes the sequence. */
  lemma {:induction false} MovePermutes<T>(s: seq<T>, from: nat, to: nat)
    requires from < |s| && to < |s|
    ensures multiset(Move(s, from, to)) == multiset(s)
  {
    var rest := RemoveAt(s, from);
    assert s == s[..from] + [s[from]] + s[from + 1..];
    assert multiset(s) == multiset(rest) + multiset{s[from]};
    var r := Move(s, from, to);
    assert r == rest[..to] + [s[from]] + rest[to..];
    assert rest == rest[..to] + rest[to..];
  }

  /** Moving the element back from `to` to `from` undoes the move. */
  lemma {:induction false} MoveInverse<T>(s: seq<T>, from: nat, to: nat)
    requires from < |s| && to < |s|
    ensures Move(Move(s, from, to), to, from) == s
  {
    var m := Move(s, from, to);
    var back := Move(m, to, from);
    var rest := RemoveAt(s, from);
    assert RemoveAt(back, from) == rest;
    assert back[from] == s[from];
    forall k | 0 <= k < |s|
      ensures back[k] == s[k]
    {
      if k < from {
        assert back[k] == RemoveAt(back, from)[k] && s[k] == rest[k];
      } else if k > from {
        assert back[k] == RemoveAt(back, from)[k - 1] && s[k] == rest[k - 1];
      }
    }
  }

  /** The element of a move at each index: the shortened sequence up to `to`, the
      moved element at `to`, and the shortened sequence shifted up by one after it. */
  lemma {:induction false} MoveAt<T>(s: seq<T>, from: nat, to: nat, k: nat)
    requires from < |s| && to < |s| && k < |s|
    ensures Move(s, from, to)[k] == if k < to then RemoveAt(s, from)[k]
                                    else if k == to then s[from]
                                    else RemoveAt(s, from)[k - 1]
  {
    var r := Move(s, from, to);
    if k < to {
      assert RemoveAt(r, to)[k] == r[k];
    } else if k > to {
      assert RemoveAt(r, to)[k - 1] == r[k];
    }
  }

  /** `a.splice(i, 1)` in place: the elements after `i` move one place down, closing
      the gap; the last slot keeps its old value. */
  method RemoveInPlace<T>(a: array<T>, i: nat)
    requires i < a.Length
    modifies a
    ensures a[..a.Length - 1] == RemoveAt(old(a[..]), i)
    ensures a[a.Length - 1] == old(a[a.Length - 1])
  {
    ghost var s := a[..];
    var k := i;
    while k < a.Length - 1
      invariant i <= k <= a.Length - 1
      invariant forall m :: 0 <= m < i ==> a[m] == s[m]
      invariant forall m :: i <= m < k ==> a[m] == s[m + 1]
      invariant forall m :: k <= m < a.Length ==> a[m] == s[m]
    {
      a[k] := a[k + 1];
      k := k + 1;
    }
  }

  /** `a.splice(to, 0, x)` in place on the first `a.Length - 1` slots: the elements
      from `to` on move one place up, and `x` fills the gap at `to`. */
  method InsertInPlace<T>(a: array<T>, to: nat, x: T)
    requires to < a.Length
    modifies a
    ensures a[..] == InsertAt(old(a[..a.Length - 1]), to, x)
  {
    ghost var t := a[..a.Length - 1];
    var k := a.Length - 1;
    while k > to
      invariant to <= k <= a.Length - 1
      invariant forall m :: 0 <= m < k ==> a[m] == t[m]
      invariant forall m :: k < m < a.Length ==> a[m] == t[m - 1]
    {
      a[k] := a[k - 1];
      k := k - 1;
    }
    a[to] := x;
    assert a[..] == t[..to] + [x] + t[to..];
  }

  /** The two splices run in place on an array (a copy the caller owns): the first
      takes the element at `from` out, the second puts it back at `to`. */
  method SpliceMove<T>(a: array<T>, from: nat, to: nat)
    requires from < a.Length && to < a.Length
    modifies a
    ensures a[..] == Move(old(a[..]), from, to)
  {
    var moved := a[from];
    RemoveInPlace(a, from);
    InsertInPlace(a, to, moved);
  }
}

/**
  The reorder step shared by rows and by a row's variants: take the element
  at one position out (`splice(from, 1)`) and put it back at another
  (`splice(to, 0, moved)`), and the `findIndex` lookup that turns an id
  into a position.
 */
module Reorder {

  /** `s` without the element at position `i`, as `splice(i, 1)` leaves it. */
  function Remove<T>(s: seq<T>, i: nat): (r: seq<T>)
    requires i < |s|
    ensures |r| == |s| - 1
    ensures forall k :: 0 <= k < |r| ==> r[k] == if k < i then s[k] else s[k + 1]
  {
    s[..i] + s[i + 1..]
  }

  /** `s` with `x` placed at position `j`, as `splice(j, 0, x)` leaves it. */
  function Insert<T>(s: seq<T>, j: nat, x: T): (r: seq<T>)
    requires j <= |s|
    ensures |r| == |s| + 1 && r[j] == x
    ensures forall k :: 0 <= k < |r| && k != j ==> r[k] == if k < j then s[k] else s[k - 1]
  {
    s[..j] + [x] + s[j..]
  }

  /** Move the element at `from` to position `to`. */
  function Move<T>(s: seq<T>, from: nat, to: nat): (r: seq<T>)
    requires from < |s| && to < |s|
    ensures |r| == |s| && r[to] == s[from]
  {
    Insert(Remove(s, from), to, s[from])
  }

  /** Position of the element of `s` that `Move(s, from, to)` puts at position `k`. */
  function MoveSource(from: nat, to: nat, k: nat): nat {
    if k == to then from
    else if from < to && from <= k < to then k + 1
    else if to < from && to < k <= from then k - 1
    else k
  }

  /** Index-wise description of a move: every position is filled from exactly one source position. */
  lemma MoveAt<T>(s: seq<T>, from: nat, to: nat)
    requires from < |s| && to < |s|
    ensures |Move(s, from, to)| == |s|
    ensures forall k :: 0 <= k < |s| ==> MoveSource(from, to, k) < |s| && Move(s, from, to)[k] == s[MoveSource(from, to, k)]
    ensures forall k, l :: 0 <= k < l < |s| ==> MoveSource(from, to, k) != MoveSource(from, to, l)
  {
  }

  /** The moved element lands at `to`, and the others keep their relative order. */
  lemma MovePlacesAndKeepsOrder<T>(s: seq<T>, from: nat, to: nat)
    requires from < |s| && to < |s|
    ensures |Move(s, from, to)| == |s|
    ensures Move(s, from, to)[to] == s[from]
    ensures Remove(Move(s, from, to), to) == Remove(s, from)
  {
    var r := Move(s, from, to);
    assert Remove(r, to) == Remove(s, from) by {
      assert forall k :: 0 <= k < |s| - 1 ==> Remove(r, to)[k] == Remove(s, from)[k];
    }
  }

  /** A move never changes which elements there are, only their order. */
  lemma MovePermutes<T>(s: seq<T>, from: nat, to: nat)
    requires from < |s| && to < |s|
    ensures multiset(Move(s, from, to)) == multiset(s)
  {
    var x, rest := s[from], Remove(s, from);
    calc {
      multiset(s);
      { assert s == s[..from] + [x] + s[from + 1..]; }
      multiset(s[..from]) + multiset{x} + multiset(s[from + 1..]);
      multiset(rest) + multiset{x};
      { assert rest == rest[..to] + rest[to..]; }
      multiset(rest[..to]) + multiset{x} + multiset(rest[to..]);
      multiset(rest[..to] + [x] + rest[to..]);
      multiset(Move(s, from, to));
    }
  }

  /** Moving an element onto its own position changes nothing. */
  lemma MoveIdentity<T>(s: seq<T>, i: nat)
    requires i < |s|
    ensures Move(s, i, i) == s
  {
    assert forall k :: 0 <= k < |s| ==> Move(s, i, i)[k] == s[k];
  }

  /** A move keeps keys distinct when they were distinct before. */
  lemma MoveKeepsDistinct<T, K>(s: seq<T>, from: nat, to: nat, key: T -> K)
    requires from < |s| && to < |s|
    requires forall i, j :: 0 <= i < j < |s| ==> key(s[i]) != key(s[j])
    ensures forall i, j :: 0 <= i < j < |s| ==> key(Move(s, from, to)[i]) != key(Move(s, from, to)[j])
  {
    MoveAt(s, from, to);
    var r := Move(s, from, to);
    forall i, j | 0 <= i < j < |s|
      ensures key(r[i]) != key(r[j])
    {
      var a, b := MoveSource(from, to, i), MoveSource(from, to, j);
      assert a != b;
      if a < b { assert key(s[a]) != key(s[b]); } else { assert key(s[b]) != key(s[a]); }
    }
  }

  /**
    `findIndex` over a list of keys: the first position holding `k`, or -1
    when there is none.
   */
  function IndexOf<K(==)>(keys: seq<K>, k: K): (r: int)
    ensures -1 <= r < |keys|
    ensures 0 <= r ==> keys[r] == k && forall i :: 0 <= i < r ==> keys[i] != k
    ensures r == -1 <==> forall i :: 0 <= i < |keys| ==> keys[i] != k
  {
    if keys == [] then -1
    else if keys[0] == k then 0
    else
      var r := IndexOf(keys[1..], k);
      if r == -1 then -1 else r + 1
  }

  /** The rows are given as ids a, b, c; dragging c onto a gives c, a, b. */
  lemma MoveLastToFront()
    ensures Move(['a', 'b', 'c'], 2, 0) == ['c', 'a', 'b']
  {
  }
}

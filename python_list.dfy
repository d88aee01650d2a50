/**
 * The parts of Python's list semantics that the note store relies on:
 * subscripting with a possibly negative index, `pop(i)`, and slicing
 * `s[first:last]` with optional, possibly negative, out-of-range bounds.
 */
module PythonList {
  import opened Wrappers

  /** `s[i]` does not raise IndexError exactly when `-len(s) <= i < len(s)`. */
  predicate InRange(i: int, n: nat)
  {
    -(n as int) <= i < n
  }

  /** The position that an accepted index addresses: negative indices count from the end. */
  function Normalize(i: int, n: nat): (p: nat)
    requires InRange(i, n)
    ensures p < n
    ensures 0 <= i ==> p == i
    ensures i < 0 ==> n - p == -i
  {
    if i < 0 then n + i else i
  }

  /** Every position of the list is reached by exactly two indices: itself and itself minus the length. */
  lemma NormalizeOnto(p: nat, n: nat)
    requires p < n
    ensures InRange(p, n) && Normalize(p, n) == p
    ensures InRange(p - n, n) && Normalize(p - n, n) == p
    ensures forall i :: InRange(i, n) && Normalize(i, n) == p ==> i == p || i == p - n
  {
  }

  /** The list left behind by `s.pop(p)`: the element at `p` is gone and every later one moves down. */
  function RemoveAt<T>(s: seq<T>, p: nat): (r: seq<T>)
    requires p < |s|
    ensures |r| == |s| - 1
    ensures forall k :: 0 <= k < p ==> r[k] == s[k]
    ensures forall k :: p <= k < |r| ==> r[k] == s[k + 1]
  {
    s[..p] + s[p + 1..]
  }

  /** Removing an element takes exactly that element out of the multiset of elements. */
  lemma RemoveAtMultiset<T>(s: seq<T>, p: nat)
    requires p < |s|
    ensures multiset(RemoveAt(s, p)) + multiset{s[p]} == multiset(s)
  {
    assert s == s[..p] + [s[p]] + s[p + 1..];
  }

  /** One bound of a slice, resolved as CPython resolves it for step 1. */
  function SliceBound(b: Option<int>, default: nat, n: nat): (r: nat)
    requires default <= n
    ensures r <= n
    ensures b.None? ==> r == default
    ensures b.Some? && 0 <= b.value <= n ==> r == b.value
    ensures b.Some? && -(n as int) <= b.value < 0 ==> r == n + b.value
    ensures b.Some? && n < b.value ==> r == n
    ensures b.Some? && b.value < -(n as int) ==> r == 0
  {
    match b
    case None => default
    case Some(v) =>
      if v < 0 then (if v + n < 0 then 0 else v + n)
      else if v > n then n
      else v
  }

  /** `s[first:last]`: a contiguous run of `s`, empty when the resolved start is not before the resolved stop. */
  function Slice<T>(s: seq<T>, first: Option<int>, last: Option<int>): (r: seq<T>)
    ensures |r| <= |s|
    ensures var lo, hi := SliceBound(first, 0, |s|), SliceBound(last, |s|, |s|);
      |r| == (if lo < hi then hi - lo else 0) &&
      forall k :: 0 <= k < |r| ==> r[k] == s[lo + k]
  {
    var lo, hi := SliceBound(first, 0, |s|), SliceBound(last, |s|, |s|);
    if lo < hi then s[lo..hi] else []
  }

  /** Without bounds a slice is a copy of the whole list. */
  lemma SliceAll<T>(s: seq<T>)
    ensures Slice(s, None, None) == s
  {
  }

  /** Page bounds that lie inside the list select exactly the positions from `first` up to, not including, `last`. */
  lemma SliceWithin<T>(s: seq<T>, first: nat, last: nat)
    requires first <= last <= |s|
    ensures Slice(s, Some(first), Some(last)) == s[first..last]
  {
  }

  /** Python's identity `s[:k] + s[k:] == s`, for every integer `k`. */
  lemma SliceSplit<T>(s: seq<T>, k: int)
    ensures Slice(s, None, Some(k)) + Slice(s, Some(k), None) == s
  {
    var b := SliceBound(Some(k), 0, |s|);
    assert SliceBound(Some(k), |s|, |s|) == b;
    assert s == s[..b] + s[b..];
  }
}

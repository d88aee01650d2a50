/**
 * `list.sort(key=lambda x: x[sortkey], reverse=reversesort)` on a listing of
 * note responses. Python compares strings code point by code point; its sort
 * is stable, and with `reverse=True` it still keeps notes with equal keys in
 * their original order. The sort is modelled as a stable insertion sort whose
 * result is proved ordered, a permutation of its input, and stable.
 */
module Sorting {
  import opened Wrappers
  import opened Models

  /** Python's `a <= b` on strings: lexicographic by code point, a prefix before its extensions. */
  predicate LexLe(a: string, b: string)
    ensures a <= b ==> LexLe(a, b)
    ensures b < a ==> !LexLe(a, b)
  {
    a == [] || (b != [] && (a[0] < b[0] || (a[0] == b[0] && LexLe(a[1..], b[1..]))))
  }

  lemma {:induction false} LexLeReflexive(a: string)
    ensures LexLe(a, a)
  {
    if a != [] {
      LexLeReflexive(a[1..]);
    }
  }

  lemma {:induction false} LexLeTotal(a: string, b: string)
    ensures LexLe(a, b) || LexLe(b, a)
  {
    if a != [] && b != [] && a[0] == b[0] {
      LexLeTotal(a[1..], b[1..]);
    }
  }

  lemma {:induction false} LexLeTransitive(a: string, b: string, c: string)
    requires LexLe(a, b) && LexLe(b, c)
    ensures LexLe(a, c)
  {
    if a != [] && b != [] && c != [] && a[0] == b[0] && b[0] == c[0] {
      LexLeTransitive(a[1..], b[1..], c[1..]);
    }
  }

  lemma {:induction false} LexLeAntisymmetric(a: string, b: string)
    requires LexLe(a, b) && LexLe(b, a)
    ensures a == b
  {
    if a != [] && b != [] {
      LexLeAntisymmetric(a[1..], b[1..]);
      assert a == [a[0]] + a[1..] && b == [b[0]] + b[1..];
    }
  }

  /** `a` may precede `b` in a listing sorted by `key`, ascending or, with `reverse`, descending. */
  predicate Le(a: NoteResponse, b: NoteResponse, key: SortKey, reverse: bool)
  {
    if reverse then LexLe(KeyOf(b, key), KeyOf(a, key)) else LexLe(KeyOf(a, key), KeyOf(b, key))
  }

  lemma LeTotal(a: NoteResponse, b: NoteResponse, key: SortKey, reverse: bool)
    ensures Le(a, b, key, reverse) || Le(b, a, key, reverse)
  {
    LexLeTotal(KeyOf(a, key), KeyOf(b, key));
  }

  lemma LeTransitive(a: NoteResponse, b: NoteResponse, c: NoteResponse, key: SortKey, reverse: bool)
    requires Le(a, b, key, reverse) && Le(b, c, key, reverse)
    ensures Le(a, c, key, reverse)
  {
    if reverse {
      LexLeTransitive(KeyOf(c, key), KeyOf(b, key), KeyOf(a, key));
    } else {
      LexLeTransitive(KeyOf(a, key), KeyOf(b, key), KeyOf(c, key));
    }
  }

  /** Notes with equal keys may stand in either order. */
  lemma LeEqualKeys(a: NoteResponse, b: NoteResponse, key: SortKey, reverse: bool)
    requires KeyOf(a, key) == KeyOf(b, key)
    ensures Le(a, b, key, reverse) && Le(b, a, key, reverse)
  {
    LexLeReflexive(KeyOf(a, key));
  }

  /** Non-decreasing by `key`, or non-increasing with `reverse`. */
  ghost predicate Sorted(s: seq<NoteResponse>, key: SortKey, reverse: bool)
  {
    forall i, j :: 0 <= i < j < |s| ==> Le(s[i], s[j], key, reverse)
  }

  /** The notes of `s` whose `key` field is `c`, in their order in `s`. */
  function ByKey(s: seq<NoteResponse>, key: SortKey, c: string): seq<NoteResponse>
  {
    if s == [] then []
    else (if KeyOf(s[0], key) == c then [s[0]] else []) + ByKey(s[1..], key, c)
  }

  lemma {:induction false} ByKeyConcat(a: seq<NoteResponse>, b: seq<NoteResponse>, key: SortKey, c: string)
    ensures ByKey(a + b, key, c) == ByKey(a, key, c) + ByKey(b, key, c)
  {
    if a != [] {
      var ab := a + b;
      var h := if KeyOf(a[0], key) == c then [a[0]] else [];
      assert ab[0] == a[0] && ab[1..] == a[1..] + b;
      ByKeyConcat(a[1..], b, key, c);
      calc {
        ByKey(ab, key, c);
        h + ByKey(a[1..] + b, key, c);
        h + (ByKey(a[1..], key, c) + ByKey(b, key, c));
        (h + ByKey(a[1..], key, c)) + ByKey(b, key, c);
      }
    } else {
      assert a + b == b;
    }
  }

  lemma {:induction false} ByKeyNone(s: seq<NoteResponse>, key: SortKey, c: string)
    requires forall j :: 0 <= j < |s| ==> KeyOf(s[j], key) != c
    ensures ByKey(s, key, c) == []
  {
    if s != [] {
      ByKeyNone(s[1..], key, c);
    }
  }

  /** Every note `ByKey` keeps comes from `s` and carries the key value `c`. */
  lemma {:induction false} ByKeyMembers(s: seq<NoteResponse>, key: SortKey, c: string)
    ensures forall x :: x in ByKey(s, key, c) ==> x in s && KeyOf(x, key) == c
  {
    if s != [] {
      ByKeyMembers(s[1..], key, c);
    }
  }

  /**
   * A note of `s` with key value `c` stands in `ByKey(s, key, c)` right after
   * the notes of that key value that precede it in `s`.
   */
  lemma ByKeyAt(s: seq<NoteResponse>, key: SortKey, c: string, j: nat)
    requires j < |s| && KeyOf(s[j], key) == c
    ensures |ByKey(s[..j], key, c)| < |ByKey(s, key, c)|
    ensures ByKey(s, key, c)[|ByKey(s[..j], key, c)|] == s[j]
  {
    assert s == s[..j] + s[j..];
    ByKeyConcat(s[..j], s[j..], key, c);
    assert s[j..][0] == s[j];
  }

  /** An earlier note of key value `c` has fewer notes of that key value before it. */
  lemma ByKeyPrefixGrows(s: seq<NoteResponse>, key: SortKey, c: string, i: nat, j: nat)
    requires i < j <= |s| && KeyOf(s[i], key) == c
    ensures |ByKey(s[..i], key, c)| < |ByKey(s[..j], key, c)|
  {
    assert s[..j] == s[..i] + s[i..j];
    ByKeyConcat(s[..i], s[i..j], key, c);
    assert s[i..j][0] == s[i];
  }

  /** Both notes carry an index, and the first one's is smaller. */
  predicate IndexBefore(a: NoteResponse, b: NoteResponse)
  {
    a.index.Some? && b.index.Some? && a.index.value < b.index.value
  }

  /** The indices strictly increase along the list. */
  ghost predicate IndicesIncrease(s: seq<NoteResponse>)
  {
    forall i, j :: 0 <= i < j < |s| ==> IndexBefore(s[i], s[j])
  }

  /** Keeping only the notes of one key value keeps increasing indices increasing. */
  lemma {:induction false} ByKeyIndicesIncrease(s: seq<NoteResponse>, key: SortKey, c: string)
    requires IndicesIncrease(s)
    ensures IndicesIncrease(ByKey(s, key, c))
  {
    if s != [] {
      var tail := ByKey(s[1..], key, c);
      assert IndicesIncrease(s[1..]) by {
        forall i, j | 0 <= i < j < |s[1..]|
          ensures IndexBefore(s[1..][i], s[1..][j])
        {
          assert s[1..][i] == s[i + 1] && s[1..][j] == s[j + 1];
        }
      }
      ByKeyIndicesIncrease(s[1..], key, c);
      if KeyOf(s[0], key) == c {
        ByKeyMembers(s[1..], key, c);
        forall x | x in tail ensures IndexBefore(s[0], x) {
          var k :| 0 <= k < |s[1..]| && s[1..][k] == x;
          assert x == s[k + 1];
        }
        ConsIndicesIncrease(s[0], tail);
        assert ByKey(s, key, c) == [s[0]] + tail;
      } else {
        assert ByKey(s, key, c) == tail;
      }
    }
  }

  /** A note whose index is below every index of a list with increasing indices can be put in front of it. */
  lemma ConsIndicesIncrease(h: NoteResponse, t: seq<NoteResponse>)
    requires IndicesIncrease(t)
    requires forall x :: x in t ==> IndexBefore(h, x)
    ensures IndicesIncrease([h] + t)
  {
    var b := [h] + t;
    forall i, j | 0 <= i < j < |b| ensures IndexBefore(b[i], b[j]) {
      assert b[j] == t[j - 1] && b[j] in t;
      if i == 0 {
        assert b[i] == h;
      } else {
        assert b[i] == t[i - 1];
      }
    }
    assert IndicesIncrease(b);
  }

  /**
   * In a list whose indices increase, a stable sort puts notes with equal
   * keys in increasing index order, whichever the direction.
   */
  lemma SortByTiesByIndex(s: seq<NoteResponse>, key: SortKey, reverse: bool)
    requires IndicesIncrease(s)
    ensures var r := SortBy(s, key, reverse);
      forall i, j :: 0 <= i < j < |r| && KeyOf(r[i], key) == KeyOf(r[j], key) ==>
        IndexBefore(r[i], r[j])
  {
    var r := SortBy(s, key, reverse);
    forall i, j | 0 <= i < j < |r| && KeyOf(r[i], key) == KeyOf(r[j], key)
      ensures IndexBefore(r[i], r[j])
    {
      var c := KeyOf(r[i], key);
      ByKeyAt(r, key, c, i);
      ByKeyAt(r, key, c, j);
      ByKeyPrefixGrows(r, key, c, i, j);
      ByKeyIndicesIncrease(s, key, c);
      var i', j' := |ByKey(r[..i], key, c)|, |ByKey(r[..j], key, c)|;
      assert ByKey(r, key, c)[i'] == r[i] && ByKey(r, key, c)[j'] == r[j];
    }
  }

  /**
   * Inserts `x` into the sorted `t` after every note it may follow, so that
   * `x` lands after the notes whose key equals its own.
   */
  function Insert(t: seq<NoteResponse>, x: NoteResponse, key: SortKey, reverse: bool): (r: seq<NoteResponse>)
    requires Sorted(t, key, reverse)
    ensures Sorted(r, key, reverse)
    ensures multiset(r) == multiset(t) + multiset{x}
    ensures forall c :: ByKey(r, key, c) == ByKey(t, key, c) + ByKey([x], key, c)
  {
    if t == [] then
      [x]
    else if !Le(t[0], x, key, reverse) then
      InsertFirst(t, x, key, reverse);
      [x] + t
    else
      var rest := Insert(t[1..], x, key, reverse);
      HeadPrecedes(t, x, rest, key, reverse);
      ConsSorted(t[0], rest, key, reverse);
      ByKeyAfterHead(t, x, rest, key);
      assert [t[0]] + t[1..] == t;
      [t[0]] + rest
  }

  /** When `x` may not follow the head of `t`, it precedes all of `t` and shares its key with none of it. */
  lemma InsertFirst(t: seq<NoteResponse>, x: NoteResponse, key: SortKey, reverse: bool)
    requires Sorted(t, key, reverse) && t != [] && !Le(t[0], x, key, reverse)
    ensures Sorted([x] + t, key, reverse)
    ensures forall c :: ByKey([x] + t, key, c) == ByKey(t, key, c) + ByKey([x], key, c)
  {
    LeTotal(t[0], x, key, reverse);
    forall j | 0 <= j < |t| ensures Le(x, t[j], key, reverse) && !Le(t[j], x, key, reverse) {
      if j > 0 {
        LeTransitive(x, t[0], t[j], key, reverse);
        if Le(t[j], x, key, reverse) {
          LeTransitive(t[0], t[j], x, key, reverse);
        }
      }
    }
    forall j | 0 <= j < |t| ensures KeyOf(t[j], key) != KeyOf(x, key) {
      if KeyOf(t[j], key) == KeyOf(x, key) {
        LeEqualKeys(t[j], x, key, reverse);
      }
    }
    var r := [x] + t;
    forall i, j | 0 <= i < j < |r| ensures Le(r[i], r[j], key, reverse) {
      if i > 0 {
        assert r[i] == t[i - 1] && r[j] == t[j - 1];
      }
    }
    forall c ensures ByKey(r, key, c) == ByKey(t, key, c) + ByKey([x], key, c) {
      ByKeyConcat([x], t, key, c);
      if KeyOf(x, key) == c {
        ByKeyNone(t, key, c);
      }
    }
  }

  /** The head of a sorted `t` may precede `x` and every other element of `t`, so it may precede all of `rest`. */
  lemma HeadPrecedes(t: seq<NoteResponse>, x: NoteResponse, rest: seq<NoteResponse>, key: SortKey, reverse: bool)
    requires Sorted(t, key, reverse) && t != [] && Le(t[0], x, key, reverse)
    requires multiset(rest) == multiset(t[1..]) + multiset{x}
    ensures forall j :: 0 <= j < |rest| ==> Le(t[0], rest[j], key, reverse)
  {
    forall j | 0 <= j < |rest| ensures Le(t[0], rest[j], key, reverse) {
      assert rest[j] in multiset(rest);
      if rest[j] != x {
        assert rest[j] in multiset(t[1..]);
        var k :| 0 <= k < |t[1..]| && t[1..][k] == rest[j];
        assert t[k + 1] == rest[j];
      }
    }
  }

  /** Putting the head of `t` back in front of `rest` keeps, for every key value, the order of `t` followed by `x`. */
  lemma ByKeyAfterHead(t: seq<NoteResponse>, x: NoteResponse, rest: seq<NoteResponse>, key: SortKey)
    requires t != []
    requires forall c :: ByKey(rest, key, c) == ByKey(t[1..], key, c) + ByKey([x], key, c)
    ensures forall c :: ByKey([t[0]] + rest, key, c) == ByKey(t, key, c) + ByKey([x], key, c)
  {
    assert [t[0]] + t[1..] == t;
    forall c ensures ByKey([t[0]] + rest, key, c) == ByKey(t, key, c) + ByKey([x], key, c) {
      var h := ByKey([t[0]], key, c);
      ByKeyConcat([t[0]], rest, key, c);
      ByKeyConcat([t[0]], t[1..], key, c);
      calc {
        ByKey([t[0]] + rest, key, c);
        h + ByKey(rest, key, c);
        h + (ByKey(t[1..], key, c) + ByKey([x], key, c));
        (h + ByKey(t[1..], key, c)) + ByKey([x], key, c);
        ByKey(t, key, c) + ByKey([x], key, c);
      }
    }
  }

  /** A note that may precede every note of a sorted list can be put in front of it. */
  lemma ConsSorted(h: NoteResponse, s: seq<NoteResponse>, key: SortKey, reverse: bool)
    requires Sorted(s, key, reverse)
    requires forall j :: 0 <= j < |s| ==> Le(h, s[j], key, reverse)
    ensures Sorted([h] + s, key, reverse)
  {
    var r := [h] + s;
    forall i, j | 0 <= i < j < |r| ensures Le(r[i], r[j], key, reverse) {
      if i == 0 {
        assert r[j] == s[j - 1];
      } else {
        assert r[i] == s[i - 1] && r[j] == s[j - 1];
      }
    }
  }

  /**
   * The sorted listing: ordered by `key` (descending with `reverse`), a
   * permutation of `s`, and stable, that is, for every key value the notes
   * carrying it appear in the same order as in `s`.
   */
  function SortBy(s: seq<NoteResponse>, key: SortKey, reverse: bool): (r: seq<NoteResponse>)
    ensures Sorted(r, key, reverse)
    ensures multiset(r) == multiset(s)
    ensures forall c :: ByKey(r, key, c) == ByKey(s, key, c)
    decreases |s|
  {
    if s == [] then []
    else
      var init, last := s[..|s| - 1], s[|s| - 1];
      assert s == init + [last];
      var sorted := SortBy(init, key, reverse);
      var r := Insert(sorted, last, key, reverse);
      assert forall c :: ByKey(s, key, c) == ByKey(init, key, c) + ByKey([last], key, c) by {
        forall c { ByKeyConcat(init, [last], key, c); }
      }
      r
  }

  /**
   * Two notes with the same title keep their store order whether the sort is
   * ascending or descending, so a descending sort is not the reverse of an
   * ascending one when keys tie.
   */
  lemma TiesKeepOrderInBothDirections()
    ensures var a, b := NoteResponse("A", "x", None, None), NoteResponse("A", "y", None, None);
      SortBy([a, b], Title, false) == [a, b] && SortBy([a, b], Title, true) == [a, b]
  {
    var a, b := NoteResponse("A", "x", None, None), NoteResponse("A", "y", None, None);
    LexLeReflexive("A");
    assert [a, b][..1] == [a];
    assert [a][..0] == [];
  }
}

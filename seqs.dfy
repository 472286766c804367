/** Sequence operations the DOM model is built from: `Array.prototype.filter`
    and the facts about it that the queries rely on. */
module Seqs {
  import opened Wrappers

  /** The elements of `s` that satisfy `f`, in their order in `s`
      (`Array.prototype.filter` with a callback that reads only the element). */
  function Filter<T>(f: T -> bool, s: seq<T>): (r: seq<T>)
    ensures |r| <= |s|
    ensures forall k :: 0 <= k < |r| ==> r[k] in s && f(r[k])
    ensures forall k :: 0 <= k < |s| && f(s[k]) ==> s[k] in r
    decreases |s|
  {
    if s == [] then []
    else
      assert s == [s[0]] + s[1..];
      if f(s[0]) then [s[0]] + Filter(f, s[1..]) else Filter(f, s[1..])
  }

  /** Nothing is kept when nothing satisfies the test. */
  lemma {:induction false} FilterNone<T>(f: T -> bool, s: seq<T>)
    requires forall k :: 0 <= k < |s| ==> !f(s[k])
    ensures Filter(f, s) == []
    decreases |s|
  {
    if s != [] {
      FilterNone(f, s[1..]);
    }
  }

  /** The positions, from `i` on, of the elements of `s` that `f` accepts:
      the positions of what `Filter` keeps. */
  function KeptIndices<T>(f: T -> bool, s: seq<T>, i: nat): seq<nat>
    requires i <= |s|
    decreases |s| - i
  {
    if i == |s| then []
    else if f(s[i]) then [i] + KeptIndices(f, s, i + 1)
    else KeptIndices(f, s, i + 1)
  }

  /** Positions in `[lo, hi)`, strictly increasing. */
  predicate Ascending(idx: seq<nat>, lo: nat, hi: nat)
  {
    (forall a :: 0 <= a < |idx| ==> lo <= idx[a] < hi) &&
    (forall a, b :: 0 <= a < b < |idx| ==> idx[a] < idx[b])
  }

  /** `r` is what `s` holds at the positions `idx`, in that order. */
  ghost predicate Picks<T>(r: seq<T>, s: seq<T>, idx: seq<nat>)
  {
    |idx| == |r| && forall a :: 0 <= a < |idx| ==> idx[a] < |s| && r[a] == s[idx[a]]
  }

  /** The kept positions lie in `[i, |s|)` and increase strictly. */
  lemma {:induction false} KeptIndicesAscending<T>(f: T -> bool, s: seq<T>, i: nat)
    requires i <= |s|
    ensures Ascending(KeptIndices(f, s, i), i, |s|)
    decreases |s| - i
  {
    if i < |s| {
      KeptIndicesAscending(f, s, i + 1);
      var rest := KeptIndices(f, s, i + 1);
      if f(s[i]) {
        var idx := [i] + rest;
        assert forall a :: 1 <= a < |idx| ==> idx[a] == rest[a - 1];
        assert Ascending(idx, i, |s|);
      } else {
        assert Ascending(rest, i, |s|);
      }
    }
  }

  /** The kept positions are exactly the positions from `i` on whose element
      `f` accepts. */
  lemma {:induction false} KeptIndicesExactly<T>(f: T -> bool, s: seq<T>, i: nat)
    requires i <= |s|
    ensures forall k :: i <= k < |s| ==> (f(s[k]) <==> k in KeptIndices(f, s, i))
    decreases |s| - i
  {
    if i < |s| {
      KeptIndicesExactly(f, s, i + 1);
      KeptIndicesAscending(f, s, i + 1);
      var rest := KeptIndices(f, s, i + 1);
      assert Ascending(rest, i + 1, |s|);
      assert i !in rest;
      if f(s[i]) {
        assert KeptIndices(f, s, i) == [i] + rest;
      } else {
        assert KeptIndices(f, s, i) == rest;
      }
    }
  }

  /** `Filter` of the suffix from `i` holds, in order, the elements at `KeptIndices`. */
  lemma {:induction false} FilterAtKeptIndices<T>(f: T -> bool, s: seq<T>, i: nat)
    requires i <= |s|
    ensures Picks(Filter(f, s[i..]), s, KeptIndices(f, s, i))
    decreases |s| - i
  {
    if i < |s| {
      FilterAtKeptIndices(f, s, i + 1);
      var idx', r' := KeptIndices(f, s, i + 1), Filter(f, s[i + 1..]);
      assert Picks(r', s, idx');
      assert s[i..][0] == s[i] && s[i..][1..] == s[i + 1..];
      if f(s[i]) {
        var idx, r := [i] + idx', [s[i]] + r';
        assert Filter(f, s[i..]) == r && KeptIndices(f, s, i) == idx;
        assert forall a :: 1 <= a < |idx| ==> idx[a] == idx'[a - 1] && r[a] == r'[a - 1];
        assert Picks(r, s, idx);
      } else {
        assert Filter(f, s[i..]) == r' && KeptIndices(f, s, i) == idx';
      }
    }
  }

  /** `Filter(f, s)` is exactly the subsequence of `s` at `KeptIndices(f, s, 0)`:
      the positions are strictly increasing, each holds the kept element, and
      they are exactly the positions whose element satisfies `f`. So every
      accepted element appears once, in its order in `s`, and nothing else
      appears. */
  lemma FilterIsSubsequence<T>(f: T -> bool, s: seq<T>)
    ensures Picks(Filter(f, s), s, KeptIndices(f, s, 0))
    ensures Ascending(KeptIndices(f, s, 0), 0, |s|)
    ensures forall k :: 0 <= k < |s| ==> (f(s[k]) <==> k in KeptIndices(f, s, 0))
  {
    FilterAtKeptIndices(f, s, 0);
    KeptIndicesAscending(f, s, 0);
    KeptIndicesExactly(f, s, 0);
    assert s[0..] == s;
  }

  /** Filtering keeps any order the input is in: if every earlier element of
      `s` is related to every later one, so is every earlier element of the
      result to every later one. */
  lemma FilterKeepsPairwise<T>(f: T -> bool, s: seq<T>, lt: (T, T) -> bool)
    requires Pairwise(lt, s)
    ensures Pairwise(lt, Filter(f, s))
  {
    FilterIsSubsequence(f, s);
    var r, idx := Filter(f, s), KeptIndices(f, s, 0);
    assert Picks(r, s, idx) && Ascending(idx, 0, |s|);
    forall a, b | 0 <= a < b < |r|
      ensures lt(r[a], r[b])
    {
      assert r[a] == s[idx[a]] && r[b] == s[idx[b]] && idx[a] < idx[b];
    }
  }

  /** Every earlier element of `s` is related by `lt` to every later one. */
  predicate Pairwise<T>(lt: (T, T) -> bool, s: seq<T>)
  {
    forall a, b :: 0 <= a < b < |s| ==> lt(s[a], s[b])
  }

  /** The last element of `s` that satisfies `f`, if any. */
  function LastWhere<T>(f: T -> bool, s: seq<T>): Option<T>
    decreases |s|
  {
    if s == [] then None
    else if f(s[|s| - 1]) then Some(s[|s| - 1])
    else LastWhere(f, s[..|s| - 1])
  }

  /** One more element either becomes the last match or leaves it as it was. */
  lemma LastWhereStep<T>(f: T -> bool, s: seq<T>, i: nat)
    requires i < |s|
    ensures LastWhere(f, s[..i + 1]) == if f(s[i]) then Some(s[i]) else LastWhere(f, s[..i])
  {
    assert s[..i + 1][..i] == s[..i];
  }

  /** `LastWhere` is `None` exactly when nothing satisfies `f`; otherwise it is
      an element satisfying `f` after which nothing does. */
  lemma LastWhereIsLast<T>(f: T -> bool, s: seq<T>)
    ensures LastWhere(f, s).None? <==> forall k :: 0 <= k < |s| ==> !f(s[k])
    ensures LastWhere(f, s).Some? ==>
      exists k :: 0 <= k < |s| && s[k] == LastWhere(f, s).value && f(s[k]) &&
        (forall j :: k < j < |s| ==> !f(s[j]))
  {
    LastWhereNone(f, s);
    if LastWhere(f, s).Some? {
      LastWhereSome(f, s);
    }
  }

  /** `LastWhere` is `None` exactly when nothing satisfies `f`. */
  lemma {:induction false} LastWhereNone<T>(f: T -> bool, s: seq<T>)
    ensures LastWhere(f, s).None? <==> forall k :: 0 <= k < |s| ==> !f(s[k])
    decreases |s|
  {
    if s != [] {
      var n := |s| - 1;
      var front := s[..n];
      if !f(s[n]) {
        LastWhereNone(f, front);
        assert forall j :: 0 <= j < n ==> front[j] == s[j];
      }
    }
  }

  /** A found element satisfies `f`, and nothing after it does. */
  lemma {:induction false} LastWhereSome<T>(f: T -> bool, s: seq<T>)
    requires LastWhere(f, s).Some?
    ensures exists k :: (0 <= k < |s| && s[k] == LastWhere(f, s).value && f(s[k]) &&
      (forall j :: k < j < |s| ==> !f(s[j])))
    decreases |s|
  {
    var n := |s| - 1;
    if f(s[n]) {
      assert s[n] == LastWhere(f, s).value;
    } else {
      var front := s[..n];
      LastWhereSome(f, front);
      var k :| 0 <= k < |front| && front[k] == LastWhere(f, front).value && f(front[k]) &&
        (forall j :: k < j < |front| ==> !f(front[j]));
      assert forall j :: k < j < n ==> front[j] == s[j];
      assert s[k] == front[k];
    }
  }

  /** When `lt` only ever relates an earlier element of `s` to a later one,
      nothing that `LastWhere` is related to satisfies `f`. */
  lemma LastWhereNothingLater<T>(f: T -> bool, s: seq<T>, lt: (T, T) -> bool, x: T)
    requires forall a, b :: 0 <= a < |s| && 0 <= b < |s| && lt(s[a], s[b]) ==> a < b
    requires LastWhere(f, s).Some? && x in s && lt(LastWhere(f, s).value, x)
    ensures !f(x)
  {
    LastWhereSome(f, s);
    var k :| 0 <= k < |s| && s[k] == LastWhere(f, s).value && f(s[k]) &&
      (forall j :: k < j < |s| ==> !f(s[j]));
    var j :| 0 <= j < |s| && s[j] == x;
    assert lt(s[k], s[j]);
  }

  /** When `LastWhere` finds nothing, no element of `s` satisfies `f`. */
  lemma LastWhereNoneAt<T>(f: T -> bool, s: seq<T>, x: T)
    requires LastWhere(f, s).None? && x in s
    ensures !f(x)
  {
    LastWhereNone(f, s);
  }
}

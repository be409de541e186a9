/** Small value types and sequence helpers shared by the other modules. */
module Common {

  /** A nullable column value: SQL NULL, pandas None/NaN. */
  datatype Option<+T> = None | Some(value: T)

  /** The outcome of an operation that either succeeds or raises an error. */
  datatype Outcome<+E> = Pass | Fail(error: E)

  /** `idx` lists, in strictly increasing order, the positions of `s` that make up `r`. */
  ghost predicate PicksAt<T>(r: seq<T>, s: seq<T>, idx: seq<nat>)
  {
    && |idx| == |r|
    && (forall k :: 0 <= k < |idx| ==> idx[k] < |s| && r[k] == s[idx[k]])
    && (forall k, l :: 0 <= k < l < |idx| ==> idx[k] < idx[l])
  }

  /** The elements of `s` that satisfy `p`, in their original order. */
  function Filter<T>(s: seq<T>, p: T -> bool): (r: seq<T>)
    ensures |r| <= |s|
  {
    if s == [] then [] else (if p(s[0]) then [s[0]] else []) + Filter(s[1..], p)
  }

  /** An element is kept exactly when it occurs in `s` and satisfies `p`. */
  lemma {:induction false} FilterMembers<T>(s: seq<T>, p: T -> bool)
    ensures forall i :: 0 <= i < |Filter(s, p)| ==> Filter(s, p)[i] in s && p(Filter(s, p)[i])
    ensures forall i :: 0 <= i < |s| && p(s[i]) ==> s[i] in Filter(s, p)
  {
    var idx := FilterPicks(s, p);
    forall i | 0 <= i < |s| && p(s[i])
      ensures s[i] in Filter(s, p)
    {
      var k :| 0 <= k < |idx| && idx[k] == i;
      assert Filter(s, p)[k] == s[i];
    }
  }

  /** Positions picked from `s[1..]` are positions of `s`, one further on. */
  lemma ShiftPicks<T>(r: seq<T>, s: seq<T>, tail: seq<nat>) returns (shifted: seq<nat>)
    requires s != [] && PicksAt(r, s[1..], tail)
    ensures PicksAt(r, s, shifted)
    ensures forall k :: 0 <= k < |shifted| ==> shifted[k] == tail[k] + 1 && s[shifted[k]] == s[1..][tail[k]]
    ensures forall i :: 1 <= i < |s| && i - 1 in tail ==> i in shifted
  {
    shifted := seq(|tail|, k requires 0 <= k < |tail| => tail[k] + 1);
    forall k | 0 <= k < |shifted|
      ensures r[k] == s[shifted[k]]
    {
      assert s[1..][tail[k]] == s[tail[k] + 1];
    }
    forall i | 1 <= i < |s| && i - 1 in tail
      ensures i in shifted
    {
      var k :| 0 <= k < |tail| && tail[k] == i - 1;
      assert shifted[k] == i;
    }
  }

  /** Filter keeps exactly the satisfying positions of `s`, in order. */
  lemma {:induction false} FilterPicks<T>(s: seq<T>, p: T -> bool) returns (idx: seq<nat>)
    ensures PicksAt(Filter(s, p), s, idx)
    ensures forall i :: 0 <= i < |s| && p(s[i]) ==> i in idx
    ensures forall k :: 0 <= k < |idx| ==> p(s[idx[k]])
  {
    if s == [] {
      return [];
    }
    var tail := FilterPicks(s[1..], p);
    var shifted := ShiftPicks(Filter(s[1..], p), s, tail);
    forall i | 1 <= i < |s| && p(s[i])
      ensures i - 1 in tail
    {
      assert s[1..][i - 1] == s[i];
    }
    idx := FilterPicksStep(s, p, shifted);
  }

  /** The inductive step of FilterPicks: decide position 0, keep the later picks. */
  lemma FilterPicksStep<T>(s: seq<T>, p: T -> bool, shifted: seq<nat>) returns (idx: seq<nat>)
    requires s != [] && PicksAt(Filter(s[1..], p), s, shifted)
    requires forall k :: 0 <= k < |shifted| ==> shifted[k] >= 1 && p(s[shifted[k]])
    requires forall i :: 1 <= i < |s| && p(s[i]) ==> i in shifted
    ensures PicksAt(Filter(s, p), s, idx)
    ensures forall i :: 0 <= i < |s| && p(s[i]) ==> i in idx
    ensures forall k :: 0 <= k < |idx| ==> p(s[idx[k]])
  {
    var rest := Filter(s[1..], p);
    if p(s[0]) {
      assert Filter(s, p) == [s[0]] + rest;
      idx := [0] + shifted;
      PrependPick(rest, s, shifted);
    } else {
      assert Filter(s, p) == rest;
      idx := shifted;
    }
  }

  /** Position 0 may be picked in front of positions that are all later. */
  lemma PrependPick<T>(r: seq<T>, s: seq<T>, idx: seq<nat>)
    requires s != [] && PicksAt(r, s, idx)
    requires forall k :: 0 <= k < |idx| ==> idx[k] >= 1
    ensures PicksAt([s[0]] + r, s, [0] + idx)
  {
    var r', idx' := [s[0]] + r, [0] + idx;
    forall k | 0 < k < |idx'|
      ensures idx'[k] == idx[k - 1] && r'[k] == r[k - 1]
    {
    }
  }

  /** Filtering distributes over concatenation. */
  lemma {:induction false} FilterAppend<T>(a: seq<T>, b: seq<T>, p: T -> bool)
    ensures Filter(a + b, p) == Filter(a, p) + Filter(b, p)
  {
    if a != [] {
      assert (a + b)[1..] == a[1..] + b;
      FilterAppend(a[1..], b, p);
    } else {
      assert a + b == b;
    }
  }

  /** Two predicates that agree on every element of `s` filter it alike. */
  lemma {:induction false} FilterCongruent<T>(s: seq<T>, p: T -> bool, q: T -> bool)
    requires forall i :: 0 <= i < |s| ==> p(s[i]) == q(s[i])
    ensures Filter(s, p) == Filter(s, q)
  {
    if s != [] {
      FilterCongruent(s[1..], p, q);
    }
  }

  /** A sequence whose every element satisfies `p` is left unchanged. */
  lemma {:induction false} FilterAll<T>(s: seq<T>, p: T -> bool)
    requires forall i :: 0 <= i < |s| ==> p(s[i])
    ensures Filter(s, p) == s
  {
    if s != [] {
      FilterAll(s[1..], p);
    }
  }

  /** The rows of `right` paired with `a` that satisfy the join condition. */
  function Matching<A, B>(a: A, right: seq<B>, on: (A, B) -> bool): seq<(A, B)>
  {
    if right == [] then []
    else (if on(a, right[0]) then [(a, right[0])] else []) + Matching(a, right[1..], on)
  }

  /** `left JOIN right ON on`: every matching pair, in nested-loop order. */
  function InnerJoin<A, B>(left: seq<A>, right: seq<B>, on: (A, B) -> bool): seq<(A, B)>
  {
    if left == [] then [] else Matching(left[0], right, on) + InnerJoin(left[1..], right, on)
  }

  lemma {:induction false} MatchingMembers<A, B>(a: A, right: seq<B>, on: (A, B) -> bool)
    ensures forall k :: 0 <= k < |Matching(a, right, on)| ==>
              Matching(a, right, on)[k].0 == a && Matching(a, right, on)[k].1 in right && on(a, Matching(a, right, on)[k].1)
    ensures forall j :: 0 <= j < |right| && on(a, right[j]) ==> (a, right[j]) in Matching(a, right, on)
  {
    if right != [] {
      MatchingMembers(a, right[1..], on);
      var head := if on(a, right[0]) then [(a, right[0])] else [];
      var m := Matching(a, right, on);
      assert m == head + Matching(a, right[1..], on);
      forall k | 0 <= k < |m|
        ensures m[k].0 == a && m[k].1 in right && on(a, m[k].1)
      {
        if k >= |head| {
          assert m[k] == Matching(a, right[1..], on)[k - |head|];
        }
      }
      forall j | 0 <= j < |right| && on(a, right[j])
        ensures (a, right[j]) in m
      {
        if j > 0 {
          assert right[1..][j - 1] == right[j];
        } else {
          assert m[0] == (a, right[0]);
        }
      }
    }
  }

  /**
   * A pair is in the join exactly when its halves come from the two inputs
   * and satisfy the condition.
   */
  lemma {:induction false} InnerJoinMembers<A, B>(left: seq<A>, right: seq<B>, on: (A, B) -> bool)
    ensures forall k :: 0 <= k < |InnerJoin(left, right, on)| ==>
              var p := InnerJoin(left, right, on)[k]; p.0 in left && p.1 in right && on(p.0, p.1)
    ensures forall i, j :: 0 <= i < |left| && 0 <= j < |right| && on(left[i], right[j]) ==>
              (left[i], right[j]) in InnerJoin(left, right, on)
  {
    if left != [] {
      InnerJoinMembers(left[1..], right, on);
      MatchingMembers(left[0], right, on);
      var head := Matching(left[0], right, on);
      var tail := InnerJoin(left[1..], right, on);
      var r := InnerJoin(left, right, on);
      assert r == head + tail;
      forall k | 0 <= k < |r|
        ensures r[k].0 in left && r[k].1 in right && on(r[k].0, r[k].1)
      {
        if k >= |head| {
          assert r[k] == tail[k - |head|];
          assert r[k].0 in left[1..];
        }
      }
      forall i, j | 0 <= i < |left| && 0 <= j < |right| && on(left[i], right[j])
        ensures (left[i], right[j]) in r
      {
        if i > 0 {
          assert left[1..][i - 1] == left[i];
          assert (left[i], right[j]) in tail;
        } else {
          assert (left[i], right[j]) in head;
        }
      }
    }
  }

  /** A sequence none of whose elements satisfies `p` filters to nothing. */
  lemma {:induction false} FilterNone<T>(s: seq<T>, p: T -> bool)
    requires forall i :: 0 <= i < |s| ==> !p(s[i])
    ensures Filter(s, p) == []
  {
    if s != [] {
      FilterNone(s[1..], p);
    }
  }

  /** Code-point order on text: PostgreSQL's "C" collation and Python's string comparison. */
  predicate TextAtMost(a: string, b: string)
  {
    if a == [] then true
    else if b == [] then false
    else if a[0] != b[0] then a[0] < b[0]
    else TextAtMost(a[1..], b[1..])
  }

  lemma {:induction false} TextAtMostTotal(a: string, b: string)
    ensures TextAtMost(a, b) || TextAtMost(b, a)
  {
    if a != [] && b != [] && a[0] == b[0] {
      TextAtMostTotal(a[1..], b[1..]);
    }
  }

  lemma {:induction false} TextAtMostTransitive(a: string, b: string, c: string)
    requires TextAtMost(a, b) && TextAtMost(b, c)
    ensures TextAtMost(a, c)
  {
    if a != [] && b != [] && c != [] && a[0] == b[0] && b[0] == c[0] {
      TextAtMostTransitive(a[1..], b[1..], c[1..]);
    }
  }

  lemma TextOrder()
    ensures forall a, b :: TextAtMost(a, b) || TextAtMost(b, a)
    ensures forall a, b, c :: TextAtMost(a, b) && TextAtMost(b, c) ==> TextAtMost(a, c)
  {
    forall a, b
      ensures TextAtMost(a, b) || TextAtMost(b, a)
    {
      TextAtMostTotal(a, b);
    }
    forall a, b, c | TextAtMost(a, b) && TextAtMost(b, c)
      ensures TextAtMost(a, c)
    {
      TextAtMostTransitive(a, b, c);
    }
  }

  /**
   * A filter keeps any order that holds between earlier and later elements
   * of `s`.
   */
  lemma FilterKeepsOrder<T>(s: seq<T>, p: T -> bool, before: (T, T) -> bool)
    requires forall i, j :: 0 <= i < j < |s| ==> before(s[i], s[j])
    ensures forall i, j :: 0 <= i < j < |Filter(s, p)| ==> before(Filter(s, p)[i], Filter(s, p)[j])
  {
    var idx := FilterPicks(s, p);
    forall i, j | 0 <= i < j < |Filter(s, p)|
      ensures before(Filter(s, p)[i], Filter(s, p)[j])
    {
      assert idx[i] < idx[j];
    }
  }

  /** Taking out the element at position `k` takes one copy of it out of the multiset. */
  lemma MultisetRemoveAt<T>(s: seq<T>, k: nat)
    requires k < |s|
    ensures multiset(s[..k] + s[k + 1..]) == multiset(s) - multiset{s[k]}
  {
    assert s == s[..k] + [s[k]] + s[k + 1..];
    assert multiset(s) == multiset(s[..k]) + multiset{s[k]} + multiset(s[k + 1..]);
  }

  /** In a permutation of `a`, some position holds `a[0]`, and what is left over is a permutation of the rest of `a`. */
  lemma MatchFirst<T>(a: seq<T>, b: seq<T>) returns (k: nat)
    requires a != [] && multiset(a) == multiset(b)
    ensures k < |b| && b[k] == a[0]
    ensures multiset(a[1..]) == multiset(b[..k] + b[k + 1..])
  {
    assert a[0] in multiset(b);
    k :| 0 <= k < |b| && b[k] == a[0];
    MultisetRemoveAt(b, k);
    assert a == [a[0]] + a[1..];
    assert multiset(a[1..]) == multiset(a) - multiset{a[0]};
  }
}

/**
 * Group-by with a distinct-user count, ordering by a comparator, and a row cap:
 * the shape shared by `COUNT(DISTINCT user_id) ... GROUP BY ... ORDER BY ... LIMIT`
 * and by pandas' `groupby(...)['user_id'].nunique()` followed by `sort_values`.
 */
module Ranking {
  import Common

  predicate NoDuplicates<K(==)>(s: seq<K>)
  {
    forall i, j :: 0 <= i < j < |s| ==> s[i] != s[j]
  }

  /** The distinct elements of `s`, in order of first appearance. */
  function Distinct<K(==)>(s: seq<K>): (r: seq<K>)
    ensures NoDuplicates(r)
    ensures forall i :: 0 <= i < |s| ==> s[i] in r
    ensures forall i :: 0 <= i < |r| ==> r[i] in s
  {
    if s == [] then []
    else
      var d := Distinct(s[..|s| - 1]);
      var x := s[|s| - 1];
      assert forall i :: 0 <= i < |s| - 1 ==> s[i] == s[..|s| - 1][i];
      if x in d then d else d + [x]
  }

  /** A group key with the number of distinct users seen under it. */
  datatype Tally<K> = Tally(key: K, count: nat)

  function GroupKeys<K>(pairs: seq<(K, string)>): seq<K>
  {
    seq(|pairs|, i requires 0 <= i < |pairs| => pairs[i].0)
  }

  function TallyKeys<K>(ts: seq<Tally<K>>): seq<K>
  {
    seq(|ts|, i requires 0 <= i < |ts| => ts[i].key)
  }

  /** The users recorded under key `k` (each counted once). */
  function Users<K(==)>(pairs: seq<(K, string)>, k: K): set<string>
  {
    set i | 0 <= i < |pairs| && pairs[i].0 == k :: pairs[i].1
  }

  /** One tally per distinct key of `pairs`, in order of first appearance. */
  function Tallies<K(==)>(pairs: seq<(K, string)>): seq<Tally<K>>
  {
    var ks := Distinct(GroupKeys(pairs));
    seq(|ks|, i requires 0 <= i < |ks| => Tally(ks[i], |Users(pairs, ks[i])|))
  }

  /**
   * Tallies has one row for each key that occurs, no row for any other,
   * no key twice, and each row counts the distinct users of its key.
   */
  lemma TalliesSpec<K>(pairs: seq<(K, string)>)
    ensures forall i :: 0 <= i < |pairs| ==> pairs[i].0 in TallyKeys(Tallies(pairs))
    ensures NoDuplicates(TallyKeys(Tallies(pairs)))
    ensures forall t :: t in Tallies(pairs) ==>
              t.count == |Users(pairs, t.key)| && 1 <= t.count && t.key in GroupKeys(pairs)
  {
    var ks := Distinct(GroupKeys(pairs));
    var ts := Tallies(pairs);
    assert TallyKeys(ts) == ks;
    forall i | 0 <= i < |pairs|
      ensures pairs[i].0 in TallyKeys(ts)
    {
      assert GroupKeys(pairs)[i] == pairs[i].0;
    }
    forall t | t in ts
      ensures t.count == |Users(pairs, t.key)| && 1 <= t.count && t.key in GroupKeys(pairs)
    {
      var k :| 0 <= k < |ts| && ts[k] == t;
      assert t.key == ks[k];
      var i :| 0 <= i < |pairs| && GroupKeys(pairs)[i] == t.key;
      assert pairs[i].1 in Users(pairs, t.key);
    }
  }

  /** `below(a, b)`: `a` may be placed before `b`. */
  ghost predicate TotalPreorder<T(!new)>(below: (T, T) -> bool)
  {
    && (forall a, b :: below(a, b) || below(b, a))
    && (forall a, b, c :: below(a, b) && below(b, c) ==> below(a, c))
  }

  ghost predicate Sorted<T>(s: seq<T>, below: (T, T) -> bool)
  {
    forall i, j :: 0 <= i < j < |s| ==> below(s[i], s[j])
  }

  /** Inserts `x` before the first element it may precede. */
  function Insert<T>(x: T, s: seq<T>, below: (T, T) -> bool): (r: seq<T>)
    ensures multiset(r) == multiset(s) + multiset{x}
    ensures |r| == |s| + 1
  {
    if s == [] then [x]
    else if below(x, s[0]) then [x] + s
    else
      assert s == [s[0]] + s[1..];
      [s[0]] + Insert(x, s[1..], below)
  }

  /** Insertion sort: a permutation of `s`. */
  function SortBy<T>(s: seq<T>, below: (T, T) -> bool): (r: seq<T>)
    ensures multiset(r) == multiset(s)
    ensures |r| == |s|
  {
    if s == [] then []
    else
      assert s == [s[0]] + s[1..];
      Insert(s[0], SortBy(s[1..], below), below)
  }

  lemma {:induction false} InsertSorted<T(!new)>(x: T, s: seq<T>, below: (T, T) -> bool)
    requires TotalPreorder(below) && Sorted(s, below)
    ensures Sorted(Insert(x, s, below), below)
  {
    if s != [] && !below(x, s[0]) {
      InsertSorted(x, s[1..], below);
      HeadBelowInsert(x, s, below);
      SortedPrepend(s[0], Insert(x, s[1..], below), below);
    } else if s != [] {
      forall j | 0 <= j < |s|
        ensures below(x, s[j])
      {
        if j > 0 {
          assert below(s[0], s[j]);
        }
      }
      SortedPrepend(x, s, below);
    }
  }

  /** An element that may precede every element of a sorted sequence may lead it. */
  lemma SortedPrepend<T>(y: T, s: seq<T>, below: (T, T) -> bool)
    requires Sorted(s, below)
    requires forall j :: 0 <= j < |s| ==> below(y, s[j])
    ensures Sorted([y] + s, below)
  {
    var r := [y] + s;
    forall i, j | 0 <= i < j < |r|
      ensures below(r[i], r[j])
    {
      assert r[j] == s[j - 1];
      if i > 0 {
        assert r[i] == s[i - 1];
      }
    }
  }

  /** When `x` goes past the head, the head may precede everything inserted behind it. */
  lemma HeadBelowInsert<T(!new)>(x: T, s: seq<T>, below: (T, T) -> bool)
    requires TotalPreorder(below) && Sorted(s, below)
    requires s != [] && !below(x, s[0])
    ensures forall j :: 0 <= j < |Insert(x, s[1..], below)| ==> below(s[0], Insert(x, s[1..], below)[j])
  {
    var tail := Insert(x, s[1..], below);
    assert below(s[0], x);
    forall j | 0 <= j < |tail|
      ensures below(s[0], tail[j])
    {
      assert tail[j] in multiset(tail);
      if tail[j] != x {
        assert tail[j] in multiset(s[1..]);
        var k :| 0 <= k < |s[1..]| && s[1..][k] == tail[j];
        assert s[1..][k] == s[k + 1];
      }
    }
  }

  lemma {:induction false} SortBySorted<T(!new)>(s: seq<T>, below: (T, T) -> bool)
    requires TotalPreorder(below)
    ensures Sorted(SortBy(s, below), below)
  {
    if s != [] {
      SortBySorted(s[1..], below);
      InsertSorted(s[0], SortBy(s[1..], below), below);
    }
  }

  function Min(a: int, b: int): int
  {
    if a < b then a else b
  }

  /** The first `cap` rows of `s` in comparator order (`ORDER BY ... LIMIT cap`). */
  function Top<T>(s: seq<T>, below: (T, T) -> bool, cap: nat): (r: seq<T>)
    ensures |r| == Min(cap, |s|)
  {
    SortBy(s, below)[..Min(cap, |s|)]
  }

  /**
   * Top is sorted, never exceeds the cap, keeps every row when there are
   * no more than `cap`, takes only rows of `s`, and ranks every row it
   * leaves out no higher than every row it keeps.
   */
  lemma TopSpec<T(!new)>(s: seq<T>, below: (T, T) -> bool, cap: nat)
    requires TotalPreorder(below)
    ensures Sorted(Top(s, below, cap), below)
    ensures |Top(s, below, cap)| <= cap
    ensures multiset(Top(s, below, cap)) <= multiset(s)
    ensures |s| <= cap ==> multiset(Top(s, below, cap)) == multiset(s)
    ensures forall i, j :: 0 <= i < |s| && s[i] !in Top(s, below, cap) && 0 <= j < |Top(s, below, cap)|
              ==> below(Top(s, below, cap)[j], s[i])
  {
    var sorted := SortBy(s, below);
    var n := Min(cap, |s|);
    var r := Top(s, below, cap);
    SortBySorted(s, below);
    assert sorted == r + sorted[n..];
    assert multiset(sorted) == multiset(r) + multiset(sorted[n..]);
    if |s| <= cap {
      assert r == sorted;
    }
    assert forall m :: 0 <= m < n ==> sorted[m] == r[m];
    forall i, j | 0 <= i < |s| && s[i] !in r && 0 <= j < |r|
      ensures below(r[j], s[i])
    {
      assert s[i] in multiset(sorted);
      var k :| 0 <= k < |sorted| && sorted[k] == s[i];
      assert n <= k;
      assert r[j] == sorted[j];
    }
  }

  /** A sequence without repeats occurs at most once per element in its multiset. */
  lemma {:induction false} NoDuplicatesCount<T>(s: seq<T>, x: T)
    requires NoDuplicates(s)
    ensures multiset(s)[x] <= 1
  {
    if s != [] {
      assert s == [s[0]] + s[1..];
      assert NoDuplicates(s[1..]) by {
        forall i, j | 0 <= i < j < |s[1..]|
          ensures s[1..][i] != s[1..][j]
        {
          assert s[1..][i] == s[i + 1] && s[1..][j] == s[j + 1];
        }
      }
      NoDuplicatesCount(s[1..], x);
      if s[0] == x {
        assert x !in s[1..] by {
          forall k | 0 <= k < |s[1..]|
            ensures s[1..][k] != x
          {
            assert s[1..][k] == s[k + 1];
          }
        }
      }
    }
  }

  /** Reordering a sequence without repeats leaves it without repeats. */
  lemma PermutationNoDuplicates<T>(a: seq<T>, b: seq<T>)
    requires NoDuplicates(a) && multiset(a) == multiset(b)
    ensures NoDuplicates(b)
  {
    forall i, j | 0 <= i < j < |b|
      ensures b[i] != b[j]
    {
      NoDuplicatesCount(a, b[i]);
      if b[i] == b[j] {
        SplitIndices(b, i, j);
      }
    }
  }

  /** Two positions holding one element mean it occurs twice in the multiset. */
  lemma SplitIndices<T>(b: seq<T>, i: nat, j: nat)
    requires i < j < |b| && b[i] == b[j]
    ensures multiset(b)[b[i]] >= 2
  {
    assert b == b[..i] + [b[i]] + b[i + 1..j] + [b[j]] + b[j + 1..];
  }

  /** The (key, user) pair of each row. */
  function KeyedUsers<R, K>(rows: seq<R>, key: R -> K, user: R -> string): (pairs: seq<(K, string)>)
    ensures |pairs| == |rows|
    ensures forall i :: 0 <= i < |rows| ==> pairs[i] == (key(rows[i]), user(rows[i]))
  {
    seq(|rows|, i requires 0 <= i < |rows| => (key(rows[i]), user(rows[i])))
  }

  /** The distinct users of the rows that pass `keep` and fall under key `k`. */
  ghost function GroupUsers<R, K>(rows: seq<R>, keep: R -> bool, key: R -> K, user: R -> string, k: K): set<string>
  {
    set i | 0 <= i < |rows| && keep(rows[i]) && key(rows[i]) == k :: user(rows[i])
  }

  /** Filtering first and then collecting users is counting the kept rows' users. */
  lemma KeptUsers<R, K>(rows: seq<R>, keep: R -> bool, key: R -> K, user: R -> string, k: K)
    ensures Users(KeyedUsers(Common.Filter(rows, keep), key, user), k) == GroupUsers(rows, keep, key, user, k)
  {
    var kept := Common.Filter(rows, keep);
    var idx := Common.FilterPicks(rows, keep);
    var pairs := KeyedUsers(kept, key, user);
    forall u | u in Users(pairs, k)
      ensures u in GroupUsers(rows, keep, key, user, k)
    {
      var m :| 0 <= m < |pairs| && pairs[m].0 == k && pairs[m].1 == u;
      assert kept[m] == rows[idx[m]];
    }
    forall u | u in GroupUsers(rows, keep, key, user, k)
      ensures u in Users(pairs, k)
    {
      var i :| 0 <= i < |rows| && keep(rows[i]) && key(rows[i]) == k && user(rows[i]) == u;
      var m :| 0 <= m < |idx| && idx[m] == i;
      assert pairs[m] == (k, u);
    }
  }

  /** `ORDER BY count DESC`. */
  predicate CountAtLeast<K>(a: Tally<K>, b: Tally<K>)
  {
    a.count >= b.count
  }

  lemma CountOrderIsTotal<K(!new)>()
    ensures TotalPreorder((a: Tally<K>, b: Tally<K>) => CountAtLeast(a, b))
  {
  }

  /**
   * `SELECT COUNT(DISTINCT user), key ... WHERE keep GROUP BY key
   * ORDER BY count DESC LIMIT cap`.
   */
  function RankGroups<R, K(==)>(rows: seq<R>, keep: R -> bool, key: R -> K, user: R -> string, cap: nat): (r: seq<Tally<K>>)
    ensures |r| <= cap
  {
    Top(Tallies(KeyedUsers(Common.Filter(rows, keep), key, user)), (a: Tally<K>, b: Tally<K>) => CountAtLeast(a, b), cap)
  }

  /** RankGroups lists its groups by count, largest first, each group once. */
  lemma RankGroupsOrdered<R, K(!new)>(rows: seq<R>, keep: R -> bool, key: R -> K, user: R -> string, cap: nat)
    ensures var r := RankGroups(rows, keep, key, user, cap);
      && (forall i, j :: 0 <= i < j < |r| ==> r[i].count >= r[j].count)
      && NoDuplicates(TallyKeys(r))
  {
    var s := Tallies(KeyedUsers(Common.Filter(rows, keep), key, user));
    var below := (a: Tally<K>, b: Tally<K>) => CountAtLeast(a, b);
    TalliesSpec(KeyedUsers(Common.Filter(rows, keep), key, user));
    CountOrderIsTotal<K>();
    TopSpec(s, below, cap);
    TopDistinctKeys(s, below, cap);
  }

  /** Each group RankGroups returns has kept rows and counts their distinct users. */
  lemma RankGroupsCounts<R, K(!new)>(rows: seq<R>, keep: R -> bool, key: R -> K, user: R -> string, cap: nat)
    ensures var r := RankGroups(rows, keep, key, user, cap);
      && (forall t :: t in r ==> t.count == |GroupUsers(rows, keep, key, user, t.key)| && 1 <= t.count)
      && (forall t :: t in r ==> exists i :: 0 <= i < |rows| && keep(rows[i]) && key(rows[i]) == t.key)
  {
    var s := Tallies(KeyedUsers(Common.Filter(rows, keep), key, user));
    var r := RankGroups(rows, keep, key, user, cap);
    forall t | t in r
      ensures t.count == |GroupUsers(rows, keep, key, user, t.key)| && 1 <= t.count
      ensures exists i :: 0 <= i < |rows| && keep(rows[i]) && key(rows[i]) == t.key
    {
      var j :| 0 <= j < |r| && r[j] == t;
      var n := TopPicks(s, (a: Tally<K>, b: Tally<K>) => CountAtLeast(a, b), cap, j);
      TallyOfKeptRows(rows, keep, key, user, n);
    }
  }

  /** Each row Top keeps is a row of its input. */
  lemma TopPicks<T>(s: seq<T>, below: (T, T) -> bool, cap: nat, j: nat) returns (n: nat)
    requires j < |Top(s, below, cap)|
    ensures n < |s| && s[n] == Top(s, below, cap)[j]
  {
    var sorted := SortBy(s, below);
    assert Top(s, below, cap)[j] == sorted[j];
    assert sorted[j] in multiset(s);
    n :| 0 <= n < |s| && s[n] == sorted[j];
  }

  /** Every tally counts the distinct users of a group that has kept rows. */
  lemma TallyOfKeptRows<R, K>(rows: seq<R>, keep: R -> bool, key: R -> K, user: R -> string, n: nat)
    requires n < |Tallies(KeyedUsers(Common.Filter(rows, keep), key, user))|
    ensures var t := Tallies(KeyedUsers(Common.Filter(rows, keep), key, user))[n];
      && t.count == |GroupUsers(rows, keep, key, user, t.key)| && 1 <= t.count
      && exists i :: 0 <= i < |rows| && keep(rows[i]) && key(rows[i]) == t.key
  {
    var pairs := KeyedUsers(Common.Filter(rows, keep), key, user);
    var t := Tallies(pairs)[n];
    TalliesSpec(pairs);
    assert t in Tallies(pairs);
    var m :| 0 <= m < |pairs| && GroupKeys(pairs)[m] == t.key;
    KeptUsers(rows, keep, key, user, t.key);
    var idx := Common.FilterPicks(rows, keep);
    assert pairs[m].0 == key(rows[idx[m]]);
    assert keep(rows[idx[m]]);
  }

  /**
   * A group with kept rows is left out only once `cap` groups are returned,
   * and then it counts no more distinct users than any of them.
   */
  lemma RankGroupsCut<R, K(!new)>(rows: seq<R>, keep: R -> bool, key: R -> K, user: R -> string, cap: nat)
    ensures var r := RankGroups(rows, keep, key, user, cap);
      forall i :: 0 <= i < |rows| && keep(rows[i]) && key(rows[i]) !in TallyKeys(r) ==>
        |r| == cap && forall j :: 0 <= j < |r| ==> r[j].count >= |GroupUsers(rows, keep, key, user, key(rows[i]))|
  {
    var r := RankGroups(rows, keep, key, user, cap);
    forall i | 0 <= i < |rows| && keep(rows[i]) && key(rows[i]) !in TallyKeys(r)
      ensures |r| == cap && forall j :: 0 <= j < |r| ==> r[j].count >= |GroupUsers(rows, keep, key, user, key(rows[i]))|
    {
      RankGroupsCutAt(rows, keep, key, user, cap, i);
    }
  }

  lemma RankGroupsCutAt<R, K(!new)>(rows: seq<R>, keep: R -> bool, key: R -> K, user: R -> string, cap: nat, i: nat)
    requires i < |rows| && keep(rows[i])
    requires key(rows[i]) !in TallyKeys(RankGroups(rows, keep, key, user, cap))
    ensures var r := RankGroups(rows, keep, key, user, cap);
      |r| == cap && forall j :: 0 <= j < |r| ==> r[j].count >= |GroupUsers(rows, keep, key, user, key(rows[i]))|
  {
    var s := Tallies(KeyedUsers(Common.Filter(rows, keep), key, user));
    var below := (a: Tally<K>, b: Tally<K>) => CountAtLeast(a, b);
    var r := RankGroups(rows, keep, key, user, cap);
    var n := KeptRowTally(rows, keep, key, user, i);
    forall j | 0 <= j < |r|
      ensures r[j] != s[n]
    {
      assert TallyKeys(r)[j] == r[j].key;
    }
    CountOrderIsTotal<K>();
    TopLeftOut(s, below, cap, n);
  }

  /** The tally of a kept row's group counts that group's distinct users. */
  lemma KeptRowTally<R, K>(rows: seq<R>, keep: R -> bool, key: R -> K, user: R -> string, i: nat) returns (n: nat)
    requires i < |rows| && keep(rows[i])
    ensures n < |Tallies(KeyedUsers(Common.Filter(rows, keep), key, user))|
    ensures Tallies(KeyedUsers(Common.Filter(rows, keep), key, user))[n].key == key(rows[i])
    ensures Tallies(KeyedUsers(Common.Filter(rows, keep), key, user))[n].count
            == |GroupUsers(rows, keep, key, user, key(rows[i]))|
  {
    var pairs := KeyedUsers(Common.Filter(rows, keep), key, user);
    var s := Tallies(pairs);
    var idx := Common.FilterPicks(rows, keep);
    var m :| 0 <= m < |idx| && idx[m] == i;
    assert pairs[m].0 == key(rows[i]);
    TalliesSpec(pairs);
    n :| 0 <= n < |s| && TallyKeys(s)[n] == key(rows[i]);
    assert s[n] in s;
    KeptUsers(rows, keep, key, user, key(rows[i]));
  }

  /** A row Top leaves out means Top is full, and every row it keeps ranks at least as high. */
  lemma TopLeftOut<T(!new)>(s: seq<T>, below: (T, T) -> bool, cap: nat, n: nat)
    requires TotalPreorder(below)
    requires n < |s| && s[n] !in Top(s, below, cap)
    ensures |Top(s, below, cap)| == cap
    ensures forall j :: 0 <= j < |Top(s, below, cap)| ==> below(Top(s, below, cap)[j], s[n])
  {
    TopSpec(s, below, cap);
    assert s[n] in multiset(s);
    assert s[n] !in multiset(Top(s, below, cap));
  }

  /** The groups kept by Top are still distinct. */
  lemma TopDistinctKeys<K(!new)>(s: seq<Tally<K>>, below: (Tally<K>, Tally<K>) -> bool, cap: nat)
    requires NoDuplicates(TallyKeys(s))
    ensures NoDuplicates(TallyKeys(Top(s, below, cap)))
  {
    var sorted := SortBy(s, below);
    var r := Top(s, below, cap);
    forall i, j | 0 <= i < j < |s|
      ensures s[i] != s[j]
    {
      assert TallyKeys(s)[i] != TallyKeys(s)[j];
    }
    PermutationNoDuplicates(s, sorted);
    forall i, j | 0 <= i < j < |r|
      ensures TallyKeys(r)[i] != TallyKeys(r)[j]
    {
      assert r[i] == sorted[i] && r[j] == sorted[j];
      assert sorted[i] in multiset(s) && sorted[j] in multiset(s);
      var p :| 0 <= p < |s| && s[p] == sorted[i];
      var q :| 0 <= q < |s| && s[q] == sorted[j];
      if p != q {
        assert TallyKeys(s)[p] != TallyKeys(s)[q];
      }
    }
  }
}

/**
 * Demographic panel arithmetic: the `TOTAL` row appended to the per-race
 * counts, and the share of each demographic group that saw a set of posts.
 */
module Panel {
  import opened Common
  import opened Ranking

  /** One row of the per-race count query: `race`, `count`. */
  datatype RaceCount = RaceCount(race: Option<string>, count: int)

  const TotalLabel := "TOTAL"

  function SumCounts(rows: seq<RaceCount>): int
  {
    if rows == [] then 0 else rows[0].count + SumCounts(rows[1..])
  }

  /** The sum does not depend on the order in which the groups arrive. */
  lemma {:induction false} SumCountsPermutation(a: seq<RaceCount>, b: seq<RaceCount>)
    requires multiset(a) == multiset(b)
    ensures SumCounts(a) == SumCounts(b)
    decreases |a|
  {
    if a != [] {
      var k := MatchFirst(a, b);
      SumCountsPermutation(a[1..], b[..k] + b[k + 1..]);
      SumCountsRemove(b, k);
    } else {
      assert |multiset(b)| == 0;
    }
  }

  lemma {:induction false} SumCountsRemove(s: seq<RaceCount>, k: nat)
    requires k < |s|
    ensures SumCounts(s) == s[k].count + SumCounts(s[..k] + s[k + 1..])
  {
    if k > 0 {
      SumCountsRemove(s[1..], k - 1);
      assert s[1..][..k - 1] + s[1..][k..] == (s[..k] + s[k + 1..])[1..];
    } else {
      assert s[..k] + s[k + 1..] == s[1..];
    }
  }

  /**
   * The appended row as the code means it: the input rows, unchanged, then
   * one `TOTAL` row whose count is the sum of the counts.
   */
  function WithTotal(rows: seq<RaceCount>): seq<RaceCount>
  {
    rows + [RaceCount(Some(TotalLabel), SumCounts(rows))]
  }

  lemma WithTotalSpec(rows: seq<RaceCount>, reordered: seq<RaceCount>)
    requires multiset(reordered) == multiset(rows)
    ensures |WithTotal(rows)| == |rows| + 1 && WithTotal(rows)[..|rows|] == rows
    ensures WithTotal(rows)[|rows|] == RaceCount(Some(TotalLabel), SumCounts(reordered))
  {
    SumCountsPermutation(reordered, rows);
    assert WithTotal(rows)[..|rows|] == rows;
  }

  /** Races {"white": 3, "black": 2} give a TOTAL of 5. */
  lemma WithTotalExample()
    ensures WithTotal([RaceCount(Some("white"), 3), RaceCount(Some("black"), 2)])[2]
              == RaceCount(Some(TotalLabel), 5)
  {
    var rows := [RaceCount(Some("white"), 3), RaceCount(Some("black"), 2)];
    assert rows[1..][1..] == [];
  }

  /** `demo.sum()` sums every column; `.item()` needs exactly one value. */
  datatype ItemError = NotAScalar(size: nat)

  datatype ItemResult = Item(value: int) | ItemFailure(error: ItemError)

  /**
   * The number of entries of the frame sum as written. `count` is always
   * summed. `race` is summed too, with NULLs counted as 0: a column of
   * strings concatenates and one of NULLs alone sums to 0, so both stay. Only
   * a mix of strings and NULLs fails, and pandas then drops `race` as a
   * nuisance column.
   */
  function SummedColumns(rows: seq<RaceCount>): nat
  {
    if (exists i :: 0 <= i < |rows| && rows[i].race.None?) && (exists i :: 0 <= i < |rows| && rows[i].race.Some?)
    then 1 else 2
  }

  /** `demo.sum().item()` in `get_demographics`. */
  function TotalItemAsWritten(rows: seq<RaceCount>): (r: ItemResult)
    ensures r.Item? <==> (exists i :: 0 <= i < |rows| && rows[i].race.None?)
                         && (exists j :: 0 <= j < |rows| && rows[j].race.Some?)
    ensures r.Item? ==> r.value == SumCounts(rows)
    ensures r.ItemFailure? ==> r.error == NotAScalar(2)
  {
    var size := SummedColumns(rows);
    if size == 1 then Item(SumCounts(rows)) else ItemFailure(NotAScalar(size))
  }

  /** On the races {"white": 3, "black": 2} the code as written raises instead of appending 5. */
  lemma TotalItemAsWrittenFails()
    ensures TotalItemAsWritten([RaceCount(Some("white"), 3), RaceCount(Some("black"), 2)]) == ItemFailure(NotAScalar(2))
  {
  }

  /** A panel whose only group is the NULL race raises too; with a NULL group beside "white" the sum is a scalar. */
  lemma TotalItemAsWrittenNulls()
    ensures TotalItemAsWritten([RaceCount(None, 4)]) == ItemFailure(NotAScalar(2))
    ensures TotalItemAsWritten([RaceCount(Some("white"), 3), RaceCount(None, 4)]) == Item(7)
  {
    var mixed := [RaceCount(Some("white"), 3), RaceCount(None, 4)];
    assert mixed[0].race.Some? && mixed[1].race.None?;
    assert mixed[1..][1..] == [];
  }

  // ---------------------------------------------------------------------------
  // demo_to_percent

  /** A row of the post frame, projected to `user_id` and the chosen characteristic. */
  datatype Sighting = Sighting(userId: string, value: Option<string>)

  /** A row of the panel frame, projected to the characteristic and `count`. */
  datatype PanelRow = PanelRow(value: Option<string>, count: int)

  /** A float64 percentage: a finite value, +inf (division by zero), or NaN. */
  datatype Percent = Finite(amount: real) | PosInfinity | NaN

  /** One output row: characteristic, user_view_count, panel_count, percent_demographic. */
  datatype ShareRow = ShareRow(value: string, userViewCount: nat, panelCount: Option<int>, percent: Percent)

  /** `user_view_count / panel_count * 100` in floating point, before rounding. */
  function PercentOf(users: nat, panel: Option<int>): Percent
  {
    match panel
    case None => NaN
    case Some(c) =>
      if c == 0 then (if users > 0 then PosInfinity else NaN)
      else Finite((users as real / c as real) * 100.0)
  }

  /** The distinct users whose characteristic is `v`. */
  function Viewers(rows: seq<Sighting>, v: string): set<string>
  {
    set i | 0 <= i < |rows| && rows[i].value == Some(v) :: rows[i].userId
  }

  /** `groupby` drops rows whose key is null; the rest become (key, user) pairs. */
  function ViewPairs(rows: seq<Sighting>): seq<(string, string)>
  {
    if rows == [] then []
    else
      (if rows[0].value.Some? then [(rows[0].value.value, rows[0].userId)] else [])
      + ViewPairs(rows[1..])
  }

  lemma {:induction false} ViewPairsKeys(rows: seq<Sighting>)
    ensures forall i :: 0 <= i < |rows| && rows[i].value.Some? ==> rows[i].value.value in GroupKeys(ViewPairs(rows))
    ensures forall k :: k in GroupKeys(ViewPairs(rows)) ==> exists i :: 0 <= i < |rows| && rows[i].value == Some(k)
  {
    if rows != [] {
      ViewPairsKeys(rows[1..]);
      var head := if rows[0].value.Some? then [(rows[0].value.value, rows[0].userId)] else [];
      var tail := ViewPairs(rows[1..]);
      assert ViewPairs(rows) == head + tail;
      assert GroupKeys(head + tail) == GroupKeys(head) + GroupKeys(tail);
      forall i | 0 <= i < |rows| && rows[i].value.Some?
        ensures rows[i].value.value in GroupKeys(ViewPairs(rows))
      {
        if i > 0 {
          assert rows[i] == rows[1..][i - 1];
        } else {
          assert GroupKeys(head)[0] == rows[0].value.value;
        }
      }
      forall k | k in GroupKeys(ViewPairs(rows))
        ensures exists i :: 0 <= i < |rows| && rows[i].value == Some(k)
      {
        if k !in GroupKeys(head) {
          assert k in GroupKeys(tail);
          var j :| 0 <= j < |rows[1..]| && rows[1..][j].value == Some(k);
          assert rows[j + 1].value == Some(k);
        }
      }
    }
  }

  lemma {:induction false} ViewPairsUsers(rows: seq<Sighting>, v: string)
    ensures Users(ViewPairs(rows), v) == Viewers(rows, v)
  {
    if rows != [] {
      ViewPairsUsers(rows[1..], v);
      var head := if rows[0].value.Some? then [(rows[0].value.value, rows[0].userId)] else [];
      var tail := ViewPairs(rows[1..]);
      assert ViewPairs(rows) == head + tail;
      UsersAppend(head, tail, v);
      var first := if rows[0].value == Some(v) then {rows[0].userId} else {};
      assert Users(head, v) == first;
      assert Viewers(rows, v) == first + Viewers(rows[1..], v) by {
        forall u | u in Viewers(rows, v)
          ensures u in first + Viewers(rows[1..], v)
        {
          var i :| 0 <= i < |rows| && rows[i].value == Some(v) && rows[i].userId == u;
          if i > 0 {
            assert rows[1..][i - 1] == rows[i];
          }
        }
        forall u | u in Viewers(rows[1..], v)
          ensures u in Viewers(rows, v)
        {
          var i :| 0 <= i < |rows[1..]| && rows[1..][i].value == Some(v) && rows[1..][i].userId == u;
          assert rows[i + 1] == rows[1..][i];
        }
      }
    }
  }

  lemma UsersAppend<K>(a: seq<(K, string)>, b: seq<(K, string)>, k: K)
    ensures Users(a + b, k) == Users(a, k) + Users(b, k)
  {
    var ab := a + b;
    forall u | u in Users(ab, k)
      ensures u in Users(a, k) + Users(b, k)
    {
      var i :| 0 <= i < |ab| && ab[i].0 == k && ab[i].1 == u;
      if i >= |a| {
        assert b[i - |a|] == ab[i];
      } else {
        assert a[i] == ab[i];
      }
    }
    forall u | u in Users(a, k)
      ensures u in Users(ab, k)
    {
      var i :| 0 <= i < |a| && a[i].0 == k && a[i].1 == u;
      assert ab[i] == a[i];
    }
    forall u | u in Users(b, k)
      ensures u in Users(ab, k)
    {
      var i :| 0 <= i < |b| && b[i].0 == k && b[i].1 == u;
      assert ab[i + |a|] == b[i];
    }
  }

  /** Counts of the panel rows whose characteristic is `v`, in panel order. */
  function PanelCounts(panel: seq<PanelRow>, v: string): (cs: seq<int>)
    ensures forall c :: c in cs ==> exists i :: 0 <= i < |panel| && panel[i] == PanelRow(Some(v), c)
    ensures forall i :: 0 <= i < |panel| && panel[i].value == Some(v) ==> panel[i].count in cs
  {
    if panel == [] then []
    else
      var rest := PanelCounts(panel[1..], v);
      assert forall i :: 0 < i < |panel| ==> panel[i] == panel[1..][i - 1];
      (if panel[0].value == Some(v) then [panel[0].count] else []) + rest
  }

  /** A characteristic the panel does not list has no counts. */
  lemma {:induction false} NoCountsWithoutMatch(panel: seq<PanelRow>, v: string)
    requires forall i :: 0 <= i < |panel| ==> panel[i].value != Some(v)
    ensures PanelCounts(panel, v) == []
  {
    if panel != [] {
      assert forall i :: 0 <= i < |panel[1..]| ==> panel[1..][i] == panel[i + 1];
      NoCountsWithoutMatch(panel[1..], v);
    }
  }

  /** Left-join one group with the panel: one row per match, or one row with no count. */
  function JoinGroup(t: Tally<string>, panel: seq<PanelRow>): seq<ShareRow>
  {
    var cs := PanelCounts(panel, t.key);
    if cs == [] then [ShareRow(t.key, t.count, None, PercentOf(t.count, None))]
    else seq(|cs|, i requires 0 <= i < |cs| => ShareRow(t.key, t.count, Some(cs[i]), PercentOf(t.count, Some(cs[i]))))
  }

  /** `merge(..., how='left')` with the percent column computed on each joined row. */
  function LeftJoin(groups: seq<Tally<string>>, panel: seq<PanelRow>): seq<ShareRow>
  {
    if groups == [] then [] else JoinGroup(groups[0], panel) + LeftJoin(groups[1..], panel)
  }

  /** The rows of a left join are exactly the rows joined for each group. */
  lemma {:induction false} LeftJoinMembers(groups: seq<Tally<string>>, panel: seq<PanelRow>)
    ensures forall r :: r in LeftJoin(groups, panel) ==> exists k :: 0 <= k < |groups| && r in JoinGroup(groups[k], panel)
    ensures forall k, r :: 0 <= k < |groups| && r in JoinGroup(groups[k], panel) ==> r in LeftJoin(groups, panel)
  {
    if groups != [] {
      LeftJoinMembers(groups[1..], panel);
      assert forall k :: 0 < k < |groups| ==> groups[k] == groups[1..][k - 1];
      assert forall r :: r in LeftJoin(groups, panel) <==>
        r in JoinGroup(groups[0], panel) || r in LeftJoin(groups[1..], panel);
    }
  }

  /** `sort_values(ascending=False)`: larger first, +inf before any finite value, NaN last. */
  predicate PercentAtLeast(a: ShareRow, b: ShareRow)
  {
    match (a.percent, b.percent)
    case (_, NaN) => true
    case (NaN, _) => false
    case (PosInfinity, _) => true
    case (Finite(_), PosInfinity) => false
    case (Finite(x), Finite(y)) => x >= y
  }

  lemma PercentOrderIsTotal()
    ensures TotalPreorder((a: ShareRow, b: ShareRow) => PercentAtLeast(a, b))
  {
  }

  /** `demo_to_percent(dataframe, demographic_df, characteristic)`, before rounding. */
  function DemoToPercent(rows: seq<Sighting>, panel: seq<PanelRow>): seq<ShareRow>
  {
    SortBy(LeftJoin(Tallies(ViewPairs(rows)), panel), (a: ShareRow, b: ShareRow) => PercentAtLeast(a, b))
  }

  /** What each output row says, stated against the inputs. */
  ghost predicate DescribesGroup(r: ShareRow, rows: seq<Sighting>, panel: seq<PanelRow>)
  {
    && r.userViewCount == |Viewers(rows, r.value)|
    && 1 <= r.userViewCount
    && (exists i :: 0 <= i < |rows| && rows[i].value == Some(r.value))
    && (r.panelCount.None? <==> forall i :: 0 <= i < |panel| ==> panel[i].value != Some(r.value))
    && (r.panelCount.Some? ==> exists i :: 0 <= i < |panel| && panel[i] == PanelRow(Some(r.value), r.panelCount.value))
    && r.percent == PercentOf(r.userViewCount, r.panelCount)
  }

  lemma {:induction false} JoinGroupDescribes(t: Tally<string>, rows: seq<Sighting>, panel: seq<PanelRow>)
    requires t.count == |Viewers(rows, t.key)| && 1 <= t.count
    requires exists i :: 0 <= i < |rows| && rows[i].value == Some(t.key)
    ensures forall r :: r in JoinGroup(t, panel) ==> r.value == t.key && DescribesGroup(r, rows, panel)
    ensures JoinGroup(t, panel) != []
  {
    var cs := PanelCounts(panel, t.key);
    var joined := JoinGroup(t, panel);
    forall r | r in joined
      ensures r.value == t.key && DescribesGroup(r, rows, panel)
    {
      if cs != [] {
        var k :| 0 <= k < |cs| && joined[k] == r;
        assert cs[k] in cs;
        if forall i :: 0 <= i < |panel| ==> panel[i].value != Some(t.key) {
          NoCountsWithoutMatch(panel, t.key);
        }
      }
    }
  }

  /** Every row of the left join, before sorting, describes its group. */
  lemma JoinedRowsDescribe(rows: seq<Sighting>, panel: seq<PanelRow>)
    ensures forall r :: r in LeftJoin(Tallies(ViewPairs(rows)), panel) ==> DescribesGroup(r, rows, panel)
  {
    var pairs := ViewPairs(rows);
    var groups := Tallies(pairs);
    TalliesSpec(pairs);
    ViewPairsKeys(rows);
    LeftJoinMembers(groups, panel);
    forall r | r in LeftJoin(groups, panel)
      ensures DescribesGroup(r, rows, panel)
    {
      var k :| 0 <= k < |groups| && r in JoinGroup(groups[k], panel);
      var t := groups[k];
      assert t in groups;
      ViewPairsUsers(rows, t.key);
      JoinGroupDescribes(t, rows, panel);
    }
  }

  /** Every non-null characteristic of the input has a row in the left join. */
  lemma JoinedRowsCover(rows: seq<Sighting>, panel: seq<PanelRow>)
    ensures forall i :: 0 <= i < |rows| && rows[i].value.Some? ==>
              exists r :: r in LeftJoin(Tallies(ViewPairs(rows)), panel) && r.value == rows[i].value.value
  {
    var pairs := ViewPairs(rows);
    var groups := Tallies(pairs);
    TalliesSpec(pairs);
    ViewPairsKeys(rows);
    LeftJoinMembers(groups, panel);
    forall i | 0 <= i < |rows| && rows[i].value.Some?
      ensures exists r :: r in LeftJoin(groups, panel) && r.value == rows[i].value.value
    {
      var v := rows[i].value.value;
      var k :| 0 <= k < |groups| && TallyKeys(groups)[k] == v;
      var t := groups[k];
      assert t in groups;
      ViewPairsUsers(rows, t.key);
      JoinGroupDescribes(t, rows, panel);
      var r := JoinGroup(t, panel)[0];
      assert r in JoinGroup(t, panel);
    }
  }

  function ValuesOf(rs: seq<ShareRow>): seq<string>
  {
    seq(|rs|, i requires 0 <= i < |rs| => rs[i].value)
  }

  /**
   * Every output row describes one group of the input: its distinct-user count,
   * its left-joined panel count (absent exactly when the panel lacks the group),
   * and its percentage; every non-null characteristic gets at least one row;
   * rows are sorted by percentage, largest first, NaN last.
   */
  lemma DemoToPercentSpec(rows: seq<Sighting>, panel: seq<PanelRow>)
    ensures forall r :: r in DemoToPercent(rows, panel) ==> DescribesGroup(r, rows, panel)
    ensures forall i :: 0 <= i < |rows| && rows[i].value.Some? ==>
              exists r :: r in DemoToPercent(rows, panel) && r.value == rows[i].value.value
    ensures Sorted(DemoToPercent(rows, panel), (a: ShareRow, b: ShareRow) => PercentAtLeast(a, b))
  {
    var joined := LeftJoin(Tallies(ViewPairs(rows)), panel);
    var out := DemoToPercent(rows, panel);
    JoinedRowsDescribe(rows, panel);
    JoinedRowsCover(rows, panel);
    assert multiset(out) == multiset(joined);
    assert forall r :: r in out <==> r in joined by {
      forall r
        ensures r in out <==> r in joined
      {
        assert r in out <==> r in multiset(out);
        assert r in joined <==> r in multiset(joined);
      }
    }
    PercentOrderIsTotal();
    SortBySorted(joined, (a: ShareRow, b: ShareRow) => PercentAtLeast(a, b));
  }

  /** With a panel that lists each group once, there is exactly one row per group. */
  lemma DemoToPercentOneRowPerGroup(rows: seq<Sighting>, panel: seq<PanelRow>)
    requires forall i, j :: 0 <= i < j < |panel| ==> panel[i].value != panel[j].value
    ensures NoDuplicates(ValuesOf(DemoToPercent(rows, panel)))
    ensures |DemoToPercent(rows, panel)| == |Tallies(ViewPairs(rows))|
  {
    var pairs := ViewPairs(rows);
    var groups := Tallies(pairs);
    TalliesSpec(pairs);
    var joined := LeftJoin(groups, panel);
    OneRowPerGroup(groups, panel);
    var out := DemoToPercent(rows, panel);
    PermutationKeepsDistinctValues(joined, out);
  }

  /** Reordering rows whose characteristics are distinct keeps them distinct. */
  lemma PermutationKeepsDistinctValues(a: seq<ShareRow>, b: seq<ShareRow>)
    requires NoDuplicates(ValuesOf(a)) && multiset(a) == multiset(b)
    ensures NoDuplicates(ValuesOf(b))
  {
    DistinctValuesElements(a);
    PermutationNoDuplicates(a, b);
    forall i, j | 0 <= i < j < |b|
      ensures ValuesOf(b)[i] != ValuesOf(b)[j]
    {
      assert b[i] in multiset(a) && b[j] in multiset(a);
      var p :| 0 <= p < |a| && a[p] == b[i];
      var q :| 0 <= q < |a| && a[q] == b[j];
      if p != q {
        assert ValuesOf(a)[p] != ValuesOf(a)[q];
      }
    }
  }

  lemma DistinctValuesElements(s: seq<ShareRow>)
    requires NoDuplicates(ValuesOf(s))
    ensures NoDuplicates(s)
  {
    forall i, j | 0 <= i < j < |s|
      ensures s[i] != s[j]
    {
      assert ValuesOf(s)[i] != ValuesOf(s)[j];
    }
  }

  lemma OneRowPerGroup(groups: seq<Tally<string>>, panel: seq<PanelRow>)
    requires NoDuplicates(TallyKeys(groups))
    requires forall i, j :: 0 <= i < j < |panel| ==> panel[i].value != panel[j].value
    ensures NoDuplicates(ValuesOf(LeftJoin(groups, panel)))
    ensures |LeftJoin(groups, panel)| == |groups|
    ensures forall i :: 0 <= i < |groups| ==> ValuesOf(LeftJoin(groups, panel))[i] == groups[i].key
  {
    JoinedInGroupOrder(groups, panel);
    assert ValuesOf(LeftJoin(groups, panel)) == TallyKeys(groups);
  }

  /** With one panel row per value, the join gives one row per group, in group order. */
  lemma {:induction false} JoinedInGroupOrder(groups: seq<Tally<string>>, panel: seq<PanelRow>)
    requires forall i, j :: 0 <= i < j < |panel| ==> panel[i].value != panel[j].value
    ensures |LeftJoin(groups, panel)| == |groups|
    ensures forall i :: 0 <= i < |groups| ==> LeftJoin(groups, panel)[i].value == groups[i].key
  {
    if groups != [] {
      JoinedInGroupOrder(groups[1..], panel);
      AtMostOneCount(panel, groups[0].key);
      JoinGroupValues(groups[0], panel);
      var head := JoinGroup(groups[0], panel);
      var tail := LeftJoin(groups[1..], panel);
      var r := LeftJoin(groups, panel);
      assert |head| == 1;
      assert r == head + tail;
      assert forall i :: 0 < i < |r| ==> r[i] == tail[i - 1];
      assert forall i :: 0 < i < |groups| ==> groups[i] == groups[1..][i - 1];
    }
  }

  /** A group's joined rows all carry its value: one row without a count, or one per panel count. */
  lemma JoinGroupValues(t: Tally<string>, panel: seq<PanelRow>)
    ensures |JoinGroup(t, panel)| == if |PanelCounts(panel, t.key)| == 0 then 1 else |PanelCounts(panel, t.key)|
    ensures forall i :: 0 <= i < |JoinGroup(t, panel)| ==> JoinGroup(t, panel)[i].value == t.key
  {
  }

  lemma {:induction false} AtMostOneCount(panel: seq<PanelRow>, v: string)
    requires forall i, j :: 0 <= i < j < |panel| ==> panel[i].value != panel[j].value
    ensures |PanelCounts(panel, v)| <= 1
  {
    if panel != [] {
      assert forall i, j :: 0 <= i < j < |panel[1..]| ==> panel[1..][i].value != panel[1..][j].value by {
        assert forall i :: 0 <= i < |panel[1..]| ==> panel[1..][i] == panel[i + 1];
      }
      AtMostOneCount(panel[1..], v);
      if panel[0].value == Some(v) {
        assert forall i :: 0 <= i < |panel[1..]| ==> panel[1..][i].value != Some(v) by {
          assert forall i :: 0 <= i < |panel[1..]| ==> panel[1..][i] == panel[i + 1];
        }
        NoCountsWithoutMatch(panel[1..], v);
      }
    }
  }

  /** The join of the panel {"A": 4, "B": 0} with one viewer in each group. */
  lemma JoinExample()
    ensures LeftJoin([Tally("A", 1), Tally("B", 1)], [PanelRow(Some("A"), 4), PanelRow(Some("B"), 0)])
            == [ShareRow("A", 1, Some(4), Finite(25.0)), ShareRow("B", 1, Some(0), PosInfinity)]
  {
    var panel := [PanelRow(Some("A"), 4), PanelRow(Some("B"), 0)];
    assert panel[1..][1..] == [];
    assert PanelCounts(panel, "A") == [4];
    assert PanelCounts(panel, "B") == [0];
    assert [Tally("A", 1), Tally("B", 1)][1..][1..] == [];
  }

  /** 1/0 is +inf, which sorts ahead of A's 25.0. */
  lemma SortExample()
    ensures SortBy([ShareRow("A", 1, Some(4), Finite(25.0)), ShareRow("B", 1, Some(0), PosInfinity)],
                   (a: ShareRow, b: ShareRow) => PercentAtLeast(a, b))
            == [ShareRow("B", 1, Some(0), PosInfinity), ShareRow("A", 1, Some(4), Finite(25.0))]
  {
    var a := ShareRow("A", 1, Some(4), Finite(25.0));
    var b := ShareRow("B", 1, Some(0), PosInfinity);
    var below := (x: ShareRow, y: ShareRow) => PercentAtLeast(x, y);
    assert [a, b][1..] == [b];
    assert SortBy([b], below) == [b];
  }
}

/**
 * `get_top_groups`: group sightings in a window, aggregated per group slug,
 * ordered by the number of distinct users who were recommended the group,
 * with the first and last sighting converted to calendar dates in place.
 */
module Groups {
  import opened Common
  import opened Calendar
  import opened Ranking
  import Posts
  import Monitoring

  /** A row of `facebook-groups`. */
  datatype GroupSighting = GroupSighting(
    userId: string,
    timestamp: int,
    groupName: Option<string>,
    groupSlug: Option<string>,
    nMembers: Option<int>)

  datatype GroupFilters = GroupFilters(start: int, end: int, keywords: string)

  /** The WHERE clause: inside the window, both ends included, and a name matching the keywords. */
  predicate GroupSelected(s: GroupSighting, f: GroupFilters, matches: Monitoring.Matcher)
  {
    f.start <= s.timestamp && s.timestamp <= f.end
    && s.groupName.Some? && matches(f.keywords, s.groupName.value)
  }

  function GroupKeep(f: GroupFilters, matches: Monitoring.Matcher): GroupSighting -> bool
  {
    (s: GroupSighting) => GroupSelected(s, f, matches)
  }

  function SlugOf(s: GroupSighting): Option<string>
  {
    s.groupSlug
  }

  function SightingUser(s: GroupSighting): string
  {
    s.userId
  }

  // ---------------------------------------------------------------------------
  // Aggregates

  /** `MIN(group_name)`: the least non-null name, or NULL when every name is NULL. */
  function LeastName(ms: seq<GroupSighting>): (r: Option<string>)
    ensures r.None? <==> forall i :: 0 <= i < |ms| ==> ms[i].groupName.None?
    ensures r.Some? ==> exists i :: 0 <= i < |ms| && ms[i].groupName == r
    ensures r.Some? ==> forall i :: 0 <= i < |ms| && ms[i].groupName.Some? ==> TextAtMost(r.value, ms[i].groupName.value)
  {
    if ms == [] then None
    else
      var rest := LeastName(ms[1..]);
      var here := ms[0].groupName;
      TextOrder();
      assert forall i :: 0 < i < |ms| ==> ms[i] == ms[1..][i - 1];
      if here.None? then rest
      else if rest.None? || TextAtMost(here.value, rest.value) then here
      else rest
  }

  /** `MAX(n_members)`: the largest non-null member count, or NULL when every one is NULL. */
  function MostMembers(ms: seq<GroupSighting>): (r: Option<int>)
    ensures r.None? <==> forall i :: 0 <= i < |ms| ==> ms[i].nMembers.None?
    ensures r.Some? ==> exists i :: 0 <= i < |ms| && ms[i].nMembers == r
    ensures r.Some? ==> forall i :: 0 <= i < |ms| && ms[i].nMembers.Some? ==> ms[i].nMembers.value <= r.value
  {
    if ms == [] then None
    else
      var rest := MostMembers(ms[1..]);
      var here := ms[0].nMembers;
      assert forall i :: 0 < i < |ms| ==> ms[i] == ms[1..][i - 1];
      if here.None? then rest
      else if rest.None? || rest.value <= here.value then here
      else rest
  }

  /** `MIN(timestamp)` of a non-empty group. */
  function FirstSeen(ms: seq<GroupSighting>): (r: int)
    ensures |ms| > 0 ==> exists i :: 0 <= i < |ms| && ms[i].timestamp == r
    ensures forall i :: 0 <= i < |ms| ==> r <= ms[i].timestamp
  {
    if |ms| == 0 then 0
    else if |ms| == 1 then ms[0].timestamp
    else
      var rest := FirstSeen(ms[1..]);
      assert forall i :: 0 < i < |ms| ==> ms[i] == ms[1..][i - 1];
      if ms[0].timestamp <= rest then ms[0].timestamp else rest
  }

  /** `MAX(timestamp)` of a non-empty group. */
  function LastSeen(ms: seq<GroupSighting>): (r: int)
    ensures |ms| > 0 ==> exists i :: 0 <= i < |ms| && ms[i].timestamp == r
    ensures forall i :: 0 <= i < |ms| ==> ms[i].timestamp <= r
  {
    if |ms| == 0 then 0
    else if |ms| == 1 then ms[0].timestamp
    else
      var rest := LastSeen(ms[1..]);
      assert forall i :: 0 < i < |ms| ==> ms[i] == ms[1..][i - 1];
      if rest <= ms[0].timestamp then ms[0].timestamp else rest
  }

  /** In a non-empty group the first sighting is no later than the last. */
  lemma FirstSeenNotAfterLast(ms: seq<GroupSighting>)
    requires |ms| > 0
    ensures FirstSeen(ms) <= LastSeen(ms)
  {
    assert FirstSeen(ms) <= ms[0].timestamp <= LastSeen(ms);
  }

  // ---------------------------------------------------------------------------
  // The query

  /** A sighting cell: epoch seconds as the query returns it, or the date it is converted to. */
  datatype Sighted = Seconds(seconds: int) | OnDay(date: Date)

  /** One output row of `get_top_groups`. */
  datatype GroupRow = GroupRow(
    groupName: Option<string>,
    nUserRecommend: nat,
    firstSighted: Sighted,
    lastSighted: Sighted,
    groupSlug: Option<string>,
    nMembers: Option<int>)

  function SlugIs(g: Option<string>): GroupSighting -> bool
  {
    (s: GroupSighting) => s.groupSlug == g
  }

  /** The selected sightings of the group with slug `g`. */
  function Members(rows: seq<GroupSighting>, f: GroupFilters, matches: Monitoring.Matcher, g: Option<string>): seq<GroupSighting>
  {
    Filter(Filter(rows, GroupKeep(f, matches)), SlugIs(g))
  }

  lemma MembersSpec(rows: seq<GroupSighting>, f: GroupFilters, matches: Monitoring.Matcher, g: Option<string>)
    ensures forall s :: s in Members(rows, f, matches, g) <==> s in rows && GroupSelected(s, f, matches) && s.groupSlug == g
  {
    var sel := Filter(rows, GroupKeep(f, matches));
    FilterMembers(rows, GroupKeep(f, matches));
    FilterMembers(sel, SlugIs(g));
  }

  /** Every aggregate of one group. */
  function Aggregate(ms: seq<GroupSighting>, slug: Option<string>, users: nat): GroupRow
  {
    GroupRow(LeastName(ms), users, Seconds(FirstSeen(ms)), Seconds(LastSeen(ms)), slug, MostMembers(ms))
  }

  /** `GROUP BY group_slug`, in order of first appearance. */
  function GroupedRows(rows: seq<GroupSighting>, f: GroupFilters, matches: Monitoring.Matcher): seq<GroupRow>
  {
    var ts := Tallies(KeyedUsers(Filter(rows, GroupKeep(f, matches)), SlugOf, SightingUser));
    seq(|ts|, i requires 0 <= i < |ts| => Aggregate(Members(rows, f, matches, ts[i].key), ts[i].key, ts[i].count))
  }

  predicate UsersAtLeast(a: GroupRow, b: GroupRow)
  {
    a.nUserRecommend >= b.nUserRecommend
  }

  lemma UsersOrderIsTotal()
    ensures TotalPreorder((a: GroupRow, b: GroupRow) => UsersAtLeast(a, b))
  {
  }

  /** The query of `get_top_groups`, `ORDER BY n_user_recommend DESC`. */
  function TopGroups(rows: seq<GroupSighting>, f: GroupFilters, matches: Monitoring.Matcher): seq<GroupRow>
  {
    SortBy(GroupedRows(rows, f, matches), (a: GroupRow, b: GroupRow) => UsersAtLeast(a, b))
  }

  /** What an output row says about the selected sightings of its group. */
  ghost predicate DescribesGroup(r: GroupRow, rows: seq<GroupSighting>, f: GroupFilters, matches: Monitoring.Matcher)
  {
    var ms := Members(rows, f, matches, r.groupSlug);
    && |ms| > 0
    && r.nUserRecommend == |GroupUsers(rows, GroupKeep(f, matches), SlugOf, SightingUser, r.groupSlug)|
    && 1 <= r.nUserRecommend
    && r.groupName == LeastName(ms) && r.groupName.Some?
    && r.firstSighted == Seconds(FirstSeen(ms))
    && r.lastSighted == Seconds(LastSeen(ms))
    && FirstSeen(ms) <= LastSeen(ms)
    && r.nMembers == MostMembers(ms)
  }

  /** A group with a selected sighting has members and a non-null least name. */
  lemma SelectedGroupHasName(rows: seq<GroupSighting>, f: GroupFilters, matches: Monitoring.Matcher, s: GroupSighting)
    requires s in rows && GroupSelected(s, f, matches)
    ensures |Members(rows, f, matches, s.groupSlug)| > 0
    ensures LeastName(Members(rows, f, matches, s.groupSlug)).Some?
  {
    var ms := Members(rows, f, matches, s.groupSlug);
    MembersSpec(rows, f, matches, s.groupSlug);
    assert s in ms;
    var k :| 0 <= k < |ms| && ms[k] == s;
    assert ms[k].groupName.Some?;
  }

  /** The aggregate of a group with selected sightings describes it. */
  lemma AggregateDescribes(rows: seq<GroupSighting>, f: GroupFilters, matches: Monitoring.Matcher,
                           g: Option<string>, users: nat)
    requires |Members(rows, f, matches, g)| > 0 && LeastName(Members(rows, f, matches, g)).Some?
    requires users == |GroupUsers(rows, GroupKeep(f, matches), SlugOf, SightingUser, g)| && 1 <= users
    ensures DescribesGroup(Aggregate(Members(rows, f, matches, g), g, users), rows, f, matches)
  {
    FirstSeenNotAfterLast(Members(rows, f, matches, g));
  }

  /** The `i`-th grouped row aggregates the selected sightings of its slug. */
  lemma GroupedRowDescribes(rows: seq<GroupSighting>, f: GroupFilters, matches: Monitoring.Matcher, i: nat)
    requires i < |GroupedRows(rows, f, matches)|
    ensures DescribesGroup(GroupedRows(rows, f, matches)[i], rows, f, matches)
  {
    var sel := Filter(rows, GroupKeep(f, matches));
    var pairs := KeyedUsers(sel, SlugOf, SightingUser);
    var ts := Tallies(pairs);
    TalliesSpec(pairs);
    var t := ts[i];
    assert t in ts;
    KeptUsers(rows, GroupKeep(f, matches), SlugOf, SightingUser, t.key);
    var m :| 0 <= m < |pairs| && GroupKeys(pairs)[m] == t.key;
    FilterMembers(rows, GroupKeep(f, matches));
    assert sel[m] in sel;
    assert sel[m] in rows && GroupSelected(sel[m], f, matches) && sel[m].groupSlug == t.key;
    SelectedGroupHasName(rows, f, matches, sel[m]);
    AggregateDescribes(rows, f, matches, t.key, t.count);
  }

  /** The grouped rows carry the slugs of the tallies, one per distinct slug. */
  lemma GroupedRowsSlugs(rows: seq<GroupSighting>, f: GroupFilters, matches: Monitoring.Matcher)
    ensures NoDuplicates(SlugsOf(GroupedRows(rows, f, matches)))
    ensures forall s :: s in rows && GroupSelected(s, f, matches) ==> s.groupSlug in SlugsOf(GroupedRows(rows, f, matches))
  {
    var sel := Filter(rows, GroupKeep(f, matches));
    var pairs := KeyedUsers(sel, SlugOf, SightingUser);
    var ts := Tallies(pairs);
    var out := GroupedRows(rows, f, matches);
    TalliesSpec(pairs);
    assert SlugsOf(out) == TallyKeys(ts);
    FilterMembers(rows, GroupKeep(f, matches));
    forall s | s in rows && GroupSelected(s, f, matches)
      ensures s.groupSlug in TallyKeys(ts)
    {
      assert s in sel;
      var m :| 0 <= m < |sel| && sel[m] == s;
      assert pairs[m].0 == s.groupSlug;
    }
  }

  function SlugsOf(rs: seq<GroupRow>): seq<Option<string>>
  {
    seq(|rs|, i requires 0 <= i < |rs| => rs[i].groupSlug)
  }

  /** Sorting keeps exactly the grouped rows. */
  lemma TopGroupsPermutation(rows: seq<GroupSighting>, f: GroupFilters, matches: Monitoring.Matcher)
    ensures multiset(TopGroups(rows, f, matches)) == multiset(GroupedRows(rows, f, matches))
    ensures forall r :: r in TopGroups(rows, f, matches) <==> r in GroupedRows(rows, f, matches)
  {
    var grouped := GroupedRows(rows, f, matches);
    var out := TopGroups(rows, f, matches);
    assert multiset(out) == multiset(grouped);
    forall r
      ensures r in out <==> r in grouped
    {
      assert r in out <==> r in multiset(out);
      assert r in grouped <==> r in multiset(grouped);
    }
  }

  lemma TopGroupsDescribe(rows: seq<GroupSighting>, f: GroupFilters, matches: Monitoring.Matcher)
    ensures forall r :: r in TopGroups(rows, f, matches) ==> DescribesGroup(r, rows, f, matches)
  {
    var grouped := GroupedRows(rows, f, matches);
    TopGroupsPermutation(rows, f, matches);
    forall r | r in TopGroups(rows, f, matches)
      ensures DescribesGroup(r, rows, f, matches)
    {
      var i :| 0 <= i < |grouped| && grouped[i] == r;
      GroupedRowDescribes(rows, f, matches, i);
    }
  }

  lemma TopGroupsDistinct(rows: seq<GroupSighting>, f: GroupFilters, matches: Monitoring.Matcher)
    ensures forall i, j :: 0 <= i < j < |TopGroups(rows, f, matches)| ==>
              TopGroups(rows, f, matches)[i].groupSlug != TopGroups(rows, f, matches)[j].groupSlug
  {
    TopGroupsPermutation(rows, f, matches);
    GroupedRowsSlugs(rows, f, matches);
    SlugsStayDistinct(GroupedRows(rows, f, matches), TopGroups(rows, f, matches));
  }

  lemma TopGroupsCover(rows: seq<GroupSighting>, f: GroupFilters, matches: Monitoring.Matcher)
    ensures forall s :: s in rows && GroupSelected(s, f, matches) ==>
              exists r :: r in TopGroups(rows, f, matches) && r.groupSlug == s.groupSlug
  {
    var grouped := GroupedRows(rows, f, matches);
    TopGroupsPermutation(rows, f, matches);
    GroupedRowsSlugs(rows, f, matches);
    forall s | s in rows && GroupSelected(s, f, matches)
      ensures exists r :: r in TopGroups(rows, f, matches) && r.groupSlug == s.groupSlug
    {
      var i :| 0 <= i < |grouped| && SlugsOf(grouped)[i] == s.groupSlug;
      assert grouped[i] in grouped;
    }
  }

  /**
   * One row per selected group slug, no slug twice, ordered by the number of
   * distinct users, each row aggregating exactly its group's selected sightings.
   */
  lemma TopGroupsSpec(rows: seq<GroupSighting>, f: GroupFilters, matches: Monitoring.Matcher)
    ensures forall r :: r in TopGroups(rows, f, matches) ==> DescribesGroup(r, rows, f, matches)
    ensures forall i, j :: 0 <= i < j < |TopGroups(rows, f, matches)| ==>
              TopGroups(rows, f, matches)[i].groupSlug != TopGroups(rows, f, matches)[j].groupSlug
    ensures forall s :: s in rows && GroupSelected(s, f, matches) ==>
              exists r :: r in TopGroups(rows, f, matches) && r.groupSlug == s.groupSlug
    ensures forall i, j :: 0 <= i < j < |TopGroups(rows, f, matches)| ==>
              TopGroups(rows, f, matches)[i].nUserRecommend >= TopGroups(rows, f, matches)[j].nUserRecommend
  {
    TopGroupsDescribe(rows, f, matches);
    TopGroupsDistinct(rows, f, matches);
    TopGroupsCover(rows, f, matches);
    UsersOrderIsTotal();
    SortBySorted(GroupedRows(rows, f, matches), (a: GroupRow, b: GroupRow) => UsersAtLeast(a, b));
  }

  lemma SlugsStayDistinct(a: seq<GroupRow>, b: seq<GroupRow>)
    requires multiset(a) == multiset(b)
    requires NoDuplicates(SlugsOf(a))
    ensures forall i, j :: 0 <= i < j < |b| ==> b[i].groupSlug != b[j].groupSlug
  {
    var slugs := SlugsOf(a);
    forall i, j | 0 <= i < j < |a|
      ensures a[i] != a[j]
    {
      assert slugs[i] != slugs[j];
    }
    PermutationNoDuplicates(a, b);
    forall i, j | 0 <= i < j < |b|
      ensures b[i].groupSlug != b[j].groupSlug
    {
      assert b[i] in multiset(a) && b[j] in multiset(a);
      var p :| 0 <= p < |a| && a[p] == b[i];
      var q :| 0 <= q < |a| && a[q] == b[j];
      if p != q {
        assert slugs[p] != slugs[q];
      }
    }
  }

  // ---------------------------------------------------------------------------
  // The result frame

  datatype SightedColumn = FirstSighted | LastSighted

  datatype ConversionError =
    | OutOfBounds(second: int)        // OutOfBoundsDatetime from pandas.to_datetime
    | NotConvertible(date: Date)      // a value that is already a date, under unit='s'

  function CellOf(r: GroupRow, c: SightedColumn): Sighted
  {
    match c
    case FirstSighted => r.firstSighted
    case LastSighted => r.lastSighted
  }

  function WithCell(r: GroupRow, c: SightedColumn, v: Sighted): GroupRow
  {
    match c
    case FirstSighted => r.(firstSighted := v)
    case LastSighted => r.(lastSighted := v)
  }

  predicate Convertible(v: Sighted)
  {
    v.Seconds? && Posts.InDatetimeRange(v.seconds)
  }

  /** The date a convertible cell becomes. */
  function DayOf(v: Sighted): Date
  {
    match v
    case Seconds(s) => EpochToDate(s)
    case OnDay(d) => d
  }

  /** The rows after `pd.to_datetime(col, unit='s').apply(lambda x: x.date())` on column `c`. */
  function ConvertedColumn(rows: seq<GroupRow>, c: SightedColumn): seq<GroupRow>
  {
    seq(|rows|, i requires 0 <= i < |rows| => WithCell(rows[i], c, OnDay(DayOf(CellOf(rows[i], c)))))
  }

  /** Computes the converted column `c`, or the error of the first cell that cannot be converted. */
  method ConvertColumn(rows: seq<GroupRow>, c: SightedColumn) returns (converted: seq<GroupRow>, error: Option<ConversionError>)
    ensures error.None? <==> forall i :: 0 <= i < |rows| ==> Convertible(CellOf(rows[i], c))
    ensures error.None? ==> converted == ConvertedColumn(rows, c)
  {
    converted := [];
    var i := 0;
    while i < |rows|
      invariant 0 <= i <= |rows|
      invariant forall k :: 0 <= k < i ==> Convertible(CellOf(rows[k], c))
      invariant converted == ConvertedColumn(rows[..i], c)
    {
      ConvertedColumnStep(rows, c, i);
      match CellOf(rows[i], c) {
        case OnDay(d) =>
          return converted, Some(NotConvertible(d));
        case Seconds(s) =>
          if !Posts.InDatetimeRange(s) {
            return converted, Some(OutOfBounds(s));
          }
          converted := converted + [WithCell(rows[i], c, OnDay(EpochToDate(s)))];
      }
      i := i + 1;
    }
    assert rows[..i] == rows;
    error := None;
  }

  /** The converted prefix grows by the converted row. */
  lemma ConvertedColumnStep(rows: seq<GroupRow>, c: SightedColumn, i: nat)
    requires i < |rows|
    ensures ConvertedColumn(rows[..i + 1], c)
            == ConvertedColumn(rows[..i], c) + [WithCell(rows[i], c, OnDay(DayOf(CellOf(rows[i], c))))]
  {
  }

  /** Converting `first_sighted` leaves `last_sighted` as it was; converting both converts each row. */
  lemma BothColumnsConverted(rows: seq<GroupRow>)
    ensures forall i :: 0 <= i < |rows| ==> CellOf(ConvertedColumn(rows, FirstSighted)[i], LastSighted) == rows[i].lastSighted
    ensures |ConvertedColumn(ConvertedColumn(rows, FirstSighted), LastSighted)| == |rows|
    ensures forall i :: 0 <= i < |rows| ==>
              ConvertedColumn(ConvertedColumn(rows, FirstSighted), LastSighted)[i]
              == rows[i].(firstSighted := OnDay(DayOf(rows[i].firstSighted)), lastSighted := OnDay(DayOf(rows[i].lastSighted)))
  {
  }

  /** The frame returned by `read_sql_query`, whose sighting columns are reassigned. */
  class GroupFrame {
    var rows: seq<GroupRow>

    constructor (rows: seq<GroupRow>)
      ensures this.rows == rows
    {
      this.rows := rows;
    }

    /**
     * `df[c] = pd.to_datetime(df[c], unit='s').apply(lambda x: x.date())`:
     * the whole new column is computed first, so on error the frame is unchanged.
     */
    method ColumnToDates(c: SightedColumn) returns (outcome: Outcome<ConversionError>)
      modifies this
      ensures outcome.Pass? <==> forall i :: 0 <= i < |old(rows)| ==> Convertible(CellOf(old(rows)[i], c))
      ensures outcome.Pass? ==> rows == ConvertedColumn(old(rows), c)
      ensures outcome.Fail? ==> rows == old(rows)
    {
      var converted, error := ConvertColumn(rows, c);
      if error.Some? {
        return Fail(error.value);
      }
      rows := converted;
      outcome := Pass;
    }

    /** The two reassignments of `get_top_groups`: `first_sighted`, then `last_sighted`. */
    method SightingsToDates() returns (outcome: Outcome<ConversionError>)
      modifies this
      ensures outcome.Pass? <==> forall i :: 0 <= i < |old(rows)| ==>
                Convertible(old(rows)[i].firstSighted) && Convertible(old(rows)[i].lastSighted)
      ensures outcome.Pass? ==> |rows| == |old(rows)| && forall i :: 0 <= i < |rows| ==>
                rows[i] == old(rows)[i].(firstSighted := OnDay(DayOf(old(rows)[i].firstSighted)),
                                         lastSighted := OnDay(DayOf(old(rows)[i].lastSighted)))
      ensures outcome.Fail? ==>
                rows == if forall i :: 0 <= i < |old(rows)| ==> Convertible(old(rows)[i].firstSighted)
                        then ConvertedColumn(old(rows), FirstSighted) else old(rows)
    {
      BothColumnsConverted(rows);
      outcome := ColumnToDates(FirstSighted);
      if outcome.Fail? {
        return;
      }
      outcome := ColumnToDates(LastSighted);
    }
  }

  /** Every ranked group still holds epoch seconds, the first no later than the last. */
  lemma RankedSightingsInOrder(rows: seq<GroupSighting>, f: GroupFilters, matches: Monitoring.Matcher)
    ensures forall r :: r in TopGroups(rows, f, matches) ==>
              r.firstSighted.Seconds? && r.lastSighted.Seconds? && r.firstSighted.seconds <= r.lastSighted.seconds
  {
    TopGroupsSpec(rows, f, matches);
  }

  /**
   * `get_top_groups`: the ranked groups, with both sighting columns turned
   * into dates; the first sighting's date is never after the last's.
   */
  method GetTopGroups(sightings: seq<GroupSighting>, f: GroupFilters, matches: Monitoring.Matcher)
    returns (frame: GroupFrame, outcome: Outcome<ConversionError>)
    ensures fresh(frame)
    ensures var ranked := TopGroups(sightings, f, matches);
      && (outcome.Pass? <==> forall i :: 0 <= i < |ranked| ==>
            Convertible(ranked[i].firstSighted) && Convertible(ranked[i].lastSighted))
      && (outcome.Pass? ==> |frame.rows| == |ranked| && forall i :: 0 <= i < |ranked| ==>
            && frame.rows[i] == ranked[i].(firstSighted := OnDay(DayOf(ranked[i].firstSighted)),
                                           lastSighted := OnDay(DayOf(ranked[i].lastSighted)))
            && AtOrBefore(frame.rows[i].firstSighted.date, frame.rows[i].lastSighted.date))
  {
    var ranked := TopGroups(sightings, f, matches);
    frame := new GroupFrame(ranked);
    outcome := frame.SightingsToDates();
    if outcome.Pass? {
      RankedSightingsInOrder(sightings, f, matches);
      forall i | 0 <= i < |ranked|
        ensures AtOrBefore(frame.rows[i].firstSighted.date, frame.rows[i].lastSighted.date)
      {
        assert ranked[i] in ranked;
        EpochToDateMonotone(ranked[i].firstSighted.seconds, ranked[i].lastSighted.seconds);
      }
    }
  }
}

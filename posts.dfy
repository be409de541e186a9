/**
 * Post rows and the post-processing applied to them: de-duplication on a
 * five-column key, the leading `date` column derived from `timestamp`, and
 * the removal of test accounts by user-id length.
 */
module Posts {
  import opened Common
  import opened Calendar

  /** A column value outside the five that de-duplication looks at. */
  datatype Cell = Null | Text(text: string) | Number(number: int) | Truth(truth: bool)

  /**
   * One row of a post query. The five named fields are the de-duplication
   * key; `others` holds the remaining projected columns in query order.
   */
  datatype Post = Post(
    timestamp: int,
    userId: string,
    url: Option<string>,
    poster: Option<string>,
    postText: Option<string>,
    others: seq<Cell>)

  /** The `subset` of `drop_duplicates`: timestamp, user_id, url, poster, post_text. */
  datatype DedupKey = DedupKey(
    timestamp: int,
    userId: string,
    url: Option<string>,
    poster: Option<string>,
    postText: Option<string>)

  function KeyOf(p: Post): DedupKey
  {
    DedupKey(p.timestamp, p.userId, p.url, p.poster, p.postText)
  }

  function KeysOf(s: seq<Post>): set<DedupKey>
  {
    set i | 0 <= i < |s| :: KeyOf(s[i])
  }

  predicate UniqueKeys(s: seq<Post>)
  {
    forall i, j :: 0 <= i < j < |s| ==> KeyOf(s[i]) != KeyOf(s[j])
  }

  /** Row `i` is the first row of `s` with its key. */
  predicate IsFirst(s: seq<Post>, i: int)
    requires 0 <= i < |s|
  {
    forall j :: 0 <= j < i ==> KeyOf(s[j]) != KeyOf(s[i])
  }

  lemma KeysOfAppend(s: seq<Post>, p: Post)
    ensures KeysOf(s + [p]) == KeysOf(s) + {KeyOf(p)}
  {
    var t := s + [p];
    assert forall i :: 0 <= i < |s| ==> t[i] == s[i];
    assert t[|s|] == p;
  }

  lemma KeysOfPrefix(s: seq<Post>)
    requires s != []
    ensures KeysOf(s) == KeysOf(s[..|s| - 1]) + {KeyOf(s[|s| - 1])}
  {
    assert s == s[..|s| - 1] + [s[|s| - 1]];
    KeysOfAppend(s[..|s| - 1], s[|s| - 1]);
  }

  /**
   * `drop_duplicates(subset=..., keep='first')`: every key of the input
   * survives, and no key is left twice.
   */
  function Dedup(s: seq<Post>): (r: seq<Post>)
    ensures KeysOf(r) == KeysOf(s)
    ensures UniqueKeys(r)
  {
    if s == [] then []
    else
      var d := Dedup(s[..|s| - 1]);
      var p := s[|s| - 1];
      KeysOfPrefix(s);
      if KeyOf(p) in KeysOf(d) then d
      else
        KeysOfAppend(d, p);
        assert forall i :: 0 <= i < |d| ==> KeyOf(d[i]) in KeysOf(d);
        d + [p]
  }

  /** One more row: it is kept exactly when its key is new. */
  lemma DedupSnoc(s: seq<Post>, p: Post)
    ensures Dedup(s + [p]) == if KeyOf(p) in KeysOf(Dedup(s)) then Dedup(s) else Dedup(s) + [p]
  {
    assert (s + [p])[..|s|] == s;
  }

  /**
   * Dedup keeps exactly the first occurrence of each key, in input order:
   * the rows it returns sit at increasing positions of `s`, each of them the
   * first of its key, and every such first occurrence is among them.
   */
  lemma {:induction false} DedupKeepsFirsts(s: seq<Post>) returns (idx: seq<nat>)
    ensures PicksAt(Dedup(s), s, idx)
    ensures forall k :: 0 <= k < |idx| ==> IsFirst(s, idx[k])
    ensures forall i :: 0 <= i < |s| && IsFirst(s, i) ==> i in idx
  {
    if s == [] {
      return [];
    }
    var n := |s| - 1;
    var prev := DedupKeepsFirsts(s[..n]);
    FirstsOfPrefix(s);
    PicksOfPrefix(Dedup(s[..n]), s, prev);
    if IsFirst(s, n) {
      idx := prev + [n];
      PickLast(Dedup(s[..n]), s, prev);
    } else {
      idx := prev;
    }
    FirstsCarry(s, prev, idx);
  }

  /** The first occurrences of the prefix, plus the last row when it is one, are those of `s`. */
  lemma FirstsCarry(s: seq<Post>, prev: seq<nat>, idx: seq<nat>)
    requires s != []
    requires forall k :: 0 <= k < |prev| ==> prev[k] < |s| - 1 && IsFirst(s[..|s| - 1], prev[k])
    requires forall i :: 0 <= i < |s| - 1 && IsFirst(s[..|s| - 1], i) ==> i in prev
    requires forall i :: 0 <= i < |s| - 1 ==> (IsFirst(s, i) <==> IsFirst(s[..|s| - 1], i))
    requires idx == if IsFirst(s, |s| - 1) then prev + [|s| - 1] else prev
    ensures forall k :: 0 <= k < |idx| ==> IsFirst(s, idx[k])
    ensures forall i :: 0 <= i < |s| && IsFirst(s, i) ==> i in idx
  {
    var n := |s| - 1;
    forall k | 0 <= k < |idx|
      ensures IsFirst(s, idx[k])
    {
      if k < |prev| {
        assert idx[k] == prev[k];
      }
    }
    forall i | 0 <= i < |s| && IsFirst(s, i)
      ensures i in idx
    {
      if i < n {
        assert i in prev;
      }
    }
  }

  /** The first occurrences in `s` before the last row are those of the prefix; the last row is one exactly when its key is new. */
  lemma FirstsOfPrefix(s: seq<Post>)
    requires s != []
    ensures forall i :: 0 <= i < |s| - 1 ==> (IsFirst(s, i) <==> IsFirst(s[..|s| - 1], i))
    ensures IsFirst(s, |s| - 1) <==> KeyOf(s[|s| - 1]) !in KeysOf(s[..|s| - 1])
    ensures Dedup(s) == if IsFirst(s, |s| - 1) then Dedup(s[..|s| - 1]) + [s[|s| - 1]] else Dedup(s[..|s| - 1])
  {
    var n := |s| - 1;
    var init := s[..n];
    assert forall i :: 0 <= i < n ==> s[i] == init[i];
    if !IsFirst(s, n) {
      var j :| 0 <= j < n && KeyOf(s[j]) == KeyOf(s[n]);
      assert KeyOf(init[j]) in KeysOf(init);
    }
  }

  /** Picks from a prefix of `s` are picks from `s`, all before its last position. */
  lemma PicksOfPrefix(r: seq<Post>, s: seq<Post>, idx: seq<nat>)
    requires s != [] && PicksAt(r, s[..|s| - 1], idx)
    ensures PicksAt(r, s, idx)
    ensures forall k :: 0 <= k < |idx| ==> idx[k] < |s| - 1
  {
  }

  /** The last position may be picked after picks that all come before it. */
  lemma PickLast(r: seq<Post>, s: seq<Post>, idx: seq<nat>)
    requires s != [] && PicksAt(r, s, idx)
    requires forall k :: 0 <= k < |idx| ==> idx[k] < |s| - 1
    ensures PicksAt(r + [s[|s| - 1]], s, idx + [|s| - 1])
  {
  }

  /** A sequence without repeated keys is its own de-duplication. */
  lemma {:induction false} DedupOfUnique(s: seq<Post>)
    requires UniqueKeys(s)
    ensures Dedup(s) == s
  {
    if s != [] {
      var n := |s| - 1;
      var init := s[..n];
      assert UniqueKeys(init) by {
        assert forall i :: 0 <= i < n ==> init[i] == s[i];
      }
      DedupOfUnique(init);
      assert KeyOf(s[n]) !in KeysOf(init) by {
        assert forall i :: 0 <= i < n ==> init[i] == s[i];
      }
      assert s == init + [s[n]];
    }
  }

  /** Dropping duplicates a second time changes nothing. */
  lemma DedupIdempotent(s: seq<Post>)
    ensures Dedup(Dedup(s)) == Dedup(s)
  {
    DedupOfUnique(Dedup(s));
  }

  const TestUserMinLength := 8

  /** `filter_test_users`: drops every row whose user id is shorter than eight characters. */
  function FilterTestUsers(rows: seq<Post>): seq<Post>
  {
    Filter(rows, (p: Post) => |p.userId| >= TestUserMinLength)
  }

  /**
   * FilterTestUsers keeps, in order, exactly the rows whose user id has at
   * least eight characters.
   */
  lemma FilterTestUsersSpec(rows: seq<Post>) returns (idx: seq<nat>)
    ensures PicksAt(FilterTestUsers(rows), rows, idx)
    ensures forall i :: 0 <= i < |rows| ==> (i in idx <==> |rows[i].userId| >= TestUserMinLength)
  {
    idx := FilterPicks(rows, (p: Post) => |p.userId| >= TestUserMinLength);
    forall i | 0 <= i < |rows| && i in idx
      ensures |rows[i].userId| >= TestUserMinLength
    {
      var k :| 0 <= k < |idx| && idx[k] == i;
    }
  }

  /** Names of the frame columns the post-processing touches. */
  const DateColumn := "date"
  const TimestampColumn := "timestamp"
  const DedupSubset := ["timestamp", "user_id", "url", "poster", "post_text"]

  /**
   * The instants pandas can hold as nanosecond timestamps, at whole-second
   * resolution; `to_datetime(..., unit='s')` raises outside them.
   */
  const MinDatetimeSecond := -9223372036
  const MaxDatetimeSecond := 9223372036

  predicate InDatetimeRange(ts: int)
  {
    MinDatetimeSecond <= ts <= MaxDatetimeSecond
  }

  /** The subset's columns in code-point order. */
  const SortedSubset := ["post_text", "poster", "timestamp", "url", "user_id"]

  /** Each column of the sorted subset comes strictly before the next. */
  predicate StrictlyBefore(a: string, b: string)
  {
    TextAtMost(a, b) && a != b
  }

  lemma SortedSubsetOrdered()
    ensures forall i, j :: 0 <= i < j < |SortedSubset| ==> StrictlyBefore(SortedSubset[i], SortedSubset[j])
    ensures forall c :: c in SortedSubset <==> c in DedupSubset
  {
    PostTextFirst();
    assert StrictlyBefore("poster", "timestamp");
    assert StrictlyBefore("poster", "url");
    assert StrictlyBefore("poster", "user_id");
    assert StrictlyBefore("timestamp", "url");
    assert StrictlyBefore("timestamp", "user_id");
    assert StrictlyBefore("url", "user_id") by {
      assert "url"[1..] == "rl" && "user_id"[1..] == "ser_id";
    }
  }

  /** `post_text` sorts first: `_` comes before `e`. */
  lemma PostTextFirst()
    ensures forall k :: 1 <= k < |SortedSubset| ==> StrictlyBefore("post_text", SortedSubset[k])
  {
    assert StrictlyBefore("post_text", "poster") by {
      assert "post_text"[4..] == "_text" && "poster"[4..] == "er";
    }
    assert StrictlyBefore("post_text", "timestamp");
    assert StrictlyBefore("post_text", "url");
    assert StrictlyBefore("post_text", "user_id");
  }

  /**
   * The columns of the de-duplication subset that a frame with `columns`
   * lacks, sorted as `Index(subset).difference(columns)` sorts them.
   */
  function AbsentKeyColumns(columns: seq<string>): (r: seq<string>)
    ensures forall c :: c in r <==> c in DedupSubset && c !in columns
    ensures forall i, j :: 0 <= i < j < |r| ==> StrictlyBefore(r[i], r[j])
  {
    SortedSubsetOrdered();
    FilterMembers(SortedSubset, (c: string) => c !in columns);
    FilterKeepsOrder(SortedSubset, (c: string) => c !in columns, StrictlyBefore);
    Filter(SortedSubset, (c: string) => c !in columns)
  }

  /** A frame holding every column of the subset lacks none of them. */
  lemma NoAbsentKeyColumns(columns: seq<string>)
    requires forall i :: 0 <= i < |DedupSubset| ==> DedupSubset[i] in columns
    ensures AbsentKeyColumns(columns) == []
  {
    SortedSubsetOrdered();
    forall i | 0 <= i < |SortedSubset|
      ensures SortedSubset[i] in columns
    {
      assert SortedSubset[i] in DedupSubset;
    }
    FilterNone(SortedSubset, (c: string) => c !in columns);
  }

  /** A frame without any column lacks every column of the subset. */
  lemma EveryKeyAbsent()
    ensures AbsentKeyColumns([]) != []
  {
    assert DedupSubset[0] in DedupSubset;
  }

  /** A frame holding the subset holds `timestamp`. */
  lemma KeysHaveTimestamp(columns: seq<string>)
    requires AbsentKeyColumns(columns) == []
    ensures TimestampColumn in columns
  {
    assert DedupSubset[0] == TimestampColumn;
  }

  datatype FrameError =
    | MissingColumns(names: seq<string>)   // KeyError
    | ColumnExists(name: string)           // ValueError from DataFrame.insert
    | OutOfBoundsDatetime(second: int)     // from pandas.to_datetime

  /** A post row together with its leading `date` column. */
  datatype DatedPost = DatedPost(date: Date, post: Post)

  /** Each row paired with the UTC date of its timestamp. */
  function WithDates(rows: seq<Post>): seq<DatedPost>
  {
    seq(|rows|, i requires 0 <= i < |rows| => DatedPost(EpochToDate(rows[i].timestamp), rows[i]))
  }

  function Remove(columns: seq<string>, name: string): seq<string>
  {
    Filter(columns, (c: string) => c != name)
  }

  /** The UTC date of every row, in row order. */
  function DatesOf(rows: seq<Post>): (r: seq<Date>)
    ensures |r| == |rows|
  {
    seq(|rows|, i requires 0 <= i < |rows| => EpochToDate(rows[i].timestamp))
  }

  lemma DatesOfAppend(rows: seq<Post>, p: Post)
    ensures DatesOf(rows + [p]) == DatesOf(rows) + [EpochToDate(p.timestamp)]
  {
    assert forall i :: 0 <= i < |rows| ==> (rows + [p])[i] == rows[i];
  }

  /** Extending a prefix by one row extends its de-duplication, or leaves it as it is. */
  lemma DedupStep(rows: seq<Post>, i: nat)
    requires i < |rows|
    ensures Dedup(rows[..i + 1]) == if KeyOf(rows[i]) in KeysOf(Dedup(rows[..i])) then Dedup(rows[..i])
                                    else Dedup(rows[..i]) + [rows[i]]
    ensures KeysOf(Dedup(rows[..i]) + [rows[i]]) == KeysOf(Dedup(rows[..i])) + {KeyOf(rows[i])}
  {
    assert rows[..i + 1] == rows[..i] + [rows[i]];
    DedupSnoc(rows[..i], rows[i]);
    KeysOfAppend(Dedup(rows[..i]), rows[i]);
  }

  /**
   * The row loop of `drop_duplicates`: the first row of each key survives,
   * and when the frame carries a `date` column its values travel with their rows.
   */
  method DedupRows(rows: seq<Post>, dates: seq<Date>, dated: bool) returns (out: seq<Post>, outDates: seq<Date>)
    requires dated ==> dates == DatesOf(rows)
    ensures out == Dedup(rows)
    ensures outDates == if dated then DatesOf(out) else []
  {
    out, outDates := [], [];
    var seen: set<DedupKey> := {};
    var i := 0;
    while i < |rows|
      invariant 0 <= i <= |rows|
      invariant out == Dedup(rows[..i])
      invariant seen == KeysOf(out)
      invariant outDates == if dated then DatesOf(out) else []
    {
      var p := rows[i];
      DedupStep(rows, i);
      if KeyOf(p) !in seen {
        DatesOfAppend(out, p);
        out := out + [p];
        seen := seen + {KeyOf(p)};
        if dated {
          outDates := outDates + [dates[i]];
        }
      }
      i := i + 1;
    }
    assert rows[..i] == rows;
  }

  /**
   * `pd.to_datetime(timestamp, unit='s').dt.date` over a column: the dates of
   * every row, or the first timestamp outside the representable range.
   */
  method ToDates(rows: seq<Post>) returns (column: seq<Date>, bad: Option<int>)
    ensures bad.None? <==> forall i :: 0 <= i < |rows| ==> InDatetimeRange(rows[i].timestamp)
    ensures bad.None? ==> column == DatesOf(rows)
    ensures bad.Some? ==> exists i :: 0 <= i < |rows| && rows[i].timestamp == bad.value && !InDatetimeRange(bad.value)
  {
    column := [];
    var i := 0;
    while i < |rows|
      invariant 0 <= i <= |rows|
      invariant forall k :: 0 <= k < i ==> InDatetimeRange(rows[k].timestamp)
      invariant column == DatesOf(rows[..i])
    {
      var ts := rows[i].timestamp;
      if !InDatetimeRange(ts) {
        return column, Some(ts);
      }
      assert rows[..i + 1] == rows[..i] + [rows[i]];
      DatesOfAppend(rows[..i], rows[i]);
      column := column + [EpochToDate(ts)];
      i := i + 1;
    }
    assert rows[..i] == rows;
    bad := None;
  }

  /**
   * A post DataFrame that the post-processing mutates in place: its column
   * names, its rows, and the `date` column once `ts_to_date` has inserted it.
   */
  class PostFrame {
    var columns: seq<string>
    var rows: seq<Post>
    var dates: seq<Date>

    ghost predicate Valid()
      reads this
    {
      if DateColumn in columns then
        && columns[0] == DateColumn
        && dates == DatesOf(rows)
      else
        dates == []
    }

    predicate HasDate()
      reads this
    {
      DateColumn in columns
    }

    /** The frame as `read_sql_query` returns it. */
    constructor (columns: seq<string>, rows: seq<Post>)
      requires DateColumn !in columns
      ensures Valid()
      ensures this.columns == columns && this.rows == rows && dates == []
    {
      this.columns := columns;
      this.rows := rows;
      this.dates := [];
    }

    /** The dated rows, once the `date` column is present. */
    function DatedRows(): (r: seq<DatedPost>)
      reads this
      requires Valid() && HasDate()
      ensures r == WithDates(rows)
    {
      var rs, ds := rows, dates;
      seq(|rs|, i requires 0 <= i < |rs| => DatedPost(ds[i], rs[i]))
    }

    /** `DataFrame.empty`: no rows or no columns. */
    predicate IsEmpty()
      reads this
    {
      rows == [] || columns == []
    }

    /**
     * `drop_duplicates(subset=DedupSubset, inplace=True)` (keep the first). An
     * empty frame is returned as it is before the subset is looked up, so
     * missing columns raise only on a frame with rows.
     */
    method DropDuplicatePosts() returns (outcome: Outcome<FrameError>)
      requires Valid()
      modifies this
      ensures Valid() && columns == old(columns)
      ensures var missing := AbsentKeyColumns(old(columns));
              outcome == if old(rows) == [] || old(columns) == [] || missing == [] then Pass else Fail(MissingColumns(missing))
      ensures rows == if AbsentKeyColumns(old(columns)) == [] then Dedup(old(rows)) else old(rows)
      ensures outcome.Fail? ==> dates == old(dates)
    {
      var missing := AbsentKeyColumns(columns);
      if columns == [] {
        EveryKeyAbsent();
      }
      if IsEmpty() {
        return Pass;
      }
      if missing != [] {
        return Fail(MissingColumns(missing));
      }
      var out, outDates := DedupRows(rows, dates, HasDate());
      rows := out;
      dates := outDates;
      outcome := Pass;
    }

    /**
     * `ts_to_date`: converts every timestamp to its UTC date and inserts the
     * result as column 0 named `date`; the rows and the other columns stay.
     */
    method InsertDateColumn() returns (outcome: Outcome<FrameError>)
      requires Valid()
      modifies this
      ensures Valid() && rows == old(rows)
      ensures outcome.Pass? <==>
                && TimestampColumn in old(columns)
                && (forall i :: 0 <= i < |rows| ==> InDatetimeRange(rows[i].timestamp))
                && DateColumn !in old(columns)
      ensures TimestampColumn !in old(columns) ==> outcome == Fail(MissingColumns([TimestampColumn]))
      ensures outcome.Fail? && outcome.error.OutOfBoundsDatetime? ==>
                exists i :: 0 <= i < |rows| && rows[i].timestamp == outcome.error.second && !InDatetimeRange(rows[i].timestamp)
      ensures outcome.Pass? ==> columns == [DateColumn] + old(columns) && HasDate()
      ensures outcome.Fail? ==> columns == old(columns) && dates == old(dates)
    {
      if TimestampColumn !in columns {
        return Fail(MissingColumns([TimestampColumn]));
      }
      var column, bad := ToDates(rows);
      if bad.Some? {
        return Fail(OutOfBoundsDatetime(bad.value));
      }
      if DateColumn in columns {
        return Fail(ColumnExists(DateColumn));
      }
      columns := [DateColumn] + columns;
      dates := column;
      outcome := Pass;
    }

    /** `drop(name, axis=1, inplace=True)`. */
    method DropColumn(name: string) returns (outcome: Outcome<FrameError>)
      requires Valid()
      modifies this
      ensures Valid() && rows == old(rows)
      ensures outcome == if name in old(columns) then Pass else Fail(MissingColumns([name]))
      ensures outcome.Pass? ==> columns == Remove(old(columns), name) && name !in columns
      ensures outcome.Fail? ==> columns == old(columns) && dates == old(dates)
    {
      if name !in columns {
        return Fail(MissingColumns([name]));
      }
      var kept := Remove(columns, name);
      FilterMembers(columns, (c: string) => c != name);
      if DateColumn in columns && name != DateColumn {
        assert columns == [columns[0]] + columns[1..];
        assert kept == [DateColumn] + Remove(columns[1..], name);
      }
      columns := kept;
      if name == DateColumn {
        dates := [];
      }
      outcome := Pass;
    }

    /**
     * `dedup_and_date_format`: drop duplicate posts, then insert the date
     * column. On a frame that already has a `date` column it raises, and then
     * the rows have been de-duplicated already.
     */
    method DedupAndDateFormat() returns (outcome: Outcome<FrameError>)
      requires Valid()
      modifies this
      ensures Valid()
      ensures rows == if AbsentKeyColumns(old(columns)) == [] then Dedup(old(rows)) else old(rows)
      ensures outcome.Pass? ==>
                && rows == Dedup(old(rows))
                && columns == [DateColumn] + old(columns)
                && DatedRows() == WithDates(rows)
      ensures outcome.Fail? ==> columns == old(columns)
      ensures outcome.Pass? <==>
                && (old(rows) == [] || AbsentKeyColumns(old(columns)) == [])
                && TimestampColumn in old(columns)
                && DateColumn !in old(columns)
                && forall i :: 0 <= i < |Dedup(old(rows))| ==> InDatetimeRange(Dedup(old(rows))[i].timestamp)
      ensures TimestampColumn !in old(columns) && (old(rows) == [] || old(columns) == []) ==>
                outcome == Fail(MissingColumns([TimestampColumn]))
      ensures DateColumn in old(columns) ==> outcome.Fail?
    {
      outcome := DropDuplicatePosts();
      if outcome.Fail? {
        return;
      }
      if AbsentKeyColumns(old(columns)) == [] {
        KeysHaveTimestamp(old(columns));
      }
      outcome := InsertDateColumn();
    }
  }
}

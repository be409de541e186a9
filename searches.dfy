/**
 * The pandas post-processing of the search queries: the url-domain search,
 * the full-text search, the political-ads listing and the flagged-posts
 * listing, each applied to the rows its query returned.
 */
module Searches {
  import opened Common
  import opened Calendar
  import opened Ranking
  import opened Posts

  // ---------------------------------------------------------------------------
  // search_for_url_domain

  /** The projected columns of the url-domain query, in query order. */
  const UrlSearchColumns := ["user_id", "timestamp", "poster", "post_text", "url", "url_domain", "og_title",
                             "og_image", "og_site_name", "og_locale", "og_type", "og_description", "title"]

  /** User ids of this length or shorter belong to test accounts. */
  const ShortUserIdLength := 5

  function LongUserIds(rows: seq<Post>): seq<Post>
  {
    Filter(rows, (p: Post) => |p.userId| > ShortUserIdLength)
  }

  /** Exactly the rows whose user id is longer than five characters survive, in order. */
  lemma LongUserIdsSpec(rows: seq<Post>) returns (idx: seq<nat>)
    ensures PicksAt(LongUserIds(rows), rows, idx)
    ensures forall i :: 0 <= i < |rows| ==> (i in idx <==> |rows[i].userId| > ShortUserIdLength)
  {
    idx := FilterPicks(rows, (p: Post) => |p.userId| > ShortUserIdLength);
    forall i | 0 <= i < |rows| && i in idx
      ensures |rows[i].userId| > ShortUserIdLength
    {
      var k :| 0 <= k < |idx| && idx[k] == i;
    }
  }

  /** The url-domain query projects every de-duplication key column and no `date` column. */
  lemma UrlSearchColumnsKeys()
    ensures AbsentKeyColumns(UrlSearchColumns) == []
  {
    NoAbsentKeyColumns(UrlSearchColumns);
  }

  lemma UrlSearchColumnsUndated()
    ensures DateColumn !in UrlSearchColumns
  {
  }

  /**
   * The columns left by the short-user-id filter of `search_for_url_domain`.
   * On an empty result `apply` yields an empty object Series, which `res[...]`
   * reads as a list of column labels rather than as a mask: no column is kept.
   */
  function FilteredColumns(result: seq<Post>): seq<string>
  {
    if result == [] then [] else UrlSearchColumns
  }

  /**
   * The post-processing of `search_for_url_domain`: drop short user ids, then
   * de-duplicate and date the rows that remain. A query that returns no row
   * raises the KeyError for `timestamp`.
   */
  method SearchForUrlDomain(result: seq<Post>) returns (frame: PostFrame, outcome: Outcome<FrameError>)
    ensures fresh(frame) && frame.Valid()
    ensures result == [] ==> outcome == Fail(MissingColumns([TimestampColumn]))
    ensures outcome.Pass? <==> result != [] && forall i :: 0 <= i < |Dedup(LongUserIds(result))| ==>
              InDatetimeRange(Dedup(LongUserIds(result))[i].timestamp)
    ensures outcome.Pass? ==>
              && frame.rows == Dedup(LongUserIds(result))
              && frame.columns == [DateColumn] + UrlSearchColumns
              && frame.DatedRows() == WithDates(frame.rows)
  {
    UrlSearchColumnsKeys();
    UrlSearchColumnsUndated();
    KeysHaveTimestamp(UrlSearchColumns);
    frame := new PostFrame(FilteredColumns(result), LongUserIds(result));
    outcome := frame.DedupAndDateFormat();
  }

  // ---------------------------------------------------------------------------
  // full_text_search

  const FullTextColumns := ["user_id", "timestamp", "is_public", "post_text", "poster", "poster_url",
                            "group_metadata:group_name", "attachments:image_alts", "url", "url_domain",
                            "description", "og_title", "og_description", "og_site_name", "race", "gender",
                            "vote_2020", "state", "birth_year"]

  /** The full-text query projects every de-duplication key column and no `date` column. */
  lemma FullTextColumnsKeys()
    ensures AbsentKeyColumns(FullTextColumns) == []
  {
    NoAbsentKeyColumns(FullTextColumns);
  }

  lemma FullTextColumnsUndated()
    ensures DateColumn !in FullTextColumns
  {
  }

  /** `sort_values(by='date')`, ascending. */
  predicate DateAtOrBefore(a: DatedPost, b: DatedPost)
  {
    AtOrBefore(a.date, b.date)
  }

  lemma DateOrderIsTotal()
    ensures TotalPreorder((a: DatedPost, b: DatedPost) => DateAtOrBefore(a, b))
  {
  }

  /** `sort_values(by='date')` on the dated rows. */
  function ByDate(rows: seq<DatedPost>): seq<DatedPost>
  {
    SortBy(rows, (a: DatedPost, b: DatedPost) => DateAtOrBefore(a, b))
  }

  /** Sorting by date reorders whole rows: each date still belongs to its post. */
  lemma ByDateSpec(rows: seq<Post>)
    ensures multiset(ByDate(WithDates(rows))) == multiset(WithDates(rows))
    ensures Sorted(ByDate(WithDates(rows)), (a: DatedPost, b: DatedPost) => DateAtOrBefore(a, b))
    ensures forall i :: 0 <= i < |ByDate(WithDates(rows))| ==>
              ByDate(WithDates(rows))[i].date == EpochToDate(ByDate(WithDates(rows))[i].post.timestamp)
  {
    var dated := WithDates(rows);
    var table := ByDate(dated);
    DateOrderIsTotal();
    SortBySorted(dated, (a: DatedPost, b: DatedPost) => DateAtOrBefore(a, b));
    forall i | 0 <= i < |table|
      ensures table[i].date == EpochToDate(table[i].post.timestamp)
    {
      assert table[i] in multiset(dated);
    }
  }

  /**
   * `full_text_search` after the query: de-duplicate and date the rows, then
   * order them by date; the index is renumbered, which the model does not
   * represent.
   */
  method FullTextSearch(result: seq<Post>) returns (columns: seq<string>, table: seq<DatedPost>, outcome: Outcome<FrameError>)
    ensures outcome.Pass? <==> forall i :: 0 <= i < |Dedup(result)| ==> InDatetimeRange(Dedup(result)[i].timestamp)
    ensures outcome.Pass? ==> columns == [DateColumn] + FullTextColumns && table == ByDate(WithDates(Dedup(result)))
  {
    FullTextColumnsKeys();
    FullTextColumnsUndated();
    KeysHaveTimestamp(FullTextColumns);
    var frame := new PostFrame(FullTextColumns, result);
    outcome := frame.DedupAndDateFormat();
    if outcome.Fail? {
      return [], [], outcome;
    }
    columns := frame.columns;
    table := ByDate(frame.DatedRows());
  }

  // ---------------------------------------------------------------------------
  // get_political_ads

  const PoliticalAdColumns := ["timestamp", "poster", "post_text", "sponsored_by", "poster_url", "url_domain",
                               "url", "race", "gender", "education", "birth_year", "state", "zipcode",
                               "vote_2020", "user_id"]

  /** The ads query projects every de-duplication key column and no `date` column. */
  lemma PoliticalAdColumnsKeys()
    ensures AbsentKeyColumns(PoliticalAdColumns) == []
  {
    NoAbsentKeyColumns(PoliticalAdColumns);
  }

  lemma PoliticalAdColumnsUndated()
    ensures DateColumn !in PoliticalAdColumns
  {
  }

  /** `dedup_and_date_format` followed by `drop(columns=name, inplace=True)`. */
  method DateAndDrop(columns: seq<string>, result: seq<Post>, name: string) returns (frame: PostFrame, outcome: Outcome<FrameError>)
    requires DateColumn !in columns && name != DateColumn
    ensures fresh(frame) && frame.Valid()
    ensures outcome.Pass? <==>
              && (result == [] || AbsentKeyColumns(columns) == [])
              && TimestampColumn in columns
              && (forall i :: 0 <= i < |Dedup(result)| ==> InDatetimeRange(Dedup(result)[i].timestamp))
              && name in columns
    ensures outcome.Pass? ==>
              && frame.rows == Dedup(result)
              && frame.columns == [DateColumn] + Remove(columns, name)
              && name !in frame.columns
              && frame.HasDate()
              && frame.DatedRows() == WithDates(frame.rows)
  {
    frame := new PostFrame(columns, result);
    outcome := frame.DedupAndDateFormat();
    if outcome.Fail? {
      return;
    }
    outcome := frame.DropColumn(name);
    assert Remove([DateColumn] + columns, name) == [DateColumn] + Remove(columns, name) by {
      FilterAppend([DateColumn], columns, (c: string) => c != name);
    }
  }

  /**
   * The post-processing of `get_political_ads`: de-duplicate and date the
   * ads, then drop the `timestamp` column in place.
   */
  method PoliticalAds(result: seq<Post>) returns (frame: PostFrame, outcome: Outcome<FrameError>)
    ensures fresh(frame) && frame.Valid()
    ensures outcome.Pass? <==> forall i :: 0 <= i < |Dedup(result)| ==> InDatetimeRange(Dedup(result)[i].timestamp)
    ensures outcome.Pass? ==>
              && frame.rows == Dedup(result)
              && frame.columns == [DateColumn] + Remove(PoliticalAdColumns, TimestampColumn)
              && TimestampColumn !in frame.columns
              && frame.HasDate()
              && frame.DatedRows() == WithDates(frame.rows)
  {
    PoliticalAdColumnsKeys();
    PoliticalAdColumnsUndated();
    assert PoliticalAdColumns[0] == TimestampColumn;
    frame, outcome := DateAndDrop(PoliticalAdColumns, result, TimestampColumn);
  }

  // ---------------------------------------------------------------------------
  // get_flagged_posts

  /** One row of the flagged-posts query; `date` is computed by the database. */
  datatype FlaggedPost = FlaggedPost(
    date: Date,
    poster: string,
    postText: Option<string>,
    flag: Option<string>,
    imageAlt: Option<string>,
    url: Option<string>,
    demographics: seq<Cell>)

  function LowerAscii(c: char): char
  {
    if 'A' <= c <= 'Z' then (c as int + 32) as char else c
  }

  function Lower(s: string): (r: string)
    ensures |r| == |s| && forall i :: 0 <= i < |s| ==> r[i] == LowerAscii(s[i])
  {
    seq(|s|, i requires 0 <= i < |s| => LowerAscii(s[i]))
  }

  /** `word` occurs in `text` starting at position `i`. */
  predicate OccursAt(text: string, word: string, i: int)
  {
    0 <= i && i + |word| <= |text| && text[i..i + |word|] == word
  }

  /** Searches `text` for `word` from the front. */
  function Contains(text: string, word: string): bool
    decreases |text|
  {
    if |word| > |text| then false
    else if text[..|word|] == word then true
    else if text == [] then false
    else Contains(text[1..], word)
  }

  lemma {:induction false} ContainsSpec(text: string, word: string)
    ensures Contains(text, word) <==> exists i :: OccursAt(text, word, i)
    decreases |text|
  {
    if |word| <= |text| && text[..|word|] != word && text != [] {
      ContainsSpec(text[1..], word);
      forall i | OccursAt(text[1..], word, i)
        ensures OccursAt(text, word, i + 1)
      {
        assert text[1..][i..i + |word|] == text[i + 1..i + 1 + |word|];
      }
      forall i | OccursAt(text, word, i)
        ensures OccursAt(text[1..], word, i - 1)
      {
        assert i != 0;
        assert text[1..][i - 1..i - 1 + |word|] == text[i..i + |word|];
      }
    } else if |word| <= |text| && text[..|word|] == word {
      assert OccursAt(text, word, 0);
    }
  }

  const CovidWord := "covid"

  /** `flag.str.contains('covid', case=False).fillna(False)`: a NULL flag does not match. */
  predicate MentionsCovid(flag: Option<string>)
  {
    flag.Some? && Contains(Lower(flag.value), CovidWord)
  }

  /** The optional filter of `get_flagged_posts`: with `filter_covid`, keep the rows that do not mention covid. */
  function FilterCovid(rows: seq<FlaggedPost>, filterCovid: bool): seq<FlaggedPost>
  {
    if filterCovid then Filter(rows, (r: FlaggedPost) => !MentionsCovid(r.flag)) else rows
  }

  /**
   * With the option, the rows that remain are, in order, exactly those whose
   * flag is NULL or does not contain "covid" in any letter case; without it,
   * the rows are returned unchanged.
   */
  lemma FilterCovidSpec(rows: seq<FlaggedPost>, filterCovid: bool) returns (idx: seq<nat>)
    ensures !filterCovid ==> FilterCovid(rows, filterCovid) == rows
    ensures filterCovid ==> PicksAt(FilterCovid(rows, filterCovid), rows, idx)
    ensures filterCovid ==> forall i :: 0 <= i < |rows| ==>
              (i in idx <==> rows[i].flag.None? || !Contains(Lower(rows[i].flag.value), CovidWord))
  {
    if filterCovid {
      idx := FilterPicks(rows, (r: FlaggedPost) => !MentionsCovid(r.flag));
      forall i | 0 <= i < |rows| && i in idx
        ensures !MentionsCovid(rows[i].flag)
      {
        var k :| 0 <= k < |idx| && idx[k] == i;
      }
    } else {
      idx := [];
    }
  }

  /** "COVID-19" is dropped; "False" and a NULL flag stay. */
  lemma MentionsCovidExamples()
    ensures MentionsCovid(Some("COVID-19"))
    ensures !MentionsCovid(Some("False"))
    ensures !MentionsCovid(None)
  {
    assert Lower("COVID-19")[..5] == CovidWord;
    assert Lower("False")[..5] != CovidWord by {
      assert Lower("False")[0] == 'f';
    }
    assert Lower("False")[1..] == "alse";
  }
}

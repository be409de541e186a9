/**
 * The newsletter-monitoring queries: the week window searched, the filters
 * applied to timeline posts, and the ranked top posts and top posters, as
 * predicates and folds over the rows the database holds.
 */
module Monitoring {
  import opened Common
  import opened Ranking

  /**
   * PostgreSQL's case-insensitive regular-expression match, `text ~* pattern`,
   * given as `matches(pattern, text)`. The regular-expression engine is not
   * part of this model.
   */
  type Matcher = (string, string) -> bool

  /** The default `keywords` argument. */
  const AnyText := "."

  /** In PostgreSQL, `.` matches any single character: every non-empty text matches it. */
  ghost predicate DotMatchesNonEmpty(matches: Matcher)
  {
    forall t :: matches(AnyText, t) <==> |t| > 0
  }

  // ---------------------------------------------------------------------------
  // Tables

  /** A row of `facebook-timeline`, projected to the columns the rankings use. */
  datatype TimelinePost = TimelinePost(
    userId: string,
    timestamp: int,
    isFacebook: Option<bool>,
    isSponsored: Option<bool>,
    poster: Option<string>,
    postText: Option<string>,
    imageAlts: Option<string>,
    linksKey: Option<string>)

  /** A row of `facebook-timeline_attachments:links`. */
  datatype LinkAttachment = LinkAttachment(key: string, url: Option<string>)

  /** A row of `demographics`, projected to `user_id` and `vote_2020`. */
  datatype Panelist = Panelist(userId: string, vote2020: Option<string>)

  /** `ft."attachments:links" = ftl.key`; a null key matches nothing. */
  predicate LinkJoin(p: TimelinePost, l: LinkAttachment)
  {
    p.linksKey == Some(l.key)
  }

  type LinkedPost = (TimelinePost, LinkAttachment)
  type PostSighting = (LinkedPost, Panelist)
  type PosterSighting = (TimelinePost, Panelist)

  /** `ft JOIN ftl ON ... JOIN demographics demo ON ft.user_id = demo.user_id`. */
  function PostSightings(posts: seq<TimelinePost>, links: seq<LinkAttachment>, panel: seq<Panelist>): seq<PostSighting>
  {
    InnerJoin(InnerJoin(posts, links, LinkJoin), panel, (lp: LinkedPost, d: Panelist) => lp.0.userId == d.userId)
  }

  /** `ft JOIN demographics demo ON ft.user_id = demo.user_id`. */
  function PosterSightings(posts: seq<TimelinePost>, panel: seq<Panelist>): seq<PosterSighting>
  {
    InnerJoin(posts, panel, (p: TimelinePost, d: Panelist) => p.userId == d.userId)
  }

  /** A post sighting comes from a post with a link attachment seen by a panelist. */
  lemma PostSightingsMembers(posts: seq<TimelinePost>, links: seq<LinkAttachment>, panel: seq<Panelist>)
    ensures forall k :: 0 <= k < |PostSightings(posts, links, panel)| ==>
              var s := PostSightings(posts, links, panel)[k];
              s.0.0 in posts && s.0.1 in links && s.1 in panel
              && s.0.0.linksKey == Some(s.0.1.key) && s.0.0.userId == s.1.userId
    ensures forall i, j, l :: 0 <= i < |posts| && 0 <= j < |links| && 0 <= l < |panel|
              && posts[i].linksKey == Some(links[j].key) && posts[i].userId == panel[l].userId
              ==> ((posts[i], links[j]), panel[l]) in PostSightings(posts, links, panel)
  {
    var linked := InnerJoin(posts, links, LinkJoin);
    var on := (lp: LinkedPost, d: Panelist) => lp.0.userId == d.userId;
    InnerJoinMembers(posts, links, LinkJoin);
    InnerJoinMembers(linked, panel, on);
    forall i, j, l | 0 <= i < |posts| && 0 <= j < |links| && 0 <= l < |panel|
        && posts[i].linksKey == Some(links[j].key) && posts[i].userId == panel[l].userId
      ensures ((posts[i], links[j]), panel[l]) in PostSightings(posts, links, panel)
    {
      assert LinkJoin(posts[i], links[j]);
      var k :| 0 <= k < |linked| && linked[k] == (posts[i], links[j]);
      assert on(linked[k], panel[l]);
    }
  }

  // ---------------------------------------------------------------------------
  // Filters

  /** The arguments shared by `get_top_posts` and `get_top_posters`. */
  datatype Filters = Filters(start: int, end: int, keywords: string, isSponsored: bool, vote: Option<string>)

  /** Python truthiness of the `vote` argument: given and not the empty string. */
  predicate Truthy(vote: Option<string>)
  {
    vote.Some? && vote.value != ""
  }

  /**
   * The WHERE clause of both rankings: inside the window (BETWEEN is
   * inclusive), not a Facebook post, of the requested sponsorship, with text
   * matching the keywords, and, only when `vote` is truthy, seen by a
   * panelist with that vote. A NULL column fails every comparison.
   */
  predicate Selected(p: TimelinePost, d: Panelist, f: Filters, matches: Matcher)
  {
    && f.start <= p.timestamp <= f.end
    && p.isFacebook == Some(false)
    && p.isSponsored == Some(f.isSponsored)
    && p.postText.Some? && matches(f.keywords, p.postText.value)
    && (Truthy(f.vote) ==> d.vote2020 == f.vote)
  }

  /** With a falsy `vote` the vote clause is commented out: every panelist's vote passes. */
  lemma FalsyVoteIgnoresVote(p: TimelinePost, d: Panelist, e: Panelist, f: Filters, matches: Matcher)
    requires !Truthy(f.vote) && d.userId == e.userId
    ensures Selected(p, d, f, matches) == Selected(p, e, f, matches)
    ensures Selected(p, d, f, matches) == Selected(p, d, f.(vote := None), matches)
  {
  }

  /** With a truthy `vote` only panelists with exactly that vote pass. */
  lemma TruthyVoteRequiresVote(p: TimelinePost, d: Panelist, f: Filters, matches: Matcher)
    requires Truthy(f.vote) && Selected(p, d, f, matches)
    ensures d.vote2020 == f.vote
  {
  }

  /** With the default keywords every non-empty post text matches. */
  lemma DefaultKeywordsKeepText(p: TimelinePost, d: Panelist, f: Filters, matches: Matcher)
    requires DotMatchesNonEmpty(matches) && f.keywords == AnyText
    requires p.postText.Some? && |p.postText.value| > 0
    ensures Selected(p, d, f, matches) <==>
              f.start <= p.timestamp <= f.end && p.isFacebook == Some(false)
              && p.isSponsored == Some(f.isSponsored) && (Truthy(f.vote) ==> d.vote2020 == f.vote)
  {
  }

  // ---------------------------------------------------------------------------
  // get_top_posts

  /** `GROUP BY ft.poster, ft.post_text, ftl.url, image_alt`; NULLs group together. */
  datatype PostGroup = PostGroup(poster: Option<string>, postText: Option<string>, url: Option<string>, imageAlt: Option<string>)

  const TopPostsLimit := 1000
  const TopPostersLimit := 100

  function PostKeep(f: Filters, matches: Matcher): PostSighting -> bool
  {
    (s: PostSighting) => Selected(s.0.0, s.1, f, matches)
  }

  function PostGroupOf(s: PostSighting): PostGroup
  {
    PostGroup(s.0.0.poster, s.0.0.postText, s.0.1.url, s.0.0.imageAlts)
  }

  function PostUser(s: PostSighting): string
  {
    s.0.0.userId
  }

  /** `get_top_posts`: distinct viewers per post group, most viewed first, at most 1000. */
  function TopPosts(posts: seq<TimelinePost>, links: seq<LinkAttachment>, panel: seq<Panelist>,
                    f: Filters, matches: Matcher): (r: seq<Tally<PostGroup>>)
    ensures |r| <= TopPostsLimit
  {
    RankGroups(PostSightings(posts, links, panel), PostKeep(f, matches), PostGroupOf, PostUser, TopPostsLimit)
  }

  /** The distinct users who saw a selected post of group `g`. */
  ghost function PostViewers(posts: seq<TimelinePost>, links: seq<LinkAttachment>, panel: seq<Panelist>,
                             f: Filters, matches: Matcher, g: PostGroup): set<string>
  {
    GroupUsers(PostSightings(posts, links, panel), PostKeep(f, matches), PostGroupOf, PostUser, g)
  }

  /**
   * Top posts: non-increasing counts, each group once, each count the
   * number of distinct users who saw a selected post of the group, and a
   * selected group missing only when 1000 groups are returned, none of
   * which has fewer viewers.
   */
  lemma TopPostsSpec(posts: seq<TimelinePost>, links: seq<LinkAttachment>, panel: seq<Panelist>, f: Filters, matches: Matcher)
    ensures var r := TopPosts(posts, links, panel, f, matches);
      && (forall i, j :: 0 <= i < j < |r| ==> r[i].count >= r[j].count)
      && NoDuplicates(TallyKeys(r))
      && (forall t :: t in r ==> 1 <= t.count == |PostViewers(posts, links, panel, f, matches, t.key)|)
  {
    var rows := PostSightings(posts, links, panel);
    RankGroupsOrdered(rows, PostKeep(f, matches), PostGroupOf, PostUser, TopPostsLimit);
    RankGroupsCounts(rows, PostKeep(f, matches), PostGroupOf, PostUser, TopPostsLimit);
  }

  /** Every returned group has a selected sighting; with a truthy vote, by a panelist with that vote. */
  lemma TopPostsSelected(posts: seq<TimelinePost>, links: seq<LinkAttachment>, panel: seq<Panelist>, f: Filters, matches: Matcher)
    ensures forall t :: t in TopPosts(posts, links, panel, f, matches) ==>
              exists s :: s in PostSightings(posts, links, panel) && PostGroupOf(s) == t.key
                && Selected(s.0.0, s.1, f, matches)
                && (Truthy(f.vote) ==> s.1.vote2020 == f.vote)
  {
    var rows := PostSightings(posts, links, panel);
    RankGroupsCounts(rows, PostKeep(f, matches), PostGroupOf, PostUser, TopPostsLimit);
    forall t | t in TopPosts(posts, links, panel, f, matches)
      ensures exists s :: s in rows && PostGroupOf(s) == t.key && Selected(s.0.0, s.1, f, matches)
                && (Truthy(f.vote) ==> s.1.vote2020 == f.vote)
    {
      var i :| 0 <= i < |rows| && PostKeep(f, matches)(rows[i]) && PostGroupOf(rows[i]) == t.key;
      assert rows[i] in rows;
    }
  }

  /** A selected post group is left out only when 1000 groups with at least as many viewers are returned. */
  lemma TopPostsCut(posts: seq<TimelinePost>, links: seq<LinkAttachment>, panel: seq<Panelist>, f: Filters, matches: Matcher, s: PostSighting)
    requires s in PostSightings(posts, links, panel) && Selected(s.0.0, s.1, f, matches)
    requires PostGroupOf(s) !in TallyKeys(TopPosts(posts, links, panel, f, matches))
    ensures var r := TopPosts(posts, links, panel, f, matches);
      |r| == TopPostsLimit
      && forall j :: 0 <= j < |r| ==> r[j].count >= |PostViewers(posts, links, panel, f, matches, PostGroupOf(s))|
  {
    var rows := PostSightings(posts, links, panel);
    var i :| 0 <= i < |rows| && rows[i] == s;
    RankGroupsCut(rows, PostKeep(f, matches), PostGroupOf, PostUser, TopPostsLimit);
    assert PostKeep(f, matches)(rows[i]);
  }

  // ---------------------------------------------------------------------------
  // get_top_posters

  /** The WHERE clause of `get_top_posters`: that of top posts, plus `ft.poster IS NOT NULL`. */
  function PosterKeep(f: Filters, matches: Matcher): PosterSighting -> bool
  {
    (s: PosterSighting) => Selected(s.0, s.1, f, matches) && s.0.poster.Some?
  }

  function PosterOf(s: PosterSighting): Option<string>
  {
    s.0.poster
  }

  function PosterUser(s: PosterSighting): string
  {
    s.0.userId
  }

  /** `get_top_posters`: distinct viewers per poster, most viewed first, at most 100. */
  function TopPosters(posts: seq<TimelinePost>, panel: seq<Panelist>, f: Filters, matches: Matcher): (r: seq<Tally<Option<string>>>)
    ensures |r| <= TopPostersLimit
  {
    RankGroups(PosterSightings(posts, panel), PosterKeep(f, matches), PosterOf, PosterUser, TopPostersLimit)
  }

  ghost function PosterViewers(posts: seq<TimelinePost>, panel: seq<Panelist>, f: Filters, matches: Matcher, poster: Option<string>): set<string>
  {
    GroupUsers(PosterSightings(posts, panel), PosterKeep(f, matches), PosterOf, PosterUser, poster)
  }

  /**
   * Top posters: non-increasing counts, each poster once and never null,
   * each count the number of distinct users who saw a selected post by it.
   */
  lemma TopPostersSpec(posts: seq<TimelinePost>, panel: seq<Panelist>, f: Filters, matches: Matcher)
    ensures var r := TopPosters(posts, panel, f, matches);
      && (forall i, j :: 0 <= i < j < |r| ==> r[i].count >= r[j].count)
      && NoDuplicates(TallyKeys(r))
      && (forall t :: t in r ==> t.key.Some? && 1 <= t.count == |PosterViewers(posts, panel, f, matches, t.key)|)
  {
    var rows := PosterSightings(posts, panel);
    RankGroupsOrdered(rows, PosterKeep(f, matches), PosterOf, PosterUser, TopPostersLimit);
    RankGroupsCounts(rows, PosterKeep(f, matches), PosterOf, PosterUser, TopPostersLimit);
    forall t | t in TopPosters(posts, panel, f, matches)
      ensures t.key.Some?
    {
      var i :| 0 <= i < |rows| && PosterKeep(f, matches)(rows[i]) && PosterOf(rows[i]) == t.key;
    }
  }

  /** A selected poster is left out only when 100 posters with at least as many viewers are returned. */
  lemma TopPostersCut(posts: seq<TimelinePost>, panel: seq<Panelist>, f: Filters, matches: Matcher, s: PosterSighting)
    requires s in PosterSightings(posts, panel) && Selected(s.0, s.1, f, matches) && s.0.poster.Some?
    requires s.0.poster !in TallyKeys(TopPosters(posts, panel, f, matches))
    ensures var r := TopPosters(posts, panel, f, matches);
      |r| == TopPostersLimit
      && forall j :: 0 <= j < |r| ==> r[j].count >= |PosterViewers(posts, panel, f, matches, s.0.poster)|
  {
    var rows := PosterSightings(posts, panel);
    var i :| 0 <= i < |rows| && rows[i] == s;
    RankGroupsCut(rows, PosterKeep(f, matches), PosterOf, PosterUser, TopPostersLimit);
    assert PosterKeep(f, matches)(rows[i]);
  }

  /** A falsy vote gives the same rankings as no vote at all. */
  lemma FalsyVoteSameRankings(posts: seq<TimelinePost>, links: seq<LinkAttachment>, panel: seq<Panelist>, f: Filters, matches: Matcher)
    requires !Truthy(f.vote)
    ensures TopPosts(posts, links, panel, f, matches) == TopPosts(posts, links, panel, f.(vote := None), matches)
    ensures TopPosters(posts, panel, f, matches) == TopPosters(posts, panel, f.(vote := None), matches)
  {
    var rows := PostSightings(posts, links, panel);
    FilterCongruent(rows, PostKeep(f, matches), PostKeep(f.(vote := None), matches));
    var prows := PosterSightings(posts, panel);
    FilterCongruent(prows, PosterKeep(f, matches), PosterKeep(f.(vote := None), matches));
  }

  // ---------------------------------------------------------------------------
  // get_top_posts_and_posters

  /** The `description` entry: the arguments the two rankings were run with. */
  datatype Description = Description(keywords: string, isSponsored: bool, vote: Option<string>)

  datatype BundleEntry =
    | Described(description: Description)
    | Posters(posters: seq<Tally<Option<string>>>)
    | PostsRanked(posts: seq<Tally<PostGroup>>)

  /** The three keys of the returned dict. */
  datatype BundleKey = DescriptionKey | TopPostersKey | TopPostsKey

  /** The string each key is spelled as. */
  function Label(k: BundleKey): string
  {
    match k
    case DescriptionKey => "description"
    case TopPostersKey => "top_posters"
    case TopPostsKey => "top_posts"
  }

  /** Distinct keys are spelled differently, so the dict has three entries. */
  lemma LabelInjective(k: BundleKey, k': BundleKey)
    requires Label(k) == Label(k')
    ensures k == k'
  {
  }

  /** `get_top_posts_and_posters`: a dict with three labelled entries, filled one by one. */
  method TopPostsAndPosters(posts: seq<TimelinePost>, links: seq<LinkAttachment>, panel: seq<Panelist>,
                            f: Filters, matches: Matcher) returns (res: map<BundleKey, BundleEntry>)
    ensures res.Keys == {DescriptionKey, TopPostersKey, TopPostsKey}
    ensures res[DescriptionKey] == Described(Description(f.keywords, f.isSponsored, f.vote))
    ensures res[TopPostersKey] == Posters(TopPosters(posts, panel, f, matches))
    ensures res[TopPostsKey] == PostsRanked(TopPosts(posts, links, panel, f, matches))
  {
    var posters := TopPosters(posts, panel, f, matches);
    var ranked := TopPosts(posts, links, panel, f, matches);
    res := map[];
    res := res[DescriptionKey := Described(Description(f.keywords, f.isSponsored, f.vote))];
    res := res[TopPostersKey := Posters(posters)];
    res := res[TopPostsKey := PostsRanked(ranked)];
  }

  // ---------------------------------------------------------------------------
  // set_timeframe

  const SecondsPerWeek := 604800

  /** `datetime.min` and the last whole second of `datetime.max`, as wall-clock seconds from 1970-01-01. */
  const MinWallSecond := -62135596800
  const MaxWallSecond := 253402300799

  /** `timedelta` holds at most 999999999 days either way. */
  const MaxTimedeltaDays := 999999999

  predicate WallInRange(w: int)
  {
    MinWallSecond <= w <= MaxWallSecond
  }

  predicate WeeksInRange(n: int)
  {
    -MaxTimedeltaDays <= 7 * n <= MaxTimedeltaDays
  }

  /** The fold window CPython's `local_to_seconds` searches: one day. */
  const MaxFoldSeconds := 86400

  /**
   * The value CPython's C `datetime.timestamp()` reads as an error (-1 seconds
   * from 0000-12-31), as seconds from 1970-01-01.
   */
  const ErrorSentinelSecond := MinWallSecond - MaxFoldSeconds - 1

  /**
   * `localtime` followed by CPython's `utc_to_seconds`: the local wall-clock
   * second of the epoch second `u`, where the time zone adds `zone(u)`
   * seconds at `u`. `None` is the ValueError for a year outside 1..9999.
   */
  function Local(u: int, zone: int -> int): Option<int>
  {
    if WallInRange(u + zone(u)) then Some(u + zone(u)) else None
  }

  /**
   * CPython's `local_to_seconds` for `fold=0`: the epoch second whose local
   * time is the wall-clock second `t`. It guesses with the offset at `t`,
   * tries the offset one day earlier, and in a gap takes the later guess.
   * Every returned second has a valid local time, and whenever the first
   * guess is a solution the result is one.
   */
  function LocalToSeconds(t: int, zone: int -> int): (r: Option<int>)
    ensures r.Some? ==> Local(t, zone).Some? && Local(t - zone(t), zone).Some?
    ensures r.Some? ==> Local(r.value, zone).Some?
    ensures r.Some? && Local(t - zone(t), zone) == Some(t) ==> Local(r.value, zone) == Some(t)
  {
    match Local(t, zone)
    case None => None
    case Some(lt) =>
      var a := lt - t;
      var u1 := t - a;
      match Local(u1, zone)
      case None => None
      case Some(t1) =>
        if t1 == t then
          match Local(u1 - MaxFoldSeconds, zone)
          case None => None
          case Some(lt2) =>
            var b := lt2 - (u1 - MaxFoldSeconds);
            if a == b then Some(u1) else SecondGuess(t, u1, t1, b, zone)
        else SecondGuess(t, u1, t1, t1 - u1, zone)
  }

  /**
   * The second half of `local_to_seconds`: try `t - b`; failing that keep a
   * first guess that solves, and in a gap take the later of the two guesses.
   */
  function SecondGuess(t: int, u1: int, t1: int, b: int, zone: int -> int): (r: Option<int>)
    requires Local(u1, zone) == Some(t1)
    ensures r.Some? ==> Local(r.value, zone).Some?
    ensures r.Some? && t1 == t ==> Local(r.value, zone) == Some(t)
    ensures r.Some? && Local(r.value, zone) != Some(t) ==> r.value == if u1 >= t - b then u1 else t - b
  {
    var u2 := t - b;
    match Local(u2, zone)
    case None => None
    case Some(t2) =>
      if t2 == t then Some(u2)
      else if t1 == t then Some(u1)
      else Some(if u1 >= u2 then u1 else u2)
  }

  /**
   * `.timestamp()` of a naive datetime at the wall-clock second `t`, in whole
   * seconds. `None` is the ValueError of `local_to_seconds`, or the
   * SystemError when its result equals the error sentinel.
   */
  function Timestamp(t: int, zone: int -> int): (r: Option<int>)
    ensures r.Some? <==> LocalToSeconds(t, zone).Some? && LocalToSeconds(t, zone).value != ErrorSentinelSecond
    ensures r.Some? ==> Local(r.value, zone).Some?
    ensures r.Some? && Local(t - zone(t), zone) == Some(t) ==> Local(r.value, zone) == Some(t)
  {
    match LocalToSeconds(t, zone)
    case None => None
    case Some(u) => if u == ErrorSentinelSecond then None else Some(u)
  }

  /**
   * In a zone with a fixed offset of less than a day, `.timestamp()`
   * subtracts the offset, and raises exactly on the first day of year 1
   * (where the look one day back lands in year 0) and, east of UTC, within
   * the offset of the end of year 9999.
   */
  lemma FixedZoneTimestamp(t: int, offset: int)
    requires WallInRange(t)
    requires -MaxFoldSeconds < offset < MaxFoldSeconds
    ensures Timestamp(t, (u: int) => offset) ==
      if MinWallSecond + MaxFoldSeconds <= t && t + offset <= MaxWallSecond then Some(t - offset) else None
  {
    var zone := (u: int) => offset;
    if WallInRange(t + offset) {
      assert Local(t, zone) == Some(t + offset);
      assert Local(t - offset, zone) == Some(t);
      assert Local(t - offset - MaxFoldSeconds, zone) == if MinWallSecond + MaxFoldSeconds <= t then Some(t - MaxFoldSeconds) else None;
    }
  }

  /**
   * Around a transition at epoch second 1700000000: when clocks fall back an
   * hour, a repeated wall time gets its earlier instant; when they spring
   * forward, a wall time in the gap is read with the offset from before.
   */
  lemma TimestampTransitions()
    ensures Timestamp(1700001800, (u: int) => if u < 1700000000 then 3600 else 0) == Some(1699998200)
    ensures Timestamp(1700001800, (u: int) => if u < 1700000000 then 0 else 3600) == Some(1700001800)
  {
    var fallBack := (u: int) => if u < 1700000000 then 3600 else 0;
    assert Local(1700001800, fallBack) == Some(1700001800);
    assert Local(1700001800 - MaxFoldSeconds, fallBack) == Some(1700001800 - MaxFoldSeconds + 3600);
    assert Local(1699998200, fallBack) == Some(1700001800);
    var springForward := (u: int) => if u < 1700000000 then 0 else 3600;
    assert Local(1700001800, springForward) == Some(1700005400);
    assert Local(1699998200, springForward) == Some(1699998200);
  }

  /** The two epoch timestamps returned by `set_timeframe`. */
  datatype Timeframe = Timeframe(start: int, end: int)

  /**
   * `set_timeframe(n_weeks, wk_offset)`, with `datetime.today()` given as
   * `today` in local wall-clock seconds and the local time zone as `zone`,
   * the UTC offset `localtime` applies at each epoch second. `None` stands
   * for the OverflowError of a `timedelta` or a `datetime` out of range, and
   * for the errors of `.timestamp()`, which converts the start first.
   */
  function SetTimeframe(today: int, nWeeks: int, wkOffset: int, zone: int -> int): (r: Option<Timeframe>)
    requires WallInRange(today)
  {
    if !WeeksInRange(wkOffset) then None
    else
      var endWall := today - wkOffset * SecondsPerWeek;
      if !WallInRange(endWall) || !WeeksInRange(nWeeks) then None
      else
        var startWall := endWall - nWeeks * SecondsPerWeek;
        if !WallInRange(startWall) then None
        else
          match Timestamp(startWall, zone)
          case None => None
          case Some(start) =>
            match Timestamp(endWall, zone)
            case None => None
            case Some(end) => Some(Timeframe(start, end))
  }

  /**
   * The window ends `wkOffset` weeks before today and starts `nWeeks` weeks
   * before its end, in local time; it raises exactly when a week count or an
   * end lies outside what `timedelta` and `datetime` hold, or when
   * `.timestamp()` raises at either end. Each returned instant has a valid
   * local time, and it is the window's end (or start) whenever the offset at
   * that wall time reads back to it.
   */
  lemma SetTimeframeSpec(today: int, nWeeks: int, wkOffset: int, zone: int -> int)
    requires WallInRange(today)
    ensures var endWall := today - wkOffset * SecondsPerWeek;
      var startWall := endWall - nWeeks * SecondsPerWeek;
      var r := SetTimeframe(today, nWeeks, wkOffset, zone);
      && (r.Some? <==> && WeeksInRange(wkOffset) && WeeksInRange(nWeeks) && WallInRange(endWall) && WallInRange(startWall)
                       && Timestamp(startWall, zone).Some? && Timestamp(endWall, zone).Some?)
      && (r.Some? ==> Local(r.value.start, zone).Some? && Local(r.value.end, zone).Some?)
      && (r.Some? && Local(endWall - zone(endWall), zone) == Some(endWall) ==> Local(r.value.end, zone) == Some(endWall))
      && (r.Some? && Local(startWall - zone(startWall), zone) == Some(startWall) ==> Local(r.value.start, zone) == Some(startWall))
  {
  }

  /**
   * In a zone with a fixed offset of less than a day, the call raises
   * exactly when a week count or an end is out of range, the start falls on
   * the first day of year 1, or the end lies within the offset of the end of
   * year 9999; otherwise the window spans exactly `nWeeks` weeks and starts
   * no later than it ends when `nWeeks >= 0`.
   */
  lemma FixedOffsetSpan(today: int, nWeeks: int, wkOffset: int, offset: int)
    requires WallInRange(today)
    requires -MaxFoldSeconds < offset < MaxFoldSeconds
    ensures var endWall := today - wkOffset * SecondsPerWeek;
      var startWall := endWall - nWeeks * SecondsPerWeek;
      var r := SetTimeframe(today, nWeeks, wkOffset, (u: int) => offset);
      && (r.Some? <==> && WeeksInRange(wkOffset) && WeeksInRange(nWeeks) && WallInRange(endWall) && WallInRange(startWall)
                       && MinWallSecond + MaxFoldSeconds <= startWall && endWall + offset <= MaxWallSecond
                       && MinWallSecond + MaxFoldSeconds <= endWall && startWall + offset <= MaxWallSecond)
      && (r.Some? ==> r.value == Timeframe(startWall - offset, endWall - offset))
      && (r.Some? ==> r.value.end - r.value.start == nWeeks * SecondsPerWeek && (nWeeks >= 0 ==> r.value.start <= r.value.end))
  {
    var endWall := today - wkOffset * SecondsPerWeek;
    var startWall := endWall - nWeeks * SecondsPerWeek;
    if WeeksInRange(wkOffset) && WeeksInRange(nWeeks) && WallInRange(endWall) && WallInRange(startWall) {
      FixedZoneTimestamp(startWall, offset);
      FixedZoneTimestamp(endWall, offset);
      FixedZoneWindow(today, nWeeks, wkOffset, offset, startWall, endWall);
    }
  }

  /** FixedOffsetSpan once both ends are in range: the result is built from the two timestamps. */
  lemma FixedZoneWindow(today: int, nWeeks: int, wkOffset: int, offset: int, startWall: int, endWall: int)
    requires WallInRange(today)
    requires endWall == today - wkOffset * SecondsPerWeek && startWall == endWall - nWeeks * SecondsPerWeek
    requires WeeksInRange(wkOffset) && WeeksInRange(nWeeks) && WallInRange(endWall) && WallInRange(startWall)
    ensures SetTimeframe(today, nWeeks, wkOffset, (u: int) => offset) ==
      match Timestamp(startWall, (u: int) => offset)
      case None => None
      case Some(start) =>
        match Timestamp(endWall, (u: int) => offset)
        case None => None
        case Some(end) => Some(Timeframe(start, end))
  {
  }

  /** With today at 1700000000 in UTC, one week offset by one: the week before last. */
  lemma SetTimeframeExample()
    ensures SetTimeframe(1700000000, 1, 1, (w: int) => 0) == Some(Timeframe(1700000000 - 2 * SecondsPerWeek, 1700000000 - SecondsPerWeek))
  {
    FixedOffsetSpan(1700000000, 1, 1, 0);
  }

  /** A window of 200000000 weeks exceeds what `timedelta` holds. */
  lemma SetTimeframeOverflow()
    ensures SetTimeframe(1700000000, 200000000, 0, (w: int) => 0) == None
  {
  }

  /**
   * A window of 105548 weeks back from 1699900000 in UTC starts at
   * 0001-01-01 18:26:40, where `.timestamp()` raises; one week less does not.
   */
  lemma SetTimeframeFirstDay()
    ensures SetTimeframe(1699900000, 105548, 0, (w: int) => 0) == None
    ensures SetTimeframe(1699900000, 105547, 0, (w: int) => 0).Some?
  {
    FixedOffsetSpan(1699900000, 105548, 0, 0);
    FixedOffsetSpan(1699900000, 105547, 0, 0);
  }

  /**
   * East of UTC, a window ending less than the offset before the end of
   * year 9999 raises at `end_date.timestamp()`; in UTC it does not.
   */
  lemma SetTimeframeNearMax()
    ensures SetTimeframe(MaxWallSecond - 1000, 1, 0, (w: int) => 3600) == None
    ensures SetTimeframe(MaxWallSecond - 1000, 1, 0, (w: int) => 0).Some?
  {
    FixedOffsetSpan(MaxWallSecond - 1000, 1, 0, 3600);
    FixedOffsetSpan(MaxWallSecond - 1000, 1, 0, 0);
  }
}

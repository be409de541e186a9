# cb-functions in Dafny

This project models the pandas post-processing and the filter and aggregation rules of the
Citizen Browser helper functions. For the monitoring queries it also models what the SQL
computes, stated as predicates and folds over the rows of the tables the queries read.

- **Rows are records.** Query results are `seq`s of them.
- **`PostFrame` is a class.** It stands for the post DataFrames that `drop_duplicates(inplace=True)`, `insert` and `drop(inplace=True)` change in place.
- **`GroupFrame` is a class.** It stands for the frame whose two sighting columns `get_top_groups` reassigns.
- **Pure steps are functions.** These cover the test-user filter, the `TOTAL` row, `demo_to_percent`, `set_timeframe` and the rankings.

Modules:

- `Common` (common.dfy): nullable values, outcomes, an order-preserving `Filter` characterised by the positions it keeps, and the nested-loop `InnerJoin`.
- `Calendar` (calendar.dfy): the proleptic Gregorian calendar on day numbers counted from 1970-01-01, and `EpochToDate`, the UTC date of an epoch second. `EpochToDate` is what `pd.to_datetime(..., unit='s')` followed by `.date()` computes.
- `Ranking` (ranking.dfy): distinct-user tallies per group key, a comparator sort, and `Top`, which is `ORDER BY ... LIMIT`. It also has `RankGroups`, the shared `COUNT(DISTINCT user_id) ... GROUP BY ... ORDER BY count DESC LIMIT n` shape.
- `Posts` (posts.dfy): post rows and the de-duplication key. It holds `Dedup` (`drop_duplicates` keeping the first row), `filter_test_users`, and the `PostFrame` class with `ts_to_date` and `dedup_and_date_format`.
- `Panel` (panel.dfy): the `TOTAL` row of `get_demographics`, both as intended and as written, and `demo_to_percent`.
- `Monitoring` (monitoring.dfy): the timeline, link and demographics tables, and the shared WHERE clause with its conditional vote filter. It also has `get_top_posts`, `get_top_posters`, the labelled bundle of `get_top_posts_and_posters`, and `set_timeframe`.
- `Groups` (groups.dfy): the per-slug aggregation of `get_top_groups` and the in-place conversion of its sighting columns to dates.
- `Searches` (searches.dfy): the post-processing of `search_for_url_domain`, `full_text_search`, `get_political_ads` and `get_flagged_posts`.

Inputs from outside the program are parameters:

- **PostgreSQL's `~*` match** is the parameter `matches: Matcher`. `DotMatchesNonEmpty` states what the default pattern `.` does: it matches every non-empty text.
- **`datetime.today()`** is the parameter `today`, in local wall-clock seconds.
- **The local time zone** is the parameter `zone`: the UTC offset, in seconds, that `localtime` applies at each epoch second. `.timestamp()` on a naive datetime is modelled on CPython's `local_to_seconds` with `fold=0` (`Monitoring.LocalToSeconds`). Every datetime in `set_timeframe` has `fold=0`, because `datetime - timedelta` resets it.
- **Query results** are the `result` arguments of the search methods.

Where the code's comments or documentation and the code disagree, the model follows the code:

- **Zero panel count.** In `demo_to_percent`, a group whose panel count is 0 gets a percentage of +inf, not an undefined value. 1/0 is +inf in float64, and the descending sort puts it first (`Panel.SortExample`).
- **A second `dedup_and_date_format` raises.** Calling it on a frame that already has a `date` column fails with the ValueError of `DataFrame.insert`. Only the drop-duplicates step is idempotent.
- **The `TOTAL` row raises.** As written it does not append the sum of the counts (see Findings).
- **An empty url-domain search raises.** When the query returns no row, the long-user-id mask is an empty object Series, which `res[...]` reads as a list of column labels. The frame is left with no column, and `ts_to_date` raises the KeyError for `timestamp`.

## Model

| member | source | states |
|---|---|---|
| Calendar.EpochToDate | __init__.py:8 | the date is a valid calendar date, and the instant falls within that date's UTC day (day number × 86400 ≤ ts < next day) |
| Calendar.EpochToDateUnique | __init__.py:8 | any valid date whose UTC day contains the instant is the date `EpochToDate` returns |
| Calendar.FromDayNumberInverts | __init__.py:8 | turning a valid date into its day number and back gives the same date |
| Calendar.EpochExample | __init__.py:8 | 1700000000 epoch seconds is 2023-11-14 |
| Calendar.EpochToDateMonotone | monitoring.py:139-140 | a later instant never falls on an earlier date |
| Ranking.TalliesSpec | __init__.py:57 | one tally per key that occurs, none for other keys, no key twice, each count the number of distinct users under the key and at least 1 |
| Ranking.SortBySorted | monitoring.py:133 | under a total preorder the sort's output is sorted (it is a permutation by its own contract) |
| Ranking.TopSpec | monitoring.py:225-226 | `Top` is sorted and holds at most `cap` rows, all taken from the input; with no more than `cap` rows it keeps them all; every row left out ranks no higher than every row kept |
| Ranking.RankGroupsOrdered | monitoring.py:224-225 | ranked groups have non-increasing counts and no group twice |
| Ranking.RankGroupsCounts | monitoring.py:209-224 | each ranked group has a kept row, and its count is the number of distinct users of its kept rows |
| Ranking.RankGroupsCut | monitoring.py:225-226 | a group with kept rows is missing only when `cap` groups are returned, each with at least as many distinct users |
| Posts.Dedup | __init__.py:13-14 | the output has exactly the keys of the input, and no key twice |
| Posts.DedupKeepsFirsts | __init__.py:13-14 | the output is the first row of each key, at increasing input positions; every first occurrence is kept and nothing else |
| Posts.DedupOfUnique | __init__.py:13-14 | rows without a repeated key are left unchanged |
| Posts.DedupIdempotent | __init__.py:13-14 | dropping duplicates twice gives the same rows as dropping them once |
| Posts.DedupRows | __init__.py:13-14 | the de-duplication loop produces `Dedup` of the rows; a `date` column present beforehand stays aligned with its rows |
| Posts.AbsentKeyColumns | __init__.py:13-14 | a column is reported missing exactly when it is in the five-column subset and not in the frame (the KeyError of `drop_duplicates`); the missing columns are listed in strictly increasing code-point order, as `Index.difference` sorts them |
| Posts.FilterTestUsersSpec | __init__.py:21-23 | exactly the rows with a user id of at least 8 characters are kept, in input order |
| Posts.ToDates | __init__.py:8 | fails exactly when some timestamp is outside what pandas can represent, and names it; otherwise returns the UTC date of every row, in order |
| Posts.PostFrame.DatedRows | __init__.py:8-9 | each row of a dated frame is paired with the UTC date of its own timestamp |
| Posts.PostFrame.DropDuplicatePosts | __init__.py:13-14 | an empty frame (no rows or no columns) passes unchanged; otherwise it fails with the missing subset columns when any is absent; the rows become `Dedup` of the old rows exactly when no subset column is missing, and columns and dates stay aligned |
| Posts.PostFrame.InsertDateColumn | __init__.py:7-9 | succeeds exactly when `timestamp` is present, every timestamp is convertible and there is no `date` column yet; then `date` becomes column 0, and the rows and the other columns are unchanged |
| Posts.PostFrame.DropColumn | monitoring.py:191 | drops the named column and keeps the rows and the other columns in order; raises when the column is absent |
| Posts.PostFrame.DedupAndDateFormat | __init__.py:12-17 | succeeds exactly when the key columns are present (or the frame has no rows), `timestamp` is present, there is no `date` column yet and every kept timestamp is convertible; then `date` leads the columns and each row carries the UTC date of its own timestamp; whatever the outcome, the rows are `Dedup` of the input whenever no key column is missing, and on failure the columns are unchanged; an empty frame without `timestamp` raises the KeyError for it |
| Panel.SumCountsPermutation | __init__.py:47 | the sum of the counts does not depend on the order of the rows |
| Panel.WithTotalSpec | __init__.py:46-48 | the output is the input rows unchanged, then one `TOTAL` row whose count is the sum of the counts (in any row order) |
| Panel.WithTotalExample | __init__.py:46-48 | races white 3 and black 2 get a `TOTAL` row of 5 |
| Panel.TotalItemAsWritten | __init__.py:47 | `demo.sum().item()` yields the sum of the counts exactly when some race is null and some is not; otherwise (all strings, all nulls, or no rows) it raises because the sum has two entries |
| Panel.TotalItemAsWrittenNulls | __init__.py:47 | a panel whose only race is null raises too; a null race beside "white" gives the scalar 7 |
| Panel.TotalItemAsWrittenFails | __init__.py:47 | races white 3 and black 2 make the code as written raise instead of appending 5 |
| Panel.ViewPairsKeys | __init__.py:57 | the group keys are exactly the non-null characteristic values of the input |
| Panel.ViewPairsUsers | __init__.py:57 | the users under a group are exactly the distinct user ids of the rows with that value |
| Panel.PanelCounts | __init__.py:60 | the counts joined to a value are exactly the counts of the panel rows with that value |
| Panel.LeftJoinMembers | __init__.py:60 | every row of the left join comes from joining one group, and every row joined for a group is in it |
| Panel.PercentOrderIsTotal | __init__.py:69 | descending percentage order (+inf first, NaN last) is a total preorder |
| Panel.DemoToPercentSpec | __init__.py:57-69 | every output row describes a group: its distinct-user count, its panel count (absent exactly when the panel lacks the value) and its percentage user/panel × 100; every non-null value has a row; rows are sorted by percentage, descending |
| Panel.DemoToPercentOneRowPerGroup | __init__.py:57-60 | when the panel lists each value once, there is exactly one row per distinct value |
| Panel.JoinExample | __init__.py:60-65 | panel A 4 and B 0 with one viewer each give 25.0 for A and +inf for B |
| Panel.SortExample | __init__.py:69 | +inf sorts ahead of 25.0 |
| Common.InnerJoinMembers | monitoring.py:214-218 | a pair is in the join exactly when its halves come from the two inputs and satisfy the join condition |
| Monitoring.PostSightingsMembers | monitoring.py:214-218 | a post sighting is a post, one of its link attachments and a panelist with the same user id, and every such triple is a sighting |
| Monitoring.FalsyVoteIgnoresVote | monitoring.py:201-204 | with a falsy `vote` the vote clause is commented out: a panelist's vote does not affect selection |
| Monitoring.TruthyVoteRequiresVote | monitoring.py:223 | with a truthy `vote` a selected sighting has a panelist with exactly that vote |
| Monitoring.DefaultKeywordsKeepText | monitoring.py:222 | with the default keywords `.`, every non-empty post text passes the keyword clause |
| Monitoring.TopPosts | monitoring.py:226 | at most 1000 post groups are returned |
| Monitoring.TopPostsSpec | monitoring.py:206-228 | counts are non-increasing, no post group appears twice, and each count is the number of distinct users who saw a selected post of the group |
| Monitoring.TopPostsSelected | monitoring.py:219-223 | every returned group has a selected sighting; with a truthy vote, that sighting's panelist has that vote |
| Monitoring.TopPostsCut | monitoring.py:225-226 | a selected post group is left out only when 1000 groups are returned, each with at least as many viewers |
| Monitoring.TopPosters | monitoring.py:261 | at most 100 posters are returned |
| Monitoring.TopPostersSpec | monitoring.py:245-263 | counts are non-increasing, no poster appears twice, no poster is null, and each count is the number of distinct users who saw a selected post by it |
| Monitoring.TopPostersCut | monitoring.py:260-261 | a selected non-null poster is left out only when 100 posters are returned, each with at least as many viewers |
| Monitoring.FalsyVoteSameRankings | monitoring.py:240-243 | a falsy `vote` gives the same top posts and top posters as no vote |
| Monitoring.LabelInjective | monitoring.py:276-278 | the three dict keys are spelled differently |
| Monitoring.TopPostsAndPosters | monitoring.py:274-279 | the dict has exactly the keys description, top_posters and top_posts; description is the keywords, is_sponsored and vote passed in, and both rankings are run with those same filters |
| Monitoring.LocalToSeconds | monitoring.py:108 | `.timestamp()`'s search for the instant of a wall time: fails when a local time it looks up is outside years 1..9999; a returned instant has a valid local time, and it reads back to the wall time whenever the first guess does |
| Monitoring.Timestamp | monitoring.py:108 | `.timestamp()` succeeds exactly when the search does and does not return the C error sentinel; its result has the same guarantees as the search |
| Monitoring.FixedZoneTimestamp | monitoring.py:108 | with a fixed offset of less than a day, `.timestamp()` is the wall time minus the offset, and raises exactly on 0001-01-01 or, east of UTC, within the offset of the end of 9999-12-31 |
| Monitoring.TimestampTransitions | monitoring.py:108 | when clocks fall back, a repeated wall time gets its earlier instant; when they spring forward, a wall time in the gap is read with the offset from before |
| Monitoring.SetTimeframeSpec | monitoring.py:97-108 | it raises exactly when a week count or an end of the window is out of range, or `.timestamp()` raises at either end; each returned instant has a valid local time and reads back to its end of the window whenever the offset at that wall time does |
| Monitoring.FixedOffsetSpan | monitoring.py:101-108 | with a fixed offset of less than a day, it raises exactly when a week count or an end is out of range, an end falls on 0001-01-01, or an end lies within the offset of the end of 9999; otherwise the window is the two wall times minus the offset, end − start = n_weeks × 604800, and start ≤ end when n_weeks ≥ 0 |
| Monitoring.SetTimeframeExample | monitoring.py:101-108 | today 1700000000 UTC, one week with offset one, gives the week before last |
| Monitoring.SetTimeframeOverflow | monitoring.py:103 | 200000000 weeks is more than `timedelta` holds, so the call raises |
| Monitoring.SetTimeframeFirstDay | monitoring.py:103-108 | in UTC, 105548 weeks back from 1699900000 starts on 0001-01-01 and raises at `start_date.timestamp()`; 105547 weeks does not |
| Monitoring.SetTimeframeNearMax | monitoring.py:101-108 | one hour east of UTC, a window ending 1000 seconds before the end of 9999 raises at `end_date.timestamp()`; in UTC it does not |
| Groups.LeastName | monitoring.py:118 | MIN(group_name) is null exactly when every name is null; otherwise it is one of the names and no other name is smaller in code-point order |
| Groups.FirstSeen | monitoring.py:120 | MIN(timestamp) is a timestamp of the group and no later than any of them |
| Groups.LastSeen | monitoring.py:121 | MAX(timestamp) is a timestamp of the group and no earlier than any of them |
| Groups.MostMembers | monitoring.py:123 | MAX(n_members) is null exactly when every count is null; otherwise it is one of them and at least every other one |
| Groups.FirstSeenNotAfterLast | monitoring.py:120-121 | in a non-empty group the first sighting is no later than the last |
| Groups.MembersSpec | monitoring.py:129-132 | a group holds exactly the sightings in the window whose name matches the keywords and whose slug is the group's |
| Groups.GroupedRowDescribes | monitoring.py:117-132 | every grouped row aggregates its slug's selected sightings: distinct users (at least 1), least name (not null), first and last sighting, largest member count |
| Groups.TopGroupsSpec | monitoring.py:116-134 | one row per selected slug, no slug twice, each row describing its group, ordered by distinct users, descending |
| Groups.RankedSightingsInOrder | monitoring.py:120-121 | every ranked row's first sighting is no later than its last |
| Groups.ConvertColumn | monitoring.py:139-140 | fails exactly when some cell is not convertible epoch seconds; otherwise every row's cell in that column becomes its UTC date and nothing else changes |
| Groups.GroupFrame.ColumnToDates | monitoring.py:139 | reassigns the column to its dates when every cell converts; otherwise the frame is unchanged |
| Groups.GroupFrame.SightingsToDates | monitoring.py:139-140 | succeeds exactly when both sighting columns convert; then each row has both sightings as dates and the rest unchanged; on failure `first_sighted` is already converted when all of it converts, and the frame is untouched otherwise |
| Groups.GetTopGroups | monitoring.py:113-148 | the frame is the ranked groups with both sightings as dates, and each first-sighted date is no later than its last-sighted date |
| Searches.LongUserIdsSpec | monitoring.py:41 | exactly the rows with a user id longer than 5 characters are kept, in order |
| Searches.SearchForUrlDomain | monitoring.py:41-42 | an empty query result loses every column in the filter and raises the KeyError for `timestamp`; otherwise the result is the de-duplicated long-user-id rows with `date` prepended, and it raises exactly when one of their timestamps is out of range |
| Searches.ByDateSpec | monitoring.py:92 | sorting by date is a permutation of the dated rows, ascending by date, and every row keeps the date of its own timestamp |
| Searches.FullTextSearch | monitoring.py:85-92 | the result is the de-duplicated rows, dated and sorted by date, with `date` leading the query's columns; it raises exactly when a kept timestamp is out of range |
| Searches.DateAndDrop | monitoring.py:190-191 | succeeds exactly when the key columns (unless there are no rows), `timestamp` and the dropped column are present and every kept timestamp converts; then the rows are `Dedup` of the result, dated, and the column is gone |
| Searches.PoliticalAds | monitoring.py:156-191 | the ads are de-duplicated and dated, and `timestamp` is dropped while the other query columns keep their order |
| Searches.ContainsSpec | monitoring.py:353 | `Contains` holds exactly when the word occurs at some position of the text |
| Searches.FilterCovidSpec | monitoring.py:352-353 | with `filter_covid`, exactly the rows whose flag is null or does not contain "covid" in any letter case are kept, in order; without it, the rows are unchanged |
| Searches.MentionsCovidExamples | monitoring.py:353 | "COVID-19" is removed; "False" and a null flag are kept |

## Left out

- **The databases.** SQL text, `pd.read_sql_query` and `db.engine` are not modelled. The ranking and grouping queries are modelled by what they compute over the tables' rows. The search, ads, flagged-posts and demographics queries are not modelled: their results are inputs.
- **`DISTINCT ON` tie-breaks.** These are arbitrary in PostgreSQL, so the model does not fix them.
- **`jsonb_array_elements` and `get_ad_interests_ranked`.** They run inside the database.
- **Functions outside the core.** `get_posts_in_time_period` and `is_it_working` are not modelled; they are plain query and print wrappers.
- **Clocks and output.** `timer()`, `datetime.today()` and every `print` are left out. Today and the UTC offset are parameters.
- **The regular-expression engine.** `~*` is the `matches` parameter.
- **Float64 arithmetic.** Percentages are exact reals, with +inf and NaN modelled explicitly. The rounding to one decimal in `demo_to_percent` is not modelled.
- **Text ordering and case.** Text compares in code-point order (the "C" collation). `case=False` folds only ASCII letters.
- **Time zones and pandas limits.** Daylight saving is captured only through the `zone` parameter: the time-zone database, leap seconds and the platform limits of `localtime` are not modelled. The model takes `today` in whole seconds; the microseconds of `datetime.today()` and the fractional part of the float `.timestamp()` returns are not modelled. The pandas datetime range is given in whole seconds.
- **Python dict ordering.** `Monitoring.TopPostsAndPosters` models the dict as a `map` keyed by `BundleKey`; `Label` gives the string spelling of each key.
- **Frame indexes.** `reset_index` and DataFrame index labels are not represented. `filter_test_users` drops rows by index label; because `read_sql_query` gives a fresh range index, the model drops them by position.
- Monitoring.SetTimeframe: takes integer week counts only. The source also accepts float week counts (`timedelta(weeks=1.5)`), which round to microseconds. The model takes `n_weeks` and `wk_offset` as integers, because the model has no floating point.
- **Null user ids.** User ids are assumed non-null (`Post.userId` is a `string`). In the source, a NULL `user_id` would make `len(x)` raise TypeError in `filter_test_users` and in the url-domain filter, and `nunique` / `COUNT(DISTINCT ...)` would skip it.
- **The date in flagged posts.** The `date` column of `get_flagged_posts` is computed by the database and is an input.
- **Tie order in sorts.** `sort_values` uses an unstable sort, and `ORDER BY` breaks ties arbitrarily. The model sorts by stable insertion, but its contracts promise only sorted order and permutation (and, for `LIMIT`, the cut property). They do not promise the order of equal rows.
- Posts.PostFrame.constructor: requires that the query result has no `date` column. This is true of every query these functions run.
- Searches.DateAndDrop: requires that the dropped column is not `date`. The only caller drops `timestamp`.
- **The deprecated `DataFrame.append`.** It is modelled only through the row it appends.

## Findings

| source | as written | input that shows it | evidently intended | confidence | as-written member | corrected member |
|---|---|---|---|---|---|---|
| __init__.py:47 | `demo.sum().item()` sums every column, so the `race` strings concatenate; `.item()` then raises because the sum holds two values | races white 3 and black 2 (no null race) | a `TOTAL` row whose count is the sum of the counts, 5 | medium, not executed | Panel.TotalItemAsWritten, Panel.TotalItemAsWrittenFails | Panel.WithTotal, Panel.WithTotalSpec |

# Weekly PR review leaderboard, modelled in Dafny

`main.py` is a script that builds a weekly review leaderboard for one GitHub
repository. It searches the pull requests updated in the last seven days and
fetches each one's reviews and inline review comments. It then keeps the
events that are no older than the cutoff (now minus seven days) and whose
author is on the `WHITELIST`, and appends one row per kept event. After that
it stops with "No reviews found" when nothing was kept. Otherwise it groups
the rows by reviewer into `reviews_done`, `inline_comments`, the mean
latency, `messages_written` and `total_activity`, and prints the table sorted
by `total_activity`, highest first.

The model covers that logic, without the network:

- `wrappers.dfy` — module `Wrappers`: `Option` and `Result`.
- `iso_time.dfy` — module `IsoTime`:
  - `iso_to_dt`, which is `datetime.strptime(s, "%Y-%m-%dT%H:%M:%SZ")`. It is written as a scanner driven by the directives of the format. It follows strptime's own rules:
    - `%Y` is exactly four digits;
    - `%m %d %H %M %S` take one or two digits within the pattern's range, and `%d` also accepts a space and a digit;
    - the literals `T` and `Z` match in either case;
    - the whole text must be consumed;
    - the `date` and `datetime` constructors then reject impossible dates, year 0, and second 60 and 61.
  - Python's ordering of naive datetimes.
  - The whole-second time line behind `(a - b).total_seconds()`.
  - A renderer for the canonical text, the parser's partner in the round-trip lemmas.
- `collection.dfy` — module `Collection`:
  - the raw review and comment objects as datatypes with optional fields;
  - each event's outcome as a function (`ReviewRows`, `CommentRows`);
  - the whole collection phase as the fold `Collect`;
  - the script's nested loops as methods that append to a growing sequence: the outer loop is proved equal to `Collect`, and each inner loop to the fold of its event step over its reviews or comments.

  The collection functions take the timestamp parser as a parameter `parse`, constrained by `ValidParser`. The whole run instantiates it with `IsoTime.ParseIso`.
- `leaderboard.dfy` — module `Leaderboard`:
  - the empty check and the `groupby(...).agg(...)` with `total_activity`, as `Aggregate`;
  - the descending sort, as `SortByActivity`;
  - the whole run, as `Run`.

Two exceptions end the script, and the model keeps them as `Failure` values:

- A timestamp that `iso_to_dt` rejects becomes `BadTimestamp`.
- A `null` user object whose login is read becomes `MissingUser`.

A review whose `submitted_at` is missing, null or empty is skipped before anything is parsed.

The rows the script appends keep their latency in whole seconds. The mean
latency column is carried as the sum of a reviewer's latencies: the mean in
hours is `latencySum / totalActivity / 3600`, and `RowBounds` proves that
`totalActivity` is that reviewer's number of rows.

## Model

| member | source | states |
|---|---|---|
| IsoTime.ParseIso | main.py:62-63 | whatever `iso_to_dt` accepts is a datetime the `date` and `datetime` constructors allow (year 1..9999, a real day of its month, second below 60), in whole seconds |
| IsoTime.ParseFormat | main.py:62-63 | every datetime `iso_to_dt` can return is parsed back from its canonical `YYYY-MM-DDTHH:MM:SSZ` text, and that text has the fully padded shape |
| IsoTime.FormatParse | main.py:62-63 | on fully padded text a successful parse loses nothing: the canonical text of the result is the input |
| IsoTime.ConstructorCheck | main.py:62-63 | text of the format's shape with in-range fields parses exactly when its fields form a valid datetime, and to that datetime; the 29th of February of a common year or second 60 is an error |
| IsoTime.PaddedFieldAccepted | main.py:62-63 | the zero-padded text of a value matches one of its directive's strptime alternatives (for `%m`: `1` then `0`-`2`, `0` then `1`-`9`, or one digit `1`-`9`) exactly when the value is in range: month 1..12, day 1..31, hour up to 23, minute up to 59, second up to 61 |
| IsoTime.ScanRender | main.py:62-63 | for any format, scanning the rendering of fitting values yields those values |
| IsoTime.RenderScan | main.py:62-63 | for a format whose fields are each followed by a non-digit literal, scanning padded text and rendering the values gives back the text |
| IsoTime.DaysBeforeYearClosed | main.py:87 | the days before a year, counted year by year with 366 for leap years, equal Python's closed form `y * 365 + y // 4 - y // 100 + y // 400` behind `(a - b).total_seconds()` |
| IsoTime.BeforeIffEarlier | main.py:78-79 | Python's field-by-field `<` on datetimes, used for the cutoff test, holds exactly when the first is earlier on the time line that latencies are measured on |
| Collection.CollectRows | main.py:66-105 | the script's loop over the search results yields exactly `Collect`: the records of every pull request in search order, or the first exception |
| Collection.AppendReviews | main.py:74-89 | the loop over one pull request's reviews (skip without `submitted_at`, parse, skip before the cutoff, read the login, skip unless whitelisted, else append) appends each review's records to `rows` in order, or stops at the first exception |
| Collection.ReviewRecorded | main.py:75-89 | a review with a `submitted_at` that parses, is not before the cutoff and is by a whitelisted login emits exactly one record: the pull request's number, the login, `review_event`, the timestamp, the latency from the creation and the message flag |
| Collection.AppendComments | main.py:91-105 | the loop over one pull request's inline comments (parse, skip before the cutoff, read the login, skip unless whitelisted, else append) appends each comment's records to `rows` in order, or stops at the first exception |
| Collection.CommentRecorded | main.py:92-105 | an inline comment that parses, is not before the cutoff and is by a whitelisted login emits exactly one record of kind `inline_comment` with message flag 1 |
| Collection.CollectAdmitsOnly | main.py:74-105 | every collected record is by a whitelisted login and not before the cutoff, and has a valid timestamp and a 0/1 message flag that is 1 for inline comments |
| Collection.PullLatencies | main.py:71-103 | every record of a pull request carries its number and the latency of its own event from that pull request's creation; the latency is negative exactly when the event precedes the creation |
| Collection.PullReviewsFirst | main.py:74-105 | within one pull request every review event precedes every inline comment |
| Collection.ReviewMessageFlag | main.py:88 | a review's message flag is 1 exactly when its body is present and non-empty |
| Collection.ReviewDropped | main.py:75-82 | a review without `submitted_at`, or one that parses but is before the cutoff or by a non-whitelisted login, can be removed without changing the collected records |
| Collection.CommentDropped | main.py:92-98 | an inline comment before the cutoff or by a non-whitelisted login can be removed without changing the collected records |
| Collection.ReviewFails | main.py:77-80 | a review's outcome is an error exactly when its `submitted_at` is non-empty and `iso_to_dt` rejects it, or it parses, is not before the cutoff and its user is null |
| Collection.CommentFails | main.py:93-96 | an inline comment's outcome is an error exactly when `iso_to_dt` rejects its `created_at`, or it is not before the cutoff and its user is null |
| Collection.GatherSucceedsIff | main.py:66-105 | a loop over events runs to the end exactly when no event raises |
| Collection.PullSucceedsIff | main.py:69-105 | one pull request contributes without error exactly when its `created_at` parses and none of its reviews or inline comments raises |
| Collection.CollectSucceedsIff | main.py:66-105 | the collection succeeds exactly when every pull request is free of the two exceptions: a timestamp `iso_to_dt` rejects, or a null user read past the timestamp and cutoff tests |
| Collection.ReviewFatalFails | main.py:77-80 | one review with a bad `submitted_at`, or a null user past the cutoff, anywhere in the input ends the whole run with an error |
| Collection.CommentFatalFails | main.py:93-96 | one inline comment with a bad `created_at`, or a null user past the cutoff, anywhere in the input ends the whole run with an error |
| Collection.ReviewKept | main.py:74-89 | the converse of `ReviewDropped`: a review that passes every test is never lost, and a successful collection holds its record with its pull request's number, latency and message flag |
| Collection.CommentKept | main.py:91-105 | the converse of `CommentDropped`: an inline comment that passes every test is never lost, and a successful collection holds its record with message flag 1 |
| Collection.CollectConcat | main.py:69-105 | collecting two batches of search results one after the other is collecting their concatenation: earlier records are never changed by later ones |
| Collection.GatherAppend | main.py:69-105 | the generic append loop over `xs + ys` appends the records of `ys` after those of `xs`; the first failure wins |
| Leaderboard.Reviewers | main.py:114 | the groupby keys are pairwise distinct, every record's reviewer is one of them and each of them is some record's reviewer |
| Leaderboard.Aggregate | main.py:109-119 | no leaderboard exactly when there is no record; otherwise at least one row |
| Leaderboard.OneRowPerReviewer | main.py:114-119 | one row per distinct reviewer: row reviewers are pairwise distinct, a reviewer has a row exactly when it has a record, and each row holds that reviewer's aggregates |
| Leaderboard.Conservation | main.py:114-126 | over all rows `total_activity` sums to the number of records, `reviews_done` and `inline_comments` to the counts of each kind, `messages_written` to the sum of message flags, latency sums to the sum of latencies |
| Leaderboard.RowBounds | main.py:114-126 | in every row `total_activity = reviews_done + inline_comments` is the reviewer's number of records and at least 1, and `inline_comments <= messages_written <= total_activity` |
| Leaderboard.KindsCount | main.py:126 | a reviewer's review count and inline-comment count add up to its number of records |
| Leaderboard.Insert | main.py:129 | inserting a row into rows ordered by decreasing activity keeps the order and adds exactly that row |
| Leaderboard.SortByActivity | main.py:129 | the printed table is ordered by `total_activity`, non-increasing, and is a permutation of the rows |
| Leaderboard.RunRows | main.py:66-129 | the run prints "No reviews found" exactly when collection succeeds with no record; otherwise the board is non-empty and sorted, and every row is of a whitelisted reviewer with consistent columns |

## Left out

- `search_prs`, `get_reviews` and `get_review_comments` are left out: HTTP requests, JSON decoding and the pagination stop rule. Each pull request arrives with its already fetched reviews and comments, in search order.
- `datetime.utcnow()` and the token from the environment are left out. The cutoff is a parameter: a datetime with microseconds, compared as Python compares datetimes.
- The float division by 3600 into hours and pandas' `mean` are left out. Latencies stay in whole seconds, and the mean is carried as a latency sum with its count.
- The plots, the repository-wide averages, file saving and all printing are left out.
- The column-fill loop after the aggregation is left out. It does nothing once `agg` has produced the columns.
- Leaderboard.Reviewers: pandas' `groupby` sorts its keys, but here they are in order of first appearance. Only the printed order by `total_activity` is modelled.
- Leaderboard.SortByActivity: the order among rows with equal `total_activity` is left unspecified. The sort pandas uses is not stable.
- IsoTime.ParseIso: strptime's `\d` also matches non-ASCII decimal digits. The model accepts ASCII digits only.
- Malformed JSON is not modelled: a missing `user`, `number` or `created_at` key, or a value of the wrong type. The raw objects are typed, with optional fields only where the script tolerates absence or `null`.
- For the parser, the code is followed rather than the "exactly `YYYY-MM-DDTHH:MM:SSZ`" reading of the format. strptime also accepts one-digit fields, a space before a one-digit day, and lower-case `t` and `z`, and the model does the same.

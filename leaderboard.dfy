/** The leaderboard: the empty check on the collected records, the
    per-reviewer `groupby(...).agg(...)` with `total_activity`, and the
    descending sort on `total_activity`. */
module Leaderboard {
  import opened Wrappers
  import opened IsoTime
  import opened Collection

  /** One row of the leaderboard. The mean latency column is carried as the
      sum of the reviewer's latencies in seconds; the mean in hours is
      `latencySum / totalActivity / 3600`. */
  datatype Row = Row(reviewer: string, reviewsDone: int, inlineComments: int,
                     latencySum: int, messagesWritten: int, totalActivity: int)

  // ---------------------------------------------------------------------
  // Per-record contributions to the columns
  // ---------------------------------------------------------------------

  function IsReview(rec: Record): int {
    if rec.kind == ReviewEvent then 1 else 0
  }

  function IsInline(rec: Record): int {
    if rec.kind == InlineComment then 1 else 0
  }

  function Message(rec: Record): int {
    rec.hasMessage
  }

  function Latency(rec: Record): int {
    rec.latency
  }

  function Count(rec: Record): int {
    1
  }

  /** The sum of `f` over the records of reviewer `who`. */
  function Sum(recs: seq<Record>, who: string, f: Record -> int): int {
    if recs == [] then 0
    else (if recs[0].reviewer == who then f(recs[0]) else 0) + Sum(recs[1..], who, f)
  }

  /** The sum of `f` over all records. */
  function Total(recs: seq<Record>, f: Record -> int): int {
    if recs == [] then 0 else f(recs[0]) + Total(recs[1..], f)
  }

  /** The sum over the reviewers `keys` of their per-reviewer sums. */
  function Over(keys: seq<string>, recs: seq<Record>, f: Record -> int): int {
    if keys == [] then 0 else Sum(recs, keys[0], f) + Over(keys[1..], recs, f)
  }

  /** The sum of one column over the rows. */
  function Column(rows: seq<Row>, col: Row -> int): int {
    if rows == [] then 0 else col(rows[0]) + Column(rows[1..], col)
  }

  // ---------------------------------------------------------------------
  // Grouping
  // ---------------------------------------------------------------------

  predicate Distinct(keys: seq<string>) {
    forall i, j :: 0 <= i < j < |keys| ==> keys[i] != keys[j]
  }

  /** The groupby keys: every reviewer among the records, once each, in
      order of first appearance. */
  function Reviewers(recs: seq<Record>): (keys: seq<string>)
    ensures Distinct(keys)
    ensures forall k :: 0 <= k < |recs| ==> recs[k].reviewer in keys
    ensures forall x :: x in keys ==> exists k :: 0 <= k < |recs| && recs[k].reviewer == x
  {
    if recs == [] then []
    else
      var init := recs[..|recs| - 1];
      var last := recs[|recs| - 1].reviewer;
      var prev := Reviewers(init);
      assert forall k :: 0 <= k < |init| ==> init[k] == recs[k];
      if last in prev then prev else prev + [last]
  }

  /** The aggregated row of reviewer `who`. */
  function RowFor(who: string, recs: seq<Record>): Row {
    var reviews := Sum(recs, who, IsReview);
    var inline := Sum(recs, who, IsInline);
    Row(who, reviews, inline, Sum(recs, who, Latency), Sum(recs, who, Message), reviews + inline)
  }

  function RowsFor(keys: seq<string>, recs: seq<Record>): (rows: seq<Row>)
    ensures |rows| == |keys|
    ensures forall i :: 0 <= i < |keys| ==> rows[i] == RowFor(keys[i], recs)
  {
    if keys == [] then [] else [RowFor(keys[0], recs)] + RowsFor(keys[1..], recs)
  }

  /** The empty check and the aggregation: None is "No reviews found",
      otherwise one row per reviewer. */
  function Aggregate(recs: seq<Record>): (r: Option<seq<Row>>)
    ensures r.None? <==> recs == []
    ensures r.Some? ==> |r.value| >= 1
  {
    if recs == [] then None
    else
      assert recs[0].reviewer in Reviewers(recs);
      Some(RowsFor(Reviewers(recs), recs))
  }

  // ---------------------------------------------------------------------
  // One row per reviewer
  // ---------------------------------------------------------------------

  /** `who` has a row. */
  predicate HasRow(rows: seq<Row>, who: string) {
    exists i :: 0 <= i < |rows| && rows[i].reviewer == who
  }

  /** `who` is the reviewer of some record. */
  predicate Active(recs: seq<Record>, who: string) {
    exists k :: 0 <= k < |recs| && recs[k].reviewer == who
  }

  /** The rows' reviewers are pairwise distinct and are exactly the
      reviewers among the records, each row holding that reviewer's
      aggregates. */
  lemma OneRowPerReviewer(recs: seq<Record>)
    requires recs != []
    ensures var rows := Aggregate(recs).value;
      forall i, j :: 0 <= i < j < |rows| ==> rows[i].reviewer != rows[j].reviewer
    ensures forall who :: HasRow(Aggregate(recs).value, who) <==> Active(recs, who)
    ensures var rows := Aggregate(recs).value;
      forall i :: 0 <= i < |rows| ==> rows[i] == RowFor(rows[i].reviewer, recs)
  {
    var keys := Reviewers(recs);
    var rows := RowsFor(keys, recs);
    assert Aggregate(recs).value == rows;
    forall who
      ensures HasRow(rows, who) <==> Active(recs, who)
    {
      if Active(recs, who) {
        var k :| 0 <= k < |recs| && recs[k].reviewer == who;
        var i :| 0 <= i < |keys| && keys[i] == who;
        assert rows[i].reviewer == keys[i];
      }
      if HasRow(rows, who) {
        var i :| 0 <= i < |rows| && rows[i].reviewer == who;
        assert keys[i] in keys;
      }
    }
  }

  // ---------------------------------------------------------------------
  // Conservation: the columns add up to the records
  // ---------------------------------------------------------------------

  /** Adding one record in front adds its contribution to exactly the one
      reviewer it belongs to. */
  lemma {:induction false} OverCons(keys: seq<string>, rec: Record, recs: seq<Record>, f: Record -> int)
    requires Distinct(keys)
    ensures Over(keys, [rec] + recs, f) == Over(keys, recs, f) + (if rec.reviewer in keys then f(rec) else 0)
  {
    if keys != [] {
      assert ([rec] + recs)[1..] == recs;
      assert Distinct(keys[1..]) by {
        forall i, j | 0 <= i < j < |keys[1..]| ensures keys[1..][i] != keys[1..][j] {
          assert keys[1..][i] == keys[i + 1] && keys[1..][j] == keys[j + 1];
        }
      }
      OverCons(keys[1..], rec, recs, f);
      assert rec.reviewer in keys <==> rec.reviewer == keys[0] || rec.reviewer in keys[1..];
      if rec.reviewer == keys[0] {
        assert keys[0] !in keys[1..] by {
          forall j | 0 <= j < |keys[1..]| ensures keys[1..][j] != keys[0] {
            assert keys[1..][j] == keys[j + 1];
          }
        }
      }
    }
  }

  /** Summing the per-reviewer sums over all reviewers gives the sum over
      all records. */
  lemma {:induction false} OverTotal(keys: seq<string>, recs: seq<Record>, f: Record -> int)
    requires Distinct(keys)
    requires forall k :: 0 <= k < |recs| ==> recs[k].reviewer in keys
    ensures Over(keys, recs, f) == Total(recs, f)
  {
    if recs == [] {
      OverEmpty(keys, f);
    } else {
      assert recs == [recs[0]] + recs[1..];
      assert forall k :: 0 <= k < |recs[1..]| ==> recs[1..][k] == recs[k + 1];
      OverTotal(keys, recs[1..], f);
      OverCons(keys, recs[0], recs[1..], f);
    }
  }

  lemma {:induction false} OverEmpty(keys: seq<string>, f: Record -> int)
    ensures Over(keys, [], f) == 0
  {
    if keys != [] {
      OverEmpty(keys[1..], f);
    }
  }

  /** A column of the rows is the per-reviewer sum of that column's
      contribution. */
  lemma {:induction false} ColumnOver(keys: seq<string>, recs: seq<Record>, col: Row -> int, f: Record -> int)
    requires forall x :: col(RowFor(x, recs)) == Sum(recs, x, f)
    ensures Column(RowsFor(keys, recs), col) == Over(keys, recs, f)
  {
    if keys != [] {
      var rows := RowsFor(keys, recs);
      assert rows[1..] == RowsFor(keys[1..], recs);
      ColumnOver(keys[1..], recs, col, f);
    }
  }

  /** Nothing is lost or counted twice by the grouping: over all rows,
      `total_activity` adds up to the number of records, `reviews_done` and
      `inline_comments` to the number of records of each kind,
      `messages_written` to the sum of the message flags and the latency
      sums to the sum of all latencies. */
  lemma Conservation(recs: seq<Record>)
    requires recs != []
    ensures var rows := Aggregate(recs).value;
      && Column(rows, (r: Row) => r.totalActivity) == |recs|
      && Column(rows, (r: Row) => r.reviewsDone) == Total(recs, IsReview)
      && Column(rows, (r: Row) => r.inlineComments) == Total(recs, IsInline)
      && Column(rows, (r: Row) => r.messagesWritten) == Total(recs, Message)
      && Column(rows, (r: Row) => r.latencySum) == Total(recs, Latency)
  {
    var keys := Reviewers(recs);
    forall x ensures RowFor(x, recs).totalActivity == Sum(recs, x, Count) {
      KindsCount(recs, x);
    }
    ColumnOver(keys, recs, (r: Row) => r.totalActivity, Count);
    ColumnOver(keys, recs, (r: Row) => r.reviewsDone, IsReview);
    ColumnOver(keys, recs, (r: Row) => r.inlineComments, IsInline);
    ColumnOver(keys, recs, (r: Row) => r.messagesWritten, Message);
    ColumnOver(keys, recs, (r: Row) => r.latencySum, Latency);
    OverTotal(keys, recs, Count);
    OverTotal(keys, recs, IsReview);
    OverTotal(keys, recs, IsInline);
    OverTotal(keys, recs, Message);
    OverTotal(keys, recs, Latency);
    TotalCount(recs);
  }

  lemma {:induction false} TotalCount(recs: seq<Record>)
    ensures Total(recs, Count) == |recs|
  {
    if recs != [] {
      TotalCount(recs[1..]);
    }
  }

  /** Every record is of exactly one kind, so the two kind counts of a
      reviewer add up to that reviewer's number of records. */
  lemma {:induction false} KindsCount(recs: seq<Record>, who: string)
    ensures Sum(recs, who, IsReview) + Sum(recs, who, IsInline) == Sum(recs, who, Count)
  {
    if recs != [] {
      KindsCount(recs[1..], who);
    }
  }

  // ---------------------------------------------------------------------
  // Bounds linking the columns
  // ---------------------------------------------------------------------

  /** What the collection guarantees of a record's message flag. */
  predicate WellFormed(rec: Record) {
    && (rec.hasMessage == 0 || rec.hasMessage == 1)
    && (rec.kind == InlineComment ==> rec.hasMessage == 1)
  }

  lemma {:induction false} FlagBounds(recs: seq<Record>, who: string)
    requires forall k :: 0 <= k < |recs| ==> WellFormed(recs[k])
    ensures Sum(recs, who, IsInline) <= Sum(recs, who, Message) <= Sum(recs, who, Count)
  {
    if recs != [] {
      assert WellFormed(recs[0]);
      assert forall k :: 0 <= k < |recs[1..]| ==> recs[1..][k] == recs[k + 1];
      FlagBounds(recs[1..], who);
    }
  }

  lemma {:induction false} PresentCounts(recs: seq<Record>, who: string)
    requires Active(recs, who)
    ensures Sum(recs, who, Count) >= 1
  {
    var k :| 0 <= k < |recs| && recs[k].reviewer == who;
    NonNegativeCount(recs[1..], who);
    if k > 0 {
      assert recs[1..][k - 1] == recs[k];
      PresentCounts(recs[1..], who);
    }
  }

  lemma {:induction false} NonNegativeCount(recs: seq<Record>, who: string)
    ensures Sum(recs, who, Count) >= 0
  {
    if recs != [] {
      NonNegativeCount(recs[1..], who);
    }
  }

  /** In every row: `total_activity` is `reviews_done + inline_comments`
      and is the reviewer's number of records (the mean's denominator), at
      least one; `inline_comments <= messages_written <= total_activity`. */
  lemma RowBounds(recs: seq<Record>)
    requires recs != []
    requires forall k :: 0 <= k < |recs| ==> WellFormed(recs[k])
    ensures forall row :: row in Aggregate(recs).value ==>
      && row.totalActivity == row.reviewsDone + row.inlineComments
      && row.totalActivity == Sum(recs, row.reviewer, Count)
      && row.totalActivity >= 1
      && 0 <= row.inlineComments <= row.messagesWritten <= row.totalActivity
  {
    var rows := Aggregate(recs).value;
    OneRowPerReviewer(recs);
    forall row | row in rows
      ensures row.totalActivity == Sum(recs, row.reviewer, Count)
      ensures row.totalActivity >= 1
      ensures 0 <= row.inlineComments <= row.messagesWritten <= row.totalActivity
    {
      var i :| 0 <= i < |rows| && rows[i] == row;
      assert HasRow(rows, row.reviewer);
      KindsCount(recs, row.reviewer);
      FlagBounds(recs, row.reviewer);
      PresentCounts(recs, row.reviewer);
      InlineNonNegative(recs, row.reviewer);
    }
  }

  lemma {:induction false} InlineNonNegative(recs: seq<Record>, who: string)
    ensures Sum(recs, who, IsInline) >= 0
  {
    if recs != [] {
      InlineNonNegative(recs[1..], who);
    }
  }

  // ---------------------------------------------------------------------
  // sort_values("total_activity", ascending=False)
  // ---------------------------------------------------------------------

  predicate NonIncreasing(rows: seq<Row>) {
    forall i, j :: 0 <= i < j < |rows| ==> rows[i].totalActivity >= rows[j].totalActivity
  }

  /** Inserts `row` into rows already ordered by decreasing activity. */
  function Insert(row: Row, sorted: seq<Row>): (r: seq<Row>)
    requires NonIncreasing(sorted)
    ensures NonIncreasing(r)
    ensures multiset(r) == multiset(sorted) + multiset{row}
  {
    if sorted == [] || sorted[0].totalActivity <= row.totalActivity then
      [row] + sorted
    else
      var rest := Insert(row, sorted[1..]);
      InsertBelow(sorted, row, rest);
      [sorted[0]] + rest
  }

  /** The head of `sorted` stays in front of the rows it was ahead of and of
      the inserted row, which it outranks. */
  lemma InsertBelow(sorted: seq<Row>, row: Row, rest: seq<Row>)
    requires sorted != [] && NonIncreasing(sorted)
    requires row.totalActivity < sorted[0].totalActivity
    requires NonIncreasing(rest) && multiset(rest) == multiset(sorted[1..]) + multiset{row}
    ensures NonIncreasing([sorted[0]] + rest)
    ensures multiset([sorted[0]] + rest) == multiset(sorted) + multiset{row}
  {
    assert sorted == [sorted[0]] + sorted[1..];
    var r := [sorted[0]] + rest;
    forall j | 1 <= j < |r|
      ensures r[j].totalActivity <= sorted[0].totalActivity
    {
      assert r[j] == rest[j - 1];
      assert r[j] in multiset(rest);
      if r[j] != row {
        assert r[j] in multiset(sorted[1..]);
        var m :| 0 <= m < |sorted[1..]| && sorted[1..][m] == r[j];
        assert sorted[m + 1] == r[j];
      }
    }
  }

  /** The leaderboard as printed: ordered by `total_activity`, highest
      first, holding the same rows. The order among equal activities is not
      specified, as the sort is not stable. */
  function SortByActivity(rows: seq<Row>): (r: seq<Row>)
    ensures NonIncreasing(r)
    ensures multiset(r) == multiset(rows)
  {
    if rows == [] then []
    else
      assert rows == [rows[0]] + rows[1..];
      Insert(rows[0], SortByActivity(rows[1..]))
  }

  // ---------------------------------------------------------------------
  // The whole run
  // ---------------------------------------------------------------------

  datatype Outcome = NoActivity | Board(rows: seq<Row>)

  /** Collection with iso_to_dt, the empty check, the aggregation and the
      sort; a failure is the exception that ends the script. */
  function Run(prs: seq<PullRequest>, cutoff: DateTime, whitelist: seq<string>): Result<Outcome, Failure> {
    ParseIsoValid();
    match Collect(ParseIso, prs, cutoff, whitelist)
    case Failure(e) => Failure(e)
    case Success(recs) =>
      match Aggregate(recs)
      case None => Success(NoActivity)
      case Some(rows) => Success(Board(SortByActivity(rows)))
  }

  lemma ParseIsoValid()
    ensures ValidParser(ParseIso)
  {
  }

  /** "No reviews found" exactly when the collection succeeds with no
      record; otherwise every printed row is of a whitelisted reviewer, has
      at least one event, and its columns are consistent. */
  lemma RunRows(prs: seq<PullRequest>, cutoff: DateTime, whitelist: seq<string>)
    ensures ValidParser(ParseIso)
    ensures Run(prs, cutoff, whitelist) == Success(NoActivity) <==>
      Collect(ParseIso, prs, cutoff, whitelist) == Success([])
    ensures Run(prs, cutoff, whitelist).Success? && Run(prs, cutoff, whitelist).value.Board? ==>
      var rows := Run(prs, cutoff, whitelist).value.rows;
      && rows != []
      && NonIncreasing(rows)
      && forall row :: row in rows ==>
           && row.reviewer in whitelist
           && row.totalActivity == row.reviewsDone + row.inlineComments
           && row.totalActivity >= 1
           && 0 <= row.inlineComments <= row.messagesWritten <= row.totalActivity
  {
    ParseIsoValid();
    var collected := Collect(ParseIso, prs, cutoff, whitelist);
    if collected.Success? && collected.value != [] {
      var recs := collected.value;
      CollectAdmitsOnly(ParseIso, prs, cutoff, whitelist);
      assert forall k :: 0 <= k < |recs| ==> recs[k] in recs;
      RowBounds(recs);
      OneRowPerReviewer(recs);
      var rows := Aggregate(recs).value;
      var sorted := SortByActivity(rows);
      forall row | row in sorted
        ensures row in rows
      {
        assert row in multiset(sorted);
      }
      forall row | row in rows
        ensures row.reviewer in whitelist
      {
        var i :| 0 <= i < |rows| && rows[i] == row;
        assert HasRow(rows, row.reviewer);
        var k :| 0 <= k < |recs| && recs[k].reviewer == row.reviewer;
        assert recs[k] in recs;
      }
      assert rows[0] in multiset(sorted);
    }
  }
}

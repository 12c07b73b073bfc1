/** The collection loop of the leaderboard script: for every pull request it
    walks the raw review objects and the raw inline-comment objects, drops
    what is outside the window or not by a whitelisted login, and appends one
    normalised record per surviving event. The HTTP fetches are not modelled:
    each pull request arrives with its already fetched reviews and comments. */
module Collection {
  import opened Wrappers
  import opened IsoTime

  /** A review object, reduced to the fields the loop reads. `login` is
      `r["user"]["login"]`, None when the user object is null; `submittedAt`
      and `body` are None when the key is missing or null. */
  datatype RawReview = RawReview(login: Option<string>, submittedAt: Option<string>, body: Option<string>)

  /** An inline review comment object: its author and `created_at`. */
  datatype RawComment = RawComment(login: Option<string>, createdAt: string)

  /** One search result together with what was fetched for it. */
  datatype PullRequest = PullRequest(number: int, createdAt: string,
                                     reviews: seq<RawReview>, comments: seq<RawComment>)

  datatype Kind = ReviewEvent | InlineComment

  /** One appended row. `latency` is `submitted_at - created_at` of the pull
      request in whole seconds (the script divides it by 3600 into hours);
      `hasMessage` is the 0/1 flag. */
  datatype Record = Record(prNumber: int, reviewer: string, kind: Kind,
                           submittedAt: DateTime, latency: int, hasMessage: int)

  /** What aborts the whole run: a timestamp iso_to_dt rejects, or a null
      user object whose login is read. */
  datatype Failure = BadTimestamp(text: string) | MissingUser

  type Rows = Result<seq<Record>, Failure>

  /** The timestamp parser the loop calls, `iso_to_dt`: `Leaderboard.Run` passes
      `IsoTime.ParseIso`. Whatever it accepts is a datetime the constructor
      allows, in whole seconds. */
  type Parser = string -> Option<DateTime>

  ghost predicate ValidParser(parse: Parser) {
    forall s :: parse(s).Some? ==> Valid(parse(s).value) && parse(s).value.microsecond == 0
  }

  /** Sequencing of two stages of the run: the first failure wins,
      otherwise the records are appended in order. */
  function Then(first: Rows, second: Rows): Rows {
    if first.Failure? then first
    else if second.Failure? then second
    else Success(first.value + second.value)
  }

  /** Runs `step` over `xs` in order, appending what each call emits and
      stopping at the first failure. */
  function Gather<T>(xs: seq<T>, step: T -> Rows): Rows {
    if xs == [] then Success([])
    else Then(Gather(xs[..|xs| - 1], step), step(xs[|xs| - 1]))
  }

  /** One raw review: skipped without `submitted_at`, parsed (fatally),
      dropped before the cutoff, the login read (fatally if the user is
      null), dropped unless whitelisted; otherwise one record. */
  function ReviewRows(parse: Parser, number: int, created: DateTime, r: RawReview,
                      cutoff: DateTime, whitelist: seq<string>): Rows
    requires ValidParser(parse)
    requires Valid(created)
  {
    if r.submittedAt.None? || r.submittedAt.value == [] then Success([])
    else match parse(r.submittedAt.value)
      case None => Failure(BadTimestamp(r.submittedAt.value))
      case Some(t) =>
        if Before(t, cutoff) then Success([])
        else match r.login
          case None => Failure(MissingUser)
          case Some(login) =>
            if login !in whitelist then Success([])
            else
              var hasMessage := if r.body.Some? && r.body.value != [] then 1 else 0;
              Success([Record(number, login, ReviewEvent, t, Seconds(t) - Seconds(created), hasMessage)])
  }

  /** One raw inline comment: parsed (fatally), dropped before the cutoff,
      the login read (fatally if null), dropped unless whitelisted. */
  function CommentRows(parse: Parser, number: int, created: DateTime, c: RawComment,
                       cutoff: DateTime, whitelist: seq<string>): Rows
    requires ValidParser(parse)
    requires Valid(created)
  {
    match parse(c.createdAt)
    case None => Failure(BadTimestamp(c.createdAt))
    case Some(t) =>
      if Before(t, cutoff) then Success([])
      else match c.login
        case None => Failure(MissingUser)
        case Some(login) =>
          if login !in whitelist then Success([])
          else Success([Record(number, login, InlineComment, t, Seconds(t) - Seconds(created), 1)])
  }

  function ReviewStep(parse: Parser, number: int, created: DateTime, cutoff: DateTime, whitelist: seq<string>): RawReview -> Rows
    requires ValidParser(parse)
    requires Valid(created)
  {
    r => ReviewRows(parse, number, created, r, cutoff, whitelist)
  }

  function CommentStep(parse: Parser, number: int, created: DateTime, cutoff: DateTime, whitelist: seq<string>): RawComment -> Rows
    requires ValidParser(parse)
    requires Valid(created)
  {
    c => CommentRows(parse, number, created, c, cutoff, whitelist)
  }

  /** A review that has a `submitted_at`, parses, is not before the cutoff
      and is by a whitelisted login yields exactly one record: its pull
      request's number, the login, the timestamp, the latency from the pull
      request's creation and the message flag. */
  lemma ReviewRecorded(parse: Parser, number: int, created: DateTime, r: RawReview,
                       cutoff: DateTime, whitelist: seq<string>, t: DateTime)
    requires ValidParser(parse) && Valid(created)
    requires r.submittedAt.Some? && r.submittedAt.value != [] && parse(r.submittedAt.value) == Some(t)
    requires !Before(t, cutoff) && r.login.Some? && r.login.value in whitelist
    ensures Valid(t)
    ensures ReviewStep(parse, number, created, cutoff, whitelist)(r)
         == Success([Record(number, r.login.value, ReviewEvent, t, Seconds(t) - Seconds(created),
                            if r.body.Some? && r.body.value != [] then 1 else 0)])
  { }

  /** An inline comment that parses, is not before the cutoff and is by a
      whitelisted login yields exactly one record, with message flag 1. */
  lemma CommentRecorded(parse: Parser, number: int, created: DateTime, c: RawComment,
                        cutoff: DateTime, whitelist: seq<string>, t: DateTime)
    requires ValidParser(parse) && Valid(created)
    requires parse(c.createdAt) == Some(t)
    requires !Before(t, cutoff) && c.login.Some? && c.login.value in whitelist
    ensures Valid(t)
    ensures CommentStep(parse, number, created, cutoff, whitelist)(c)
         == Success([Record(number, c.login.value, InlineComment, t, Seconds(t) - Seconds(created), 1)])
  { }

  /** One pull request: its creation time is parsed first (fatally), then
      all its reviews, then all its inline comments. */
  function PullRows(parse: Parser, p: PullRequest, cutoff: DateTime, whitelist: seq<string>): Rows
    requires ValidParser(parse)
  {
    match parse(p.createdAt)
    case None => Failure(BadTimestamp(p.createdAt))
    case Some(created) =>
      Then(Gather(p.reviews, ReviewStep(parse, p.number, created, cutoff, whitelist)),
           Gather(p.comments, CommentStep(parse, p.number, created, cutoff, whitelist)))
  }

  function PullStep(parse: Parser, cutoff: DateTime, whitelist: seq<string>): PullRequest -> Rows
    requires ValidParser(parse)
  {
    p => PullRows(parse, p, cutoff, whitelist)
  }

  /** The whole collection phase over the search results, in search order. */
  function Collect(parse: Parser, prs: seq<PullRequest>, cutoff: DateTime, whitelist: seq<string>): Rows
    requires ValidParser(parse)
  {
    Gather(prs, PullStep(parse, cutoff, whitelist))
  }

  // ---------------------------------------------------------------------
  // The collection loop
  // ---------------------------------------------------------------------

  /** The script's outer loop over the search results, appending to `rows`
      in place. */
  method CollectRows(parse: Parser, prs: seq<PullRequest>, cutoff: DateTime, whitelist: seq<string>)
    returns (result: Rows)
    requires ValidParser(parse)
    ensures result == Collect(parse, prs, cutoff, whitelist)
  {
    var rows: seq<Record> := [];
    for i := 0 to |prs|
      invariant Collect(parse, prs[..i], cutoff, whitelist) == Success(rows)
    {
      var pr := prs[i];
      assert prs[..i + 1][..i] == prs[..i];
      var parsed := parse(pr.createdAt);
      if parsed.None? {
        PullFailureStops(parse, prs, i, cutoff, whitelist);
        return Failure(BadTimestamp(pr.createdAt));
      }
      var created := parsed.value;
      var reviewStep := ReviewStep(parse, pr.number, created, cutoff, whitelist);
      var commentStep := CommentStep(parse, pr.number, created, cutoff, whitelist);
      ThenAssociative(Success(rows), Gather(pr.reviews, reviewStep), Gather(pr.comments, commentStep));
      var afterReviews := AppendReviews(parse, pr.number, created, pr.reviews, cutoff, whitelist, rows);
      if afterReviews.Failure? {
        PullFailureStops(parse, prs, i, cutoff, whitelist);
        return afterReviews;
      }
      var afterComments := AppendComments(parse, pr.number, created, pr.comments, cutoff, whitelist, afterReviews.value);
      if afterComments.Failure? {
        PullFailureStops(parse, prs, i, cutoff, whitelist);
        return afterComments;
      }
      rows := afterComments.value;
    }
    assert prs[..|prs|] == prs;
    return Success(rows);
  }

  /** The loop over one pull request's reviews, appending to `rows`. */
  method AppendReviews(parse: Parser, number: int, created: DateTime, reviews: seq<RawReview>,
                       cutoff: DateTime, whitelist: seq<string>, rows: seq<Record>)
    returns (result: Rows)
    requires ValidParser(parse)
    requires Valid(created)
    ensures result == Then(Success(rows), Gather(reviews, ReviewStep(parse, number, created, cutoff, whitelist)))
  {
    var step := ReviewStep(parse, number, created, cutoff, whitelist);
    var out := rows;
    ghost var done: seq<Record> := [];
    for j := 0 to |reviews|
      invariant Gather(reviews[..j], step) == Success(done)
      invariant out == rows + done
    {
      var r := reviews[j];
      if r.submittedAt.None? || r.submittedAt.value == [] {
        GatherNext(reviews, j, step, done, Success([]));
        assert done + [] == done;
        continue;
      }
      var submitted := parse(r.submittedAt.value);
      if submitted.None? {
        GatherNext(reviews, j, step, done, Failure(BadTimestamp(r.submittedAt.value)));
        GatherStopsAt(reviews, j + 1, step);
        return Failure(BadTimestamp(r.submittedAt.value));
      }
      var t := submitted.value;
      if Before(t, cutoff) {
        GatherNext(reviews, j, step, done, Success([]));
        assert done + [] == done;
        continue;
      }
      if r.login.None? {
        GatherNext(reviews, j, step, done, Failure(MissingUser));
        GatherStopsAt(reviews, j + 1, step);
        return Failure(MissingUser);
      }
      if r.login.value !in whitelist {
        GatherNext(reviews, j, step, done, Success([]));
        assert done + [] == done;
        continue;
      }
      ReviewRecorded(parse, number, created, r, cutoff, whitelist, t);
      var hasMessage := if r.body.Some? && r.body.value != [] then 1 else 0;
      var rec := Record(number, r.login.value, ReviewEvent, t, Seconds(t) - Seconds(created), hasMessage);
      GatherNext(reviews, j, step, done, Success([rec]));
      out := out + [rec];
      done := done + [rec];
    }
    assert reviews[..|reviews|] == reviews;
    return Success(out);
  }

  /** The loop over one pull request's inline comments, appending to `rows`. */
  method AppendComments(parse: Parser, number: int, created: DateTime, comments: seq<RawComment>,
                        cutoff: DateTime, whitelist: seq<string>, rows: seq<Record>)
    returns (result: Rows)
    requires ValidParser(parse)
    requires Valid(created)
    ensures result == Then(Success(rows), Gather(comments, CommentStep(parse, number, created, cutoff, whitelist)))
  {
    var step := CommentStep(parse, number, created, cutoff, whitelist);
    var out := rows;
    ghost var done: seq<Record> := [];
    for j := 0 to |comments|
      invariant Gather(comments[..j], step) == Success(done)
      invariant out == rows + done
    {
      var c := comments[j];
      var submitted := parse(c.createdAt);
      if submitted.None? {
        GatherNext(comments, j, step, done, Failure(BadTimestamp(c.createdAt)));
        GatherStopsAt(comments, j + 1, step);
        return Failure(BadTimestamp(c.createdAt));
      }
      var t := submitted.value;
      if Before(t, cutoff) {
        GatherNext(comments, j, step, done, Success([]));
        assert done + [] == done;
        continue;
      }
      if c.login.None? {
        GatherNext(comments, j, step, done, Failure(MissingUser));
        GatherStopsAt(comments, j + 1, step);
        return Failure(MissingUser);
      }
      if c.login.value !in whitelist {
        GatherNext(comments, j, step, done, Success([]));
        assert done + [] == done;
        continue;
      }
      CommentRecorded(parse, number, created, c, cutoff, whitelist, t);
      var rec := Record(number, c.login.value, InlineComment, t, Seconds(t) - Seconds(created), 1);
      GatherNext(comments, j, step, done, Success([rec]));
      out := out + [rec];
      done := done + [rec];
    }
    assert comments[..|comments|] == comments;
    return Success(out);
  }

  // ---------------------------------------------------------------------
  // Order and independence of the appended records
  // ---------------------------------------------------------------------

  lemma ThenAssociative(a: Rows, b: Rows, c: Rows)
    ensures Then(Then(a, b), c) == Then(a, Then(b, c))
  {
    if a.Success? && b.Success? && c.Success? {
      assert (a.value + b.value) + c.value == a.value + (b.value + c.value);
    }
  }

  /** One more element: its outcome `next` is appended, or ends the run. */
  lemma GatherNext<T>(xs: seq<T>, j: nat, step: T -> Rows, done: seq<Record>, next: Rows)
    requires j < |xs| && Gather(xs[..j], step) == Success(done) && step(xs[j]) == next
    ensures next.Failure? ==> Gather(xs[..j + 1], step) == next
    ensures next.Success? ==> Gather(xs[..j + 1], step) == Success(done + next.value)
  {
    assert xs[..j + 1][..j] == xs[..j];
  }

  /** Processing `xs + ys` appends the records of `ys` after those of `xs`
      and leaves those of `xs` as they were; the first failure wins. */
  lemma {:induction false} GatherAppend<T>(xs: seq<T>, ys: seq<T>, step: T -> Rows)
    ensures Gather(xs + ys, step) == Then(Gather(xs, step), Gather(ys, step))
    decreases |ys|
  {
    if ys == [] {
      assert xs + ys == xs;
      if Gather(xs, step).Success? {
        assert Gather(xs, step).value + [] == Gather(xs, step).value;
      }
    } else {
      var n := |ys| - 1;
      assert (xs + ys)[..|xs + ys| - 1] == xs + ys[..n];
      assert (xs + ys)[|xs + ys| - 1] == ys[n];
      GatherAppend(xs, ys[..n], step);
      ThenAssociative(Gather(xs, step), Gather(ys[..n], step), step(ys[n]));
    }
  }

  /** A failure among the first `k` elements is the failure of the whole run. */
  lemma GatherStopsAt<T>(xs: seq<T>, k: nat, step: T -> Rows)
    requires k <= |xs| && Gather(xs[..k], step).Failure?
    ensures Gather(xs, step) == Gather(xs[..k], step)
  {
    assert xs == xs[..k] + xs[k..];
    GatherAppend(xs[..k], xs[k..], step);
  }

  lemma PullFailureStops(parse: Parser, prs: seq<PullRequest>, i: nat, cutoff: DateTime, whitelist: seq<string>)
    requires ValidParser(parse)
    requires i < |prs| && Collect(parse, prs[..i], cutoff, whitelist).Success?
    requires PullRows(parse, prs[i], cutoff, whitelist).Failure?
    ensures Collect(parse, prs, cutoff, whitelist) == PullRows(parse, prs[i], cutoff, whitelist)
  {
    assert prs[..i + 1][..i] == prs[..i];
    GatherStopsAt(prs, i + 1, PullStep(parse, cutoff, whitelist));
  }

  /** Records keep the search order of the pull requests: collecting two
      batches one after the other is collecting their concatenation. */
  lemma CollectConcat(parse: Parser, a: seq<PullRequest>, b: seq<PullRequest>, cutoff: DateTime, whitelist: seq<string>)
    requires ValidParser(parse)
    ensures Collect(parse, a + b, cutoff, whitelist) == Then(Collect(parse, a, cutoff, whitelist), Collect(parse, b, cutoff, whitelist))
  {
    GatherAppend(a, b, PullStep(parse, cutoff, whitelist));
  }

  /** An element whose step emits nothing can be removed without changing
      anything: it affects no other element's record. */
  lemma GatherSkipsSilent<T>(xs: seq<T>, k: nat, step: T -> Rows)
    requires k < |xs| && step(xs[k]) == Success([])
    ensures Gather(xs[..k] + xs[k + 1..], step) == Gather(xs, step)
  {
    var before, after := xs[..k], xs[k + 1..];
    var upTo := before + [xs[k]];
    assert xs == upTo + after;
    assert upTo[..k] == before && upTo[k] == xs[k];
    assert Gather(upTo, step) == Gather(before, step) by {
      ThenNothing(Gather(before, step));
    }
    GatherAppend(upTo, after, step);
    GatherAppend(before, after, step);
  }

  lemma ThenNothing(first: Rows)
    ensures Then(first, Success([])) == first
  {
    if first.Success? {
      assert first.value + [] == first.value;
    }
  }

  // ---------------------------------------------------------------------
  // What every record satisfies
  // ---------------------------------------------------------------------

  /** If every step emits only records satisfying `P`, so does the run. */
  lemma {:induction false} GatherKeeps<T>(xs: seq<T>, step: T -> Rows, P: Record -> bool)
    requires forall x :: x in xs && step(x).Success? ==> forall rec :: rec in step(x).value ==> P(rec)
    ensures Gather(xs, step).Success? ==> forall rec :: rec in Gather(xs, step).value ==> P(rec)
    decreases |xs|
  {
    if xs != [] {
      var n := |xs| - 1;
      assert forall x :: x in xs[..n] ==> x in xs;
      GatherKeeps(xs[..n], step, P);
      assert xs[n] in xs;
    }
  }

  /** A record that the filter admits: by a whitelisted login, not before
      the cutoff, with a valid timestamp and a 0/1 message flag that is 1
      for every inline comment. */
  predicate Admitted(rec: Record, cutoff: DateTime, whitelist: seq<string>) {
    && rec.reviewer in whitelist
    && Valid(rec.submittedAt)
    && !Before(rec.submittedAt, cutoff)
    && (rec.hasMessage == 0 || rec.hasMessage == 1)
    && (rec.kind == InlineComment ==> rec.hasMessage == 1)
  }

  lemma ReviewAdmitted(parse: Parser, number: int, created: DateTime, r: RawReview, cutoff: DateTime, whitelist: seq<string>)
    requires ValidParser(parse)
    requires Valid(created)
    ensures var out := ReviewRows(parse, number, created, r, cutoff, whitelist);
      out.Success? ==> forall rec :: rec in out.value ==> Admitted(rec, cutoff, whitelist) && rec.kind == ReviewEvent
  {
  }

  lemma CommentAdmitted(parse: Parser, number: int, created: DateTime, c: RawComment, cutoff: DateTime, whitelist: seq<string>)
    requires ValidParser(parse)
    requires Valid(created)
    ensures var out := CommentRows(parse, number, created, c, cutoff, whitelist);
      out.Success? ==> forall rec :: rec in out.value ==> Admitted(rec, cutoff, whitelist) && rec.kind == InlineComment
  {
  }

  /** The filter is exhaustive: whatever the input, every record of a
      successful collection is admitted. A non-whitelisted login and an
      event before the cutoff never yield a record. */
  lemma CollectAdmitsOnly(parse: Parser, prs: seq<PullRequest>, cutoff: DateTime, whitelist: seq<string>)
    requires ValidParser(parse)
    ensures Collect(parse, prs, cutoff, whitelist).Success? ==>
      forall rec :: rec in Collect(parse, prs, cutoff, whitelist).value ==> Admitted(rec, cutoff, whitelist)
  {
    forall p | p in prs {
      PullAdmitted(parse, p, cutoff, whitelist);
    }
    GatherKeeps(prs, PullStep(parse, cutoff, whitelist), (rec: Record) => Admitted(rec, cutoff, whitelist));
  }

  lemma PullAdmitted(parse: Parser, p: PullRequest, cutoff: DateTime, whitelist: seq<string>)
    requires ValidParser(parse)
    ensures PullRows(parse, p, cutoff, whitelist).Success? ==>
      forall rec :: rec in PullRows(parse, p, cutoff, whitelist).value ==> Admitted(rec, cutoff, whitelist)
  {
    if parse(p.createdAt).Some? {
      var created := parse(p.createdAt).value;
      var P := (rec: Record) => Admitted(rec, cutoff, whitelist);
      forall r | r in p.reviews {
        ReviewAdmitted(parse, p.number, created, r, cutoff, whitelist);
      }
      forall c | c in p.comments {
        CommentAdmitted(parse, p.number, created, c, cutoff, whitelist);
      }
      GatherKeeps(p.reviews, ReviewStep(parse, p.number, created, cutoff, whitelist), P);
      GatherKeeps(p.comments, CommentStep(parse, p.number, created, cutoff, whitelist), P);
    }
  }

  /** Each record of a pull request carries that pull request's number and
      the latency of its own event from that pull request's creation, for
      every kept event and not only the earliest; the latency is negative
      exactly when the event precedes the creation. */
  lemma PullLatencies(parse: Parser, p: PullRequest, cutoff: DateTime, whitelist: seq<string>)
    requires ValidParser(parse)
    requires PullRows(parse, p, cutoff, whitelist).Success?
    ensures parse(p.createdAt).Some?
    ensures forall rec :: rec in PullRows(parse, p, cutoff, whitelist).value ==>
      && rec.prNumber == p.number
      && Valid(rec.submittedAt)
      && rec.latency == Seconds(rec.submittedAt) - Seconds(parse(p.createdAt).value)
      && (rec.latency < 0 <==> Before(rec.submittedAt, parse(p.createdAt).value))
  {
    var created := parse(p.createdAt).value;
    var P := (rec: Record) =>
      && rec.prNumber == p.number
      && Valid(rec.submittedAt)
      && rec.submittedAt.microsecond == 0
      && rec.latency == Seconds(rec.submittedAt) - Seconds(created);
    GatherKeeps(p.reviews, ReviewStep(parse, p.number, created, cutoff, whitelist), P);
    GatherKeeps(p.comments, CommentStep(parse, p.number, created, cutoff, whitelist), P);
    forall rec | rec in PullRows(parse, p, cutoff, whitelist).value
      ensures rec.latency < 0 <==> Before(rec.submittedAt, created)
    {
      assert P(rec);
      BeforeIffEarlier(rec.submittedAt, created);
    }
  }

  /** Within one pull request all review events come before all inline
      comments. */
  lemma PullReviewsFirst(parse: Parser, p: PullRequest, cutoff: DateTime, whitelist: seq<string>)
    requires ValidParser(parse)
    requires PullRows(parse, p, cutoff, whitelist).Success?
    ensures var rs := PullRows(parse, p, cutoff, whitelist).value;
      forall i, j :: 0 <= i < j < |rs| && rs[i].kind == InlineComment ==> rs[j].kind == InlineComment
  {
    var created := parse(p.createdAt).value;
    var reviews := Gather(p.reviews, ReviewStep(parse, p.number, created, cutoff, whitelist));
    var comments := Gather(p.comments, CommentStep(parse, p.number, created, cutoff, whitelist));
    forall r | r in p.reviews {
      ReviewAdmitted(parse, p.number, created, r, cutoff, whitelist);
    }
    forall c | c in p.comments {
      CommentAdmitted(parse, p.number, created, c, cutoff, whitelist);
    }
    GatherKeeps(p.reviews, ReviewStep(parse, p.number, created, cutoff, whitelist), (rec: Record) => rec.kind == ReviewEvent);
    GatherKeeps(p.comments, CommentStep(parse, p.number, created, cutoff, whitelist), (rec: Record) => rec.kind == InlineComment);
    assert forall k :: 0 <= k < |reviews.value| ==> reviews.value[k] in reviews.value;
    assert forall k :: 0 <= k < |comments.value| ==> comments.value[k] in comments.value;
    KindsOrdered(reviews.value, comments.value);
  }

  lemma KindsOrdered(reviews: seq<Record>, comments: seq<Record>)
    requires forall k :: 0 <= k < |reviews| ==> reviews[k].kind == ReviewEvent
    requires forall k :: 0 <= k < |comments| ==> comments[k].kind == InlineComment
    ensures var rs := reviews + comments;
      forall i, j :: 0 <= i < j < |rs| && rs[i].kind == InlineComment ==> rs[j].kind == InlineComment
  {
    var rs := reviews + comments;
    forall i, j | 0 <= i < j < |rs| && rs[i].kind == InlineComment
      ensures rs[j].kind == InlineComment
    {
      assert rs[j] == comments[j - |reviews|];
    }
  }

  /** The message flag of a review: 1 exactly when the review carries a
      non-empty body. */
  lemma ReviewMessageFlag(parse: Parser, number: int, created: DateTime, r: RawReview, cutoff: DateTime, whitelist: seq<string>)
    requires ValidParser(parse)
    requires Valid(created)
    requires ReviewRows(parse, number, created, r, cutoff, whitelist).Success?
    ensures forall rec :: rec in ReviewRows(parse, number, created, r, cutoff, whitelist).value ==>
      rec.kind == ReviewEvent && (rec.hasMessage == 1 <==> r.body.Some? && r.body.value != [])
  {
  }

  /** Every element of a successful run succeeds. */
  lemma GatherSucceeds<T>(xs: seq<T>, k: nat, step: T -> Rows)
    requires k < |xs| && Gather(xs, step).Success?
    ensures step(xs[k]).Success?
  {
    var upTo := xs[..k + 1];
    assert xs == upTo + xs[k + 1..];
    GatherAppend(upTo, xs[k + 1..], step);
    assert upTo[..k] == xs[..k] && upTo[k] == xs[k];
  }

  /** What an element emits is among the records of a successful run. */
  lemma GatherContains<T>(xs: seq<T>, k: nat, step: T -> Rows, rec: Record)
    requires k < |xs| && Gather(xs, step).Success?
    requires step(xs[k]).Success? && rec in step(xs[k]).value
    ensures rec in Gather(xs, step).value
  {
    var upTo := xs[..k + 1];
    assert xs == upTo + xs[k + 1..];
    GatherAppend(upTo, xs[k + 1..], step);
    assert upTo[..k] == xs[..k] && upTo[k] == xs[k];
  }

  /** Every pull request of a successful collection succeeds. */
  lemma PullSucceeds(parse: Parser, prs: seq<PullRequest>, i: nat, cutoff: DateTime, whitelist: seq<string>)
    requires ValidParser(parse)
    requires i < |prs| && Collect(parse, prs, cutoff, whitelist).Success?
    ensures PullRows(parse, prs[i], cutoff, whitelist).Success?
  {
    var step := PullStep(parse, cutoff, whitelist);
    GatherSucceeds(prs, i, step);
    assert step(prs[i]) == PullRows(parse, prs[i], cutoff, whitelist);
  }

  /** A record of a pull request is among the collected records. */
  lemma PullCollected(parse: Parser, prs: seq<PullRequest>, i: nat, cutoff: DateTime, whitelist: seq<string>, rec: Record)
    requires ValidParser(parse)
    requires i < |prs| && Collect(parse, prs, cutoff, whitelist).Success?
    requires PullRows(parse, prs[i], cutoff, whitelist).Success?
    requires rec in PullRows(parse, prs[i], cutoff, whitelist).value
    ensures rec in Collect(parse, prs, cutoff, whitelist).value
  {
    var step := PullStep(parse, cutoff, whitelist);
    assert step(prs[i]) == PullRows(parse, prs[i], cutoff, whitelist);
    GatherContains(prs, i, step, rec);
  }

  /** A review that has a `submitted_at`, parses, is not before the cutoff
      and is by a whitelisted login is never lost: a successful collection
      holds its record, with its pull request's number, the latency from that
      pull request's creation and its message flag. */
  lemma ReviewKept(parse: Parser, prs: seq<PullRequest>, i: nat, k: nat, cutoff: DateTime, whitelist: seq<string>)
    requires ValidParser(parse)
    requires i < |prs| && k < |prs[i].reviews|
    requires Collect(parse, prs, cutoff, whitelist).Success?
    requires var r := prs[i].reviews[k];
      && r.submittedAt.Some? && r.submittedAt.value != []
      && parse(r.submittedAt.value).Some?
      && !Before(parse(r.submittedAt.value).value, cutoff)
      && r.login.Some? && r.login.value in whitelist
    ensures parse(prs[i].createdAt).Some?
    ensures var r := prs[i].reviews[k];
      var t := parse(r.submittedAt.value).value;
      var created := parse(prs[i].createdAt).value;
      var flag := if r.body.Some? && r.body.value != [] then 1 else 0;
      && Valid(t) && Valid(created)
      && Record(prs[i].number, r.login.value, ReviewEvent, t, Seconds(t) - Seconds(created), flag)
        in Collect(parse, prs, cutoff, whitelist).value
  {
    PullSucceeds(parse, prs, i, cutoff, whitelist);
    ReviewInPull(parse, prs[i], k, cutoff, whitelist);
    var r := prs[i].reviews[k];
    var t, created := parse(r.submittedAt.value).value, parse(prs[i].createdAt).value;
    var flag := if r.body.Some? && r.body.value != [] then 1 else 0;
    PullCollected(parse, prs, i, cutoff, whitelist,
                  Record(prs[i].number, r.login.value, ReviewEvent, t, Seconds(t) - Seconds(created), flag));
  }

  lemma ReviewInPull(parse: Parser, p: PullRequest, k: nat, cutoff: DateTime, whitelist: seq<string>)
    requires ValidParser(parse)
    requires k < |p.reviews| && PullRows(parse, p, cutoff, whitelist).Success?
    requires var r := p.reviews[k];
      && r.submittedAt.Some? && r.submittedAt.value != []
      && parse(r.submittedAt.value).Some?
      && !Before(parse(r.submittedAt.value).value, cutoff)
      && r.login.Some? && r.login.value in whitelist
    ensures parse(p.createdAt).Some?
    ensures var r := p.reviews[k];
      var t := parse(r.submittedAt.value).value;
      var created := parse(p.createdAt).value;
      var flag := if r.body.Some? && r.body.value != [] then 1 else 0;
      && Valid(t) && Valid(created)
      && Record(p.number, r.login.value, ReviewEvent, t, Seconds(t) - Seconds(created), flag)
        in PullRows(parse, p, cutoff, whitelist).value
  {
    var r := p.reviews[k];
    var created := parse(p.createdAt).value;
    var step := ReviewStep(parse, p.number, created, cutoff, whitelist);
    GatherSucceeds(p.reviews, k, step);
    var t := parse(r.submittedAt.value).value;
    ReviewRecorded(parse, p.number, created, r, cutoff, whitelist, t);
    var flag := if r.body.Some? && r.body.value != [] then 1 else 0;
    var rec := Record(p.number, r.login.value, ReviewEvent, t, Seconds(t) - Seconds(created), flag);
    GatherContains(p.reviews, k, step, rec);
  }

  /** An inline comment that parses, is not before the cutoff and is by a
      whitelisted login is never lost: a successful collection holds its
      record, with message flag 1. */
  lemma CommentKept(parse: Parser, prs: seq<PullRequest>, i: nat, k: nat, cutoff: DateTime, whitelist: seq<string>)
    requires ValidParser(parse)
    requires i < |prs| && k < |prs[i].comments|
    requires Collect(parse, prs, cutoff, whitelist).Success?
    requires var c := prs[i].comments[k];
      && parse(c.createdAt).Some?
      && !Before(parse(c.createdAt).value, cutoff)
      && c.login.Some? && c.login.value in whitelist
    ensures parse(prs[i].createdAt).Some?
    ensures var c := prs[i].comments[k];
      var t := parse(c.createdAt).value;
      var created := parse(prs[i].createdAt).value;
      && Valid(t) && Valid(created)
      && Record(prs[i].number, c.login.value, InlineComment, t, Seconds(t) - Seconds(created), 1)
        in Collect(parse, prs, cutoff, whitelist).value
  {
    PullSucceeds(parse, prs, i, cutoff, whitelist);
    CommentInPull(parse, prs[i], k, cutoff, whitelist);
    var c := prs[i].comments[k];
    var t, created := parse(c.createdAt).value, parse(prs[i].createdAt).value;
    PullCollected(parse, prs, i, cutoff, whitelist,
                  Record(prs[i].number, c.login.value, InlineComment, t, Seconds(t) - Seconds(created), 1));
  }

  lemma CommentInPull(parse: Parser, p: PullRequest, k: nat, cutoff: DateTime, whitelist: seq<string>)
    requires ValidParser(parse)
    requires k < |p.comments| && PullRows(parse, p, cutoff, whitelist).Success?
    requires var c := p.comments[k];
      && parse(c.createdAt).Some?
      && !Before(parse(c.createdAt).value, cutoff)
      && c.login.Some? && c.login.value in whitelist
    ensures parse(p.createdAt).Some?
    ensures var c := p.comments[k];
      var t := parse(c.createdAt).value;
      var created := parse(p.createdAt).value;
      && Valid(t) && Valid(created)
      && Record(p.number, c.login.value, InlineComment, t, Seconds(t) - Seconds(created), 1)
        in PullRows(parse, p, cutoff, whitelist).value
  {
    var c := p.comments[k];
    var created := parse(p.createdAt).value;
    var step := CommentStep(parse, p.number, created, cutoff, whitelist);
    GatherSucceeds(p.comments, k, step);
    var t := parse(c.createdAt).value;
    CommentRecorded(parse, p.number, created, c, cutoff, whitelist, t);
    var rec := Record(p.number, c.login.value, InlineComment, t, Seconds(t) - Seconds(created), 1);
    GatherContains(p.comments, k, step, rec);
  }

  // ---------------------------------------------------------------------
  // The exceptions that end the run
  // ---------------------------------------------------------------------

  /** A review that raises: it has a `submitted_at` that `iso_to_dt`
      rejects, or one that parses, is not before the cutoff and has a null
      user whose login is read. */
  predicate ReviewFatal(parse: Parser, r: RawReview, cutoff: DateTime) {
    && r.submittedAt.Some? && r.submittedAt.value != []
    && match parse(r.submittedAt.value)
       case None => true
       case Some(t) => !Before(t, cutoff) && r.login.None?
  }

  /** An inline comment that raises: `iso_to_dt` rejects its `created_at`,
      or it is not before the cutoff and has a null user. */
  predicate CommentFatal(parse: Parser, c: RawComment, cutoff: DateTime) {
    match parse(c.createdAt)
    case None => true
    case Some(t) => !Before(t, cutoff) && c.login.None?
  }

  /** A pull request none of whose timestamps or user objects raises. */
  predicate PullClean(parse: Parser, p: PullRequest, cutoff: DateTime) {
    && parse(p.createdAt).Some?
    && (forall r :: r in p.reviews ==> !ReviewFatal(parse, r, cutoff))
    && (forall c :: c in p.comments ==> !CommentFatal(parse, c, cutoff))
  }

  lemma ReviewFails(parse: Parser, number: int, created: DateTime, r: RawReview, cutoff: DateTime, whitelist: seq<string>)
    requires ValidParser(parse)
    requires Valid(created)
    ensures ReviewRows(parse, number, created, r, cutoff, whitelist).Failure? <==> ReviewFatal(parse, r, cutoff)
  {
  }

  lemma CommentFails(parse: Parser, number: int, created: DateTime, c: RawComment, cutoff: DateTime, whitelist: seq<string>)
    requires ValidParser(parse)
    requires Valid(created)
    ensures CommentRows(parse, number, created, c, cutoff, whitelist).Failure? <==> CommentFatal(parse, c, cutoff)
  {
  }

  /** A run succeeds exactly when every element's step succeeds. */
  lemma {:induction false} GatherSucceedsIff<T>(xs: seq<T>, step: T -> Rows)
    ensures Gather(xs, step).Success? <==> forall x :: x in xs ==> step(x).Success?
    decreases |xs|
  {
    if xs != [] {
      var n := |xs| - 1;
      GatherSucceedsIff(xs[..n], step);
      assert xs == xs[..n] + [xs[n]];
      assert forall x :: x in xs <==> x in xs[..n] || x == xs[n];
    }
  }

  lemma PullSucceedsIff(parse: Parser, p: PullRequest, cutoff: DateTime, whitelist: seq<string>)
    requires ValidParser(parse)
    ensures PullRows(parse, p, cutoff, whitelist).Success? <==> PullClean(parse, p, cutoff)
  {
    if parse(p.createdAt).Some? {
      var created := parse(p.createdAt).value;
      var reviewStep := ReviewStep(parse, p.number, created, cutoff, whitelist);
      var commentStep := CommentStep(parse, p.number, created, cutoff, whitelist);
      GatherSucceedsIff(p.reviews, reviewStep);
      GatherSucceedsIff(p.comments, commentStep);
      forall r | r in p.reviews
        ensures reviewStep(r).Success? <==> !ReviewFatal(parse, r, cutoff)
      {
        ReviewFails(parse, p.number, created, r, cutoff, whitelist);
      }
      forall c | c in p.comments
        ensures commentStep(c).Success? <==> !CommentFatal(parse, c, cutoff)
      {
        CommentFails(parse, p.number, created, c, cutoff, whitelist);
      }
    }
  }

  /** The two exceptions are fatal and nothing else is: the collection
      succeeds exactly when every pull request's `created_at` parses and no
      review or inline comment has a timestamp `iso_to_dt` rejects, or a null
      user once it is past the `submitted_at` and cutoff tests. */
  lemma CollectSucceedsIff(parse: Parser, prs: seq<PullRequest>, cutoff: DateTime, whitelist: seq<string>)
    requires ValidParser(parse)
    ensures Collect(parse, prs, cutoff, whitelist).Success? <==> forall p :: p in prs ==> PullClean(parse, p, cutoff)
  {
    var step := PullStep(parse, cutoff, whitelist);
    GatherSucceedsIff(prs, step);
    forall p | p in prs
      ensures step(p).Success? <==> PullClean(parse, p, cutoff)
    {
      PullSucceedsIff(parse, p, cutoff, whitelist);
    }
  }

  /** One review with a bad timestamp or a null user ends the whole run. */
  lemma ReviewFatalFails(parse: Parser, prs: seq<PullRequest>, i: nat, k: nat, cutoff: DateTime, whitelist: seq<string>)
    requires ValidParser(parse)
    requires i < |prs| && k < |prs[i].reviews|
    requires ReviewFatal(parse, prs[i].reviews[k], cutoff)
    ensures Collect(parse, prs, cutoff, whitelist).Failure?
  {
    CollectSucceedsIff(parse, prs, cutoff, whitelist);
    assert prs[i] in prs && prs[i].reviews[k] in prs[i].reviews;
  }

  /** One inline comment with a bad timestamp or a null user ends the whole
      run. */
  lemma CommentFatalFails(parse: Parser, prs: seq<PullRequest>, i: nat, k: nat, cutoff: DateTime, whitelist: seq<string>)
    requires ValidParser(parse)
    requires i < |prs| && k < |prs[i].comments|
    requires CommentFatal(parse, prs[i].comments[k], cutoff)
    ensures Collect(parse, prs, cutoff, whitelist).Failure?
  {
    CollectSucceedsIff(parse, prs, cutoff, whitelist);
    assert prs[i] in prs && prs[i].comments[k] in prs[i].comments;
  }

  /** A review is dropped when it has no `submitted_at`, or when it parses
      but is before the cutoff or by a login outside the whitelist. Such a
      review can be removed from its pull request without changing the
      collected records; `ReviewKept` is the converse. */
  lemma ReviewDropped(parse: Parser, prs: seq<PullRequest>, i: nat, k: nat, cutoff: DateTime, whitelist: seq<string>)
    requires ValidParser(parse)
    requires i < |prs| && k < |prs[i].reviews|
    requires var r := prs[i].reviews[k];
      || r.submittedAt.None? || r.submittedAt.value == []
      || (&& parse(r.submittedAt.value).Some?
          && (|| Before(parse(r.submittedAt.value).value, cutoff)
              || (r.login.Some? && r.login.value !in whitelist)))
    ensures var p := prs[i];
      var p' := p.(reviews := p.reviews[..k] + p.reviews[k + 1..]);
      Collect(parse, prs[i := p'], cutoff, whitelist) == Collect(parse, prs, cutoff, whitelist)
  {
    var p := prs[i];
    var p' := p.(reviews := p.reviews[..k] + p.reviews[k + 1..]);
    if parse(p.createdAt).Some? {
      var created := parse(p.createdAt).value;
      GatherSkipsSilent(p.reviews, k, ReviewStep(parse, p.number, created, cutoff, whitelist));
    }
    assert PullRows(parse, p', cutoff, whitelist) == PullRows(parse, p, cutoff, whitelist);
    SameStepSameRun(parse, prs, i, p', cutoff, whitelist);
  }

  /** The same for an inline comment; `CommentKept` is the converse. */
  lemma CommentDropped(parse: Parser, prs: seq<PullRequest>, i: nat, k: nat, cutoff: DateTime, whitelist: seq<string>)
    requires ValidParser(parse)
    requires i < |prs| && k < |prs[i].comments|
    requires var c := prs[i].comments[k];
      && parse(c.createdAt).Some?
      && (|| Before(parse(c.createdAt).value, cutoff)
          || (c.login.Some? && c.login.value !in whitelist))
    ensures var p := prs[i];
      var p' := p.(comments := p.comments[..k] + p.comments[k + 1..]);
      Collect(parse, prs[i := p'], cutoff, whitelist) == Collect(parse, prs, cutoff, whitelist)
  {
    var p := prs[i];
    var p' := p.(comments := p.comments[..k] + p.comments[k + 1..]);
    if parse(p.createdAt).Some? {
      var created := parse(p.createdAt).value;
      GatherSkipsSilent(p.comments, k, CommentStep(parse, p.number, created, cutoff, whitelist));
    }
    assert PullRows(parse, p', cutoff, whitelist) == PullRows(parse, p, cutoff, whitelist);
    SameStepSameRun(parse, prs, i, p', cutoff, whitelist);
  }

  lemma SameStepSameRun(parse: Parser, prs: seq<PullRequest>, i: nat, p': PullRequest, cutoff: DateTime, whitelist: seq<string>)
    requires ValidParser(parse)
    requires i < |prs| && PullRows(parse, p', cutoff, whitelist) == PullRows(parse, prs[i], cutoff, whitelist)
    ensures Collect(parse, prs[i := p'], cutoff, whitelist) == Collect(parse, prs, cutoff, whitelist)
  {
    var step := PullStep(parse, cutoff, whitelist);
    assert step(p') == step(prs[i]);
    GatherReplace(prs, i, p', step);
  }

  /** Replacing an element by one whose step emits the same leaves the run
      unchanged. */
  lemma GatherReplace<T>(xs: seq<T>, i: nat, y: T, step: T -> Rows)
    requires i < |xs| && step(y) == step(xs[i])
    ensures Gather(xs[i := y], step) == Gather(xs, step)
  {
    var ys := xs[i := y];
    assert xs == xs[..i] + [xs[i]] + xs[i + 1..];
    assert ys == xs[..i] + [y] + xs[i + 1..];
    GatherAppend(xs[..i] + [xs[i]], xs[i + 1..], step);
    GatherAppend(xs[..i] + [y], xs[i + 1..], step);
    GatherAppend(xs[..i], [xs[i]], step);
    GatherAppend(xs[..i], [y], step);
    assert [y][..0] == [xs[i]][..0];
  }
}

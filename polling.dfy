/** Polling mode: connect, seed the baseline with a first count, then check
    the count once per iteration until cancelled, reconnecting after an
    abort and giving up once the retry counter exceeds max_retry. The IMAP
    session is replaced by the outcome of each check_new_mail call. */
module PollingMode {
  import opened MailCount
  import opened Retry

  /** The outcome of one check_new_mail call against the session: the UIDs
      the search returned, a session abort, or any other IMAP error. */
  datatype Reply = Uids(uids: seq<Uid>) | Abort | Error

  /** One arrival at the head of the polling loop: either the cancellation
      flag is found set, or the loop body runs and its check has `reply`. */
  datatype Tick = Cancel | Checked(reply: Reply)

  /** Why the run ended; `Pending` means it is still in the loop. */
  datatype Stop = Cancelled | RetriesExhausted | Failed | Pending

  /** The state of a run: whether it left the loop, how many ticks it
      consumed, how many sessions it opened, the retry counter
      `retry_count`, the check counter `i`, how many alerts it played and
      the baseline `new_count`. */
  datatype PollRun = PollRun(stop: Stop, consumed: nat, connects: nat, retries: nat,
                             checks: nat, notified: nat, baseline: nat)

  // ---------------------------------------------------------------------
  // Reference definitions over the consumed ticks

  /** Number of aborts among the ticks. */
  function Aborts(ts: seq<Tick>): nat
  {
    if ts == [] then 0
    else Aborts(ts[..|ts| - 1]) + (if ts[|ts| - 1] == Checked(Abort) then 1 else 0)
  }

  /** The counts returned by the successful checks among the ticks, in order. */
  function Counts(ts: seq<Tick>): seq<nat>
  {
    if ts == [] then []
    else
      Counts(ts[..|ts| - 1])
      + (match ts[|ts| - 1]
         case Checked(Uids(u)) => [|u|]
         case _ => [])
  }

  /** Aborts and Counts grow by what the one extra tick contributes. */
  lemma Extend(ts: seq<Tick>, t: Tick)
    ensures Aborts(ts + [t]) == Aborts(ts) + (if t == Checked(Abort) then 1 else 0)
    ensures Counts(ts + [t]) == if t.Checked? && t.reply.Uids? then Counts(ts) + [|t.reply.uids|] else Counts(ts)
  {
    assert (ts + [t])[..|ts|] == ts;
  }

  /** Whether the loop body, having run with this tick, did not leave the
      loop by a cancel or an error. */
  predicate Survives(t: Tick)
  {
    t.Checked? && !t.reply.Error?
  }

  /** Where the loop is after tick `t`, the retry counter then being
      `retries`: `Pending` when it goes round again. */
  function Reason(t: Tick, retries: nat, maxRetry: int): Stop
  {
    if t == Cancel then Cancelled
    else if t == Checked(Error) then Failed
    else if t == Checked(Abort) && GivesUp(retries, maxRetry) then RetriesExhausted
    else Pending
  }

  // ---------------------------------------------------------------------
  // The loop as a function

  /** The state on entering the loop: one session, `i` = 1, and the seeding
      count as baseline. */
  function Start(seedCount: nat): PollRun
  {
    PollRun(Pending, 0, 1, 0, 1, 0, seedCount)
  }

  /** One iteration of the loop body on tick `t`. */
  function Step(s: PollRun, t: Tick, maxRetry: int): PollRun
  {
    match t
    case Cancel =>
      s.(stop := Cancelled, consumed := s.consumed + 1)
    case Checked(Uids(u)) =>
      var v := CheckNewMail(u, s.baseline, false);
      s.(consumed := s.consumed + 1, checks := s.checks + 1,
         notified := s.notified + (if v.isNewMail then 1 else 0), baseline := v.newCount)
    case Checked(Abort) =>
      s.(stop := if GivesUp(s.retries + 1, maxRetry) then RetriesExhausted else Pending,
         consumed := s.consumed + 1, connects := s.connects + 1, retries := s.retries + 1)
    case Checked(Error) =>
      s.(stop := Failed, consumed := s.consumed + 1)
  }

  /** The loop run over the remaining ticks until it leaves or they run out. */
  function Run(s: PollRun, ts: seq<Tick>, maxRetry: int): PollRun
    decreases |ts|
  {
    if ts == [] || s.stop != Pending then s else Run(Step(s, ts[0], maxRetry), ts[1..], maxRetry)
  }

  /** What the state after the first `s.consumed` ticks must be. */
  ghost predicate Consistent(seedCount: nat, maxRetry: int, ticks: seq<Tick>, s: PollRun)
  {
    && s.consumed <= |ticks|
    && var done := ticks[..s.consumed];
    && s.retries == Aborts(done)
    && s.connects == 1 + s.retries
    && s.checks == 1 + |Counts(done)|
    && s.notified == Rises(seedCount, Counts(done))
    && s.baseline == Last(seedCount, Counts(done))
    && (s.stop != RetriesExhausted ==> s.retries == 0 || !GivesUp(s.retries, maxRetry))
    && (s.stop == RetriesExhausted ==> s.retries == RetryCap(maxRetry))
    && (forall j | 0 <= j < s.consumed - 1 :: Survives(ticks[j]))
    && (if s.consumed == 0 then s.stop == Pending
        else s.stop == Reason(ticks[s.consumed - 1], s.retries, maxRetry))
  }

  /** A tick after which the loop went round again was neither a cancel nor an error. */
  lemma PendingSurvives(t: Tick, retries: nat, maxRetry: int)
    requires Reason(t, retries, maxRetry) == Pending
    ensures Survives(t)
  {
  }

  /** The ticks before the next one all let the loop go round. */
  lemma SurvivedSoFar(seedCount: nat, maxRetry: int, ticks: seq<Tick>, s: PollRun)
    requires Consistent(seedCount, maxRetry, ticks, s) && s.stop == Pending
    ensures forall j | 0 <= j < s.consumed :: Survives(ticks[j])
  {
    if 0 < s.consumed {
      PendingSurvives(ticks[s.consumed - 1], s.retries, maxRetry);
    }
  }

  /** A successful check adds its count to the observations. */
  lemma StepCounts(seedCount: nat, maxRetry: int, ticks: seq<Tick>, s: PollRun, u: seq<Uid>)
    requires Consistent(seedCount, maxRetry, ticks, s) && s.stop == Pending
    requires s.consumed < |ticks| && ticks[s.consumed] == Checked(Uids(u))
    ensures Consistent(seedCount, maxRetry, ticks, Step(s, ticks[s.consumed], maxRetry))
  {
    var done := ticks[..s.consumed];
    assert ticks[..s.consumed + 1] == done + [Checked(Uids(u))];
    Extend(done, Checked(Uids(u)));
    RisesStep(seedCount, Counts(done), u);
    SurvivedSoFar(seedCount, maxRetry, ticks, s);
  }

  /** An abort counts one retry and opens one session. */
  lemma StepAbort(seedCount: nat, maxRetry: int, ticks: seq<Tick>, s: PollRun)
    requires Consistent(seedCount, maxRetry, ticks, s) && s.stop == Pending
    requires s.consumed < |ticks| && ticks[s.consumed] == Checked(Abort)
    ensures Consistent(seedCount, maxRetry, ticks, Step(s, ticks[s.consumed], maxRetry))
  {
    var done := ticks[..s.consumed];
    assert ticks[..s.consumed + 1] == done + [Checked(Abort)];
    Extend(done, Checked(Abort));
    CapBoundsIncrement(s.retries, maxRetry);
    SurvivedSoFar(seedCount, maxRetry, ticks, s);
    var s' := Step(s, Checked(Abort), maxRetry);
    assert s'.retries == s.retries + 1 == Aborts(ticks[..s'.consumed]);
    assert s'.stop == Reason(Checked(Abort), s'.retries, maxRetry);
  }

  /** A cancel or an error leaves the loop with nothing else changed. */
  lemma StepLeave(seedCount: nat, maxRetry: int, ticks: seq<Tick>, s: PollRun)
    requires Consistent(seedCount, maxRetry, ticks, s) && s.stop == Pending
    requires s.consumed < |ticks| && (ticks[s.consumed] == Cancel || ticks[s.consumed] == Checked(Error))
    ensures Consistent(seedCount, maxRetry, ticks, Step(s, ticks[s.consumed], maxRetry))
  {
    var t := ticks[s.consumed];
    var done := ticks[..s.consumed];
    assert ticks[..s.consumed + 1] == done + [t];
    Extend(done, t);
    SurvivedSoFar(seedCount, maxRetry, ticks, s);
    var s' := Step(s, t, maxRetry);
    assert s' == s.(stop := Reason(t, s.retries, maxRetry), consumed := s.consumed + 1);
  }

  /** Every iteration keeps the state consistent with the ticks it consumed. */
  lemma StepConsistent(seedCount: nat, maxRetry: int, ticks: seq<Tick>, s: PollRun)
    requires Consistent(seedCount, maxRetry, ticks, s) && s.stop == Pending
    requires s.consumed < |ticks|
    ensures Consistent(seedCount, maxRetry, ticks, Step(s, ticks[s.consumed], maxRetry))
    ensures Step(s, ticks[s.consumed], maxRetry).consumed == s.consumed + 1
  {
    match ticks[s.consumed]
    case Checked(Uids(u)) => StepCounts(seedCount, maxRetry, ticks, s, u);
    case Checked(Abort) => StepAbort(seedCount, maxRetry, ticks, s);
    case _ => StepLeave(seedCount, maxRetry, ticks, s);
  }

  /** Running the loop to its end keeps the state consistent, and it only
      stays in the loop when the ticks ran out. */
  lemma {:induction false} RunConsistent(seedCount: nat, maxRetry: int, ticks: seq<Tick>, s: PollRun)
    requires Consistent(seedCount, maxRetry, ticks, s)
    ensures var r := Run(s, ticks[s.consumed..], maxRetry);
            Consistent(seedCount, maxRetry, ticks, r) && (r.stop == Pending ==> r.consumed == |ticks|)
    decreases |ticks| - s.consumed
  {
    var rest := ticks[s.consumed..];
    if rest != [] && s.stop == Pending {
      StepConsistent(seedCount, maxRetry, ticks, s);
      var s' := Step(s, rest[0], maxRetry);
      assert rest[1..] == ticks[s'.consumed..];
      RunConsistent(seedCount, maxRetry, ticks, s');
    }
  }

  /** What a run of the polling loop does, from entering the loop with the
      seeding count to leaving it or running out of ticks. */
  lemma Guarantees(seedCount: nat, maxRetry: int, ticks: seq<Tick>)
    ensures var r := Run(Start(seedCount), ticks, maxRetry);
      // It consumes a prefix of the ticks.
      && r.consumed <= |ticks|
      // The retry counter counts every abort, is never reset, and stays bounded.
      && r.retries == Aborts(ticks[..r.consumed])
      && r.retries <= RetryCap(maxRetry)
      // One session at start, one more per abort, the exhausting abort included.
      && r.connects == 1 + r.retries
      // `i` starts at 1 and advances only after a successful check.
      && r.checks == 1 + |Counts(ticks[..r.consumed])|
      // The seed never alerts; later checks alert on each strict rise.
      && r.notified == Rises(seedCount, Counts(ticks[..r.consumed]))
      // The baseline is the last count seen, carried across reconnects.
      && r.baseline == Last(seedCount, Counts(ticks[..r.consumed]))
      // Before the last consumed tick there was no cancel and no error, and
      // the counter only exceeds max_retry when the final abort gave up.
      && (forall j | 0 <= j < r.consumed - 1 :: Survives(ticks[j]))
      && (r.stop != RetriesExhausted ==> r.retries == 0 || !GivesUp(r.retries, maxRetry))
      && (r.stop == RetriesExhausted ==> r.retries == RetryCap(maxRetry))
      // The run ends at the first tick that leaves the loop, or goes on to
      // the end of the ticks.
      && (0 < r.consumed ==> r.stop == Reason(ticks[r.consumed - 1], r.retries, maxRetry))
      && (r.consumed == 0 ==> r.stop == Pending)
      && (r.stop == Pending ==> r.consumed == |ticks|)
  {
    RunConsistent(seedCount, maxRetry, ticks, Start(seedCount));
    assert ticks[0..] == ticks;
  }

  /** Only successful checks can alert, each at most once. */
  lemma AlertsPerCheck(seedCount: nat, maxRetry: int, ticks: seq<Tick>)
    ensures var r := Run(Start(seedCount), ticks, maxRetry); r.notified < r.checks
  {
    Guarantees(seedCount, maxRetry, ticks);
  }

  /** Among ticks that are all aborts, every prefix is counted in full. */
  lemma {:induction false} AbortsOfAborts(ts: seq<Tick>)
    requires forall j | 0 <= j < |ts| :: ts[j] == Checked(Abort)
    ensures Aborts(ts) == |ts|
  {
    if ts != [] {
      AbortsOfAborts(ts[..|ts| - 1]);
    }
  }

  /** Back-to-back aborts make the loop give up after exactly RetryCap of
      them (max_retry + 1 when max_retry is not negative), each one having
      reconnected first. */
  lemma AbortsExhaustRetries(seedCount: nat, maxRetry: int, ticks: seq<Tick>)
    requires forall j | 0 <= j < |ticks| :: ticks[j] == Checked(Abort)
    requires |ticks| >= RetryCap(maxRetry)
    ensures var r := Run(Start(seedCount), ticks, maxRetry);
            && r.stop == RetriesExhausted
            && r.consumed == r.retries == RetryCap(maxRetry)
            && r.connects == 1 + RetryCap(maxRetry)
  {
    Guarantees(seedCount, maxRetry, ticks);
    var r := Run(Start(seedCount), ticks, maxRetry);
    AbortsOfAborts(ticks[..r.consumed]);
  }

  /** Once the cancellation flag is seen at the head of the loop, the run
      leaves the loop there, if it has not left it before. */
  lemma CancelEndsRun(seedCount: nat, maxRetry: int, ticks: seq<Tick>, c: nat)
    requires c < |ticks| && ticks[c] == Cancel
    ensures var r := Run(Start(seedCount), ticks, maxRetry);
            r.stop != Pending && r.consumed <= c + 1
  {
    Guarantees(seedCount, maxRetry, ticks);
  }

  /** Seeded with 5 messages, a check finding 7 alerts once and a later
      check finding 4 (after deletions) does not, leaving 4 as baseline. */
  lemma RiseThenDeletion(maxRetry: int)
    ensures var r := Run(Start(5), [Checked(Uids([1, 2, 3, 4, 5, 6, 7])), Checked(Uids([1, 2, 3, 4]))], maxRetry);
            r.notified == 1 && r.baseline == 4 && r.checks == 3 && r.stop == Pending
  {
  }

  // ---------------------------------------------------------------------
  // The loop as the source writes it

  /** The polling function: the seeding check `seed`, then the loop over the
      loop-head ticks. What the loop guarantees is stated about Run in
      Guarantees. */
  method Polling(maxRetry: int, seed: Reply, ticks: seq<Tick>) returns (r: PollRun)
    // A failing seed check leaves through the outer IMAP error handler.
    ensures !seed.Uids? ==> r == PollRun(Failed, 0, 1, 0, 0, 0, 0)
    // Otherwise the seed's count is the first baseline, and never alerts.
    ensures seed.Uids? ==> r == Run(Start(|seed.uids|), ticks, maxRetry)
  {
    if !seed.Uids? {
      return PollRun(Failed, 0, 1, 0, 0, 0, 0);
    }
    var first := CheckNewMail(seed.uids, 0, true);
    var newCount := first.newCount;
    var connects: nat, retries: nat, checks: nat, notified: nat := 1, 0, 1, 0;
    var stop := Pending;
    var k := 0;
    while k < |ticks| && stop == Pending
      invariant k <= |ticks|
      invariant Run(Start(|seed.uids|), ticks, maxRetry)
             == Run(PollRun(stop, k, connects, retries, checks, notified, newCount), ticks[k..], maxRetry)
    {
      var t := ticks[k];
      assert ticks[k..][1..] == ticks[k + 1..];
      k := k + 1;
      match t {
        case Cancel =>
          stop := Cancelled;
        case Checked(Uids(u)) =>
          var v := CheckNewMail(u, newCount, false);
          newCount := v.newCount;
          if v.isNewMail {
            notified := notified + 1;
          }
          checks := checks + 1;
        case Checked(Abort) =>
          connects := connects + 1;
          retries := retries + 1;
          if GivesUp(retries, maxRetry) {
            stop := RetriesExhausted;
          }
        case Checked(Error) =>
          stop := Failed;
      }
    }
    r := PollRun(stop, k, connects, retries, checks, notified, newCount);
  }
}

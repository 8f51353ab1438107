/** Push mode: connect, select the inbox and start IDLE, then wait for server
    responses once per iteration until cancelled. Every EXISTS response plays
    one alert; a BYE response reconnects without using up the retry budget;
    an abort or a protocol error reconnects, counts one retry and gives up
    once the counter exceeds max_retry. The IMAP session is replaced by the
    outcome of each idle_check call. */
module PushMode {
  import opened Retry

  /** One element of an untagged server response: a number (the message
      count of `3 EXISTS`) or a word such as `EXISTS` or `BYE`. */
  datatype Token = Num(n: nat) | Atom(text: string)

  /** An untagged server response as idle_check returns it. */
  type Response = seq<Token>

  /** The outcome of one idle_check call: the responses collected before
      the timeout, a session abort, a protocol error, or any other failure. */
  datatype IdleResult = Responses(batch: seq<Response>) | Abort | ProtocolError | OtherError

  /** One arrival at the head of the push loop: either the cancellation flag
      is found set, or the loop body runs and idle_check yields `result`. */
  datatype Tick = Cancel | Idled(result: IdleResult)

  /** Why the run ended; `Crashed` is an exception the loop does not catch,
      `Pending` means it is still in the loop. */
  datatype Stop = Cancelled | RetriesExhausted | Crashed | Pending

  /** The state of a run: whether it left the loop, how many ticks it
      consumed, how many sessions it opened, the retry counter
      `retry_count` and how many alerts it played. */
  datatype PushRun = PushRun(stop: Stop, consumed: nat, connects: nat, retries: nat, notified: nat)

  // ---------------------------------------------------------------------
  // One batch of responses

  /** A response too short to index its second element. */
  predicate Malformed(r: Response)
  {
    |r| < 2
  }

  /** A response reporting the new message count. */
  predicate IsExists(r: Response)
  {
    |r| >= 2 && r[1] == Atom("EXISTS")
  }

  /** A response saying that the server closed the session. */
  predicate IsBye(r: Response)
  {
    |r| >= 2 && r[0] == Atom("BYE")
  }

  /** How many responses of the batch are handled before the first one too
      short to index (all of them when there is none). */
  function Handled(batch: seq<Response>): (n: nat)
    ensures n <= |batch|
    ensures forall j | 0 <= j < n :: !Malformed(batch[j])
    ensures n < |batch| ==> Malformed(batch[n])
  {
    if batch == [] || Malformed(batch[0]) then 0 else 1 + Handled(batch[1..])
  }

  /** Number of EXISTS responses among `rs`. */
  function ExistsCount(rs: seq<Response>): nat
  {
    if rs == [] then 0
    else ExistsCount(rs[..|rs| - 1]) + (if IsExists(rs[|rs| - 1]) then 1 else 0)
  }

  /** Number of BYE responses among `rs`. */
  function ByeCount(rs: seq<Response>): nat
  {
    if rs == [] then 0
    else ByeCount(rs[..|rs| - 1]) + (if IsBye(rs[|rs| - 1]) then 1 else 0)
  }

  /** Counting EXISTS responses batch by batch gives the count over all of them. */
  lemma {:induction false} ExistsCountAppend(a: seq<Response>, b: seq<Response>)
    ensures ExistsCount(a + b) == ExistsCount(a) + ExistsCount(b)
    decreases |b|
  {
    if b != [] {
      var b' := b[..|b| - 1];
      assert (a + b)[..|a + b| - 1] == a + b';
      assert (a + b)[|a + b| - 1] == b[|b| - 1];
      ExistsCountAppend(a, b');
    } else {
      assert a + b == a;
    }
  }

  /** A batch made only of EXISTS responses plays one alert per response. */
  lemma {:induction false} ExistsCountAll(rs: seq<Response>)
    requires forall j | 0 <= j < |rs| :: IsExists(rs[j])
    ensures ExistsCount(rs) == |rs|
  {
    if rs != [] {
      ExistsCountAll(rs[..|rs| - 1]);
    }
  }

  /** The `for` loop over one idle_check batch: alerts on each EXISTS and
      reconnects on each BYE, until a response too short to index raises. */
  method HandleBatch(batch: seq<Response>) returns (notified: nat, byes: nat, ok: bool)
    ensures ok <==> Handled(batch) == |batch|
    ensures notified == ExistsCount(batch[..Handled(batch)])
    ensures byes == ByeCount(batch[..Handled(batch)])
  {
    notified, byes := 0, 0;
    var i := 0;
    while i < |batch|
      invariant i <= |batch|
      invariant forall j | 0 <= j < i :: !Malformed(batch[j])
      invariant notified == ExistsCount(batch[..i]) && byes == ByeCount(batch[..i])
    {
      var response := batch[i];
      if |response| < 2 {
        return notified, byes, false;
      }
      assert batch[..i + 1][..i] == batch[..i];
      if response[1] == Atom("EXISTS") {
        notified := notified + 1;
      }
      if response[0] == Atom("BYE") {
        byes := byes + 1;
      }
      i := i + 1;
    }
    assert batch[..i] == batch;
    ok := true;
  }

  // ---------------------------------------------------------------------
  // Reference definitions over the consumed ticks

  /** The part of a batch the loop body gets through. */
  function Through(b: seq<Response>): seq<Response>
  {
    b[..Handled(b)]
  }

  /** Whether an idle_check outcome counts against the retry budget. */
  predicate Retried(t: Tick)
  {
    t == Idled(Abort) || t == Idled(ProtocolError)
  }

  /** Number of aborts and protocol errors among the ticks. */
  function Failures(ts: seq<Tick>): nat
  {
    if ts == [] then 0
    else Failures(ts[..|ts| - 1]) + (if Retried(ts[|ts| - 1]) then 1 else 0)
  }

  /** Number of BYE responses the loop body got through, over all ticks. */
  function Byes(ts: seq<Tick>): nat
  {
    if ts == [] then 0
    else
      Byes(ts[..|ts| - 1])
      + (match ts[|ts| - 1]
         case Idled(Responses(b)) => ByeCount(Through(b))
         case _ => 0)
  }

  /** Number of EXISTS responses the loop body got through, over all ticks. */
  function Notices(ts: seq<Tick>): nat
  {
    if ts == [] then 0
    else
      Notices(ts[..|ts| - 1])
      + (match ts[|ts| - 1]
         case Idled(Responses(b)) => ExistsCount(Through(b))
         case _ => 0)
  }

  /** All responses the loop body got through, over all ticks, in order. */
  function HandledResponses(ts: seq<Tick>): seq<Response>
  {
    if ts == [] then []
    else
      HandledResponses(ts[..|ts| - 1])
      + (match ts[|ts| - 1]
         case Idled(Responses(b)) => Through(b)
         case _ => [])
  }

  /** Counting alerts batch by batch is counting the EXISTS responses among
      everything the loop body got through. */
  lemma {:induction false} NoticesAreHandledExists(ts: seq<Tick>)
    ensures Notices(ts) == ExistsCount(HandledResponses(ts))
  {
    if ts != [] {
      var before := ts[..|ts| - 1];
      NoticesAreHandledExists(before);
      var last := match ts[|ts| - 1]
        case Idled(Responses(b)) => Through(b)
        case _ => [];
      ExistsCountAppend(HandledResponses(before), last);
      if !(ts[|ts| - 1].Idled? && ts[|ts| - 1].result.Responses?) {
        assert ExistsCount(last) == 0;
      }
    }
  }

  /** Failures, Byes and Notices grow by what the one extra tick contributes. */
  lemma Extend(ts: seq<Tick>, t: Tick)
    ensures Failures(ts + [t]) == Failures(ts) + (if Retried(t) then 1 else 0)
    ensures Byes(ts + [t]) == Byes(ts) + (if t.Idled? && t.result.Responses? then ByeCount(Through(t.result.batch)) else 0)
    ensures Notices(ts + [t]) == Notices(ts) + (if t.Idled? && t.result.Responses? then ExistsCount(Through(t.result.batch)) else 0)
  {
    assert (ts + [t])[..|ts|] == ts;
  }

  /** Whether the loop body, having run with this tick, did not leave the
      loop by a cancel or an exception it does not catch. */
  predicate Survives(t: Tick)
  {
    && t.Idled?
    && !t.result.OtherError?
    && (t.result.Responses? ==> Handled(t.result.batch) == |t.result.batch|)
  }

  /** Where the loop is after tick `t`, the retry counter then being
      `retries`: `Pending` when it goes round again. */
  function Reason(t: Tick, retries: nat, maxRetry: int): Stop
  {
    if t == Cancel then Cancelled
    else if t == Idled(OtherError) then Crashed
    else if t.Idled? && t.result.Responses? && Handled(t.result.batch) < |t.result.batch| then Crashed
    else if Retried(t) && GivesUp(retries, maxRetry) then RetriesExhausted
    else Pending
  }

  // ---------------------------------------------------------------------
  // The loop as a function

  /** The state on entering the loop: one session, nothing counted yet. */
  function Start(): PushRun
  {
    PushRun(Pending, 0, 1, 0, 0)
  }

  /** One iteration of the loop body on tick `t`. */
  function Step(s: PushRun, t: Tick, maxRetry: int): PushRun
  {
    match t
    case Cancel =>
      s.(stop := Cancelled, consumed := s.consumed + 1)
    case Idled(Responses(b)) =>
      s.(stop := if Handled(b) < |b| then Crashed else Pending,
         consumed := s.consumed + 1,
         connects := s.connects + ByeCount(Through(b)),
         notified := s.notified + ExistsCount(Through(b)))
    case Idled(OtherError) =>
      s.(stop := Crashed, consumed := s.consumed + 1)
    case Idled(_) =>
      s.(stop := if GivesUp(s.retries + 1, maxRetry) then RetriesExhausted else Pending,
         consumed := s.consumed + 1, connects := s.connects + 1, retries := s.retries + 1)
  }

  /** The loop run over the remaining ticks until it leaves or they run out. */
  function Run(s: PushRun, ts: seq<Tick>, maxRetry: int): PushRun
    decreases |ts|
  {
    if ts == [] || s.stop != Pending then s else Run(Step(s, ts[0], maxRetry), ts[1..], maxRetry)
  }

  /** What the state after the first `s.consumed` ticks must be. */
  ghost predicate Consistent(maxRetry: int, ticks: seq<Tick>, s: PushRun)
  {
    && s.consumed <= |ticks|
    && var done := ticks[..s.consumed];
    && s.retries == Failures(done)
    && s.connects == 1 + s.retries + Byes(done)
    && s.notified == Notices(done)
    && (s.stop != RetriesExhausted ==> s.retries == 0 || !GivesUp(s.retries, maxRetry))
    && (s.stop == RetriesExhausted ==> s.retries == RetryCap(maxRetry))
    && (forall j | 0 <= j < s.consumed - 1 :: Survives(ticks[j]))
    && (if s.consumed == 0 then s.stop == Pending
        else s.stop == Reason(ticks[s.consumed - 1], s.retries, maxRetry))
  }

  /** A tick after which the loop went round again did not leave it. */
  lemma PendingSurvives(t: Tick, retries: nat, maxRetry: int)
    requires Reason(t, retries, maxRetry) == Pending
    ensures Survives(t)
  {
  }

  /** The ticks before the next one all let the loop go round. */
  lemma SurvivedSoFar(maxRetry: int, ticks: seq<Tick>, s: PushRun)
    requires Consistent(maxRetry, ticks, s) && s.stop == Pending
    ensures forall j | 0 <= j < s.consumed :: Survives(ticks[j])
  {
    if 0 < s.consumed {
      PendingSurvives(ticks[s.consumed - 1], s.retries, maxRetry);
    }
  }

  /** A batch alerts on its EXISTS responses and reconnects on its BYEs,
      leaving the retry counter alone. */
  lemma StepBatch(maxRetry: int, ticks: seq<Tick>, s: PushRun, b: seq<Response>)
    requires Consistent(maxRetry, ticks, s) && s.stop == Pending
    requires s.consumed < |ticks| && ticks[s.consumed] == Idled(Responses(b))
    ensures Consistent(maxRetry, ticks, Step(s, ticks[s.consumed], maxRetry))
  {
    var t := ticks[s.consumed];
    var done := ticks[..s.consumed];
    assert ticks[..s.consumed + 1] == done + [t];
    Extend(done, t);
    SurvivedSoFar(maxRetry, ticks, s);
    var s' := Step(s, t, maxRetry);
    assert s'.stop == Reason(t, s'.retries, maxRetry);
  }

  /** An abort or a protocol error counts one retry and opens one session. */
  lemma StepRetry(maxRetry: int, ticks: seq<Tick>, s: PushRun)
    requires Consistent(maxRetry, ticks, s) && s.stop == Pending
    requires s.consumed < |ticks| && Retried(ticks[s.consumed])
    ensures Consistent(maxRetry, ticks, Step(s, ticks[s.consumed], maxRetry))
  {
    var t := ticks[s.consumed];
    var done := ticks[..s.consumed];
    assert ticks[..s.consumed + 1] == done + [t];
    Extend(done, t);
    CapBoundsIncrement(s.retries, maxRetry);
    SurvivedSoFar(maxRetry, ticks, s);
    var s' := Step(s, t, maxRetry);
    assert s'.retries == s.retries + 1 == Failures(ticks[..s'.consumed]);
    assert s'.stop == Reason(t, s'.retries, maxRetry);
  }

  /** A cancel or an uncaught failure leaves the loop with nothing else changed. */
  lemma StepLeave(maxRetry: int, ticks: seq<Tick>, s: PushRun, t: Tick)
    requires Consistent(maxRetry, ticks, s) && s.stop == Pending
    requires s.consumed < |ticks| && ticks[s.consumed] == t
    requires t == Cancel || t == Idled(OtherError)
    ensures Consistent(maxRetry, ticks, Step(s, t, maxRetry))
  {
    var done := ticks[..s.consumed];
    assert ticks[..s.consumed + 1] == done + [t];
    Extend(done, t);
    SurvivedSoFar(maxRetry, ticks, s);
    var s' := s.(stop := if t == Cancel then Cancelled else Crashed, consumed := s.consumed + 1);
    assert Step(s, t, maxRetry) == s';
    assert s'.stop == Reason(t, s.retries, maxRetry);
  }

  /** Every iteration keeps the state consistent with the ticks it consumed. */
  lemma StepConsistent(maxRetry: int, ticks: seq<Tick>, s: PushRun)
    requires Consistent(maxRetry, ticks, s) && s.stop == Pending
    requires s.consumed < |ticks|
    ensures Consistent(maxRetry, ticks, Step(s, ticks[s.consumed], maxRetry))
    ensures Step(s, ticks[s.consumed], maxRetry).consumed == s.consumed + 1
  {
    match ticks[s.consumed]
    case Idled(Responses(b)) => StepBatch(maxRetry, ticks, s, b);
    case Idled(Abort) => StepRetry(maxRetry, ticks, s);
    case Idled(ProtocolError) => StepRetry(maxRetry, ticks, s);
    case Cancel => StepLeave(maxRetry, ticks, s, Cancel);
    case Idled(OtherError) => StepLeave(maxRetry, ticks, s, Idled(OtherError));
  }

  /** Running the loop to its end keeps the state consistent, and it only
      stays in the loop when the ticks ran out. */
  lemma {:induction false} RunConsistent(maxRetry: int, ticks: seq<Tick>, s: PushRun)
    requires Consistent(maxRetry, ticks, s)
    ensures var r := Run(s, ticks[s.consumed..], maxRetry);
            Consistent(maxRetry, ticks, r) && (r.stop == Pending ==> r.consumed == |ticks|)
    decreases |ticks| - s.consumed
  {
    var rest := ticks[s.consumed..];
    if rest != [] && s.stop == Pending {
      StepConsistent(maxRetry, ticks, s);
      var s' := Step(s, rest[0], maxRetry);
      assert rest[1..] == ticks[s'.consumed..];
      RunConsistent(maxRetry, ticks, s');
    }
  }

  /** What a run of the IDLE loop does, from entering the loop to leaving it
      or running out of ticks. */
  lemma Guarantees(maxRetry: int, ticks: seq<Tick>)
    ensures var r := Run(Start(), ticks, maxRetry);
      // It consumes a prefix of the ticks.
      && r.consumed <= |ticks|
      // The retry counter counts aborts and protocol errors only, is never
      // reset, and stays bounded.
      && r.retries == Failures(ticks[..r.consumed])
      && r.retries <= RetryCap(maxRetry)
      // One session at start, one more per counted failure (the exhausting
      // one included) and one more per BYE, which is not counted as a retry.
      && r.connects == 1 + r.retries + Byes(ticks[..r.consumed])
      // One alert per EXISTS response the loop got through.
      && r.notified == Notices(ticks[..r.consumed])
      // Before the last consumed tick nothing left the loop, and the
      // counter only exceeds max_retry when the final failure gave up.
      && (forall j | 0 <= j < r.consumed - 1 :: Survives(ticks[j]))
      && (r.stop != RetriesExhausted ==> r.retries == 0 || !GivesUp(r.retries, maxRetry))
      && (r.stop == RetriesExhausted ==> r.retries == RetryCap(maxRetry))
      // The run ends at the first tick that leaves the loop, or goes on to
      // the end of the ticks.
      && (0 < r.consumed ==> r.stop == Reason(ticks[r.consumed - 1], r.retries, maxRetry))
      && (r.consumed == 0 ==> r.stop == Pending)
      && (r.stop == Pending ==> r.consumed == |ticks|)
  {
    RunConsistent(maxRetry, ticks, Start());
    assert ticks[0..] == ticks;
  }

  /** Among ticks that are all aborts or protocol errors, every prefix is
      counted in full. */
  lemma {:induction false} FailuresOfFailures(ts: seq<Tick>)
    requires forall j | 0 <= j < |ts| :: Retried(ts[j])
    ensures Failures(ts) == |ts|
  {
    if ts != [] {
      FailuresOfFailures(ts[..|ts| - 1]);
    }
  }

  /** Back-to-back aborts or protocol errors make the loop give up after
      exactly RetryCap of them, each one having reconnected first. */
  lemma FailuresExhaustRetries(maxRetry: int, ticks: seq<Tick>)
    requires forall j | 0 <= j < |ticks| :: Retried(ticks[j])
    requires |ticks| >= RetryCap(maxRetry)
    ensures var r := Run(Start(), ticks, maxRetry);
            && r.stop == RetriesExhausted
            && r.consumed == r.retries == RetryCap(maxRetry)
            && r.connects == 1 + RetryCap(maxRetry)
  {
    Guarantees(maxRetry, ticks);
    var r := Run(Start(), ticks, maxRetry);
    FailuresOfFailures(ticks[..r.consumed]);
    ByesWithoutBatches(ticks[..r.consumed]);
  }

  /** Ticks without response batches carry no BYE. */
  lemma {:induction false} ByesWithoutBatches(ts: seq<Tick>)
    requires forall j | 0 <= j < |ts| :: Retried(ts[j])
    ensures Byes(ts) == 0
  {
    if ts != [] {
      ByesWithoutBatches(ts[..|ts| - 1]);
    }
  }

  /** BYE responses never use up the retry budget: a run that only receives
      well-formed batches never counts a retry and never gives up. */
  lemma ByesNeverExhaust(maxRetry: int, ticks: seq<Tick>)
    requires forall j | 0 <= j < |ticks| :: ticks[j].Idled? && ticks[j].result.Responses?
    ensures var r := Run(Start(), ticks, maxRetry);
            r.retries == 0 && r.stop != RetriesExhausted
  {
    Guarantees(maxRetry, ticks);
    var r := Run(Start(), ticks, maxRetry);
    NoFailuresInBatches(ticks[..r.consumed]);
  }

  /** Ticks that are all response batches hold no abort or protocol error. */
  lemma {:induction false} NoFailuresInBatches(ts: seq<Tick>)
    requires forall j | 0 <= j < |ts| :: ts[j].Idled? && ts[j].result.Responses?
    ensures Failures(ts) == 0
  {
    if ts != [] {
      NoFailuresInBatches(ts[..|ts| - 1]);
    }
  }

  /** Once the cancellation flag is seen at the head of the loop, the run
      leaves the loop there, if it has not left it before. */
  lemma CancelEndsRun(maxRetry: int, ticks: seq<Tick>, c: nat)
    requires c < |ticks| && ticks[c] == Cancel
    ensures var r := Run(Start(), ticks, maxRetry);
            r.stop != Pending && r.consumed <= c + 1
  {
    Guarantees(maxRetry, ticks);
  }

  /** One EXISTS response in a batch plays the alert exactly once. */
  lemma OneExistsOneAlert(maxRetry: int)
    ensures Run(Start(), [Idled(Responses([[Num(3), Atom("EXISTS")]]))], maxRetry).notified == 1
  {
  }

  // ---------------------------------------------------------------------
  // The loop as the source writes it

  /** The IDLE loop over the loop-head ticks; what it guarantees is stated
      about Run in Guarantees. */
  method Push(maxRetry: int, ticks: seq<Tick>) returns (r: PushRun)
    ensures r == Run(Start(), ticks, maxRetry)
  {
    var connects: nat, retries: nat, notified: nat := 1, 0, 0;
    var stop := Pending;
    var k := 0;
    while k < |ticks| && stop == Pending
      invariant k <= |ticks|
      invariant Run(Start(), ticks, maxRetry)
             == Run(PushRun(stop, k, connects, retries, notified), ticks[k..], maxRetry)
    {
      var t := ticks[k];
      assert ticks[k..][1..] == ticks[k + 1..];
      k := k + 1;
      match t {
        case Cancel =>
          stop := Cancelled;
        case Idled(Responses(batch)) =>
          var alerts, byes, ok := HandleBatch(batch);
          notified := notified + alerts;
          connects := connects + byes;
          if !ok {
            stop := Crashed;
          }
        case Idled(OtherError) =>
          stop := Crashed;
        case Idled(_) =>
          connects := connects + 1;
          retries := retries + 1;
          if GivesUp(retries, maxRetry) {
            stop := RetriesExhausted;
          }
      }
    }
    r := PushRun(stop, k, connects, retries, notified);
  }
}

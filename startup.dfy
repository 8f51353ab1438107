/** The entry point `main`: load the settings over the defaults, then run
    push or polling mode with the loaded retry bound. */
module Startup {
  import opened Settings
  import PollingMode
  import PushMode

  /** Which loop ran, and how it went. */
  datatype Outcome = Pushed(push: PushMode.PushRun) | Polled(poll: PollingMode.PollRun)

  /** The `max_retry` entry after the file was copied over the defaults. */
  function LoadedRetryLimit(file: map<string, Json>): Json
  {
    Overlay(Defaults(), file)["max_retry"]
  }

  /** `main`: the dictionary is filled from the file, argv picks the mode,
      and the chosen loop runs with the loaded `max_retry`. `seed` and
      `pollTicks` are what the polling session yields, `pushTicks` what the
      IDLE session yields; only the ones of the chosen mode are consumed. */
  method Launch(argv: seq<string>, file: map<string, Json>, seed: PollingMode.Reply,
                pollTicks: seq<PollingMode.Tick>, pushTicks: seq<PushMode.Tick>)
    returns (o: Outcome)
    requires LoadedRetryLimit(file).JInt?
    ensures SelectMode(argv) == Push
            ==> o == Pushed(PushMode.Run(PushMode.Start(), pushTicks, LoadedRetryLimit(file).i))
    ensures SelectMode(argv) == Polling && seed.Uids?
            ==> o == Polled(PollingMode.Run(PollingMode.Start(|seed.uids|), pollTicks, LoadedRetryLimit(file).i))
    ensures SelectMode(argv) == Polling && !seed.Uids?
            ==> o.Polled? && o.poll.stop == PollingMode.Failed
  {
    var store := new SettingStore();
    store.Load(file);
    var maxRetry := store.entries["max_retry"].i;
    if |argv| == 2 && argv[1] == "push" {
      var r := PushMode.Push(maxRetry, pushTicks);
      o := Pushed(r);
    } else {
      var r := PollingMode.Polling(maxRetry, seed, pollTicks);
      o := Polled(r);
    }
  }

  /** Without `max_retry` in the file, push mode gives up after six
      back-to-back aborts or protocol errors. */
  lemma DefaultPushGivesUpAfterSix(file: map<string, Json>, ticks: seq<PushMode.Tick>)
    requires "max_retry" !in file
    requires |ticks| >= 6 && forall j | 0 <= j < |ticks| :: PushMode.Retried(ticks[j])
    ensures var r := PushMode.Run(PushMode.Start(), ticks, LoadedRetryLimit(file).i);
            r.stop == PushMode.RetriesExhausted && r.retries == 6
  {
    DefaultRetryLimit(file);
    PushMode.FailuresExhaustRetries(5, ticks);
  }
}

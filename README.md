# MailChecker decision layer in Dafny

MailChecker watches one IMAP inbox and plays a sound when new mail arrives.
It runs in one of two modes. Polling mode counts the inbox's messages once
per interval. Push mode holds an IMAP IDLE subscription and reacts to the
server's `EXISTS` responses. This project models the logic that decides
what happens around the network calls. The IMAP session itself is replaced
by a finite sequence of per-iteration outcomes ("ticks").

The modelled parts are:

- **Settings** (`settings.dfy`). This is the module-level `setting`
  dictionary with its defaults (`max_retry` 5, `wait_time` 60, the
  connection fields empty, `ssl` false). It is a class whose `Load` method
  copies the loaded file's pairs over the defaults one key at a time, as
  `main` does. `SelectMode` is the choice between push and polling mode.
- **MailCount** (`mail_count.dfy`). This is `check_new_mail`: the count is
  the number of UIDs found, the first observation never alerts, and later
  ones alert exactly on a strict rise. `Rises` and `Last` are reference
  definitions: the number of alerts and the final baseline for a whole
  series of counts.
- **Retry** (`retry.dfy`). This is the shared retry counter. It starts at
  0, grows by one per counted failure, is never reset, and the loop gives
  up once it exceeds `max_retry`. `RetryCap` is the most it can reach.
- **PollingMode** (`polling.dfy`). `Polling` is the `polling` function as a
  `while` loop over ticks. A tick is either "cancellation seen at the loop
  head" or the outcome of one `check_new_mail`: UIDs, an abort, or another
  IMAP error. `Step` and `Run` give the same loop as functions. `Polling` is
  proved equal to `Run`. `Guarantees` then states what a run does, in terms
  of reference counts over the ticks it consumed: aborts, counts observed,
  rises.
- **Startup** (`startup.dfy`). `Launch` is `main`: it fills a fresh
  settings store from the file, picks the mode from argv and runs that
  mode's loop with the loaded `max_retry`.
- **PushMode** (`push.dfy`). `Push` is the `push` function built the same
  way. `HandleBatch` is its inner `for` loop over the responses of one
  `idle_check`. A tick is a cancellation, a batch of responses, an abort, a
  protocol error, or another failure.

The run records count sessions opened (`connection()` calls), retries,
alerts played and, for polling, the check counter `i` and the baseline
`new_count`. A run ends as `Cancelled` or `RetriesExhausted`, or as
`Failed` (polling: an IMAP error reaches the outer handler) or `Crashed`
(push: an exception nothing catches). It is `Pending` when the ticks ran
out while the loop would go on.

The model keeps these behaviours of the program:

- Only the last session is logged out (`finally: imap.logout()`). A session
  replaced by a reconnect, after an abort or a BYE, is never closed.
- The reconnect comes before the retry test. So the abort that exhausts the
  budget still opens a session. With `max_retry` = 2, three aborts give four
  sessions in all.
- In polling mode, an abort during the seeding check is not retried.
  `imaplib.IMAP4.abort` is a subclass of `imaplib.IMAP4.error`, so the outer
  handler catches it and the run ends as `Failed`.
- Push mode retries protocol errors as well as aborts. Any other exception
  ends the run. That includes a response too short to index its second
  element (`response[1]`).
- `max_retry` is not checked to be non-negative. When it is negative, the
  first counted failure gives up. `RetryCap` is therefore
  `max(max_retry, 0) + 1`.

## Model

| member | source | states |
|---|---|---|
| `Settings.SettingStore.constructor` | MailChecker.py:25-33 | the dictionary starts with the built-in defaults, including `max_retry` 5 and `wait_time` 60 |
| `Settings.SettingStore.Load` | MailChecker.py:40-43 | after copying the file key by key, the dictionary is the old one overlaid with the file |
| `Settings.Overlay` | MailChecker.py:42-43 | the merged keys are the defaults' keys plus the file's keys; every file key has the file's value; every other key keeps its previous value |
| `Settings.DefaultsSurvive` | MailChecker.py:25-43 | a default key that the file leaves out still holds its default after loading |
| `Settings.DefaultRetryLimit` | MailChecker.py:31 | without `max_retry` in the file, the loaded limit is 5 |
| `Settings.SelectMode` | MailChecker.py:45-49 | push mode if and only if there are exactly two argv entries and the second is `push`; polling mode otherwise |
| `MailCount.CheckNewMail` | MailChecker.py:166-187 | the returned count is the number of UIDs found (0 when none); the first observation never alerts; a later one alerts if and only if the count is strictly above the previous one |
| `MailCount.Rises` | MailChecker.py:130-135 | a series of observations alerts at most once per observation |
| `MailCount.RisesStep` | MailChecker.py:130-135 | one more observation adds one alert exactly when `check_new_mail`, fed the previous baseline, reports new mail; its count becomes the baseline |
| `MailCount.RisesWhenIncreasing` | MailChecker.py:177-181 | when every count exceeds the one before, every observation alerts |
| `MailCount.NoRisesWhenNonIncreasing` | MailChecker.py:177-181 | when no count exceeds the one before (deletions, no change), no observation alerts |
| `MailCount.ReplacedMessagesUnreported` | MailChecker.py:172-181 | count-based detection misses new UIDs that do not raise the count above the baseline |
| `Retry.CapBoundsIncrement` | MailChecker.py:144-150 | incrementing a counter that has not given up stays within RetryCap; it gives up exactly when it reaches RetryCap |
| `PollingMode.Polling` | MailChecker.py:105-155 | a failing seeding check ends the run as Failed after one session; otherwise the loop computes `Run` from the seeding count |
| `PollingMode.RunConsistent` | MailChecker.py:126-150 | each iteration keeps the counters, baseline and stop reason consistent with the ticks consumed; the run stays in the loop only when the ticks ran out |
| `PollingMode.Guarantees` | MailChecker.py:111-150 | retries equal the aborts consumed, are never reset and stay within RetryCap; sessions = 1 + retries; `i` = 1 + successful checks; alerts are the strict rises after the seed; the baseline is the last count, carried across reconnects; the run stops at the first cancel, error or exhausting abort |
| `PollingMode.AlertsPerCheck` | MailChecker.py:130-137 | alerts are fewer than the check counter `i`: each successful check alerts at most once |
| `PollingMode.AbortsExhaustRetries` | MailChecker.py:141-150 | back-to-back aborts give up after exactly RetryCap of them, with one reconnect each, the last included |
| `PollingMode.CancelEndsRun` | MailChecker.py:126 | once cancellation is seen at the loop head, the run has left the loop there or before |
| `PollingMode.RiseThenDeletion` | MailChecker.py:122-137 | seeded with 5, counts 7 then 4 give one alert, baseline 4 and `i` = 3 |
| `PushMode.Handled` | MailChecker.py:77-79 | the responses handled are exactly those before the first one too short to index |
| `PushMode.HandleBatch` | MailChecker.py:76-85 | the batch loop plays one alert per EXISTS and reconnects once per BYE among the responses it gets through; it fails exactly when a response is too short |
| `PushMode.ExistsCountAppend` | MailChecker.py:77-82 | EXISTS counts add up across batches |
| `PushMode.NoticesAreHandledExists` | MailChecker.py:72-82 | the alerts counted batch by batch equal the EXISTS responses among all responses the loop got through, in order |
| `PushMode.ExistsCountAll` | MailChecker.py:77-82 | a batch of k EXISTS responses plays k alerts |
| `PushMode.Push` | MailChecker.py:53-101 | the IDLE loop computes `Run` from one session and zero counters |
| `PushMode.RunConsistent` | MailChecker.py:72-95 | each iteration keeps the counters and stop reason consistent with the ticks consumed; the run stays in the loop only when the ticks ran out |
| `PushMode.Guarantees` | MailChecker.py:62-95 | retries equal the aborts and protocol errors consumed, are never reset and stay within RetryCap; sessions = 1 + retries + BYEs handled; alerts = EXISTS responses handled; the run stops at the first cancel, uncaught failure or exhausting failure |
| `PushMode.FailuresExhaustRetries` | MailChecker.py:86-95 | back-to-back aborts or protocol errors give up after exactly RetryCap of them, with one reconnect each |
| `PushMode.ByesNeverExhaust` | MailChecker.py:83-85 | a run that only receives well-formed batches, BYEs included, counts no retry and never gives up |
| `PushMode.CancelEndsRun` | MailChecker.py:72 | once cancellation is seen at the loop head, the run has left the loop there or before |
| `PushMode.OneExistsOneAlert` | MailChecker.py:79-82 | one EXISTS response plays the alert exactly once |
| `Startup.Launch` | MailChecker.py:35-49 | in push mode the run is the IDLE loop, and in polling mode the polling loop, each with the `max_retry` left by overlaying the file on the defaults; a failing seeding check ends polling as Failed |
| `Startup.DefaultPushGivesUpAfterSix` | MailChecker.py:31 | without `max_retry` in the file, six back-to-back push failures exhaust the retries |

## Left out

- The IMAPClient calls (`login`, `select_folder`, `idle`, `idle_check`, `search`, `idle_done`, `logout`) are network I/O. Each loop iteration's outcome is an input tick instead.
- Failures of `connection()` itself are not modelled: every connect and reconnect is taken to succeed. That covers the first connect, reconnects inside an exception handler, and the unbound `imap` in `finally` when the first connect fails.
- `idle_done` and the final `logout` are not counted. `logout` (in `finally`) runs once, on the last session, on every path out of either mode. `idle_done` exists only in push mode and runs only when the loop is left by a cancel or by giving up; a `Crashed` run skips it.
- `input_thread`, `_thread.start_new_thread` and `msvcrt.getch` are concurrency and console input. Cancellation is a tick, seen only at the loop head.
- `winsound.PlaySound` is platform audio. It is modelled as a count of alerts.
- `time.sleep`, `wait_time` and the `timeout=` values are wall-clock durations. Each iteration is one tick.
- Reading settings.json is file I/O. The file arrives as an already-parsed map. JSON floats, lists and objects are not represented in `Json`. `Overlay` is generic over the value type, so the merge does not depend on them.
- A `max_retry` that is not an integer (which Python would compare or reject at run time) is not modelled. The loops take it as an integer.
- Startup.Launch: requires the loaded `max_retry` to be a JSON integer, because a string or null there is the case just above that the model leaves out.
- In polling mode, exceptions other than IMAP errors (socket errors, for example) are not modelled. `Error` stands for every `imaplib.IMAP4.error` that is not an abort.
- All `print` output is left out.

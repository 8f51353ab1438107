/** check_new_mail: the count-based decision whether new mail arrived, and
    the reference definitions of what a run of such decisions amounts to. */
module MailCount {

  /** A message identifier returned by a search of the inbox. */
  type Uid = nat

  /** What check_new_mail returns: whether to alert, and the count that
      becomes the next baseline. */
  datatype Verdict = Verdict(isNewMail: bool, newCount: nat)

  /** Decides from the UIDs a search of "ALL" returned and the previous
      count whether new mail arrived. The first observation never alerts. */
  function CheckNewMail(uids: seq<Uid>, preNewCount: nat, isFirst: bool): (v: Verdict)
    ensures v.newCount == |uids|
    ensures isFirst ==> !v.isNewMail
    ensures !isFirst ==> (v.isNewMail <==> |uids| > preNewCount)
  {
    var newCount := if |uids| != 0 then |uids| else 0;
    var isNewMail := if !isFirst then newCount > preNewCount else false;
    Verdict(isNewMail, newCount)
  }

  /** The baseline after the counts `cs` were observed, starting from `seed`. */
  function Last(seed: nat, cs: seq<nat>): nat
  {
    if cs == [] then seed else cs[|cs| - 1]
  }

  /** How many of the counts `cs` exceed the count observed just before them
      (`seed` before the first one). */
  function Rises(seed: nat, cs: seq<nat>): (n: nat)
    ensures n <= |cs|
  {
    if cs == [] then 0
    else
      var before := cs[..|cs| - 1];
      Rises(seed, before) + (if cs[|cs| - 1] > Last(seed, before) then 1 else 0)
  }

  /** Observing one more count adds one rise exactly when the detector,
      fed the previous baseline, reports new mail. */
  lemma RisesStep(seed: nat, cs: seq<nat>, uids: seq<Uid>)
    ensures Rises(seed, cs + [|uids|])
         == Rises(seed, cs) + (if CheckNewMail(uids, Last(seed, cs), false).isNewMail then 1 else 0)
    ensures Last(seed, cs + [|uids|]) == CheckNewMail(uids, Last(seed, cs), false).newCount
  {
    assert (cs + [|uids|])[..|cs|] == cs;
  }

  /** When every count is larger than the one before, every observation alerts. */
  lemma {:induction false} RisesWhenIncreasing(seed: nat, cs: seq<nat>)
    requires forall j | 0 <= j < |cs| :: cs[j] > Last(seed, cs[..j])
    ensures Rises(seed, cs) == |cs|
  {
    if cs != [] {
      var before := cs[..|cs| - 1];
      forall j | 0 <= j < |before|
        ensures before[j] > Last(seed, before[..j])
      {
        assert before[..j] == cs[..j];
      }
      RisesWhenIncreasing(seed, before);
      assert cs[..|cs| - 1] == before;
    }
  }

  /** When no count exceeds the one before (only deletions, or nothing
      changed), no observation alerts. */
  lemma {:induction false} NoRisesWhenNonIncreasing(seed: nat, cs: seq<nat>)
    requires forall j | 0 <= j < |cs| :: cs[j] <= Last(seed, cs[..j])
    ensures Rises(seed, cs) == 0
  {
    if cs != [] {
      var before := cs[..|cs| - 1];
      forall j | 0 <= j < |before|
        ensures before[j] <= Last(seed, before[..j])
      {
        assert before[..j] == cs[..j];
      }
      NoRisesWhenNonIncreasing(seed, before);
      assert cs[..|cs| - 1] == before;
    }
  }

  /** Counting is not identity: after deletions, new arrivals that bring the
      count back to at most the old baseline go unreported. */
  lemma ReplacedMessagesUnreported(before: seq<Uid>, after: seq<Uid>)
    requires |after| <= |before|
    requires exists u :: u in after && u !in before
    ensures !CheckNewMail(after, CheckNewMail(before, 0, true).newCount, false).isNewMail
  {
  }
}

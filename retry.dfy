/** The retry counter shared by both watching modes: it starts at 0, grows by
    one per counted failure, is never reset, and the loop gives up as soon as
    it exceeds max_retry. */
module Retry {

  /** Whether the counter, just incremented to `retries`, makes the loop give up. */
  predicate GivesUp(retries: nat, maxRetry: int)
  {
    retries > maxRetry
  }

  /** The largest value the counter can reach: it is only incremented while
      it is still at most max_retry, or from its initial 0. */
  function RetryCap(maxRetry: int): nat
  {
    if maxRetry < 0 then 1 else maxRetry + 1
  }

  /** Incrementing a counter the loop has not given up on stays within the cap,
      and reaching the cap means giving up. */
  lemma CapBoundsIncrement(retries: nat, maxRetry: int)
    requires retries == 0 || !GivesUp(retries, maxRetry)
    ensures retries + 1 <= RetryCap(maxRetry)
    ensures GivesUp(retries + 1, maxRetry) <==> retries + 1 == RetryCap(maxRetry)
  {
  }
}

/** The turn's clock and the cancellation it causes. */
module Clock {
  import opened Scores

  /** The clock is the sequence of values successive `time_left()` calls
      return; `at` is the index of the next call. A turn's time is finite,
      so once the readings run out every further reading is below any
      threshold. */
  predicate TimeUp(clock: seq<real>, at: nat, threshold: real) {
    at >= |clock| || clock[at] < threshold
  }

  /** The readings numbered lo .. hi-1 were all at or above the threshold. */
  predicate InTime(clock: seq<real>, lo: nat, hi: nat, threshold: real) {
    forall k :: lo <= k < hi ==> !TimeUp(clock, k, threshold)
  }

  /** Two adjacent stretches of readings in time make one. */
  lemma InTimeJoin(clock: seq<real>, lo: nat, mid: nat, hi: nat, threshold: real)
    requires lo <= mid <= hi
    requires InTime(clock, lo, mid, threshold) && InTime(clock, mid, hi, threshold)
    ensures InTime(clock, lo, hi, threshold)
  {
  }

  /** A low reading inside a stretch makes every wider stretch low too. */
  lemma NotInTimeWiden(clock: seq<real>, lo: nat, hi: nat, lo1: nat, hi1: nat, threshold: real)
    requires lo <= lo1 && hi1 <= hi
    requires !InTime(clock, lo1, hi1, threshold)
    ensures !InTime(clock, lo, hi, threshold)
  {
  }

  /** A search either completes with a result or is abandoned because the
      time ran out (the source's `Timeout` exception). */
  datatype Outcome = Done(result: SearchResult) | Cancelled
}

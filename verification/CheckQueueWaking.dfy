/** Notifying every worker changes none of the sums over the threads. */
module CheckQueueWaking {
  import opened CheckQueue

  lemma NotifyWorkersCounts(threads: seq<Local>)
    ensures Idle(NotifyWorkers(threads)) == Idle(threads) && Inside(NotifyWorkers(threads)) == Inside(threads)
    ensures Held(NotifyWorkers(threads)) == Held(threads)
  {
    SameSums(threads, NotifyWorkers(threads), |threads|);
  }

  /** Threads that count for the same, one by one, add up to the same. */
  lemma {:induction false} SameSums(a: seq<Local>, b: seq<Local>, n: nat)
    requires n <= |a| == |b| && forall t :: 0 <= t < n ==> CountsAlike(a[t], b[t])
    ensures IdleTo(b, n) == IdleTo(a, n) && InsideTo(b, n) == InsideTo(a, n) && HeldTo(b, n) == HeldTo(a, n)
  {
    if n > 0 {
      assert CountsAlike(a[n - 1], b[n - 1]);
      SameSums(a, b, n - 1);
    }
  }

  ghost predicate CountsAlike(a: Local, b: Local) {
    IdleOf(a) == IdleOf(b) && InsideOf(a) == InsideOf(b) && HeldOf(a) == HeldOf(b)
  }
}

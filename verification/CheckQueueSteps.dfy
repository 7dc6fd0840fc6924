/** Every step of every thread of the verification queue keeps its invariant. */
module CheckQueueSteps {
  import opened Collections
  import opened CheckQueue
  import opened CheckQueueWaking

  /** A worker's own flag, once its batch is finished, decides the combined flag. */
  lemma OwnFlag(l: Local, master: bool, noneQueued: bool, todo: bool, fQuit: bool, fAllOk: bool,
                retired: multiset<Check>)
    requires l.Working? && LocalOk(l, master, noneQueued, todo, fQuit, fAllOk)
    requires l.done == |l.batch| && fAllOk == AllOk(retired)
    ensures (fAllOk && l.fOk) == AllOk(retired + multiset(l.batch))
  {
    assert l.batch[..l.done] == l.batch;
    AllOkSum(retired, multiset(l.batch));
  }

  lemma RetireSums(q: multiset<Check>, h: multiset<Check>, m: multiset<Check>, r: multiset<Check>)
    ensures q + (h + m) + r == q + h + (r + m)
  {
  }

  lemma RetireCounts(s: State, t: nat)
    requires Inv(s) && Enabled(s, Retire(t))
    ensures Counted(Retired(s, t), 1)
  {
    var l := s.threads[t];
    var s' := Retired(s, t);
    Gave(s.threads, t);
    NotifyMasterCounts(s.threads[t := Entering]);
    assert LocalInv(s, t);
    OwnFlag(l, t == MASTER, s.queue == [], s.nTodo > 0, s.fQuit, s.fAllOk, s.retired);
    RetireSums(multiset(s.queue), Held(s'.threads), multiset(l.batch), s.retired);
  }

  lemma RetireKeeps(s: State, t: nat)
    requires Inv(s) && Enabled(s, Retire(t))
    ensures InSection(Retired(s, t), t)
  {
    var s' := Retired(s, t);
    RetireCounts(s, t);
    assert LocalInv(s, t);
    forall u | 0 <= u < |s'.threads| && u != t ensures LocalInv(s', u) { assert LocalInv(s, u); }
  }

  lemma LockKeeps(s: State, t: nat)
    requires Inv(s) && Enabled(s, Lock(t))
    ensures InSection(s.(nTotal := s.nTotal + 1), t)
  {
    var s' := s.(nTotal := s.nTotal + 1);
    forall u | 0 <= u < |s'.threads| && u != t ensures LocalInv(s', u) { assert LocalInv(s, u); }
  }

  lemma WakeKeeps(s: State, t: nat)
    requires Inv(s) && Enabled(s, Wake(t))
    ensures InSection(Woken(s, t), t)
  {
    var s' := Woken(s, t);
    Moved(s.threads, t, Entering);
    assert LocalInv(s, t);
    forall u | 0 <= u < |s'.threads| && u != t ensures LocalInv(s', u) { assert LocalInv(s, u); }
  }

  /** One more check of the batch: the first failure sticks. */
  lemma EvalLocal(l: Local, master: bool, noneQueued: bool, todo: bool, fQuit: bool, fAllOk: bool)
    requires l.Working? && l.done < |l.batch| && LocalOk(l, master, noneQueued, todo, fQuit, fAllOk)
    ensures LocalOk(Evaluated(l), master, noneQueued, todo, fQuit, fAllOk)
  {
    assert l.batch[..l.done + 1] == l.batch[..l.done] + [l.batch[l.done]];
    AllOkSum(multiset(l.batch[..l.done]), multiset([l.batch[l.done]]));
    assert AllOk(multiset([l.batch[l.done]])) <==> l.batch[l.done].ok by {
      assert l.batch[l.done] in multiset([l.batch[l.done]]);
    }
  }

  lemma EvalKeeps(s: State, t: nat)
    requires Inv(s) && Enabled(s, Eval(t))
    ensures Inv(Apply(s, Eval(t)).0)
  {
    var s' := Apply(s, Eval(t)).0;
    Moved(s.threads, t, s'.threads[t]);
    assert Counted(s', 0);
    forall u | 0 <= u < |s'.threads| ensures LocalInv(s', u) {
      assert LocalInv(s, u);
      if u == t { EvalLocal(s.threads[t], t == MASTER, s.queue == [], s.nTodo > 0, s.fQuit, s.fAllOk); }
    }
  }

  lemma AddSums(queue: seq<Check>, checks: seq<Check>, h: multiset<Check>, r: multiset<Check>)
    ensures multiset(queue) + h + r + multiset(checks) == multiset(queue + checks) + h + r
  {
    var q, c := multiset(queue), multiset(checks);
    assert multiset(queue + checks) == q + c;
    assert q + h + r + c == (q + c) + h + r;
  }

  lemma AddCounts(s: State, checks: seq<Check>, woken: Option<nat>)
    requires Inv(s) && Enabled(s, Add(checks, woken))
    ensures Counted(Apply(s, Add(checks, woken)).0, 0)
  {
    var s' := Apply(s, Add(checks, woken)).0;
    NotifyWorkersCounts(s.threads);
    if woken.Some? { Moved(s.threads, woken.value, Waiting(true)); }
    AddSums(s.queue, checks, Held(s.threads), s.retired);
    assert s'.nIdle == Idle(s'.threads) && s'.nTotal == Inside(s'.threads) && Held(s'.threads) == Held(s.threads);
  }

  lemma AddKeeps(s: State, checks: seq<Check>, woken: Option<nat>)
    requires Inv(s) && Enabled(s, Add(checks, woken))
    ensures Inv(Apply(s, Add(checks, woken)).0)
  {
    var s' := Apply(s, Add(checks, woken)).0;
    AddCounts(s, checks, woken);
    forall u | 0 <= u < |s'.threads| ensures LocalInv(s', u) { AddLocal(s, checks, woken, u); }
  }

  lemma AddLocal(s: State, checks: seq<Check>, woken: Option<nat>, u: nat)
    requires Inv(s) && Enabled(s, Add(checks, woken)) && u < |s.threads|
    ensures |Apply(s, Add(checks, woken)).0.threads| == |s.threads| && LocalInv(Apply(s, Add(checks, woken)).0, u)
  {
    assert LocalInv(s, u);
    hide Inv, AllOk;
    var s' := Apply(s, Add(checks, woken)).0;
    assert s'.threads[u] == s.threads[u] || (s'.threads[u] == Waiting(true) && u != MASTER);
  }

  lemma QuitKeeps(s: State)
    requires Inv(s) && Enabled(s, Quit)
    ensures Inv(Apply(s, Quit).0)
  {
    var s' := Apply(s, Quit).0;
    NotifyWorkersCounts(s.threads);
    assert Held(s.threads) == multiset{};
    assert Counted(s', 0);
    forall u | 0 <= u < |s'.threads| ensures LocalInv(s', u) {
      assert LocalInv(s, u);
      if s.threads[u].Working? { NoOneWorks(s.threads, u); }
    }
  }

  lemma CallKeeps(s: State, t: nat)
    requires Inv(s) && Enabled(s, Call(t))
    ensures Inv(Apply(s, Call(t)).0)
  {
    var s' := Apply(s, Call(t)).0;
    Moved(s.threads, t, Entering);
    forall u | 0 <= u < |s'.threads| ensures LocalInv(s', u) { assert LocalInv(s, u); }
  }

  // From the top of the loop on, the three sections that enter it do the same.

  lemma LockStep(s: State, t: nat)
    requires Inv(s) && Enabled(s, Lock(t))
    ensures Inv(Apply(s, Lock(t)).0)
  {
    LockKeeps(s, t);
    TopKeeps(s.(nTotal := s.nTotal + 1), t);
    hide Inv, InSection, LoopTop;
  }

  lemma RetireStep(s: State, t: nat)
    requires Inv(s) && Enabled(s, Retire(t))
    ensures Inv(Apply(s, Retire(t)).0)
  {
    RetireKeeps(s, t);
    TopKeeps(Retired(s, t), t);
    hide Inv, InSection, LoopTop, Retired;
  }

  lemma WakeStep(s: State, t: nat)
    requires Inv(s) && Enabled(s, Wake(t))
    ensures Inv(Apply(s, Wake(t)).0)
  {
    WakeKeeps(s, t);
    TopKeeps(Woken(s, t), t);
    hide Inv, InSection, LoopTop, Woken;
  }

  lemma QuitWakeKeeps(s: State)
    requires Inv(s) && Enabled(s, QuitWake)
    ensures Inv(Apply(s, QuitWake).0)
  {
    var s' := Apply(s, QuitWake).0;
    assert Counted(s', 0);
    forall u | 0 <= u < |s'.threads| ensures LocalInv(s', u) { assert LocalInv(s, u); }
  }

  /** Every step of every thread keeps the invariant. */
  lemma StepKeeps(s: State, e: Event)
    requires Inv(s) && Enabled(s, e)
    ensures Inv(Apply(s, e).0)
  {
    hide Inv, Enabled, Apply;
    match e
    case Call(t) => CallKeeps(s, t);
    case Lock(t) => LockStep(s, t);
    case Eval(t) => EvalKeeps(s, t);
    case Retire(t) => RetireStep(s, t);
    case Wake(t) => WakeStep(s, t);
    case Add(checks, woken) => AddKeeps(s, checks, woken);
    case Quit => QuitKeeps(s);
    case QuitWake => QuitWakeKeeps(s);
  }

  // ---- Adding wakes ----

  predicate Awake(l: Local) { l != Out && l != Waiting(false) }

  /** While work is queued and a worker waits, some thread is awake: it will come for the work. */
  ghost predicate WorkSeen(s: State) {
    s.queue != [] && (exists w :: MASTER < w < |s.threads| && s.threads[w].Waiting?) ==>
      exists t :: 0 <= t < |s.threads| && Awake(s.threads[t])
  }

  /** Adding several checks leaves no worker waiting without a notification, and adding one leaves one
      worker fewer so, if there was any. */
  lemma AddNotifies(s: State, checks: seq<Check>, woken: Option<nat>, w: nat)
    requires Enabled(s, Add(checks, woken)) && MASTER < w < |s.threads| && s.threads[w] == Waiting(false)
    ensures |checks| > 1 ==> Apply(s, Add(checks, woken)).0.threads[w] == Waiting(true)
    ensures |checks| == 1 ==>
      && woken.Some? && s.threads[woken.value] == Waiting(false)
      && Apply(s, Add(checks, woken)).0.threads == s.threads[woken.value := Waiting(true)]
  {
  }

  /** Every step of every thread keeps the work seen. */
  lemma StepSees(s: State, e: Event)
    requires Inv(s) && WorkSeen(s) && Enabled(s, e)
    ensures WorkSeen(Apply(s, e).0)
  {
    hide Inv, LoopTop;
    match e
    case Call(t) => MoveSees(s, t, Entering);
    case Lock(t) => TopSees(s.(nTotal := s.nTotal + 1), t);
    case Eval(t) => MoveSees(s, t, Evaluated(s.threads[t]));
    case Retire(t) => TopSees(Retired(s, t), t);
    case Wake(t) => TopSees(Woken(s, t), t);
    case Add(checks, woken) => AddSees(s, checks, woken);
    case Quit =>
    case QuitWake =>
  }

  lemma MoveSees(s: State, t: nat, l: Local)
    requires t < |s.threads| && Awake(l)
    ensures WorkSeen(s.(threads := s.threads[t := l]))
  {
    assert s.threads[t := l][t] == l;
  }

  /** A thread in a critical section takes work while there is any. */
  lemma TopSees(s: State, t: nat)
    requires t < |s.threads|
    ensures WorkSeen(LoopTop(s, t).0)
  {
    if s.queue != [] { assert Awake(LoopTop(s, t).0.threads[t]); }
  }

  lemma AddSees(s: State, checks: seq<Check>, woken: Option<nat>)
    requires WorkSeen(s) && Enabled(s, Add(checks, woken))
    ensures WorkSeen(Apply(s, Add(checks, woken)).0)
  {
    var s' := Apply(s, Add(checks, woken)).0;
    if checks == [] {
      assert s'.queue == s.queue && s'.threads == s.threads;
    } else if w :| MASTER < w < |s'.threads| && s'.threads[w].Waiting? {
      if s.threads[w] == Waiting(false) {
        AddNotifies(s, checks, woken, w);
        assert Awake(s'.threads[if |checks| == 1 then woken.value else w]);
      } else {
        assert Awake(s'.threads[w]);
      }
    }
  }

  /** The share of the queue is never divided by zero. */
  lemma DivisorPositive(s: State, t: nat)
    requires InSection(s, t)
    ensures s.nTotal + s.nIdle + 1 >= 2
  {
  }
}

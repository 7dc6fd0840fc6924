/** The verification queue neither gets stuck nor runs on without end. */
module CheckQueueProgress {
  import opened CheckQueue
  import opened CheckQueueSteps
  import opened CheckQueueRuns

  // ---- Progress ----

  /** A step a thread takes by itself, other than waking for no reason. */
  predicate Useful(s: State, e: Event) {
    match e
    case Lock(t) => true
    case Eval(t) => true
    case Retire(t) => true
    case Wake(t) => t < |s.threads| && s.threads[t] == Waiting(true)
    case QuitWake => s.quitter == Quitting(true)
    case _ => false
  }

  /** When no thread can usefully step, `Wait` has returned; if work is still queued, no thread is inside
      to do it; after `Quit`, every thread has left and `Quit` has returned. */
  lemma NeverStuck(s: State)
    requires Inv(s) && forall e :: Useful(s, e) ==> !Enabled(s, e)
    ensures s.threads[MASTER] == Out
    ensures WorkSeen(s) && s.queue != [] ==> forall t :: 0 <= t < |s.threads| ==> s.threads[t] == Out
    ensures s.fQuit ==> s.quitter == Gone && forall t :: 0 <= t < |s.threads| ==> s.threads[t] == Out
  {
    forall t | 0 <= t < |s.threads| ensures s.threads[t] == Out || s.threads[t] == Waiting(false) {
      StuckThread(s, t);
    }
    if s.threads[MASTER] == Waiting(false) { var w := NoLostWakeup(s); StuckThread(s, w); assert false; }
    if WorkSeen(s) && s.queue != [] {
      forall t | 0 <= t < |s.threads| ensures s.threads[t] == Out && !Awake(s.threads[t]) { }
    }
    if s.fQuit {
      forall t | 0 <= t < |s.threads| ensures s.threads[t] == Out { assert LocalInv(s, t); }
      NothingInside(s.threads);
      assert Useful(s, QuitWake) ==> !Enabled(s, QuitWake);
    }
  }

  /** Where a run has come to rest: all that was added is taken, unless every worker is outside. */
  lemma RestingRun(states: seq<State>, events: seq<Event>, i: nat)
    requires Run(states, events) && i < |states|
    requires forall e :: Useful(states[i], e) ==> !Enabled(states[i], e)
    ensures |states[i].threads| >= 1 && states[i].threads[MASTER] == Out
    ensures (exists t :: 0 <= t < |states[i].threads| && states[i].threads[t] != Out) ==>
      states[i].queue == [] && states[i].nTodo == 0
  {
    RunKeeps(states, events, i);
    NeverStuck(states[i]);
    if states[i].queue == [] { NothingHeld(states[i]); }
  }

  lemma NothingHeld(s: State)
    requires Inv(s) && s.queue == [] && forall e :: Useful(s, e) ==> !Enabled(s, e)
    ensures s.nTodo == 0
  {
    if Held(s.threads) != multiset{} {
      var t := SomeoneWorks(s.threads, |s.threads|);
      StuckThread(s, t);
    }
  }

  lemma StuckThread(s: State, t: nat)
    requires Inv(s) && t < |s.threads| && forall e :: Useful(s, e) ==> !Enabled(s, e)
    ensures s.threads[t] == Out || s.threads[t] == Waiting(false)
  {
    assert LocalInv(s, t);
    assert !Enabled(s, Lock(t)) && !Enabled(s, Eval(t)) && !Enabled(s, Retire(t));
    assert Useful(s, Wake(t)) ==> !Enabled(s, Wake(t));
  }

  function Weight(l: Local): nat {
    match l
    case Out => 0
    case Entering => 2
    case Waiting(notified) => if notified then 2 else 0
    case Working(batch, done, fOk) => 3 + if done <= |batch| then |batch| - done else 0
  }

  function Weights(threads: seq<Local>, n: nat): nat
    requires n <= |threads|
  {
    if n == 0 then 0 else Weights(threads, n - 1) + Weight(threads[n - 1])
  }

  /** How much the threads can still do before all is quiet. */
  function Work(s: State): nat {
    5 * |s.queue| + Weights(s.threads, |s.threads|) + if s.quitter == Quitting(true) then 1 else 0
  }

  lemma {:induction false} UpdateWeights(threads: seq<Local>, t: nat, l: Local, n: nat)
    requires t < |threads| && n <= |threads|
    ensures Weights(threads[t := l], n) == Weights(threads, n) + if t < n then Weight(l) - Weight(threads[t]) else 0
  {
    if n > 0 { UpdateWeights(threads, t, l, n - 1); }
  }

  /** From inside a critical section the thread ends lighter, even where it wakes the quitter. */
  lemma TopShrinks(s: State, t: nat)
    requires InSection(s, t)
    ensures Work(LoopTop(s, t).0) <= Work(s) - 1
    ensures s.queue != [] ==> Work(LoopTop(s, t).0) <= Work(s) - 3
    ensures s.quitter.Running? ==> Work(LoopTop(s, t).0) <= Work(s) - 2
  {
    assert s.threads[t] == Entering && (s.quitter.Running? <==> !s.fQuit) && s.nTotal >= 1;
    hide InSection, Counted, LocalInv, NowCount;
    UpdateWeights(s.threads, t, LoopTop(s, t).0.threads[t], |s.threads|);
  }

  /** Every useful step leaves strictly less to do, and no step of a thread leaves more. */
  lemma StepShrinks(s: State, e: Event)
    requires Inv(s) && Enabled(s, e) && (e.Lock? || e.Eval? || e.Retire? || e.Wake? || e.QuitWake?)
    ensures Work(Apply(s, e).0) <= Work(s)
    ensures Useful(s, e) ==> Work(Apply(s, e).0) < Work(s)
  {
    match e
    case Lock(t) =>
      LockKeeps(s, t);
      TopShrinks(s.(nTotal := s.nTotal + 1), t);
    case Eval(t) =>
      UpdateWeights(s.threads, t, Evaluated(s.threads[t]), |s.threads|);
    case Retire(t) => RetireShrinks(s, t);
    case Wake(t) => WakeShrinks(s, t);
    case QuitWake =>
  }

  lemma WakeShrinks(s: State, t: nat)
    requires Inv(s) && Enabled(s, Wake(t))
    ensures Work(Apply(s, Wake(t)).0) <= Work(s)
    ensures s.threads[t].notified ==> Work(Apply(s, Wake(t)).0) < Work(s)
  {
    UpdateWeights(s.threads, t, Entering, |s.threads|);
    WakeKeeps(s, t);
    assert LocalInv(s, t);
    assert Work(Woken(s, t)) == Work(s) + 2 - Weight(s.threads[t]);
    TopShrinks(Woken(s, t), t);
  }

  lemma RetireShrinks(s: State, t: nat)
    requires Inv(s) && Enabled(s, Retire(t))
    ensures Work(Apply(s, Retire(t)).0) < Work(s)
  {
    var entered := s.threads[t := Entering];
    UpdateWeights(s.threads, t, Entering, |s.threads|);
    if entered[MASTER] == Waiting(false) { UpdateWeights(entered, MASTER, Waiting(true), |entered|); }
    RetireKeeps(s, t);
    assert LocalInv(s, t);
    assert Work(Retired(s, t)) <= Work(s) + 1;
    TopShrinks(Retired(s, t), t);
  }

  /** Among steps of the threads themselves, only as many can be useful as there was work. */
  lemma {:induction false} QuietInTime(states: seq<State>, events: seq<Event>, useful: set<nat>)
    requires |states| == |events| + 1 && Inv(states[0])
    requires forall i :: 0 <= i < |events| ==> Steps(states[i], events[i], states[i + 1])
    requires forall i :: 0 <= i < |events| ==> !events[i].Call? && !events[i].Add? && !events[i].Quit?
    requires forall i :: i in useful ==> i < |events| && Useful(states[i], events[i])
    ensures Inv(states[|events|])
    ensures |useful| + Work(states[|events|]) <= Work(states[0])
  {
    hide Inv, Work, Enabled, Apply, Useful;
    if events == [] {
      assert useful == {};
    } else {
      var n := |events| - 1;
      QuietInTime(states[..n + 1], events[..n], useful - {n});
      assert Steps(states[n], events[n], states[n + 1]);
      StepShrinks(states[n], events[n]);
      StepKeeps(states[n], events[n]);
      if n in useful { assert useful == (useful - {n}) + {n}; } else { assert useful == useful - {n}; }
    }
  }
}

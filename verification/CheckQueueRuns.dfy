/** What every interleaving of the verification queue guarantees. */
module CheckQueueRuns {
  import opened CheckQueue
  import opened CheckQueueSteps

  // ---- Runs ----

  /** A run: any interleaving of steps from a fresh queue. */
  ghost predicate Run(states: seq<State>, events: seq<Event>) {
    && |states| == |events| + 1 && Init(states[0])
    && forall i :: 0 <= i < |events| ==> Steps(states[i], events[i], states[i + 1])
  }

  ghost predicate Steps(s: State, e: Event, s': State) { Enabled(s, e) && s' == Apply(s, e).0 }

  lemma {:induction false} RunKeeps(states: seq<State>, events: seq<Event>, i: nat)
    requires Run(states, events) && i < |states|
    ensures Inv(states[i]) && WorkSeen(states[i])
  {
    if i == 0 {
      InitKeeps(states[0]);
    } else {
      RunKeeps(states, events, i - 1);
      assert Steps(states[i - 1], events[i - 1], states[i]);
      StepKeeps(states[i - 1], events[i - 1]);
      StepSees(states[i - 1], events[i - 1]);
    }
  }

  /** Whenever `Wait` returns, it returns whether every check added in the round is good, and every
      one of them has been retired. */
  lemma RoundExact(states: seq<State>, events: seq<Event>, i: nat)
    requires Run(states, events) && i < |events|
    requires events[i] == Lock(MASTER) || events[i] == Retire(MASTER) || events[i] == Wake(MASTER)
    requires Enabled(states[i], events[i]) && Apply(states[i], events[i]).1.Some?
    ensures Apply(states[i], events[i]).1.value <==> AllOk(states[i].round)
    ensures states[i].queue == []
    ensures Apply(states[i], events[i]).0.round == multiset{} && Apply(states[i], events[i]).0.threads[MASTER] == Out
  {
    var s, e := states[i], events[i];
    RunKeeps(states, events, i);
    hide Inv, InSection, Run, LoopTop, AllOk;
    var s1 := if e.Lock? then s.(nTotal := s.nTotal + 1)
              else if e.Retire? then Retired(s, MASTER) else Woken(s, MASTER);
    assert InSection(s1, MASTER) by {
      if e.Lock? { LockKeeps(s, MASTER); } else if e.Retire? { RetireKeeps(s, MASTER); } else { WakeKeeps(s, MASTER); }
    }
    ReturnExact(s1);
  }

  /** The master leaves with nothing queued and nothing held, so all that was added is retired. */
  lemma ReturnExact(s: State)
    requires InSection(s, MASTER) && LoopTop(s, MASTER).1.Some?
    ensures (LoopTop(s, MASTER).1.value <==> AllOk(s.round)) && s.queue == []
    ensures LoopTop(s, MASTER).0.round == multiset{} && LoopTop(s, MASTER).0.threads[MASTER] == Out
  {
    assert Held(s.threads) == multiset{};
    assert s.round == s.retired;
  }

  // ---- No lost wakeups ----

  lemma {:induction false} SomeoneWorks(threads: seq<Local>, n: nat) returns (t: nat)
    requires n <= |threads| && HeldTo(threads, n) != multiset{}
    ensures t < |threads| && threads[t].Working?
  {
    t := n - 1;
    if !threads[t].Working? { t := SomeoneWorks(threads, n - 1); }
  }

  /** A master waiting without a pending notification always has a worker that will notify it: there
      is work left and a worker holds some of it. */
  lemma NoLostWakeup(s: State) returns (w: nat)
    requires Inv(s) && s.threads[MASTER] == Waiting(false)
    ensures s.nTodo > 0 && s.queue == []
    ensures MASTER < w < |s.threads| && s.threads[w].Working?
  {
    assert LocalInv(s, MASTER);
    assert |Held(s.threads)| > 0;
    w := SomeoneWorks(s.threads, |s.threads|);
  }

  lemma {:induction false} InsideIsIdle(threads: seq<Local>, n: nat)
    requires n <= |threads| && forall t :: 0 <= t < n ==> !threads[t].Working?
    ensures InsideTo(threads, n) == IdleTo(threads, n)
  {
    if n > 0 { InsideIsIdle(threads, n - 1); }
  }

  predicate IsIdle(s: State) { s.nTotal == s.nIdle && s.nTodo == 0 && s.fAllOk }

  /** The queue reports itself idle exactly when every check added in the round has been retired and
      all of them are good. */
  lemma IdleIff(s: State)
    requires Inv(s)
    ensures IsIdle(s) <==> s.round == s.retired && AllOk(s.round)
  {
    var q, h, r := multiset(s.queue), Held(s.threads), s.retired;
    assert |q + h + r| == |q| + |h| + |r|;
    assert |q| == |s.queue|;
    if s.nTodo == 0 {
      forall t | 0 <= t < |s.threads| ensures !s.threads[t].Working? {
        assert LocalInv(s, t);
        if s.threads[t].Working? { NoOneWorks(s.threads, t); }
      }
      InsideIsIdle(s.threads, |s.threads|);
    }
  }

  /** Between rounds it does, so a controller's assertion cannot fail. */
  lemma IdleBetweenRounds(s: State)
    requires Inv(s) && s.round == multiset{}
    ensures IsIdle(s)
  {
    var rest := multiset(s.queue) + Held(s.threads);
    assert s.retired == s.round by {
      assert |rest + s.retired| == |rest| + |s.retired|;
    }
    IdleIff(s);
  }
}

/** The verification queue: a master that adds checks and waits, workers that take batches, and a
    quit.  Every critical section of the source is one step; threads interleave freely, and a
    waiting thread may wake without being notified. */
module CheckQueue {
  import opened Collections

  /** A verification and the value its call operator returns. */
  datatype Check = Check(id: nat, ok: bool)

  /** Where a thread is in `Loop`. */
  datatype Local =
    | Out
    | Entering
    | Waiting(notified: bool)
    | Working(batch: seq<Check>, done: nat, fOk: bool)

  datatype Quitter = Running | Quitting(notified: bool) | Gone

  /** The queue's fields and the threads; thread 0 is the master.  `round` and `retired` record the
      checks added and finished since `Wait` last returned. */
  datatype State = State(
    queue: seq<Check>, nIdle: int, nTotal: int, fAllOk: bool, nTodo: int, fQuit: bool, nBatchSize: nat,
    threads: seq<Local>, quitter: Quitter, round: multiset<Check>, retired: multiset<Check>)

  const MASTER: nat := 0

  datatype Event =
    | Call(t: nat)
    | Lock(t: nat)
    | Eval(t: nat)
    | Retire(t: nat)
    | Wake(t: nat)
    | Add(checks: seq<Check>, woken: Option<nat>)
    | Quit
    | QuitWake

  ghost predicate Init(s: State) {
    && s == State([], 0, 0, true, 0, false, s.nBatchSize, s.threads, Running, multiset{}, multiset{})
    && |s.threads| >= 1 && forall t :: 0 <= t < |s.threads| ==> s.threads[t] == Out
  }

  ghost predicate AllOk(checks: multiset<Check>) { forall c :: c in checks ==> c.ok }

  // ---- One critical section ----

  lemma ShareBound(n: nat, d: int)
    requires d >= 1
    ensures 0 <= n / d <= n
  {
    assert n / d * d <= n;
  }

  /** How many checks to take: a share of the queue, at least one and at most a batch. */
  function NowCount(s: State): (n: nat)
    ensures 1 <= n && (s.queue != [] ==> n <= |s.queue|)
    ensures n <= s.nBatchSize || n == 1
  {
    // The divisor is never zero where this is reached: see DivisorPositive.
    var divisor := s.nTotal + s.nIdle + 1;
    var share := if divisor >= 1 then (ShareBound(|s.queue|, divisor); |s.queue| / divisor) else 0;
    var now := if s.nBatchSize < share then s.nBatchSize else share;
    if now < 1 then 1 else now
  }

  /** As many as the share of the queue that falls to one of all the threads, bounded by the batch size: no
      larger, and one more would be too many. */
  lemma NowShare(s: State)
    requires s.nTotal + s.nIdle >= 0
    ensures NowCount(s) > 1 ==> NowCount(s) <= s.nBatchSize && NowCount(s) * (s.nTotal + s.nIdle + 1) <= |s.queue|
    ensures NowCount(s) + 1 > s.nBatchSize || (NowCount(s) + 1) * (s.nTotal + s.nIdle + 1) > |s.queue|
  {
    var n, d := NowCount(s), s.nTotal + s.nIdle + 1;
    var q := |s.queue| / d;
    ShareIs(|s.queue|, d, q, n);
  }

  lemma ShareIs(size: nat, d: int, q: int, n: int)
    requires d >= 1 && q == size / d
    ensures n <= q ==> n * d <= size
    ensures n >= q ==> size < (n + 1) * d
  {
    assert q * d <= size < q * d + d;
    if n <= q { Factors(n, q, d); } else { Factors(q, n, d); }
  }

  lemma Factors(m: int, n: int, d: int)
    requires m <= n && d >= 1
    ensures m * d <= n * d && (n + 1) * d == n * d + d
  {
  }

  /** The last `n` checks, in the order they come off the stack. */
  function Batch(queue: seq<Check>, n: nat): (r: seq<Check>)
    requires n <= |queue|
    ensures |r| == n
  {
    seq(n, i requires 0 <= i < n => queue[|queue| - 1 - i])
  }

  /** From the top of the inner loop to the end of the critical section: take work, wait or return. */
  function LoopTop(s: State, t: nat): (State, Option<bool>)
    requires t < |s.threads|
  {
    if s.queue == [] then
      if (t == MASTER || s.fQuit) && s.nTodo == 0 then
        var nTotal := s.nTotal - 1;
        var s' := s.(nTotal := nTotal,
                     quitter := if nTotal == 0 && s.quitter.Quitting? then Quitting(true) else s.quitter,
                     fAllOk := if t == MASTER then true else s.fAllOk,
                     threads := s.threads[t := Out],
                     round := if t == MASTER then multiset{} else s.round,
                     retired := if t == MASTER then multiset{} else s.retired);
        (s', Some(s.fAllOk))
      else
        (s.(nIdle := s.nIdle + 1, threads := s.threads[t := Waiting(false)]), None)
    else
      var nNow := NowCount(s);
      (s.(queue := s.queue[..|s.queue| - nNow],
          threads := s.threads[t := Working(Batch(s.queue, nNow), 0, s.fAllOk)]), None)
  }

  function NotifyMaster(threads: seq<Local>): seq<Local> {
    if threads != [] && threads[MASTER] == Waiting(false) then threads[MASTER := Waiting(true)] else threads
  }

  function Notified(l: Local): Local { if l.Waiting? then Waiting(true) else l }

  function NotifyWorkers(threads: seq<Local>): (r: seq<Local>)
    ensures |r| == |threads|
  {
    seq(|threads|, t requires 0 <= t < |threads| => if t == MASTER then threads[t] else Notified(threads[t]))
  }

  ghost predicate Enabled(s: State, e: Event) {
    match e
    case Call(t) => t < |s.threads| && s.threads[t] == Out
    case Lock(t) => t < |s.threads| && s.threads[t] == Entering
    case Eval(t) => t < |s.threads| && s.threads[t].Working? && s.threads[t].done < |s.threads[t].batch|
    case Retire(t) => t < |s.threads| && s.threads[t].Working? && s.threads[t].done == |s.threads[t].batch|
    case Wake(t) => t < |s.threads| && s.threads[t].Waiting?
    case Add(checks, woken) =>
      && 0 < |s.threads| && s.threads[MASTER] == Out && !s.fQuit
      && (match woken
          case Some(w) => |checks| == 1 && MASTER < w < |s.threads| && s.threads[w] == Waiting(false)
          case None => |checks| != 1 || forall w :: MASTER < w < |s.threads| ==> s.threads[w] != Waiting(false))
    case Quit => 0 < |s.threads| && s.threads[MASTER] == Out && !s.fQuit && s.nTodo == 0
    case QuitWake => s.quitter.Quitting?
  }

  /** The next check of the batch, called only while none has failed. */
  function Evaluated(l: Local): Local
    requires l.Working? && l.done < |l.batch|
  {
    l.(done := l.done + 1, fOk := if l.fOk then l.batch[l.done].ok else l.fOk)
  }

  /** The critical section entered from the retiring of a batch. */
  function Retired(s: State, t: nat): State
    requires t < |s.threads| && s.threads[t].Working?
  {
    var l := s.threads[t];
    var nTodo := s.nTodo - |l.batch|;
    s.(fAllOk := s.fAllOk && l.fOk, nTodo := nTodo,
       threads := if nTodo == 0 && t != MASTER then NotifyMaster(s.threads[t := Entering])
                  else s.threads[t := Entering],
       retired := s.retired + multiset(l.batch))
  }

  function Woken(s: State, t: nat): State
    requires t < |s.threads|
  {
    s.(nIdle := s.nIdle - 1, threads := s.threads[t := Entering])
  }

  /** What an event does; the value is what `Loop` returns, when it does. */
  ghost function Apply(s: State, e: Event): (State, Option<bool>)
    requires Enabled(s, e)
  {
    match e
    case Call(t) => (s.(threads := s.threads[t := Entering]), None)
    case Lock(t) =>
      LoopTop(s.(nTotal := s.nTotal + 1), t)
    case Eval(t) =>
      (s.(threads := s.threads[t := Evaluated(s.threads[t])]), None)
    case Retire(t) =>
      LoopTop(Retired(s, t), t)
    case Wake(t) =>
      LoopTop(Woken(s, t), t)
    case Add(checks, woken) =>
      var threads := if |checks| == 1 then (if woken.Some? then s.threads[woken.value := Waiting(true)] else s.threads)
                     else if |checks| > 1 then NotifyWorkers(s.threads) else s.threads;
      (s.(queue := s.queue + checks, nTodo := s.nTodo + |checks|, threads := threads,
          round := s.round + multiset(checks)), None)
    case Quit =>
      (s.(fQuit := true, threads := NotifyWorkers(s.threads),
          quitter := if s.nTotal > 0 then Quitting(false) else Gone), None)
    case QuitWake =>
      (s.(quitter := if s.nTotal > 0 then Quitting(false) else Gone), None)
  }

  /** The checks added last are the first to be taken. */
  lemma NewestFirst(s: State, checks: seq<Check>, woken: Option<nat>, n: nat)
    requires Enabled(s, Add(checks, woken)) && n <= |checks|
    ensures
      var queue := Apply(s, Add(checks, woken)).0.queue;
      n <= |queue| && forall i :: 0 <= i < n ==> Batch(queue, n)[i] == checks[|checks| - 1 - i]
  {
  }

  /** Once a failure is on record, batches are taken with the flag down, and no check of theirs is called:
      the flag stays down whatever they would return. */
  lemma NoWorkAfterFailure(s: State, t: nat)
    requires t < |s.threads| && s.queue != [] && !s.fAllOk
    ensures
      var l := LoopTop(s, t).0.threads[t];
      && l.Working? && !l.fOk
      && (l.done < |l.batch| ==> !Evaluated(l).fOk)
      && forall ok: bool :: l.done < |l.batch| ==>
           Evaluated(l.(batch := l.batch[l.done := l.batch[l.done].(ok := ok)])).fOk == Evaluated(l).fOk
  {
  }

  // ---- Counting over threads ----

  // Each sum runs over the first `n` threads.

  function IdleTo(threads: seq<Local>, n: nat): nat
    requires n <= |threads|
  {
    if n == 0 then 0 else IdleTo(threads, n - 1) + IdleOf(threads[n - 1])
  }
  function IdleOf(l: Local): nat { if l.Waiting? then 1 else 0 }
  function Idle(threads: seq<Local>): nat { IdleTo(threads, |threads|) }

  function InsideTo(threads: seq<Local>, n: nat): nat
    requires n <= |threads|
  {
    if n == 0 then 0 else InsideTo(threads, n - 1) + InsideOf(threads[n - 1])
  }
  function InsideOf(l: Local): nat { if l.Waiting? || l.Working? then 1 else 0 }
  function Inside(threads: seq<Local>): nat { InsideTo(threads, |threads|) }

  function HeldTo(threads: seq<Local>, n: nat): multiset<Check>
    requires n <= |threads|
  {
    if n == 0 then multiset{} else HeldTo(threads, n - 1) + HeldOf(threads[n - 1])
  }
  function HeldOf(l: Local): multiset<Check> { if l.Working? then multiset(l.batch) else multiset{} }
  function Held(threads: seq<Local>): multiset<Check> { HeldTo(threads, |threads|) }

  lemma {:induction false} UpdateCounts(threads: seq<Local>, t: nat, l: Local, n: nat)
    requires t < |threads| && n <= |threads|
    ensures IdleTo(threads[t := l], n) == IdleTo(threads, n) + if t < n then IdleOf(l) - IdleOf(threads[t]) else 0
    ensures InsideTo(threads[t := l], n) ==
      InsideTo(threads, n) + if t < n then InsideOf(l) - InsideOf(threads[t]) else 0
  {
    if n > 0 { UpdateCounts(threads, t, l, n - 1); }
  }

  lemma Shift(a: multiset<Check>, b: multiset<Check>, c: multiset<Check>, d: multiset<Check>, x: multiset<Check>)
    requires a + b == c + d
    ensures (a + x) + b == (c + x) + d
  {
    assert (a + x) + b == (a + b) + x && (c + x) + d == (c + d) + x;
  }

  lemma Commute(a: multiset<Check>, b: multiset<Check>, c: multiset<Check>)
    ensures a + b + c == a + c + b
  {
  }

  lemma {:induction false} UpdateHeld(threads: seq<Local>, t: nat, l: Local, n: nat)
    requires t < |threads| && n <= |threads|
    ensures t < n ==> HeldTo(threads[t := l], n) + HeldOf(threads[t]) == HeldTo(threads, n) + HeldOf(l)
    ensures n <= t ==> HeldTo(threads[t := l], n) == HeldTo(threads, n)
  {
    hide HeldOf;
    if n > 0 {
      UpdateHeld(threads, t, l, n - 1);
      var before := HeldTo(threads, n - 1);
      if t < n - 1 {
        Shift(HeldTo(threads[t := l], n - 1), HeldOf(threads[t]), before, HeldOf(l), HeldOf(threads[n - 1]));
      } else if t == n - 1 {
        Commute(before, HeldOf(l), HeldOf(threads[t]));
      }
    }
  }

  lemma {:induction false} HeldPart(threads: seq<Local>, t: nat, n: nat)
    requires t < n <= |threads|
    ensures HeldOf(threads[t]) <= HeldTo(threads, n)
  {
    if t < n - 1 { HeldPart(threads, t, n - 1); }
  }

  lemma Cancel(a: multiset<Check>, b: multiset<Check>, m: multiset<Check>)
    requires a + m == b + m
    ensures a == b
  {
    forall c: Check ensures a[c] == b[c] { assert (a + m)[c] == (b + m)[c]; }
  }

  /** A thread moves without taking or giving up checks. */
  lemma Moved(threads: seq<Local>, t: nat, l: Local)
    requires t < |threads| && HeldOf(threads[t]) == HeldOf(l)
    ensures Idle(threads[t := l]) == Idle(threads) - IdleOf(threads[t]) + IdleOf(l)
    ensures Inside(threads[t := l]) == Inside(threads) - InsideOf(threads[t]) + InsideOf(l)
    ensures Held(threads[t := l]) == Held(threads)
  {
    UpdateCounts(threads, t, l, |threads|);
    UpdateHeld(threads, t, l, |threads|);
    Cancel(Held(threads[t := l]), Held(threads), HeldOf(l));
  }

  /** A thread outside takes a batch. */
  lemma Took(threads: seq<Local>, t: nat, l: Local)
    requires t < |threads| && !threads[t].Working? && !threads[t].Waiting? && l.Working?
    ensures Idle(threads[t := l]) == Idle(threads)
    ensures Inside(threads[t := l]) == Inside(threads) + 1
    ensures Held(threads[t := l]) == Held(threads) + multiset(l.batch)
    ensures |Held(threads[t := l])| == |Held(threads)| + |l.batch|
  {
    UpdateCounts(threads, t, l, |threads|);
    UpdateHeld(threads, t, l, |threads|);
    Cancel(Held(threads[t := l]), Held(threads) + multiset(l.batch), multiset{});
  }

  /** A thread gives up its finished batch. */
  lemma Gave(threads: seq<Local>, t: nat)
    requires t < |threads| && threads[t].Working?
    ensures Idle(threads[t := Entering]) == Idle(threads)
    ensures Inside(threads[t := Entering]) == Inside(threads) - 1
    ensures Held(threads) == Held(threads[t := Entering]) + multiset(threads[t].batch)
    ensures |Held(threads)| == |Held(threads[t := Entering])| + |threads[t].batch|
  {
    UpdateCounts(threads, t, Entering, |threads|);
    UpdateHeld(threads, t, Entering, |threads|);
    Cancel(Held(threads), Held(threads[t := Entering]) + multiset(threads[t].batch), multiset{});
  }

  // ---- The invariant ----

  /** What holds of one thread, given the shared fields it relies on. */
  ghost predicate LocalOk(l: Local, master: bool, noneQueued: bool, todo: bool, fQuit: bool, fAllOk: bool) {
    match l
    case Out => true
    case Entering => true
    case Waiting(notified) =>
      && (master ==> noneQueued && (!notified ==> todo))
      && (fQuit ==> !master && notified)
    case Working(batch, done, fOk) =>
      && batch != [] && done <= |batch| && !fQuit
      && (fOk ==> AllOk(multiset(batch[..done])))
      && (!fOk ==> !fAllOk || !AllOk(multiset(batch[..done])))
  }

  ghost predicate LocalInv(s: State, t: nat)
    requires t < |s.threads|
  {
    LocalOk(s.threads[t], t == MASTER, s.queue == [], s.nTodo > 0, s.fQuit, s.fAllOk)
  }

  /** The fields against the threads; `entered` counts the thread inside a critical section. */
  ghost predicate Counted(s: State, entered: nat) {
    && s.nIdle == Idle(s.threads)
    && s.nTotal == Inside(s.threads) + entered
    && s.nTodo == |s.queue| + |Held(s.threads)|
    && s.round == multiset(s.queue) + Held(s.threads) + s.retired
    && s.fAllOk == AllOk(s.retired)
    && (s.fQuit ==> s.nTodo == 0)
    && (s.quitter.Running? <==> !s.fQuit)
    && (s.quitter == Quitting(false) ==> s.nTotal > 0)
  }

  ghost predicate Inv(s: State) {
    && |s.threads| >= 1
    && Counted(s, 0)
    && forall t :: 0 <= t < |s.threads| ==> LocalInv(s, t)
  }

  /** In the middle of a critical section of thread `t`: counted in nTotal, holding nothing. */
  ghost predicate InSection(s: State, t: nat) {
    && t < |s.threads| && s.threads[t] == Entering
    && Counted(s, 1)
    && forall u :: 0 <= u < |s.threads| && u != t ==> LocalInv(s, u)
  }

  lemma InitKeeps(s: State)
    requires Init(s)
    ensures Inv(s)
  {
    NothingInside(s.threads);
  }

  lemma NothingInside(threads: seq<Local>)
    requires forall t :: 0 <= t < |threads| ==> threads[t] == Out
    ensures Idle(threads) == 0 && Inside(threads) == 0 && Held(threads) == multiset{}
  {
    NothingInsideTo(threads, |threads|);
  }

  lemma {:induction false} NothingInsideTo(threads: seq<Local>, n: nat)
    requires n <= |threads| && forall t :: 0 <= t < n ==> threads[t] == Out
    ensures IdleTo(threads, n) == 0 && InsideTo(threads, n) == 0 && HeldTo(threads, n) == multiset{}
  {
    if n > 0 { NothingInsideTo(threads, n - 1); }
  }

  lemma NoOneWorks(threads: seq<Local>, t: nat)
    requires Held(threads) == multiset{} && t < |threads| && threads[t].Working?
    ensures threads[t].batch == []
  {
    HeldPart(threads, t, |threads|);
    assert multiset(threads[t].batch) == multiset{};
    assert |threads[t].batch| == |multiset(threads[t].batch)|;
  }

  lemma AllOkSum(a: multiset<Check>, b: multiset<Check>)
    ensures AllOk(a + b) <==> AllOk(a) && AllOk(b)
  {
    if AllOk(a + b) {
      forall c | c in a ensures c.ok { assert c in a + b; }
      forall c | c in b ensures c.ok { assert c in a + b; }
    }
  }

  lemma BatchSplit(queue: seq<Check>, n: nat)
    requires n <= |queue|
    ensures multiset(queue) == multiset(queue[..|queue| - n]) + multiset(Batch(queue, n))
  {
    BatchReversed(queue[|queue| - n..], Batch(queue, n));
    assert queue == queue[..|queue| - n] + queue[|queue| - n..];
  }

  lemma {:induction false} BatchReversed(a: seq<Check>, b: seq<Check>)
    requires |a| == |b| && forall i :: 0 <= i < |a| ==> b[i] == a[|a| - 1 - i]
    ensures multiset(a) == multiset(b)
  {
    if a != [] {
      var n := |a| - 1;
      BatchReversed(a[..n], b[1..]);
      assert a == a[..n] + [a[n]] && b == [b[0]] + b[1..];
    }
  }

  lemma TopReturns(s: State, t: nat)
    requires InSection(s, t) && s.queue == [] && (t == MASTER || s.fQuit) && s.nTodo == 0
    ensures Inv(LoopTop(s, t).0)
  {
    var s' := LoopTop(s, t).0;
    Moved(s.threads, t, Out);
    assert Held(s.threads) == multiset{};
    assert Counted(s', 0);
    forall u | 0 <= u < |s'.threads| ensures LocalInv(s', u) {
      if u != t {
        assert LocalInv(s, u);
        if s.threads[u].Working? { NoOneWorks(s.threads, u); }
      }
    }
  }

  lemma TopWaits(s: State, t: nat)
    requires InSection(s, t) && s.queue == [] && !((t == MASTER || s.fQuit) && s.nTodo == 0)
    ensures Inv(LoopTop(s, t).0)
  {
    var s' := LoopTop(s, t).0;
    Moved(s.threads, t, Waiting(false));
    assert Counted(s', 0);
    forall u | 0 <= u < |s'.threads| ensures LocalInv(s', u) {
      if u != t { assert LocalInv(s, u); }
    }
  }

  lemma TopTakes(s: State, t: nat)
    requires InSection(s, t) && s.queue != []
    ensures Inv(LoopTop(s, t).0)
  {
    var s' := LoopTop(s, t).0;
    var n := NowCount(s);
    var batch := Batch(s.queue, n);
    Took(s.threads, t, Working(batch, 0, s.fAllOk));
    BatchSplit(s.queue, n);
    assert s'.round == multiset(s'.queue) + Held(s'.threads) + s'.retired;
    assert Counted(s', 0);
    forall u | 0 <= u < |s'.threads| ensures LocalInv(s', u) {
      if u != t { assert LocalInv(s, u); }
      else { assert batch[..0] == []; }
    }
  }

  lemma TopKeeps(s: State, t: nat)
    requires InSection(s, t)
    ensures Inv(LoopTop(s, t).0)
  {
    if s.queue != [] { TopTakes(s, t); }
    else if (t == MASTER || s.fQuit) && s.nTodo == 0 { TopReturns(s, t); }
    else { TopWaits(s, t); }
  }

  lemma NotifyMasterCounts(threads: seq<Local>)
    ensures Idle(NotifyMaster(threads)) == Idle(threads) && Inside(NotifyMaster(threads)) == Inside(threads)
    ensures Held(NotifyMaster(threads)) == Held(threads)
  {
    if threads != [] && threads[MASTER] == Waiting(false) { Moved(threads, MASTER, Waiting(true)); }
  }
}

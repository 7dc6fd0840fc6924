/** The loops of the verification queue: taking a batch inside the critical section, and executing it
    outside. */
module CheckQueueLoops {
  import opened CheckQueue

  /** Moving checks one by one off the back of the queue. */
  method TakeBatch(queue: seq<Check>, nNow: nat) returns (rest: seq<Check>, vChecks: seq<Check>)
    requires nNow <= |queue|
    ensures rest == queue[..|queue| - nNow] && vChecks == Batch(queue, nNow)
  {
    rest, vChecks := queue, [];
    for i := 0 to nNow
      invariant rest == queue[..|queue| - i] && vChecks == Batch(queue, i)
    {
      vChecks := vChecks + [rest[|rest| - 1]];
      rest := rest[..|rest| - 1];
    }
  }

  /** Executing a batch evaluates its checks up to the first failure. */
  method Execute(vChecks: seq<Check>, fAllOk: bool) returns (fOk: bool)
    ensures fOk <==> fAllOk && AllOk(multiset(vChecks))
  {
    fOk := fAllOk;
    for i := 0 to |vChecks|
      invariant fOk <==> fAllOk && forall j :: 0 <= j < i ==> vChecks[j].ok
    {
      if fOk { fOk := vChecks[i].ok; }
    }
    assert forall j :: 0 <= j < |vChecks| ==> vChecks[j] in multiset(vChecks);
  }
}

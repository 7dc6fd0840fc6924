/** Choosing the transactions of a new block: a priority queue of those ready to go in, and orphans
    waiting for the pool transactions they spend. */
module BlockAssembly {
  import opened Collections

  const COIN: int := 1000000
  const MAX_BLOCK_SIZE: nat := 1000000
  const MAX_BLOCK_SIGOPS: nat := MAX_BLOCK_SIZE / 50
  const BLOCK_SIZE_BASE: nat := 1000
  const BLOCK_SIGOPS_BASE: nat := 100

  type Txid = nat

  /** An input, and whether the output it spends is found in the chain. */
  datatype Input = Input(prev: Txid, onDisk: bool)

  /** A pool transaction; one that is a coinbase or a coinstake or not final is left aside. */
  datatype Tx = Tx(inputs: seq<Input>, aside: bool, size: nat, legacySigOps: nat, priority: real, feePerKb: real)

  type Pool = map<Txid, Tx>

  /** What connecting a transaction on top of those already added comes to. */
  datatype Outcome = Outcome(late: bool, fetched: bool, fee: int, minFee: int, p2shSigOps: nat, connected: bool)

  /** Given what was added and a transaction, the outcome of connecting it. */
  type Oracle = (seq<Txid>, Txid) -> Outcome

  datatype Limits = Limits(maxSize: nat, prioritySize: nat, minSize: nat, minTxFee: int)

  function Min(a: nat, b: nat): nat { if a < b then a else b }

  /** The limits from the settings, kept sane. */
  function LimitsFrom(maxSize: nat, prioritySize: nat, minSize: nat, minTxFee: int): (r: Limits)
    ensures 1000 <= r.maxSize <= 999000 && (r.maxSize == maxSize <==> 1000 <= maxSize <= 999000)
    ensures (maxSize < 1000 ==> r.maxSize == 1000) && (maxSize > 999000 ==> r.maxSize == 999000)
    ensures r.prioritySize == if prioritySize <= r.maxSize then prioritySize else r.maxSize
    ensures r.minSize == if minSize <= r.maxSize then minSize else r.maxSize
    ensures r.minTxFee == minTxFee
  {
    var low := Min(MAX_BLOCK_SIZE - 1000, maxSize);
    var most := if low < 1000 then 1000 else low;
    Limits(most, Min(most, prioritySize), Min(most, minSize), minTxFee)
  }

  /** Every input is found in the chain or spends another pool transaction. */
  ghost predicate Closed(pool: Pool) {
    forall id, i :: id in pool && 0 <= i < |pool[id].inputs| ==>
      pool[id].inputs[i].onDisk || pool[id].inputs[i].prev in pool
  }

  predicate Candidate(pool: Pool, id: Txid) { id in pool && !pool[id].aside }

  /** The pool transactions a transaction has to come after. */
  ghost function Waits(pool: Pool, id: Txid): set<Txid>
    requires id in pool
  {
    WaitsOn(pool[id].inputs)
  }

  function WaitsOn(inputs: seq<Input>): set<Txid> {
    if inputs == [] then {}
    else
      var n := |inputs| - 1;
      WaitsOn(inputs[..n]) + if inputs[n].onDisk then {} else {inputs[n].prev}
  }

  lemma {:induction false} WaitsOnEach(inputs: seq<Input>, i: nat)
    requires i < |inputs| && !inputs[i].onDisk
    ensures inputs[i].prev in WaitsOn(inputs)
  {
    if i < |inputs| - 1 { WaitsOnEach(inputs[..|inputs| - 1], i); }
  }

  // ---- The order of the queue ----

  /** Whether `a` comes after `b`, by fee and then priority or the other way round. */
  predicate Below(pool: Pool, byFee: bool, a: Txid, b: Txid)
    requires a in pool && b in pool
  {
    var x, y := pool[a], pool[b];
    if byFee then (if x.feePerKb == y.feePerKb then x.priority < y.priority else x.feePerKb < y.feePerKb)
    else if x.priority == y.priority then x.feePerKb < y.feePerKb
    else x.priority < y.priority
  }

  /** `k` is the place of an element that none in the queue comes before. */
  predicate IsFront(pool: Pool, byFee: bool, queue: seq<Txid>, k: nat)
    requires forall i :: 0 <= i < |queue| ==> queue[i] in pool
  {
    k < |queue| && forall i :: 0 <= i < |queue| ==> !Below(pool, byFee, queue[k], queue[i])
  }

  lemma {:induction false} HasFront(pool: Pool, byFee: bool, queue: seq<Txid>) returns (k: nat)
    requires queue != [] && forall i :: 0 <= i < |queue| ==> queue[i] in pool
    ensures IsFront(pool, byFee, queue, k)
  {
    k := 0;
    var n := |queue| - 1;
    if n > 0 {
      k := HasFront(pool, byFee, queue[..n]);
      assert forall i :: 0 <= i < n ==> !Below(pool, byFee, queue[..n][k], queue[..n][i]);
      if Below(pool, byFee, queue[k], queue[n]) {
        forall i | 0 <= i < |queue| ensures !Below(pool, byFee, queue[n], queue[i]) {
          if i < n { assert queue[..n][i] == queue[i]; }
        }
        k := n;
      }
    }
  }

  // ---- Who is where ----

  /** Ready transactions are in the queue or were taken from it, each once, and are exactly those whose
      pool parents have all been added; the others still wait for the rest of theirs. */
  ghost predicate Sorted(pool: Pool, queue: seq<Txid>, taken: set<Txid>, dependsOn: map<Txid, set<Txid>>,
                         added: set<Txid>)
  {
    && NoDup(queue)
    && (forall i :: 0 <= i < |queue| ==> Candidate(pool, queue[i]) && queue[i] !in taken)
    && (forall id :: id in taken ==> Candidate(pool, id))
    && (forall id :: Candidate(pool, id) ==> Placed(pool, queue, taken, dependsOn, added, id))
  }

  ghost predicate Placed(pool: Pool, queue: seq<Txid>, taken: set<Txid>, dependsOn: map<Txid, set<Txid>>,
                         added: set<Txid>, id: Txid)
    requires Candidate(pool, id)
  {
    && (id in queue || id in taken <==> Waits(pool, id) <= added)
    && (id in dependsOn <==> Waits(pool, id) != {})
    && (id in dependsOn ==> dependsOn[id] == Waits(pool, id) - added)
  }

  /** Under each transaction, those that wait for it. */
  ghost predicate Listed(pool: Pool, mapDependers: map<Txid, seq<Txid>>) {
    && (forall h, k :: h in mapDependers && 0 <= k < |mapDependers[h]| ==>
          Candidate(pool, mapDependers[h][k]) && h in Waits(pool, mapDependers[h][k]))
    && forall id, h :: Candidate(pool, id) && h in Waits(pool, id) ==> h in mapDependers && id in mapDependers[h]
  }

  // ---- The sums ----

  function Sizes(pool: Pool, added: seq<Txid>, n: nat): nat
    requires n <= |added| && forall i :: 0 <= i < |added| ==> added[i] in pool
  {
    if n == 0 then 0 else Sizes(pool, added, n - 1) + pool[added[n - 1]].size
  }

  function Fees(oracle: Oracle, added: seq<Txid>, n: nat): int
    requires n <= |added|
  {
    if n == 0 then 0 else Fees(oracle, added, n - 1) + oracle(added[..n - 1], added[n - 1]).fee
  }

  function SigOps(pool: Pool, oracle: Oracle, added: seq<Txid>, n: nat): nat
    requires n <= |added| && forall i :: 0 <= i < |added| ==> added[i] in pool
  {
    if n == 0 then 0
    else
      SigOps(pool, oracle, added, n - 1) + pool[added[n - 1]].legacySigOps
      + oracle(added[..n - 1], added[n - 1]).p2shSigOps
  }

  lemma {:induction false} SumsPrefix(pool: Pool, oracle: Oracle, added: seq<Txid>, id: Txid, n: nat)
    requires n <= |added| && id in pool && forall i :: 0 <= i < |added| ==> added[i] in pool
    ensures Sizes(pool, added + [id], n) == Sizes(pool, added, n)
    ensures Fees(oracle, added + [id], n) == Fees(oracle, added, n)
    ensures SigOps(pool, oracle, added + [id], n) == SigOps(pool, oracle, added, n)
  {
    if n > 0 {
      SumsPrefix(pool, oracle, added, id, n - 1);
      assert (added + [id])[..n - 1] == added[..n - 1];
    }
  }

  /** One more transaction in each sum. */
  lemma SumsStep(pool: Pool, oracle: Oracle, added: seq<Txid>, id: Txid)
    requires id in pool && forall i :: 0 <= i < |added| ==> added[i] in pool
    ensures Sizes(pool, added + [id], |added| + 1) == Sizes(pool, added, |added|) + pool[id].size
    ensures Fees(oracle, added + [id], |added| + 1) == Fees(oracle, added, |added|) + oracle(added, id).fee
    ensures SigOps(pool, oracle, added + [id], |added| + 1) ==
      SigOps(pool, oracle, added, |added|) + pool[id].legacySigOps + oracle(added, id).p2shSigOps
  {
    SumsPrefix(pool, oracle, added, id, |added|);
    assert (added + [id])[..|added|] == added;
  }

  // ---- Acceptance ----

  const PRIORITY_THRESHOLD: real := (COIN * 144 / 250) as real

  /** The size, signature, time and free-transaction rules, on top of the transactions `added`. */
  predicate Fits(pool: Pool, oracle: Oracle, limits: Limits, added: seq<Txid>, byFee: bool, id: Txid)
    requires id in pool && forall i :: 0 <= i < |added| ==> added[i] in pool
  {
    var tx, size := pool[id], BLOCK_SIZE_BASE + Sizes(pool, added, |added|) + pool[id].size;
    && size < limits.maxSize
    && BLOCK_SIGOPS_BASE + SigOps(pool, oracle, added, |added|) + tx.legacySigOps < MAX_BLOCK_SIGOPS
    && !oracle(added, id).late
    && !(byFee && tx.feePerKb < limits.minTxFee as real && size >= limits.minSize)
  }

  /** Everything it takes to go into the block. */
  predicate Accepts(pool: Pool, oracle: Oracle, limits: Limits, added: seq<Txid>, byFee: bool, id: Txid)
    requires id in pool && forall i :: 0 <= i < |added| ==> added[i] in pool
  {
    var tx, out := pool[id], oracle(added, id);
    && Fits(pool, oracle, limits, added, byFee, id)
    && out.fetched && out.fee >= out.minFee && out.connected
    && BLOCK_SIGOPS_BASE + SigOps(pool, oracle, added, |added|) + tx.legacySigOps + out.p2shSigOps < MAX_BLOCK_SIGOPS
  }

  ghost predicate InPool(pool: Pool, added: seq<Txid>) { forall i :: 0 <= i < |added| ==> added[i] in pool }

  // ---- The assembly as a run of turns ----

  /** How far the assembly has come: the block, whether the order is by fee, and what was taken. */
  datatype Progress = Progress(vtx: seq<Txid>, byFee: bool, taken: set<Txid>)

  /** Not taken yet, and all its pool parents are in the block. */
  ghost predicate Ready(pool: Pool, s: Progress, id: Txid) {
    Candidate(pool, id) && id !in s.taken && Waits(pool, id) <= SetOf(s.vtx)
  }

  /** A transaction whose turn it may be: ready, and no ready one comes before it in the order in force. */
  ghost predicate Next(pool: Pool, s: Progress, id: Txid) {
    Ready(pool, s, id) && forall other :: Ready(pool, s, other) ==> !Below(pool, s.byFee, id, other)
  }

  /** Whether the priority part of the block is over with a transaction that fits. */
  predicate Switches(pool: Pool, oracle: Oracle, limits: Limits, added: seq<Txid>, byFee: bool, id: Txid)
    requires id in pool && forall i :: 0 <= i < |added| ==> added[i] in pool
  {
    && Fits(pool, oracle, limits, added, byFee, id)
    && (BLOCK_SIZE_BASE + Sizes(pool, added, |added|) + pool[id].size >= limits.prioritySize
        || pool[id].priority < PRIORITY_THRESHOLD)
  }

  function After(pool: Pool, oracle: Oracle, limits: Limits, s: Progress, id: Txid): (r: Progress)
    requires id in pool && forall i :: 0 <= i < |s.vtx| ==> s.vtx[i] in pool
    ensures forall i :: 0 <= i < |r.vtx| ==> r.vtx[i] in pool
  {
    Progress(
      if Accepts(pool, oracle, limits, s.vtx, s.byFee, id) then s.vtx + [id] else s.vtx,
      s.byFee || Switches(pool, oracle, limits, s.vtx, s.byFee, id),
      s.taken + {id})
  }

  /** What the turns of the given transactions come to. */
  ghost function Reached(pool: Pool, oracle: Oracle, limits: Limits, turns: seq<Txid>): (r: Progress)
    requires InPool(pool, turns)
    ensures InPool(pool, r.vtx)
  {
    if turns == [] then Progress([], limits.prioritySize == 0, {})
    else
      var n := |turns| - 1;
      After(pool, oracle, limits, Reached(pool, oracle, limits, turns[..n]), turns[n])
  }

  /** Each turn was that of a transaction that might be next. */
  ghost predicate Lawful(pool: Pool, oracle: Oracle, limits: Limits, turns: seq<Txid>) {
    && InPool(pool, turns)
    && forall k :: 0 <= k < |turns| ==> Next(pool, Reached(pool, oracle, limits, turns[..k]), turns[k])
  }

  lemma OneMoreTurn(pool: Pool, oracle: Oracle, limits: Limits, turns: seq<Txid>, id: Txid)
    requires Lawful(pool, oracle, limits, turns) && Next(pool, Reached(pool, oracle, limits, turns), id)
    ensures Lawful(pool, oracle, limits, turns + [id])
    ensures Reached(pool, oracle, limits, turns + [id]) ==
      After(pool, oracle, limits, Reached(pool, oracle, limits, turns), id)
  {
    assert id in pool;
    hide Next, After;
    var more := turns + [id];
    assert more[..|turns|] == turns;
    forall k | 0 <= k < |more| ensures Next(pool, Reached(pool, oracle, limits, more[..k]), more[k]) {
      if k < |turns| { assert more[..k] == turns[..k] && more[k] == turns[k]; } else { assert more[k] == id; }
    }
  }

  /** The last of the turns. */
  lemma LastTurn(pool: Pool, oracle: Oracle, limits: Limits, turns: seq<Txid>)
    requires Lawful(pool, oracle, limits, turns) && turns != []
    ensures InPool(pool, turns) && Lawful(pool, oracle, limits, turns[..|turns| - 1])
    ensures
      var last, id := Reached(pool, oracle, limits, turns[..|turns| - 1]), turns[|turns| - 1];
      && id !in last.taken
      && Reached(pool, oracle, limits, turns) == After(pool, oracle, limits, last, id)
  {
    hide After;
    var n := |turns| - 1;
    assert Next(pool, Reached(pool, oracle, limits, turns[..n]), turns[n]);
    LawfulPrefix(pool, oracle, limits, turns, n);
  }

  lemma LawfulPrefix(pool: Pool, oracle: Oracle, limits: Limits, turns: seq<Txid>, n: nat)
    requires Lawful(pool, oracle, limits, turns) && n <= |turns|
    ensures Lawful(pool, oracle, limits, turns[..n])
  {
    hide Next, Reached;
    forall k | 0 <= k < n ensures Next(pool, Reached(pool, oracle, limits, turns[..n][..k]), turns[..n][k]) {
      assert turns[..n][..k] == turns[..k] && turns[..n][k] == turns[k];
    }
  }

  /** The order of the turns in fees and priorities: by fee, no ready transaction pays more per size than
      the one whose turn it is, nor as much at a higher priority; by priority, the other way round. */
  lemma TurnOrder(pool: Pool, oracle: Oracle, limits: Limits, turns: seq<Txid>, k: nat, other: Txid)
    requires Lawful(pool, oracle, limits, turns) && k < |turns|
    requires Ready(pool, Reached(pool, oracle, limits, turns[..k]), other)
    ensures
      var x, y := pool[turns[k]], pool[other];
      if Reached(pool, oracle, limits, turns[..k]).byFee
      then y.feePerKb <= x.feePerKb && (y.feePerKb == x.feePerKb ==> y.priority <= x.priority)
      else y.priority <= x.priority && (y.priority == x.priority ==> y.feePerKb <= x.feePerKb)
  {
    hide Reached, Ready;
    assert Next(pool, Reached(pool, oracle, limits, turns[..k]), turns[k]);
  }

  lemma {:induction false} BlockTaken(pool: Pool, oracle: Oracle, limits: Limits, turns: seq<Txid>, id: Txid)
    requires InPool(pool, turns) && id in Reached(pool, oracle, limits, turns).vtx
    ensures id in Reached(pool, oracle, limits, turns).taken
  {
    hide Accepts, Switches;
    if turns != [] {
      var n := |turns| - 1;
      if id in Reached(pool, oracle, limits, turns[..n]).vtx { BlockTaken(pool, oracle, limits, turns[..n], id); }
    }
  }

  /** A turn decides for good: the transaction is in the finished block exactly if it was accepted, in the
      order then in force, on top of what the block then was; and an order by fee stays one. */
  lemma {:induction false} TurnDecides(pool: Pool, oracle: Oracle, limits: Limits, turns: seq<Txid>, k: nat)
    requires Lawful(pool, oracle, limits, turns) && k < |turns|
    ensures
      var before, end := Reached(pool, oracle, limits, turns[..k]), Reached(pool, oracle, limits, turns);
      && before.vtx <= end.vtx && (before.byFee ==> end.byFee)
      && (turns[k] in end.vtx <==> Accepts(pool, oracle, limits, before.vtx, before.byFee, turns[k]))
      && turns[k] in end.taken
  {
    hide Accepts, Switches, Lawful, Reached;
    LastTurn(pool, oracle, limits, turns);
    var n := |turns| - 1;
    var last := Reached(pool, oracle, limits, turns[..n]);
    if k < n {
      TurnDecides(pool, oracle, limits, turns[..n], k);
      assert turns[..n][..k] == turns[..k] && turns[..n][k] == turns[k];
    } else if turns[n] in last.vtx {
      BlockTaken(pool, oracle, limits, turns[..n], turns[n]);
    }
  }

  /** Every transaction of the block went in at its turn, accepted on top of exactly those before it. */
  lemma {:induction false} TurnOf(pool: Pool, oracle: Oracle, limits: Limits, turns: seq<Txid>, i: nat) returns (k: nat)
    requires InPool(pool, turns) && i < |Reached(pool, oracle, limits, turns).vtx|
    ensures k < |turns| && turns[k] == Reached(pool, oracle, limits, turns).vtx[i]
    ensures
      var before := Reached(pool, oracle, limits, turns[..k]);
      && before.vtx == Reached(pool, oracle, limits, turns).vtx[..i]
      && Accepts(pool, oracle, limits, before.vtx, before.byFee, turns[k])
  {
    hide Accepts, Switches;
    k := |turns| - 1;
    var last := Reached(pool, oracle, limits, turns[..k]);
    if i < |last.vtx| {
      var n := k;
      k := TurnOf(pool, oracle, limits, turns[..n], i);
      assert turns[..n][..k] == turns[..k] && turns[..n][k] == turns[k];
    }
  }

  lemma {:induction false} ByFeeThroughout(pool: Pool, oracle: Oracle, limits: Limits, turns: seq<Txid>)
    requires InPool(pool, turns) && limits.prioritySize == 0
    ensures Reached(pool, oracle, limits, turns).byFee
  {
    hide Accepts, Switches;
    if turns != [] { ByFeeThroughout(pool, oracle, limits, turns[..|turns| - 1]); }
  }

  /** Without a priority part, a transaction paying less than the least fee is in the block only where it
      leaves the block below the least size. */
  lemma FreeOnlyEarly(pool: Pool, oracle: Oracle, limits: Limits, turns: seq<Txid>, i: nat)
    requires InPool(pool, turns) && limits.prioritySize == 0 && i < |Reached(pool, oracle, limits, turns).vtx|
    ensures
      var vtx := Reached(pool, oracle, limits, turns).vtx;
      pool[vtx[i]].feePerKb >= limits.minTxFee as real
      || BLOCK_SIZE_BASE + Sizes(pool, vtx[..i], i) + pool[vtx[i]].size < limits.minSize
  {
    hide Reached;
    var k := TurnOf(pool, oracle, limits, turns, i);
    ByFeeThroughout(pool, oracle, limits, turns[..k]);
  }

  lemma FewerLeft(pool: Pool, queue: seq<Txid>, been: set<Txid>, dependsOn: map<Txid, set<Txid>>, added: set<Txid>,
                  id: Txid)
    requires Sorted(pool, queue, been + {id}, dependsOn, added) && id !in been
    ensures |pool.Keys - (been + {id})| < |pool.Keys - been|
  {
    assert Candidate(pool, id);
    assert pool.Keys - been == pool.Keys - (been + {id}) + {id};
  }

  // ---- The assembly ----

  class Assembly {
    const pool: Pool
    const oracle: Oracle
    const limits: Limits
    var vecPriority: seq<Txid>
    var setDependsOn: map<Txid, set<Txid>>
    var mapDependers: map<Txid, seq<Txid>>
    var fSortedByFee: bool
    var vtx: seq<Txid>
    var nBlockSize: nat
    var nBlockTx: nat
    var nBlockSigOps: nat
    var nFees: int
    ghost var taken: set<Txid>
    ghost var turns: seq<Txid>

    constructor (pool: Pool, oracle: Oracle, limits: Limits)
      requires Closed(pool) && 1000 <= limits.maxSize
      ensures this.pool == pool && this.oracle == oracle && this.limits == limits
      ensures vecPriority == [] && setDependsOn == map[] && mapDependers == map[] && taken == {}
      ensures fSortedByFee == (limits.prioritySize == 0) && Totals() && vtx == [] && turns == []
    {
      this.pool, this.oracle, this.limits := pool, oracle, limits;
      vecPriority, setDependsOn, mapDependers, taken, turns := [], map[], map[], {}, [];
      fSortedByFee := limits.prioritySize == 0;
      vtx, nBlockSize, nBlockTx, nBlockSigOps, nFees := [], BLOCK_SIZE_BASE, 0, BLOCK_SIGOPS_BASE, 0;
    }

    /** Sizes, signature operations and fees are exact, and inside the limits; nothing is in twice; and
        everything comes after the pool transactions it spends. */
    ghost predicate Totals()
      reads `vtx, `nBlockSize, `nBlockTx, `nBlockSigOps, `nFees
    {
      && NoDup(vtx) && (forall i :: 0 <= i < |vtx| ==> Candidate(pool, vtx[i]))
      && nBlockTx == |vtx|
      && nBlockSize == BLOCK_SIZE_BASE + Sizes(pool, vtx, |vtx|)
      && nBlockSigOps == BLOCK_SIGOPS_BASE + SigOps(pool, oracle, vtx, |vtx|)
      && nFees == Fees(oracle, vtx, |vtx|)
      && (vtx != [] ==> nBlockSize < limits.maxSize) && nBlockSigOps < MAX_BLOCK_SIGOPS
      && forall i :: 0 <= i < |vtx| ==> Waits(pool, vtx[i]) <= SetOf(vtx[..i])
    }

    ghost predicate Valid()
      reads this
    {
      && Totals()
      && Sorted(pool, vecPriority, taken, setDependsOn, SetOf(vtx))
      && Listed(pool, mapDependers)
      && SetOf(vtx) <= taken
    }

    /** Sorts the pool into ready transactions and orphans, in the order of the pool. */
    method Collect(order: seq<Txid>)
      requires Closed(pool) && NoDup(order) && forall id :: id in order <==> id in pool
      requires vecPriority == [] && setDependsOn == map[] && mapDependers == map[]
      requires vtx == [] && taken == {} && Totals()
      modifies this`vecPriority, this`setDependsOn, this`mapDependers
      ensures Valid()
    {
      assert Gathered(pool, vecPriority, setDependsOn, mapDependers, order[..0]);
      hide Gathered, Sorted, Listed, Totals;
      for i := 0 to |order|
        invariant Gathered(pool, vecPriority, setDependsOn, mapDependers, order[..i])
      {
        assert order[..i + 1] == order[..i] + [order[i]];
        CollectOne(order[i], order[..i]);
      }
      assert order[..|order|] == order && vtx == [];
      GatheredAll(pool, vecPriority, setDependsOn, mapDependers, order);
    }

    /** One transaction of the pool. */
    method CollectOne(id: Txid, ghost done: seq<Txid>)
      requires Closed(pool) && id in pool && id !in done
      requires Gathered(pool, vecPriority, setDependsOn, mapDependers, done)
      modifies this`vecPriority, this`setDependsOn, this`mapDependers
      ensures Gathered(pool, vecPriority, setDependsOn, mapDependers, done + [id])
    {
      hide Gathered, Listing, Closed;
      if !pool[id].aside {
        ghost var queue, depends, dependers := vecPriority, setDependsOn, mapDependers;
        GatheredLists(pool, queue, depends, dependers, done);
        var orphan := CollectInputs(id, done);
        if !orphan { vecPriority := vecPriority + [id]; }
        GatherStep(pool, queue, depends, dependers, done, id, orphan, vecPriority, setDependsOn, mapDependers);
      } else {
        GatherSkip(pool, vecPriority, setDependsOn, mapDependers, done, id);
      }
    }

    /** Goes through the inputs of one transaction. */
    method CollectInputs(id: Txid, ghost done: seq<Txid>) returns (orphan: bool)
      requires Closed(pool) && Candidate(pool, id) && id !in setDependsOn && Listing(pool, done, mapDependers)
      modifies this`setDependsOn, this`mapDependers
      ensures orphan <==> Waits(pool, id) != {}
      ensures setDependsOn == if orphan then old(setDependsOn)[id := Waits(pool, id)] else old(setDependsOn)
      ensures Listing(pool, done + [id], mapDependers)
    {
      hide Listing;
      var inputs := pool[id].inputs;
      orphan := false;
      ghost var depends := setDependsOn;
      for k := 0 to |inputs|
        invariant orphan <==> WaitsOn(inputs[..k]) != {}
        invariant setDependsOn == if orphan then depends[id := WaitsOn(inputs[..k])] else depends
        invariant Listing(pool, done, mapDependers)
        invariant forall h :: h in WaitsOn(inputs[..k]) ==> h in mapDependers && id in mapDependers[h]
      {
        assert inputs[..k + 1][..k] == inputs[..k];
        if !inputs[k].onDisk {
          var prev := inputs[k].prev;
          WaitsOnEach(inputs, k);
          assert WaitsOn(inputs[..k + 1]) == WaitsOn(inputs[..k]) + {prev};
          if !orphan {
            setDependsOn := setDependsOn[id := {}];
            orphan := true;
          }
          ListingAdds(pool, done, mapDependers, prev, id);
          mapDependers := mapDependers[prev := (if prev in mapDependers then mapDependers[prev] else []) + [id]];
          assert setDependsOn == depends[id := WaitsOn(inputs[..k])];
          setDependsOn := setDependsOn[id := setDependsOn[id] + {prev}];
          UpdatedTwice(depends, id, WaitsOn(inputs[..k]), WaitsOn(inputs[..k + 1]));
        } else {
          assert WaitsOn(inputs[..k + 1]) == WaitsOn(inputs[..k]);
        }
      }
      assert inputs[..|inputs|] == inputs;
      ListingComplete(pool, done, id, mapDependers);
    }

    /** Takes a transaction that none comes before off the queue. */
    method TakeFront() returns (id: Txid)
      requires Valid() && vecPriority != []
      modifies this`vecPriority, this`taken
      ensures Valid() && Next(pool, old(Now()), id) && taken == old(taken) + {id}
      ensures multiset(old(vecPriority)) == multiset(vecPriority) + multiset{id}
      ensures id !in old(taken) && id !in SetOf(vtx) && Waits(pool, id) <= SetOf(vtx)
    {
      hide Sorted, Listed, Totals, IsFront, Next;
      ghost var front := SortedFront(pool, Now(), vecPriority, setDependsOn);
      var k: nat :| k < |vecPriority| && IsFront(pool, fSortedByFee, vecPriority, k);
      id := vecPriority[k];
      ghost var queue := vecPriority;
      FrontIsNext(pool, queue, Now(), setDependsOn, k);
      assert queue == queue[..k] + [id] + queue[k + 1..];
      vecPriority := vecPriority[..k] + vecPriority[k + 1..];
      taken := taken + {id};
      TakenFrom(pool, queue, vecPriority, k, taken - {id}, setDependsOn, SetOf(vtx));
    }

    /** A transaction is added; those that waited only for it join the queue. */
    method Release(id: Txid)
      requires Listed(pool, mapDependers) && id in taken
      requires vtx != [] && vtx[|vtx| - 1] == id && id !in SetOf(vtx[..|vtx| - 1])
      requires Sorted(pool, vecPriority, taken, setDependsOn, SetOf(vtx[..|vtx| - 1]))
      modifies this`vecPriority, this`setDependsOn
      ensures Sorted(pool, vecPriority, taken, setDependsOn, SetOf(vtx))
    {
      ghost var before, after := SetOf(vtx[..|vtx| - 1]), SetOf(vtx);
      var dependers := if id in mapDependers then mapDependers[id] else [];
      ghost var done: set<Txid> := {};
      hide Sorted, Listed, PartSorted;
      PartStarts(pool, vecPriority, taken, setDependsOn, before, after);
      for k := 0 to |dependers|
        invariant PartSorted(pool, vecPriority, taken, setDependsOn, before, after, done)
        invariant forall j :: 0 <= j < k ==> dependers[j] in done
      {
        NamesDepender(pool, vecPriority, taken, setDependsOn, before, after, done, mapDependers, id, k);
        CountDown(dependers[k], id, before, after, done);
        done := done + {dependers[k]};
      }
      WholeSorted(pool, vecPriority, taken, setDependsOn, before, after, id, mapDependers, done);
    }

    /** One depender has one parent fewer to wait for, and joins the queue when that was the last. */
    method CountDown(porphan: Txid, id: Txid, ghost before: set<Txid>, ghost after: set<Txid>, ghost done: set<Txid>)
      requires PartSorted(pool, vecPriority, taken, setDependsOn, before, after, done)
      requires id !in before && after == before + {id}
      requires Candidate(pool, porphan) && id in Waits(pool, porphan) && porphan in setDependsOn
      modifies this`vecPriority, this`setDependsOn
      ensures PartSorted(pool, vecPriority, taken, setDependsOn, before, after, done + {porphan})
    {
      hide PartSorted;
      ghost var queue, depends := vecPriority, setDependsOn;
      if setDependsOn[porphan] != {} {
        setDependsOn := setDependsOn[porphan := setDependsOn[porphan] - {id}];
        if setDependsOn[porphan] == {} { vecPriority := vecPriority + [porphan]; }
      }
      PartAdvances(pool, queue, vecPriority, taken, depends, setDependsOn, before, after, id, done, porphan);
    }

    /** Whether the transaction passes the limits, and the order of the queue from here on. */
    method Passes(id: Txid) returns (ok: bool)
      requires Valid() && Candidate(pool, id)
      modifies this`fSortedByFee
      ensures Valid()
      ensures ok <==> Fits(pool, oracle, limits, vtx, old(fSortedByFee), id)
      ensures fSortedByFee <==> old(fSortedByFee) || Switches(pool, oracle, limits, vtx, old(fSortedByFee), id)
    {
      var tx := pool[id];
      if nBlockSize + tx.size >= limits.maxSize { return false; }
      if nBlockSigOps + tx.legacySigOps >= MAX_BLOCK_SIGOPS { return false; }
      if oracle(vtx, id).late { return false; }
      if fSortedByFee && tx.feePerKb < limits.minTxFee as real && nBlockSize + tx.size >= limits.minSize {
        return false;
      }
      if !fSortedByFee && (nBlockSize + tx.size >= limits.prioritySize || tx.priority < PRIORITY_THRESHOLD) {
        fSortedByFee := true;
      }
      ok := true;
    }

    ghost function Now(): Progress
      reads `vtx, `fSortedByFee, `taken
    {
      Progress(vtx, fSortedByFee, taken)
    }

    /** The assembly has come this far by turns each of which was that of a transaction next in order. */
    ghost predicate Settled()
      reads `vtx, `fSortedByFee, `taken, `turns
    {
      Lawful(pool, oracle, limits, turns) && Now() == Reached(pool, oracle, limits, turns)
    }

    /** Adds transactions until none is ready. */
    method Fill()
      requires Valid() && Settled()
      modifies this
      ensures Valid() && Settled() && vecPriority == [] && old(turns) <= turns
      ensures forall id :: !Ready(pool, Now(), id)
    {
      hide Settled, Totals, Sorted, Listed;
      while vecPriority != []
        invariant Valid() && Settled() && old(turns) <= turns
        decreases |pool.Keys - taken|
      {
        TakeNext();
      }
      EmptyQueue(pool, taken, setDependsOn, SetOf(vtx));
    }

    /** The turn of one transaction. */
    method TakeNext()
      requires Valid() && Settled() && vecPriority != []
      modifies this
      ensures Valid() && Settled() && old(turns) < turns
      ensures |pool.Keys - taken| < |pool.Keys - old(taken)|
    {
      hide Sorted, Listed, Totals, Accepts, Switches, Lawful, Reached, Next;
      ghost var before := Now();
      var id;
      id := TakeFront();
      FewerLeft(pool, vecPriority, before.taken, setDependsOn, SetOf(vtx), id);
      var added := Consider(id);
      OneMoreTurn(pool, oracle, limits, turns, id);
      turns := turns + [id];
    }

    /** Adds a transaction exactly if it is accepted on top of those already in the block. */
    method Consider(id: Txid) returns (ok: bool)
      requires Valid() && id in taken && id !in SetOf(vtx) && Waits(pool, id) <= SetOf(vtx)
      modifies this`vtx, this`nBlockSize, this`nBlockTx, this`nBlockSigOps, this`nFees, this`fSortedByFee,
               this`vecPriority, this`setDependsOn
      ensures Valid() && Candidate(pool, id) && InPool(pool, old(vtx))
      ensures ok <==> Accepts(pool, oracle, limits, old(vtx), old(fSortedByFee), id)
      ensures vtx == if ok then old(vtx) + [id] else old(vtx)
      ensures fSortedByFee <==>
        old(fSortedByFee) || Switches(pool, oracle, limits, old(vtx), old(fSortedByFee), id)
    {
      assert Candidate(pool, id);
      hide Sorted, Listed, Totals, Accepts, Switches;
      ok := Decide(id);
      if ok { Include(id); }
    }

    /** Whether the transaction goes in; nothing changes but the order of the queue. */
    method Decide(id: Txid) returns (ok: bool)
      requires Valid() && Candidate(pool, id)
      modifies this`fSortedByFee
      ensures Valid() && InPool(pool, vtx) && (ok <==> Accepts(pool, oracle, limits, vtx, old(fSortedByFee), id))
      ensures fSortedByFee <==> old(fSortedByFee) || Switches(pool, oracle, limits, vtx, old(fSortedByFee), id)
      ensures ok ==>
        && nBlockSize + pool[id].size < limits.maxSize
        && nBlockSigOps + pool[id].legacySigOps + oracle(vtx, id).p2shSigOps < MAX_BLOCK_SIGOPS
    {
      hide Sorted, Listed;
      var passes := Passes(id);
      if !passes { return false; }
      var out := oracle(vtx, id);
      if !out.fetched { return false; }
      if out.fee < out.minFee { return false; }
      if nBlockSigOps + (pool[id].legacySigOps + out.p2shSigOps) >= MAX_BLOCK_SIGOPS { return false; }
      if !out.connected { return false; }
      ok := true;
    }

    /** The transaction goes in, and those that waited only for it become ready. */
    method Include(id: Txid)
      requires Valid() && Candidate(pool, id) && id in taken && id !in SetOf(vtx) && Waits(pool, id) <= SetOf(vtx)
      requires nBlockSize + pool[id].size < limits.maxSize
      requires nBlockSigOps + pool[id].legacySigOps + oracle(vtx, id).p2shSigOps < MAX_BLOCK_SIGOPS
      modifies this`vtx, this`nBlockSize, this`nBlockTx, this`nBlockSigOps, this`nFees,
               this`vecPriority, this`setDependsOn
      ensures Valid() && vtx == old(vtx) + [id]
    {
      hide Sorted, Listed, Totals, SetOf;
      ghost var before := vtx;
      AddedTo(before, id);
      Append(id);
      assert vtx[..|vtx| - 1] == before;
      Release(id);
    }

    /** The transaction goes into the block and the totals. */
    method Append(id: Txid)
      requires Totals() && Candidate(pool, id) && id !in vtx && Waits(pool, id) <= SetOf(vtx)
      requires nBlockSize + pool[id].size < limits.maxSize
      requires nBlockSigOps + pool[id].legacySigOps + oracle(vtx, id).p2shSigOps < MAX_BLOCK_SIGOPS
      modifies this`vtx, this`nBlockSize, this`nBlockTx, this`nBlockSigOps, this`nFees
      ensures Totals() && vtx == old(vtx) + [id]
    {
      hide Sizes, Fees, SigOps;
      SumsStep(pool, oracle, vtx, id);
      var out := oracle(vtx, id);
      ghost var before := vtx;
      vtx := vtx + [id];
      forall i | 0 <= i < |vtx| ensures Waits(pool, vtx[i]) <= SetOf(vtx[..i]) {
        if i < |before| { assert vtx[..i] == before[..i] && vtx[i] == before[i]; } else { assert vtx[..i] == before; }
      }
      nBlockSize := nBlockSize + pool[id].size;
      nBlockTx := nBlockTx + 1;
      nBlockSigOps := nBlockSigOps + pool[id].legacySigOps + out.p2shSigOps;
      nFees := nFees + out.fee;
    }
  }

  /** The whole assembly, from a pool and the settings. */
  method CreateNewBlock(pool: Pool, order: seq<Txid>, oracle: Oracle, limits: Limits) returns (b: Assembly)
    requires Closed(pool) && NoDup(order) && (forall id :: id in order <==> id in pool) && 1000 <= limits.maxSize
    ensures b.pool == pool && b.oracle == oracle && b.limits == limits && b.Valid() && b.vecPriority == []
    ensures b.Settled() && forall id :: !Ready(pool, b.Now(), id)
  {
    b := new Assembly(pool, oracle, limits);
    b.Collect(order);
    b.Fill();
  }

  /** Every pool transaction a block's transaction spends is in the block before it. */
  lemma ParentsFirst(b: Assembly, i: nat, k: nat) returns (j: nat)
    requires b.Totals() && i < |b.vtx| && k < |b.pool[b.vtx[i]].inputs| && !b.pool[b.vtx[i]].inputs[k].onDisk
    ensures j < i && b.vtx[j] == b.pool[b.vtx[i]].inputs[k].prev
  {
    var prev := b.pool[b.vtx[i]].inputs[k].prev;
    WaitsOnEach(b.pool[b.vtx[i]].inputs, k);
    assert prev in Waits(b.pool, b.vtx[i]) && Waits(b.pool, b.vtx[i]) <= SetOf(b.vtx[..i]);
    j :| 0 <= j < i && b.vtx[..i][j] == prev;
  }

  // ---- Collecting ----

  /** The lists so far, of the transactions already gone through. */
  ghost predicate Listing(pool: Pool, done: seq<Txid>, dependers: map<Txid, seq<Txid>>) {
    && (forall h, k :: h in dependers && 0 <= k < |dependers[h]| ==>
          Candidate(pool, dependers[h][k]) && h in Waits(pool, dependers[h][k]))
    && forall id, h :: id in done && Candidate(pool, id) && h in Waits(pool, id) ==>
         h in dependers && id in dependers[h]
  }

  lemma UpdatedTwice<K, V>(m: map<K, V>, k: K, v: V, w: V)
    ensures m[k := v][k := w] == m[k := w]
  {
  }

  lemma ListingComplete(pool: Pool, done: seq<Txid>, id: Txid, dependers: map<Txid, seq<Txid>>)
    requires Listing(pool, done, dependers) && Candidate(pool, id)
    requires forall h :: h in Waits(pool, id) ==> h in dependers && id in dependers[h]
    ensures Listing(pool, done + [id], dependers)
  {
  }

  lemma ListingAdds(pool: Pool, done: seq<Txid>, dependers: map<Txid, seq<Txid>>, prev: Txid, id: Txid)
    requires Listing(pool, done, dependers) && Candidate(pool, id) && prev in Waits(pool, id)
    ensures var dependers' := dependers[prev := (if prev in dependers then dependers[prev] else []) + [id]];
      && Listing(pool, done, dependers') && id in dependers'[prev]
      && forall h, x :: h in dependers && x in dependers[h] ==> h in dependers' && x in dependers'[h]
  {
    var list := (if prev in dependers then dependers[prev] else []) + [id];
    assert list[|list| - 1] == id;
  }

  ghost predicate Gathered(pool: Pool, queue: seq<Txid>, depends: map<Txid, set<Txid>>,
                           dependers: map<Txid, seq<Txid>>, done: seq<Txid>) {
    && NoDup(queue)
    && (forall id :: id in queue <==> id in done && Candidate(pool, id) && Waits(pool, id) == {})
    && (forall id :: id in depends <==> id in done && Candidate(pool, id) && Waits(pool, id) != {})
    && (forall id :: id in depends ==> depends[id] == Waits(pool, id))
    && Listing(pool, done, dependers)
  }

  lemma GatheredLists(pool: Pool, queue: seq<Txid>, depends: map<Txid, set<Txid>>, dependers: map<Txid, seq<Txid>>,
                      done: seq<Txid>)
    requires Gathered(pool, queue, depends, dependers, done)
    ensures Listing(pool, done, dependers) && forall id :: id in depends ==> id in done
  {
  }

  lemma GatherStep(pool: Pool, queue: seq<Txid>, depends: map<Txid, set<Txid>>, dependers: map<Txid, seq<Txid>>,
                   done: seq<Txid>, id: Txid,
                   orphan: bool, queue': seq<Txid>, depends': map<Txid, set<Txid>>, dependers': map<Txid, seq<Txid>>)
    requires Gathered(pool, queue, depends, dependers, done) && Candidate(pool, id) && id !in done
    requires orphan <==> Waits(pool, id) != {}
    requires depends' == if orphan then depends[id := Waits(pool, id)] else depends
    requires queue' == if orphan then queue else queue + [id]
    requires Listing(pool, done + [id], dependers')
    ensures Gathered(pool, queue', depends', dependers', done + [id])
  {
  }

  lemma GatherSkip(pool: Pool, queue: seq<Txid>, depends: map<Txid, set<Txid>>, dependers: map<Txid, seq<Txid>>,
                   done: seq<Txid>, id: Txid)
    requires Gathered(pool, queue, depends, dependers, done) && !Candidate(pool, id)
    ensures Gathered(pool, queue, depends, dependers, done + [id])
  {
  }

  lemma GatheredAll(pool: Pool, queue: seq<Txid>, depends: map<Txid, set<Txid>>, dependers: map<Txid, seq<Txid>>,
                    order: seq<Txid>)
    requires Gathered(pool, queue, depends, dependers, order) && forall id :: id in order <==> id in pool
    ensures Sorted(pool, queue, {}, depends, SetOf<Txid>([])) && Listed(pool, dependers)
  {
    forall id | Candidate(pool, id) ensures Placed(pool, queue, {}, depends, SetOf<Txid>([]), id) {
      assert Waits(pool, id) - SetOf<Txid>([]) == Waits(pool, id);
    }
    forall i | 0 <= i < |queue| ensures Candidate(pool, queue[i]) { assert queue[i] in queue; }
  }

  // ---- Steps ----

  lemma AddedTo(added: seq<Txid>, id: Txid)
    ensures SetOf(added + [id]) == SetOf(added) + {id} && (id in SetOf(added) <==> id in added)
  {
  }

  lemma EmptyQueue(pool: Pool, taken: set<Txid>, dependsOn: map<Txid, set<Txid>>, added: set<Txid>)
    requires Sorted(pool, [], taken, dependsOn, added)
    ensures forall id :: Candidate(pool, id) ==> (id in taken <==> Waits(pool, id) <= added)
  {
    forall id | Candidate(pool, id) ensures id in taken <==> Waits(pool, id) <= added {
      assert Placed(pool, [], taken, dependsOn, added, id);
    }
  }

  lemma SortedFront(pool: Pool, s: Progress, queue: seq<Txid>, dependsOn: map<Txid, set<Txid>>) returns (k: nat)
    requires Sorted(pool, queue, s.taken, dependsOn, SetOf(s.vtx)) && queue != []
    ensures (forall i :: 0 <= i < |queue| ==> queue[i] in pool) && k < |queue| && IsFront(pool, s.byFee, queue, k)
  {
    k := HasFront(pool, s.byFee, queue);
  }

  lemma FrontIsNext(pool: Pool, queue: seq<Txid>, s: Progress, dependsOn: map<Txid, set<Txid>>, k: nat)
    requires Sorted(pool, queue, s.taken, dependsOn, SetOf(s.vtx)) && IsFront(pool, s.byFee, queue, k)
    ensures Next(pool, s, queue[k]) && Ready(pool, s, queue[k])
  {
    forall id | Candidate(pool, id) && id !in s.taken
      ensures Ready(pool, s, id) <==> id in queue
    {
      assert Placed(pool, queue, s.taken, dependsOn, SetOf(s.vtx), id);
    }
    forall other | Ready(pool, s, other) ensures !Below(pool, s.byFee, queue[k], other) {
      var i :| 0 <= i < |queue| && queue[i] == other;
    }
  }

  lemma TakenFrom(pool: Pool, queue: seq<Txid>, rest: seq<Txid>, k: nat, taken: set<Txid>,
                  dependsOn: map<Txid, set<Txid>>, added: set<Txid>)
    requires Sorted(pool, queue, taken, dependsOn, added) && k < |queue| && rest == queue[..k] + queue[k + 1..]
    ensures Sorted(pool, rest, taken + {queue[k]}, dependsOn, added)
  {
    hide Waits;
    forall i | 0 <= i < |rest| ensures rest[i] == queue[if i < k then i else i + 1] {}
    forall id | Candidate(pool, id) ensures Placed(pool, rest, taken + {queue[k]}, dependsOn, added, id) {
      assert Placed(pool, queue, taken, dependsOn, added, id);
      if id in queue && id != queue[k] {
        var i :| 0 <= i < |queue| && queue[i] == id;
        assert rest[if i < k then i else i - 1] == id;
      }
    }
  }

  /** In the middle of releasing: those gone through count the new transaction, the others not yet. */
  ghost predicate PartSorted(pool: Pool, queue: seq<Txid>, taken: set<Txid>, dependsOn: map<Txid, set<Txid>>,
                             before: set<Txid>, after: set<Txid>, done: set<Txid>) {
    && NoDup(queue)
    && (forall i :: 0 <= i < |queue| ==> Candidate(pool, queue[i]) && queue[i] !in taken)
    && (forall id :: id in taken ==> Candidate(pool, id))
    && (forall id :: Candidate(pool, id) ==>
          Placed(pool, queue, taken, dependsOn, if id in done then after else before, id))
  }

  lemma PartStarts(pool: Pool, queue: seq<Txid>, taken: set<Txid>, dependsOn: map<Txid, set<Txid>>, before: set<Txid>,
                   after: set<Txid>)
    requires Sorted(pool, queue, taken, dependsOn, before)
    ensures PartSorted(pool, queue, taken, dependsOn, before, after, {})
  {
  }

  lemma NamesDepender(pool: Pool, queue: seq<Txid>, taken: set<Txid>, dependsOn: map<Txid, set<Txid>>,
                      before: set<Txid>, after: set<Txid>, done: set<Txid>,
                      mapDependers: map<Txid, seq<Txid>>, id: Txid, k: nat)
    requires PartSorted(pool, queue, taken, dependsOn, before, after, done) && Listed(pool, mapDependers)
    requires id in mapDependers && k < |mapDependers[id]|
    ensures
      var porphan := mapDependers[id][k];
      Candidate(pool, porphan) && id in Waits(pool, porphan) && porphan in dependsOn
  {
    var porphan := mapDependers[id][k];
    assert Placed(pool, queue, taken, dependsOn, if porphan in done then after else before, porphan);
  }

  lemma PartAdvances(pool: Pool, queue: seq<Txid>, queue': seq<Txid>, taken: set<Txid>, depends: map<Txid, set<Txid>>,
                     depends': map<Txid, set<Txid>>,
                     before: set<Txid>, after: set<Txid>, parent: Txid, done: set<Txid>, id: Txid)
    requires PartSorted(pool, queue, taken, depends, before, after, done)
    requires after == before + {parent} && parent !in before
    requires Candidate(pool, id) && parent in Waits(pool, id) && id in depends
    requires depends' == if depends[id] != {} then depends[id := depends[id] - {parent}] else depends
    requires queue' == if depends[id] != {} && depends[id] - {parent} == {} then queue + [id] else queue
    ensures PartSorted(pool, queue', taken, depends', before, after, done + {id})
  {
    assert Placed(pool, queue, taken, depends, if id in done then after else before, id);
    forall other | Candidate(pool, other)
      ensures Placed(pool, queue', taken, depends', if other in done + {id} then after else before, other)
    {
      assert Placed(pool, queue, taken, depends, if other in done then after else before, other);
      assert other in queue' <==> other in queue || (other == id && queue' != queue);
    }
  }

  lemma WholeSorted(pool: Pool, queue: seq<Txid>, taken: set<Txid>, dependsOn: map<Txid, set<Txid>>,
                    before: set<Txid>, after: set<Txid>, parent: Txid,
                    mapDependers: map<Txid, seq<Txid>>, done: set<Txid>)
    requires PartSorted(pool, queue, taken, dependsOn, before, after, done) && Listed(pool, mapDependers)
    requires after == before + {parent}
    requires parent in mapDependers ==> forall j :: 0 <= j < |mapDependers[parent]| ==> mapDependers[parent][j] in done
    ensures Sorted(pool, queue, taken, dependsOn, after)
  {
    forall id | Candidate(pool, id) ensures Placed(pool, queue, taken, dependsOn, after, id) {
      assert Placed(pool, queue, taken, dependsOn, if id in done then after else before, id);
      assert parent in Waits(pool, id) ==> id in done by {
        if parent in Waits(pool, id) { var j :| 0 <= j < |mapDependers[parent]| && mapDependers[parent][j] == id; }
      }
      if id !in done {
        assert Waits(pool, id) - before == Waits(pool, id) - after;
      }
    }
  }
}

/** The stake modifier: 64 bits, each the entropy bit of a block picked by hash from the recent
    chain, recomputed at most once in every modifier interval. */
module StakeModifier {
  import opened Collections
  import opened Bits
  import opened Words

  const MODIFIER_INTERVAL: int := 10 * 60
  const MODIFIER_INTERVAL_TESTNET: int := 3 * 60
  const MODIFIER_INTERVAL_RATIO: int := 3
  /** The switch time on the main network and the test network alike. */
  const GENESIS_TIME_STAMP: int := 1533549600


  /** A block index entry, with the fields the modifier depends on. */
  datatype Block = Block(
    hash: Hash256, hashProofOfStake: Hash256, time: Uint32, proofOfStake: bool, entropy: bool,
    generated: bool, modifier: Uint64)

  /** The network's interval, the hash of a proof followed by a modifier, and the block index. */
  datatype Env = Env(interval: int, hash: (Hash256, Uint64) -> Hash256, index: map<Hash256, Block>) {
    predicate Valid() { interval == MODIFIER_INTERVAL || interval == MODIFIER_INTERVAL_TESTNET }

    /** The number of the interval a time falls in. */
    function Window(time: int): int
      requires Valid()
    {
      time / interval
    }
  }

  datatype Result<+T> = Ok(value: T) | Error

  /** From the genesis block on: every block is indexed under its own hash and none repeats. */
  ghost predicate IsChain(env: Env, chain: seq<Block>) {
    && (forall i :: 0 <= i < |chain| ==> chain[i].hash in env.index && env.index[chain[i].hash] == chain[i])
    && forall i, j :: 0 <= i < j < |chain| ==> chain[i].hash != chain[j].hash
  }

  predicate IsFixedModifierInterval(time: Uint32) { time >= GENESIS_TIME_STAMP }

  // ---- The nearest generating block ----

  function LastGenerating(chain: seq<Block>): (r: Option<nat>)
    ensures r.Some? ==>
      r.value < |chain| && chain[r.value].generated && forall i :: r.value < i < |chain| ==> !chain[i].generated
    ensures r.None? ==> forall i :: 0 <= i < |chain| ==> !chain[i].generated
  {
    if chain == [] then None
    else if chain[|chain| - 1].generated then Some(|chain| - 1)
    else LastGenerating(chain[..|chain| - 1])
  }

  /** Walks towards genesis to the first block that generated its modifier. */
  method GetLastStakeModifier(chain: seq<Block>) returns (r: Result<(Uint64, Uint32)>)
    ensures match LastGenerating(chain)
            case Some(l) => r == Ok((chain[l].modifier, chain[l].time))
            case None => r == Error
  {
    if chain == [] { return Error; }
    var i := |chain| - 1;
    while i > 0 && !chain[i].generated
      invariant 0 <= i < |chain|
      invariant LastGenerating(chain) == LastGenerating(chain[..i + 1])
    {
      assert chain[..i + 1][..i] == chain[..i];
      i := i - 1;
    }
    if !chain[i].generated { return Error; }
    return Ok((chain[i].modifier, chain[i].time));
  }

  // ---- Interval sections ----

  function Section(interval: int, n: nat): int
    requires n < 64
  {
    interval * 63 / (63 + (63 - n) * (MODIFIER_INTERVAL_RATIO - 1))
  }

  /** Sections grow from a third of the interval to the whole of it. */
  lemma SectionsGrow(interval: int, n: nat)
    requires interval >= 0 && n < 63
    ensures Section(interval, n) <= Section(interval, n + 1)
    ensures Section(interval, 0) == interval / 3 && Section(interval, 63) == interval
  {
    var d := 63 + (63 - n) * 2;
    DivideByLess(interval * 63, d, d - 2);
    Thirds(interval);
  }

  lemma Thirds(interval: int)
    requires interval >= 0
    ensures interval * 63 / 189 == interval / 3 && interval * 63 / 63 == interval
  {
  }

  lemma DivideByLess(x: int, d: int, e: int)
    requires x >= 0 && d >= e > 0
    ensures x / d <= x / e
  {
    var q: nat, m: nat := x / d, x / e;
    assert x == q * d + x % d && x == m * e + x % e;
    LessFactor(q, d, e);
    AtMostFactor(q, m, e);
  }

  lemma LessFactor(q: nat, d: int, e: int)
    requires d >= e
    ensures q * e <= q * d
  {
  }

  lemma AtMostFactor(q: int, m: int, e: int)
    requires e > 0 && q * e < m * e + e
    ensures q <= m
  {
    assert (q - m) * e == q * e - m * e;
    if q > m { MulAtLeast(q - m, e); }
  }

  /** The first `n` sections together. */
  function Sections(interval: int, n: nat): int
    requires n <= 64
  {
    if n == 0 then 0 else Sections(interval, n - 1) + Section(interval, n - 1)
  }

  method GetStakeModifierSelectionInterval(interval: int) returns (r: int)
    ensures r == Sections(interval, 64)
  {
    r := 0;
    for n := 0 to 64
      invariant r == Sections(interval, n)
    {
      r := r + Section(interval, n);
    }
  }

  function SelectionStart(env: Env, previous: int): int
    requires env.Valid()
  {
    previous / env.interval * env.interval - Sections(env.interval, 64)
  }

  /** The stop time of the last of 64 rounds is the start of the previous block's own interval. */
  lemma LastStop(env: Env, previous: int)
    requires env.Valid()
    ensures SelectionStart(env, previous) + Sections(env.interval, 64) == env.Window(previous) * env.interval
    ensures previous - env.interval < SelectionStart(env, previous) + Sections(env.interval, 64) <= previous
  {
    hide Sections;
    WindowFloor(previous, env.interval);
  }

  lemma WindowFloor(time: int, interval: int)
    requires interval > 0
    ensures time - interval < time / interval * interval <= time
  {
  }

  // ---- Candidates ----

  datatype Item = Item(time: int, hash: int)

  predicate AtMost(a: Item, b: Item) { a.time < b.time || (a.time == b.time && a.hash <= b.hash) }

  predicate Ordered(s: seq<Item>) { forall i, j :: 0 <= i < j < |s| ==> AtMost(s[i], s[j]) }

  predicate DistinctHashes(s: seq<Item>) { forall i, j :: 0 <= i < j < |s| ==> s[i].hash != s[j].hash }

  function Insert(x: Item, s: seq<Item>): seq<Item> {
    if s == [] || AtMost(x, s[0]) then [x] + s else [s[0]] + Insert(x, s[1..])
  }

  function Sort(s: seq<Item>): seq<Item> {
    if s == [] then [] else Insert(s[0], Sort(s[1..]))
  }

  ghost predicate SameItems(a: seq<Item>, b: seq<Item>) { |a| == |b| && forall x :: x in a <==> x in b }

  lemma {:induction false} InsertKeeps(x: Item, s: seq<Item>)
    requires Ordered(s)
    ensures Ordered(Insert(x, s)) && SameItems(Insert(x, s), [x] + s)
  {
    if s != [] && !AtMost(x, s[0]) {
      InsertKeeps(x, s[1..]);
      var r := Insert(x, s[1..]);
      assert s == [s[0]] + s[1..];
      forall i | 0 <= i < |r| ensures AtMost(s[0], r[i]) { assert r[i] in [x] + s[1..]; }
    }
  }

  lemma {:induction false} InsertDistinct(x: Item, s: seq<Item>)
    requires Ordered(s) && DistinctHashes(s) && forall i :: 0 <= i < |s| ==> s[i].hash != x.hash
    ensures DistinctHashes(Insert(x, s))
  {
    if s != [] && !AtMost(x, s[0]) {
      InsertKeeps(x, s[1..]);
      InsertDistinct(x, s[1..]);
      var r := Insert(x, s[1..]);
      forall i | 0 <= i < |r| ensures s[0].hash != r[i].hash { assert r[i] in [x] + s[1..]; }
    }
  }

  lemma {:induction false} SortKeeps(s: seq<Item>)
    ensures Ordered(Sort(s)) && SameItems(Sort(s), s)
    ensures forall i, j :: 0 <= i < j < |Sort(s)| ==>
      && Sort(s)[i].time <= Sort(s)[j].time
      && (Sort(s)[i].time == Sort(s)[j].time ==> Sort(s)[i].hash <= Sort(s)[j].hash)
    ensures DistinctHashes(s) ==> DistinctHashes(Sort(s))
  {
    if s != [] {
      SortKeeps(s[1..]);
      var r := Sort(s[1..]);
      InsertKeeps(s[0], r);
      assert s == [s[0]] + s[1..];
      if DistinctHashes(s) {
        forall i | 0 <= i < |r| ensures r[i].hash != s[0].hash { assert r[i] in s[1..]; }
        InsertDistinct(s[0], r);
      }
    }
  }

  /** The blocks from the tip back to the first that is too old, oldest first. */
  function Recent(chain: seq<Block>, start: int): seq<Item> {
    if chain == [] || chain[|chain| - 1].time < start then []
    else Recent(chain[..|chain| - 1], start) + [ItemOf(chain[|chain| - 1])]
  }

  function ItemOf(b: Block): Item { Item(b.time, b.hash) }

  lemma {:induction false} RecentIsSuffix(chain: seq<Block>, start: int)
    ensures |Recent(chain, start)| <= |chain|
    ensures forall i :: 0 <= i < |Recent(chain, start)| ==>
      Recent(chain, start)[i] == ItemOf(chain[|chain| - |Recent(chain, start)| + i])
    ensures forall i :: |chain| - |Recent(chain, start)| <= i < |chain| ==> chain[i].time >= start
    ensures |Recent(chain, start)| < |chain| ==> chain[|chain| - |Recent(chain, start)| - 1].time < start
  {
    if chain != [] { RecentIsSuffix(chain[..|chain| - 1], start); }
  }

  /** Candidate blocks ordered by time and then hash. */
  method CollectCandidates(chain: seq<Block>, start: int) returns (sorted: seq<Item>)
    ensures sorted == Sort(Recent(chain, start))
  {
    var found: seq<Item> := [];
    var n := |chain|;
    assert chain[..n] == chain;
    while n > 0 && chain[n - 1].time >= start
      invariant 0 <= n <= |chain|
      invariant Recent(chain[..n], start) + Reversed(found) == Recent(chain, start)
    {
      assert chain[..n][..n - 1] == chain[..n - 1];
      ghost var older := found;
      found := found + [ItemOf(chain[n - 1])];
      assert found[..|found| - 1] == older;
      assert Recent(chain[..n], start) == Recent(chain[..n - 1], start) + [found[|found| - 1]];
      n := n - 1;
    }
    assert Recent(chain[..n], start) == [];
    assert [] + Reversed(found) == Reversed(found);
    sorted := Sort(Reversed(found));
  }

  /** The candidates as the selection sees them. */
  ghost predicate Indexed(env: Env, sorted: seq<Item>) {
    && Ordered(sorted) && DistinctHashes(sorted)
    && forall i :: 0 <= i < |sorted| ==>
         sorted[i].hash in env.index && ItemOf(env.index[sorted[i].hash]) == sorted[i]
  }

  lemma CandidatesIndexed(env: Env, chain: seq<Block>, start: int)
    requires IsChain(env, chain)
    ensures Indexed(env, Sort(Recent(chain, start)))
  {
    var items := Recent(chain, start);
    var sorted := Sort(items);
    RecentIsSuffix(chain, start);
    SortKeeps(items);
    forall i | 0 <= i < |sorted| ensures sorted[i].hash in env.index && ItemOf(env.index[sorted[i].hash]) == sorted[i] {
      assert sorted[i] in items;
    }
  }

  // ---- One selection ----

  function SelectionHash(env: Env, b: Block, modifier: Uint64): Hash256 {
    var h := env.hash(if b.proofOfStake then b.hashProofOfStake else b.hash, modifier);
    if b.proofOfStake then h / 0x1_0000_0000 else h
  }

  function HashAt(env: Env, sorted: seq<Item>, modifier: Uint64, i: nat): Hash256
    requires i < |sorted| && sorted[i].hash in env.index
  {
    SelectionHash(env, env.index[sorted[i].hash], modifier)
  }

  predicate Free(sorted: seq<Item>, taken: set<int>, i: nat)
    requires i < |sorted|
  {
    sorted[i].hash !in taken
  }

  predicate Early(sorted: seq<Item>, taken: set<int>, stop: int, i: nat)
    requires i < |sorted|
  {
    Free(sorted, taken, i) && sorted[i].time <= stop
  }

  /** Candidate `p` is the pick of a round: the least selection hash among the free candidates up to
      the stop time, the earlier on a tie; or, with none that early, the first free candidate. */
  ghost predicate IsPick(env: Env, sorted: seq<Item>, taken: set<int>, stop: int, modifier: Uint64, p: nat)
    requires Indexed(env, sorted)
  {
    && p < |sorted| && Free(sorted, taken, p)
    && (Early(sorted, taken, stop, p) ==>
          forall i :: 0 <= i < |sorted| && Early(sorted, taken, stop, i) ==>
            HashAt(env, sorted, modifier, p) <= HashAt(env, sorted, modifier, i)
            && (i < p ==> HashAt(env, sorted, modifier, p) < HashAt(env, sorted, modifier, i)))
    && (!Early(sorted, taken, stop, p) ==>
          && (forall i :: 0 <= i < |sorted| ==> !Early(sorted, taken, stop, i))
          && forall i :: 0 <= i < p ==> !Free(sorted, taken, i))
  }

  /** Proof-of-stake blocks are favoured: the pick is compared by the hash of its proof when it is one of
      them, and by that of its block hash when not, and 32 bits are taken off the hash of a stake block
      only. */
  lemma StakeFavoured(env: Env, sorted: seq<Item>, taken: set<int>, stop: int, modifier: Uint64, p: nat, i: nat)
    requires Indexed(env, sorted) && IsPick(env, sorted, taken, stop, modifier, p)
    requires i < |sorted| && Early(sorted, taken, stop, i)
    ensures
      var pick, other := env.index[sorted[p].hash], env.index[sorted[i].hash];
      var proof, hash := env.hash(pick.hashProofOfStake, modifier), env.hash(pick.hash, modifier);
      var proof', hash' := env.hash(other.hashProofOfStake, modifier), env.hash(other.hash, modifier);
      && (!pick.proofOfStake && other.proofOfStake ==> hash <= proof' / 0x1_0000_0000)
      && (!pick.proofOfStake && !other.proofOfStake ==> hash <= hash')
      && (pick.proofOfStake && other.proofOfStake ==> proof / 0x1_0000_0000 <= proof' / 0x1_0000_0000)
      && (pick.proofOfStake && !other.proofOfStake ==> proof / 0x1_0000_0000 <= hash')
  {
  }

  method SelectBlockFromCandidates(env: Env, sorted: seq<Item>, taken: set<int>, stop: int, modifier: Uint64)
    returns (pick: Option<Block>, indexed: bool, ghost at: nat)
    ensures Indexed(env, sorted) ==> indexed
    ensures Indexed(env, sorted) && pick.None? ==> forall i :: 0 <= i < |sorted| ==> !Free(sorted, taken, i)
    ensures Indexed(env, sorted) && pick.Some? ==>
      IsPick(env, sorted, taken, stop, modifier, at) && pick.value == env.index[sorted[at].hash]
  {
    pick, indexed, at := None, true, 0;
    var hashBest: Hash256 := 0;
    for i := 0 to |sorted|
      invariant pick.None? && Indexed(env, sorted) ==> forall j :: 0 <= j < i ==> !Free(sorted, taken, j)
      invariant pick.Some? && Indexed(env, sorted) ==>
        && at < i && Free(sorted, taken, at) && pick.value == env.index[sorted[at].hash]
        && hashBest == HashAt(env, sorted, modifier, at)
      invariant pick.Some? && Indexed(env, sorted) && Early(sorted, taken, stop, at) ==>
        forall j :: 0 <= j < i && Early(sorted, taken, stop, j) ==>
          hashBest <= HashAt(env, sorted, modifier, j) && (j < at ==> hashBest < HashAt(env, sorted, modifier, j))
      invariant pick.Some? && Indexed(env, sorted) && !Early(sorted, taken, stop, at) ==>
        forall j :: 0 <= j < at ==> !Free(sorted, taken, j)
    {
      if sorted[i].hash !in env.index { return None, false, 0; }
      var block := env.index[sorted[i].hash];
      if pick.Some? && block.time > stop {
        break;
      }
      if block.hash !in taken {
        var hashSelection := SelectionHash(env, block, modifier);
        if pick.Some? && hashSelection < hashBest {
          hashBest, pick, at := hashSelection, Some(block), i;
        } else if pick.None? {
          hashBest, pick, at := hashSelection, Some(block), i;
        }
      }
    }
  }

  // ---- The rounds ----

  /** The hashes of the first `n` picks. */
  function Taken(sorted: seq<Item>, picks: seq<nat>, n: nat): set<int>
    requires n <= |picks| && forall k :: 0 <= k < |picks| ==> picks[k] < |sorted|
  {
    if n == 0 then {} else Taken(sorted, picks, n - 1) + {sorted[picks[n - 1]].hash}
  }

  /** `picks` are the picks of the first rounds, each among what the earlier ones left. */
  ghost predicate Picks(env: Env, sorted: seq<Item>, start: int, modifier: Uint64, picks: seq<nat>) {
    && Indexed(env, sorted) && |picks| <= 64
    && (forall k :: 0 <= k < |picks| ==> picks[k] < |sorted|)
    && forall k :: 0 <= k < |picks| ==> PickAt(env, sorted, start, modifier, picks, k)
  }

  ghost predicate PickAt(env: Env, sorted: seq<Item>, start: int, modifier: Uint64, picks: seq<nat>, k: nat)
    requires Indexed(env, sorted) && k < |picks| <= 64 && forall i :: 0 <= i < |picks| ==> picks[i] < |sorted|
  {
    IsPick(env, sorted, Taken(sorted, picks, k), start + Sections(env.interval, k + 1), modifier, picks[k])
  }

  function Entropy(env: Env, sorted: seq<Item>, picks: seq<nat>): (r: seq<bool>)
    requires forall k :: 0 <= k < |picks| ==> picks[k] < |sorted| && sorted[picks[k]].hash in env.index
    ensures |r| == |picks|
  {
    seq(|picks|, k requires 0 <= k < |picks| => env.index[sorted[picks[k]].hash].entropy)
  }

  function Assembled(bits: seq<bool>): (r: nat)
    ensures r < Pow2(|bits|)
  {
    if bits == [] then 0
    else
      var n := |bits| - 1;
      Assembled(bits[..n]) + Flag(bits[n]) * Pow2(n)
  }

  function Flag(b: bool): nat { if b then 1 else 0 }

  /** Bit `k` of the assembled number is bit `k` of the sequence, and the rest are zero. */
  lemma {:induction false} AssembledBit(bits: seq<bool>, k: nat)
    ensures Bit(Assembled(bits), k) == (k < |bits| && bits[k])
  {
    if bits == [] {
      assert 0 / Pow2(k) == 0;
    } else {
      var n := |bits| - 1;
      AssembledBit(bits[..n], k);
      TopBit(Assembled(bits[..n]), Flag(bits[n]), n, k);
    }
  }

  lemma {:induction false} TakenSize(sorted: seq<Item>, picks: seq<nat>, n: nat)
    requires n <= |picks| && forall k :: 0 <= k < |picks| ==> picks[k] < |sorted|
    ensures |Taken(sorted, picks, n)| <= n
    ensures forall k :: 0 <= k < n ==> sorted[picks[k]].hash in Taken(sorted, picks, n)
  {
    if n > 0 { TakenSize(sorted, picks, n - 1); }
  }

  function Hashes(sorted: seq<Item>): set<int> { set i | 0 <= i < |sorted| :: sorted[i].hash }

  lemma {:induction false} HashesSize(sorted: seq<Item>)
    requires DistinctHashes(sorted)
    ensures |Hashes(sorted)| == |sorted|
  {
    if sorted != [] {
      var n := |sorted| - 1;
      HashesSize(sorted[..n]);
      assert Hashes(sorted) == Hashes(sorted[..n]) + {sorted[n].hash} by {
        forall h | h in Hashes(sorted) ensures h in Hashes(sorted[..n]) + {sorted[n].hash} {
          var i :| 0 <= i < |sorted| && sorted[i].hash == h;
          if i < n { assert sorted[..n][i].hash == h; }
        }
        forall h | h in Hashes(sorted[..n]) ensures h in Hashes(sorted) {
          var i :| 0 <= i < n && sorted[..n][i].hash == h;
          assert sorted[i].hash == h;
        }
      }
    }
  }

  /** With fewer hashes taken than there are candidates, one is free: no round comes away empty. */
  lemma SomeFree(sorted: seq<Item>, taken: set<int>) returns (i: nat)
    requires DistinctHashes(sorted) && |taken| < |sorted|
    ensures i < |sorted| && Free(sorted, taken, i)
  {
    HashesSize(sorted);
    if Hashes(sorted) <= taken { SubsetSize(Hashes(sorted), taken); }
    var h :| h in Hashes(sorted) && h !in taken;
    i :| 0 <= i < |sorted| && sorted[i].hash == h;
  }

  /** No block is picked twice. */
  lemma PicksDistinct(env: Env, sorted: seq<Item>, start: int, modifier: Uint64, picks: seq<nat>, i: nat, j: nat)
    requires Picks(env, sorted, start, modifier, picks) && i < j < |picks|
    ensures sorted[picks[i]].hash != sorted[picks[j]].hash
  {
    TakenSize(sorted, picks, j);
    assert PickAt(env, sorted, start, modifier, picks, j);
  }

  lemma PickUnique(env: Env, sorted: seq<Item>, taken: set<int>, stop: int, modifier: Uint64, p: nat, q: nat)
    requires Indexed(env, sorted)
    requires IsPick(env, sorted, taken, stop, modifier, p) && IsPick(env, sorted, taken, stop, modifier, q)
    ensures p == q
  {
  }

  lemma {:induction false} PicksUnique(env: Env, sorted: seq<Item>, start: int, modifier: Uint64, a: seq<nat>,
                                       b: seq<nat>, n: nat)
    requires Picks(env, sorted, start, modifier, a) && Picks(env, sorted, start, modifier, b) && n <= |a| && n <= |b|
    ensures a[..n] == b[..n] && Taken(sorted, a, n) == Taken(sorted, b, n)
  {
    hide IsPick, Indexed, Sections;
    if n > 0 {
      PicksUnique(env, sorted, start, modifier, a, b, n - 1);
      assert PickAt(env, sorted, start, modifier, a, n - 1) && PickAt(env, sorted, start, modifier, b, n - 1);
      PickUnique(env, sorted, Taken(sorted, a, n - 1), start + Sections(env.interval, n), modifier, a[n - 1], b[n - 1]);
      assert a[..n] == a[..n - 1] + [a[n - 1]] && b[..n] == b[..n - 1] + [b[n - 1]];
    }
  }

  // ---- The next modifier ----

  /** Whether a block at `time` on top of the chain is to have a new modifier: both the tip and, from
      the switch time on, the block itself are in a later interval than the last generating block. */
  predicate Due(env: Env, chain: seq<Block>, l: nat, time: Uint32)
    requires env.Valid() && l < |chain|
  {
    && env.Window(chain[l].time) < env.Window(chain[|chain| - 1].time)
    && (env.Window(chain[l].time) < env.Window(time) || !IsFixedModifierInterval(time))
  }

  /** The rule of the source's comments in times: nothing new within the interval of the last modifier, and,
      from the switch time on, nothing on a block of that interval either. */
  lemma DueByTime(env: Env, chain: seq<Block>, l: nat, time: Uint32)
    requires env.Valid() && l < |chain|
    ensures time >= 1533549600 ==>
      (Due(env, chain, l, time) <==>
        chain[l].time / env.interval < chain[|chain| - 1].time / env.interval
        && chain[l].time / env.interval < time / env.interval)
    ensures time < 1533549600 ==>
      (Due(env, chain, l, time) <==> chain[l].time / env.interval < chain[|chain| - 1].time / env.interval)
  {
  }

  function Rounds(sorted: seq<Item>): nat { if |sorted| < 64 then |sorted| else 64 }

  /** `modifier` is made of the entropy bits of the picks among the candidates. */
  ghost predicate GeneratedFrom(env: Env, sorted: seq<Item>, start: int, last: Uint64, modifier: nat) {
    exists picks: seq<nat> ::
      && Picks(env, sorted, start, last, picks) && |picks| == Rounds(sorted)
      && modifier == Assembled(Entropy(env, sorted, picks))
  }

  ghost predicate Generated(env: Env, chain: seq<Block>, last: Uint64, modifier: nat)
    requires env.Valid() && chain != []
  {
    var start := SelectionStart(env, chain[|chain| - 1].time);
    GeneratedFrom(env, Sort(Recent(chain, start)), start, last, modifier)
  }

  /** The modifier and the flag of a block at `time` on top of the chain. */
  ghost predicate Next(env: Env, chain: seq<Block>, time: Uint32, modifier: nat, generated: bool)
    requires env.Valid()
  {
    if chain == [] then modifier == 0 && generated
    else match LastGenerating(chain)
      case None => false
      case Some(l) =>
        if Due(env, chain, l, time) then generated && Generated(env, chain, chain[l].modifier, modifier)
        else !generated && modifier == chain[l].modifier
  }

  /** One round: with candidates left, the selection never comes away empty. */
  method PickNext(env: Env, sorted: seq<Item>, start: int, last: Uint64, ghost picks: seq<nat>, stop: int,
                  taken: set<int>)
    returns (block: Block, ghost at: nat)
    requires Picks(env, sorted, start, last, picks) && |picks| < Rounds(sorted)
    requires stop == start + Sections(env.interval, |picks| + 1) && taken == Taken(sorted, picks, |picks|)
    ensures Picks(env, sorted, start, last, picks + [at])
    ensures Taken(sorted, picks + [at], |picks| + 1) == taken + {block.hash}
    ensures Entropy(env, sorted, picks + [at]) == Entropy(env, sorted, picks) + [block.entropy]
  {
    var pick, indexed;
    pick, indexed, at := SelectBlockFromCandidates(env, sorted, taken, stop, last);
    if pick.None? {
      TakenSize(sorted, picks, |picks|);
      ghost var free := SomeFree(sorted, taken);
      assert false;
    }
    PicksGrow(env, sorted, start, last, picks, at);
    EntropyGrows(env, sorted, picks, at);
    block := pick.value;
  }

  /** All the rounds. */
  method SelectRounds(env: Env, sorted: seq<Item>, start: int, last: Uint64) returns (r: Uint64)
    requires env.Valid() && Indexed(env, sorted)
    ensures GeneratedFrom(env, sorted, start, last, r)
  {
    var modifier: nat := 0;
    var stop := start;
    var taken: set<int> := {};
    ghost var picks: seq<nat> := [];
    for round := 0 to Rounds(sorted)
      invariant |picks| == round && Picks(env, sorted, start, last, picks)
      invariant stop == start + Sections(env.interval, round)
      invariant taken == Taken(sorted, picks, round)
      invariant modifier == Assembled(Entropy(env, sorted, picks))
    {
      stop := stop + Section(env.interval, round);
      var block; ghost var at;
      block, at := PickNext(env, sorted, start, last, picks, stop, taken);
      AssembledStep(Entropy(env, sorted, picks), block.entropy);
      modifier := BitOr(modifier, Flag(block.entropy) * Pow2(round));
      taken := taken + {block.hash};
      picks := picks + [at];
    }
    AssembledFits(Entropy(env, sorted, picks));
    r := modifier;
  }

  /** Setting the next bit by or is appending it. */
  lemma AssembledStep(bits: seq<bool>, b: bool)
    ensures BitOr(Assembled(bits), Flag(b) * Pow2(|bits|)) == Assembled(bits + [b])
  {
    assert (bits + [b])[..|bits|] == bits;
    OrDisjoint(Assembled(bits), Flag(b), |bits|);
  }

  lemma AssembledFits(bits: seq<bool>)
    requires |bits| <= 64
    ensures Assembled(bits) < 0x1_0000_0000_0000_0000
  {
    Pow2Monotone(|bits|, 64);
    Pow2Words();
  }

  lemma EntropyGrows(env: Env, sorted: seq<Item>, picks: seq<nat>, at: nat)
    requires Indexed(env, sorted) && at < |sorted| && forall k :: 0 <= k < |picks| ==> picks[k] < |sorted|
    ensures Entropy(env, sorted, picks + [at]) == Entropy(env, sorted, picks) + [env.index[sorted[at].hash].entropy]
  {
  }

  lemma {:induction false} TakenPrefix(sorted: seq<Item>, picks: seq<nat>, at: nat, n: nat)
    requires n <= |picks| && at < |sorted| && forall k :: 0 <= k < |picks| ==> picks[k] < |sorted|
    ensures Taken(sorted, picks + [at], n) == Taken(sorted, picks, n)
  {
    if n > 0 { TakenPrefix(sorted, picks, at, n - 1); }
  }

  lemma PicksGrow(env: Env, sorted: seq<Item>, start: int, last: Uint64, picks: seq<nat>, at: nat)
    requires Picks(env, sorted, start, last, picks) && |picks| < 64
    requires IsPick(env, sorted, Taken(sorted, picks, |picks|), start + Sections(env.interval, |picks| + 1), last, at)
    ensures Picks(env, sorted, start, last, picks + [at])
    ensures Taken(sorted, picks + [at], |picks| + 1) == Taken(sorted, picks, |picks|) + {sorted[at].hash}
  {
    assert at < |sorted|;
    hide IsPick, Indexed, Taken, Sections, PickAt;
    var more := picks + [at];
    forall k | 0 <= k < |more| ensures PickAt(env, sorted, start, last, more, k) {
      if k < |picks| {
        assert PickAt(env, sorted, start, last, picks, k);
        PickStays(env, sorted, start, last, picks, at, k);
      } else {
        PickAdded(env, sorted, start, last, picks, at);
      }
    }
    TakenMore(sorted, picks, at);
  }

  lemma PickStays(env: Env, sorted: seq<Item>, start: int, last: Uint64, picks: seq<nat>, at: nat, k: nat)
    requires Indexed(env, sorted) && |picks| < 64 && (forall i :: 0 <= i < |picks| ==> picks[i] < |sorted|)
    requires at < |sorted| && k < |picks| && PickAt(env, sorted, start, last, picks, k)
    ensures PickAt(env, sorted, start, last, picks + [at], k)
  {
    hide IsPick, Indexed, Taken, Sections;
    TakenPrefix(sorted, picks, at, k);
  }

  lemma PickAdded(env: Env, sorted: seq<Item>, start: int, last: Uint64, picks: seq<nat>, at: nat)
    requires Indexed(env, sorted) && |picks| < 64 && (forall i :: 0 <= i < |picks| ==> picks[i] < |sorted|)
    requires at < |sorted|
    requires IsPick(env, sorted, Taken(sorted, picks, |picks|), start + Sections(env.interval, |picks| + 1), last, at)
    ensures PickAt(env, sorted, start, last, picks + [at], |picks|)
  {
    hide IsPick, Indexed, Taken, Sections;
    TakenPrefix(sorted, picks, at, |picks|);
  }

  lemma TakenMore(sorted: seq<Item>, picks: seq<nat>, at: nat)
    requires at < |sorted| && forall k :: 0 <= k < |picks| ==> picks[k] < |sorted|
    ensures Taken(sorted, picks + [at], |picks| + 1) == Taken(sorted, picks, |picks|) + {sorted[at].hash}
  {
    TakenPrefix(sorted, picks, at, |picks|);
  }

  method Generate(env: Env, chain: seq<Block>, last: Uint64) returns (modifier: Uint64)
    requires env.Valid() && IsChain(env, chain) && chain != []
    ensures Generated(env, chain, last, modifier)
  {
    hide Indexed, IsChain, Picks, Sort, Recent, Sections, GeneratedFrom;
    var selection := GetStakeModifierSelectionInterval(env.interval);
    var start := chain[|chain| - 1].time / env.interval * env.interval - selection;
    var sorted := CollectCandidates(chain, start);
    CandidatesIndexed(env, chain, start);
    modifier := SelectRounds(env, sorted, start, last);
    assert start == SelectionStart(env, chain[|chain| - 1].time);
  }

  /** Computes the modifier of a block at `time` on top of `chain`; the one failure is a chain with
      no generating block. */
  method ComputeNextStakeModifier(env: Env, chain: seq<Block>, time: Uint32) returns (r: Result<(Uint64, bool)>)
    requires env.Valid() && IsChain(env, chain)
    ensures r.Error? <==> chain != [] && LastGenerating(chain).None?
    ensures r.Ok? ==> Next(env, chain, time, r.value.0, r.value.1)
  {
    if chain == [] { return Ok((0, true)); }
    var tip := chain[|chain| - 1];
    var last := GetLastStakeModifier(chain);
    if last.Error? { return Error; }
    var (modifier, modifierTime) := last.value;
    if modifierTime / env.interval >= tip.time / env.interval {
      return Ok((modifier, false));
    }
    if modifierTime / env.interval >= time / env.interval {
      if IsFixedModifierInterval(time) { return Ok((modifier, false)); }
    }
    var next := Generate(env, chain, modifier);
    r := Ok((next, true));
  }

  /** The specification leaves no choice. */
  lemma GeneratedUnique(env: Env, sorted: seq<Item>, start: int, last: Uint64, m: nat, m': nat)
    requires GeneratedFrom(env, sorted, start, last, m) && GeneratedFrom(env, sorted, start, last, m')
    ensures m == m'
  {
    var a: seq<nat> :| Picks(env, sorted, start, last, a) && |a| == Rounds(sorted)
      && m == Assembled(Entropy(env, sorted, a));
    var b: seq<nat> :| Picks(env, sorted, start, last, b) && |b| == Rounds(sorted)
      && m' == Assembled(Entropy(env, sorted, b));
    PicksUnique(env, sorted, start, last, a, b, |a|);
    assert a[..|a|] == a && b[..|b|] == b;
  }

  lemma NextUnique(env: Env, chain: seq<Block>, time: Uint32, m: nat, g: bool, m': nat, g': bool)
    requires env.Valid() && Next(env, chain, time, m, g) && Next(env, chain, time, m', g')
    ensures m == m' && g == g'
  {
    if chain != [] && g {
      var start := SelectionStart(env, chain[|chain| - 1].time);
      GeneratedUnique(env, Sort(Recent(chain, start)), start, chain[LastGenerating(chain).value].modifier, m, m');
    }
  }

  // ---- Along a chain ----

  /** Every block carries the modifier and the flag computed for it. */
  ghost predicate Follows(env: Env, chain: seq<Block>)
    requires env.Valid()
  {
    forall i :: 0 <= i < |chain| ==> Fits(env, chain, i)
  }

  ghost predicate Fits(env: Env, chain: seq<Block>, i: nat)
    requires env.Valid() && i < |chain|
  {
    Next(env, chain[..i], chain[i].time, chain[i].modifier, chain[i].generated)
  }

  /** What the flag of block `j` says of the nearest generating block before it. */
  lemma NextFlag(env: Env, chain: seq<Block>, j: nat) returns (l: nat)
    requires env.Valid() && Follows(env, chain) && 0 < j < |chain|
    ensures l < j && chain[l].generated && forall k :: l < k < j ==> !chain[k].generated
    ensures chain[j].generated && IsFixedModifierInterval(chain[j].time) ==>
      env.Window(chain[l].time) < env.Window(chain[j].time)
    ensures !chain[j].generated ==> chain[j].modifier == chain[l].modifier
  {
    assert Fits(env, chain, j);
    l := LastGenerating(chain[..j]).value;
    forall k | l < k < j ensures !chain[k].generated { assert chain[k] == chain[..j][k]; }
  }

  /** Generating blocks are in strictly later and later intervals: at most one in each. */
  lemma {:induction false} WindowsIncrease(env: Env, chain: seq<Block>, i: nat, j: nat)
    requires env.Valid() && Follows(env, chain) && i < j < |chain|
    requires chain[i].generated && chain[j].generated
    requires forall k :: i < k <= j && chain[k].generated ==> IsFixedModifierInterval(chain[k].time)
    ensures env.Window(chain[i].time) < env.Window(chain[j].time)
    decreases j
  {
    var l := NextFlag(env, chain, j);
    if i < l { WindowsIncrease(env, chain, i, l); }
  }

  /** A block that generated none reports the modifier of the nearest block before it that did. */
  lemma NearestModifier(env: Env, chain: seq<Block>, i: nat, j: nat)
    requires env.Valid() && Follows(env, chain) && i < j < |chain|
    requires chain[i].generated && forall k :: i < k <= j ==> !chain[k].generated
    ensures chain[j].modifier == chain[i].modifier
  {
    var l := NextFlag(env, chain, j);
  }

  /** A chain that follows the protocol always has a modifier to build on. */
  lemma NeverWithout(env: Env, chain: seq<Block>)
    requires env.Valid() && Follows(env, chain) && chain != []
    ensures LastGenerating(chain).Some?
  {
    assert Fits(env, chain, 0);
  }

  // ---- The modifier a kernel hashes with ----

  /** The first block after `from` that generated its modifier a whole selection interval later. */
  ghost predicate FirstLater(env: Env, main: seq<Block>, from: nat, at: nat) {
    && from < at < |main|
    && Later(env, main, from, at) && forall k :: from < k < at ==> !Later(env, main, from, k)
  }

  predicate Later(env: Env, main: seq<Block>, from: nat, k: nat)
    requires from < |main| && k < |main|
  {
    main[k].generated && main[k].time >= main[from].time + Sections(env.interval, 64)
  }

  /** Walks the main chain forward from block `from`; there is no answer yet when it runs out. */
  method GetKernelStakeModifier(env: Env, main: seq<Block>, from: nat) returns (r: Option<Uint64>)
    requires env.Valid() && from < |main|
    ensures r.Some? ==> exists at: nat :: FirstLater(env, main, from, at) && r.value == main[at].modifier
    ensures r.None? <==> forall k :: from < k < |main| ==> !Later(env, main, from, k)
  {
    hide Sections;
    var selection := GetStakeModifierSelectionInterval(env.interval);
    SectionsPositive(env.interval, 64);
    var i, modifierTime := from, main[from].time;
    while modifierTime < main[from].time + selection
      invariant from <= i < |main|
      invariant modifierTime >= main[from].time + selection ==> FirstLater(env, main, from, i)
      invariant modifierTime < main[from].time + selection ==> forall k :: from < k <= i ==> !Later(env, main, from, k)
      decreases |main| - i
    {
      if i + 1 == |main| { return None; }
      i := i + 1;
      if main[i].generated { modifierTime := main[i].time; }
    }
    r := Some(main[i].modifier);
  }

  lemma {:induction false} SectionsPositive(interval: int, n: nat)
    requires interval >= MODIFIER_INTERVAL_TESTNET && n <= 64
    ensures Sections(interval, n) >= n
  {
    if n > 0 {
      SectionsPositive(interval, n - 1);
      DivLarge(interval * 63, 63 + (63 - (n - 1)) * (MODIFIER_INTERVAL_RATIO - 1));
    }
  }

  lemma DivLarge(x: int, d: int)
    requires x >= d > 0
    ensures x / d >= 1
  {
  }
}

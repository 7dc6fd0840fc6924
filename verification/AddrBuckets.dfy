/** How far the addresses of one range, and the reports of one range of sources, can spread. */
module AddrBuckets {
  import opened Collections
  import opened AddrTables

  /** The buckets behind the first `n` slots of a range, out of `count`. */
  function SlotBuckets(env: Env, key: Key, group: nat, n: nat, count: nat): set<nat>
    requires count > 0
  {
    if n == 0 then {} else SlotBuckets(env, key, group, n - 1, count) + {env.slotHash(key, group, n - 1) % count}
  }

  lemma {:induction false} SlotInside(env: Env, key: Key, group: nat, n: nat, count: nat, slot: nat)
    requires count > 0 && slot < n
    ensures env.slotHash(key, group, slot) % count in SlotBuckets(env, key, group, n, count)
  {
    if slot < n - 1 { SlotInside(env, key, group, n - 1, count, slot); }
  }

  lemma {:induction false} FewSlots(env: Env, key: Key, group: nat, n: nat, count: nat)
    requires count > 0
    ensures |SlotBuckets(env, key, group, n, count)| <= n
    ensures forall b :: b in SlotBuckets(env, key, group, n, count) ==> b < count
  {
    if n > 0 { FewSlots(env, key, group, n - 1, count); }
  }

  /** Whatever addresses of one range are tried, they go to at most 4 of the 64 buckets. */
  lemma TriedSpread(env: Env, key: Key, group: nat, addrs: set<Service>)
    requires forall a :: a in addrs ==> env.group(a.ip) == group
    ensures |set a | a in addrs :: env.TriedBucket(key, a)| <= 4
    ensures forall a :: a in addrs ==> env.TriedBucket(key, a) < 64
  {
    var buckets, reach := set a | a in addrs :: env.TriedBucket(key, a), SlotBuckets(env, key, group, 4, 64);
    forall a | a in addrs ensures env.TriedBucket(key, a) in reach {
      SlotInside(env, key, group, 4, 64, env.addrHash(key, a) % 4);
    }
    FewSlots(env, key, group, 4, 64);
    SubsetSize(buckets, reach);
  }

  /** Whatever the sources of one range report, it goes to at most 32 of the 256 buckets. */
  lemma NewSpread(env: Env, key: Key, group: nat, reports: set<(Service, NetAddr)>)
    requires forall r :: r in reports ==> env.group(r.1) == group
    ensures |set r | r in reports :: env.NewBucket(key, r.0, r.1)| <= 32
    ensures forall r :: r in reports ==> env.NewBucket(key, r.0, r.1) < 256
  {
    var buckets, reach := set r | r in reports :: env.NewBucket(key, r.0, r.1), SlotBuckets(env, key, group, 32, 256);
    forall r | r in reports ensures env.NewBucket(key, r.0, r.1) in reach {
      SlotInside(env, key, group, 32, 256, env.pairHash(key, env.group(r.0.ip), group) % 32);
    }
    FewSlots(env, key, group, 32, 256);
    SubsetSize(buckets, reach);
  }

  /** The bounds are met: the hashes can pick each bucket, and each slot of a range a bucket of its own. */
  lemma BucketsReached(env: Env, key: Key, addr: Service, source: NetAddr, b: nat)
    ensures b < 64 ==> env.(slotHash := (_, _, _) => b).TriedBucket(key, addr) == b
    ensures b < 4 ==> env.(addrHash := (_, _) => b, slotHash := (_, _, slot) => slot).TriedBucket(key, addr) == b
    ensures b < 256 ==> env.(slotHash := (_, _, _) => b).NewBucket(key, addr, source) == b
    ensures b < 32 ==>
      env.(pairHash := (_, _, _) => b, slotHash := (_, _, slot) => slot).NewBucket(key, addr, source) == b
  {
    assert b < 64 ==> b % 64 == b;
  }

  /** The range of the address decides among the slots of the range of the source, not the address itself. */
  lemma SameRanges(env: Env, key: Key, a: Service, b: Service, s: NetAddr, t: NetAddr)
    requires env.group(a.ip) == env.group(b.ip) && env.group(s) == env.group(t)
    ensures env.NewBucket(key, a, s) == env.NewBucket(key, b, t)
  {
  }

  /** The ids in the "tried" buckets of a set. */
  function IdsIn(vvTried: TriedTable, buckets: set<nat>): set<int>
    requires forall b :: b in buckets ==> b < |vvTried|
  {
    set b, id | b in buckets && id in vvTried[b] :: id
  }

  lemma {:induction false} BucketsHold(vvTried: TriedTable, buckets: set<nat>)
    requires forall b :: b in buckets ==> b < |vvTried| && |vvTried[b]| <= TRIED_BUCKET_SIZE
    ensures |IdsIn(vvTried, buckets)| <= TRIED_BUCKET_SIZE * |buckets|
  {
    if buckets != {} {
      var b := Pick(buckets);
      var rest := buckets - {b};
      BucketsHold(vvTried, rest);
      SeqSetSize(vvTried[b]);
      assert IdsIn(vvTried, buckets) <= IdsIn(vvTried, rest) + SetOf(vvTried[b]);
      SubsetSize(IdsIn(vvTried, buckets), IdsIn(vvTried, rest) + SetOf(vvTried[b]));
    }
  }

  lemma {:induction false} SeqSetSize(s: seq<int>)
    ensures |SetOf(s)| <= |s|
  {
    if s != [] {
      SeqSetSize(s[1..]);
      assert SetOf(s) == {s[0]} + SetOf(s[1..]);
    }
  }

  /** The "tried" entries of one range. */
  function TriedOf(env: Env, info: InfoTable, group: nat): set<int> {
    set id | id in info && info[id].fInTried && env.group(info[id].addr.ip) == group
  }

  /** However many addresses of one range are reported and reached, at most 256 are "tried" at a time. */
  lemma TriedPerGroup(env: Env, key: Key, t: Tables, pend: int, group: nat)
    requires Consistent(env, key, t, pend)
    ensures |TriedOf(env, t.mapInfo, group)| <= 256
  {
    var reach := SlotBuckets(env, key, group, 4, 64);
    FewSlots(env, key, group, 4, 64);
    forall id | id in TriedOf(env, t.mapInfo, group) ensures id in IdsIn(t.vvTried, reach) {
      var addr := t.mapInfo[id].addr;
      SlotInside(env, key, group, 4, 64, env.addrHash(key, addr) % 4);
      assert id in t.vvTried[env.TriedBucket(key, addr)];
    }
    BucketsHold(t.vvTried, reach);
    SubsetSize(TriedOf(env, t.mapInfo, group), IdsIn(t.vvTried, reach));
  }
}

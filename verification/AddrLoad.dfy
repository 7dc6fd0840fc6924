/** Rebuilding the tables from a stream, and what a save followed by a load preserves. */
module AddrLoad {
  import opened Collections
  import opened AddrTables
  import opened AddrDisk

  function Sets(buckets: seq<seq<int>>): (r: NewTable)
    ensures |r| == |buckets| && forall b :: 0 <= b < |r| ==> r[b] == SetOf(buckets[b])
  {
    seq(|buckets|, b requires 0 <= b < |buckets| => SetOf(buckets[b]))
  }

  /** The address index after numbering the first `n` entries. */
  function Index(addrs: seq<Service>, n: nat): map<NetAddr, int>
    requires n <= |addrs|
  {
    if n == 0 then map[] else Index(addrs, n - 1)[addrs[n - 1].ip := n - 1]
  }

  function Addrs(s: Saved): (r: seq<Service>)
    requires s.Shaped()
    ensures |r| == s.nNew + s.nTried
  {
    seq(s.nNew, i requires 0 <= i < s.nNew => s.news[i].addr)
    + seq(s.nTried, i requires 0 <= i < s.nTried => s.tried[i].addr)
  }

  /** The entry read as number `n`, before any bucket refers to it. */
  function Entry(s: Saved, n: int): AddrInfo
    requires s.Shaped() && 0 <= n < s.nNew + s.nTried
  {
    if n < s.nNew then FromDisk(s.news[n]).(nRandomPos := n)
    else FromDisk(s.tried[n - s.nNew]).(nRandomPos := n, fInTried := true)
  }

  function Entries(s: Saved, n: int): InfoTable
    requires s.Shaped() && 0 <= n <= s.nNew + s.nTried
  {
    map i | 0 <= i < n :: Entry(s, i)
  }

  function Counting(n: nat): (r: seq<int>)
    ensures |r| == n && forall i :: 0 <= i < n ==> r[i] == i
  {
    seq(n, i => i)
  }

  /** The ids of the first `n` "tried" entries that hash to bucket `k`. */
  function TriedPos(env: Env, s: Saved, n: nat, k: int): seq<int>
    requires s.Shaped() && n <= s.nTried
  {
    if n == 0 then []
    else TriedPos(env, s, n - 1, k) + if env.TriedBucket(s.nKey, s.tried[n - 1].addr) == k then [s.nNew + n - 1] else []
  }

  // ---- What a stream with too many "tried" entries comes to ----

  /** How many of the entries hash to bucket `k`. */
  function Hashing(env: Env, key: Key, tried: seq<DiskInfo>, k: int): nat {
    if tried == [] then 0
    else
      var n := |tried| - 1;
      Hashing(env, key, tried[..n], k) + if env.TriedBucket(key, tried[n].addr) == k then 1 else 0
  }

  /** The entries that find room in their bucket, in order. */
  function KeptTried(env: Env, key: Key, tried: seq<DiskInfo>): (r: seq<DiskInfo>)
    ensures |r| <= |tried|
  {
    if tried == [] then []
    else
      var n := |tried| - 1;
      var before := KeptTried(env, key, tried[..n]);
      if Hashing(env, key, before, env.TriedBucket(key, tried[n].addr)) < TRIED_BUCKET_SIZE then before + [tried[n]]
      else before
  }

  /** The stream without the "tried" entries that are lost. */
  function Trim(env: Env, s: Saved): (r: Saved)
    requires s.Shaped()
    ensures r.Shaped()
  {
    var kept := KeptTried(env, s.nKey, s.tried);
    s.(tried := kept, nTried := |kept|)
  }

  lemma HashingAppend(env: Env, key: Key, tried: seq<DiskInfo>, d: DiskInfo, k: int)
    ensures Hashing(env, key, tried + [d], k) ==
      Hashing(env, key, tried, k) + if env.TriedBucket(key, d.addr) == k then 1 else 0
  {
    assert (tried + [d])[..|tried|] == tried;
  }

  lemma {:induction false} HashingPrefix(env: Env, key: Key, tried: seq<DiskInfo>, n: nat, k: int)
    requires n <= |tried|
    ensures Hashing(env, key, tried[..n], k) <= Hashing(env, key, tried, k)
  {
    if n == |tried| {
      assert tried[..n] == tried;
    } else {
      var front := tried[..|tried| - 1];
      HashingPrefix(env, key, front, n, k);
      assert front[..n] == tried[..n];
      assert Hashing(env, key, front, k) <= Hashing(env, key, tried, k);
    }
  }

  /** A bucket receives its entries up to its size, and loses exactly the others. */
  lemma {:induction false} KeptHashing(env: Env, key: Key, tried: seq<DiskInfo>, k: int)
    ensures
      var count := Hashing(env, key, tried, k);
      Hashing(env, key, KeptTried(env, key, tried), k) == if count < TRIED_BUCKET_SIZE then count else TRIED_BUCKET_SIZE
  {
    if tried != [] {
      var n := |tried| - 1;
      KeptHashing(env, key, tried[..n], k);
      HashingAppend(env, key, KeptTried(env, key, tried[..n]), tried[n], k);
    }
  }

  lemma {:induction false} KeptPrefix(env: Env, key: Key, tried: seq<DiskInfo>, n: nat)
    requires n <= |tried|
    ensures KeptTried(env, key, tried[..n]) <= KeptTried(env, key, tried)
  {
    hide Env.TriedBucket, Hashing;
    if n == |tried| {
      assert tried[..n] == tried;
    } else {
      var front := tried[..|tried| - 1];
      KeptPrefix(env, key, front, n);
      assert front[..n] == tried[..n];
      assert KeptTried(env, key, front) <= KeptTried(env, key, tried);
    }
  }

  /** Nothing is lost when every bucket has room for its entries. */
  lemma {:induction false} AllKept(env: Env, key: Key, tried: seq<DiskInfo>)
    requires forall k :: 0 <= k < TRIED_BUCKET_COUNT ==> Hashing(env, key, tried, k) <= TRIED_BUCKET_SIZE
    ensures KeptTried(env, key, tried) == tried
  {
    if tried != [] {
      var n := |tried| - 1;
      forall k | 0 <= k < TRIED_BUCKET_COUNT ensures Hashing(env, key, tried[..n], k) <= TRIED_BUCKET_SIZE {
        HashingPrefix(env, key, tried, n, k);
      }
      AllKept(env, key, tried[..n]);
      assert Hashing(env, key, tried, env.TriedBucket(key, tried[n].addr)) <= TRIED_BUCKET_SIZE;
      assert tried == tried[..n] + [tried[n]];
    }
  }

  /** The number kept: up to the size of a bucket from each of the first `m` buckets. */
  function KeptCount(env: Env, key: Key, tried: seq<DiskInfo>, m: nat): nat {
    if m == 0 then 0
    else
      var count := Hashing(env, key, tried, m - 1);
      KeptCount(env, key, tried, m - 1) + if count < TRIED_BUCKET_SIZE then count else TRIED_BUCKET_SIZE
  }

  /** The number of entries that hash to the first `m` buckets. */
  function HashingBelow(env: Env, key: Key, tried: seq<DiskInfo>, m: nat): nat {
    if m == 0 then 0 else HashingBelow(env, key, tried, m - 1) + Hashing(env, key, tried, m - 1)
  }

  lemma {:induction false} BelowAppend(env: Env, key: Key, tried: seq<DiskInfo>, d: DiskInfo, m: nat)
    ensures HashingBelow(env, key, tried + [d], m) ==
      HashingBelow(env, key, tried, m) + if env.TriedBucket(key, d.addr) < m then 1 else 0
  {
    if m > 0 {
      BelowAppend(env, key, tried, d, m - 1);
      HashingAppend(env, key, tried, d, m - 1);
    }
  }

  lemma {:induction false} BelowAll(env: Env, key: Key, tried: seq<DiskInfo>)
    ensures HashingBelow(env, key, tried, TRIED_BUCKET_COUNT) == |tried|
  {
    if tried == [] {
      BelowNone(env, key, TRIED_BUCKET_COUNT);
    } else {
      var n := |tried| - 1;
      BelowAll(env, key, tried[..n]);
      BelowAppend(env, key, tried[..n], tried[n], TRIED_BUCKET_COUNT);
      assert tried == tried[..n] + [tried[n]];
    }
  }

  lemma {:induction false} BelowNone(env: Env, key: Key, m: nat)
    ensures HashingBelow(env, key, [], m) == 0
  {
    if m > 0 { BelowNone(env, key, m - 1); }
  }

  lemma {:induction false} BelowKept(env: Env, key: Key, tried: seq<DiskInfo>, m: nat)
    ensures HashingBelow(env, key, KeptTried(env, key, tried), m) == KeptCount(env, key, tried, m)
  {
    if m > 0 {
      BelowKept(env, key, tried, m - 1);
      KeptHashing(env, key, tried, m - 1);
    }
  }

  /** How many "tried" entries survive. */
  lemma TrimCount(env: Env, s: Saved)
    requires s.Shaped()
    ensures Trim(env, s).nTried == KeptCount(env, s.nKey, s.tried, TRIED_BUCKET_COUNT)
  {
    BelowAll(env, s.nKey, KeptTried(env, s.nKey, s.tried));
    BelowKept(env, s.nKey, s.tried, TRIED_BUCKET_COUNT);
  }

  lemma {:induction false} PosCount(env: Env, s: Saved, n: nat, k: int)
    requires s.Shaped() && n <= s.nTried
    ensures |TriedPos(env, s, n, k)| == Hashing(env, s.nKey, s.tried[..n], k)
  {
    if n > 0 {
      PosCount(env, s, n - 1, k);
      assert s.tried[..n][..n - 1] == s.tried[..n - 1];
    }
  }

  /** Streams whose "new" buckets are sound: every index a "new" entry, listed once a bucket and in at
      most four buckets. */
  ghost predicate Listed(s: Saved) {
    && s.Shaped() && s.nUBuckets == NEW_BUCKET_COUNT
    && (forall b :: 0 <= b < |s.buckets| ==> NoDup(s.buckets[b]))
    && (forall b, i :: 0 <= b < |s.buckets| && i in s.buckets[b] ==> 0 <= i < s.nNew)
    && (forall i :: Refs(Sets(s.buckets), i) <= NEW_BUCKETS_PER_ADDRESS)
  }

  /** Streams that load without loss: no "tried" bucket is overfull either. */
  ghost predicate Lossless(env: Env, s: Saved) {
    && Listed(s)
    && forall k :: 0 <= k < TRIED_BUCKET_COUNT ==> |TriedPos(env, s, s.nTried, k)| <= TRIED_BUCKET_SIZE
  }

  lemma LosslessTrim(env: Env, s: Saved)
    requires Lossless(env, s)
    ensures Trim(env, s) == s
  {
    forall k | 0 <= k < TRIED_BUCKET_COUNT ensures Hashing(env, s.nKey, s.tried, k) <= TRIED_BUCKET_SIZE {
      PosCount(env, s, s.nTried, k);
      assert s.tried[..s.nTried] == s.tried;
    }
    AllKept(env, s.nKey, s.tried);
  }

  /** What is left after losing the entries without room loads without loss. */
  lemma TrimLossless(env: Env, s: Saved)
    requires Listed(s)
    ensures Lossless(env, Trim(env, s))
  {
    var r := Trim(env, s);
    forall k | 0 <= k < TRIED_BUCKET_COUNT ensures |TriedPos(env, r, r.nTried, k)| <= TRIED_BUCKET_SIZE {
      PosCount(env, r, r.nTried, k);
      assert r.tried[..r.nTried] == r.tried;
      KeptHashing(env, s.nKey, s.tried, k);
    }
  }

  /** No entry counts more references than an address may have. */
  ghost predicate CountsCapped(info: InfoTable) {
    forall id :: id in info ==> 0 <= info[id].nRefCount <= NEW_BUCKETS_PER_ADDRESS
  }

  lemma CappedNext(info: InfoTable, id: int, entry: AddrInfo)
    requires CountsCapped(info) && 0 <= entry.nRefCount <= NEW_BUCKETS_PER_ADDRESS
    ensures CountsCapped(info[id := entry])
  {
  }

  method LoadNew(env: Env, s: Saved) returns (mapInfo: InfoTable, mapAddr: map<NetAddr, int>, vRandom: seq<int>,
                 vvNew: NewTable)
    requires s.Shaped()
    ensures |vvNew| == NEW_BUCKET_COUNT && vRandom == Counting(s.nNew) && mapAddr == Index(Addrs(s), s.nNew)
    ensures CountsCapped(mapInfo)
    ensures s.nUBuckets == NEW_BUCKET_COUNT ==>
      mapInfo == Entries(s, s.nNew) && forall b :: 0 <= b < |vvNew| ==> vvNew[b] == {}
  {
    mapInfo, mapAddr, vRandom := map[], map[], [];
    vvNew := seq(NEW_BUCKET_COUNT, _ => {});
    var n := 0;
    while n < s.nNew
      invariant 0 <= n <= s.nNew && |vvNew| == NEW_BUCKET_COUNT
      invariant vRandom == Counting(n) && mapAddr == Index(Addrs(s), n) && CountsCapped(mapInfo)
      invariant s.nUBuckets == NEW_BUCKET_COUNT ==>
        mapInfo == Entries(s, n) && forall b :: 0 <= b < |vvNew| ==> vvNew[b] == {}
    {
      var info := FromDisk(s.news[n]);
      mapAddr := mapAddr[info.addr.ip := n];
      info := info.(nRandomPos := |vRandom|);
      vRandom := vRandom + [n];
      if s.nUBuckets != NEW_BUCKET_COUNT {
        var b := env.NewBucket(s.nKey, info.addr, info.source);
        vvNew := vvNew[b := vvNew[b] + {n}];
        info := info.(nRefCount := info.nRefCount + 1);
      }
      CappedNext(mapInfo, n, info);
      mapInfo := mapInfo[n := info];
      n := n + 1;
    }
  }

  /** The tables once `n` "tried" entries are in. */
  ghost predicate TriedLoaded(env: Env, s: Saved, n: int, nIdCount: int, mapInfo: InfoTable, mapAddr: map<NetAddr, int>,
                              vRandom: seq<int>, vvTried: TriedTable)
  {
    && s.Shaped() && 0 <= n <= s.nTried && |vvTried| == TRIED_BUCKET_COUNT
    && nIdCount == s.nNew + n
    && mapInfo == Entries(s, nIdCount) && mapAddr == Index(Addrs(s), nIdCount) && vRandom == Counting(nIdCount)
    && forall k :: 0 <= k < |vvTried| ==> vvTried[k] == TriedPos(env, s, n, k)
  }

  lemma TriedStart(env: Env, s: Saved, mapInfo: InfoTable, mapAddr: map<NetAddr, int>, vRandom: seq<int>,
                   vvTried: TriedTable)
    requires s.Shaped() && mapInfo == Entries(s, s.nNew) && mapAddr == Index(Addrs(s), s.nNew)
    requires vRandom == Counting(s.nNew)
    requires |vvTried| == TRIED_BUCKET_COUNT && forall k :: 0 <= k < |vvTried| ==> vvTried[k] == []
    ensures TriedLoaded(env, Trim(env, s), 0, s.nNew, mapInfo, mapAddr, vRandom, vvTried)
    ensures KeptTried(env, s.nKey, []) == []
  {
    TrimNew(env, s);
  }

  lemma BucketLoaded(env: Env, s: Saved, n: int, nIdCount: int, mapInfo: InfoTable, mapAddr: map<NetAddr, int>,
                     vRandom: seq<int>, vvTried: TriedTable, k: int)
    requires TriedLoaded(env, s, n, nIdCount, mapInfo, mapAddr, vRandom, vvTried) && 0 <= k < TRIED_BUCKET_COUNT
    ensures 0 <= k < |vvTried| && vvTried[k] == TriedPos(env, s, n, k)
    ensures nIdCount == s.nNew + n && vRandom == Counting(nIdCount)
  {
  }

  lemma TriedLoadedNext(env: Env, s: Saved, n: int, nIdCount: int, mapInfo: InfoTable, mapAddr: map<NetAddr, int>,
                        vRandom: seq<int>, vvTried: TriedTable)
    requires TriedLoaded(env, s, n, nIdCount, mapInfo, mapAddr, vRandom, vvTried) && n < s.nTried
    ensures
      var k := env.TriedBucket(s.nKey, s.tried[n].addr);
      TriedLoaded(env, s, n + 1, nIdCount + 1,
                  mapInfo[nIdCount := FromDisk(s.tried[n]).(nRandomPos := |vRandom|, fInTried := true)],
                  mapAddr[s.tried[n].addr.ip := nIdCount], vRandom + [nIdCount],
                  vvTried[k := vvTried[k] + [nIdCount]])
  {
    hide Env.TriedBucket;
    assert mapInfo[nIdCount := Entry(s, nIdCount)] == Entries(s, nIdCount + 1);
  }

  /** The loop keeps the next entry exactly if the trimmed stream does. */
  lemma KeepsNext(env: Env, s: Saved, n: nat)
    requires s.Shaped() && n < s.nTried
    ensures
      var m, m' := |KeptTried(env, s.nKey, s.tried[..n])|, |KeptTried(env, s.nKey, s.tried[..n + 1])|;
      var r, k := Trim(env, s), env.TriedBucket(s.nKey, s.tried[n].addr);
      && m <= r.nTried
      && m' == m + (if |TriedPos(env, r, m, k)| < TRIED_BUCKET_SIZE then 1 else 0)
      && (m < m' ==> m < r.nTried && r.tried[m] == s.tried[n])
  {
    var key := s.nKey;
    assert s.tried[..n + 1][..n] == s.tried[..n];
    KeptPrefix(env, key, s.tried, n);
    KeptPrefix(env, key, s.tried, n + 1);
    var before := KeptTried(env, key, s.tried[..n]);
    PosCount(env, Trim(env, s), |before|, env.TriedBucket(key, s.tried[n].addr));
    assert Trim(env, s).tried[..|before|] == before;
  }

  /** Losing "tried" entries leaves the "new" ones as they were. */
  lemma TrimNew(env: Env, s: Saved)
    requires s.Shaped()
    ensures Entries(Trim(env, s), s.nNew) == Entries(s, s.nNew)
    ensures Index(Addrs(Trim(env, s)), s.nNew) == Index(Addrs(s), s.nNew)
  {
    IndexPrefix(Addrs(Trim(env, s)), Addrs(s), s.nNew);
  }

  lemma {:induction false} IndexPrefix(a: seq<Service>, b: seq<Service>, n: nat)
    requires n <= |a| && n <= |b| && forall i :: 0 <= i < n ==> a[i] == b[i]
    ensures Index(a, n) == Index(b, n)
  {
    if n > 0 { IndexPrefix(a, b, n - 1); }
  }

  method LoadTried(env: Env, s: Saved, mapInfo0: InfoTable, mapAddr0: map<NetAddr, int>, vRandom0: seq<int>)
    returns (nIdCount: int, mapInfo: InfoTable, mapAddr: map<NetAddr, int>, vRandom: seq<int>,
             vvTried: TriedTable, nTried: int)
    requires s.Shaped()
    requires s.nUBuckets == NEW_BUCKET_COUNT ==> mapInfo0 == Entries(s, s.nNew)
    requires vRandom0 == Counting(s.nNew) && mapAddr0 == Index(Addrs(s), s.nNew) && CountsCapped(mapInfo0)
    ensures CountsCapped(mapInfo)
    ensures s.nUBuckets == NEW_BUCKET_COUNT ==>
      var r := Trim(env, s);
      nTried == r.nTried && TriedLoaded(env, r, r.nTried, nIdCount, mapInfo, mapAddr, vRandom, vvTried)
  {
    hide TriedLoaded, KeptTried, TriedPos, CountsCapped;
    ghost var ok, r := s.nUBuckets == NEW_BUCKET_COUNT, Trim(env, s);
    nIdCount, mapInfo, mapAddr, vRandom := s.nNew, mapInfo0, mapAddr0, vRandom0;
    vvTried := seq(TRIED_BUCKET_COUNT, _ => []);
    var nLost := 0;
    var n := 0;
    assert s.tried[..0] == [];
    if ok { TriedStart(env, s, mapInfo, mapAddr, vRandom, vvTried); }
    while n < s.nTried
      invariant 0 <= n <= s.nTried && |vvTried| == TRIED_BUCKET_COUNT && CountsCapped(mapInfo)
      invariant ok ==> nLost == n - |KeptTried(env, s.nKey, s.tried[..n])|
      invariant ok ==> TriedLoaded(env, r, n - nLost, nIdCount, mapInfo, mapAddr, vRandom, vvTried)
    {
      var info := FromDisk(s.tried[n]);
      var k := env.TriedBucket(s.nKey, info.addr);
      if ok {
        KeepsNext(env, s, n);
        BucketLoaded(env, r, n - nLost, nIdCount, mapInfo, mapAddr, vRandom, vvTried, k);
        if |vvTried[k]| < TRIED_BUCKET_SIZE {
          TriedLoadedNext(env, r, n - nLost, nIdCount, mapInfo, mapAddr, vRandom, vvTried);
        }
      }
      if |vvTried[k]| < TRIED_BUCKET_SIZE {
        info := info.(nRandomPos := |vRandom|, fInTried := true);
        vRandom := vRandom + [nIdCount];
        CappedNext(mapInfo, nIdCount, info);
        mapInfo := mapInfo[nIdCount := info];
        mapAddr := mapAddr[info.addr.ip := nIdCount];
        vvTried := vvTried[k := vvTried[k] + [nIdCount]];
        nIdCount := nIdCount + 1;
      } else {
        nLost := nLost + 1;
      }
      n := n + 1;
    }
    assert s.tried[..n] == s.tried;
    nTried := s.nTried - nLost;
  }

  /** The entries, each with the number of buckets that refer to it. */
  function WithCounts(info: InfoTable, vvNew: NewTable): InfoTable {
    map id | id in info :: info[id].(nRefCount := Refs(vvNew, id))
  }

  lemma {:induction false} RefsMono(a: NewTable, b: NewTable, id: int)
    requires |a| == |b| && forall c :: 0 <= c < |a| ==> a[c] <= b[c]
    ensures Refs(a, id) <= Refs(b, id)
  {
    if a != [] {
      forall c | 0 <= c < |a[1..]| ensures a[1..][c] <= b[1..][c] { assert a[c + 1] <= b[c + 1]; }
      RefsMono(a[1..], b[1..], id);
      assert a[0] <= b[0];
    }
  }

  /** Bucket `b` is being filled; the buckets before it are done and the ones after it empty. */
  ghost predicate Filling(s: Saved, b: int, n: int, sets: NewTable, vvNew: NewTable) {
    && 0 <= b < |s.buckets| == |sets| == |vvNew| && 0 <= n <= |s.buckets[b]|
    && (forall c :: 0 <= c < |vvNew| && c != b ==> vvNew[c] == if c < b then sets[c] else {})
    && vvNew[b] == SetOf(s.buckets[b][..n])
  }

  lemma FillingSets(s: Saved, b: int, n: int, sets: NewTable, vvNew: NewTable)
    requires Filling(s, b, n, sets, vvNew) && n < |s.buckets[b]|
    requires NoDup(s.buckets[b]) && sets[b] == SetOf(s.buckets[b])
    ensures var id := s.buckets[b][n]; id !in vvNew[b] && Filling(s, b, n + 1, sets, vvNew[b := vvNew[b] + {id}])
  {
    var id := s.buckets[b][n];
    assert s.buckets[b][..n + 1] == s.buckets[b][..n] + [id];
    assert SetOf(s.buckets[b][..n + 1]) == SetOf(s.buckets[b][..n]) + {id};
    assert id !in SetOf(s.buckets[b][..n]);
  }

  lemma FillingBounded(s: Saved, b: int, n: int, sets: NewTable, vvNew: NewTable, id: int)
    requires Filling(s, b, n, sets, vvNew) && sets[b] == SetOf(s.buckets[b])
    ensures Refs(vvNew, id) <= Refs(sets, id)
  {
    forall c | 0 <= c < |vvNew| ensures vvNew[c] <= sets[c] { }
    RefsMono(vvNew, sets, id);
  }

  lemma CountedNext(base: InfoTable, vvNew: NewTable, b: int, id: int)
    requires 0 <= b < |vvNew| && id !in vvNew[b] && id in base
    ensures
      var info := WithCounts(base, vvNew);
      var vvNew' := vvNew[b := vvNew[b] + {id}];
      && Refs(vvNew', id) == Refs(vvNew, id) + 1
      && WithCounts(base, vvNew') == info[id := info[id].(nRefCount := info[id].nRefCount + 1)]
  {
    forall x { RefsUpdate(vvNew, b, vvNew[b] + {id}, x); }
  }

  /** Bucket `b` of the stream lists entries of `base`, each once, and nothing over the limit. */
  ghost predicate Readable(s: Saved, b: int, sets: NewTable, base: InfoTable) {
    && 0 <= b < |s.buckets| == |sets| && NoDup(s.buckets[b]) && sets[b] == SetOf(s.buckets[b])
    && (forall n :: 0 <= n < |s.buckets[b]| ==> s.buckets[b][n] in base)
    && (forall i :: Refs(sets, i) <= NEW_BUCKETS_PER_ADDRESS)
  }

  method LoadBucket(s: Saved, b: int, mapInfo0: InfoTable, vvNew0: NewTable, ghost base: InfoTable,
                    ghost sets: NewTable, ghost ok: bool)
    returns (mapInfo: InfoTable, vvNew: NewTable)
    requires 0 <= b < |s.buckets| && b < |vvNew0| && CountsCapped(mapInfo0)
    requires ok ==> Readable(s, b, sets, base) && Filling(s, b, 0, sets, vvNew0) && mapInfo0 == WithCounts(base, vvNew0)
    ensures |vvNew| == |vvNew0| && CountsCapped(mapInfo)
    ensures ok ==> Filling(s, b, |s.buckets[b]|, sets, vvNew) && mapInfo == WithCounts(base, vvNew)
  {
    mapInfo, vvNew := mapInfo0, vvNew0;
    var n := 0;
    while n < |s.buckets[b]|
      invariant 0 <= n <= |s.buckets[b]| && |vvNew| == |vvNew0| && CountsCapped(mapInfo)
      invariant ok ==> Filling(s, b, n, sets, vvNew) && mapInfo == WithCounts(base, vvNew)
    {
      var nIndex := s.buckets[b][n];
      if ok {
        FillingSets(s, b, n, sets, vvNew);
        FillingBounded(s, b, n + 1, sets, vvNew[b := vvNew[b] + {nIndex}], nIndex);
        CountedNext(base, vvNew, b, nIndex);
      }
      var info := if nIndex in mapInfo then mapInfo[nIndex] else DEFAULT_INFO;
      if info.nRefCount < NEW_BUCKETS_PER_ADDRESS {
        info := info.(nRefCount := info.nRefCount + 1);
        vvNew := vvNew[b := vvNew[b] + {nIndex}];
      }
      CappedNext(mapInfo, nIndex, info);
      mapInfo := mapInfo[nIndex := info];
      n := n + 1;
    }
  }

  /** What a lossless stream loads as. */
  function Loaded(env: Env, s: Saved): Tables
    requires s.Shaped()
  {
    var n := s.nNew + s.nTried;
    Tables(n, WithCounts(Entries(s, n), Sets(s.buckets)), Index(Addrs(s), n), Counting(n),
           s.nTried, seq(TRIED_BUCKET_COUNT, k => TriedPos(env, s, s.nTried, k)), s.nNew, Sets(s.buckets))
  }

  lemma NothingCounted(s: Saved, n: int, vvNew: NewTable)
    requires s.Shaped() && 0 <= n <= s.nNew + s.nTried
    requires forall b :: 0 <= b < |vvNew| ==> vvNew[b] == {}
    ensures WithCounts(Entries(s, n), vvNew) == Entries(s, n)
  {
    forall id { RefsZero(vvNew, id); }
  }

  lemma ListedReadable(env: Env, s: Saved, b: int)
    requires Listed(s) && 0 <= b < |s.buckets|
    ensures Readable(s, b, Sets(s.buckets), Entries(Trim(env, s), s.nNew + Trim(env, s).nTried))
  {
    forall n | 0 <= n < |s.buckets[b]|
      ensures s.buckets[b][n] in Entries(Trim(env, s), s.nNew + Trim(env, s).nTried)
    {
      assert s.buckets[b][n] in s.buckets[b];
    }
  }

  /** The "new" buckets, read into empty ones. */
  method LoadBuckets(env: Env, s: Saved, mapInfo0: InfoTable, vvNew0: NewTable, ghost base: InfoTable, ghost ok: bool)
    returns (mapInfo: InfoTable, vvNew: NewTable)
    requires s.Shaped() && s.nUBuckets == NEW_BUCKET_COUNT == |vvNew0| && CountsCapped(mapInfo0)
    requires ok ==>
      && Listed(s) && base == Entries(Trim(env, s), s.nNew + Trim(env, s).nTried)
      && mapInfo0 == WithCounts(base, vvNew0) && forall c :: 0 <= c < |vvNew0| ==> vvNew0[c] == {}
    ensures CountsCapped(mapInfo)
    ensures ok ==> vvNew == Sets(s.buckets) && mapInfo == WithCounts(base, vvNew)
  {
    hide Listed, WithCounts, Readable, CountsCapped;
    ghost var sets := Sets(s.buckets);
    mapInfo, vvNew := mapInfo0, vvNew0;
    var b := 0;
    while b < s.nUBuckets
      invariant 0 <= b <= s.nUBuckets == |vvNew| && CountsCapped(mapInfo)
      invariant ok ==> forall c :: 0 <= c < |vvNew| ==> vvNew[c] == if c < b then sets[c] else {}
      invariant ok ==> mapInfo == WithCounts(base, vvNew)
    {
      assert SetOf(s.buckets[b][..0]) == {} && s.buckets[b][..|s.buckets[b]|] == s.buckets[b];
      if ok { ListedReadable(env, s, b); }
      mapInfo, vvNew := LoadBucket(s, b, mapInfo, vvNew, base, sets, ok);
      b := b + 1;
    }
  }

  /** Rebuilds the tables from any well-shaped stream.  With sound "new" buckets the result is what the
      stream without the lost "tried" entries loads as; whatever the buckets list, no entry counts more
      references than an address may have. */
  method Load(env: Env, s: Saved) returns (t: Tables)
    requires s.Shaped()
    ensures Listed(s) ==> t == Loaded(env, Trim(env, s))
    ensures Lossless(env, s) ==> t == Loaded(env, s)
    ensures CountsCapped(t.mapInfo)
  {
    hide Listed, Lossless, WithCounts, Entries, Index, TriedPos, KeptTried, CountsCapped;
    ghost var ok, r := Listed(s), Trim(env, s);
    if Lossless(env, s) { LosslessTrim(env, s); LosslessListed(env, s); }
    if ok { ListedShape(s); }
    var mapInfo, mapAddr, vRandom, vvNew := LoadNew(env, s);
    var nIdCount, vvTried, nTried;
    nIdCount, mapInfo, mapAddr, vRandom, vvTried, nTried := LoadTried(env, s, mapInfo, mapAddr, vRandom);
    if s.nUBuckets != NEW_BUCKET_COUNT {
      return Tables(nIdCount, mapInfo, mapAddr, vRandom, nTried, vvTried, s.nNew, vvNew);
    }
    ghost var base := mapInfo;
    NothingCounted(r, r.nNew + r.nTried, vvNew);
    mapInfo, vvNew := LoadBuckets(env, s, mapInfo, vvNew, base, ok);
    t := Tables(nIdCount, mapInfo, mapAddr, vRandom, nTried, vvTried, s.nNew, vvNew);
    assert ok ==> vvTried == Loaded(env, r).vvTried;
  }

  lemma ListedShape(s: Saved)
    requires Listed(s)
    ensures s.nUBuckets == NEW_BUCKET_COUNT
  {
  }

  lemma LosslessListed(env: Env, s: Saved)
    requires Lossless(env, s)
    ensures Listed(s)
  {
  }
}

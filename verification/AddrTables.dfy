/** The five indexes of the address manager as values, and the consistency predicate that ties
    them together.  `AddrMan.dfy` changes them in place. */
module AddrTables {
  import opened Collections
  import opened Words

  const TRIED_BUCKET_COUNT := 64
  const TRIED_BUCKET_SIZE := 64
  const NEW_BUCKET_COUNT := 256
  const NEW_BUCKET_SIZE := 64
  const TRIED_BUCKETS_PER_GROUP := 4
  const NEW_BUCKETS_PER_SOURCE_GROUP := 32
  const NEW_BUCKETS_PER_ADDRESS := 4
  const TRIED_ENTRIES_INSPECT_ON_EVICT := 4
  const HORIZON_DAYS := 30
  const RETRIES := 3
  const MAX_FAILURES := 10
  const MIN_FAIL_DAYS := 7
  const GETADDR_MAX_PCT := 23
  const GETADDR_MAX := 2500
  const ONE_HOUR := 3600
  const ONE_DAY := 86400

  /** The sixteen address bytes, read as a number. */
  type NetAddr = nat
  type Key = seq<nat>

  /** `nServices` is the set of service flag bits that are on. */
  datatype Service = Service(ip: NetAddr, port: nat)
  datatype Address = Address(service: Service, nServices: set<nat>, nTime: Uint32)
  datatype AddrInfo = AddrInfo(
    addr: Service, nServices: set<nat>, nTime: Uint32, source: NetAddr, nLastTry: int, nLastSuccess: int,
    nAttempts: int, nRefCount: int, fInTried: bool, nRandomPos: int)

  /** What the manager takes from the rest of the node: the range an address lies in, the hashes behind
      the buckets, left uninterpreted, and the routability test. */
  datatype Env = Env(
    group: NetAddr -> nat,
    addrHash: (Key, Service) -> nat,
    pairHash: (Key, nat, nat) -> nat,
    slotHash: (Key, nat, nat) -> nat,
    routable: NetAddr -> bool)
  {
    /** The full address picks one of the few slots of its range, and the slot the bucket. */
    function TriedBucket(key: Key, addr: Service): (b: nat)
      ensures b < TRIED_BUCKET_COUNT
    {
      slotHash(key, group(addr.ip), addrHash(key, addr) % TRIED_BUCKETS_PER_GROUP) % TRIED_BUCKET_COUNT
    }

    /** The range of the address picks one of the slots of the range of its source. */
    function NewBucket(key: Key, addr: Service, source: NetAddr): (b: nat)
      ensures b < NEW_BUCKET_COUNT
    {
      var slot := pairHash(key, group(addr.ip), group(source)) % NEW_BUCKETS_PER_SOURCE_GROUP;
      slotHash(key, group(source), slot) % NEW_BUCKET_COUNT
    }
  }

  type InfoTable = map<int, AddrInfo>
  type NewTable = seq<set<int>>
  type TriedTable = seq<seq<int>>

  function U32(x: int): Uint32 { x % 0x1_0000_0000 }

  function Max(a: int, b: int): int { if a < b then b else a }

  /** Statistics bad enough for the entry to be dropped. */
  predicate IsTerrible(info: AddrInfo, now: int) {
    if info.nLastTry != 0 && info.nLastTry >= now - 60 then false
    else
      || info.nTime > now + 10 * 60
      || info.nTime == 0
      || now - info.nTime > HORIZON_DAYS * ONE_DAY
      || (info.nLastSuccess == 0 && info.nAttempts >= RETRIES)
      || (now - info.nLastSuccess > MIN_FAIL_DAYS * ONE_DAY && info.nAttempts >= MAX_FAILURES)
  }

  /** What was tried within the last minute is kept, whatever else is known of it. */
  lemma TriedIsKept(info: AddrInfo, now: int)
    requires info.nLastTry != 0 && now <= info.nLastTry + 60
    ensures !IsTerrible(info, now)
  {
  }

  /** Otherwise an entry may be dropped for each of five reasons; without any it is kept. */
  lemma DroppedFor(info: AddrInfo, now: int)
    requires info.nLastTry == 0 || now > info.nLastTry + 60
    ensures info.nTime > now + 600 || info.nTime == 0 || now > info.nTime + 30 * 24 * 3600 ==> IsTerrible(info, now)
    ensures info.nLastSuccess == 0 && info.nAttempts >= 3 ==> IsTerrible(info, now)
    ensures now > info.nLastSuccess + 7 * 24 * 3600 && info.nAttempts >= 10 ==> IsTerrible(info, now)
    ensures 0 < info.nTime <= now + 600 && now <= info.nTime + 30 * 24 * 3600 && info.nAttempts < 3 ==>
      !IsTerrible(info, now)
    ensures 0 < info.nTime <= now + 600 && now <= info.nTime + 30 * 24 * 3600 && info.nLastSuccess != 0
            && (info.nAttempts < 10 || now <= info.nLastSuccess + 7 * 24 * 3600) ==>
      !IsTerrible(info, now)
  {
  }

  // ---- The consistency predicate, one part per index ----

  ghost predicate RandomInv(info: InfoTable, vRandom: seq<int>) {
    && (forall id :: id in info ==>
          0 <= info[id].nRandomPos < |vRandom| && vRandom[info[id].nRandomPos] == id)
    && (forall i :: 0 <= i < |vRandom| ==> vRandom[i] in info && info[vRandom[i]].nRandomPos == i)
  }

  ghost predicate AddrInv(info: InfoTable, mapAddr: map<NetAddr, int>) {
    && (forall id :: id in info ==> info[id].addr.ip in mapAddr && mapAddr[info[id].addr.ip] == id)
    && (forall a :: a in mapAddr ==> mapAddr[a] in info && info[mapAddr[a]].addr.ip == a)
  }

  ghost predicate EntryInv(info: InfoTable, nIdCount: int) {
    && 0 <= nIdCount
    && forall id :: id in info ==>
         && 0 <= id < nIdCount
         && info[id].nLastTry >= 0
         && info[id].nLastSuccess >= 0
         && (info[id].fInTried ==> info[id].nLastSuccess > 0)
  }

  function NewIds(info: InfoTable): set<int> { set id | id in info && !info[id].fInTried }

  function TriedIds(info: InfoTable): set<int> { set id | id in info && info[id].fInTried }

  /** In how many "new" buckets an id occurs. */
  function Refs(vvNew: NewTable, id: int): nat {
    if vvNew == [] then 0 else (if id in vvNew[0] then 1 else 0) + Refs(vvNew[1..], id)
  }

  /** Every entry's reference count is the number of buckets holding it.  The entry `pend`, if
      any, is one ahead: `Add_` counts a reference before it stores it. */
  ghost predicate NewInv(info: InfoTable, vvNew: NewTable, pend: int) {
    && |vvNew| == NEW_BUCKET_COUNT
    && (forall b :: 0 <= b < |vvNew| ==> |vvNew[b]| <= NEW_BUCKET_SIZE)
    && (forall b, id :: 0 <= b < |vvNew| && id in vvNew[b] ==> id in info && !info[id].fInTried)
    && (forall id :: id in info ==>
          if info[id].fInTried then info[id].nRefCount == 0
          else
            && info[id].nRefCount == Refs(vvNew, id) + (if id == pend then 1 else 0)
            && 1 <= info[id].nRefCount <= NEW_BUCKETS_PER_ADDRESS)
  }

  ghost predicate TriedInv(env: Env, key: Key, info: InfoTable, vvTried: TriedTable) {
    && |vvTried| == TRIED_BUCKET_COUNT
    && (forall k :: 0 <= k < |vvTried| ==> |vvTried[k]| <= TRIED_BUCKET_SIZE && NoDup(vvTried[k]))
    && (forall k, id :: 0 <= k < |vvTried| && id in vvTried[k] ==>
          id in info && info[id].fInTried && env.TriedBucket(key, info[id].addr) == k)
    && (forall id :: id in info && info[id].fInTried ==>
          id in vvTried[env.TriedBucket(key, info[id].addr)])
  }

  datatype Tables = Tables(
    nIdCount: int, mapInfo: InfoTable, mapAddr: map<NetAddr, int>, vRandom: seq<int>,
    nTried: int, vvTried: TriedTable, nNew: int, vvNew: NewTable)

  ghost predicate Consistent(env: Env, key: Key, t: Tables, pend: int) {
    && EntryInv(t.mapInfo, t.nIdCount)
    && RandomInv(t.mapInfo, t.vRandom)
    && AddrInv(t.mapInfo, t.mapAddr)
    && NewInv(t.mapInfo, t.vvNew, pend)
    && TriedInv(env, key, t.mapInfo, t.vvTried)
    && t.nNew == |NewIds(t.mapInfo)|
    && t.nTried == |TriedIds(t.mapInfo)|
  }

  // ---- How reference counts follow the buckets ----

  lemma {:induction false} RefsUpdate(vvNew: NewTable, b: int, bucket: set<int>, id: int)
    requires 0 <= b < |vvNew|
    ensures Refs(vvNew[b := bucket], id)
         == Refs(vvNew, id) - (if id in vvNew[b] then 1 else 0) + (if id in bucket then 1 else 0)
  {
    if b == 0 {
      assert vvNew[b := bucket][1..] == vvNew[1..];
    } else {
      RefsUpdate(vvNew[1..], b - 1, bucket, id);
      assert vvNew[b := bucket][1..] == vvNew[1..][b - 1 := bucket];
    }
  }

  lemma {:induction false} RefsZero(vvNew: NewTable, id: int)
    ensures Refs(vvNew, id) == 0 <==> forall b :: 0 <= b < |vvNew| ==> id !in vvNew[b]
  {
    if vvNew != [] {
      RefsZero(vvNew[1..], id);
      if Refs(vvNew, id) == 0 {
        forall b | 0 <= b < |vvNew| ensures id !in vvNew[b] {
          if b > 0 { assert vvNew[1..][b - 1] == vvNew[b]; }
        }
      } else if id !in vvNew[0] {
        var b :| 0 <= b < |vvNew[1..]| && id in vvNew[1..][b];
        assert id in vvNew[b + 1];
      }
    }
  }

  function Without(vvNew: NewTable, id: int): (r: NewTable)
    ensures |r| == |vvNew|
    ensures forall b :: 0 <= b < |vvNew| ==> r[b] == vvNew[b] - {id}
  {
    seq(|vvNew|, b requires 0 <= b < |vvNew| => vvNew[b] - {id})
  }

  lemma {:induction false} RefsWithout(vvNew: NewTable, id: int, other: int)
    ensures Refs(Without(vvNew, id), other) == if other == id then 0 else Refs(vvNew, other)
  {
    if vvNew != [] {
      RefsWithout(vvNew[1..], id, other);
      assert Without(vvNew, id)[1..] == Without(vvNew[1..], id);
    }
  }

  // ---- Entries that change only in fields the indexes do not look at ----

  predicate SameButPos(a: AddrInfo, b: AddrInfo) { a == b.(nRandomPos := a.nRandomPos) }

  /** `info` and `info'` know the same ids with the same data, except for positions in vRandom. */
  ghost predicate SameEntries(info: InfoTable, info': InfoTable) {
    && info.Keys == info'.Keys
    && forall id :: id in info ==> SameButPos(info'[id], info[id])
  }

  lemma SameEntriesIds(info: InfoTable, info': InfoTable)
    requires SameEntries(info, info')
    ensures NewIds(info') == NewIds(info) && TriedIds(info') == TriedIds(info)
  {
    forall id ensures id in NewIds(info') <==> id in NewIds(info) { }
    forall id ensures id in TriedIds(info') <==> id in TriedIds(info) { }
  }

  lemma ReorderedAddr(info: InfoTable, info': InfoTable, nIdCount: int, mapAddr: map<NetAddr, int>)
    requires SameEntries(info, info') && EntryInv(info, nIdCount) && AddrInv(info, mapAddr)
    ensures EntryInv(info', nIdCount) && AddrInv(info', mapAddr)
  {
  }

  lemma ReorderedNew(info: InfoTable, info': InfoTable, vvNew: NewTable, pend: int)
    requires SameEntries(info, info') && NewInv(info, vvNew, pend)
    ensures NewInv(info', vvNew, pend)
  {
  }

  lemma ReorderedTried(env: Env, key: Key, info: InfoTable, info': InfoTable, vvTried: TriedTable)
    requires SameEntries(info, info') && TriedInv(env, key, info, vvTried)
    ensures TriedInv(env, key, info', vvTried)
  {
  }

  /** Moving entries about in vRandom disturbs nothing else. */
  lemma Reordered(env: Env, key: Key, t: Tables, t': Tables, pend: int)
    requires Consistent(env, key, t, pend)
    requires t' == t.(mapInfo := t'.mapInfo, vRandom := t'.vRandom)
    requires SameEntries(t.mapInfo, t'.mapInfo) && RandomInv(t'.mapInfo, t'.vRandom)
    ensures Consistent(env, key, t', pend)
  {
    SameEntriesIds(t.mapInfo, t'.mapInfo);
    ReorderedAddr(t.mapInfo, t'.mapInfo, t.nIdCount, t.mapAddr);
    ReorderedNew(t.mapInfo, t'.mapInfo, t.vvNew, pend);
    ReorderedTried(env, key, t.mapInfo, t'.mapInfo, t.vvTried);
  }

  /** What giving up one reference of `id` in bucket `b` leaves: the entry with one reference
      less, or, if it was the last, no trace of it. */
  ghost predicate Unreferenced(t: Tables, t': Tables, id: int, b: int) {
    && id in t.mapInfo && 0 <= b < |t.vvNew| && id in t.vvNew[b]
    && t'.vvNew == t.vvNew[b := t.vvNew[b] - {id}]
    && t'.vvTried == t.vvTried && t'.nTried == t.nTried && t'.nIdCount == t.nIdCount
    && if t.mapInfo[id].nRefCount > 1 then
         && t'.mapAddr == t.mapAddr && t'.vRandom == t.vRandom && t'.nNew == t.nNew
         && t'.mapInfo == t.mapInfo[id := t.mapInfo[id].(nRefCount := t.mapInfo[id].nRefCount - 1)]
       else
         && t'.mapAddr == t.mapAddr - {t.mapInfo[id].addr.ip} && t'.nNew == t.nNew - 1
         && SameEntries(t.mapInfo - {id}, t'.mapInfo)
  }

  lemma BucketIds(env: Env, key: Key, t: Tables, pend: int, b: int, id: int)
    requires Consistent(env, key, t, pend) && 0 <= b < |t.vvNew| && id in t.vvNew[b]
    ensures id in t.mapInfo && !t.mapInfo[id].fInTried && id >= 0 && t.mapInfo[id].nRefCount >= 1
  {
    assert id in t.mapInfo;
  }

  lemma ReleasedNew(info: InfoTable, vvNew: NewTable, id: int, b: int, pend: int)
    requires NewInv(info, vvNew, pend)
    requires 0 <= b < |vvNew| && id in vvNew[b] && id != pend && info[id].nRefCount > 1
    ensures NewInv(info[id := info[id].(nRefCount := info[id].nRefCount - 1)], vvNew[b := vvNew[b] - {id}], pend)
  {
    forall other { RefsUpdate(vvNew, b, vvNew[b] - {id}, other); }
  }

  /** One bucket gives up an entry that other buckets still hold. */
  lemma Released(env: Env, key: Key, t: Tables, t': Tables, id: int, b: int, pend: int)
    requires Consistent(env, key, t, pend)
    requires 0 <= b < |t.vvNew| && id in t.vvNew[b] && id != pend && t.mapInfo[id].nRefCount > 1
    requires t' == t.(mapInfo := t.mapInfo[id := t.mapInfo[id].(nRefCount := t.mapInfo[id].nRefCount - 1)],
                      vvNew := t.vvNew[b := t.vvNew[b] - {id}])
    ensures Consistent(env, key, t', pend)
  {
    SameIndexKeeps(t.mapInfo, t'.mapInfo, t.nIdCount, t.vRandom, t.mapAddr);
    SameMembershipKeeps(env, key, t.mapInfo, t'.mapInfo, t.vvTried, id);
    ReleasedNew(t.mapInfo, t.vvNew, id, b, pend);
  }

  lemma DroppedNew(info: InfoTable, info': InfoTable, vvNew: NewTable, id: int, b: int, pend: int)
    requires NewInv(info, vvNew, pend)
    requires 0 <= b < |vvNew| && id in vvNew[b] && id != pend && info[id].nRefCount == 1
    requires SameEntries(info - {id}, info')
    ensures NewInv(info', vvNew[b := vvNew[b] - {id}], pend)
  {
    var vvNew' := vvNew[b := vvNew[b] - {id}];
    forall other ensures Refs(vvNew', other) == Refs(vvNew, other) - (if other == id then 1 else 0) {
      RefsUpdate(vvNew, b, vvNew[b] - {id}, other);
    }
    RefsZero(vvNew', id);
    forall c, x | 0 <= c < |vvNew'| && x in vvNew'[c] ensures x in info' && !info'[x].fInTried {
      assert x in vvNew[c] && x != id;
      assert SameButPos(info'[x], info[x]);
    }
    forall x | x in info'
      ensures if info'[x].fInTried then info'[x].nRefCount == 0
              else && info'[x].nRefCount == Refs(vvNew', x) + (if x == pend then 1 else 0)
                   && 1 <= info'[x].nRefCount <= NEW_BUCKETS_PER_ADDRESS
    {
      assert SameButPos(info'[x], (info - {id})[x]);
    }
  }

  lemma DroppedTried(env: Env, key: Key, info: InfoTable, info': InfoTable, vvTried: TriedTable, id: int)
    requires TriedInv(env, key, info, vvTried)
    requires id in info && !info[id].fInTried && SameEntries(info - {id}, info')
    ensures TriedInv(env, key, info', vvTried)
  {
    forall x | x in info' ensures SameButPos(info'[x], info[x]) {
      assert SameButPos(info'[x], (info - {id})[x]);
    }
  }

  lemma DroppedAddr(info: InfoTable, info': InfoTable, mapAddr: map<NetAddr, int>, id: int)
    requires AddrInv(info, mapAddr)
    requires id in info && SameEntries(info - {id}, info')
    ensures AddrInv(info', mapAddr - {info[id].addr.ip})
  {
    forall x | x in info' ensures SameButPos(info'[x], info[x]) {
      assert SameButPos(info'[x], (info - {id})[x]);
    }
  }

  lemma DroppedIds(info: InfoTable, info': InfoTable, id: int)
    requires id in info && !info[id].fInTried && SameEntries(info - {id}, info')
    ensures NewIds(info') == NewIds(info) - {id} && TriedIds(info') == TriedIds(info)
  {
    var mid := info - {id};
    SameEntriesIds(mid, info');
    assert NewIds(mid) == NewIds(info) - {id};
    assert TriedIds(mid) == TriedIds(info);
  }

  /** The last bucket holding an entry gives it up, and every index forgets it. */
  lemma Dropped(env: Env, key: Key, t: Tables, t': Tables, id: int, b: int, pend: int)
    requires Consistent(env, key, t, pend)
    requires 0 <= b < |t.vvNew| && id in t.vvNew[b] && id != pend && t.mapInfo[id].nRefCount == 1
    requires SameEntries(t.mapInfo - {id}, t'.mapInfo) && RandomInv(t'.mapInfo, t'.vRandom)
    requires t' == t.(mapInfo := t'.mapInfo, vRandom := t'.vRandom, mapAddr := t.mapAddr - {t.mapInfo[id].addr.ip},
                      nNew := t.nNew - 1, vvNew := t.vvNew[b := t.vvNew[b] - {id}])
    ensures Consistent(env, key, t', pend)
  {
    DroppedNew(t.mapInfo, t'.mapInfo, t.vvNew, id, b, pend);
    DroppedTried(env, key, t.mapInfo, t'.mapInfo, t.vvTried, id);
    DroppedAddr(t.mapInfo, t'.mapInfo, t.mapAddr, id);
    DroppedIds(t.mapInfo, t'.mapInfo, id);
    assert EntryInv(t'.mapInfo, t'.nIdCount) by {
      forall x | x in t'.mapInfo ensures SameButPos(t'.mapInfo[x], t.mapInfo[x]) {
        assert SameButPos(t'.mapInfo[x], (t.mapInfo - {id})[x]);
      }
    }
  }

  // ---- Promotion to the "tried" table ----

  /** The ids of `bucket` after the promoted one enters and the evicted ones, if any, leave. */
  ghost predicate Replaced(bucket: seq<int>, bucket': seq<int>, nId: int, out: set<int>) {
    && |bucket'| <= TRIED_BUCKET_SIZE && NoDup(bucket')
    && (forall x :: x in bucket' <==> x == nId || (x in bucket && x !in out))
    && (forall x :: x in out ==> x in bucket)
  }

  ghost predicate Promoted(info: InfoTable, info': InfoTable, nId: int, out: set<int>) {
    && info'.Keys == info.Keys
    && nId in info && nId !in out && out <= info.Keys
    && info'[nId] == info[nId].(fInTried := true, nRefCount := 0)
    && (forall x :: x in out ==> info[x].fInTried && info'[x] == info[x].(fInTried := false, nRefCount := 1))
    && (forall x :: x in info && x != nId && x !in out ==> info'[x] == info[x])
  }

  lemma PromotedTried(env: Env, key: Key, info: InfoTable, info': InfoTable, vvTried: TriedTable,
                      k: int, bucket': seq<int>, nId: int, out: set<int>)
    requires TriedInv(env, key, info, vvTried) && Promoted(info, info', nId, out) && !info[nId].fInTried
    requires k == env.TriedBucket(key, info[nId].addr) && Replaced(vvTried[k], bucket', nId, out)
    ensures TriedInv(env, key, info', vvTried[k := bucket'])
  {
    var vvTried' := vvTried[k := bucket'];
    forall x | x in info ensures info'[x].addr == info[x].addr { }
    forall c, x | 0 <= c < |vvTried'| && x in vvTried'[c]
      ensures x in info' && info'[x].fInTried && env.TriedBucket(key, info'[x].addr) == c
    {
      if c != k { assert x in vvTried[c]; }
    }
  }

  lemma PromotedIds(info: InfoTable, info': InfoTable, nId: int, out: set<int>)
    requires Promoted(info, info', nId, out) && !info[nId].fInTried
    ensures NewIds(info') == NewIds(info) - {nId} + out
    ensures TriedIds(info') == TriedIds(info) + {nId} - out
    ensures |NewIds(info')| == |NewIds(info)| - 1 + |out|
    ensures |TriedIds(info')| == |TriedIds(info)| + 1 - |out|
  {
    forall x ensures x in NewIds(info') <==> x in NewIds(info) - {nId} + out {
      assert x in out ==> info'[x] == info[x].(fInTried := false, nRefCount := 1);
    }
    forall x ensures x in TriedIds(info') <==> x in TriedIds(info) + {nId} - out {
      assert x in out ==> info'[x] == info[x].(fInTried := false, nRefCount := 1);
    }
    forall x | x in out ensures x in TriedIds(info) { assert info[x].fInTried; }
    assert NewIds(info') == NewIds(info) - {nId} + out;
    assert TriedIds(info') == TriedIds(info) + {nId} - out;
    assert (NewIds(info) - {nId}) !! out;
  }

  lemma PromotedNew(info: InfoTable, info': InfoTable, vvNew: NewTable, nId: int)
    requires NewInv(info, vvNew, -1) && -1 !in info && Promoted(info, info', nId, {}) && !info[nId].fInTried
    ensures NewInv(info', Without(vvNew, nId), -1)
  {
    hide Refs;
    var left := Without(vvNew, nId);
    forall x ensures Refs(left, x) == if x == nId then 0 else Refs(vvNew, x) { RefsWithout(vvNew, nId, x); }
    forall b | 0 <= b < |vvNew| ensures |left[b]| <= NEW_BUCKET_SIZE {
      if nId in vvNew[b] { } else { assert vvNew[b] - {nId} == vvNew[b]; }
    }
    forall b, x | 0 <= b < |left| && x in left[b] ensures x in info' && !info'[x].fInTried {
      assert x in vvNew[b] && x != nId;
    }
  }

  /** A "tried" entry goes back to one "new" bucket with room for it. */
  lemma DemotedNew(info: InfoTable, info': InfoTable, vvNew: NewTable, victim: int, b: int)
    requires NewInv(info, vvNew, -1) && -1 !in info && victim in info && info[victim].fInTried
    requires 0 <= b < |vvNew| && |vvNew[b]| < NEW_BUCKET_SIZE
    requires info' == info[victim := info[victim].(fInTried := false, nRefCount := 1)]
    ensures NewInv(info', vvNew[b := vvNew[b] + {victim}], -1)
  {
    forall c | 0 <= c < |vvNew| ensures victim !in vvNew[c] { }
    RefsZero(vvNew, victim);
    forall x { RefsUpdate(vvNew, b, vvNew[b] + {victim}, x); }
  }

  /** Entries keep their address and position, and their statistics stay meaningful. */
  ghost predicate SameIndex(info: InfoTable, info': InfoTable) {
    && info'.Keys == info.Keys
    && forall id :: id in info ==>
         && info'[id].addr == info[id].addr
         && info'[id].nRandomPos == info[id].nRandomPos
         && info'[id].nLastTry >= 0 && info'[id].nLastSuccess >= 0
         && (info'[id].fInTried ==> info'[id].nLastSuccess > 0)
  }

  /** One entry changes, but not its address or position. */
  lemma SameIndexAt(info: InfoTable, info': InfoTable, nIdCount: int, id: int)
    requires EntryInv(info, nIdCount) && id in info && id in info' && info' == info[id := info'[id]]
    requires info'[id].addr == info[id].addr && info'[id].nRandomPos == info[id].nRandomPos
    requires info'[id].nLastTry >= 0 && info'[id].nLastSuccess >= 0
    requires info'[id].fInTried ==> info'[id].nLastSuccess > 0
    ensures SameIndex(info, info') && -1 !in info
  {
  }

  lemma SameIndexKeeps(info: InfoTable, info': InfoTable, nIdCount: int, vRandom: seq<int>, mapAddr: map<NetAddr, int>)
    requires SameIndex(info, info')
    requires EntryInv(info, nIdCount) && RandomInv(info, vRandom) && AddrInv(info, mapAddr)
    ensures EntryInv(info', nIdCount) && RandomInv(info', vRandom) && AddrInv(info', mapAddr)
  {
    forall id ensures id in info' <==> id in info { assert id in info'.Keys <==> id in info.Keys; }
    forall a | a in mapAddr ensures mapAddr[a] in info' && info'[mapAddr[a]].addr.ip == a {
      var id := mapAddr[a];
      assert id in info && info'[id].addr == info[id].addr;
    }
    forall i | 0 <= i < |vRandom| ensures vRandom[i] in info' && info'[vRandom[i]].nRandomPos == i {
      var id := vRandom[i];
      assert id in info && info'[id].nRandomPos == info[id].nRandomPos;
    }
  }

  lemma NotYetTried(env: Env, key: Key, info: InfoTable, vvTried: TriedTable, nId: int, k: int)
    requires TriedInv(env, key, info, vvTried) && nId in info && !info[nId].fInTried
    requires 0 <= k < |vvTried| && |vvTried[k]| < TRIED_BUCKET_SIZE
    ensures nId !in vvTried[k] && Replaced(vvTried[k], vvTried[k] + [nId], nId, {})
  {
  }

  lemma NotYetTriedFull(env: Env, key: Key, info: InfoTable, vvTried: TriedTable, nId: int, k: int)
    requires TriedInv(env, key, info, vvTried) && nId in info && !info[nId].fInTried && 0 <= k < |vvTried|
    ensures nId !in vvTried[k]
  {
  }

  lemma PromotesAlone(info: InfoTable, info': InfoTable, nIdCount: int, nId: int)
    requires EntryInv(info, nIdCount) && nId in info && info[nId].nLastSuccess > 0
    requires info' == info[nId := info[nId].(fInTried := true, nRefCount := 0)]
    ensures Promoted(info, info', nId, {}) && SameIndex(info, info') && -1 !in info
  {
  }

  lemma PromotesOver(info: InfoTable, info': InfoTable, nIdCount: int, nId: int, out: int)
    requires EntryInv(info, nIdCount) && nId in info && info[nId].nLastSuccess > 0
    requires out in info && out != nId && info[out].fInTried
    requires info' == info[out := info[out].(fInTried := false, nRefCount := 1)]
                          [nId := info[nId].(fInTried := true, nRefCount := 0)]
    ensures Promoted(info, info', nId, {out}) && SameIndex(info, info') && -1 !in info
  {
  }

  lemma SlotReplaced(env: Env, key: Key, info: InfoTable, vvTried: TriedTable, k: int, perm: seq<int>, nPos: int,
                     nId: int)
    requires TriedInv(env, key, info, vvTried) && 0 <= k < |vvTried| && nId in info && !info[nId].fInTried
    requires NoDup(perm) && (forall x :: x in perm <==> x in vvTried[k]) && 0 <= nPos < |perm| <= TRIED_BUCKET_SIZE
    ensures perm[nPos] in info && info[perm[nPos]].fInTried && perm[nPos] != nId
    ensures Replaced(vvTried[k], perm[nPos := nId], nId, {perm[nPos]})
  {
    var out := perm[nPos];
    assert out in perm;
    assert out in vvTried[k];
    assert nId !in vvTried[k] && |vvTried[k]| <= TRIED_BUCKET_SIZE;
    ReplacedSlot(perm, nPos, nId);
  }

  lemma PromotedAppend(env: Env, key: Key, t: Tables, t': Tables, nId: int, k: int)
    requires Consistent(env, key, t, -1)
    requires nId in t.mapInfo && !t.mapInfo[nId].fInTried && t.mapInfo[nId].nLastSuccess > 0
    requires k == env.TriedBucket(key, t.mapInfo[nId].addr) && |t.vvTried[k]| < TRIED_BUCKET_SIZE
    requires t' == t.(mapInfo := t.mapInfo[nId := t.mapInfo[nId].(fInTried := true, nRefCount := 0)],
                      nNew := t.nNew - 1, nTried := t.nTried + 1,
                      vvNew := Without(t.vvNew, nId), vvTried := t.vvTried[k := t.vvTried[k] + [nId]])
    ensures Consistent(env, key, t', -1)
  {
    assert 0 <= k < |t.vvTried|;
    hide EntryInv, RandomInv, AddrInv, NewInv, TriedInv, SameIndex, Promoted, Replaced, NewIds, TriedIds;
    PromotesAlone(t.mapInfo, t'.mapInfo, t.nIdCount, nId);
    SameIndexKeeps(t.mapInfo, t'.mapInfo, t.nIdCount, t.vRandom, t.mapAddr);
    PromotedNew(t.mapInfo, t'.mapInfo, t.vvNew, nId);
    NotYetTried(env, key, t.mapInfo, t.vvTried, nId, k);
    PromotedTried(env, key, t.mapInfo, t'.mapInfo, t.vvTried, k, t.vvTried[k] + [nId], nId, {});
    PromotedIds(t.mapInfo, t'.mapInfo, nId, {});
  }

  lemma EvictedNew(info: InfoTable, info': InfoTable, vvNew: NewTable, nId: int, out: int, b: int)
    requires NewInv(info, vvNew, -1) && -1 !in info
    requires nId in info && !info[nId].fInTried && out in info && info[out].fInTried
    requires 0 <= b < |vvNew| && |Without(vvNew, nId)[b]| < NEW_BUCKET_SIZE
    requires info' == info[out := info[out].(fInTried := false, nRefCount := 1)]
                          [nId := info[nId].(fInTried := true, nRefCount := 0)]
    ensures NewInv(info', Without(vvNew, nId)[b := Without(vvNew, nId)[b] + {out}], -1)
  {
    var mid := info[nId := info[nId].(fInTried := true, nRefCount := 0)];
    assert Promoted(info, mid, nId, {});
    PromotedNew(info, mid, vvNew, nId);
    assert info' == mid[out := mid[out].(fInTried := false, nRefCount := 1)];
    DemotedNew(mid, info', Without(vvNew, nId), out, b);
  }

  lemma PromotedEvict(env: Env, key: Key, t: Tables, t': Tables, nId: int, k: int, perm: seq<int>, nPos: int, b: int)
    requires Consistent(env, key, t, -1)
    requires nId in t.mapInfo && !t.mapInfo[nId].fInTried && t.mapInfo[nId].nLastSuccess > 0
    requires k == env.TriedBucket(key, t.mapInfo[nId].addr) && 0 <= nPos < |perm| <= TRIED_BUCKET_SIZE
    requires NoDup(perm) && forall x :: x in perm <==> x in t.vvTried[k]
    requires 0 <= b < |t.vvNew| && |Without(t.vvNew, nId)[b]| < NEW_BUCKET_SIZE
    requires perm[nPos] in t.mapInfo
    requires t' == t.(mapInfo := t.mapInfo[perm[nPos] := t.mapInfo[perm[nPos]].(fInTried := false, nRefCount := 1)]
                                          [nId := t.mapInfo[nId].(fInTried := true, nRefCount := 0)],
                      vvNew := Without(t.vvNew, nId)[b := Without(t.vvNew, nId)[b] + {perm[nPos]}],
                      vvTried := t.vvTried[k := perm[nPos := nId]])
    ensures Consistent(env, key, t', -1)
  {
    assert 0 <= k < |t.vvTried|;
    hide EntryInv, RandomInv, AddrInv, NewInv, TriedInv, SameIndex, Promoted, Replaced, NoDup, NewIds, TriedIds;
    var out := perm[nPos];
    SlotReplaced(env, key, t.mapInfo, t.vvTried, k, perm, nPos, nId);
    PromotesOver(t.mapInfo, t'.mapInfo, t.nIdCount, nId, out);
    SameIndexKeeps(t.mapInfo, t'.mapInfo, t.nIdCount, t.vRandom, t.mapAddr);
    PromotedTried(env, key, t.mapInfo, t'.mapInfo, t.vvTried, k, perm[nPos := nId], nId, {out});
    PromotedIds(t.mapInfo, t'.mapInfo, nId, {out});
    EvictedNew(t.mapInfo, t'.mapInfo, t.vvNew, nId, out, b);
  }

  /** The bucket a demoted entry returns to: its own if that has room, else the one just left. */
  function ReturnBucket(env: Env, key: Key, vvNew: NewTable, info: AddrInfo, nOrigin: int): int
    requires |vvNew| == NEW_BUCKET_COUNT
  {
    var own := env.NewBucket(key, info.addr, info.source);
    if |vvNew[own]| < NEW_BUCKET_SIZE then own else nOrigin
  }

  /** Entry `nId` replaces entry `id` in a full "tried" bucket, and `id` returns to one "new" bucket. */
  ghost predicate Evicted(env: Env, key: Key, t: Tables, t': Tables, nId: int, nOrigin: int, id: int) {
    && nId in t.mapInfo && id in t.mapInfo && id != nId
    && |t.vvTried| == |t'.vvTried| == TRIED_BUCKET_COUNT && |t.vvNew| == NEW_BUCKET_COUNT && 0 <= nOrigin < |t.vvNew|
    && var k := env.TriedBucket(key, t.mapInfo[nId].addr);
    && |t.vvTried[k]| == TRIED_BUCKET_SIZE && id in t.vvTried[k]
    && (forall x :: x in t'.vvTried[k] <==> x == nId || (x in t.vvTried[k] && x != id))
    && var left := Without(t.vvNew, nId);
    && var b := ReturnBucket(env, key, left, t.mapInfo[id], nOrigin);
    && |left[b]| < NEW_BUCKET_SIZE
    && t' == t.(mapInfo := t.mapInfo[id := t.mapInfo[id].(fInTried := false, nRefCount := 1)]
                                    [nId := t.mapInfo[nId].(fInTried := true, nRefCount := 0)],
                vvNew := left[b := left[b] + {id}],
                vvTried := t.vvTried[k := t'.vvTried[k]])
  }

  /** The bucket just left has room, so an evicted entry always has somewhere to go. */
  lemma RoomToReturn(env: Env, key: Key, vvNew: NewTable, info: AddrInfo, nId: int, nOrigin: int)
    requires |vvNew| == NEW_BUCKET_COUNT && 0 <= nOrigin < |vvNew| && nId in vvNew[nOrigin]
    requires |vvNew[nOrigin]| <= NEW_BUCKET_SIZE
    ensures
      var left := Without(vvNew, nId);
      |left[ReturnBucket(env, key, left, info, nOrigin)]| < NEW_BUCKET_SIZE
  {
  }

  lemma ReadyToReplace(env: Env, key: Key, t: Tables, nId: int, k: int)
    requires Consistent(env, key, t, -1) && nId in t.mapInfo && !t.mapInfo[nId].fInTried && 0 <= k < |t.vvTried|
    ensures nId !in t.vvTried[k] && forall id :: id in t.vvTried[k] ==> id in t.mapInfo && id >= 0
  {
    forall id | id in t.vvTried[k] ensures id in t.mapInfo && id >= 0 {
      assert id in t.mapInfo;
    }
  }

  lemma EvictedConsistent(env: Env, key: Key, t: Tables, t': Tables, nId: int, nOrigin: int, k: int,
                          perm: seq<int>, nPos: int)
    requires Consistent(env, key, t, -1)
    requires nId in t.mapInfo && !t.mapInfo[nId].fInTried && t.mapInfo[nId].nLastSuccess > 0
    requires k == env.TriedBucket(key, t.mapInfo[nId].addr) && 0 <= nPos < |perm| == |t.vvTried[k]| == TRIED_BUCKET_SIZE
    requires NoDup(perm) && forall x :: x in perm <==> x in t.vvTried[k]
    requires 0 <= nOrigin < |t.vvNew| && nId in t.vvNew[nOrigin] && perm[nPos] in t.mapInfo
    requires
      var left := Without(t.vvNew, nId);
      var b := ReturnBucket(env, key, left, t.mapInfo[perm[nPos]], nOrigin);
      t' == t.(mapInfo := t.mapInfo[perm[nPos] := t.mapInfo[perm[nPos]].(fInTried := false, nRefCount := 1)]
                                   [nId := t.mapInfo[nId].(fInTried := true, nRefCount := 0)],
               vvNew := left[b := left[b] + {perm[nPos]}],
               vvTried := t.vvTried[k := perm[nPos := nId]])
    ensures Consistent(env, key, t', -1) && Evicted(env, key, t, t', nId, nOrigin, perm[nPos])
  {
    NotYetTriedFull(env, key, t.mapInfo, t.vvTried, nId, k);
    RoomToReturn(env, key, t.vvNew, t.mapInfo[perm[nPos]], nId, nOrigin);
    ReplacedSlot(perm, nPos, nId);
    PromotedEvict(env, key, t, t', nId, k, perm, nPos,
                  ReturnBucket(env, key, Without(t.vvNew, nId), t.mapInfo[perm[nPos]], nOrigin));
  }

  lemma ReplacedSlot(s: seq<int>, i: int, v: int)
    requires NoDup(s) && 0 <= i < |s| && v !in s
    ensures NoDup(s[i := v])
    ensures forall x :: x in s[i := v] <==> x == v || (x in s && x != s[i])
  {
    var r := s[i := v];
    forall x ensures x in r <==> x == v || (x in s && x != s[i]) {
      if x == v { assert r[i] == v; }
      if x in s && x != s[i] {
        var j :| 0 <= j < |s| && s[j] == x;
        assert r[j] == x;
      }
    }
  }

  // ---- Updates of statistics, and the steps of adding an address ----

  ghost predicate SameMembership(info: InfoTable, info': InfoTable, id: int) {
    && id in info && id in info' && info' == info[id := info'[id]]
    && info'[id].addr == info[id].addr && info'[id].fInTried == info[id].fInTried
  }

  lemma SameMembershipKeeps(env: Env, key: Key, info: InfoTable, info': InfoTable, vvTried: TriedTable, id: int)
    requires SameMembership(info, info', id) && TriedInv(env, key, info, vvTried)
    ensures TriedInv(env, key, info', vvTried)
    ensures NewIds(info') == NewIds(info) && TriedIds(info') == TriedIds(info)
  {
    forall x | x in info ensures info'[x].addr == info[x].addr && info'[x].fInTried == info[x].fInTried { }
    assert NewIds(info') == NewIds(info);
    assert TriedIds(info') == TriedIds(info);
  }

  /** Statistics change; nothing an index looks at does. */
  lemma Touched(env: Env, key: Key, t: Tables, t': Tables, id: int, entry: AddrInfo)
    requires Consistent(env, key, t, -1) && id in t.mapInfo
    requires t' == t.(mapInfo := t.mapInfo[id := entry])
    requires entry == t.mapInfo[id].(nServices := entry.nServices, nTime := entry.nTime, nLastTry := entry.nLastTry,
                                     nLastSuccess := entry.nLastSuccess, nAttempts := entry.nAttempts)
    requires entry.nLastTry >= 0 && entry.nLastSuccess >= 0 && (entry.fInTried ==> entry.nLastSuccess > 0)
    ensures Consistent(env, key, t', -1)
  {
    SameIndexAt(t.mapInfo, t'.mapInfo, t.nIdCount, id);
    hide EntryInv, RandomInv, AddrInv, NewInv, TriedInv, SameIndex;
    SameIndexKeeps(t.mapInfo, t'.mapInfo, t.nIdCount, t.vRandom, t.mapAddr);
    SameMembershipKeeps(env, key, t.mapInfo, t'.mapInfo, t.vvTried, id);
    SameCountKeeps(t.mapInfo, t'.mapInfo, t.vvNew, id);
  }

  lemma SameCountKeeps(info: InfoTable, info': InfoTable, vvNew: NewTable, id: int)
    requires NewInv(info, vvNew, -1) && SameMembership(info, info', id) && info'[id].nRefCount == info[id].nRefCount
    ensures NewInv(info', vvNew, -1)
  {
  }

  lemma CreatedIndex(t: Tables, t': Tables, entry: AddrInfo)
    requires EntryInv(t.mapInfo, t.nIdCount) && RandomInv(t.mapInfo, t.vRandom) && AddrInv(t.mapInfo, t.mapAddr)
    requires entry.addr.ip !in t.mapAddr && entry.nRandomPos == |t.vRandom| && !entry.fInTried
    requires entry.nLastTry >= 0 && entry.nLastSuccess >= 0
    requires t'.mapInfo == t.mapInfo[t.nIdCount := entry] && t'.vRandom == t.vRandom + [t.nIdCount]
    requires t'.mapAddr == t.mapAddr[entry.addr.ip := t.nIdCount] && t'.nIdCount == t.nIdCount + 1
    ensures EntryInv(t'.mapInfo, t'.nIdCount) && RandomInv(t'.mapInfo, t'.vRandom) && AddrInv(t'.mapInfo, t'.mapAddr)
  {
    assert t.nIdCount !in t.mapInfo;
    assert RandomInv(t'.mapInfo, t'.vRandom);
    assert AddrInv(t'.mapInfo, t'.mapAddr);
  }

  lemma CreatedBuckets(env: Env, key: Key, info: InfoTable, info': InfoTable, vvNew: NewTable, vvTried: TriedTable,
                       id: int, entry: AddrInfo)
    requires NewInv(info, vvNew, -1) && TriedInv(env, key, info, vvTried)
    requires id !in info && -1 !in info && id != -1
    requires info' == info[id := entry] && entry.nRefCount == 1 && !entry.fInTried
    ensures NewInv(info', vvNew, id) && TriedInv(env, key, info', vvTried)
    ensures NewIds(info') == NewIds(info) + {id} && TriedIds(info') == TriedIds(info)
  {
    forall c | 0 <= c < |vvNew| ensures id !in vvNew[c] { }
    RefsZero(vvNew, id);
    assert NewIds(info') == NewIds(info) + {id};
    assert TriedIds(info') == TriedIds(info);
    assert NewInv(info', vvNew, id);
  }

  /** A fresh entry, once its first reference is counted. */
  lemma Created(env: Env, key: Key, t: Tables, t': Tables, entry: AddrInfo)
    requires Consistent(env, key, t, -1) && entry.addr.ip !in t.mapAddr
    requires entry.nRefCount == 1 && !entry.fInTried && entry.nRandomPos == |t.vRandom|
    requires entry.nLastTry >= 0 && entry.nLastSuccess >= 0
    requires t' == t.(nIdCount := t.nIdCount + 1, mapInfo := t.mapInfo[t.nIdCount := entry],
                      mapAddr := t.mapAddr[entry.addr.ip := t.nIdCount], vRandom := t.vRandom + [t.nIdCount],
                      nNew := t.nNew + 1)
    ensures Consistent(env, key, t', t.nIdCount)
  {
    CreatedIndex(t, t', entry);
    CreatedBuckets(env, key, t.mapInfo, t'.mapInfo, t.vvNew, t.vvTried, t.nIdCount, entry);
  }

  lemma Counted(env: Env, key: Key, t: Tables, t': Tables, id: int)
    requires Consistent(env, key, t, -1) && id in t.mapInfo && !t.mapInfo[id].fInTried
    requires t.mapInfo[id].nRefCount < NEW_BUCKETS_PER_ADDRESS
    requires t' == t.(mapInfo := t.mapInfo[id := t.mapInfo[id].(nRefCount := t.mapInfo[id].nRefCount + 1)])
    ensures Consistent(env, key, t', id)
  {
    assert t.mapInfo[id].nLastTry >= 0 && t.mapInfo[id].nLastSuccess >= 0;
    SameIndexAt(t.mapInfo, t'.mapInfo, t.nIdCount, id);
    hide EntryInv, RandomInv, AddrInv, NewInv, TriedInv, SameIndex;
    SameIndexKeeps(t.mapInfo, t'.mapInfo, t.nIdCount, t.vRandom, t.mapAddr);
    SameMembershipKeeps(env, key, t.mapInfo, t'.mapInfo, t.vvTried, id);
    CountedNew(t.mapInfo, t'.mapInfo, t.vvNew, id);
  }

  lemma CountedNew(info: InfoTable, info': InfoTable, vvNew: NewTable, id: int)
    requires NewInv(info, vvNew, -1) && SameMembership(info, info', id) && !info[id].fInTried && -1 !in info
    requires info'[id].nRefCount == info[id].nRefCount + 1 <= NEW_BUCKETS_PER_ADDRESS
    ensures NewInv(info', vvNew, id)
  {
  }

  lemma Stored(env: Env, key: Key, t: Tables, t': Tables, id: int, b: int)
    requires Consistent(env, key, t, id) && id in t.mapInfo && !t.mapInfo[id].fInTried
    requires 0 <= b < |t.vvNew| && id !in t.vvNew[b] && |t.vvNew[b]| < NEW_BUCKET_SIZE
    requires t' == t.(vvNew := t.vvNew[b := t.vvNew[b] + {id}])
    ensures Consistent(env, key, t', -1)
  {
    forall x { RefsUpdate(t.vvNew, b, t.vvNew[b] + {id}, x); }
  }
}

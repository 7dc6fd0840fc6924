/** The stochastic address manager: add, promote, evict, shrink and sample, in place. */
module AddrMan {
  import opened Collections
  import opened AddrTables
  import opened Bits
  import opened Eviction
  import AddrCheck
  import AddrDisk
  import AddrLoad
  import AddrRoundTrip

  /** Any value the random source may return. */
  method GetRandInt(nMax: int) returns (r: int)
    requires 0 <= nMax
    ensures if nMax == 0 then r == 0 else 0 <= r < nMax
  {
    if nMax == 0 { return 0; }
    r :| 0 <= r < nMax;
  }

  class AddrMan {
    const env: Env
    var nKey: Key
    var nIdCount: int
    var mapInfo: InfoTable
    var mapAddr: map<NetAddr, int>
    var vRandom: seq<int>
    var nTried: int
    var vvTried: TriedTable
    var nNew: int
    var vvNew: NewTable

    function T(): Tables
      reads this
    {
      Tables(nIdCount, mapInfo, mapAddr, vRandom, nTried, vvTried, nNew, vvNew)
    }

    ghost predicate ValidPending(pend: int)
      reads this
    {
      Consistent(env, nKey, T(), pend)
    }

    ghost predicate Valid()
      reads this
    {
      ValidPending(-1)
    }

    function Known(): set<NetAddr>
      reads this
    {
      mapAddr.Keys
    }

    constructor (env: Env, key: Key)
      ensures Valid() && Known() == {}
      ensures this.env == env && nKey == key
    {
      this.env := env;
      nKey := key;
      nIdCount, mapInfo, mapAddr, vRandom := 0, map[], map[], [];
      nTried, vvTried := 0, seq(TRIED_BUCKET_COUNT, _ => []);
      nNew, vvNew := 0, seq(NEW_BUCKET_COUNT, _ => {});
      new;
      assert NewIds(mapInfo) == {} && TriedIds(mapInfo) == {};
    }

    /** The id of an address, whatever its port. */
    function Find(addr: NetAddr): Option<int>
      reads this
    {
      if addr in mapAddr && mapAddr[addr] in mapInfo then Some(mapAddr[addr]) else None
    }

    method SwapRandom(nRndPos1: int, nRndPos2: int)
      requires RandomInv(mapInfo, vRandom)
      requires 0 <= nRndPos1 < |vRandom| && 0 <= nRndPos2 < |vRandom|
      modifies this`mapInfo, this`vRandom
      ensures RandomInv(mapInfo, vRandom) && SameEntries(old(mapInfo), mapInfo)
      ensures vRandom == old(vRandom)[nRndPos1 := old(vRandom)[nRndPos2]][nRndPos2 := old(vRandom)[nRndPos1]]
    {
      if nRndPos1 == nRndPos2 { return; }
      var nId1, nId2 := vRandom[nRndPos1], vRandom[nRndPos2];
      mapInfo := mapInfo[nId1 := mapInfo[nId1].(nRandomPos := nRndPos2)];
      mapInfo := mapInfo[nId2 := mapInfo[nId2].(nRandomPos := nRndPos1)];
      vRandom := vRandom[nRndPos1 := nId2];
      vRandom := vRandom[nRndPos2 := nId1];
    }

    /** Erases the entry from vRandom, mapAddr and mapInfo. */
    method Forget(id: int)
      requires RandomInv(mapInfo, vRandom) && id in mapInfo
      modifies this`mapInfo, this`mapAddr, this`vRandom
      ensures RandomInv(mapInfo, vRandom)
      ensures SameEntries(old(mapInfo) - {id}, mapInfo)
      ensures mapAddr == old(mapAddr) - {old(mapInfo)[id].addr.ip}
    {
      SwapRandom(mapInfo[id].nRandomPos, |vRandom| - 1);
      vRandom := vRandom[..|vRandom| - 1];
      mapAddr := mapAddr - {mapInfo[id].addr.ip};
      mapInfo := mapInfo - {id};
    }

    /** Gives up one reference of `id` in bucket `b`; the entry goes when it was the last one. */
    method Unref(id: int, b: int, ghost pend: int)
      requires ValidPending(pend) && 0 <= b < |vvNew| && id in vvNew[b] && id in mapInfo && id != pend
      modifies this`mapInfo, this`mapAddr, this`vRandom, this`nNew, this`vvNew
      ensures ValidPending(pend) && Unreferenced(old(T()), T(), id, b)
    {
      ghost var t := T();
      LosesReference(env, nKey, t, id, pend);
      hide Consistent, RandomInv, SameButPos;
      mapInfo := mapInfo[id := mapInfo[id].(nRefCount := mapInfo[id].nRefCount - 1)];
      if mapInfo[id].nRefCount == 0 {
        Forget(id);
        nNew := nNew - 1;
        SameWithout(t.mapInfo, mapInfo, id);
      }
      vvNew := vvNew[b := vvNew[b] - {id}];
      if t.mapInfo[id].nRefCount == 1 {
        Dropped(env, nKey, t, T(), id, b, pend);
      } else {
        Released(env, nKey, t, T(), id, b, pend);
      }
    }

    ghost function LastSuccess(): int -> int
      reads this
    {
      var info := mapInfo;
      (id: int) => if id in info then info[id].nLastSuccess else 0
    }

    /** Shuffles the front of a bucket and names the slot to overwrite. */
    method SelectTried(nKBucket: int) returns (nOldestPos: int, ghost draws: seq<int>, ghost best: nat)
      requires 0 <= nKBucket < |vvTried| && vvTried[nKBucket] != [] && NoDup(vvTried[nKBucket])
      requires forall id :: id in vvTried[nKBucket] ==> id in mapInfo && id >= 0
      modifies this`vvTried
      ensures Draws(old(vvTried)[nKBucket], draws)
      ensures |draws| == if |old(vvTried)[nKBucket]| < TRIED_ENTRIES_INSPECT_ON_EVICT
                         then |old(vvTried)[nKBucket]| else TRIED_ENTRIES_INSPECT_ON_EVICT
      ensures vvTried == old(vvTried)[nKBucket := Shuffled(old(vvTried)[nKBucket], draws)]
      ensures best < |draws| && 0 <= nOldestPos == draws[best] < |old(vvTried)[nKBucket]|
      ensures IsOldestRound(vvTried[nKBucket], LastSuccess(), |draws|, best)
      ensures NoDup(vvTried[nKBucket]) && SameMembers(vvTried[nKBucket], old(vvTried)[nKBucket])
    {
      hide Draws, Shuffled, IsOldestRound;
      var vTried := vvTried[nKBucket];
      ghost var bucket := vTried;
      NoDraws(bucket);
      var nOldest := -1;
      nOldestPos, draws, best := -1, [], 0;
      var i := 0;
      while i < TRIED_ENTRIES_INSPECT_ON_EVICT && i < |vTried|
        invariant vvTried == old(vvTried)
        invariant 0 <= i <= |bucket| && i <= TRIED_ENTRIES_INSPECT_ON_EVICT
        invariant Draws(bucket, draws) && |draws| == i
        invariant vTried == Shuffled(bucket, draws)
        invariant NoDup(vTried) && SameMembers(vTried, bucket)
        invariant i == 0 <==> nOldest == -1
        invariant i > 0 ==> 0 <= nOldestPos < |bucket|
        invariant i > 0 ==> best < i && nOldestPos == draws[best] && nOldest == vTried[best] && nOldest in bucket
        invariant i > 0 ==> IsOldestRound(vTried, LastSuccess(), i, best)
      {
        var r := GetRandInt(|vTried| - i);
        var nPos := r + i;
        var nTemp := vTried[nPos];
        SwapKeeps(vTried, i, nPos);
        ghost var before := vTried;
        vTried := vTried[nPos := vTried[i]];
        vTried := vTried[i := nTemp];
        assert vTried == Swap(before, i, nPos);
        OneMoreDraw(bucket, draws, nPos);
        draws := draws + [nPos];
        assert nTemp in before && nTemp in bucket;
        ghost var best0 := best;
        if nOldest == -1 || mapInfo[nTemp].nLastSuccess < mapInfo[nOldest].nLastSuccess {
          nOldest, nOldestPos, best := nTemp, nPos, i;
        }
        NextRound(before, LastSuccess(), i, nPos, best0, best);
        i := i + 1;
      }
      vvTried := vvTried[nKBucket := vTried];
    }

    /** Erases the id from all "new" buckets, counting its references down. */
    method LeaveNew(nId: int)
      requires nId in mapInfo && mapInfo[nId].nRefCount == Refs(vvNew, nId)
      modifies this`mapInfo, this`vvNew
      ensures vvNew == Without(old(vvNew), nId)
      ensures mapInfo == old(mapInfo)[nId := old(mapInfo)[nId].(nRefCount := 0)]
    {
      ghost var info0, new0 := mapInfo, vvNew;
      var b := 0;
      while b < |vvNew|
        invariant 0 <= b <= |vvNew| == |new0|
        invariant forall c :: 0 <= c < |vvNew| ==> vvNew[c] == if c < b then new0[c] - {nId} else new0[c]
        invariant mapInfo == info0[nId := info0[nId].(nRefCount := Refs(vvNew, nId))]
      {
        if nId in vvNew[b] {
          RefsUpdate(vvNew, b, vvNew[b] - {nId}, nId);
          vvNew := vvNew[b := vvNew[b] - {nId}];
          mapInfo := mapInfo[nId := mapInfo[nId].(nRefCount := mapInfo[nId].nRefCount - 1)];
        }
        b := b + 1;
      }
      assert vvNew == Without(new0, nId);
      RefsWithout(new0, nId, nId);
    }

    /** Overwrites one slot of a full bucket with `nId` and returns the entry found there to a
        "new" bucket. */
    method Replace(nId: int, nOrigin: int, nKBucket: int) returns (ghost perm: seq<int>, ghost nPos: int)
      requires nId in mapInfo && |vvNew| == NEW_BUCKET_COUNT && 0 <= nOrigin < |vvNew|
      requires 0 <= nKBucket < |vvTried| && vvTried[nKBucket] != [] && NoDup(vvTried[nKBucket])
      requires nId !in vvTried[nKBucket] && forall id :: id in vvTried[nKBucket] ==> id in mapInfo && id >= 0
      modifies this`mapInfo, this`vvTried, this`vvNew, this`nNew
      ensures NoDup(perm) && SameMembers(perm, old(vvTried)[nKBucket])
      ensures 0 <= nPos < |perm| && perm[nPos] in old(mapInfo)
      ensures
        var id := perm[nPos];
        var b := ReturnBucket(env, nKey, old(vvNew), old(mapInfo)[id], nOrigin);
        T() == old(T()).(mapInfo := old(mapInfo)[id := old(mapInfo)[id].(fInTried := false, nRefCount := 1)]
                                                [nId := old(mapInfo)[nId].(fInTried := true)],
                         vvNew := old(vvNew)[b := old(vvNew)[b] + {id}],
                         vvTried := old(vvTried)[nKBucket := perm[nPos := nId]],
                         nNew := old(nNew) + 1)
    {
      hide Draws, Shuffled, IsOldestRound, NoDup, Env.NewBucket;
      ghost var draws, best;
      var slot;
      slot, draws, best := SelectTried(nKBucket);
      var vTried := vvTried[nKBucket];
      perm, nPos := vTried, slot;
      var idOld := vTried[slot];
      assert idOld in old(vvTried)[nKBucket] && idOld != nId;
      var nUBucket := env.NewBucket(nKey, mapInfo[idOld].addr, mapInfo[idOld].source);
      mapInfo := mapInfo[idOld := mapInfo[idOld].(fInTried := false, nRefCount := 1)];
      if |vvNew[nUBucket]| < NEW_BUCKET_SIZE {
        vvNew := vvNew[nUBucket := vvNew[nUBucket] + {idOld}];
      } else {
        vvNew := vvNew[nOrigin := vvNew[nOrigin] + {idOld}];
      }
      nNew := nNew + 1;
      vvTried := vvTried[nKBucket := vTried[slot := nId]];
      assert vvTried == old(vvTried)[nKBucket := vTried[slot := nId]];
      mapInfo := mapInfo[nId := mapInfo[nId].(fInTried := true)];
    }

    /** Moves an entry from every "new" bucket to its "tried" bucket, sending one entry back when
        that is full. */
    method MakeTried(nId: int, nOrigin: int) returns (ghost out: Option<int>)
      requires Valid() && nId in mapInfo && mapInfo[nId].nLastSuccess > 0
      requires 0 <= nOrigin < |vvNew| && nId in vvNew[nOrigin]
      modifies this`mapInfo, this`vvTried, this`vvNew, this`nNew, this`nTried
      ensures Valid()
      ensures
        match out
        case None =>
          var k := env.TriedBucket(nKey, old(mapInfo)[nId].addr);
          && |old(vvTried)[k]| < TRIED_BUCKET_SIZE
          && mapInfo == old(mapInfo)[nId := old(mapInfo)[nId].(fInTried := true, nRefCount := 0)]
          && vvNew == Without(old(vvNew), nId)
          && vvTried == old(vvTried)[k := old(vvTried)[k] + [nId]]
          && nTried == old(nTried) + 1 && nNew == old(nNew) - 1
        case Some(id) => Evicted(env, nKey, old(T()), T(), nId, nOrigin, id)
    {
      hide Consistent, Evicted, NoDup, Refs, Without, Env.TriedBucket, Env.NewBucket;
      ghost var t := T();
      LeavesNew(env, nKey, t, nId, nOrigin);
      LeaveNew(nId);
      nNew := nNew - 1;
      var nKBucket := env.TriedBucket(nKey, mapInfo[nId].addr);
      if |vvTried[nKBucket]| < TRIED_BUCKET_SIZE {
        vvTried := vvTried[nKBucket := vvTried[nKBucket] + [nId]];
        nTried := nTried + 1;
        mapInfo := mapInfo[nId := mapInfo[nId].(fInTried := true)];
        PromotedAppend(env, nKey, t, T(), nId, nKBucket);
        return None;
      }
      ReadyToReplace(env, nKey, t, nId, nKBucket);
      ghost var perm, nPos := Replace(nId, nOrigin, nKBucket);
      EvictedConsistent(env, nKey, t, T(), nId, nOrigin, nKBucket, perm, nPos);
      return Some(perm[nPos]);
    }

    /** The first deletable entry in the order given. */
    method FirstTerrible(ids: seq<int>, nNow: int) returns (i: nat)
      requires forall j :: 0 <= j < |ids| ==> ids[j] in mapInfo
      ensures i <= |ids|
      ensures i < |ids| ==> IsTerrible(mapInfo[ids[i]], nNow)
      ensures forall j :: 0 <= j < i ==> !IsTerrible(mapInfo[ids[j]], nNow)
    {
      i := 0;
      while i < |ids|
        invariant 0 <= i <= |ids|
        invariant forall j :: 0 <= j < i ==> !IsTerrible(mapInfo[ids[j]], nNow)
      {
        if IsTerrible(mapInfo[ids[i]], nNow) { return; }
        i := i + 1;
      }
    }

    /** The entry seen longest ago among up to four random ones, the first of them on a tie. */
    method OldestOfFour(ids: seq<int>) returns (nOldest: int, ghost picked: set<int>)
      requires ids != [] && StrictlyAscending(ids)
      requires forall j :: 0 <= j < |ids| ==> ids[j] in mapInfo && ids[j] >= 0
      ensures nOldest in mapInfo && nOldest in picked && |picked| <= 4
      ensures forall id :: id in picked ==> id in ids
      ensures forall id :: id in picked ==> id in mapInfo && mapInfo[nOldest].nTime <= mapInfo[id].nTime
      ensures forall id :: id in picked && id < nOldest ==> mapInfo[nOldest].nTime < mapInfo[id].nTime
    {
      hide Pow2, IsTerrible, StrictlyAscending, Inspected;
      var n0 := GetRandInt(|ids|);
      var n1 := GetRandInt(|ids|);
      var n2 := GetRandInt(|ids|);
      var n3 := GetRandInt(|ids|);
      ghost var seen: set<int> := {};
      var nI := 0;
      nOldest, picked := -1, {};
      NothingInspected(mapInfo, ids, n0, n1, n2, n3);
      while nI < |ids|
        invariant 0 <= nI <= |ids| && (n0 < nI ==> picked != {})
        invariant Inspected(mapInfo, ids, {n0, n1, n2, n3}, nI, seen, picked, nOldest)
      {
        InspectedNext(mapInfo, ids, {n0, n1, n2, n3}, nI, seen, picked, nOldest);
        if nI == n0 || nI == n1 || nI == n2 || nI == n3 {
          picked, seen := picked + {ids[nI]}, seen + {nI};
          if nOldest == -1 || mapInfo[ids[nI]].nTime < mapInfo[nOldest].nTime {
            nOldest := ids[nI];
          }
        }
        nI := nI + 1;
      }
      FourRanks(n0, n1, n2, n3);
      InspectedAll(mapInfo, ids, {n0, n1, n2, n3}, seen, picked, nOldest);
    }

    /** Makes room in a "new" bucket: the first terrible entry goes, else the oldest of up to four
        random ones. */
    method ShrinkNew(nUBucket: int, nNow: int, ghost pend: int)
      returns (r: int, ghost victim: int, ghost picked: set<int>)
      requires ValidPending(pend) && 0 <= nUBucket < |vvNew| && vvNew[nUBucket] != {} && pend !in vvNew[nUBucket]
      modifies this`mapInfo, this`mapAddr, this`vRandom, this`nNew, this`vvNew
      ensures ValidPending(pend) && Unreferenced(old(T()), T(), victim, nUBucket)
      ensures Shrunk(old(mapInfo), old(vvNew)[nUBucket], nNow, r, victim, picked)
    {
      hide Consistent, IsTerrible, Unreferenced;
      var ids := Ascending(vvNew[nUBucket]);
      forall j | 0 <= j < |ids| ensures ids[j] in mapInfo && ids[j] >= 0 && ids[j] in vvNew[nUBucket] {
        assert ids[j] in ids;
        BucketIds(env, nKey, T(), pend, nUBucket, ids[j]);
      }
      forall id | id in vvNew[nUBucket] ensures id in mapInfo { BucketIds(env, nKey, T(), pend, nUBucket, id); }
      var i := FirstTerrible(ids, nNow);
      if i < |ids| {
        victim, picked := ids[i], {ids[i]};
        FirstIsLeast(mapInfo, vvNew[nUBucket], ids, i, nNow);
        assert Shrunk(mapInfo, vvNew[nUBucket], nNow, 0, victim, picked);
        Unref(ids[i], nUBucket, pend);
        return 0, victim, picked;
      }
      forall id | id in vvNew[nUBucket] ensures !IsTerrible(mapInfo[id], nNow) {
        assert id in ids;
        var j :| 0 <= j < |ids| && ids[j] == id;
      }
      var nOldest;
      nOldest, picked := OldestOfFour(ids);
      victim := nOldest;
      forall id | id in picked ensures id in vvNew[nUBucket] { assert id in ids; }
      assert Shrunk(mapInfo, vvNew[nUBucket], nNow, 1, victim, picked);
      Unref(nOldest, nUBucket, pend);
      return 1, victim, picked;
    }

    /** The address is known under exactly this port. */
    predicate Matches(addr: Service)
      reads this
    {
      Find(addr.ip).Some? && mapInfo[Find(addr.ip).value].addr == addr
    }

    /** A "new" bucket holding the id, searched for from a random start. */
    method FindBucket(nId: int) returns (nUBucket: int)
      requires Valid() && nId in mapInfo && !mapInfo[nId].fInTried
      ensures 0 <= nUBucket < |vvNew| && nId in vvNew[nUBucket]
    {
      Referenced(env, nKey, T(), nId);
      hide Consistent;
      var nRnd := GetRandInt(NEW_BUCKET_COUNT);
      ghost var holder :| 0 <= holder < |vvNew| && nId in vvNew[holder];
      nUBucket := -1;
      var n := 0;
      while n < NEW_BUCKET_COUNT
        invariant 0 <= n <= NEW_BUCKET_COUNT
        invariant n <= (holder - nRnd) % NEW_BUCKET_COUNT
        decreases NEW_BUCKET_COUNT - n
      {
        ComesRound(n, nRnd, holder);
        var nB := (n + nRnd) % NEW_BUCKET_COUNT;
        if nId in vvNew[nB] {
          return nB;
        }
        n := n + 1;
      }
    }

    /** Marks an entry good, moving it to "tried".  The source's exit for an entry found in no
        bucket cannot be taken, so it is not here. */
    method Good_(addr: Service, nTime: int) returns (ghost out: Option<int>, ghost nOrigin: int)
      requires Valid() && nTime > 0
      modifies this`mapInfo, this`vvTried, this`vvNew, this`nNew, this`nTried
      ensures Valid()
      ensures !old(Matches(addr)) ==> T() == old(T()) && out == None
      ensures old(Matches(addr)) ==>
        var id := old(Find(addr.ip)).value;
        var entry := old(mapInfo)[id].(nLastSuccess := nTime, nLastTry := nTime, nTime := U32(nTime), nAttempts := 0);
        Promotion(env, nKey, old(T()).(mapInfo := old(mapInfo)[id := entry]), T(), id, nOrigin, out)
      ensures old(Matches(addr)) ==>
        var id := old(Find(addr.ip)).value;
        id in mapInfo && mapInfo[id].fInTried && KeptUntil(id, nTime + 60)
    {
      hide Consistent, Evicted;
      TableSizes(env, nKey, T());
      out, nOrigin := None, 0;
      var pnId := Find(addr.ip);
      if pnId == None { return; }
      var nId := pnId.value;
      if mapInfo[nId].addr != addr { return; }
      ghost var t0 := T();
      KnownEntry(env, nKey, t0, addr.ip);
      var entry := mapInfo[nId].(nLastSuccess := nTime, nLastTry := nTime, nTime := U32(nTime), nAttempts := 0);
      mapInfo := mapInfo[nId := entry];
      Touched(env, nKey, t0, T(), nId, entry);
      ghost var t1 := T();
      if mapInfo[nId].fInTried {
        PromotedKept(env, nKey, t1, T(), nId, nOrigin, out);
        return;
      }
      var nUBucket := FindBucket(nId);
      nOrigin := nUBucket;
      out := MakeTried(nId, nUBucket);
      PromotedKept(env, nKey, t1, T(), nId, nOrigin, out);
    }

    /** What a repeated report changes in a known entry, and whether it earns another reference: the
        draw has to be zero out of two to the number of references. */
    method Refresh(nId: int, addr: Address, nTimePenalty: int, nNow: int) returns (more: bool, ghost draw: int)
      requires nId in mapInfo && mapInfo[nId].nRefCount >= 0
      modifies this`mapInfo
      ensures mapInfo == old(mapInfo)[nId := Refreshed(old(mapInfo)[nId], addr, nTimePenalty, nNow)]
      ensures 0 <= draw < Pow2(mapInfo[nId].nRefCount)
      ensures more <==> Earns(mapInfo[nId], addr, draw)
    {
      draw := 0;
      var info := mapInfo[nId];
      var fCurrentlyOnline := nNow - addr.nTime < ONE_DAY;
      var nUpdateInterval := if fCurrentlyOnline then ONE_HOUR else ONE_DAY;
      if addr.nTime != 0 && (info.nTime == 0 || info.nTime < addr.nTime - nUpdateInterval - nTimePenalty) {
        info := info.(nTime := U32(Max(0, addr.nTime - nTimePenalty)));
      }
      info := info.(nServices := info.nServices + addr.nServices);
      mapInfo := mapInfo[nId := info];

      more := false;
      if addr.nTime == 0 || (info.nTime != 0 && addr.nTime <= info.nTime) { return; }
      if info.fInTried { return; }
      if info.nRefCount == NEW_BUCKETS_PER_ADDRESS { return; }
      var nFactor := 1;
      var n := 0;
      while n < info.nRefCount
        invariant 0 <= n <= info.nRefCount && nFactor == Pow2(n)
      {
        nFactor := nFactor * 2;
        n := n + 1;
      }
      more := true;
      if nFactor > 1 {
        var r := GetRandInt(nFactor);
        draw := r;
        if r != 0 { more := false; }
      }
    }

    /** A fresh entry with no reference yet. */
    method Create(addr: Address, addrSource: NetAddr, nTimePenalty: int) returns (nId: int)
      modifies this`nIdCount, this`mapInfo, this`mapAddr, this`vRandom, this`nNew
      ensures nId == old(nIdCount)
      ensures T() == old(T()).(nIdCount := nId + 1,
                               mapInfo := old(mapInfo)[nId := Fresh(addr, addrSource, nTimePenalty, |old(vRandom)|)],
                               mapAddr := old(mapAddr)[addr.service.ip := nId], vRandom := old(vRandom) + [nId],
                               nNew := old(nNew) + 1)
    {
      nId := nIdCount;
      nIdCount := nIdCount + 1;
      mapInfo := mapInfo[nId := AddrInfo(addr.service, addr.nServices, addr.nTime, addrSource, 0, 0, 0, 0, false, -1)];
      mapAddr := mapAddr[addr.service.ip := nId];
      mapInfo := mapInfo[nId := mapInfo[nId].(nRandomPos := |vRandom|)];
      vRandom := vRandom + [nId];
      mapInfo := mapInfo[nId := mapInfo[nId].(nTime := U32(Max(0, mapInfo[nId].nTime - nTimePenalty)))];
      nNew := nNew + 1;
    }

    /** Stores one more reference, making room if the bucket is full. */
    method Store(nId: int, nUBucket: int, nNow: int) returns (ghost victim: Option<int>)
      requires ValidPending(nId) && nId in mapInfo && !mapInfo[nId].fInTried
      requires 0 <= nUBucket < |vvNew| && nId !in vvNew[nUBucket]
      modifies this`mapInfo, this`mapAddr, this`vRandom, this`nNew, this`vvNew
      ensures Valid()
      ensures Stores(old(T()), T(), nId, nUBucket, nNow, victim)
    {
      hide Consistent, Unreferenced, Shrunk, Stores, SameButPos;
      ghost var t := T();
      BucketFits(env, nKey, t, nId, nUBucket);
      victim := None;
      if |vvNew[nUBucket]| == NEW_BUCKET_SIZE {
        ghost var r, v, picked := ShrinkNew(nUBucket, nNow, nId);
        victim := Some(v);
        Survives(t, T(), v, nUBucket, nId);
        ghost var t1 := T();
        vvNew := vvNew[nUBucket := vvNew[nUBucket] + {nId}];
        Stored(env, nKey, t1, T(), nId, nUBucket);
        StoresOver(t, t1, T(), nId, nUBucket, nNow, v, r, picked);
        return;
      }
      vvNew := vvNew[nUBucket := vvNew[nUBucket] + {nId}];
      Stored(env, nKey, t, T(), nId, nUBucket);
      StoresPlain(t, T(), nId, nUBucket, nNow);
    }

    /** Counts and stores one more reference, `t0` being the tables before the address came in. */
    method AddReference(nId: int, nUBucket: int, fNew: bool, nNow: int, ghost t0: Tables)
      returns (ghost victim: Option<int>)
      requires Consistent(env, nKey, t0, -1) && nId in mapInfo && 0 <= nUBucket < |vvNew| && nId !in vvNew[nUBucket]
      requires fNew ==>
        && nId == t0.nIdCount && mapInfo[nId].addr.ip !in t0.mapAddr
        && mapInfo[nId].nRefCount == 0 && !mapInfo[nId].fInTried && mapInfo[nId].nRandomPos == |t0.vRandom|
        && mapInfo[nId].nLastTry >= 0 && mapInfo[nId].nLastSuccess >= 0
        && T() == t0.(nIdCount := nId + 1, mapInfo := t0.mapInfo[nId := mapInfo[nId]],
                      mapAddr := t0.mapAddr[mapInfo[nId].addr.ip := nId], vRandom := t0.vRandom + [nId],
                      nNew := t0.nNew + 1)
      requires !fNew ==>
        && Valid() && nId in t0.mapInfo && mapInfo[nId].addr == t0.mapInfo[nId].addr
        && T() == t0.(mapInfo := t0.mapInfo[nId := mapInfo[nId]])
        && !mapInfo[nId].fInTried && mapInfo[nId].nRefCount < NEW_BUCKETS_PER_ADDRESS
      modifies this`mapInfo, this`mapAddr, this`vRandom, this`nNew, this`vvNew
      ensures Valid() && Added(t0, T(), old(mapInfo)[nId].addr.ip, nUBucket, nNow, victim)
      ensures Rewritten(t0.mapInfo, mapInfo, nId, old(mapInfo)[nId])
      ensures nId in vvNew[nUBucket] && mapAddr[old(mapInfo)[nId].addr.ip] == nId
    {
      hide Consistent, Stores, Added, Rewritten, SameButCounts;
      ghost var t1 := T();
      ghost var ip := mapInfo[nId].addr.ip;
      mapInfo := mapInfo[nId := mapInfo[nId].(nRefCount := mapInfo[nId].nRefCount + 1)];
      ghost var t2 := T();
      assert t2.mapInfo == t0.mapInfo[nId := mapInfo[nId]];
      if fNew {
        Created(env, nKey, t0, t2, mapInfo[nId]);
      } else {
        Counted(env, nKey, t1, t2, nId);
        KnownUnder(env, nKey, t0, nId);
      }
      victim := Store(nId, nUBucket, nNow);
      AddedFrom(env, nKey, t0, t2, T(), ip, nUBucket, nId, nNow, victim);
      RecountedSame(t0.mapInfo, mapInfo, nId, t1.mapInfo[nId], t2.mapInfo[nId].nRefCount);
    }

    /** Adds or refreshes an address reported by `source`. */
    method Add_(addr: Address, source: NetAddr, nTimePenalty: int, nNow: int) returns (fNew: bool,
                ghost victim: Option<int>, ghost draw: int)
      requires Valid()
      modifies this`nIdCount, this`mapInfo, this`mapAddr, this`vRandom, this`nNew, this`vvNew
      ensures Valid()
      ensures !env.routable(addr.service.ip) ==> !fNew && T() == old(T())
      ensures env.routable(addr.service.ip) ==>
        AddedTo(env, nKey, old(T()), T(), addr, source, nTimePenalty, nNow, fNew, victim, draw)
    {
      hide Consistent;
      TableSizes(env, nKey, T());
      victim, draw := None, 0;
      fNew := false;
      if !env.routable(addr.service.ip) { return; }
      ghost var t0 := T();
      var nId;
      var pnId := Find(addr.service.ip);
      if pnId.Some? {
        nId := pnId.value;
        KnownEntry(env, nKey, t0, addr.service.ip);
        var more;
        more, draw := Refresh(nId, addr, nTimePenalty, nNow);
        Touched(env, nKey, t0, T(), nId, mapInfo[nId]);
        if !more { return; }
      } else {
        nId := Create(addr, source, nTimePenalty);
        fNew := true;
        NotStored(env, nKey, t0, nId);
      }
      ghost var t1 := T();
      var nUBucket := env.NewBucket(nKey, mapInfo[nId].addr, source);
      if nId !in vvNew[nUBucket] {
        if !fNew { RefBound(env, nKey, t1, nId); }
        victim := AddReference(nId, nUBucket, fNew, nNow, t0);
      }
    }

    /** The entry is not to be dropped up to that time. */
    ghost predicate KeptUntil(id: int, time: int)
      requires id in mapInfo
      reads `mapInfo
    {
      forall now :: now <= time ==> !IsTerrible(mapInfo[id], now)
    }

    /** Three attempts without a success before or between make an entry one to be dropped, from a minute
        after the last. */
    method AttemptThrice(addr: Service, first: int, second: int, third: int)
      requires Valid() && 0 <= first && 0 <= second && 0 <= third
      modifies this`mapInfo
      ensures Valid()
      ensures old(Matches(addr)) ==>
        var id := Find(addr.ip).value;
        && id in old(mapInfo) && id in mapInfo
        && (old(mapInfo)[id].nLastSuccess == 0 && old(mapInfo)[id].nAttempts >= 0 ==>
              forall now :: now > third + 60 ==> IsTerrible(mapInfo[id], now))
    {
      hide Consistent;
      Attempt_(addr, first);
      Attempt_(addr, second);
      Attempt_(addr, third);
    }

    method Attempt_(addr: Service, nTime: int)
      requires Valid() && nTime >= 0
      modifies this`mapInfo
      ensures Valid()
      ensures !Matches(addr) ==> mapInfo == old(mapInfo)
      ensures Matches(addr) ==>
        var id := Find(addr.ip).value;
        mapInfo == old(mapInfo)[id := old(mapInfo)[id].(nLastTry := nTime, nAttempts := old(mapInfo)[id].nAttempts + 1)]
      ensures Matches(addr) && nTime > 0 ==> KeptUntil(Find(addr.ip).value, nTime + 60)
    {
      var pnId := Find(addr.ip);
      if pnId == None { return; }
      var nId := pnId.value;
      if mapInfo[nId].addr != addr { return; }
      ghost var t := T();
      mapInfo := mapInfo[nId := mapInfo[nId].(nLastTry := nTime, nAttempts := mapInfo[nId].nAttempts + 1)];
      Touched(env, nKey, t, T(), nId, mapInfo[nId]);
    }

    method Connected_(addr: Service, nTime: int)
      requires Valid()
      modifies this`mapInfo
      ensures Valid()
      ensures !Matches(addr) ==> mapInfo == old(mapInfo)
      ensures Matches(addr) ==>
        var id := Find(addr.ip).value;
        mapInfo == old(mapInfo)[id := old(mapInfo)[id].(
          nTime := if nTime - old(mapInfo)[id].nTime > 20 * 60 then U32(nTime) else old(mapInfo)[id].nTime)]
    {
      var pnId := Find(addr.ip);
      if pnId == None { return; }
      var nId := pnId.value;
      if mapInfo[nId].addr != addr { return; }
      ghost var t := T();
      var nUpdateInterval := 20 * 60;
      if nTime - mapInfo[nId].nTime > nUpdateInterval {
        mapInfo := mapInfo[nId := mapInfo[nId].(nTime := U32(nTime))];
      }
      Touched(env, nKey, t, T(), nId, mapInfo[nId]);
    }

    /** Brings a random entry to place `n` of the random order, and takes it. */
    method SampleOne(n: nat, ghost sample: seq<Address>) returns (addr: Address)
      requires n == |sample| < |vRandom| && RandomInv(mapInfo, vRandom) && Sampled(mapInfo, vRandom, sample)
      modifies this`mapInfo, this`vRandom
      ensures RandomInv(mapInfo, vRandom) && SameEntries(old(mapInfo), mapInfo) && |vRandom| == |old(vRandom)|
      ensures Sampled(mapInfo, vRandom, sample + [addr])
    {
      hide RandomInv, SameEntries, Sampled, ToAddress;
      var d := GetRandInt(|vRandom| - n);
      var nRndPos := d + n;
      ghost var info, order := mapInfo, vRandom;
      SwapRandom(n, nRndPos);
      SampledNext(info, mapInfo, order, vRandom, sample, nRndPos);
      addr := ToAddress(mapInfo[vRandom[n]]);
    }

    /** A random sample of distinct known addresses, leaving everything but the order of vRandom. */
    method GetAddr_(vAddr: seq<Address>) returns (r: seq<Address>)
      requires Valid()
      modifies this`mapInfo, this`vRandom
      ensures Valid() && SameEntries(old(mapInfo), mapInfo)
      ensures |r| - |vAddr| == SampleSize(|old(vRandom)|) && |vRandom| == |old(vRandom)|
      ensures r[..|vAddr|] == vAddr
      ensures forall i :: |vAddr| <= i < |r| ==>
        r[i].service.ip in mapAddr && mapAddr[r[i].service.ip] in mapInfo
        && Describes(r[i], mapInfo[mapAddr[r[i].service.ip]])
      ensures forall i, j :: |vAddr| <= i < j < |r| ==> r[i].service.ip != r[j].service.ip
    {
      hide Consistent, RandomInv, SameEntries, Sampled, ToAddress, SameButPos, Pow2;
      ghost var t := T();
      StartSample(env, nKey, t, vAddr);
      var nNodes := GETADDR_MAX_PCT * |vRandom| / 100;
      if nNodes > GETADDR_MAX {
        nNodes := GETADDR_MAX;
      }
      r := vAddr;
      var n := 0;
      while n < nNodes
        invariant 0 <= n <= nNodes <= |vRandom| == |t.vRandom| && |r| == |vAddr| + n && r[..|vAddr|] == vAddr
        invariant RandomInv(mapInfo, vRandom) && SameEntries(t.mapInfo, mapInfo)
        invariant Sampled(mapInfo, vRandom, r[|vAddr|..])
      {
        ghost var info, sample := mapInfo, r[|vAddr|..];
        var addr := SampleOne(n, sample);
        SameEntriesTrans(t.mapInfo, info, mapInfo);
        r := r + [addr];
        assert r[|vAddr|..] == sample + [addr];
        n := n + 1;
      }
      Reordered(env, nKey, t, T(), -1);
      SampleDistinct(env, nKey, T(), r[|vAddr|..]);
      SampleAfter(mapInfo, mapAddr, vAddr, r);
    }

    /** The manager's own check finds nothing wrong with it. */
    method Check() returns (r: int)
      ensures r == 0 <==> AddrCheck.Checked(T())
      ensures Valid() ==> r == 0
    {
      AddrCheck.ConsistentIff(env, nKey, T());
      r := AddrCheck.Check_(T());
    }

    method Serialize() returns (s: AddrDisk.Saved)
      requires Valid()
      ensures AddrDisk.IsSaved(nKey, T(), s, Ascending(NewIds(mapInfo)), Ascending(TriedIds(mapInfo)))
    {
      s := AddrDisk.Save(env, nKey, T());
    }

    /** Replaces everything by what a stream holds. */
    method Unserialize(s: AddrDisk.Saved)
      requires s.Shaped()
      modifies this
      ensures nKey == s.nKey && (AddrLoad.Lossless(env, s) ==> T() == AddrLoad.Loaded(env, s))
      ensures AddrRoundTrip.WellFormed(s) ==>
        Valid() && nTried == AddrLoad.KeptCount(env, s.nKey, s.tried, TRIED_BUCKET_COUNT)
    {
      hide AddrLoad.Lossless, AddrRoundTrip.WellFormed, AddrLoad.Listed;
      if AddrRoundTrip.WellFormed(s) {
        AddrRoundTrip.WellFormedListed(s);
        AddrRoundTrip.OverfullSound(env, s);
      }
      var t := AddrLoad.Load(env, s);
      nKey, nIdCount, mapInfo, mapAddr, vRandom := s.nKey, t.nIdCount, t.mapInfo, t.mapAddr, t.vRandom;
      nTried, vvTried, nNew, vvNew := t.nTried, t.vvTried, t.nNew, t.vvNew;
    }

    /** Saving one manager and loading the stream into another makes that one valid and the same, up to
        the renumbering of ids. */
    method CopyTo(other: AddrMan)
      requires Valid() && other != this && other.env == env
      modifies other
      ensures other.Valid() && other.nKey == nKey && other.Known() == Known()
      ensures AddrRoundTrip.Restored(T(), other.T(), Ascending(NewIds(mapInfo)), Ascending(TriedIds(mapInfo)))
    {
      var s := Serialize();
      ghost var news, tried := Ascending(NewIds(mapInfo)), Ascending(TriedIds(mapInfo));
      AddrRoundTrip.SavedLossless(env, nKey, T(), s, news, tried);
      AddrRoundTrip.LoadedConsistent(env, nKey, T(), s, news, tried);
      AddrRoundTrip.LoadedRestored(env, nKey, T(), s, news, tried);
      other.Unserialize(s);
    }

    /** One operation of the manager. */
    method Step(op: Op)
      requires Valid() && op.Proper()
      modifies this
      ensures Valid() && nKey == old(nKey)
      ensures if op.Add? then Known() <= old(Known()) + {op.addr.service.ip} else Known() == old(Known())
    {
      hide Consistent, Added, AddedTo, Promotion, Rewritten, SameEntries;
      match op {
        case Add(addr, source, nTimePenalty, nNow) =>
          ghost var t := T();
          var fNew, v, d := Add_(addr, source, nTimePenalty, nNow);
          if env.routable(addr.service.ip) {
            AddedKnows(env, nKey, t, T(), addr, source, nTimePenalty, nNow, fNew, v, d);
          }
        case Good(addr, nTime) => var out, nOrigin := Good_(addr, nTime);
        case Attempt(addr, nTime) => Attempt_(addr, nTime);
        case Connected(addr, nTime) => Connected_(addr, nTime);
        case GetAddr => var r := GetAddr_([]);
      }
    }

    /** Any sequence of operations. */
    method Run(ops: seq<Op>)
      requires Valid() && forall i :: 0 <= i < |ops| ==> ops[i].Proper()
      modifies this
      ensures Valid() && nKey == old(nKey)
      ensures Known() <= old(Known()) + Reported(ops)
    {
      var i := 0;
      assert ops[..0] == [];
      while i < |ops|
        invariant 0 <= i <= |ops| && Valid() && nKey == old(nKey)
        invariant Known() <= old(Known()) + Reported(ops[..i])
      {
        ReportedNext(ops, i);
        Step(ops[i]);
        i := i + 1;
      }
      assert ops[..i] == ops;
    }
  }

  function Reported(ops: seq<Op>): set<NetAddr> {
    if ops == [] then {}
    else
      var last := ops[|ops| - 1];
      Reported(ops[..|ops| - 1]) + if last.Add? then {last.addr.service.ip} else {}
  }

  lemma ReportedNext(ops: seq<Op>, i: nat)
    requires i < |ops|
    ensures Reported(ops[..i + 1]) == Reported(ops[..i]) + if ops[i].Add? then {ops[i].addr.service.ip} else {}
  {
    assert ops[..i + 1][..i] == ops[..i];
  }

  datatype Op =
    | Add(addr: Address, source: NetAddr, nTimePenalty: int, nNow: int)
    | Good(service: Service, nTime: int)
    | Attempt(service: Service, nTime: int)
    | Connected(service: Service, nTime: int)
    | GetAddr
  {
    /** The clock values the callers pass. */
    predicate Proper() {
      (Good? ==> nTime > 0) && (Attempt? ==> nTime >= 0)
    }
  }

  /** An address handed out is that of the entry, with its services and time. */
  ghost predicate Describes(a: Address, info: AddrInfo) {
    a.service == info.addr && a.nServices == info.nServices && a.nTime == info.nTime
  }

  function ToAddress(info: AddrInfo): Address { Address(info.addr, info.nServices, info.nTime) }

  function SampleSize(n: nat): nat {
    if GETADDR_MAX_PCT * n / 100 > GETADDR_MAX then GETADDR_MAX else GETADDR_MAX_PCT * n / 100
  }

  lemma SameEntriesTrans(a: InfoTable, b: InfoTable, c: InfoTable)
    requires SameEntries(a, b) && SameEntries(b, c)
    ensures SameEntries(a, c)
  {
    forall id | id in a ensures SameButPos(c[id], a[id]) { assert id in b; }
  }

  /** The sample is that of the front of the random order. */
  ghost predicate Sampled(info: InfoTable, vRandom: seq<int>, r: seq<Address>) {
    && |r| <= |vRandom|
    && forall i :: 0 <= i < |r| ==> vRandom[i] in info && r[i] == ToAddress(info[vRandom[i]])
  }

  lemma StartSample(env: Env, key: Key, t: Tables, vAddr: seq<Address>)
    requires Consistent(env, key, t, -1)
    ensures RandomInv(t.mapInfo, t.vRandom) && SameEntries(t.mapInfo, t.mapInfo)
    ensures Sampled(t.mapInfo, t.vRandom, vAddr[|vAddr|..])
  {
  }

  /** Swapping an entry into the place behind the sample, and taking it. */
  lemma SampledNext(info: InfoTable, info': InfoTable, vRandom: seq<int>, vRandom': seq<int>, r: seq<Address>, pos: int)
    requires Sampled(info, vRandom, r) && SameEntries(info, info') && RandomInv(info', vRandom')
    requires |r| <= pos < |vRandom| && vRandom' == vRandom[|r| := vRandom[pos]][pos := vRandom[|r|]]
    ensures vRandom'[|r|] in info' && Sampled(info', vRandom', r + [ToAddress(info'[vRandom'[|r|]])])
  {
    forall i | 0 <= i < |r| ensures vRandom'[i] in info' && r[i] == ToAddress(info'[vRandom'[i]]) {
      var id := vRandom'[i];
      assert id == vRandom[i] && id in info;
      assert SameButPos(info'[id], info[id]);
    }
  }

  lemma SampleDistinct(env: Env, key: Key, t: Tables, r: seq<Address>)
    requires Consistent(env, key, t, -1) && Sampled(t.mapInfo, t.vRandom, r)
    ensures forall i :: 0 <= i < |r| ==>
      r[i].service.ip in t.mapAddr && t.mapAddr[r[i].service.ip] in t.mapInfo
      && Describes(r[i], t.mapInfo[t.mapAddr[r[i].service.ip]])
    ensures forall i, j :: 0 <= i < j < |r| ==> r[i].service.ip != r[j].service.ip
  {
    forall i | 0 <= i < |r| ensures r[i].service.ip in t.mapAddr && t.mapAddr[r[i].service.ip] == t.vRandom[i] {
      var id := t.vRandom[i];
      assert id in t.mapInfo;
      assert t.mapInfo[id].addr.ip in t.mapAddr;
    }
    forall i, j | 0 <= i < j < |r| ensures r[i].service.ip != r[j].service.ip {
      assert t.mapInfo[t.vRandom[i]].nRandomPos == i && t.mapInfo[t.vRandom[j]].nRandomPos == j;
    }
  }

  /** The same, as part of a longer list. */
  lemma SampleAfter(info: InfoTable, mapAddr: map<NetAddr, int>, vAddr: seq<Address>, r: seq<Address>)
    requires |vAddr| <= |r|
    requires
      var sample := r[|vAddr|..];
      && (forall i :: 0 <= i < |sample| ==>
            sample[i].service.ip in mapAddr && mapAddr[sample[i].service.ip] in info
            && Describes(sample[i], info[mapAddr[sample[i].service.ip]]))
      && forall i, j :: 0 <= i < j < |sample| ==> sample[i].service.ip != sample[j].service.ip
    ensures forall i :: |vAddr| <= i < |r| ==>
      r[i].service.ip in mapAddr && mapAddr[r[i].service.ip] in info
      && Describes(r[i], info[mapAddr[r[i].service.ip]])
    ensures forall i, j :: |vAddr| <= i < j < |r| ==> r[i].service.ip != r[j].service.ip
  {
    var sample := r[|vAddr|..];
    forall i | |vAddr| <= i < |r| ensures r[i] == sample[i - |vAddr|] { }
  }

  function Refreshed(info: AddrInfo, addr: Address, nTimePenalty: int, nNow: int): AddrInfo {
    var nUpdateInterval := if nNow - addr.nTime < ONE_DAY then ONE_HOUR else ONE_DAY;
    var nTime := if addr.nTime != 0 && (info.nTime == 0 || info.nTime < addr.nTime - nUpdateInterval - nTimePenalty)
                 then U32(Max(0, addr.nTime - nTimePenalty)) else info.nTime;
    info.(nTime := nTime, nServices := info.nServices + addr.nServices)
  }

  /** A repeated report loses no service flag and, under a penalty that is not negative, never moves the
      time back, nor past the one reported; it moves it only when that is ahead by more than an hour, or by
      more than a day for an address not seen within one. */
  lemma RefreshedKeeps(info: AddrInfo, addr: Address, nTimePenalty: int, nNow: int)
    requires nTimePenalty >= 0
    ensures
      var r := Refreshed(info, addr, nTimePenalty, nNow);
      && info.nServices <= r.nServices && addr.nServices <= r.nServices <= info.nServices + addr.nServices
      && info.nTime <= r.nTime && (r.nTime <= info.nTime || r.nTime <= addr.nTime)
      && (r.nTime != info.nTime && info.nTime != 0 ==>
            r.nTime > info.nTime + if nNow - addr.nTime < 24 * 3600 then 3600 else 24 * 3600)
      && r == info.(nServices := r.nServices, nTime := r.nTime)
  {
  }

  /** An hour's news always gets through to an address seen within a day. */
  lemma RefreshedTakes(info: AddrInfo, addr: Address, nTimePenalty: int, nNow: int)
    requires nTimePenalty >= 0 && nNow - addr.nTime < 24 * 3600
    requires addr.nTime - nTimePenalty > info.nTime + 3600
    ensures Refreshed(info, addr, nTimePenalty, nNow).nTime == addr.nTime - nTimePenalty
  {
  }

  function Fresh(addr: Address, source: NetAddr, nTimePenalty: int, nRandomPos: int): AddrInfo {
    AddrInfo(addr.service, addr.nServices, U32(Max(0, addr.nTime - nTimePenalty)), source,
             0, 0, 0, 0, false, nRandomPos)
  }

  /** From `t`, where the statistics are already updated, to `t'`: entry `id` ends up "tried", and
      at most one other entry leaves a full bucket for it. */
  ghost predicate Promotion(env: Env, key: Key, t: Tables, t': Tables, id: int, nOrigin: int, out: Option<int>) {
    && id in t.mapInfo && |t.vvTried| == TRIED_BUCKET_COUNT
    && var k := env.TriedBucket(key, t.mapInfo[id].addr);
    if t.mapInfo[id].fInTried then t' == t && out == None
    else match out
      case None =>
        && |t.vvTried[k]| < TRIED_BUCKET_SIZE
        && t' == t.(mapInfo := t.mapInfo[id := t.mapInfo[id].(fInTried := true, nRefCount := 0)],
                    vvNew := Without(t.vvNew, id), vvTried := t.vvTried[k := t.vvTried[k] + [id]],
                    nTried := t.nTried + 1, nNew := t.nNew - 1)
      case Some(victim) =>
        0 <= nOrigin < |t.vvNew| && id in t.vvNew[nOrigin] && Evicted(env, key, t, t', id, nOrigin, victim)
  }

  lemma PromotedKept(env: Env, key: Key, t: Tables, t': Tables, id: int, nOrigin: int, out: Option<int>)
    requires Promotion(env, key, t, t', id, nOrigin, out)
    ensures id in t'.mapInfo && t'.mapInfo[id].fInTried && t'.mapInfo[id].nLastTry == t.mapInfo[id].nLastTry
  {
  }

  /** One reference of `nId` enters bucket `b`; the victim, if any, gives one up in the same bucket,
      which was full. */
  ghost predicate Stores(t: Tables, t': Tables, nId: int, b: int, nNow: int, victim: Option<int>) {
    && 0 <= b < |t.vvNew|
    && match victim
       case None =>
         && |t.vvNew[b]| != NEW_BUCKET_SIZE
         && t' == t.(vvNew := t.vvNew[b := t.vvNew[b] + {nId}])
       case Some(v) =>
         && |t.vvNew[b]| == NEW_BUCKET_SIZE && v != nId && Deserved(t.mapInfo, t.vvNew[b], nNow, v)
         && t'.vvNew == t.vvNew[b := t.vvNew[b] - {v} + {nId}]
         && Unreferenced(t, t'.(vvNew := t.vvNew[b := t.vvNew[b] - {v}]), v, b)
  }

  lemma StoresPlain(t: Tables, t': Tables, nId: int, b: int, nNow: int)
    requires 0 <= b < |t.vvNew| && |t.vvNew[b]| != NEW_BUCKET_SIZE
      && t' == t.(vvNew := t.vvNew[b := t.vvNew[b] + {nId}])
    ensures Stores(t, t', nId, b, nNow, None)
  {
  }

  lemma StoresOver(t: Tables, t1: Tables, t': Tables, nId: int, b: int, nNow: int, v: int, r: int, picked: set<int>)
    requires Unreferenced(t, t1, v, b) && 0 <= b < |t.vvNew| && |t.vvNew[b]| == NEW_BUCKET_SIZE && v != nId
    requires Shrunk(t.mapInfo, t.vvNew[b], nNow, r, v, picked)
    requires t' == t1.(vvNew := t1.vvNew[b := t1.vvNew[b] + {nId}])
    ensures Stores(t, t', nId, b, nNow, Some(v))
  {
    hide Shrunk, SameEntries;
    assert t'.(vvNew := t.vvNew[b := t.vvNew[b] - {v}]) == t1;
  }

  /** The effect of `Add_` on the tables, `b` being the bucket the report hashes to. */
  ghost predicate Added(t: Tables, t': Tables, ip: NetAddr, b: int, nNow: int, victim: Option<int>) {
    && 0 <= b < |t.vvNew| == |t'.vvNew|
    && ip in t'.mapAddr
    && t'.vvTried == t.vvTried && t'.nTried == t.nTried
    && (forall c :: 0 <= c < |t.vvNew| && c != b ==> t'.vvNew[c] == t.vvNew[c])
    && (ip !in t.mapAddr ==> t'.mapAddr[ip] in t'.vvNew[b])
    && match victim
       case None =>
         && t'.mapAddr.Keys == t.mapAddr.Keys + {ip}
         && t.vvNew[b] <= t'.vvNew[b] <= t.vvNew[b] + {t'.mapAddr[ip]}
       case Some(v) =>
         && |t.vvNew[b]| == NEW_BUCKET_SIZE && v in t.vvNew[b] && v in t.mapInfo && t.mapInfo[v].addr.ip != ip
         && Deserved(t.mapInfo, t.vvNew[b], nNow, v)
         && t'.vvNew[b] == t.vvNew[b] - {v} + {t'.mapAddr[ip]}
         && t'.mapAddr.Keys ==
              t.mapAddr.Keys + {ip} - (if t.mapInfo[v].nRefCount == 1 then {t.mapInfo[v].addr.ip} else {})
  }

  /** Equal but for the bookkeeping of references and of the random order. */
  predicate SameButCounts(a: AddrInfo, b: AddrInfo) { a == b.(nRefCount := a.nRefCount, nRandomPos := a.nRandomPos) }

  /** Entry `nId` reads as `entry` now; every other that is left reads as before. */
  ghost predicate Rewritten(info: InfoTable, info': InfoTable, nId: int, entry: AddrInfo) {
    && nId in info' && SameButCounts(info'[nId], entry)
    && forall id :: id in info' && id != nId ==> id in info && SameButCounts(info'[id], info[id])
  }

  /** A report earns its entry another reference when it is newer, the entry is not "tried" and has
      references to spare, and the draw comes out zero. */
  predicate Earns(info: AddrInfo, addr: Address, draw: int) {
    && addr.nTime != 0 && (info.nTime == 0 || info.nTime < addr.nTime)
    && !info.fInTried && info.nRefCount != NEW_BUCKETS_PER_ADDRESS && draw == 0
  }

  /** The whole effect of `Add_` on a routable address. */
  ghost predicate AddedTo(env: Env, key: Key, t: Tables, t': Tables, addr: Address, source: NetAddr,
                          nTimePenalty: int, nNow: int,
                          fNew: bool, victim: Option<int>, draw: int) {
    var ip, b := addr.service.ip, env.NewBucket(key, addr.service, source);
    && fNew == (ip !in t.mapAddr)
    && Added(t, t', ip, b, nNow, victim)
    && if fNew then
         && t'.mapAddr[ip] == t.nIdCount
         && Rewritten(t.mapInfo, t'.mapInfo, t.nIdCount, Fresh(addr, source, nTimePenalty, |t.vRandom|))
       else
         var id := t.mapAddr[ip];
         && t'.mapAddr[ip] == id && id in t.mapInfo
         && var entry := Refreshed(t.mapInfo[id], addr, nTimePenalty, nNow);
         && Rewritten(t.mapInfo, t'.mapInfo, id, entry)
         && 0 <= draw && t.mapInfo[id].nRefCount >= 0 && draw < Pow2(t.mapInfo[id].nRefCount)
         && (id in t'.vvNew[b] <==> id in t.vvNew[b] || Earns(entry, addr, draw))
  }

  lemma RecountedSame(info: InfoTable, info': InfoTable, nId: int, entry: AddrInfo, count: int)
    requires Rewritten(info, info', nId, entry.(nRefCount := count))
    ensures Rewritten(info, info', nId, entry)
  {
  }

  lemma AddedKnows(env: Env, key: Key, t: Tables, t': Tables, addr: Address, source: NetAddr, nTimePenalty: int,
                   nNow: int, fNew: bool, victim: Option<int>, draw: int)
    requires AddedTo(env, key, t, t', addr, source, nTimePenalty, nNow, fNew, victim, draw)
    ensures t'.mapAddr.Keys <= t.mapAddr.Keys + {addr.service.ip}
  {
    hide Rewritten, Deserved;
  }

  lemma AddedFrom(env: Env, key: Key, t0: Tables, t: Tables, t': Tables, ip: NetAddr, b: int, nId: int, nNow: int,
                  victim: Option<int>)
    requires Consistent(env, key, t0, -1) && nId in t.mapInfo && t.mapInfo[nId].addr.ip == ip
    requires t.vvNew == t0.vvNew && t.vvTried == t0.vvTried && t.nTried == t0.nTried
    requires t.mapInfo == t0.mapInfo[nId := t.mapInfo[nId]] && t.mapAddr == t0.mapAddr[ip := nId]
    requires ip in t0.mapAddr ==> t0.mapAddr[ip] == nId
    requires 0 <= b < |t0.vvNew| && nId !in t0.vvNew[b] && Stores(t, t', nId, b, nNow, victim)
    ensures Added(t0, t', ip, b, nNow, victim)
    ensures Rewritten(t0.mapInfo, t'.mapInfo, nId, t.mapInfo[nId]) && nId in t'.vvNew[b] && t'.mapAddr[ip] == nId
  {
    hide Consistent, Stores, Added, Rewritten, Deserved;
    if victim.Some? {
      AddedOver(env, key, t0, t, t', ip, b, nId, nNow, victim.value);
    } else {
      AddedPlain(t0, t, t', ip, b, nId, nNow);
    }
  }

  lemma AddedPlain(t0: Tables, t: Tables, t': Tables, ip: NetAddr, b: int, nId: int, nNow: int)
    requires nId in t.mapInfo
    requires t.vvNew == t0.vvNew && t.vvTried == t0.vvTried && t.nTried == t0.nTried
    requires t.mapInfo == t0.mapInfo[nId := t.mapInfo[nId]] && t.mapAddr == t0.mapAddr[ip := nId]
    requires 0 <= b < |t0.vvNew| && Stores(t, t', nId, b, nNow, None)
    ensures Added(t0, t', ip, b, nNow, None)
    ensures Rewritten(t0.mapInfo, t'.mapInfo, nId, t.mapInfo[nId]) && nId in t'.vvNew[b] && t'.mapAddr[ip] == nId
  {
  }

  lemma AddedOver(env: Env, key: Key, t0: Tables, t: Tables, t': Tables, ip: NetAddr, b: int, nId: int, nNow: int,
                  v: int)
    requires Consistent(env, key, t0, -1) && nId in t.mapInfo && t.mapInfo[nId].addr.ip == ip
    requires t.vvNew == t0.vvNew && t.vvTried == t0.vvTried && t.nTried == t0.nTried
    requires t.mapInfo == t0.mapInfo[nId := t.mapInfo[nId]] && t.mapAddr == t0.mapAddr[ip := nId]
    requires ip in t0.mapAddr ==> t0.mapAddr[ip] == nId
    requires 0 <= b < |t0.vvNew| && nId !in t0.vvNew[b] && Stores(t, t', nId, b, nNow, Some(v))
    ensures Added(t0, t', ip, b, nNow, Some(v))
    ensures Rewritten(t0.mapInfo, t'.mapInfo, nId, t.mapInfo[nId]) && nId in t'.vvNew[b] && t'.mapAddr[ip] == nId
  {
    hide Consistent, Deserved, SameEntries, SameButCounts;
    assert v in t.vvNew[b];
    BucketIds(env, key, t0, -1, b, v);
    KnownUnder(env, key, t0, v);
    forall id | id in t0.vvNew[b] ensures id in t0.mapInfo { BucketIds(env, key, t0, -1, b, id); }
    DeservedThere(t.mapInfo, t0.mapInfo, t0.vvNew[b], nNow, v);
    LeftAsBefore(t, t', v, b);
  }

  lemma LeftAsBefore(t: Tables, t': Tables, v: int, b: int)
    requires 0 <= b < |t.vvNew| && Unreferenced(t, t'.(vvNew := t.vvNew[b := t.vvNew[b] - {v}]), v, b)
    ensures forall id :: id in t'.mapInfo ==> id in t.mapInfo && SameButCounts(t'.mapInfo[id], t.mapInfo[id])
    ensures forall id :: id in t.mapInfo && id != v ==> id in t'.mapInfo
  {
    forall id | id in t'.mapInfo ensures id in t.mapInfo && SameButCounts(t'.mapInfo[id], t.mapInfo[id]) {
      if t.mapInfo[v].nRefCount <= 1 { assert id in t.mapInfo - {v}; }
    }
    forall id | id in t.mapInfo && id != v ensures id in t'.mapInfo { assert id in t.mapInfo - {v}; }
  }

  /** The victim is one the bucket may give up at this time. */
  ghost predicate Deserved(info: InfoTable, bucket: set<int>, nNow: int, victim: int) {
    exists r: int, picked: set<int> :: Shrunk(info, bucket, nNow, r, victim, picked)
  }

  lemma DeservedThere(info: InfoTable, info': InfoTable, bucket: set<int>, nNow: int, victim: int)
    requires Deserved(info, bucket, nNow, victim) && bucket <= info'.Keys
    requires forall id :: id in bucket && id in info && id in info' ==> info[id] == info'[id]
    ensures Deserved(info', bucket, nNow, victim)
  {
    var r: int, picked: set<int> :| Shrunk(info, bucket, nNow, r, victim, picked);
    assert Shrunk(info', bucket, nNow, r, victim, picked);
  }

  /** What moving an entry out of the "new" buckets relies on. */
  lemma LeavesNew(env: Env, key: Key, t: Tables, nId: int, nOrigin: int)
    requires Consistent(env, key, t, -1) && nId in t.mapInfo && 0 <= nOrigin < |t.vvNew| && nId in t.vvNew[nOrigin]
    ensures !t.mapInfo[nId].fInTried && t.mapInfo[nId].nRefCount == Refs(t.vvNew, nId)
    ensures |t.vvNew| == NEW_BUCKET_COUNT && |t.vvTried| == TRIED_BUCKET_COUNT
    ensures forall k :: 0 <= k < |t.vvTried| ==> NoDup(t.vvTried[k]) && |t.vvTried[k]| <= TRIED_BUCKET_SIZE
  {
    assert nId >= 0;
  }

  /** A walk round the buckets from any start comes to each of them. */
  lemma ComesRound(n: int, start: int, holder: int)
    requires 0 <= n <= (holder - start) % NEW_BUCKET_COUNT && 0 <= start < NEW_BUCKET_COUNT
      && 0 <= holder < NEW_BUCKET_COUNT
    ensures n == (holder - start) % NEW_BUCKET_COUNT ==> (n + start) % NEW_BUCKET_COUNT == holder
    ensures 0 <= (holder - start) % NEW_BUCKET_COUNT < NEW_BUCKET_COUNT
  {
  }

  lemma Referenced(env: Env, key: Key, t: Tables, nId: int)
    requires Consistent(env, key, t, -1) && nId in t.mapInfo && !t.mapInfo[nId].fInTried
    ensures |t.vvNew| == NEW_BUCKET_COUNT && exists b :: 0 <= b < |t.vvNew| && nId in t.vvNew[b]
  {
    assert nId >= 0;
    RefsZero(t.vvNew, nId);
  }

  lemma TableSizes(env: Env, key: Key, t: Tables)
    requires Consistent(env, key, t, -1)
    ensures |t.vvNew| == NEW_BUCKET_COUNT && |t.vvTried| == TRIED_BUCKET_COUNT
    ensures forall a :: a in t.mapAddr ==> t.mapAddr[a] in t.mapInfo && t.mapInfo[t.mapAddr[a]].addr.ip == a
  {
  }

  /** A known address has an entry, with counts and times that are not negative. */
  lemma KnownEntry(env: Env, key: Key, t: Tables, ip: NetAddr)
    requires Consistent(env, key, t, -1) && ip in t.mapAddr
    ensures t.mapAddr[ip] in t.mapInfo && t.mapInfo[t.mapAddr[ip]].addr.ip == ip
      && t.mapInfo[t.mapAddr[ip]].nRefCount >= 0
    ensures var info := t.mapInfo[t.mapAddr[ip]];
      info.nLastTry >= 0 && info.nLastSuccess >= 0 && (info.fInTried ==> info.nLastSuccess > 0)
  {
    var id := t.mapAddr[ip];
    assert id in t.mapInfo && (t.mapInfo[id].fInTried || t.mapInfo[id].nRefCount >= 1);
  }

  lemma KnownUnder(env: Env, key: Key, t: Tables, id: int)
    requires Consistent(env, key, t, -1) && id in t.mapInfo
    ensures t.mapInfo[id].addr.ip in t.mapAddr && t.mapAddr[t.mapInfo[id].addr.ip] == id
    ensures t.mapAddr[t.mapInfo[id].addr.ip := id] == t.mapAddr
  {
  }

  lemma NotStored(env: Env, key: Key, t: Tables, id: int)
    requires Consistent(env, key, t, -1) && id == t.nIdCount
    ensures forall b :: 0 <= b < |t.vvNew| ==> id !in t.vvNew[b]
  {
    forall b | 0 <= b < |t.vvNew| ensures id !in t.vvNew[b] {
      assert id in t.vvNew[b] ==> id in t.mapInfo;
    }
  }

  lemma RefBound(env: Env, key: Key, t: Tables, id: int)
    requires Consistent(env, key, t, -1) && id in t.mapInfo && !t.mapInfo[id].fInTried
    ensures 1 <= t.mapInfo[id].nRefCount <= NEW_BUCKETS_PER_ADDRESS
  {
  }

  lemma BucketFits(env: Env, key: Key, t: Tables, pend: int, b: int)
    requires Consistent(env, key, t, pend) && 0 <= b < |t.vvNew|
    ensures |t.vvNew[b]| <= NEW_BUCKET_SIZE
  {
  }

  /** The entry to be stored is not the victim, and there is room for it now. */
  lemma Survives(t: Tables, t': Tables, v: int, b: int, nId: int)
    requires Unreferenced(t, t', v, b) && nId in t.mapInfo && nId !in t.vvNew[b] && |t.vvNew[b]| == NEW_BUCKET_SIZE
    ensures nId in t'.mapInfo && t'.mapInfo[nId].fInTried == t.mapInfo[nId].fInTried && nId != v
    ensures |t'.vvNew| == |t.vvNew| && nId !in t'.vvNew[b] && |t'.vvNew[b]| < NEW_BUCKET_SIZE
  {
    assert nId in t.mapInfo - {v};
    if t.mapInfo[v].nRefCount <= 1 { assert SameButPos(t'.mapInfo[nId], (t.mapInfo - {v})[nId]); }
  }

  lemma LosesReference(env: Env, key: Key, t: Tables, id: int, pend: int)
    requires Consistent(env, key, t, pend) && id in t.mapInfo
    ensures RandomInv(t.mapInfo[id := t.mapInfo[id].(nRefCount := t.mapInfo[id].nRefCount - 1)], t.vRandom)
    ensures t.mapInfo[id].fInTried || t.mapInfo[id].nRefCount >= 1
  {
  }

  /** What becomes of an entry before it is removed does not matter. */
  lemma SameWithout(info: InfoTable, info': InfoTable, id: int)
    requires id in info && exists count: int :: SameEntries(info[id := info[id].(nRefCount := count)] - {id}, info')
    ensures SameEntries(info - {id}, info')
  {
    var count: int :| SameEntries(info[id := info[id].(nRefCount := count)] - {id}, info');
    assert info[id := info[id].(nRefCount := count)] - {id} == info - {id};
  }

  /** Which entry a full bucket gives up. */
  ghost predicate Shrunk(info: InfoTable, bucket: set<int>, nNow: int, r: int, victim: int, picked: set<int>) {
    && victim in picked && picked <= bucket <= info.Keys
    && if r == 0 then
         && IsTerrible(info[victim], nNow)
         && forall id :: id in bucket && id < victim ==> !IsTerrible(info[id], nNow)
       else
         && r == 1 && |picked| <= 4
         && (forall id :: id in bucket ==> !IsTerrible(info[id], nNow))
         && (forall id :: id in picked ==> info[victim].nTime <= info[id].nTime)
         && (forall id :: id in picked && id < victim ==> info[victim].nTime < info[id].nTime)
  }

  lemma FirstIsLeast(info: InfoTable, bucket: set<int>, ids: seq<int>, i: nat, nNow: int)
    requires StrictlyAscending(ids) && (forall x :: x in ids <==> x in bucket) && i < |ids|
    requires (forall x :: x in bucket ==> x in info) && (forall j :: 0 <= j < |ids| ==> ids[j] in info)
    requires forall j :: 0 <= j < i ==> !IsTerrible(info[ids[j]], nNow)
    ensures forall id :: id in bucket && id < ids[i] ==> !IsTerrible(info[id], nNow)
  {
    forall id | id in bucket && id < ids[i] ensures !IsTerrible(info[id], nNow) {
      assert id in ids;
      var j :| 0 <= j < |ids| && ids[j] == id;
    }
  }

  /** `m` is the entry of `picked` seen longest ago, the first of them on a tie. */
  ghost predicate SeenFirst(info: InfoTable, picked: set<int>, m: int) {
    && m in picked && (forall id :: id in picked ==> id in info)
    && forall id :: id in picked ==>
         info[m].nTime <= info[id].nTime && (id < m ==> info[m].nTime < info[id].nTime)
  }

  /** The first `n` ids have been gone through; those at the ranks `seen` were picked. */
  ghost predicate Inspected(info: InfoTable, ids: seq<int>, ranks: set<int>, n: nat, seen: set<int>,
                            picked: set<int>, m: int)
  {
    && n <= |ids| && seen <= ranks && (forall j :: j in seen ==> j < n) && |picked| <= |seen|
    && (forall id :: id in picked ==> id in ids[..n])
    && if m == -1 then picked == {} else SeenFirst(info, picked, m)
  }

  lemma NothingInspected(info: InfoTable, ids: seq<int>, a: int, b: int, c: int, d: int)
    ensures Inspected(info, ids, {a, b, c, d}, 0, {}, {}, -1)
  {
  }

  lemma InspectedNext(info: InfoTable, ids: seq<int>, ranks: set<int>, n: nat, seen: set<int>, picked: set<int>, m: int)
    requires Inspected(info, ids, ranks, n, seen, picked, m) && n < |ids| && StrictlyAscending(ids)
    requires ids[n] in info && ids[n] >= 0
    ensures m == -1 || m in info
    ensures Inspected(info, ids, ranks, n + 1, seen, picked, m)
    ensures
      var m' := if m == -1 || info[ids[n]].nTime < info[m].nTime then ids[n] else m;
      n in ranks ==> Inspected(info, ids, ranks, n + 1, seen + {n}, picked + {ids[n]}, m')
  {
    PickedNext(ids, n, picked);
    SeenFirstNext(info, picked, m, ids[n]);
    NoMorePicked(picked, seen, ids[n], n);
    hide SeenFirst, StrictlyAscending;
  }

  lemma NoMorePicked(picked: set<int>, seen: set<int>, x: int, n: int)
    requires |picked| <= |seen| && n !in seen
    ensures |picked + {x}| <= |seen + {n}|
  {
  }

  lemma PickedNext(ids: seq<int>, n: nat, picked: set<int>)
    requires n < |ids| && StrictlyAscending(ids) && forall id :: id in picked ==> id in ids[..n]
    ensures forall id :: id in picked ==> id < ids[n]
    ensures forall id :: id in picked + {ids[n]} ==> id in ids[..n + 1]
  {
    assert ids[..n + 1] == ids[..n] + [ids[n]];
  }

  lemma SeenFirstNext(info: InfoTable, picked: set<int>, m: int, x: int)
    requires x in info && forall id :: id in picked ==> id < x
    requires if m == -1 then picked == {} else SeenFirst(info, picked, m)
    ensures m == -1 || m in info
    ensures SeenFirst(info, picked + {x}, if m == -1 || info[x].nTime < info[m].nTime then x else m)
  {
  }

  lemma InspectedAll(info: InfoTable, ids: seq<int>, ranks: set<int>, seen: set<int>, picked: set<int>, m: int)
    requires Inspected(info, ids, ranks, |ids|, seen, picked, m) && |ranks| <= 4 && picked != {}
    ensures m in info && m in picked && |picked| <= 4
    ensures forall id :: id in picked ==> id in ids && id in info && info[m].nTime <= info[id].nTime
    ensures forall id :: id in picked && id < m ==> info[m].nTime < info[id].nTime
  {
    SubsetSize(seen, ranks);
  }

  lemma FourRanks(a: int, b: int, c: int, d: int)
    ensures |{a, b, c, d}| <= 4
  {
    assert {a, b, c, d} == {a} + {b} + {c} + {d};
  }
}

/** Saving and loading the address manager: ids are renumbered on the way out and every index is
    rebuilt on the way in. */
module AddrDisk {
  import opened Collections
  import opened AddrTables
  import opened Words

  /** The part of an entry that reaches the disk; `nTime` and `nLastTry` do not. */
  datatype DiskInfo = DiskInfo(addr: Service, nServices: set<nat>, source: NetAddr, nLastSuccess: int, nAttempts: int)

  /** The stream, field by field. */
  datatype Saved = Saved(nKey: Key, nNew: int, nTried: int, nUBuckets: int,
                         news: seq<DiskInfo>, tried: seq<DiskInfo>, buckets: seq<seq<int>>)
  {
    /** The lengths written in front of each part. */
    predicate Shaped() { nNew == |news| && nTried == |tried| && nUBuckets == |buckets| }
  }

  const DEFAULT_TIME: Uint32 := 100000000
  const DEFAULT_INFO := AddrInfo(Service(0, 0), {0}, DEFAULT_TIME, 0, 0, 0, 0, 0, false, -1)

  function ToDisk(info: AddrInfo): DiskInfo {
    DiskInfo(info.addr, info.nServices, info.source, info.nLastSuccess, info.nAttempts)
  }

  function FromDisk(d: DiskInfo): AddrInfo {
    DEFAULT_INFO.(addr := d.addr, nServices := d.nServices, source := d.source,
                  nLastSuccess := d.nLastSuccess, nAttempts := d.nAttempts)
  }

  /** What the stream holds of an entry is what the entry holds, field by field. */
  ghost predicate Records(d: DiskInfo, info: AddrInfo) {
    && d.addr == info.addr && d.nServices == info.nServices && d.source == info.source
    && d.nLastSuccess == info.nLastSuccess && d.nAttempts == info.nAttempts
  }

  ghost predicate Enumerates(s: seq<int>, ids: set<int>) {
    StrictlyAscending(s) && forall x :: x in s <==> x in ids
  }

  /** `s` stores the tables `t`, the "new" ids in the order `N` and the "tried" ids in the order `T`. */
  ghost predicate IsSaved(key: Key, t: Tables, s: Saved, N: seq<int>, T: seq<int>) {
    && s.Shaped() && s.nKey == key && |N| == s.nNew == t.nNew && |T| == s.nTried == t.nTried
    && s.nUBuckets == NEW_BUCKET_COUNT
    && |t.vvNew| == NEW_BUCKET_COUNT
    && Enumerates(N, NewIds(t.mapInfo)) && Enumerates(T, TriedIds(t.mapInfo))
    && (forall i :: 0 <= i < |N| ==> N[i] in t.mapInfo && Records(s.news[i], t.mapInfo[N[i]]))
    && (forall i :: 0 <= i < |T| ==> T[i] in t.mapInfo && Records(s.tried[i], t.mapInfo[T[i]]))
    && (forall b :: 0 <= b < |s.buckets| ==> IsBucket(s.buckets[b], t.vvNew[b], N))
  }

  ghost predicate IsBucket(indices: seq<int>, bucket: set<int>, N: seq<int>) {
    && NoDup(indices)
    && (forall i :: i in indices ==> 0 <= i < |N| && N[i] in bucket)
    && (forall i :: 0 <= i < |N| && N[i] in bucket ==> i in indices)
  }

  // ---- Saving ----

  lemma {:induction false} SizeOfEnumeration(s: seq<int>, ids: set<int>)
    requires NoDup(s) && forall x :: x in s <==> x in ids
    ensures |s| == |ids|
  {
    if s == [] {
      forall x ensures x !in ids { assert x in s <==> x in ids; }
    } else {
      var last := s[|s| - 1];
      var front := s[..|s| - 1];
      assert last in s;
      forall x ensures x in front <==> x in ids - {last} {
        assert x in s <==> x in front || x == last by { assert s == front + [last]; }
        if x in front { var i :| 0 <= i < |front| && front[i] == x; assert s[i] == x; }
      }
      SizeOfEnumeration(front, ids - {last});
    }
  }

  /** The wanted ids of an ascending traversal. */
  ghost function Kept(ids: seq<int>, wanted: set<int>): seq<int> {
    if ids == [] then []
    else
      var last := ids[|ids| - 1];
      Kept(ids[..|ids| - 1], wanted) + if last in wanted then [last] else []
  }

  lemma {:induction false} KeptOrder(ids: seq<int>, wanted: set<int>)
    requires StrictlyAscending(ids)
    ensures StrictlyAscending(Kept(ids, wanted))
    ensures forall x :: x in Kept(ids, wanted) <==> x in ids && x in wanted
  {
    if ids != [] {
      var n := |ids| - 1;
      KeptOrder(ids[..n], wanted);
      assert ids == ids[..n] + [ids[n]];
      var front := Kept(ids[..n], wanted);
      forall i | 0 <= i < |front| ensures front[i] < ids[n] {
        assert front[i] in front;
        var j :| 0 <= j < n && ids[..n][j] == front[i];
      }
    }
  }

  /** The loop that writes the entries of one kind, numbering them; it stops after `count`. */
  method SaveEntries(info: InfoTable, count: int, tried: bool, ghost wanted: set<int>)
    returns (out: seq<DiskInfo>, mapUnkIds: map<int, int>)
    requires forall id :: id in wanted <==> id in info && if tried then info[id].fInTried else info[id].nRefCount != 0
    requires count == |wanted|
    ensures Written(info, out, mapUnkIds, Ascending(wanted))
  {
    var ids := Ascending(info.Keys);
    ghost var N: seq<int> := [];
    out, mapUnkIds := [], map[];
    var nIds := 0;
    var k := 0;
    while k < |ids|
      invariant 0 <= k <= |ids| && nIds == |N|
      invariant N == Kept(ids[..k], wanted)
      invariant Written(info, out, mapUnkIds, N)
    {
      if nIds == count {
        break;
      }
      var id := ids[k];
      assert id in ids;
      KeptBefore(ids, wanted, k);
      WrittenNext(info, out, mapUnkIds, N, id);
      mapUnkIds := mapUnkIds[id := nIds];
      if (if tried then info[id].fInTried else info[id].nRefCount != 0) {
        out := out + [ToDisk(info[id])];
        nIds := nIds + 1;
        N := N + [id];
      }
      k := k + 1;
    }
    KeptAll(info, ids, wanted, k);
    AscendingUnique(N, Ascending(wanted));
  }

  /** Stopping early, once as many ids are kept as are wanted, misses none. */
  lemma KeptAll(info: InfoTable, ids: seq<int>, wanted: set<int>, k: nat)
    requires StrictlyAscending(ids) && k <= |ids| && (forall x :: x in ids <==> x in info.Keys)
    requires forall x :: x in wanted ==> x in info
    requires k == |ids| || |Kept(ids[..k], wanted)| == |wanted|
    ensures Enumerates(Kept(ids[..k], wanted), wanted) && |Kept(ids[..k], wanted)| == |wanted|
  {
    KeptOrder(ids[..k], wanted);
    if k == |ids| {
      forall x | x in wanted ensures x in ids { assert x in info.Keys; }
      assert ids[..k] == ids;
    } else {
      AllFound(Kept(ids[..k], wanted), wanted);
    }
    SizeOfEnumeration(Kept(ids[..k], wanted), wanted);
  }

  lemma KeptBefore(ids: seq<int>, wanted: set<int>, k: nat)
    requires StrictlyAscending(ids) && k < |ids|
    ensures var N := Kept(ids[..k], wanted); forall i :: 0 <= i < |N| ==> N[i] != ids[k]
    ensures Kept(ids[..k + 1], wanted) == Kept(ids[..k], wanted) + if ids[k] in wanted then [ids[k]] else []
  {
    assert ids[..k + 1][..k] == ids[..k];
    KeptOrder(ids[..k], wanted);
    var N := Kept(ids[..k], wanted);
    forall i | 0 <= i < |N| ensures N[i] != ids[k] {
      assert N[i] in N;
      var j :| 0 <= j < k && ids[..k][j] == N[i];
    }
  }

  ghost predicate Written(info: InfoTable, out: seq<DiskInfo>, mapUnkIds: map<int, int>, N: seq<int>) {
    && |out| == |N|
    && forall i :: 0 <= i < |N| ==>
         N[i] in info && Records(out[i], info[N[i]]) && N[i] in mapUnkIds && mapUnkIds[N[i]] == i
  }

  lemma WrittenNext(info: InfoTable, out: seq<DiskInfo>, mapUnkIds: map<int, int>, N: seq<int>, id: int)
    requires Written(info, out, mapUnkIds, N) && id in info && forall i :: 0 <= i < |N| ==> N[i] != id
    ensures Written(info, out, mapUnkIds[id := |N|], N)
    ensures Written(info, out + [ToDisk(info[id])], mapUnkIds[id := |N|], N + [id])
  {
  }

  lemma AllFound(N: seq<int>, wanted: set<int>)
    requires StrictlyAscending(N) && |N| == |wanted| && forall x :: x in N ==> x in wanted
    ensures forall x :: x in wanted ==> x in N
  {
    var found := set x | x in N;
    SizeOfEnumeration(N, found);
    assert found <= wanted;
    SubsetSize(found, wanted);
    if found != wanted {
      assert found < wanted;
      ProperSubsetSize(found, wanted);
    }
  }

  lemma ProperSubsetSize(a: set<int>, b: set<int>)
    requires a < b
    ensures |a| < |b|
  {
    var x := Pick(b - a);
    SubsetSize(a + {x}, b);
  }

  method SaveBucket(bucket: set<int>, mapUnkIds: map<int, int>, ghost N: seq<int>) returns (indices: seq<int>)
    requires forall id :: id in bucket ==> id in N
    requires StrictlyAscending(N) && forall i :: 0 <= i < |N| ==> N[i] in mapUnkIds && mapUnkIds[N[i]] == i
    ensures IsBucket(indices, bucket, N)
  {
    var ids := Ascending(bucket);
    indices := [];
    var k := 0;
    while k < |ids|
      invariant 0 <= k <= |ids| && |indices| == k
      invariant forall i :: 0 <= i < k ==> 0 <= indices[i] < |N| && N[indices[i]] == ids[i]
    {
      assert ids[k] in ids;
      assert ids[k] in N;
      var nIndex := if ids[k] in mapUnkIds then mapUnkIds[ids[k]] else 0;
      indices := indices + [nIndex];
      k := k + 1;
    }
    forall i | i in indices ensures 0 <= i < |N| && N[i] in bucket {
      var j :| 0 <= j < |indices| && indices[j] == i;
      assert ids[j] in ids;
    }
    forall i | 0 <= i < |N| && N[i] in bucket ensures i in indices {
      assert N[i] in ids;
      var j :| 0 <= j < |ids| && ids[j] == N[i];
      assert N[indices[j]] == N[i];
      assert indices[j] == i;
    }
  }

  /** Writes the "new" buckets. */
  method SaveBuckets(vvNew: NewTable, mapUnkIds: map<int, int>, ghost N: seq<int>) returns (buckets: seq<seq<int>>)
    requires StrictlyAscending(N) && forall i :: 0 <= i < |N| ==> N[i] in mapUnkIds && mapUnkIds[N[i]] == i
    requires forall b, id :: 0 <= b < |vvNew| && id in vvNew[b] ==> id in N
    ensures |buckets| == |vvNew| && forall b :: 0 <= b < |buckets| ==> IsBucket(buckets[b], vvNew[b], N)
  {
    hide IsBucket, StrictlyAscending;
    buckets := [];
    var b := 0;
    while b < |vvNew|
      invariant 0 <= b <= |vvNew| && |buckets| == b
      invariant forall c :: 0 <= c < b ==> IsBucket(buckets[c], vvNew[c], N)
    {
      var indices := SaveBucket(vvNew[b], mapUnkIds, N);
      buckets := buckets + [indices];
      b := b + 1;
    }
  }

  /** Writes the tables, with the "new" and the "tried" ids each in ascending order. */
  method Save(env: Env, key: Key, t: Tables) returns (s: Saved)
    requires Consistent(env, key, t, -1)
    ensures IsSaved(key, t, s, Ascending(NewIds(t.mapInfo)), Ascending(TriedIds(t.mapInfo)))
  {
    hide Consistent, IsSaved, IsBucket, Ascending;
    ghost var N, T := Ascending(NewIds(t.mapInfo)), Ascending(TriedIds(t.mapInfo));
    RefCountKinds(env, key, t);
    var news, mapUnkIds, tried, mapTried;
    news, mapUnkIds := SaveEntries(t.mapInfo, t.nNew, false, NewIds(t.mapInfo));
    tried, mapTried := SaveEntries(t.mapInfo, t.nTried, true, TriedIds(t.mapInfo));
    BucketsListed(env, key, t);
    var buckets := SaveBuckets(t.vvNew, mapUnkIds, N);
    s := Saved(key, t.nNew, t.nTried, NEW_BUCKET_COUNT, news, tried, buckets);
    SavedSo(key, t, s, mapUnkIds, mapTried, N, T);
  }

  lemma RefCountKinds(env: Env, key: Key, t: Tables)
    requires Consistent(env, key, t, -1)
    ensures forall id :: id in t.mapInfo ==> (t.mapInfo[id].nRefCount != 0 <==> !t.mapInfo[id].fInTried)
    ensures t.nNew == |NewIds(t.mapInfo)| && t.nTried == |TriedIds(t.mapInfo)| && |t.vvNew| == NEW_BUCKET_COUNT
  {
  }

  lemma BucketsListed(env: Env, key: Key, t: Tables)
    requires Consistent(env, key, t, -1)
    ensures forall b, id :: 0 <= b < |t.vvNew| && id in t.vvNew[b] ==> id in Ascending(NewIds(t.mapInfo))
  {
    forall b, id | 0 <= b < |t.vvNew| && id in t.vvNew[b] ensures id in Ascending(NewIds(t.mapInfo)) {
      BucketIds(env, key, t, -1, b, id);
      assert id in NewIds(t.mapInfo);
    }
  }

  lemma SavedSo(key: Key, t: Tables, s: Saved, mapUnkIds: map<int, int>, mapTried: map<int, int>, N: seq<int>,
                T: seq<int>)
    requires Written(t.mapInfo, s.news, mapUnkIds, N) && Written(t.mapInfo, s.tried, mapTried, T)
    requires Enumerates(N, NewIds(t.mapInfo)) && Enumerates(T, TriedIds(t.mapInfo))
    requires s.nKey == key && |N| == s.nNew == t.nNew && |T| == s.nTried == t.nTried
    requires s.nUBuckets == NEW_BUCKET_COUNT == |s.buckets| == |t.vvNew|
    requires forall b :: 0 <= b < |s.buckets| ==> IsBucket(s.buckets[b], t.vvNew[b], N)
    ensures IsSaved(key, t, s, N, T)
  {
  }
}

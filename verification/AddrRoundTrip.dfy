/** Saving consistent tables and loading them back yields consistent tables equal up to the
    renumbering of ids, with no "tried" entry lost. */
module AddrRoundTrip {
  import opened Collections
  import opened AddrTables
  import opened AddrDisk
  import opened AddrLoad

  /** The old id of loaded entry `i`. */
  function Orig(N: seq<int>, T: seq<int>, i: int): int
    requires 0 <= i < |N| + |T|
  {
    if i < |N| then N[i] else T[i - |N|]
  }

  /** The same entry as far as the disk and the tables are concerned. */
  ghost predicate SameStored(a: AddrInfo, b: AddrInfo) {
    && a.addr == b.addr && a.nServices == b.nServices && a.source == b.source
    && a.nLastSuccess == b.nLastSuccess && a.nAttempts == b.nAttempts
    && a.nRefCount == b.nRefCount && a.fInTried == b.fInTried
  }

  ghost predicate Restored(t: Tables, t': Tables, N: seq<int>, T: seq<int>) {
    && t'.nIdCount == |N| + |T| && t'.nNew == t.nNew && t'.nTried == t.nTried
    && t'.mapAddr.Keys == t.mapAddr.Keys
    && (forall i :: i in t'.mapInfo <==> 0 <= i < |N| + |T|)
    && (forall id :: id in t.mapInfo <==> exists i :: 0 <= i < |N| + |T| && Orig(N, T, i) == id)
    && (forall i :: 0 <= i < |N| + |T| ==>
          && i in t'.mapInfo && Orig(N, T, i) in t.mapInfo
          && SameStored(t'.mapInfo[i], t.mapInfo[Orig(N, T, i)])
          && t'.mapInfo[i].nTime == 100000000 && t'.mapInfo[i].nLastTry == 0)
    && |t'.vvNew| == |t.vvNew| && |t'.vvTried| == |t.vvTried|
    && (forall b, i :: 0 <= b < |t.vvNew| && 0 <= i < |N| + |T| ==> (i in t'.vvNew[b] <==> Orig(N, T, i) in t.vvNew[b]))
    && (forall k, i :: 0 <= k < |t.vvTried| && 0 <= i < |N| + |T| ==>
          (i in t'.vvTried[k] <==> Orig(N, T, i) in t.vvTried[k]))
  }

  lemma {:induction false} RefsSame(a: NewTable, b: NewTable, i: int, j: int)
    requires |a| == |b| && forall c :: 0 <= c < |a| ==> (i in a[c] <==> j in b[c])
    ensures Refs(a, i) == Refs(b, j)
  {
    if a != [] {
      forall c | 0 <= c < |a[1..]| ensures i in a[1..][c] <==> j in b[1..][c] {
        assert i in a[c + 1] <==> j in b[c + 1];
      }
      RefsSame(a[1..], b[1..], i, j);
    }
  }

  lemma SavedRefs(env: Env, key: Key, t: Tables, s: Saved, N: seq<int>, T: seq<int>, i: int)
    requires Consistent(env, key, t, -1) && IsSaved(key, t, s, N, T)
    ensures Refs(Sets(s.buckets), i) == if 0 <= i < |N| then Refs(t.vvNew, N[i]) else 0
  {
    var sets := Sets(s.buckets);
    if 0 <= i < |N| {
      forall c | 0 <= c < |sets| ensures i in sets[c] <==> N[i] in t.vvNew[c] {
        assert IsBucket(s.buckets[c], t.vvNew[c], N);
      }
      RefsSame(sets, t.vvNew, i, N[i]);
    } else {
      forall c | 0 <= c < |sets| ensures i !in sets[c] { assert IsBucket(s.buckets[c], t.vvNew[c], N); }
      RefsZero(sets, i);
    }
  }

  /** The old ids behind the first `n` "tried" entries of bucket `k`. */
  ghost function Behind(env: Env, s: Saved, T: seq<int>, n: nat, k: int): set<int>
    requires s.Shaped() && n <= s.nTried == |T|
  {
    set j | 0 <= j < n && env.TriedBucket(s.nKey, s.tried[j].addr) == k :: T[j]
  }

  lemma {:induction false} BehindSize(env: Env, s: Saved, T: seq<int>, n: nat, k: int)
    requires s.Shaped() && n <= s.nTried == |T| && StrictlyAscending(T)
    ensures |TriedPos(env, s, n, k)| == |Behind(env, s, T, n, k)|
  {
    if n == 0 {
      assert Behind(env, s, T, 0, k) == {};
    } else {
      BehindSize(env, s, T, n - 1, k);
      BehindNext(env, s, T, n - 1, k);
      hide Behind;
    }
  }

  lemma BehindNext(env: Env, s: Saved, T: seq<int>, n: nat, k: int)
    requires s.Shaped() && n < s.nTried == |T| && StrictlyAscending(T)
    ensures T[n] !in Behind(env, s, T, n, k)
    ensures Behind(env, s, T, n + 1, k) ==
      Behind(env, s, T, n, k) + if env.TriedBucket(s.nKey, s.tried[n].addr) == k then {T[n]} else {}
  {
  }

  lemma {:induction false} TriedPosMembers(env: Env, s: Saved, n: nat, k: int, x: int)
    requires s.Shaped() && n <= s.nTried
    ensures x in TriedPos(env, s, n, k) <==>
      0 <= x - s.nNew < n && env.TriedBucket(s.nKey, s.tried[x - s.nNew].addr) == k
  {
    if n > 0 { TriedPosMembers(env, s, n - 1, k, x); }
  }

  lemma {:induction false} TriedPosNoDup(env: Env, s: Saved, n: nat, k: int)
    requires s.Shaped() && n <= s.nTried
    ensures NoDup(TriedPos(env, s, n, k))
  {
    if n > 0 {
      TriedPosNoDup(env, s, n - 1, k);
      TriedPosMembers(env, s, n - 1, k, s.nNew + n - 1);
    }
  }

  /** An entry stored as "tried" is in its own bucket before saving, and lands in it after loading. */
  lemma SavedBucket(env: Env, key: Key, t: Tables, s: Saved, N: seq<int>, T: seq<int>, j: int, k: int)
    requires Consistent(env, key, t, -1) && IsSaved(key, t, s, N, T) && 0 <= j < |T| && 0 <= k < TRIED_BUCKET_COUNT
    ensures T[j] in t.vvTried[k] <==> env.TriedBucket(s.nKey, s.tried[j].addr) == k
  {
    var id := T[j];
    assert id in T;
    assert id in TriedIds(t.mapInfo);
    assert s.tried[j].addr == t.mapInfo[id].addr;
    assert id in t.vvTried[env.TriedBucket(key, t.mapInfo[id].addr)];
    if id in t.vvTried[k] { assert env.TriedBucket(key, t.mapInfo[id].addr) == k; }
  }

  lemma SavedFits(env: Env, key: Key, t: Tables, s: Saved, N: seq<int>, T: seq<int>, k: int)
    requires Consistent(env, key, t, -1) && IsSaved(key, t, s, N, T) && 0 <= k < TRIED_BUCKET_COUNT
    ensures |TriedPos(env, s, s.nTried, k)| <= TRIED_BUCKET_SIZE
  {
    BehindSize(env, s, T, s.nTried, k);
    var behind := Behind(env, s, T, s.nTried, k);
    forall id | id in behind ensures id in SetOf(t.vvTried[k]) {
      var j :| 0 <= j < s.nTried && env.TriedBucket(s.nKey, s.tried[j].addr) == k && T[j] == id;
      SavedBucket(env, key, t, s, N, T, j, k);
    }
    SubsetSize(behind, SetOf(t.vvTried[k]));
    SizeOfEnumeration(t.vvTried[k], SetOf(t.vvTried[k]));
  }

  /** What a consistent manager writes never overfills a bucket: nothing is lost on loading. */
  lemma SavedLossless(env: Env, key: Key, t: Tables, s: Saved, N: seq<int>, T: seq<int>)
    requires Consistent(env, key, t, -1) && IsSaved(key, t, s, N, T)
    ensures Lossless(env, s)
  {
    forall k | 0 <= k < TRIED_BUCKET_COUNT ensures |TriedPos(env, s, s.nTried, k)| <= TRIED_BUCKET_SIZE {
      SavedFits(env, key, t, s, N, T, k);
    }
    forall i ensures Refs(Sets(s.buckets), i) <= NEW_BUCKETS_PER_ADDRESS {
      SavedRefs(env, key, t, s, N, T, i);
      if 0 <= i < |N| { NewEntry(env, key, t, s, N, T, i); }
    }
    forall b | 0 <= b < |s.buckets| ensures IsBucket(s.buckets[b], t.vvNew[b], N) { }
  }

  lemma NewEntry(env: Env, key: Key, t: Tables, s: Saved, N: seq<int>, T: seq<int>, i: int)
    requires Consistent(env, key, t, -1) && IsSaved(key, t, s, N, T) && 0 <= i < |N|
    ensures N[i] in t.mapInfo && !t.mapInfo[N[i]].fInTried
    ensures t.mapInfo[N[i]].nRefCount == Refs(t.vvNew, N[i]) && 1 <= Refs(t.vvNew, N[i]) <= NEW_BUCKETS_PER_ADDRESS
    ensures t.mapInfo[N[i]].nLastSuccess >= 0
  {
    assert N[i] in N;
    assert N[i] in NewIds(t.mapInfo);
  }

  lemma TriedEntry(env: Env, key: Key, t: Tables, s: Saved, N: seq<int>, T: seq<int>, j: int)
    requires Consistent(env, key, t, -1) && IsSaved(key, t, s, N, T) && 0 <= j < |T|
    ensures T[j] in t.mapInfo && t.mapInfo[T[j]].fInTried && t.mapInfo[T[j]].nRefCount == 0
    ensures t.mapInfo[T[j]].nLastSuccess > 0
  {
    assert T[j] in T;
    assert T[j] in TriedIds(t.mapInfo);
  }

  lemma LoadedEntry(env: Env, s: Saved, i: int)
    requires s.Shaped() && 0 <= i < s.nNew + s.nTried
    ensures i in Loaded(env, s).mapInfo
    ensures Loaded(env, s).mapInfo[i] == Entry(s, i).(nRefCount := Refs(Sets(s.buckets), i))
  {
  }

  ghost predicate Meaningful(info: AddrInfo, i: int, nNew: int) {
    && info.fInTried == (i >= nNew) && info.nRandomPos == i && info.nLastTry == 0 && info.nTime == 100000000
    && info.nLastSuccess >= 0 && (info.fInTried ==> info.nLastSuccess > 0)
  }

  lemma SavedEntry(env: Env, key: Key, t: Tables, s: Saved, N: seq<int>, T: seq<int>, i: int)
    requires Consistent(env, key, t, -1) && IsSaved(key, t, s, N, T) && 0 <= i < |N| + |T|
    ensures
      && Orig(N, T, i) in t.mapInfo
      && var entry := Entry(s, i).(nRefCount := Refs(Sets(s.buckets), i));
      && SameStored(entry, t.mapInfo[Orig(N, T, i)]) && Meaningful(entry, i, |N|)
  {
    SavedRefs(env, key, t, s, N, T, i);
    if i < |N| { NewEntry(env, key, t, s, N, T, i); } else { TriedEntry(env, key, t, s, N, T, i - |N|); }
  }

  /** Loaded entries, one by one. */
  lemma EntryRestored(env: Env, key: Key, t: Tables, s: Saved, N: seq<int>, T: seq<int>, i: int)
    requires Consistent(env, key, t, -1) && IsSaved(key, t, s, N, T) && 0 <= i < |N| + |T|
    ensures
      var info := Loaded(env, s).mapInfo;
      && i in info && Orig(N, T, i) in t.mapInfo
      && SameStored(info[i], t.mapInfo[Orig(N, T, i)]) && Meaningful(info[i], i, |N|)
      && info[i].nRefCount == Refs(Sets(s.buckets), i)
  {
    LoadedEntry(env, s, i);
    SavedEntry(env, key, t, s, N, T, i);
  }

  lemma OrigDistinct(env: Env, key: Key, t: Tables, s: Saved, N: seq<int>, T: seq<int>, i: int, j: int)
    requires Consistent(env, key, t, -1) && IsSaved(key, t, s, N, T) && 0 <= i < j < |N| + |T|
    ensures Orig(N, T, i) != Orig(N, T, j)
    ensures Addrs(s)[i].ip != Addrs(s)[j].ip
  {
    EntryRestored(env, key, t, s, N, T, i);
    EntryRestored(env, key, t, s, N, T, j);
    KnownIp(env, key, t, Orig(N, T, i));
    KnownIp(env, key, t, Orig(N, T, j));
    AddrAt(s, i);
    AddrAt(s, j);
  }

  lemma KnownIp(env: Env, key: Key, t: Tables, id: int)
    requires Consistent(env, key, t, -1) && id in t.mapInfo
    ensures t.mapInfo[id].addr.ip in t.mapAddr && t.mapAddr[t.mapInfo[id].addr.ip] == id
  {
  }

  lemma AddrAt(s: Saved, i: int)
    requires s.Shaped() && 0 <= i < s.nNew + s.nTried
    ensures Addrs(s)[i] == Entry(s, i).addr
  {
  }

  lemma {:induction false} IndexExact(addrs: seq<Service>, n: nat)
    requires n <= |addrs| && forall i, j :: 0 <= i < j < |addrs| ==> addrs[i].ip != addrs[j].ip
    ensures forall i :: 0 <= i < n ==> addrs[i].ip in Index(addrs, n) && Index(addrs, n)[addrs[i].ip] == i
    ensures forall a :: a in Index(addrs, n) ==> 0 <= Index(addrs, n)[a] < n && addrs[Index(addrs, n)[a]].ip == a
  {
    if n > 0 { IndexExact(addrs, n - 1); }
  }

  lemma LoadedIndex(env: Env, s: Saved)
    requires s.Shaped() && forall i, j :: 0 <= i < j < |Addrs(s)| ==> Addrs(s)[i].ip != Addrs(s)[j].ip
    ensures AddrInv(Loaded(env, s).mapInfo, Loaded(env, s).mapAddr)
    ensures forall a :: a in Loaded(env, s).mapAddr <==> exists i :: 0 <= i < |Addrs(s)| && Addrs(s)[i].ip == a
  {
    hide Loaded, Addrs;
    LoadedParts(env, s);
    var addrs := Addrs(s);
    IndexExact(addrs, |addrs|);
    var info, mapAddr := Loaded(env, s).mapInfo, Loaded(env, s).mapAddr;
    forall i | 0 <= i < |addrs| ensures i in info && info[i].addr == addrs[i] {
      LoadedEntry(env, s, i);
      AddrAt(s, i);
    }
    IndexedAddr(info, mapAddr, addrs);
  }

  lemma IndexedAddr(info: InfoTable, mapAddr: map<NetAddr, int>, addrs: seq<Service>)
    requires forall i :: i in info <==> 0 <= i < |addrs|
    requires forall i :: 0 <= i < |addrs| ==> info[i].addr == addrs[i]
    requires forall i :: 0 <= i < |addrs| ==> addrs[i].ip in mapAddr && mapAddr[addrs[i].ip] == i
    requires forall a :: a in mapAddr ==> 0 <= mapAddr[a] < |addrs| && addrs[mapAddr[a]].ip == a
    ensures AddrInv(info, mapAddr)
    ensures forall a :: a in mapAddr <==> exists i :: 0 <= i < |addrs| && addrs[i].ip == a
  {
    forall a | a in mapAddr ensures exists i :: 0 <= i < |addrs| && addrs[i].ip == a {
      assert addrs[mapAddr[a]].ip == a;
    }
  }

  lemma SavedIp(env: Env, key: Key, t: Tables, s: Saved, N: seq<int>, T: seq<int>, a: NetAddr)
    requires Consistent(env, key, t, -1) && IsSaved(key, t, s, N, T)
    ensures a in t.mapAddr <==> exists i :: 0 <= i < |Addrs(s)| && Addrs(s)[i].ip == a
  {
    if i :| 0 <= i < |Addrs(s)| && Addrs(s)[i].ip == a {
      SavedEntry(env, key, t, s, N, T, i);
      AddrAt(s, i);
      KnownIp(env, key, t, Orig(N, T, i));
    }
    if a in t.mapAddr {
      HasEntry(env, key, t, a);
      OrigOf(env, key, t, s, N, T, t.mapAddr[a]);
      var i :| 0 <= i < |N| + |T| && Orig(N, T, i) == t.mapAddr[a];
      SavedEntry(env, key, t, s, N, T, i);
      AddrAt(s, i);
    }
  }

  lemma HasEntry(env: Env, key: Key, t: Tables, a: NetAddr)
    requires Consistent(env, key, t, -1) && a in t.mapAddr
    ensures t.mapAddr[a] in t.mapInfo && t.mapInfo[t.mapAddr[a]].addr.ip == a
  {
  }

  lemma OrigOf(env: Env, key: Key, t: Tables, s: Saved, N: seq<int>, T: seq<int>, id: int)
    requires Consistent(env, key, t, -1) && IsSaved(key, t, s, N, T) && id in t.mapInfo
    ensures exists i :: 0 <= i < |N| + |T| && Orig(N, T, i) == id
  {
    if t.mapInfo[id].fInTried {
      assert id in TriedIds(t.mapInfo);
      var j :| 0 <= j < |T| && T[j] == id;
      assert Orig(N, T, |N| + j) == id;
    } else {
      assert id in NewIds(t.mapInfo);
      var j :| 0 <= j < |N| && N[j] == id;
      assert Orig(N, T, j) == id;
    }
  }

  lemma LoadedBuckets(env: Env, key: Key, t: Tables, s: Saved, N: seq<int>, T: seq<int>)
    requires Consistent(env, key, t, -1) && IsSaved(key, t, s, N, T)
    ensures forall b, i :: 0 <= b < |t.vvNew| && 0 <= i < |N| + |T| ==>
      (i in Loaded(env, s).vvNew[b] <==> Orig(N, T, i) in t.vvNew[b])
  {
    var t' := Loaded(env, s);
    forall b, i | 0 <= b < |t.vvNew| && 0 <= i < |N| + |T| ensures i in t'.vvNew[b] <==> Orig(N, T, i) in t.vvNew[b] {
      assert IsBucket(s.buckets[b], t.vvNew[b], N);
      if i >= |N| {
        TriedEntry(env, key, t, s, N, T, i - |N|);
        NotNew(env, key, t, T[i - |N|], b);
      }
    }
  }

  lemma NotNew(env: Env, key: Key, t: Tables, id: int, b: int)
    requires Consistent(env, key, t, -1) && id in t.mapInfo && t.mapInfo[id].fInTried && 0 <= b < |t.vvNew|
    ensures id !in t.vvNew[b]
  {
  }

  lemma BucketSize(indices: seq<int>, bucket: set<int>, N: seq<int>)
    requires IsBucket(indices, bucket, N) && StrictlyAscending(N)
    ensures |indices| == |SetOf(indices)| <= |bucket|
  {
    var names := seq(|indices|, i requires 0 <= i < |indices| => (assert indices[i] in indices; N[indices[i]]));
    forall i, j | 0 <= i < j < |names| ensures names[i] != names[j] {
      assert indices[i] in indices && indices[j] in indices;
      assert indices[i] < indices[j] || indices[j] < indices[i];
    }
    forall x | x in SetOf(names) ensures x in bucket {
      var i :| 0 <= i < |names| && names[i] == x;
      assert indices[i] in indices;
    }
    SizeOfEnumeration(names, SetOf(names));
    SizeOfEnumeration(indices, SetOf(indices));
    SubsetSize(SetOf(names), bucket);
  }

  lemma LoadedMembers(env: Env, s: Saved, k: int, x: int)
    requires s.Shaped() && 0 <= k < TRIED_BUCKET_COUNT
    ensures x in Loaded(env, s).vvTried[k] <==>
      0 <= x - s.nNew < s.nTried && env.TriedBucket(s.nKey, s.tried[x - s.nNew].addr) == k
  {
    TriedPosMembers(env, s, s.nTried, k, x);
  }

  lemma LoadedTriedInv(env: Env, s: Saved)
    requires Lossless(env, s)
    ensures TriedInv(env, s.nKey, Loaded(env, s).mapInfo, Loaded(env, s).vvTried)
  {
    var vvTried := Loaded(env, s).vvTried;
    forall k | 0 <= k < TRIED_BUCKET_COUNT ensures |vvTried[k]| <= TRIED_BUCKET_SIZE && NoDup(vvTried[k]) {
      TriedPosNoDup(env, s, s.nTried, k);
    }
    LoadedParts(env, s);
    LoadedTriedHashed(env, s);
  }

  /** The "tried" entries are in the buckets of their hashes, and nothing else is. */
  ghost predicate Hashed(env: Env, key: Key, info: InfoTable, vvTried: TriedTable) {
    && |vvTried| == TRIED_BUCKET_COUNT
    && (forall k, x :: 0 <= k < |vvTried| && x in vvTried[k] ==>
          x in info && info[x].fInTried && env.TriedBucket(key, info[x].addr) == k)
    && forall x :: x in info && info[x].fInTried ==> x in vvTried[env.TriedBucket(key, info[x].addr)]
  }

  lemma LoadedTriedHashed(env: Env, s: Saved)
    requires s.Shaped()
    ensures Hashed(env, s.nKey, Loaded(env, s).mapInfo, Loaded(env, s).vvTried)
  {
    LoadedParts(env, s);
    LoadedKinds(env, s);
    var info, vvTried := Loaded(env, s).mapInfo, Loaded(env, s).vvTried;
    assert |vvTried| == TRIED_BUCKET_COUNT;
    hide Loaded, Hashed;
    forall k, x | 0 <= k < |vvTried|
      ensures x in vvTried[k] <==>
        0 <= x - s.nNew < s.nTried && env.TriedBucket(s.nKey, s.tried[x - s.nNew].addr) == k
    {
      LoadedMembers(env, s, k, x);
    }
    HashedPlaces(env, s, info, vvTried);
  }

  lemma LoadedKinds(env: Env, s: Saved)
    requires s.Shaped()
    ensures
      var info := Loaded(env, s).mapInfo;
      forall i :: 0 <= i < s.nNew + s.nTried ==>
        && i in info && info[i].fInTried == (i >= s.nNew)
        && (i >= s.nNew ==> info[i].addr == s.tried[i - s.nNew].addr)
  {
    var info := Loaded(env, s).mapInfo;
    forall i | 0 <= i < s.nNew + s.nTried
      ensures i in info && info[i].fInTried == (i >= s.nNew)
      ensures i >= s.nNew ==> info[i].addr == s.tried[i - s.nNew].addr
    {
      LoadedEntry(env, s, i);
    }
  }

  lemma HashedPlaces(env: Env, s: Saved, info: InfoTable, vvTried: TriedTable)
    requires s.Shaped() && |vvTried| == TRIED_BUCKET_COUNT && forall i :: i in info <==> 0 <= i < s.nNew + s.nTried
    requires forall i :: 0 <= i < s.nNew + s.nTried ==>
      info[i].fInTried == (i >= s.nNew) && (i >= s.nNew ==> info[i].addr == s.tried[i - s.nNew].addr)
    requires forall k, x :: 0 <= k < |vvTried| ==>
      (x in vvTried[k] <==>
        0 <= x - s.nNew < s.nTried && env.TriedBucket(s.nKey, s.tried[x - s.nNew].addr) == k)
    ensures Hashed(env, s.nKey, info, vvTried)
  {
  }

  lemma SavedSizes(env: Env, key: Key, t: Tables, s: Saved, N: seq<int>, T: seq<int>)
    requires Consistent(env, key, t, -1) && IsSaved(key, t, s, N, T)
    ensures |t.vvTried| == TRIED_BUCKET_COUNT && s.Shaped() && |N| == s.nNew && |T| == s.nTried
    ensures TriedInv(env, key, t.mapInfo, t.vvTried)
  {
  }

  lemma LoadedTriedAt(env: Env, key: Key, t: Tables, s: Saved, N: seq<int>, T: seq<int>, k: int, i: int)
    requires Consistent(env, key, t, -1) && IsSaved(key, t, s, N, T) && 0 <= k < |t.vvTried| && 0 <= i < |N| + |T|
    ensures i in Loaded(env, s).vvTried[k] <==> Orig(N, T, i) in t.vvTried[k]
  {
    hide Loaded, Consistent, IsSaved, TriedInv, Env.TriedBucket;
    SavedSizes(env, key, t, s, N, T);
    LoadedMembers(env, s, k, i);
    if i >= |N| {
      SavedBucket(env, key, t, s, N, T, i - |N|, k);
    } else {
      NewEntry(env, key, t, s, N, T, i);
      NotYetTriedFull(env, key, t.mapInfo, t.vvTried, N[i], k);
    }
  }

  ghost function Range(lo: int, hi: int): (r: set<int>)
    ensures forall x :: x in r <==> lo <= x < hi
    ensures |r| == if lo <= hi then hi - lo else 0
    decreases hi - lo
  {
    if lo >= hi then {} else Range(lo, hi - 1) + {hi - 1}
  }

  lemma LoadedCounts(env: Env, s: Saved)
    requires s.Shaped()
    ensures |NewIds(Loaded(env, s).mapInfo)| == s.nNew && |TriedIds(Loaded(env, s).mapInfo)| == s.nTried
  {
    var info := Loaded(env, s).mapInfo;
    forall i | 0 <= i < s.nNew + s.nTried
      ensures i in info && info[i].fInTried == (i >= s.nNew)
    {
      LoadedEntry(env, s, i);
    }
    assert NewIds(info) == Range(0, s.nNew);
    assert TriedIds(info) == Range(s.nNew, s.nNew + s.nTried);
  }

  // ---- Streams that load as consistent tables ----

  /** A stream with sound "new" buckets, every "new" entry in one of them, no address twice, and a success
      on record for every "tried" entry. */
  ghost predicate WellFormed(s: Saved) {
    && Listed(s)
    && (forall b :: 0 <= b < |s.buckets| ==> |s.buckets[b]| <= NEW_BUCKET_SIZE)
    && (forall i :: 0 <= i < s.nNew ==> 1 <= Refs(Sets(s.buckets), i) && s.news[i].nLastSuccess >= 0)
    && (forall j :: 0 <= j < s.nTried ==> s.tried[j].nLastSuccess > 0)
    && forall i, j :: 0 <= i < j < |Addrs(s)| ==> Addrs(s)[i].ip != Addrs(s)[j].ip
  }

  lemma WellFormedEntry(env: Env, s: Saved, i: int)
    requires WellFormed(s) && 0 <= i < s.nNew + s.nTried
    ensures i in Loaded(env, s).mapInfo && Meaningful(Loaded(env, s).mapInfo[i], i, s.nNew)
    ensures Loaded(env, s).mapInfo[i].nRefCount == Refs(Sets(s.buckets), i) <= NEW_BUCKETS_PER_ADDRESS
    ensures if i < s.nNew then Refs(Sets(s.buckets), i) >= 1 else Refs(Sets(s.buckets), i) == 0
  {
    LoadedEntry(env, s, i);
    if i >= s.nNew {
      forall c | 0 <= c < |s.buckets| ensures i !in Sets(s.buckets)[c] { }
      RefsZero(Sets(s.buckets), i);
    }
  }

  lemma LoadedNumbered(env: Env, s: Saved)
    requires WellFormed(s)
    ensures EntryInv(Loaded(env, s).mapInfo, Loaded(env, s).nIdCount)
    ensures RandomInv(Loaded(env, s).mapInfo, Loaded(env, s).vRandom)
  {
    hide WellFormed;
    WellFormedShape(s);
    var info := Loaded(env, s).mapInfo;
    forall i | 0 <= i < s.nNew + s.nTried ensures i in info && Meaningful(info[i], i, s.nNew) {
      WellFormedEntry(env, s, i);
    }
  }

  lemma WellFormedShape(s: Saved)
    requires WellFormed(s)
    ensures s.Shaped() && s.nUBuckets == NEW_BUCKET_COUNT
  {
  }

  lemma LoadedNewInv(env: Env, s: Saved)
    requires WellFormed(s)
    ensures NewInv(Loaded(env, s).mapInfo, Loaded(env, s).vvNew, -1)
  {
    hide WellFormed, Loaded;
    WellFormedShape(s);
    LoadedParts(env, s);
    var info, vvNew := Loaded(env, s).mapInfo, Sets(s.buckets);
    forall i | i in info
      ensures if info[i].fInTried then info[i].nRefCount == 0
              else info[i].nRefCount == Refs(vvNew, i) && 1 <= info[i].nRefCount <= NEW_BUCKETS_PER_ADDRESS
    {
      WellFormedEntry(env, s, i);
    }
    forall b | 0 <= b < |vvNew| ensures |vvNew[b]| <= NEW_BUCKET_SIZE { WellFormedBucket(env, s, b); }
    forall b, i | 0 <= b < |vvNew| && i in vvNew[b] ensures i in info && !info[i].fInTried {
      WellFormedBucket(env, s, b);
      WellFormedEntry(env, s, i);
    }
  }

  lemma LoadedParts(env: Env, s: Saved)
    requires s.Shaped()
    ensures Loaded(env, s).vvNew == Sets(s.buckets)
    ensures Loaded(env, s).mapAddr == Index(Addrs(s), |Addrs(s)|)
    ensures forall i :: i in Loaded(env, s).mapInfo <==> 0 <= i < s.nNew + s.nTried
  {
  }

  lemma WellFormedBucket(env: Env, s: Saved, b: int)
    requires WellFormed(s) && 0 <= b < |s.buckets|
    ensures |Sets(s.buckets)[b]| <= NEW_BUCKET_SIZE
    ensures forall i :: i in Sets(s.buckets)[b] ==> 0 <= i < s.nNew
  {
    SizeOfEnumeration(s.buckets[b], SetOf(s.buckets[b]));
  }

  /** Well-formed streams that lose nothing load as consistent tables. */
  lemma LoadedSound(env: Env, s: Saved)
    requires WellFormed(s) && Lossless(env, s)
    ensures Consistent(env, s.nKey, Loaded(env, s), -1)
  {
    LoadedNumbered(env, s);
    LoadedIndex(env, s);
    LoadedNewInv(env, s);
    LoadedTriedInv(env, s);
    LoadedCounts(env, s);
    hide EntryInv, RandomInv, AddrInv, NewInv, TriedInv, WellFormed, Lossless, NewIds, TriedIds;
  }

  // ---- Streams that lose "tried" entries ----

  lemma {:induction false} KeptMember(env: Env, key: Key, tried: seq<DiskInfo>, d: DiskInfo)
    requires d in KeptTried(env, key, tried)
    ensures d in tried
  {
    if tried != [] {
      var n := |tried| - 1;
      assert tried == tried[..n] + [tried[n]];
      if d in KeptTried(env, key, tried[..n]) { KeptMember(env, key, tried[..n], d); }
    }
  }

  /** No two of the entries have an address in common, or one of the given ones. */
  ghost predicate Apart(ips: set<NetAddr>, tried: seq<DiskInfo>) {
    && (forall j :: 0 <= j < |tried| ==> tried[j].addr.ip !in ips)
    && forall i, j :: 0 <= i < j < |tried| ==> tried[i].addr.ip != tried[j].addr.ip
  }

  lemma {:induction false} KeptApart(env: Env, key: Key, ips: set<NetAddr>, tried: seq<DiskInfo>)
    requires Apart(ips, tried)
    ensures Apart(ips, KeptTried(env, key, tried))
  {
    hide Hashing, Env.TriedBucket;
    if tried != [] {
      var n := |tried| - 1;
      KeptApart(env, key, ips, tried[..n]);
      var before := KeptTried(env, key, tried[..n]);
      forall j | 0 <= j < |before| ensures before[j].addr.ip != tried[n].addr.ip {
        KeptMember(env, key, tried[..n], before[j]);
        var i :| 0 <= i < n && tried[..n][i] == before[j];
      }
    }
  }

  ghost function NewIps(s: Saved): set<NetAddr> { set i | 0 <= i < |s.news| :: s.news[i].addr.ip }

  lemma DistinctApart(s: Saved)
    requires s.Shaped()
    ensures (forall i, j :: 0 <= i < j < |Addrs(s)| ==> Addrs(s)[i].ip != Addrs(s)[j].ip) <==>
      && Apart(NewIps(s), s.tried)
      && forall i, j :: 0 <= i < j < |s.news| ==> s.news[i].addr.ip != s.news[j].addr.ip
  {
    var a := Addrs(s);
    assert forall i :: 0 <= i < s.nNew ==> a[i] == s.news[i].addr;
    assert forall j :: 0 <= j < s.nTried ==> s.tried[j].addr == a[s.nNew + j];
  }

  lemma TrimWellFormed(env: Env, s: Saved)
    requires WellFormed(s)
    ensures WellFormed(Trim(env, s))
  {
    var r := Trim(env, s);
    DistinctApart(s);
    KeptApart(env, s.nKey, NewIps(s), s.tried);
    assert NewIps(r) == NewIps(s);
    DistinctApart(r);
    forall j | 0 <= j < r.nTried ensures r.tried[j].nLastSuccess > 0 {
      KeptMember(env, s.nKey, s.tried, r.tried[j]);
    }
  }

  /** However many "tried" entries hash to one bucket: what a well-formed stream loads as is consistent,
      and has from each bucket as many of them as there are, up to its size. */
  lemma OverfullSound(env: Env, s: Saved)
    requires WellFormed(s)
    ensures Consistent(env, s.nKey, Loaded(env, Trim(env, s)), -1)
    ensures Loaded(env, Trim(env, s)).nTried == KeptCount(env, s.nKey, s.tried, TRIED_BUCKET_COUNT)
  {
    hide WellFormed, Lossless, Consistent;
    WellFormedListed(s);
    TrimWellFormed(env, s);
    TrimLossless(env, s);
    LoadedSound(env, Trim(env, s));
    TrimCount(env, s);
  }

  lemma WellFormedListed(s: Saved)
    requires WellFormed(s)
    ensures Listed(s)
  {
  }

  // ---- Saved streams ----

  /** What a consistent manager writes is well formed. */
  lemma SavedWellFormed(env: Env, key: Key, t: Tables, s: Saved, N: seq<int>, T: seq<int>)
    requires Consistent(env, key, t, -1) && IsSaved(key, t, s, N, T)
    ensures WellFormed(s)
  {
    hide Consistent, IsBucket;
    SavedLossless(env, key, t, s, N, T);
    forall b | 0 <= b < |s.buckets| ensures |s.buckets[b]| <= NEW_BUCKET_SIZE {
      assert IsBucket(s.buckets[b], t.vvNew[b], N);
      BucketSize(s.buckets[b], t.vvNew[b], N);
      TableBucket(env, key, t, b);
    }
    forall i | 0 <= i < s.nNew ensures 1 <= Refs(Sets(s.buckets), i) && s.news[i].nLastSuccess >= 0 {
      SavedRefs(env, key, t, s, N, T, i);
      NewEntry(env, key, t, s, N, T, i);
    }
    forall j | 0 <= j < s.nTried ensures s.tried[j].nLastSuccess > 0 { TriedEntry(env, key, t, s, N, T, j); }
    forall i, j | 0 <= i < j < |Addrs(s)| ensures Addrs(s)[i].ip != Addrs(s)[j].ip {
      OrigDistinct(env, key, t, s, N, T, i, j);
    }
  }

  lemma TableBucket(env: Env, key: Key, t: Tables, b: int)
    requires Consistent(env, key, t, -1) && 0 <= b < |t.vvNew|
    ensures |t.vvNew[b]| <= NEW_BUCKET_SIZE
  {
  }

  lemma LoadedConsistent(env: Env, key: Key, t: Tables, s: Saved, N: seq<int>, T: seq<int>)
    requires Consistent(env, key, t, -1) && IsSaved(key, t, s, N, T)
    ensures Consistent(env, key, Loaded(env, s), -1)
  {
    hide Consistent;
    SavedLossless(env, key, t, s, N, T);
    SavedWellFormed(env, key, t, s, N, T);
    LoadedSound(env, s);
  }

  lemma LoadedKeys(env: Env, key: Key, t: Tables, s: Saved, N: seq<int>, T: seq<int>)
    requires Consistent(env, key, t, -1) && IsSaved(key, t, s, N, T)
    ensures Loaded(env, s).mapAddr.Keys == t.mapAddr.Keys
  {
    hide Consistent, IsSaved, Loaded;
    SavedWellFormed(env, key, t, s, N, T);
    LoadedIndex(env, s);
    forall a ensures a in Loaded(env, s).mapAddr <==> a in t.mapAddr { SavedIp(env, key, t, s, N, T, a); }
  }

  lemma LoadedRestored(env: Env, key: Key, t: Tables, s: Saved, N: seq<int>, T: seq<int>)
    requires Consistent(env, key, t, -1) && IsSaved(key, t, s, N, T)
    ensures Restored(t, Loaded(env, s), N, T)
  {
    var t' := Loaded(env, s);
    forall i | 0 <= i < |N| + |T|
      ensures i in t'.mapInfo && Orig(N, T, i) in t.mapInfo && SameStored(t'.mapInfo[i], t.mapInfo[Orig(N, T, i)])
      ensures Meaningful(t'.mapInfo[i], i, |N|)
    {
      EntryRestored(env, key, t, s, N, T, i);
    }
    forall id | id in t.mapInfo ensures exists i :: 0 <= i < |N| + |T| && Orig(N, T, i) == id {
      OrigOf(env, key, t, s, N, T, id);
    }
    forall k, i | 0 <= k < |t.vvTried| && 0 <= i < |N| + |T|
      ensures i in t'.vvTried[k] <==> Orig(N, T, i) in t.vvTried[k]
    {
      LoadedTriedAt(env, key, t, s, N, T, k, i);
    }
    LoadedKeys(env, key, t, s, N, T);
    LoadedBuckets(env, key, t, s, N, T);
  }
}

/** The manager's own consistency check: exactly what it establishes, and what consistent tables need
    beyond it. */
module AddrCheck {
  import opened Collections
  import opened AddrTables

  // ---- What the check looks for ----

  /** The tests made of a single entry all pass.  A missing address reads as id 0. */
  predicate EntryOk(t: Tables, id: int)
    requires id in t.mapInfo
  {
    var info := t.mapInfo[id];
    && (if info.fInTried then info.nLastSuccess != 0 && info.nRefCount == 0
        else 1 <= info.nRefCount <= NEW_BUCKETS_PER_ADDRESS)
    && (if info.addr.ip in t.mapAddr then t.mapAddr[info.addr.ip] else 0) == id
    && 0 <= info.nRandomPos < |t.vRandom| && t.vRandom[info.nRandomPos] == id
    && info.nLastTry >= 0 && info.nLastSuccess >= 0
  }

  /** How often an id occurs in the first `n` places of a bucket. */
  function Times(bucket: seq<int>, n: nat, id: int): nat
    requires n <= |bucket|
  {
    if n == 0 then 0 else Times(bucket, n - 1, id) + if bucket[n - 1] == id then 1 else 0
  }

  /** How often it occurs in the first `n` "tried" buckets. */
  function TimesIn(vvTried: TriedTable, n: nat, id: int): nat
    requires n <= |vvTried|
  {
    if n == 0 then 0 else TimesIn(vvTried, n - 1, id) + Times(vvTried[n - 1], |vvTried[n - 1]|, id)
  }

  /** In how many of the first `n` "new" buckets it occurs. */
  function RefsIn(vvNew: NewTable, n: nat, id: int): nat
    requires n <= |vvNew|
  {
    if n == 0 then 0 else RefsIn(vvNew, n - 1, id) + if id in vvNew[n - 1] then 1 else 0
  }

  function TriedCount(info: InfoTable, id: int): nat { if id in info && info[id].fInTried then 1 else 0 }

  function NewCount(info: InfoTable, id: int): int {
    if id in info && !info[id].fInTried then info[id].nRefCount else 0
  }

  /** Entries are right one by one, the counters are right, and the buckets hold each "tried" id once,
      each "new" id as often as it is referenced, and nothing else. */
  ghost predicate Checked(t: Tables) {
    && |t.vRandom| == t.nTried + t.nNew
    && (forall id :: id in t.mapInfo ==> EntryOk(t, id))
    && |TriedIds(t.mapInfo)| == t.nTried && |NewIds(t.mapInfo)| == t.nNew
    && (forall id :: TimesIn(t.vvTried, |t.vvTried|, id) == TriedCount(t.mapInfo, id))
    && (forall id :: RefsIn(t.vvNew, |t.vvNew|, id) == NewCount(t.mapInfo, id))
  }

  // ---- The check ----

  /** What the entry loop gathers: the "tried" ids, and the "new" ids with their reference counts. */
  ghost predicate Collected(info: InfoTable, done: set<int>, setTried: set<int>, mapNew: map<int, int>) {
    && (forall id :: id in setTried <==> id in done && id in info && info[id].fInTried)
    && (forall id :: id in mapNew <==> id in done && id in info && !info[id].fInTried)
    && (forall id :: id in mapNew ==> id in info && mapNew[id] == info[id].nRefCount)
  }

  /** The first loop: each entry on its own. */
  method CheckEntries(t: Tables) returns (r: int, setTried: set<int>, mapNew: map<int, int>)
    ensures r == 0 <==> forall id :: id in t.mapInfo ==> EntryOk(t, id)
    ensures r == 0 ==> Collected(t.mapInfo, t.mapInfo.Keys, setTried, mapNew)
  {
    hide EntryOk, Collected;
    setTried, mapNew := {}, map[];
    NothingCollected(t.mapInfo);
    var ids := Ascending(t.mapInfo.Keys);
    ghost var done: set<int> := {};
    var i := 0;
    while i < |ids|
      invariant 0 <= i <= |ids|
      invariant forall j :: 0 <= j < i ==> ids[j] in done
      invariant done <= t.mapInfo.Keys && forall id :: id in done ==> EntryOk(t, id)
      invariant Collected(t.mapInfo, done, setTried, mapNew)
    {
      var n := ids[i];
      assert n in ids;
      r := CheckEntry(t, n);
      if r != 0 { return; }
      CollectedNext(t.mapInfo, done, setTried, mapNew, n);
      if t.mapInfo[n].fInTried { setTried := setTried + {n}; } else { mapNew := mapNew[n := t.mapInfo[n].nRefCount]; }
      done := done + {n};
      i := i + 1;
    }
    forall id | id in t.mapInfo ensures id in done {
      assert id in ids;
      var j :| 0 <= j < |ids| && ids[j] == id;
    }
    assert done == t.mapInfo.Keys;
    r := 0;
  }

  lemma NothingCollected(info: InfoTable)
    ensures Collected(info, {}, {}, map[])
  {
  }

  lemma CollectedNext(info: InfoTable, done: set<int>, setTried: set<int>, mapNew: map<int, int>, n: int)
    requires Collected(info, done, setTried, mapNew) && n in info
    ensures Collected(info, done + {n}, if info[n].fInTried then setTried + {n} else setTried,
                      if info[n].fInTried then mapNew else mapNew[n := info[n].nRefCount])
  {
  }

  /** The tests of one entry. */
  method CheckEntry(t: Tables, n: int) returns (r: int)
    requires n in t.mapInfo
    ensures r == 0 <==> EntryOk(t, n)
  {
    var info := t.mapInfo[n];
    if info.fInTried {
      if info.nLastSuccess == 0 { return -1; }
      if info.nRefCount != 0 { return -2; }
    } else {
      if info.nRefCount < 0 || info.nRefCount > NEW_BUCKETS_PER_ADDRESS { return -3; }
      if info.nRefCount == 0 { return -4; }
    }
    if (if info.addr.ip in t.mapAddr then t.mapAddr[info.addr.ip] else 0) != n { return -5; }
    if info.nRandomPos < 0 || info.nRandomPos >= |t.vRandom| || t.vRandom[info.nRandomPos] != n { return -14; }
    if info.nLastTry < 0 { return -6; }
    if info.nLastSuccess < 0 { return -8; }
    r := 0;
  }

  /** Strikes each id met in a bucket off the list: an error when it is not on the list any more, and
      what remains at the end occurs nowhere. */
  method CheckTried(info: InfoTable, vvTried: TriedTable, tried: set<int>) returns (met: bool, left: set<int>)
    requires forall id :: id in tried <==> TriedCount(info, id) == 1
    ensures met && left == {} <==> forall id :: TimesIn(vvTried, |vvTried|, id) == TriedCount(info, id)
  {
    left := tried;
    for n := 0 to |vvTried|
      invariant forall id :: TimesIn(vvTried, n, id) + (if id in left then 1 else 0) == TriedCount(info, id)
    {
      var vTried := vvTried[n];
      for j := 0 to |vTried|
        invariant forall id ::
          TimesIn(vvTried, n, id) + Times(vTried, j, id) + (if id in left then 1 else 0) == TriedCount(info, id)
      {
        var id := vTried[j];
        if id !in left {
          TimesMost(vvTried, n, j, id);
          return false, left;
        }
        left := left - {id};
      }
    }
    met := true;
    if left != {} { ghost var id := Pick(left); assert TimesIn(vvTried, |vvTried|, id) != TriedCount(info, id); }
  }

  lemma {:induction false} TimesGrow(bucket: seq<int>, m: nat, n: nat, id: int)
    requires m <= n <= |bucket|
    ensures Times(bucket, m, id) <= Times(bucket, n, id)
  {
    if m < n { TimesGrow(bucket, m, n - 1, id); }
  }

  lemma {:induction false} TimesInGrow(vvTried: TriedTable, m: nat, n: nat, id: int)
    requires m <= n <= |vvTried|
    ensures TimesIn(vvTried, m, id) <= TimesIn(vvTried, n, id)
  {
    if m < n { TimesInGrow(vvTried, m, n - 1, id); }
  }

  /** An occurrence counts in the total. */
  lemma TimesMost(vvTried: TriedTable, n: nat, j: nat, id: int)
    requires n < |vvTried| && j < |vvTried[n]| && vvTried[n][j] == id
    ensures TimesIn(vvTried, n, id) + Times(vvTried[n], j, id) < TimesIn(vvTried, |vvTried|, id)
  {
    TimesGrow(vvTried[n], j + 1, |vvTried[n]|, id);
    TimesInGrow(vvTried, n + 1, |vvTried|, id);
  }

  /** References met so far, in whole buckets and in the first `j` ids of one, and those still expected. */
  ghost predicate Expected(info: InfoTable, vvNew: NewTable, n: nat, ids: seq<int>, j: nat, left: map<int, int>)
    requires n <= |vvNew| && j <= |ids|
  {
    && (forall id :: RefsIn(vvNew, n, id) + Times(ids, j, id) + (if id in left then left[id] else 0) ==
          NewCount(info, id))
    && forall id :: id in left ==> left[id] > 0
  }

  /** Counts each reference down: an error when none is expected any more, and what remains at the end
      has too few. */
  method CheckNew(info: InfoTable, vvNew: NewTable, counts: map<int, int>) returns (met: bool, left: map<int, int>)
    requires forall id :: id in counts <==> NewCount(info, id) != 0
    requires forall id :: id in counts ==> counts[id] == NewCount(info, id) > 0
    ensures met && left == map[] <==> forall id :: RefsIn(vvNew, |vvNew|, id) == NewCount(info, id)
  {
    hide Expected, RefsIn, NewCount, StrictlyAscending;
    left := counts;
    AllExpected(info, vvNew, left);
    for n := 0 to |vvNew|
      invariant Expected(info, vvNew, n, [], 0, left)
    {
      var ids := Ascending(vvNew[n]);
      NoneMet(info, vvNew, n, ids, left);
      for j := 0 to |ids|
        invariant Expected(info, vvNew, n, ids, j, left)
      {
        var id := ids[j];
        if id !in left {
          TooMany(info, vvNew, n, ids, j, left);
          return false, left;
        }
        NextExpected(info, vvNew, n, ids, j, left);
        if left[id] - 1 == 0 { left := left - {id}; } else { left := left[id := left[id] - 1]; }
      }
      BucketMet(info, vvNew, n, ids, left);
    }
    met := true;
    NoneLeft(info, vvNew, left);
  }

  lemma AllExpected(info: InfoTable, vvNew: NewTable, counts: map<int, int>)
    requires forall id :: id in counts <==> NewCount(info, id) != 0
    requires forall id :: id in counts ==> counts[id] == NewCount(info, id) > 0
    ensures Expected(info, vvNew, 0, [], 0, counts)
  {
    hide NewCount;
  }

  lemma NoneMet(info: InfoTable, vvNew: NewTable, n: nat, ids: seq<int>, left: map<int, int>)
    requires n <= |vvNew| && Expected(info, vvNew, n, [], 0, left)
    ensures Expected(info, vvNew, n, ids, 0, left)
  {
    hide RefsIn, NewCount;
  }

  lemma BucketMet(info: InfoTable, vvNew: NewTable, n: nat, ids: seq<int>, left: map<int, int>)
    requires n < |vvNew| && Expected(info, vvNew, n, ids, |ids|, left)
    requires StrictlyAscending(ids) && forall x :: x in ids <==> x in vvNew[n]
    ensures Expected(info, vvNew, n + 1, [], 0, left)
  {
    AllMet(ids, vvNew[n]);
    hide NewCount, StrictlyAscending;
  }

  lemma NoneLeft(info: InfoTable, vvNew: NewTable, left: map<int, int>)
    requires Expected(info, vvNew, |vvNew|, [], 0, left)
    ensures left == map[] <==> forall id :: RefsIn(vvNew, |vvNew|, id) == NewCount(info, id)
  {
    hide RefsIn, NewCount;
    if left != map[] {
      var id := Pick(left.Keys);
      assert RefsIn(vvNew, |vvNew|, id) != NewCount(info, id);
    }
  }

  lemma NextExpected(info: InfoTable, vvNew: NewTable, n: nat, ids: seq<int>, j: nat, left: map<int, int>)
    requires n <= |vvNew| && j < |ids| && Expected(info, vvNew, n, ids, j, left) && ids[j] in left
    ensures Expected(info, vvNew, n, ids, j + 1,
                     if left[ids[j]] - 1 == 0 then left - {ids[j]} else left[ids[j] := left[ids[j]] - 1])
  {
  }

  lemma TooMany(info: InfoTable, vvNew: NewTable, n: nat, ids: seq<int>, j: nat, left: map<int, int>)
    requires n < |vvNew| && j < |ids| && Expected(info, vvNew, n, ids, j, left) && ids[j] !in left
    requires StrictlyAscending(ids) && forall x :: x in ids <==> x in vvNew[n]
    ensures RefsIn(vvNew, |vvNew|, ids[j]) > NewCount(info, ids[j])
  {
    AllMet(ids, vvNew[n]);
    TimesGrow(ids, j + 1, |ids|, ids[j]);
    RefsInGrow(vvNew, n + 1, |vvNew|, ids[j]);
  }

  lemma {:induction false} RefsInGrow(vvNew: NewTable, m: nat, n: nat, id: int)
    requires m <= n <= |vvNew|
    ensures RefsIn(vvNew, m, id) <= RefsIn(vvNew, n, id)
  {
    if m < n { RefsInGrow(vvNew, m, n - 1, id); }
  }

  /** Going through a set in order meets each member once. */
  lemma AllMet(ids: seq<int>, bucket: set<int>)
    requires StrictlyAscending(ids) && forall x :: x in ids <==> x in bucket
    ensures forall id :: Times(ids, |ids|, id) == if id in bucket then 1 else 0
  {
    forall id ensures Times(ids, |ids|, id) == if id in bucket then 1 else 0 { TimesOnce(ids, |ids|, id); }
  }

  lemma {:induction false} TimesOnce(s: seq<int>, n: nat, id: int)
    requires NoDup(s) && n <= |s|
    ensures Times(s, n, id) == if id in s[..n] then 1 else 0
  {
    if n > 0 {
      TimesOnce(s, n - 1, id);
      assert s[..n] == s[..n - 1] + [s[n - 1]];
    }
  }

  /** `Check_`: zero exactly when everything it looks for holds. */
  method Check_(t: Tables) returns (r: int)
    ensures r == 0 <==> Checked(t)
  {
    if |t.vRandom| != t.nTried + t.nNew { return -7; }
    var setTried, mapNew;
    r, setTried, mapNew := CheckEntries(t);
    if r != 0 { return; }
    Gathered(t, setTried, mapNew);
    if |setTried| != t.nTried { return -9; }
    if |mapNew| != t.nNew { return -10; }
    var metTried, leftTried := CheckTried(t.mapInfo, t.vvTried, setTried);
    if !metTried { return -11; }
    var metNew, leftNew := CheckNew(t.mapInfo, t.vvNew, mapNew);
    if !metNew { return -12; }
    if |leftTried| != 0 { return -13; }
    if |leftNew| != 0 { return -15; }
    r := 0;
  }

  lemma Gathered(t: Tables, setTried: set<int>, mapNew: map<int, int>)
    requires Collected(t.mapInfo, t.mapInfo.Keys, setTried, mapNew) && forall id :: id in t.mapInfo ==> EntryOk(t, id)
    ensures setTried == TriedIds(t.mapInfo) && mapNew.Keys == NewIds(t.mapInfo) && |mapNew| == |NewIds(t.mapInfo)|
    ensures forall id :: id in setTried <==> TriedCount(t.mapInfo, id) == 1
    ensures forall id :: id in mapNew <==> NewCount(t.mapInfo, id) != 0
    ensures forall id :: id in mapNew ==> mapNew[id] == NewCount(t.mapInfo, id) > 0
  {
    forall id ensures id in setTried <==> id in TriedIds(t.mapInfo) {}
    forall id ensures id in mapNew.Keys <==> id in NewIds(t.mapInfo) {}
    assert setTried == TriedIds(t.mapInfo) && mapNew.Keys == NewIds(t.mapInfo);
    forall id | id in mapNew ensures mapNew[id] == NewCount(t.mapInfo, id) > 0 { assert EntryOk(t, id); }
    forall id | id in NewIds(t.mapInfo) ensures NewCount(t.mapInfo, id) != 0 { assert EntryOk(t, id); }
  }

  // ---- The check against the invariant ----

  /** What the check does not look at: ids stay below the counter, the address index has no other
      addresses, bucket numbers and sizes are right, and a "tried" id is in the bucket of its hash. */
  ghost predicate Unchecked(env: Env, key: Key, t: Tables) {
    && 0 <= t.nIdCount && (forall id :: id in t.mapInfo ==> 0 <= id < t.nIdCount)
    && (forall id :: id in t.mapInfo ==> t.mapInfo[id].addr.ip in t.mapAddr)
    && (forall a :: a in t.mapAddr ==> t.mapAddr[a] in t.mapInfo && t.mapInfo[t.mapAddr[a]].addr.ip == a)
    && |t.vvNew| == NEW_BUCKET_COUNT && (forall b :: 0 <= b < |t.vvNew| ==> |t.vvNew[b]| <= NEW_BUCKET_SIZE)
    && |t.vvTried| == TRIED_BUCKET_COUNT && (forall k :: 0 <= k < |t.vvTried| ==> |t.vvTried[k]| <= TRIED_BUCKET_SIZE)
    && forall k, id :: 0 <= k < |t.vvTried| && id in t.vvTried[k] && id in t.mapInfo ==>
         env.TriedBucket(key, t.mapInfo[id].addr) == k
  }

  lemma {:induction false} RefsAre(vvNew: NewTable, n: nat, id: int)
    requires n <= |vvNew|
    ensures RefsIn(vvNew, n, id) + Refs(vvNew[n..], id) == Refs(vvNew, id)
  {
    if n == 0 {
      assert vvNew[0..] == vvNew;
    } else {
      RefsAre(vvNew, n - 1, id);
      assert vvNew[n - 1..][0] == vvNew[n - 1] && vvNew[n - 1..][1..] == vvNew[n..];
    }
  }

  lemma RefsAll(vvNew: NewTable, id: int)
    ensures RefsIn(vvNew, |vvNew|, id) == Refs(vvNew, id)
  {
    RefsAre(vvNew, |vvNew|, id);
    assert vvNew[|vvNew|..] == [];
  }

  lemma {:induction false} TimesWhere(env: Env, key: Key, t: Tables, n: nat, id: int)
    requires TriedInv(env, key, t.mapInfo, t.vvTried) && n <= |t.vvTried|
    ensures TimesIn(t.vvTried, n, id) ==
      if id in t.mapInfo && t.mapInfo[id].fInTried && env.TriedBucket(key, t.mapInfo[id].addr) < n then 1 else 0
  {
    if n > 0 {
      TimesWhere(env, key, t, n - 1, id);
      var bucket := t.vvTried[n - 1];
      TimesOnce(bucket, |bucket|, id);
      assert bucket[..|bucket|] == bucket;
    }
  }

  lemma RandomSize(info: InfoTable, vRandom: seq<int>)
    requires RandomInv(info, vRandom)
    ensures |vRandom| == |TriedIds(info)| + |NewIds(info)|
  {
    assert info.Keys == TriedIds(info) + NewIds(info);
    RandomIsKeys(info, vRandom, |vRandom|);
    assert (set i | 0 <= i < |vRandom| :: vRandom[i]) == info.Keys by {
      forall id | id in info ensures id in (set i | 0 <= i < |vRandom| :: vRandom[i]) {
        assert vRandom[info[id].nRandomPos] == id;
      }
    }
  }

  lemma {:induction false} RandomIsKeys(info: InfoTable, vRandom: seq<int>, n: nat)
    requires RandomInv(info, vRandom) && n <= |vRandom|
    ensures |set i | 0 <= i < n :: vRandom[i]| == n
  {
    if n > 0 {
      RandomIsKeys(info, vRandom, n - 1);
      var s := set i | 0 <= i < n - 1 :: vRandom[i];
      assert info[vRandom[n - 1]].nRandomPos == n - 1;
      assert vRandom[n - 1] !in s;
      assert (set i | 0 <= i < n :: vRandom[i]) == s + {vRandom[n - 1]};
    }
  }

  lemma ConsistentChecked(env: Env, key: Key, t: Tables)
    requires Consistent(env, key, t, -1)
    ensures Checked(t) && Unchecked(env, key, t)
  {
    RandomSize(t.mapInfo, t.vRandom);
    forall id | id in t.mapInfo ensures EntryOk(t, id) {}
    forall id ensures TimesIn(t.vvTried, |t.vvTried|, id) == TriedCount(t.mapInfo, id) {
      TimesWhere(env, key, t, |t.vvTried|, id);
    }
    forall id ensures RefsIn(t.vvNew, |t.vvNew|, id) == NewCount(t.mapInfo, id) {
      RefsAll(t.vvNew, id);
      RefsZero(t.vvNew, id);
      if Refs(t.vvNew, id) > 0 { var b :| 0 <= b < |t.vvNew| && id in t.vvNew[b]; assert id in t.mapInfo; }
    }
  }

  /** Positions that are all different and as many as there are places fill every place. */
  lemma PlacesFilled(info: InfoTable, vRandom: seq<int>)
    requires forall id :: id in info ==> 0 <= info[id].nRandomPos < |vRandom| && vRandom[info[id].nRandomPos] == id
    requires |vRandom| == |info|
    ensures RandomInv(info, vRandom)
  {
    var places := Places(info, info.Keys);
    PlacesSize(info, vRandom, info.Keys);
    RangeBound(places, 0, |vRandom|);
    forall i | 0 <= i < |vRandom| ensures vRandom[i] in info && info[vRandom[i]].nRandomPos == i {
      var more := places + {i};
      RangeBound(more, 0, |vRandom|);
      assert i !in places ==> |more| == |places| + 1;
      var id :| id in info.Keys && info[id].nRandomPos == i;
    }
  }

  ghost function Places(info: InfoTable, ids: set<int>): set<int>
    requires ids <= info.Keys
  {
    set id | id in ids :: info[id].nRandomPos
  }

  lemma {:induction false} PlacesSize(info: InfoTable, vRandom: seq<int>, ids: set<int>)
    requires ids <= info.Keys
    requires forall id :: id in info ==> 0 <= info[id].nRandomPos < |vRandom| && vRandom[info[id].nRandomPos] == id
    ensures |Places(info, ids)| == |ids|
    decreases |ids|
  {
    if ids != {} {
      var id := Pick(ids);
      var rest := ids - {id};
      PlacesSize(info, vRandom, rest);
      assert info[id].nRandomPos !in Places(info, rest);
      assert Places(info, ids) == Places(info, rest) + {info[id].nRandomPos} by {
        forall p | p in Places(info, ids) ensures p in Places(info, rest) + {info[id].nRandomPos} {
          var x :| x in ids && info[x].nRandomPos == p;
          if x != id { assert x in rest; }
        }
      }
    } else {
      assert Places(info, ids) == {};
    }
  }

  lemma {:induction false} TimesTwice(s: seq<int>, i: nat, j: nat)
    requires i < j < |s| && s[i] == s[j]
    ensures Times(s, |s|, s[i]) >= 2
  {
    TimesGrow(s, i + 1, j, s[i]);
    TimesGrow(s, j + 1, |s|, s[i]);
  }

  lemma {:induction false} FoundIn(vvTried: TriedTable, n: nat, id: int) returns (k: nat)
    requires n <= |vvTried| && TimesIn(vvTried, n, id) > 0
    ensures k < n && id in vvTried[k]
  {
    k := n - 1;
    var bucket := vvTried[k];
    if Times(bucket, |bucket|, id) == 0 { k := FoundIn(vvTried, n - 1, id); } else { FoundAt(bucket, |bucket|, id); }
  }

  lemma {:induction false} FoundAt(s: seq<int>, n: nat, id: int)
    requires n <= |s| && Times(s, n, id) > 0
    ensures id in s
  {
    if s[n - 1] != id { FoundAt(s, n - 1, id); }
  }

  lemma CheckedTried(env: Env, key: Key, t: Tables)
    requires Checked(t) && Unchecked(env, key, t)
    ensures TriedInv(env, key, t.mapInfo, t.vvTried)
  {
    forall k, id | 0 <= k < |t.vvTried| && id in t.vvTried[k]
      ensures id in t.mapInfo && t.mapInfo[id].fInTried
    {
      var j :| 0 <= j < |t.vvTried[k]| && t.vvTried[k][j] == id;
      TimesMost(t.vvTried, k, j, id);
      assert TriedCount(t.mapInfo, id) > 0;
    }
    forall k | 0 <= k < |t.vvTried| ensures NoDup(t.vvTried[k]) {
      var bucket := t.vvTried[k];
      forall i, j | 0 <= i < j < |bucket| ensures bucket[i] != bucket[j] {
        if bucket[i] == bucket[j] {
          TimesTwice(bucket, i, j);
          TimesInGrow(t.vvTried, k + 1, |t.vvTried|, bucket[i]);
        }
      }
    }
    forall id | id in t.mapInfo && t.mapInfo[id].fInTried
      ensures id in t.vvTried[env.TriedBucket(key, t.mapInfo[id].addr)]
    {
      assert TimesIn(t.vvTried, |t.vvTried|, id) == TriedCount(t.mapInfo, id);
      var k := FoundIn(t.vvTried, |t.vvTried|, id);
    }
  }

  lemma CheckedNew(env: Env, key: Key, t: Tables)
    requires Checked(t) && Unchecked(env, key, t)
    ensures NewInv(t.mapInfo, t.vvNew, -1)
  {
    forall b, id | 0 <= b < |t.vvNew| && id in t.vvNew[b] ensures id in t.mapInfo && !t.mapInfo[id].fInTried {
      RefsInGrow(t.vvNew, b + 1, |t.vvNew|, id);
      assert NewCount(t.mapInfo, id) > 0;
    }
    forall id | id in t.mapInfo
      ensures if t.mapInfo[id].fInTried then t.mapInfo[id].nRefCount == 0
              else
                && t.mapInfo[id].nRefCount == Refs(t.vvNew, id)
                && 1 <= t.mapInfo[id].nRefCount <= NEW_BUCKETS_PER_ADDRESS
    {
      assert EntryOk(t, id);
      RefsAll(t.vvNew, id);
      assert RefsIn(t.vvNew, |t.vvNew|, id) == NewCount(t.mapInfo, id);
    }
  }

  lemma KindsSize(info: InfoTable)
    ensures |info| == |TriedIds(info)| + |NewIds(info)|
  {
    assert info.Keys == TriedIds(info) + NewIds(info);
    assert |info| == |info.Keys|;
  }

  lemma CheckedIndex(env: Env, key: Key, t: Tables)
    requires Checked(t) && Unchecked(env, key, t)
    ensures EntryInv(t.mapInfo, t.nIdCount) && RandomInv(t.mapInfo, t.vRandom) && AddrInv(t.mapInfo, t.mapAddr)
  {
    KindsSize(t.mapInfo);
    forall id | id in t.mapInfo ensures EntryOk(t, id) {}
    hide RandomInv, NewIds, TriedIds, TimesIn, RefsIn, NewCount, TriedCount;
    PlacesFilled(t.mapInfo, t.vRandom);
  }

  /** The invariant the manager keeps is exactly what its check looks for and the few things it leaves
      out. */
  lemma ConsistentIff(env: Env, key: Key, t: Tables)
    ensures Consistent(env, key, t, -1) <==> Checked(t) && Unchecked(env, key, t)
  {
    if Consistent(env, key, t, -1) { ConsistentChecked(env, key, t); }
    if Checked(t) && Unchecked(env, key, t) {
      CheckedIndex(env, key, t);
      CheckedTried(env, key, t);
      CheckedNew(env, key, t);
    }
  }
}

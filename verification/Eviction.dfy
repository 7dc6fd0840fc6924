/** Which entry of a full "tried" bucket is evicted: the partial shuffle of `SelectTried`. */
module Eviction {
  import opened Collections
  import opened AddrTables

  /** The draws of a partial shuffle: round i may pick any slot from i on. */
  ghost predicate Draws(bucket: seq<int>, draws: seq<int>) {
    && |draws| <= |bucket|
    && forall i :: 0 <= i < |draws| ==> i <= draws[i] < |bucket|
  }

  function Swap(s: seq<int>, i: nat, j: nat): (r: seq<int>)
    requires i < |s| && j < |s|
    ensures |r| == |s|
  {
    s[i := s[j]][j := s[i]]
  }

  /** The bucket after the rounds that `draws` describes. */
  ghost function Shuffled(bucket: seq<int>, draws: seq<int>): (r: seq<int>)
    requires Draws(bucket, draws)
    ensures |r| == |bucket|
  {
    if draws == [] then bucket
    else
      var n := |draws| - 1;
      Swap(Shuffled(bucket, draws[..n]), n, draws[n])
  }

  ghost predicate SameMembers(a: seq<int>, b: seq<int>) {
    |a| == |b| && forall x :: x in a <==> x in b
  }

  function Transpose(i: nat, j: nat, k: nat): nat { if k == i then j else if k == j then i else k }

  lemma SwapKeeps(s: seq<int>, i: nat, j: nat)
    requires i < |s| && j < |s| && NoDup(s)
    ensures NoDup(Swap(s, i, j)) && SameMembers(Swap(s, i, j), s)
  {
    var r := Swap(s, i, j);
    forall k | 0 <= k < |s| ensures r[k] == s[Transpose(i, j, k)] { }
    forall x ensures x in r <==> x in s {
      if x in s {
        var k :| 0 <= k < |s| && s[k] == x;
        assert r[Transpose(i, j, k)] == x;
      }
    }
    forall a, b | 0 <= a < b < |r| ensures r[a] != r[b] {
      var a', b' := Transpose(i, j, a), Transpose(i, j, b);
      assert r[a] == s[a'] && r[b] == s[b'] && (a' < b' || b' < a');
    }
  }

  /** A shuffle only permutes: no entry is lost, gained or repeated. */
  lemma {:induction false} ShuffledKeeps(bucket: seq<int>, draws: seq<int>)
    requires Draws(bucket, draws) && NoDup(bucket)
    ensures NoDup(Shuffled(bucket, draws)) && SameMembers(Shuffled(bucket, draws), bucket)
  {
    if draws != [] {
      var n := |draws| - 1;
      ShuffledKeeps(bucket, draws[..n]);
      SwapKeeps(Shuffled(bucket, draws[..n]), n, draws[n]);
    }
  }

  /** Round `best` inspected the entry with the least last success, the first among equals. */
  ghost predicate IsOldestRound(shuffled: seq<int>, lastSuccess: int -> int, rounds: nat, best: nat) {
    && best < rounds <= |shuffled|
    && (forall i :: 0 <= i < rounds ==> lastSuccess(shuffled[best]) <= lastSuccess(shuffled[i]))
    && (forall i :: 0 <= i < best ==> lastSuccess(shuffled[best]) < lastSuccess(shuffled[i]))
  }

  /** One more round: slot i receives the entry drawn, and the slots before it stay. */
  lemma NextRound(before: seq<int>, lastSuccess: int -> int, i: nat, nPos: nat, best: nat, best': nat)
    requires i <= nPos < |before| && best' <= i
    requires i > 0 ==> IsOldestRound(before, lastSuccess, i, best)
    requires best' == if i == 0 || lastSuccess(before[nPos]) < lastSuccess(before[best]) then i else best
    ensures IsOldestRound(Swap(before, i, nPos), lastSuccess, i + 1, best')
  {
  }

  lemma NoDraws(bucket: seq<int>)
    ensures Draws(bucket, []) && Shuffled(bucket, []) == bucket
  {
  }

  lemma OneMoreDraw(bucket: seq<int>, draws: seq<int>, nPos: nat)
    requires Draws(bucket, draws) && |draws| <= nPos < |bucket|
    ensures Draws(bucket, draws + [nPos])
    ensures Shuffled(bucket, draws + [nPos]) == Swap(Shuffled(bucket, draws), |draws|, nPos)
  {
    assert (draws + [nPos])[..|draws|] == draws;
  }

  /** The slot reported for round `best` holds an entry no younger than the oldest inspected. */
  ghost predicate ReportsOldest(bucket: seq<int>, lastSuccess: int -> int, draws: seq<int>, best: nat)
    requires Draws(bucket, draws) && best < |draws|
  {
    lastSuccess(Shuffled(bucket, draws)[draws[best]]) <= lastSuccess(Shuffled(bucket, draws)[best])
  }

  /** Whatever is drawn in the four rounds, the slot reported holds an oldest inspected entry. */
  ghost predicate AlwaysOldest(bucket: seq<int>, lastSuccess: int -> int) {
    forall draws: seq<int>, best: nat ::
      && Draws(bucket, draws) && |draws| == TRIED_ENTRIES_INSPECT_ON_EVICT
      && IsOldestRound(Shuffled(bucket, draws), lastSuccess, |draws|, best)
      ==> ReportsOldest(bucket, lastSuccess, draws, best)
  }

  ghost predicate AllAlike(bucket: seq<int>, lastSuccess: int -> int) {
    forall i, j :: 0 <= i < |bucket| && 0 <= j < |bucket| ==> lastSuccess(bucket[i]) == lastSuccess(bucket[j])
  }

  /** The slot `SelectTried` reports is sure to hold an oldest inspected entry exactly when all entries
      of the bucket succeeded last at the same time. */
  lemma ReportsOldestIff(bucket: seq<int>, lastSuccess: int -> int)
    requires NoDup(bucket) && |bucket| >= TRIED_ENTRIES_INSPECT_ON_EVICT
    ensures AlwaysOldest(bucket, lastSuccess) <==> AllAlike(bucket, lastSuccess)
  {
    if AllAlike(bucket, lastSuccess) {
      forall draws: seq<int>, best: nat | Draws(bucket, draws) && best < |draws|
        ensures ReportsOldest(bucket, lastSuccess, draws, best)
      {
        AlikeReports(bucket, lastSuccess, draws, best);
      }
    } else {
      var m := LeastSlot(bucket, lastSuccess, |bucket|);
      var g: nat :| g < |bucket| && lastSuccess(bucket[g]) > lastSuccess(bucket[m]);
      if lastSuccess(bucket[0]) > lastSuccess(bucket[m]) { MovedFromFirst(bucket, lastSuccess, m); }
      else if lastSuccess(bucket[1]) > lastSuccess(bucket[m]) { MovedTwice(bucket, lastSuccess); }
      else { Overwritten(bucket, lastSuccess, g); }
    }
  }

  lemma AlikeReports(bucket: seq<int>, lastSuccess: int -> int, draws: seq<int>, best: nat)
    requires NoDup(bucket) && Draws(bucket, draws) && best < |draws| && AllAlike(bucket, lastSuccess)
    ensures ReportsOldest(bucket, lastSuccess, draws, best)
  {
    ShuffledKeeps(bucket, draws);
    var r := Shuffled(bucket, draws);
    assert r[draws[best]] in r && r[best] in r;
  }

  lemma {:induction false} LeastSlot(bucket: seq<int>, lastSuccess: int -> int, n: nat) returns (m: nat)
    requires 0 < n <= |bucket|
    ensures m < n && forall i :: 0 <= i < n ==> lastSuccess(bucket[m]) <= lastSuccess(bucket[i])
  {
    m := n - 1;
    if n > 1 {
      var k := LeastSlot(bucket, lastSuccess, n - 1);
      if lastSuccess(bucket[k]) <= lastSuccess(bucket[m]) { m := k; }
    }
  }

  lemma FirstDraw(bucket: seq<int>, a: nat)
    requires a < |bucket|
    ensures Draws(bucket, [a])
    ensures Shuffled(bucket, [a]) == Swap(bucket, 0, a)
  {
    assert [a][..0] == [];
    assert Shuffled(bucket, []) == bucket;
  }

  lemma FourRounds(bucket: seq<int>, a: nat, b: nat, c: nat, d: nat)
    requires a < |bucket| && 1 <= b < |bucket| && 2 <= c < |bucket| && 3 <= d < |bucket|
    ensures Draws(bucket, [a, b, c, d])
    ensures Shuffled(bucket, [a, b, c, d]) == Swap(Swap(Swap(Swap(bucket, 0, a), 1, b), 2, c), 3, d)
  {
    hide Draws, Shuffled, Swap;
    FirstDraw(bucket, a);
    assert [a] + [b] == [a, b] && [a, b] + [c] == [a, b, c] && [a, b, c] + [d] == [a, b, c, d];
    OneMoreDraw(bucket, [a], b);
    OneMoreDraw(bucket, [a, b], c);
    OneMoreDraw(bucket, [a, b, c], d);
  }

  /** The first slot is not least: the oldest entry is drawn into it, and its own slot gets the younger. */
  lemma MovedFromFirst(bucket: seq<int>, lastSuccess: int -> int, m: nat)
    requires |bucket| >= 4 && m < |bucket| && lastSuccess(bucket[0]) > lastSuccess(bucket[m])
    requires forall i :: 0 <= i < |bucket| ==> lastSuccess(bucket[m]) <= lastSuccess(bucket[i])
    ensures !AlwaysOldest(bucket, lastSuccess)
  {
    FourRounds(bucket, m, 1, 2, 3);
    var draws := [m, 1, 2, 3];
    var r := Shuffled(bucket, draws);
    assert r[0] == bucket[m] && r[m] == bucket[0];
    assert forall i :: 0 <= i < |r| ==> r[i] == bucket[Transpose(0, m, i)];
    assert IsOldestRound(r, lastSuccess, 4, 0);
    assert !ReportsOldest(bucket, lastSuccess, draws, 0);
  }

  /** The first slot is least and the second is not: the third is drawn again and again. */
  lemma MovedTwice(bucket: seq<int>, lastSuccess: int -> int)
    requires |bucket| >= 4 && lastSuccess(bucket[1]) > lastSuccess(bucket[0])
    requires forall i :: 0 <= i < |bucket| ==> lastSuccess(bucket[0]) <= lastSuccess(bucket[i])
    ensures !AlwaysOldest(bucket, lastSuccess)
  {
    FourRounds(bucket, 2, 2, 2, 3);
    var draws := [2, 2, 2, 3];
    var r := Shuffled(bucket, draws);
    assert r[0] == bucket[2] && r[1] == bucket[0] && r[2] == bucket[1] && r[3] == bucket[3];
    var best := if lastSuccess(bucket[2]) == lastSuccess(bucket[0]) then 0 else 1;
    assert IsOldestRound(r, lastSuccess, 4, best);
    assert !ReportsOldest(bucket, lastSuccess, draws, best);
  }

  /** The first two slots are least: a younger entry is drawn into the slot the first draw named. */
  lemma Overwritten(bucket: seq<int>, lastSuccess: int -> int, g: nat)
    requires |bucket| >= 4 && g < |bucket| && lastSuccess(bucket[g]) > lastSuccess(bucket[0])
    requires lastSuccess(bucket[1]) == lastSuccess(bucket[0])
    requires forall i :: 0 <= i < |bucket| ==> lastSuccess(bucket[0]) <= lastSuccess(bucket[i])
    ensures !AlwaysOldest(bucket, lastSuccess)
  {
    FourRounds(bucket, 1, g, 2, 3);
    var draws := [1, g, 2, 3];
    var r := Shuffled(bucket, draws);
    assert r[0] == bucket[1] && r[1] == bucket[g];
    assert forall i :: 2 <= i < |r| ==> r[i] == if i == g then bucket[0] else bucket[i];
    assert IsOldestRound(r, lastSuccess, 4, 0);
    assert !ReportsOldest(bucket, lastSuccess, draws, 0);
  }

  /** Two entries, both inspected: the one reported succeeded later than the other. */
  lemma ReportsNewer()
    ensures
      var bucket, draws, lastSuccess := [10, 20], [1, 1], (id: int) => if id == 20 then 1 else 5;
      && Draws(bucket, draws)
      && IsOldestRound(Shuffled(bucket, draws), lastSuccess, 2, 0)
      && Shuffled(bucket, draws)[0] == 20
      && Shuffled(bucket, draws)[draws[0]] == 10
  {
    var bucket, draws := [10, 20], [1, 1];
    assert draws[..1] == [1] && draws[..1][..0] == [];
    assert Shuffled(bucket, draws[..1][..0]) == bucket;
    assert Shuffled(bucket, draws[..1]) == Swap(bucket, 0, 1) == [20, 10];
    assert Shuffled(bucket, draws) == Swap([20, 10], 1, 1) == [20, 10];
  }
}

/** Unsigned integers of a fixed number of 32-bit words, the least significant first, updated in
    place; each operation against the number the words stand for. */
module Uint {
  import opened Bits
  import opened Words

  const BASE: int := TWO_32

  type Word = Uint32

  /** BASE to the power `n`. */
  function P(n: nat): (r: nat)
    ensures r >= 1
  {
    if n == 0 then 1 else BASE * P(n - 1)
  }

  lemma {:induction false} PAdd(m: nat, n: nat)
    ensures P(m + n) == P(m) * P(n)
  {
    if n > 0 { PAdd(m, n - 1); }
  }

  /** The number the first `n` words stand for. */
  function ValTo(s: seq<Word>, n: nat): nat
    requires n <= |s|
  {
    if n == 0 then 0 else ValTo(s, n - 1) + s[n - 1] * P(n - 1)
  }

  function Val(s: seq<Word>): nat { ValTo(s, |s|) }

  lemma {:induction false} ValBound(s: seq<Word>, n: nat)
    requires n <= |s|
    ensures ValTo(s, n) < P(n)
  {
    if n > 0 {
      ValBound(s, n - 1);
      TopWord(ValTo(s, n - 1), s[n - 1], P(n - 1));
    }
  }

  lemma TopWord(v: nat, w: Word, p: nat)
    requires v < p
    ensures v + w * p < BASE * p
  {
    MulAtLeast(BASE - w, p);
    assert (BASE - w) * p == BASE * p - w * p;
  }

  lemma {:induction false} ValPrefix(s: seq<Word>, t: seq<Word>, n: nat)
    requires n <= |s| && n <= |t| && forall i :: 0 <= i < n ==> s[i] == t[i]
    ensures ValTo(s, n) == ValTo(t, n)
  {
    if n > 0 { ValPrefix(s, t, n - 1); }
  }

  /** The words from `n` on stand for a multiple of BASE to the `n`. */
  function Above(s: seq<Word>, n: nat): nat
    requires n <= |s|
    decreases |s| - n
  {
    if n == |s| then 0 else s[n] + BASE * Above(s, n + 1)
  }

  lemma {:induction false} ValSplit(s: seq<Word>, n: nat)
    requires n <= |s|
    ensures Val(s) == ValTo(s, n) + Above(s, n) * P(n)
    decreases |s| - n
  {
    if n < |s| {
      ValSplit(s, n + 1);
      Spread(s[n], Above(s, n + 1), P(n));
    }
  }

  lemma Spread(w: nat, above: nat, p: nat)
    ensures w * p + above * (BASE * p) == (w + BASE * above) * p
  {
  }

  lemma {:induction false} AboveSuffix(s: seq<Word>, t: seq<Word>, n: nat)
    requires n <= |s| == |t| && forall i :: n <= i < |s| ==> s[i] == t[i]
    ensures Above(s, n) == Above(t, n)
    decreases |s| - n
  {
    if n < |s| { AboveSuffix(s, t, n + 1); }
  }

  /** Words are determined by their number. */
  lemma {:induction false} ValInjective(s: seq<Word>, t: seq<Word>, n: nat)
    requires n <= |s| && n <= |t| && ValTo(s, n) == ValTo(t, n)
    ensures forall i :: 0 <= i < n ==> s[i] == t[i]
  {
    if n > 0 {
      ValBound(s, n - 1);
      ValBound(t, n - 1);
      DivUnique(ValTo(s, n), P(n - 1), s[n - 1], ValTo(s, n - 1));
      DivUnique(ValTo(t, n), P(n - 1), t[n - 1], ValTo(t, n - 1));
      ValInjective(s, t, n - 1);
    }
  }

  lemma ModIs(x: int, q: int, m: int, r: int)
    requires m > 0 && 0 <= r < m && x == q * m + r
    ensures x % m == r
  {
    DivUnique(x, m, q, r);
  }

  // ---- Shifted words ----

  /** Word `j` of words moved up by `k`: the kept end of one word over the end carried out of the one
      below it. */
  function UpWord(kept: seq<Word>, carry: seq<Word>, k: nat, j: nat): nat
    requires |kept| == |carry|
  {
    var low: nat := if k <= j < |kept| + k then kept[j - k] else 0;
    var high: nat := if k + 1 <= j < |kept| + k + 1 then carry[j - k - 1] else 0;
    low + high
  }

  /** Each word times `t` is what is kept of it and what is carried. */
  ghost predicate UpParts(a: seq<Word>, t: nat, kept: seq<Word>, carry: seq<Word>) {
    |kept| == |carry| == |a| && forall j :: 0 <= j < |a| ==> a[j] * t == kept[j] + BASE * carry[j]
  }

  ghost predicate IsUp(r: seq<Word>, kept: seq<Word>, carry: seq<Word>, k: nat) {
    |kept| == |carry| && forall j :: 0 <= j < |r| ==> r[j] == UpWord(kept, carry, k, j)
  }

  lemma {:induction false} UpSum(a: seq<Word>, t: nat, kept: seq<Word>, carry: seq<Word>, k: nat, r: seq<Word>, m: nat)
    requires UpParts(a, t, kept, carry) && IsUp(r, kept, carry, k) && m <= |a| && m + k <= |r|
    ensures ValTo(a, m) * t * P(k) == ValTo(r, m + k) + (if m == 0 then 0 else carry[m - 1]) * P(m + k)
  {
    if m == 0 {
      AllZero(r, k);
    } else {
      UpSum(a, t, kept, carry, k, r, m - 1);
      PAdd(m - 1, k);
      var c: int, low: int := if m == 1 then 0 else carry[m - 2], kept[m - 1];
      assert r[m - 1 + k] == low + c;
      UpStep(ValTo(a, m - 1), a[m - 1], t, P(m - 1), P(k), P(m - 1 + k), ValTo(r, m - 1 + k), c, low,
             carry[m - 1], r[m - 1 + k]);
    }
  }

  lemma {:induction false} AllZero(r: seq<Word>, n: nat)
    requires n <= |r| && forall j :: 0 <= j < n ==> r[j] == 0
    ensures ValTo(r, n) == 0
  {
    if n > 0 { AllZero(r, n - 1); }
  }

  lemma UpStep(v: nat, w: nat, t: nat, pm: nat, pk: nat, p: nat, sum: nat, carry: nat, low: nat, high: nat, r: nat)
    requires p == pm * pk && v * t * pk == sum + carry * p
    requires w * t == low + BASE * high && r == low + carry
    ensures (v + w * pm) * t * pk == sum + r * p + high * (BASE * p)
  {
    calc {
      (v + w * pm) * t * pk;
      v * t * pk + (w * t) * (pm * pk);
      sum + carry * p + (low + BASE * high) * p;
    }
  }

  /** Moving words up multiplies, dropping what does not fit. */
  lemma UpIsMultiply(a: seq<Word>, t: nat, kept: seq<Word>, carry: seq<Word>, k: nat, r: seq<Word>)
    requires UpParts(a, t, kept, carry) && IsUp(r, kept, carry, k) && |r| == |a|
    ensures Val(r) == Val(a) * (t * P(k)) % P(|a|)
  {
    hide P, ValTo, Above;
    ValBound(r, |a|);
    if k >= |a| {
      AllZero(r, |a|);
      PAdd(k - |a|, |a|);
      WholeMultiple(Val(a), t, P(k - |a|), P(|a|));
    } else {
      var m := |a| - k;
      UpSum(a, t, kept, carry, k, r, m);
      ValSplit(a, m);
      PAdd(m, k);
      UpWhole(ValTo(a, m), Above(a, m), t, P(m), P(k), Val(r), carry[m - 1]);
      ModIs(Val(a) * (t * P(k)), carry[m - 1] + Above(a, m) * t, P(|a|), Val(r));
    }
  }

  lemma WholeMultiple(v: nat, t: nat, q: nat, p: nat)
    requires p > 0
    ensures v * (t * (q * p)) % p == 0
  {
    assert v * (t * (q * p)) == (v * t * q) * p;
    ModIs(v * (t * (q * p)), v * t * q, p, 0);
  }

  lemma UpWhole(v: nat, above: nat, t: nat, pm: nat, pk: nat, r: nat, h: nat)
    requires v * t * pk == r + h * (pm * pk)
    ensures (v + above * pm) * (t * pk) == (h + above * t) * (pm * pk) + r
  {
    calc {
      (v + above * pm) * (t * pk);
      v * t * pk + above * t * (pm * pk);
    }
  }

  /** Each word is `t` times what is kept of it, and the bits that drop out of it. */
  ghost predicate DownParts(a: seq<Word>, t: nat, u: nat, kept: seq<Word>, dropped: seq<Word>) {
    && |kept| == |dropped| == |a| && t * u == BASE
    && forall j :: 0 <= j < |a| ==> a[j] == kept[j] * t + dropped[j] && dropped[j] < t
  }

  /** Word `j` of words moved down by `k`: what is kept of one word under what dropped out of the one
      above it. */
  function DownWord(kept: seq<Word>, dropped: seq<Word>, u: nat, k: nat, j: nat): nat
    requires |kept| == |dropped|
  {
    (if j + k < |kept| then kept[j + k] else 0) + (if j + k + 1 < |kept| then dropped[j + k + 1] * u else 0)
  }

  ghost predicate IsDown(r: seq<Word>, kept: seq<Word>, dropped: seq<Word>, u: nat, k: nat) {
    |kept| == |dropped| && forall j :: 0 <= j < |r| ==> r[j] == DownWord(kept, dropped, u, k, j)
  }

  /** From the top down: the shifted words, times the shift, with the dropped bits, are the words. */
  lemma {:induction false} DownSum(a: seq<Word>, t: nat, u: nat, kept: seq<Word>, dropped: seq<Word>, k: nat,
                                   r: seq<Word>, j: nat)
    requires DownParts(a, t, u, kept, dropped) && IsDown(r, kept, dropped, u, k) && |r| == |a| && j + k <= |a|
    ensures Above(r, j) * t + (if j + k < |a| then dropped[j + k] else 0) == Above(a, j + k)
    decreases |a| - j
  {
    if j + k == |a| {
      AboveZero(r, j);
    } else {
      DownSum(a, t, u, kept, dropped, k, r, j + 1);
      var low := if j + k + 1 < |a| then dropped[j + k + 1] else 0;
      assert r[j] == kept[j + k] + low * u;
      DownStep(kept[j + k], dropped[j + k], low, t, u, Above(r, j + 1), Above(a, j + k + 1));
    }
  }

  lemma {:induction false} AboveZero(r: seq<Word>, n: nat)
    requires n <= |r| && forall j :: n <= j < |r| ==> r[j] == 0
    ensures Above(r, n) == 0
    decreases |r| - n
  {
    if n < |r| { AboveZero(r, n + 1); }
  }

  lemma DownStep(kept: nat, dropped: nat, low: nat, t: nat, u: nat, above: nat, above': nat)
    requires t * u == BASE && above * t + low == above'
    ensures (kept + low * u + BASE * above) * t + dropped == kept * t + dropped + BASE * above'
  {
    calc {
      (kept + low * u + BASE * above) * t;
      kept * t + low * (t * u) + BASE * (above * t);
    }
  }

  /** Moving words down divides. */
  lemma DownIsDivide(a: seq<Word>, t: nat, u: nat, kept: seq<Word>, dropped: seq<Word>, k: nat, r: seq<Word>)
    requires DownParts(a, t, u, kept, dropped) && IsDown(r, kept, dropped, u, k) && |r| == |a| && t >= 1
    ensures t * P(k) > 0 && Val(r) == Val(a) / (t * P(k))
  {
    MulAtLeast(t, P(k));
    FromZero(r);
    if k >= |a| {
      AboveZero(r, 0);
      ValBound(a, |a|);
      PAdd(|a|, k - |a|);
      DownNothing(Val(a), P(|a|), P(k - |a|), t);
    } else {
      DownSum(a, t, u, kept, dropped, k, r, 0);
      ValSplit(a, k);
      ValBound(a, k);
      DownWhole(Val(r), dropped[k], t, P(k), ValTo(a, k), Above(a, k));
    }
  }

  lemma FromZero(r: seq<Word>)
    ensures Val(r) == Above(r, 0)
  {
    ValSplit(r, 0);
  }

  lemma DownNothing(v: nat, pa: nat, q: nat, t: nat)
    requires v < pa && q >= 1 && t >= 1
    ensures v / (t * (pa * q)) == 0
  {
    MulAtLeast(q, pa);
    MulAtLeast(t, pa * q);
    DivUnique(v, t * (pa * q), 0, v);
  }

  lemma DownWhole(r: nat, low: nat, t: nat, pk: nat, v: nat, above: nat)
    requires low < t && v < pk && above == r * t + low
    ensures t * pk > 0 && (v + above * pk) / (t * pk) == r
  {
    MulAtLeast(t - low, pk);
    assert (t - low) * pk == t * pk - low * pk;
    assert v + above * pk == r * (t * pk) + (v + low * pk);
    DivUnique(v + above * pk, t * pk, r, v + low * pk);
  }

  /** The words after `i` of them have been put, shifted up. */
  ghost predicate UpDone(r: seq<Word>, kept: seq<Word>, carry: seq<Word>, k: nat, i: nat) {
    && |r| == |kept| == |carry| && i <= |r|
    && (forall j :: 0 <= j < |r| && j < i + k ==> r[j] == UpWord(kept, carry, k, j))
    && (i + k < |r| ==> r[i + k] == if i == 0 then 0 else carry[i - 1])
    && forall j :: 0 <= j < |r| && i + k < j ==> r[j] == 0
  }

  lemma UpAdvances(r: seq<Word>, r': seq<Word>, kept: seq<Word>, carry: seq<Word>, k: nat, i: nat)
    requires UpDone(r, kept, carry, k, i) && i < |r| == |r'|
    requires forall j :: 0 <= j < |r| && j != i + k && j != i + k + 1 ==> r'[j] == r[j]
    requires i + k < |r| ==> r'[i + k] as int == (if i == 0 then 0 else carry[i - 1]) as int + kept[i] as int
    requires i + k + 1 < |r| ==> r'[i + k + 1] == carry[i]
    ensures UpDone(r', kept, carry, k, i + 1)
  {
  }

  /** The words after `i` of them have been put, shifted down. */
  ghost predicate DownDone(r: seq<Word>, kept: seq<Word>, dropped: seq<Word>, u: nat, k: nat, i: nat) {
    && |r| == |kept| == |dropped| && i <= |r|
    && (forall j :: 0 <= j < |r| && j < i - k - 1 ==> r[j] == DownWord(kept, dropped, u, k, j))
    && (i - k - 1 >= 0 ==> r[i - k - 1] == kept[i - 1])
    && forall j :: 0 <= j < |r| && i - k - 1 < j ==> r[j] == 0
  }

  lemma DownAdvances(r: seq<Word>, r': seq<Word>, kept: seq<Word>, dropped: seq<Word>, u: nat, k: nat, i: nat)
    requires DownDone(r, kept, dropped, u, k, i) && i < |r| == |r'|
    requires forall j :: 0 <= j < |r| && j != i - k && j != i - k - 1 ==> r'[j] == r[j]
    requires i - k >= 0 ==> r'[i - k] == kept[i]
    requires i - k - 1 >= 0 ==> r'[i - k - 1] == kept[i - 1] + dropped[i] * u
    ensures DownDone(r', kept, dropped, u, k, i + 1)
  {
  }

  lemma DownFinished(r: seq<Word>, kept: seq<Word>, dropped: seq<Word>, u: nat, k: nat)
    requires DownDone(r, kept, dropped, u, k, |r|)
    ensures IsDown(r, kept, dropped, u, k)
  {
  }

  // A word counted up or down, going round at the ends of its range.

  function Next(w: Word): Word { if w == BASE - 1 then 0 else w + 1 }

  function Previous(w: Word): Word { if w == 0 then BASE - 1 else w - 1 }

  // ---- The class ----

  class BaseUint {
    const pn: array<Word>

    ghost predicate Valid()
      reads this
    {
      pn.Length >= 1
    }

    ghost function Value(): nat
      reads this, pn
    {
      Val(pn[..])
    }

    constructor (width: nat)
      requires width >= 1
      ensures Valid() && pn.Length == width && fresh(pn) && Value() == 0
    {
      pn := new Word[width](i => 0);
      new;
      AllZero(pn[..], width);
    }

    method Add(b: BaseUint)
      requires Valid() && b.pn.Length == pn.Length
      modifies pn
      ensures Value() == (old(Value()) + old(b.Value())) % P(pn.Length)
    {
      ghost var x, y := pn[..], b.pn[..];
      var carry := 0;
      for i := 0 to pn.Length
        invariant 0 <= carry <= 1
        invariant forall j :: i <= j < pn.Length ==> pn[j] == x[j] && b.pn[j] == y[j]
        invariant ValTo(pn[..], i) + carry * P(i) == ValTo(x, i) + ValTo(y, i)
      {
        var n := carry + pn[i] + b.pn[i];
        ghost var before, c := pn[..], carry;
        pn[i] := n % BASE;
        carry := n / BASE;
        ValPrefix(before, pn[..], i);
        AddStep(x[i], y[i], c, n % BASE, n / BASE, P(i));
      }
      ValBound(pn[..], pn.Length);
      ModIs(Val(x) + Val(y), carry, P(pn.Length), Val(pn[..]));
    }

    method Negate() returns (ret: BaseUint)
      requires Valid()
      ensures fresh(ret) && fresh(ret.pn) && ret.Valid() && ret.pn.Length == pn.Length
      ensures ret.Value() == (P(pn.Length) - Value()) % P(pn.Length)
    {
      ret := new BaseUint(pn.Length);
      for i := 0 to pn.Length
        invariant fresh(ret.pn) && ValTo(ret.pn[..], i) + ValTo(pn[..], i) == P(i) - 1
      {
        ghost var before := ret.pn[..];
        ret.pn[i] := BASE - 1 - pn[i];
        ValPrefix(before, ret.pn[..], i);
        NotStep(pn[i], P(i));
      }
      ret.Increment();
    }

    method Subtract(b: BaseUint)
      requires Valid() && b.pn.Length == pn.Length
      modifies pn
      ensures Value() == (old(Value()) - old(b.Value())) % P(pn.Length)
    {
      var minus := b.Negate();
      ghost var m, x, y := P(pn.Length), Value(), b.Value();
      Add(minus);
      WrapTwice(x, y, m);
    }

    method Increment()
      requires Valid()
      modifies pn
      ensures Value() == (old(Value()) + 1) % P(pn.Length)
    {
      ghost var x := pn[..];
      var i := 0;
      pn[0] := Next(pn[0]);
      while pn[i] == 0 && i < pn.Length - 1
        invariant 0 <= i < pn.Length
        invariant forall j :: i < j < pn.Length ==> pn[j] == x[j]
        invariant pn[i] == Next(x[i])
        invariant ValTo(pn[..], i) + P(i) == ValTo(x, i) + 1
      {
        ghost var before := pn[..];
        i := i + 1;
        pn[i] := Next(pn[i]);
        ValPrefix(before, pn[..], i);
        CarryStep(P(i - 1));
      }
      OneMore(x, pn[..], i);
    }

    method Decrement()
      requires Valid()
      modifies pn
      ensures Value() == (old(Value()) - 1) % P(pn.Length)
    {
      ghost var x := pn[..];
      var i := 0;
      pn[0] := Previous(pn[0]);
      while pn[i] == BASE - 1 && i < pn.Length - 1
        invariant 0 <= i < pn.Length
        invariant forall j :: i < j < pn.Length ==> pn[j] == x[j]
        invariant pn[i] == Previous(x[i])
        invariant ValTo(pn[..], i) == ValTo(x, i) + P(i) - 1
      {
        ghost var before := pn[..];
        i := i + 1;
        pn[i] := Previous(pn[i]);
        ValPrefix(before, pn[..], i);
        BorrowStep(P(i - 1));
      }
      OneMore(pn[..], x, i);
    }

    /** The pass of the loop over word `i`. */
    method PutUpNext(w: Word, i: nat, k: nat, s: nat, ghost kept: seq<Word>, ghost carry: seq<Word>)
      requires i < pn.Length && s < 32 && UpDone(pn[..], kept, carry, k, i)
      requires kept[i] == Left(w, s) && carry[i] == (if s != 0 then Right(w, 32 - s) else 0)
      requires i > 0 ==> carry[i - 1] < Pow2(s)
      modifies pn
      ensures UpDone(pn[..], kept, carry, k, i + 1)
    {
      hide Pow2, Right, Left, UpWord;
      ghost var before := pn[..];
      PutUp(w, i + k, s, if i == 0 then 0 else carry[i - 1]);
      UpAdvances(before, pn[..], kept, carry, k, i);
    }

    method ShiftLeft(shift: nat)
      requires Valid()
      modifies pn
      ensures Value() == old(Value()) * Pow2(shift) % P(pn.Length)
    {
      hide Pow2, P, Right, Left, ValTo, UpParts;
      var a := pn[..];
      Clear();
      var k, s := shift / 32, shift % 32;
      ghost var kept, carry := SplitsUp(a, s);
      assert UpDone(pn[..], kept, carry, k, 0);
      for i := 0 to pn.Length
        invariant UpDone(pn[..], kept, carry, k, i)
      {
        PutUpNext(a[i], i, k, s, kept, carry);
      }
      UpIsMultiply(a, Pow2(s), kept, carry, k, pn[..]);
      ShiftIs(shift);
    }

    /** Puts a word, shifted, at `at`, over what was carried out of the one below it. */
    method PutUp(w: Word, at: nat, s: nat, ghost below: nat)
      requires s < 32 && below < Pow2(s)
      requires at < pn.Length ==> pn[at] == below
      requires at + 1 < pn.Length ==> pn[at + 1] == 0
      modifies pn
      ensures forall j :: 0 <= j < pn.Length && j != at && j != at + 1 ==> pn[j] == old(pn[j])
      ensures at < pn.Length ==> pn[at] == below + Left(w, s)
      ensures at + 1 < pn.Length ==> pn[at + 1] == if s != 0 then Right(w, 32 - s) else 0
    {
      if at + 1 < pn.Length && s != 0 { pn[at + 1] := BitOr(pn[at + 1], Right(w, 32 - s)); }
      if at < pn.Length {
        JoinUp(pn[at], w, s);
        pn[at] := BitOr(pn[at], Left(w, s));
      }
    }

    /** Puts a word, shifted, at `at`, and its dropped bits over what is kept of the one below it. */
    method PutDown(w: Word, at: int, s: nat, ghost below: nat, ghost dropped: nat, ghost u: nat)
      requires s < 32 && at < pn.Length && u == Pow2(32 - s) && below < u
      requires dropped == if s != 0 then Dropped(w, s) else 0
      requires at >= 1 ==> pn[at - 1] == below
      requires at >= 0 ==> pn[at] == 0
      modifies pn
      ensures forall j :: 0 <= j < pn.Length && j != at && j != at - 1 ==> pn[j] == old(pn[j])
      ensures at >= 0 ==> pn[at] == Right(w, s)
      ensures at >= 1 ==> pn[at - 1] == below + dropped * u
    {
      if at - 1 >= 0 {
        JoinDown(pn[at - 1], w, s);
        if s != 0 { pn[at - 1] := BitOr(pn[at - 1], Left(w, 32 - s)); }
      }
      if at >= 0 { pn[at] := BitOr(pn[at], Right(w, s)); }
    }

    /** The pass of the loop over word `i`. */
    method PutDownNext(w: Word, i: nat, k: nat, s: nat, ghost kept: seq<Word>, ghost dropped: seq<Word>, ghost u: nat)
      requires i < pn.Length && s < 32 && u == Pow2(32 - s) && DownDone(pn[..], kept, dropped, u, k, i)
      requires kept[i] == Right(w, s) && dropped[i] == (if s != 0 then Dropped(w, s) else 0)
      requires i > 0 ==> kept[i - 1] < u
      modifies pn
      ensures DownDone(pn[..], kept, dropped, u, k, i + 1)
    {
      hide Pow2, Right, Left, Dropped, DownWord;
      ghost var before := pn[..];
      PutDown(w, i - k, s, if i == 0 then 0 else kept[i - 1], dropped[i], u);
      DownAdvances(before, pn[..], kept, dropped, u, k, i);
    }

    method ShiftRight(shift: nat)
      requires Valid()
      modifies pn
      ensures Value() == old(Value()) / Pow2(shift)
    {
      hide Pow2, P, Right, Dropped, ValTo;
      var a := pn[..];
      Clear();
      var k, s := shift / 32, shift % 32;
      ghost var kept, dropped := SplitsDown(a, s);
      ghost var u := Pow2(32 - s);
      assert DownDone(pn[..], kept, dropped, u, k, 0);
      hide DownDone, DownParts;
      for i := 0 to pn.Length
        invariant DownDone(pn[..], kept, dropped, u, k, i)
      {
        PutDownNext(a[i], i, k, s, kept, dropped, u);
      }
      DownFinished(pn[..], kept, dropped, u, k);
      DownIsDivide(a, Pow2(s), u, kept, dropped, k, pn[..]);
      ShiftIs(shift);
    }

    method Clear()
      modifies pn
      ensures forall j :: 0 <= j < pn.Length ==> pn[j] == 0
    {
      for i := 0 to pn.Length
        invariant forall j :: 0 <= j < i ==> pn[j] == 0
      {
        pn[i] := 0;
      }
    }

    method Equal(b: BaseUint) returns (r: bool)
      requires b.pn.Length == pn.Length
      ensures r <==> Value() == b.Value()
    {
      for i := 0 to pn.Length
        invariant forall j :: 0 <= j < i ==> pn[j] == b.pn[j]
      {
        if pn[i] != b.pn[i] {
          if Value() == b.Value() { ValInjective(pn[..], b.pn[..], pn.Length); }
          return false;
        }
      }
      ValPrefix(pn[..], b.pn[..], pn.Length);
      r := true;
    }

    method Less(b: BaseUint) returns (r: bool)
      requires b.pn.Length == pn.Length
      ensures r <==> Value() < b.Value()
    {
      var i := pn.Length;
      while i > 0
        invariant 0 <= i <= pn.Length
        invariant forall j :: i <= j < pn.Length ==> pn[j] == b.pn[j]
      {
        i := i - 1;
        if pn[i] < b.pn[i] { Decides(pn[..], b.pn[..], i); return true; }
        else if pn[i] > b.pn[i] { Decides(b.pn[..], pn[..], i); return false; }
      }
      ValPrefix(pn[..], b.pn[..], pn.Length);
      r := false;
    }

    method AtMost(b: BaseUint) returns (r: bool)
      requires b.pn.Length == pn.Length
      ensures r <==> Value() <= b.Value()
    {
      var i := pn.Length;
      while i > 0
        invariant 0 <= i <= pn.Length
        invariant forall j :: i <= j < pn.Length ==> pn[j] == b.pn[j]
      {
        i := i - 1;
        if pn[i] < b.pn[i] { Decides(pn[..], b.pn[..], i); return true; }
        else if pn[i] > b.pn[i] { Decides(b.pn[..], pn[..], i); return false; }
      }
      ValPrefix(pn[..], b.pn[..], pn.Length);
      r := true;
    }

    method Greater(b: BaseUint) returns (r: bool)
      requires b.pn.Length == pn.Length
      ensures r <==> Value() > b.Value()
    {
      var i := pn.Length;
      while i > 0
        invariant 0 <= i <= pn.Length
        invariant forall j :: i <= j < pn.Length ==> pn[j] == b.pn[j]
      {
        i := i - 1;
        if pn[i] > b.pn[i] { Decides(b.pn[..], pn[..], i); return true; }
        else if pn[i] < b.pn[i] { Decides(pn[..], b.pn[..], i); return false; }
      }
      ValPrefix(pn[..], b.pn[..], pn.Length);
      r := false;
    }

    method AtLeast(b: BaseUint) returns (r: bool)
      requires b.pn.Length == pn.Length
      ensures r <==> Value() >= b.Value()
    {
      var i := pn.Length;
      while i > 0
        invariant 0 <= i <= pn.Length
        invariant forall j :: i <= j < pn.Length ==> pn[j] == b.pn[j]
      {
        i := i - 1;
        if pn[i] > b.pn[i] { Decides(b.pn[..], pn[..], i); return true; }
        else if pn[i] < b.pn[i] { Decides(pn[..], b.pn[..], i); return false; }
      }
      ValPrefix(pn[..], b.pn[..], pn.Length);
      r := true;
    }
  }

  // ---- Steps of the loops ----

  lemma AddStep(x: nat, y: nat, c: nat, low: nat, high: nat, p: nat)
    requires c + x + y == low + BASE * high
    ensures c * p + x * p + y * p == low * p + high * (BASE * p)
  {
    assert (c + x + y) * p == (low + BASE * high) * p;
  }

  lemma NotStep(w: Word, p: nat)
    ensures (BASE - 1 - w) * p + w * p == BASE * p - p
  {
  }

  lemma CarryStep(p: nat)
    ensures 0 * p + BASE * p == (BASE - 1) * p + p
  {
  }

  lemma BorrowStep(p: nat)
    ensures (BASE - 1) * p == 0 * p + BASE * p - p
  {
  }

  lemma WrapTwice(x: int, y: int, m: int)
    requires m > 0
    ensures (x + (m - y) % m) % m == (x - y) % m
  {
    var q := (m - y) / m;
    assert m - y == q * m + (m - y) % m;
    assert x + (m - y) % m == (x - y) + (1 - q) * m;
    DivAdd(x - y, 1 - q, m);
  }

  /** Two numbers that differ as an increment stopped at word `i` leaves them. */
  lemma OneMore(x: seq<Word>, y: seq<Word>, i: nat)
    requires i < |x| == |y| && forall j :: i < j < |x| ==> y[j] == x[j]
    requires y[i] == Next(x[i]) && ValTo(y, i) + P(i) == ValTo(x, i) + 1
    requires y[i] == 0 ==> i == |x| - 1
    ensures Val(y) == (Val(x) + 1) % P(|x|) && Val(x) == (Val(y) - 1) % P(|x|)
  {
    OneStep(x, y, i);
    hide P, Val, Next;
    OneApart(Val(x), Val(y), P(|x|));
  }

  lemma OneStep(x: seq<Word>, y: seq<Word>, i: nat)
    requires i < |x| == |y| && forall j :: i < j < |x| ==> y[j] == x[j]
    requires y[i] == Next(x[i]) && ValTo(y, i) + P(i) == ValTo(x, i) + 1
    requires y[i] == 0 ==> i == |x| - 1
    ensures Val(x) < P(|x|) && Val(y) < P(|x|) && (Val(y) == Val(x) + 1 || Val(y) + P(|x|) == Val(x) + 1)
  {
    ValBound(x, |x|);
    ValBound(y, |x|);
    StopsAt(x, y, i);
    hide P, ValTo;
    if y[i] != 0 { StopsBelow(x, y, i); }
  }

  lemma StopsAt(x: seq<Word>, y: seq<Word>, i: nat)
    requires i < |x| == |y| && y[i] == Next(x[i]) && ValTo(y, i) + P(i) == ValTo(x, i) + 1
    ensures ValTo(y, i + 1) + (if y[i] == 0 then P(i + 1) else 0) == ValTo(x, i + 1) + 1
  {
    StopStep(ValTo(x, i), ValTo(y, i), x[i], y[i], P(i));
  }

  lemma StopsBelow(x: seq<Word>, y: seq<Word>, i: nat)
    requires i < |x| == |y| && forall j :: i < j < |x| ==> y[j] == x[j]
    requires ValTo(y, i + 1) == ValTo(x, i + 1) + 1
    ensures Val(y) == Val(x) + 1
  {
    ValSplit(x, i + 1);
    ValSplit(y, i + 1);
    AboveSuffix(x, y, i + 1);
  }

  lemma OneApart(x: nat, y: nat, m: nat)
    requires x < m && y < m && (y == x + 1 || y + m == x + 1)
    ensures y == (x + 1) % m && x == (y - 1) % m
  {
    if y == x + 1 {
      ModIs(x + 1, 0, m, y);
      ModIs(y - 1, 0, m, x);
    } else {
      ModIs(x + 1, 1, m, y);
      ModIs(y - 1, -1, m, x);
    }
  }

  lemma StopStep(x: nat, y: nat, xi: Word, yi: Word, p: nat)
    requires y + p == x + 1
    ensures yi == xi + 1 ==> y + yi * p == x + xi * p + 1
    ensures yi == 0 && xi == BASE - 1 ==> y + yi * p + BASE * p == x + xi * p + 1
  {
  }

  /** The highest word in which two numbers differ decides which is smaller. */
  lemma Decides(s: seq<Word>, t: seq<Word>, i: nat)
    requires i < |s| == |t| && s[i] < t[i] && forall j :: i < j < |s| ==> s[j] == t[j]
    ensures Val(s) < Val(t)
  {
    ValSplit(s, i + 1);
    ValSplit(t, i + 1);
    AboveSuffix(s, t, i + 1);
    ValBound(s, i);
    HigherDecides(ValTo(s, i), ValTo(t, i), s[i], t[i], P(i));
  }

  lemma HigherDecides(x: nat, y: nat, xi: nat, yi: nat, p: nat)
    requires x < p && xi < yi
    ensures x + xi * p < y + yi * p
  {
    MulAtLeast(yi - xi, p);
    assert (yi - xi) * p == yi * p - xi * p;
  }

  lemma ShiftIs(shift: nat)
    ensures Pow2(shift) == Pow2(shift % 32) * P(shift / 32)
  {
    WordsAreBits(shift / 32);
    Pow2Add(shift % 32, 32 * (shift / 32));
  }

  lemma {:induction false} WordsAreBits(k: nat)
    ensures P(k) == Pow2(32 * k)
  {
    if k > 0 {
      WordsAreBits(k - 1);
      Pow2Words();
      Pow2Add(32, 32 * (k - 1));
    }
  }

  // A word shifted either way within 32 bits.

  function Left(w: Word, s: nat): Word { w * Pow2(s) % BASE }

  function Right(w: Word, s: nat): Word {
    DivAtMost(w, Pow2(s));
    w / Pow2(s)
  }

  function Dropped(w: Word, s: nat): Word {
    DivAtMost(w, Pow2(s));
    w % Pow2(s)
  }

  lemma DivAtMost(w: nat, p: nat)
    requires p >= 1
    ensures 0 <= w / p <= w && 0 <= w % p <= w
  {
    assert w == w / p * p + w % p;
    MulAtLeast(p, w / p);
  }

  /** Multiplying a word by one factor of BASE: the remainder by the other is kept, the quotient
      carried. */
  lemma Parts(w: Word, t: nat, u: nat)
    requires t * u == BASE && t >= 1 && u >= 1
    ensures w * t % BASE == w % u * t && w * t / BASE == w / u
    ensures w / u < t && w % u * t + t <= BASE
  {
    var q, r := w / u, w % u;
    Regrouped(q, r, t, u);
    assert w == q * u + r;
    DivUnique(w * t, BASE, q, r * t);
    if q >= t { Larger(q, t, u); }
  }

  lemma Regrouped(q: nat, r: nat, t: nat, u: nat)
    requires t * u == BASE && r < u && t >= 1
    ensures (q * u + r) * t == q * BASE + r * t && r * t + t <= BASE
  {
    assert (q * u) * t == q * (t * u);
    MulAtLeast(u - r, t);
    assert (u - r) * t == u * t - r * t;
  }

  lemma Larger(q: nat, t: nat, u: nat)
    requires q >= t
    ensures q * u >= t * u
  {
  }

  lemma Factors(s: nat)
    requires s < 32
    ensures Pow2(s) * Pow2(32 - s) == BASE
    ensures s == 0 ==> Pow2(s) == 1
  {
    Pow2Add(s, 32 - s);
    Pow2Words();
  }

  lemma SplitsUp(a: seq<Word>, s: nat) returns (kept: seq<Word>, carry: seq<Word>)
    requires s < 32
    ensures UpParts(a, Pow2(s), kept, carry)
    ensures forall j :: 0 <= j < |a| ==>
      kept[j] == Left(a[j], s) && carry[j] == (if s != 0 then Right(a[j], 32 - s) else 0) < Pow2(s)
  {
    kept := seq(|a|, j requires 0 <= j < |a| => Left(a[j], s));
    carry := seq(|a|, j requires 0 <= j < |a| => Right(a[j], 32 - s));
    Factors(s);
    forall j | 0 <= j < |a| ensures a[j] * Pow2(s) == kept[j] + BASE * carry[j] && carry[j] < Pow2(s) {
      Parts(a[j], Pow2(s), Pow2(32 - s));
    }
  }

  lemma SplitsDown(a: seq<Word>, s: nat) returns (kept: seq<Word>, dropped: seq<Word>)
    requires s < 32
    ensures DownParts(a, Pow2(s), Pow2(32 - s), kept, dropped)
    ensures forall j :: 0 <= j < |a| ==>
      kept[j] == Right(a[j], s) < Pow2(32 - s) && dropped[j] == if s != 0 then Dropped(a[j], s) else 0
  {
    hide Pow2;
    kept := seq(|a|, j requires 0 <= j < |a| => Right(a[j], s));
    dropped := seq(|a|, j requires 0 <= j < |a| => Dropped(a[j], s));
    Factors(s);
    forall j | 0 <= j < |a|
      ensures a[j] == kept[j] * Pow2(s) + dropped[j] && dropped[j] < Pow2(s) && kept[j] < Pow2(32 - s)
    {
      Parts(a[j], Pow2(32 - s), Pow2(s));
    }
  }

  /** The kept end of a word goes over the end carried out of the one below. */
  lemma JoinUp(carry: nat, w: Word, s: nat)
    requires s < 32 && carry < Pow2(s)
    ensures BitOr(carry, Left(w, s)) == carry + Left(w, s) < BASE
  {
    Factors(s);
    Parts(w, Pow2(s), Pow2(32 - s));
    OrDisjoint(carry, w % Pow2(32 - s), s);
  }

  /** The bits dropped out of a word go over what is kept of the one below. */
  lemma JoinDown(below: nat, w: Word, s: nat)
    requires s < 32 && below < Pow2(32 - s)
    ensures s != 0 ==> BitOr(below, Left(w, 32 - s)) == below + w % Pow2(s) * Pow2(32 - s) < BASE
  {
    Factors(s);
    Parts(w, Pow2(32 - s), Pow2(s));
    OrDisjoint(below, w % Pow2(s), 32 - s);
  }
}

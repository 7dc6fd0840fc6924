/** Big numbers through their length-prefixed sign-and-magnitude bytes: 64-bit integers in and out,
    and the compact form of a target, which keeps a length and three bytes. */
module BigNum {
  import opened Collections
  import opened Bits
  import opened Bytes
  import opened Words

  type Int64 = x: int | -0x8000_0000_0000_0000 <= x < 0x8000_0000_0000_0000

  // ---- The byte form ----

  /** The number of bytes with the most significant first. */
  function FromBE(s: seq<Byte>): nat { if s == [] then 0 else FromBE(s[..|s| - 1]) * 0x100 + s[|s| - 1] }

  /** The fewest bytes that hold a magnitude. */
  function MinBE(m: nat): (r: seq<Byte>)
    ensures m == 0 <==> r == []
    ensures r != [] ==> r[0] != 0
  {
    if m == 0 then [] else MinBE(m / 0x100) + [m % 0x100]
  }

  function Sign(negative: bool): Byte { if negative then 0x80 else 0 }

  /** Sign and magnitude: the sign takes the top bit of the first byte, or of a byte of its own. */
  function SignedBytes(negative: bool, m: nat): seq<Byte> {
    var be := MinBE(m);
    if be == [] then []
    else if be[0] >= 0x80 then [Sign(negative)] + be
    else [be[0] + Sign(negative)] + be[1..]
  }

  function Magnitude(n: int): nat { if n < 0 then -n else n }

  function Body(n: int): seq<Byte> { SignedBytes(n < 0, Magnitude(n)) }

  /** The body with the sign bit cleared. */
  function Unsigned(body: seq<Byte>): (r: seq<Byte>)
    ensures |r| == |body|
  {
    if body == [] then [] else [body[0] % 0x80] + body[1..]
  }

  function Decoded(body: seq<Byte>): int {
    var m: int := FromBE(Unsigned(body));
    if body != [] && body[0] >= 0x80 then -m else m
  }

  /** The length in four bytes and then the body. */
  function Mpi(n: int): seq<Byte> { ToBE4(|Body(n)|) + Body(n) }

  /** No number for bytes whose length does not say how many follow. */
  function FromMpi(pch: seq<Byte>): Option<int> {
    if |pch| >= 4 && FromBE(pch[..4]) == |pch| - 4 then Some(Decoded(pch[4..])) else None
  }

  lemma HeaderValue(size: nat)
    requires size < 0x1_0000_0000
    ensures FromBE(ToBE4(size)) == size
  {
    var h := ToBE4(size);
    FourBytes(h);
    assert size / 0x100 / 0x100 == size / 0x1_0000 && size / 0x1_0000 / 0x100 == size / 0x100_0000;
  }

  lemma TwoBytes(s: seq<Byte>)
    requires |s| == 2
    ensures FromBE(s) == s[0] as int * 0x100 + s[1] as int
  {
    assert s[..1][..0] == [];
    assert s[..1][0] == s[0];
    assert FromBE(s[..1]) == s[0];
  }

  lemma FourBytes(s: seq<Byte>)
    requires |s| == 4
    ensures FromBE(s) == ((s[0] as int * 0x100 + s[1] as int) * 0x100 + s[2] as int) * 0x100 + s[3] as int
  {
    assert s[..3][..2] == s[..2];
    TwoBytes(s[..2]);
  }

  lemma {:induction false} BEAppend(a: seq<Byte>, b: seq<Byte>)
    ensures FromBE(a + b) == FromBE(a) * Pow256(|b|) + FromBE(b)
  {
    if b == [] {
      assert a + b == a;
    } else {
      var n := |b| - 1;
      BEAppend(a, b[..n]);
      assert (a + b)[..|a + b| - 1] == a + b[..n];
      Widen(FromBE(a), Pow256(n), FromBE(b[..n]), b[n]);
    }
  }

  lemma Widen(x: nat, p: nat, y: nat, c: nat)
    ensures (x * p + y) * 0x100 + c == x * (0x100 * p) + (y * 0x100 + c)
  {
  }

  lemma {:induction false} BEBound(s: seq<Byte>)
    ensures FromBE(s) < Pow256(|s|)
  {
    if s != [] { BEBound(s[..|s| - 1]); }
  }

  lemma {:induction false} FromMinBE(m: nat)
    ensures FromBE(MinBE(m)) == m
  {
    if m > 0 {
      FromMinBE(m / 0x100);
      assert MinBE(m)[..|MinBE(m)| - 1] == MinBE(m / 0x100);
    }
  }

  lemma {:induction false} MinBEUnique(s: seq<Byte>)
    requires s != [] ==> s[0] != 0
    ensures MinBE(FromBE(s)) == s
  {
    if s != [] {
      var n := |s| - 1;
      if n > 0 { MinBEUnique(s[..n]); FirstCounts(s); } else { assert s[..n] == []; }
      assert s == s[..n] + [s[n]];
    }
  }

  lemma {:induction false} FirstCounts(s: seq<Byte>)
    requires s != [] && s[0] != 0
    ensures FromBE(s) > 0
  {
    if |s| > 1 { FirstCounts(s[..|s| - 1]); } else { assert s[..0] == []; }
  }

  lemma LeadingZero(s: seq<Byte>)
    ensures FromBE([0] + s) == FromBE(s)
  {
    BEAppend([0], s);
    assert FromBE([0]) == 0;
  }

  lemma SignedMagnitude(negative: bool, m: nat)
    ensures FromBE(Unsigned(SignedBytes(negative, m))) == m
    ensures m > 0 ==> SignedBytes(negative, m) != [] && (SignedBytes(negative, m)[0] >= 0x80 <==> negative)
  {
    FromMinBE(m);
    var be := MinBE(m);
    if be != [] {
      if be[0] >= 0x80 {
        LeadingZero(be);
        assert Unsigned(SignedBytes(negative, m)) == [0] + be;
      } else {
        assert Unsigned(SignedBytes(negative, m)) == be;
      }
    }
  }

  /** The bytes of a number are read back as that number. */
  lemma BodyRoundTrip(n: int)
    ensures Decoded(Body(n)) == n
  {
    SignedMagnitude(n < 0, Magnitude(n));
  }

  /** Bytes with none to spare: the first seven bits, or else the next bit, are not zero. */
  predicate Canonical(body: seq<Byte>) {
    body != [] ==> body[0] % 0x80 != 0 || (|body| >= 2 && body[1] >= 0x80)
  }

  lemma BodyCanonical(n: int)
    ensures Canonical(Body(n))
  {
  }

  lemma CanonicalUnique(body: seq<Byte>)
    requires Canonical(body)
    ensures Body(Decoded(body)) == body
  {
    if body != [] {
      hide FromBE, MinBE;
      var u := Unsigned(body);
      if u[0] != 0 {
        MinBEUnique(u);
        FirstCounts(u);
        assert body == [body[0]] + body[1..];
      } else {
        assert u == [0] + u[1..];
        LeadingZero(u[1..]);
        MinBEUnique(u[1..]);
        FirstCounts(u[1..]);
        assert body == [body[0]] + body[1..];
      }
    }
  }

  // ---- The compact form ----

  function CompactOf(size: nat, b0: nat, b1: nat,
                     b2: nat): nat { size % 0x100 * 0x100_0000 + b0 * 0x1_0000 + b1 * 0x100 + b2 }

  function ByteAt(body: seq<Byte>, i: nat): Byte { if i < |body| then body[i] else 0 }

  /** The body a compact word describes: three bytes, or as many as fit, and zeros. */
  function CompactBody(compact: Uint32): (r: seq<Byte>)
    ensures |r| == compact / 0x100_0000
  {
    seq(compact / 0x100_0000, i =>
      if i == 0 then compact / 0x1_0000 % 0x100
      else if i == 1 then compact / 0x100 % 0x100
      else if i == 2 then compact % 0x100
      else 0)
  }

  function Compacted(body: seq<Byte>): Uint32 { CompactOf(|body|, ByteAt(body, 0), ByteAt(body, 1), ByteAt(body, 2)) }

  class BigNum {
    var value: int

    constructor (n: int)
      ensures value == n
    {
      value := n;
    }

    /** From the bytes of a 64-bit integer, which never overrun the buffer. */
    method SetInt64(sn: Int64)
      modifies this
      ensures value == sn
    {
      var p := SignificantBytes(Magnitude(sn), sn < 0);
      HeaderValue(|p|);
      var pch := ToBE4(|p|) + p;
      assert |pch| <= 8 + 6 && pch[..4] == ToBE4(|p|) && pch[4..] == p;
      SignedMagnitude(sn < 0, Magnitude(sn));
      var decoded := FromMpi(pch);
      if decoded.Some? { value := decoded.value; }
    }

    /** The low 64 bits of the magnitude. */
    method GetUint64() returns (n: nat)
      ensures n == Magnitude(value) % 0x1_0000_0000_0000_0000
    {
      var vch := Mpi(value);
      if |vch| > 4 { vch := vch[4 := vch[4] % 0x80]; }
      assert vch[4..] == Unsigned(Body(value));
      SignedMagnitude(value < 0, Magnitude(value));
      n := LowBytes(vch);
    }

    method SetCompact(nCompact: Uint32)
      modifies this
      ensures value == Decoded(CompactBody(nCompact))
    {
      var nSize := nCompact / 0x100_0000;
      var vch: seq<Byte> := seq(4 + nSize, i => 0);
      vch := vch[3 := nSize];
      if nSize >= 1 { vch := vch[4 := nCompact / 0x1_0000 % 0x100]; }
      if nSize >= 2 { vch := vch[5 := nCompact / 0x100 % 0x100]; }
      if nSize >= 3 { vch := vch[6 := nCompact % 0x100]; }
      assert vch[4..] == CompactBody(nCompact);
      assert vch[..4] == ToBE4(nSize);
      HeaderValue(nSize);
      var decoded := FromMpi(vch);
      if decoded.Some? { value := decoded.value; }
    }

    method GetCompact() returns (nCompact: Uint32)
      requires |Body(value)| < 0x1_0000_0000
      ensures nCompact == Compacted(Body(value))
    {
      hide BitOr, Body;
      var vch := Mpi(value);
      var nSize := |vch| - 4;
      assert vch[4..] == Body(value);
      nCompact := nSize * 0x100_0000 % 0x1_0000_0000;
      assert nCompact == nSize % 0x100 * 0x100_0000;
      ghost var b0: int, b1: int, b2: int := ByteAt(Body(value), 0), ByteAt(Body(value), 1), ByteAt(Body(value), 2);
      OrBytes(nSize % 0x100, b0, b1, b2);
      if nSize >= 1 { nCompact := BitOr(nCompact, vch[4] as int * 0x1_0000); }
      if nSize >= 2 { nCompact := BitOr(nCompact, vch[5] as int * 0x100); }
      if nSize >= 3 { nCompact := BitOr(nCompact, vch[6]); }
    }
  }

  // ---- The loops ----

  /** The sign and the bytes of a magnitude, leading zero bytes left out. */
  method SignificantBytes(m: nat, fNegative: bool) returns (p: seq<Byte>)
    requires m < 0x1_0000_0000_0000_0000
    ensures p == SignedBytes(fNegative, m) && |p| <= 9
  {
    hide SignedBytes, Extended;
    NoBytes(fNegative);
    var n := m;
    p := [];
    var fLeadingZeroes := true;
    ghost var hi: nat, rest: nat := 0, m;
    Pow256Words();
    for i := 0 to 8
      invariant rest < Pow256(8 - i) && n == rest * Pow256(i)
      invariant hi * Pow256(8 - i) + rest == m
      invariant fLeadingZeroes <==> hi == 0
      invariant p == SignedBytes(fNegative, hi) && |p| <= i + 1
    {
      ghost var top, below := TopByte(rest, Pow256(7 - i));
      TakeTop(rest, top, below, Pow256(7 - i), Pow256(i), i, hi);
      var c := n / 0x100_0000_0000_0000;
      p := NextByte(p, c, fLeadingZeroes, fNegative, hi);
      fLeadingZeroes := fLeadingZeroes && c == 0;
      hi, rest := hi * 0x100 + c, below;
      n := n * 0x100 % 0x1_0000_0000_0000_0000;
    }
  }

  lemma NoBytes(negative: bool)
    ensures SignedBytes(negative, 0) == []
  {
  }

  /** One round of the loop over the bytes. */
  method NextByte(p: seq<Byte>, c0: Byte, fLeadingZeroes: bool, fNegative: bool, ghost hi: nat) returns (r: seq<Byte>)
    requires p == SignedBytes(fNegative, hi) && (fLeadingZeroes <==> hi == 0)
    ensures r == Extended(fNegative, hi, c0) && |r| <= if hi == 0 then 2 else |p| + 1
  {
    var c := c0;
    r := p;
    if fLeadingZeroes {
      if c == 0 { return; }
      if c >= 0x80 {
        r := r + [if fNegative then 0x80 else 0];
      } else if fNegative {
        OrDisjoint(c, 1, 7);
        c := BitOr(c, 0x80);
      }
    }
    r := r + [c];
  }

  /** The last eight bytes of the body, or as many as there are, as a number. */
  method LowBytes(vch: seq<Byte>) returns (n: nat)
    requires |vch| >= 4
    ensures n == FromBE(vch[4..]) % 0x1_0000_0000_0000_0000
  {
    var bytes: seq<Byte> := [];
    var i, j := 0, |vch| - 1;
    while i < 8 && j >= 4
      invariant 0 <= i <= 8 && j == |vch| - 1 - i >= 3 && |bytes| == i
      invariant FromLE(bytes) == FromBE(vch[j + 1..])
    {
      PutTop(bytes, vch[j], vch[j + 1..]);
      TailAt(vch, j, j + 1);
      bytes := bytes + [vch[j]];
      i, j := i + 1, j - 1;
    }
    n := FromLE(bytes);
    Pow256Words();
    if i == 8 {
      TailAt(vch, 4, j + 1);
      BEAppend(vch[4..j + 1], vch[j + 1..]);
      DivUnique(FromBE(vch[4..]), Pow256(8), FromBE(vch[4..j + 1]), n);
    } else {
      LEBelow(bytes, 8);
    }
  }

  // ---- Steps of the loops ----

  /** The top byte of what is left, and the bytes below it moved up. */
  lemma {:induction false} TakeTop(rest: nat, c: Byte, below: nat, q: nat, p: nat, i: nat, hi: nat)
    requires i < 8 && q == Pow256(7 - i) && p == Pow256(i) && rest == c * q + below && below < q
    ensures rest * p / 0x100_0000_0000_0000 == c
    ensures rest * p * 0x100 % 0x1_0000_0000_0000_0000 == below * (0x100 * p)
    ensures hi * (0x100 * q) + rest == (hi * 0x100 + c) * q + below
    ensures SignedBytes(true, hi * 0x100 + c) == Extended(true, hi, c)
    ensures SignedBytes(false, hi * 0x100 + c) == Extended(false, hi, c)
  {
    hide Pow256, SignedBytes, Extended;
    Exponents(i);
    Scale(rest, c, below, q, p);
    Regroup(hi, q, c);
    ExtendedIs(true, hi, c);
    ExtendedIs(false, hi, c);
  }

  lemma TopByte(rest: nat, q: nat) returns (c: Byte, below: nat)
    requires q > 0 && rest < 0x100 * q
    ensures rest == c * q + below && below < q
  {
    c, below := rest / q, rest % q;
  }

  lemma ExtendedIs(negative: bool, hi: nat, c: Byte)
    ensures SignedBytes(negative, hi * 0x100 + c) == Extended(negative, hi, c)
  {
    if hi > 0 || c > 0 {
      assert MinBE(hi * 0x100 + c) == MinBE(hi) + [c];
      if hi > 0 { assert (MinBE(hi) + [c])[1..] == MinBE(hi)[1..] + [c]; }
    }
  }

  /** The signed bytes with one more byte at the end of the magnitude. */
  function Extended(negative: bool, hi: nat, c: Byte): seq<Byte> {
    if hi > 0 then SignedBytes(negative, hi) + [c]
    else if c == 0 then []
    else if c >= 0x80 then [Sign(negative), c]
    else [c + Sign(negative)]
  }

  lemma {:induction false} PowAdd(m: nat, n: nat)
    ensures Pow256(m + n) == Pow256(m) * Pow256(n)
  {
    if n > 0 { PowAdd(m, n - 1); }
  }

  lemma Exponents(i: nat)
    requires i < 8
    ensures Pow256(7 - i) * Pow256(i) == 0x100_0000_0000_0000
  {
    PowAdd(7 - i, i);
    Pow256Words();
    assert Pow256(8) == 0x100 * Pow256(7);
  }

  lemma Scale(rest: nat, a: nat, b: nat, q: nat, p: nat)
    requires q * p == 0x100_0000_0000_0000 && rest == a * q + b && b < q
    ensures rest * p / 0x100_0000_0000_0000 == a
    ensures rest * p * 0x100 % 0x1_0000_0000_0000_0000 == b * (0x100 * p)
  {
    assert p >= 1;
    Distribute(a, b, q, p);
    DivUnique(rest * p, q * p, a, b * p);
    DivUnique(rest * p * 0x100, q * p * 0x100, a, b * (0x100 * p));
  }

  lemma Distribute(a: nat, b: nat, q: nat, p: nat)
    requires b < q && p >= 1
    ensures (a * q + b) * p == a * (q * p) + b * p && b * p < q * p
    ensures (a * q + b) * p * 0x100 == a * (q * p * 0x100) + b * (0x100 * p) && b * (0x100 * p) < q * p * 0x100
  {
    MulAtLeast(q - b, p);
    assert (q - b) * p == q * p - b * p;
    assert b * (0x100 * p) == b * p * 0x100;
  }

  lemma Larger(a: nat, b: nat, q: nat)
    requires a >= b
    ensures a * q >= b * q
  {
  }

  lemma Regroup(hi: nat, q: nat, c: nat)
    ensures hi * (0x100 * q) + c * q == (hi * 0x100 + c) * q
  {
  }

  lemma TailAt(s: seq<Byte>, i: nat, j: nat)
    requires i <= j <= |s|
    ensures s[i..] == s[i..j] + s[j..]
    ensures j == i + 1 ==> s[i..j] == [s[i]]
  {
  }

  lemma PutTop(bytes: seq<Byte>, c: Byte, tail: seq<Byte>)
    requires |bytes| == |tail| && FromLE(bytes) == FromBE(tail)
    ensures FromLE(bytes + [c]) == FromBE([c] + tail)
  {
    BEAppend([c], tail);
    assert [c][..0] == [];
    assert FromBE([c]) == c;
    LEAppend(bytes, c);
  }

  lemma {:induction false} LEAppend(bytes: seq<Byte>, c: Byte)
    ensures FromLE(bytes + [c]) == FromLE(bytes) + c * Pow256(|bytes|)
  {
    if bytes == [] {
      assert (bytes + [c])[1..] == [];
    } else {
      LEAppend(bytes[1..], c);
      assert (bytes + [c])[1..] == bytes[1..] + [c];
      Spread(FromLE(bytes[1..]), c, Pow256(|bytes| - 1));
    }
  }

  lemma Spread(x: nat, c: nat, p: nat)
    ensures 0x100 * (x + c * p) == 0x100 * x + c * (0x100 * p)
  {
  }

  lemma {:induction false} PowMonotone(m: nat, n: nat)
    requires m <= n
    ensures Pow256(m) <= Pow256(n)
  {
    if m < n { PowMonotone(m, n - 1); }
  }

  lemma LEBelow(bytes: seq<Byte>, n: nat)
    requires |bytes| <= n
    ensures FromLE(bytes) < Pow256(n)
  {
    PowMonotone(|bytes|, n);
  }

  lemma {:induction false} OrBytes(h: nat, b0: Byte, b1: Byte, b2: Byte)
    ensures BitOr(h * 0x100_0000, b0 * 0x1_0000) == h * 0x100_0000 + b0 * 0x1_0000
    ensures BitOr(h * 0x100_0000 + b0 * 0x1_0000, b1 * 0x100) == h * 0x100_0000 + b0 * 0x1_0000 + b1 * 0x100
    ensures BitOr(h * 0x100_0000 + b0 * 0x1_0000 + b1 * 0x100, b2) == h * 0x100_0000 + b0 * 0x1_0000 + b1 * 0x100 + b2
  {
    hide BitOr, Pow2;
    Pow2Words();
    Pow2Add(16, 8);
    OrDisjoint(b0 * 0x1_0000, h, 24);
    OrDisjoint(b1 * 0x100, h * 0x100 + b0, 16);
    OrDisjoint(b2, h * 0x1_0000 + b0 * 0x100 + b1, 8);
  }

  // ---- What the compact form keeps ----

  /** What setting from the compact form of a number gives. */
  function Reset(x: int): int { Decoded(CompactBody(Compacted(Body(x)))) }

  lemma Unpacked(size: nat, b0: Byte, b1: Byte, b2: Byte)
    ensures var w := CompactOf(size, b0, b1, b2);
      w < 0x1_0000_0000 && w / 0x100_0000 == size % 0x100
      && w / 0x1_0000 % 0x100 == b0 && w / 0x100 % 0x100 == b1 && w % 0x100 == b2
  {
    var w, s: int := CompactOf(size, b0, b1, b2), size % 0x100;
    var x0: int := s * 0x100 + b0 as int;
    var x1: int := x0 * 0x100 + b1 as int;
    DivUnique(w, 0x100, x1, b2);
    DivUnique(w, 0x1_0000, x0, b1 as int * 0x100 + b2 as int);
    DivUnique(w, 0x100_0000, s, (b0 as int * 0x100 + b1 as int) * 0x100 + b2 as int);
    DivUnique(x1, 0x100, x0, b1);
    DivUnique(x0, 0x100, s, b0);
  }

  /** The body that survives: the first three bytes, and zeros to the same length. */
  function Kept(body: seq<Byte>): (r: seq<Byte>)
    ensures |r| == |body|
  {
    seq(|body|, i requires 0 <= i < |body| => if i < 3 then body[i] else 0)
  }

  lemma KeptIs(body: seq<Byte>)
    requires |body| < 0x100
    ensures CompactBody(Compacted(body)) == Kept(body)
  {
    Unpacked(|body|, ByteAt(body, 0), ByteAt(body, 1), ByteAt(body, 2));
  }

  lemma {:induction false} ZerosBE(s: seq<Byte>)
    requires forall i :: 0 <= i < |s| ==> s[i] == 0
    ensures FromBE(s) == 0
  {
    if s != [] { ZerosBE(s[..|s| - 1]); }
  }

  /** The compact form loses less than the bytes it drops are worth. */
  lemma {:induction false} KeptValue(body: seq<Byte>)
    ensures FromBE(Unsigned(Kept(body))) <= FromBE(Unsigned(body))
    ensures |body| < 3 ==> FromBE(Unsigned(Kept(body))) == FromBE(Unsigned(body))
    ensures |body| >= 3 ==> FromBE(Unsigned(body)) - FromBE(Unsigned(Kept(body))) < Pow256(|body| - 3)
  {
    var k, u := Unsigned(Kept(body)), Unsigned(body);
    if |body| < 3 {
      assert Kept(body) == body;
      assert k == u;
    } else {
      KeptPrefix(body, k, u);
      Truncated(k, u, 3);
    }
  }

  lemma KeptPrefix(body: seq<Byte>, k: seq<Byte>, u: seq<Byte>)
    requires |body| >= 3 && k == Unsigned(Kept(body)) && u == Unsigned(body)
    ensures |k| == |u| == |body| && (forall i :: 0 <= i < 3 ==> k[i] == u[i]) && forall i :: 3 <= i < |k| ==> k[i] == 0
  {
  }

  lemma Truncated(k: seq<Byte>, u: seq<Byte>, n: nat)
    requires n <= |k| == |u| && (forall i :: 0 <= i < n ==> k[i] == u[i]) && forall i :: n <= i < |k| ==> k[i] == 0
    ensures FromBE(k) <= FromBE(u) < FromBE(k) + Pow256(|u| - n)
  {
    assert k[..n] == u[..n];
    assert k == u[..n] + k[n..] && u == u[..n] + u[n..];
    BEAppend(u[..n], k[n..]);
    BEAppend(u[..n], u[n..]);
    ZerosBE(k[n..]);
    BEBound(u[n..]);
  }

  /** A number whose bytes the compact form can count comes back with its sign, never larger, and
      short by less than the dropped bytes are worth; and its compact form is unchanged. */
  lemma CompactKeeps(x: int)
    requires |Body(x)| < 0x100
    ensures Magnitude(Reset(x)) <= Magnitude(x) && (x >= 0 ==> Reset(x) >= 0) && (x <= 0 ==> Reset(x) <= 0)
    ensures |Body(x)| <= 3 ==> Reset(x) == x
    ensures |Body(x)| >= 3 ==> Magnitude(x) - Magnitude(Reset(x)) < Pow256(|Body(x)| - 3)
    ensures Compacted(Body(Reset(x))) == Compacted(Body(x))
  {
    hide Body, Kept, Decoded, FromBE, Unsigned, Canonical, Compacted, CompactBody, Pow256;
    var body := Body(x);
    BodyRoundTrip(x);
    BodyCanonical(x);
    KeptIs(body);
    KeptValue(body);
    KeptFirst(body);
    DecodedSign(body);
    DecodedSign(Kept(body));
    CanonicalUnique(Kept(body));
  }

  lemma KeptFirst(body: seq<Byte>)
    ensures body != [] ==> Kept(body)[0] == body[0]
    ensures |body| <= 3 ==> Kept(body) == body
    ensures Canonical(body) ==> Canonical(Kept(body))
    ensures Compacted(Kept(body)) == Compacted(body)
  {
  }

  lemma DecodedSign(body: seq<Byte>)
    ensures Magnitude(Decoded(body)) == FromBE(Unsigned(body))
    ensures body != [] && body[0] >= 0x80 ==> Decoded(body) <= 0
    ensures body != [] && body[0] < 0x80 ==> Decoded(body) >= 0
    ensures body == [] ==> Decoded(body) == 0
  {
  }

  lemma BodyAtLeast(x: int)
    requires |Body(x)| >= 2
    ensures Magnitude(x) >= 0x80 * Pow256(|Body(x)| - 2)
  {
    var u := Unsigned(Body(x));
    SignedMagnitude(x < 0, Magnitude(x));
    BodyCanonical(x);
    assert u == u[..2] + u[2..];
    BEAppend(u[..2], u[2..]);
    TwoBytes(u[..2]);
    Larger(FromBE(u[..2]), 0x80, Pow256(|u| - 2));
  }

  lemma DecodedBelow(body: seq<Byte>)
    ensures body != [] ==> Magnitude(Decoded(body)) < 0x80 * Pow256(|body| - 1)
    ensures body == [] ==> Decoded(body) == 0
  {
    if body != [] {
      var u := Unsigned(body);
      assert u == [u[0]] + u[1..];
      BEAppend([u[0]], u[1..]);
      assert [u[0]][..0] == [];
      assert FromBE([u[0]]) == u[0];
      BEBound(u[1..]);
      Larger(0x7F, u[0], Pow256(|u| - 1));
    }
  }

  /** The bound on what is lost holds exactly for numbers whose length fits a byte. */
  lemma {:induction false} CompactKeepsIff(x: int)
    requires |Body(x)| >= 3
    ensures Magnitude(x) - Magnitude(Reset(x)) < Pow256(|Body(x)| - 3) <==> |Body(x)| < 0x100
  {
    var body := Body(x);
    Unpacked(|body|, ByteAt(body, 0), ByteAt(body, 1), ByteAt(body, 2));
    if |body| < 0x100 {
      CompactKeeps(x);
    } else {
      BodyAtLeast(x);
      DecodedBelow(CompactBody(Compacted(body)));
      TooLong(Magnitude(x), Magnitude(Reset(x)), |body|);
    }
  }

  lemma TooLong(x: nat, y: nat, size: nat)
    requires size >= 0x100 && x >= 0x80 * Pow256(size - 2)
    requires if size % 0x100 > 0 then y < 0x80 * Pow256(size % 0x100 - 1) else y == 0
    ensures x - y >= Pow256(size - 3)
  {
    assert Pow256(size - 2) == 0x100 * Pow256(size - 3);
    if size % 0x100 > 0 { PowMonotone(size % 0x100 - 1, size - 3); }
  }

  /** Every 64-bit integer set and taken back without its sign. */
  method SetAndGet(b: BigNum, sn: Int64) returns (n: nat)
    modifies b
    ensures b.value == sn && n == Magnitude(sn)
  {
    b.SetInt64(sn);
    ShortBody(sn);
    n := b.GetUint64();
  }

  lemma ShortBody(sn: Int64)
    ensures |Body(sn)| < 0x1_0000_0000
  {
    if |Body(sn)| >= 10 {
      BodyAtLeast(sn);
      PowMonotone(8, |Body(sn)| - 2);
      Pow256Words();
    }
  }
}

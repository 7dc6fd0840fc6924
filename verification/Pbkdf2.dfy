/** Password-based key derivation over the keyed hash, for a hash with a 32-byte digest and 64-byte
    blocks, as RFC 2898 section 5.2 and RFC 2104 section 2 define them. */
module Pbkdf2 {
  import opened Bits
  import opened Bytes

  const HSIZE: nat := 32
  const BLOCK: nat := 2 * HSIZE

  type Digest = s: seq<Byte> | |s| == 32 witness ZERO_DIGEST
  const ZERO_DIGEST: seq<Byte> := seq(32, i => 0)

  type Hash = seq<Byte> -> Digest

  function XorByte(a: Byte, b: Byte): Byte {
    Pow2Words();
    XorBound(a, b, 8);
    BitXor(a, b)
  }

  function XorBytes(a: seq<Byte>, b: seq<Byte>): (r: seq<Byte>)
    requires |a| == |b|
    ensures |r| == |a|
  {
    seq(|a|, i requires 0 <= i < |a| => XorByte(a[i], b[i]))
  }

  /** Byte by byte and bit by bit, set where the two differ. */
  lemma XorBytesBit(a: seq<Byte>, b: seq<Byte>, i: nat, k: nat)
    requires i < |a| == |b|
    ensures Bit(XorBytes(a, b)[i], k) <==> Bit(a[i], k) != Bit(b[i], k)
  {
    XorBit(a[i], b[i], k);
  }

  function Repeat(b: Byte, n: nat): (r: seq<Byte>)
    ensures |r| == n
  {
    seq(n, i => b)
  }

  // ---- The definitions ----

  /** The key, hashed when longer than a block, with zeros to a block. */
  function PaddedKey(h: Hash, key: seq<Byte>): (r: seq<Byte>)
    ensures |r| == BLOCK
  {
    var k := if |key| > BLOCK then h(key) else key;
    k + Repeat(0, BLOCK - |k|)
  }

  function Hmac(h: Hash, key: seq<Byte>, text: seq<Byte>): Digest {
    var k := PaddedKey(h, key);
    h(XorBytes(k, Repeat(0x5c, BLOCK)) + h(XorBytes(k, Repeat(0x36, BLOCK)) + text))
  }

  /** The iterates of the keyed hash. */
  function U(h: Hash, p: seq<Byte>, s: seq<Byte>, i: nat, j: nat): Digest
    requires j >= 1
  {
    if j == 1 then Hmac(h, p, s + ToBE4(i)) else Hmac(h, p, U(h, p, s, i, j - 1))
  }

  /** Their exclusive or. */
  function F(h: Hash, p: seq<Byte>, s: seq<Byte>, c: nat, i: nat): Digest
    requires c >= 1
  {
    if c == 1 then U(h, p, s, i, 1) else XorBytes(F(h, p, s, c - 1, i), U(h, p, s, i, c))
  }

  /** The first `l` blocks. */
  function Blocks(h: Hash, p: seq<Byte>, s: seq<Byte>, c: nat, l: nat): (r: seq<Byte>)
    requires c >= 1
    ensures |r| == l * HSIZE
  {
    if l == 0 then [] else Blocks(h, p, s, c, l - 1) + F(h, p, s, c, l)
  }

  function Ceiling(dkLen: nat): (l: nat)
    ensures dkLen <= l * HSIZE < dkLen + HSIZE
  {
    (dkLen + HSIZE - 1) / HSIZE
  }

  /** The derived key. */
  function DerivedKey(h: Hash, p: seq<Byte>, s: seq<Byte>, c: nat, dkLen: nat): (r: seq<Byte>)
    requires c >= 1
    ensures |r| == dkLen
  {
    Blocks(h, p, s, c, Ceiling(dkLen))[..dkLen]
  }

  // ---- The streaming code ----

  /** The two running hashes, each all that was written to it. */
  class HmacContext {
    var ictx: seq<Byte>
    var octx: seq<Byte>

    /** The running hashes are those of the text so far under the key. */
    ghost predicate Holds(h: Hash, key: seq<Byte>, text: seq<Byte>)
      reads this
    {
      && ictx == XorBytes(PaddedKey(h, key), Repeat(0x36, BLOCK)) + text
      && octx == XorBytes(PaddedKey(h, key), Repeat(0x5c, BLOCK))
    }

    constructor ()
      ensures ictx == [] && octx == []
    {
      ictx, octx := [], [];
    }

    method Init(h: Hash, key: seq<Byte>)
      modifies this
      ensures Holds(h, key, [])
    {
      var k := key;
      if |key| > BLOCK { k := h(key); }
      var pad := PadWith(k, 0x36);
      PadIs(k, 0x36);
      ictx := pad[..];
      pad := PadWith(k, 0x5c);
      PadIs(k, 0x5c);
      octx := pad[..];
    }

    method Update(more: seq<Byte>, ghost h: Hash, ghost key: seq<Byte>, ghost text: seq<Byte>)
      requires Holds(h, key, text)
      modifies this
      ensures Holds(h, key, text + more)
    {
      ictx := ictx + more;
    }

    /** After `Init` with a key and an `Update` for each part of a text, the keyed hash of the text. */
    method Final(h: Hash, ghost key: seq<Byte>, ghost text: seq<Byte>) returns (digest: Digest)
      requires Holds(h, key, text)
      modifies this
      ensures digest == Hmac(h, key, text)
    {
      var ihash := h(ictx);
      octx := octx + ihash;
      digest := h(octx);
    }

    method CopyFrom(other: HmacContext)
      modifies this
      ensures ictx == old(other.ictx) && octx == old(other.octx)
    {
      ictx, octx := other.ictx, other.octx;
    }
  }

  function Padded(k: seq<Byte>, b: Byte): seq<Byte>
    requires |k| <= BLOCK
  {
    XorBytes(k + Repeat(0, BLOCK - |k|), Repeat(b, BLOCK))
  }

  /** A block of one byte, with the key combined into its start. */
  method PadWith(k: seq<Byte>, b: Byte) returns (pad: array<Byte>)
    requires |k| <= BLOCK
    ensures fresh(pad) && pad[..] == seq(BLOCK, i => if 0 <= i < |k| then XorByte(b, k[i]) else b)
  {
    pad := new Byte[BLOCK](i => b);
    for i := 0 to |k|
      invariant forall j :: 0 <= j < BLOCK ==> pad[j] == if j < i then XorByte(b, k[j]) else b
    {
      pad[i] := XorByte(pad[i], k[i]);
    }
  }

  lemma PadIs(k: seq<Byte>, b: Byte)
    requires |k| <= BLOCK
    ensures seq(BLOCK, i => if 0 <= i < |k| then XorByte(b, k[i]) else b) == Padded(k, b)
  {
    var s, t := seq(BLOCK, i => if 0 <= i < |k| then XorByte(b, k[i]) else b), Padded(k, b);
    forall i | 0 <= i < BLOCK ensures s[i] == t[i] {
      if i < |k| { XorCommutes(b, k[i]); }
    }
  }

  /** One block of output. */
  method DeriveBlock(h: Hash, passwd: seq<Byte>, salt: seq<Byte>, c: nat, i: nat, PShctx: HmacContext)
    returns (Y: seq<Byte>)
    requires c >= 1 && i + 1 < 0x1_0000_0000
    requires PShctx.Holds(h, passwd, salt)
    ensures Y == F(h, passwd, salt, c, i + 1)
  {
    var ivec := ToBE4(i + 1);
    var hctx := new HmacContext();
    hctx.CopyFrom(PShctx);
    hctx.Update(ivec, h, passwd, salt);
    var u := hctx.Final(h, passwd, salt + ivec);
    assert u == U(h, passwd, salt, i + 1, 1);
    Y := u;
    var j := 2;
    while j <= c
      invariant 2 <= j <= c + 1
      invariant u == U(h, passwd, salt, i + 1, j - 1) && Y == F(h, passwd, salt, j - 1, i + 1)
    {
      hctx.Init(h, passwd);
      hctx.Update(u, h, passwd, []);
      assert [] + u == u;
      u := hctx.Final(h, passwd, u);
      Y := XorBytes(Y, u);
      j := j + 1;
    }
  }

  /** Writes exactly the derived key to the start of `buf`. */
  method Derive(h: Hash, passwd: seq<Byte>, salt: seq<Byte>, c: nat, buf: array<Byte>, dkLen: nat)
    requires c >= 1 && dkLen <= buf.Length && dkLen <= HSIZE * 0xFFFF_FFFF
    modifies buf
    ensures buf[..dkLen] == DerivedKey(h, passwd, salt, c, dkLen)
    ensures buf[dkLen..] == old(buf[dkLen..])
  {
    hide F, Blocks;
    var PShctx := new HmacContext();
    PShctx.Init(h, passwd);
    PShctx.Update(salt, h, passwd, []);
    assert [] + salt == salt;
    var i := 0;
    while i * HSIZE < dkLen
      invariant 0 <= i <= Ceiling(dkLen)
      invariant PShctx.Holds(h, passwd, salt)
      invariant forall k :: 0 <= k < dkLen && k < i * HSIZE ==> buf[k] == Blocks(h, passwd, salt, c, i)[k]
      invariant buf[dkLen..] == old(buf[dkLen..])
      decreases Ceiling(dkLen) - i
    {
      var Y := DeriveBlock(h, passwd, salt, c, i, PShctx);
      var clen := dkLen - i * HSIZE;
      if clen > HSIZE { clen := HSIZE; }
      ghost var before := buf[..];
      forall k | 0 <= k < clen { buf[i * HSIZE + k] := Y[k]; }
      BlocksGrow(h, passwd, salt, c, i, dkLen, before, buf[..], Y, clen);
      assert buf[dkLen..] == before[dkLen..];
      i := i + 1;
    }
    BlocksEnough(h, passwd, salt, c, i, dkLen);
  }

  lemma BlocksGrow(h: Hash, p: seq<Byte>, s: seq<Byte>, c: nat, i: nat, dkLen: nat, before: seq<Byte>,
                   after: seq<Byte>, y: seq<Byte>, clen: nat)
    requires c >= 1 && y == F(h, p, s, c, i + 1) && |before| == |after| && dkLen <= |before|
    requires i * HSIZE < dkLen && clen == if dkLen - i * HSIZE > HSIZE then HSIZE else dkLen - i * HSIZE
    requires forall k :: 0 <= k < dkLen && k < i * HSIZE ==> before[k] == Blocks(h, p, s, c, i)[k]
    requires forall k :: 0 <= k < |after| ==>
      after[k] == if i * HSIZE <= k < i * HSIZE + clen then y[k - i * HSIZE] else before[k]
    ensures forall k :: 0 <= k < dkLen && k < (i + 1) * HSIZE ==> after[k] == Blocks(h, p, s, c, i + 1)[k]
  {
    assert Blocks(h, p, s, c, i + 1) == Blocks(h, p, s, c, i) + y;
  }

  lemma BlocksEnough(h: Hash, p: seq<Byte>, s: seq<Byte>, c: nat, i: nat, dkLen: nat)
    requires c >= 1 && i <= Ceiling(dkLen) && i * HSIZE >= dkLen
    ensures i == Ceiling(dkLen)
  {
  }
}

/** The two variable-length integer formats: VarInt, seven bits to a byte with no value written in
    two ways, and CompactSize. */
module Serialize {
  import opened Collections
  import opened Bits
  import opened Bytes

  datatype Error = EndOfData | TooLarge | NonCanonical

  datatype Result = Ok(value: nat, rest: seq<Byte>) | Err(error: Error)

  // ---- VarInt ----

  /** The bytes with the continuation bit that precede the last seven bits of a number with `k` above
      them. */
  function High(k: nat): seq<Byte> {
    if k == 0 then [] else High((k - 1) / 128) + [(k - 1) % 128 + 128]
  }

  function Encode(n: nat): seq<Byte> { High(n / 128) + [n % 128] }

  /** The documented sum over bytes with the continuation bit, the last of them worth `p` a unit. */
  function GroupSum(bytes: seq<Byte>, p: nat): nat {
    if bytes == [] then 0
    else
      var n := |bytes| - 1;
      p * (bytes[n] % 128 + 1) + GroupSum(bytes[..n], 128 * p)
  }

  /** All bytes of an encoding but the last have the continuation bit, and it stands for the documented
      sum: the low seven bits of the last, and one more than those of each other times its power of 128. */
  lemma VarIntSum(n: nat)
    ensures
      var e := Encode(n);
      var last := |e| - 1;
      && last >= 0 && e[last] < 128 && (forall i :: 0 <= i < last ==> e[i] >= 128)
      && n == e[last] + GroupSum(e[..last], 128)
  {
    HighSum(n / 128, 128);
    assert Encode(n)[..|Encode(n)| - 1] == High(n / 128);
  }

  lemma {:induction false} HighSum(k: nat, p: nat)
    ensures GroupSum(High(k), p) == p * k && forall i :: 0 <= i < |High(k)| ==> High(k)[i] >= 128
  {
    if k > 0 {
      HighSum((k - 1) / 128, 128 * p);
      assert High(k)[..|High(k)| - 1] == High((k - 1) / 128);
      Carry(p, (k - 1) / 128, (k - 1) % 128);
    }
  }

  lemma Carry(p: nat, high: nat, low: nat)
    ensures p * (low + 1) + 128 * p * high == p * (128 * high + low + 1)
  {
  }

  /** The largest value of an integer type with `bits` value bits. */
  function Max(bits: nat): nat { Pow2(bits) - 1 }

  /** What a reader that has accumulated `n` makes of the bytes that follow. */
  function Decode(bits: nat, n: nat, bytes: seq<Byte>): Result
    decreases |bytes|
  {
    if bytes == [] then Err(EndOfData)
    else if n > Max(bits) / 128 then Err(TooLarge)
    else
      var v := n * 128 + bytes[0] % 128;
      if bytes[0] < 128 then Ok(v, bytes[1..])
      else if v == Max(bits) then Err(TooLarge)
      else Decode(bits, v + 1, bytes[1..])
  }

  /** The bytes read so far and those to come are the encoding of the answer and what follows it. */
  lemma {:induction false} DecodedIsEncoded(bits: nat, n: nat, bytes: seq<Byte>)
    requires bits >= 7 && Decode(bits, n, bytes).Ok?
    ensures Decode(bits, n, bytes).value <= Max(bits)
    ensures High(n) + bytes == Encode(Decode(bits, n, bytes).value) + Decode(bits, n, bytes).rest
    decreases |bytes|
  {
    var v := n * 128 + bytes[0] % 128;
    if bytes[0] < 128 {
      Fits(bits, n, bytes[0] % 128);
      assert v / 128 == n && v % 128 == bytes[0];
      hide Max, High;
      Carried(High(n), bytes);
    } else {
      DecodedIsEncoded(bits, v + 1, bytes[1..]);
      HighMore(n, bytes[0]);
      hide Max, High, Encode;
      Carried(High(n), bytes);
    }
  }

  lemma Carried(high: seq<Byte>, bytes: seq<Byte>)
    requires bytes != []
    ensures high + bytes == (high + [bytes[0]]) + bytes[1..]
  {
  }

  lemma HighMore(n: nat, b: Byte)
    requires b >= 128
    ensures High(n * 128 + b % 128 + 1) == High(n) + [b]
  {
    assert (n * 128 + b % 128) / 128 == n && (n * 128 + b % 128) % 128 == b % 128;
  }

  lemma Fits(bits: nat, n: nat, low: nat)
    requires bits >= 7 && n <= Max(bits) / 128 && low < 128
    ensures n * 128 + low <= Max(bits)
  {
    Pow2Add(bits - 7, 7);
    assert Pow2(7) == 128;
  }

  lemma GroupAdds(bits: nat, n: nat, low: nat)
    requires bits >= 7 && n <= Max(bits) / 128 && low < 128
    ensures BitOr(n * 128, low) == n * 128 + low <= Max(bits)
  {
    Fits(bits, n, low);
    assert Pow2(7) == 128;
    OrDisjoint(low, n, 7);
  }

  lemma {:induction false} DecodeHigh(bits: nat, k: nat, tail: seq<Byte>)
    requires k <= Max(bits) / 128
    ensures Decode(bits, 0, High(k) + tail) == Decode(bits, k, tail)
  {
    if k == 0 {
      assert High(k) + tail == tail;
    } else {
      var j, c := (k - 1) / 128, (k - 1) % 128 + 128;
      DecodeHigh(bits, j, [c] + tail);
      assert High(k) + tail == High(j) + ([c] + tail);
      assert ([c] + tail)[1..] == tail;
    }
  }

  /** A written value is read back, with the rest untouched; no check refuses it. */
  lemma VarIntRoundTrip(bits: nat, n: nat, rest: seq<Byte>)
    requires n <= Max(bits)
    ensures Decode(bits, 0, Encode(n) + rest) == Ok(n, rest)
  {
    var tail := [n % 128] + rest;
    assert Encode(n) + rest == High(n / 128) + tail;
    DecodeHigh(bits, n / 128, tail);
    assert tail[1..] == rest;
  }

  /** Bytes are accepted exactly when they start with the encoding of a value of the type, and that
      value is the answer. */
  lemma VarIntBijective(bits: nat, bytes: seq<Byte>, n: nat, rest: seq<Byte>)
    requires bits >= 7
    ensures Decode(bits, 0, bytes) == Ok(n, rest) <==> n <= Max(bits) && bytes == Encode(n) + rest
  {
    if Decode(bits, 0, bytes) == Ok(n, rest) {
      DecodedIsEncoded(bits, 0, bytes);
      assert High(0) + bytes == bytes;
    }
    if n <= Max(bits) && bytes == Encode(n) + rest { VarIntRoundTrip(bits, n, rest); }
  }

  /** A value of `bits` bits takes at most one byte for every seven of them. */
  lemma {:induction false} HighLength(k: nat, bits: nat)
    requires k < Pow2(bits)
    ensures |High(k)| <= (bits + 6) / 7
  {
    if k > 0 && bits > 7 {
      Pow2Add(bits - 7, 7);
      assert Pow2(7) == 128;
      HighLength((k - 1) / 128, bits - 7);
    } else if k > 0 {
      Pow2Monotone(bits, 7);
      assert Pow2(7) == 128;
    }
  }

  lemma EncodeLength(n: nat, bits: nat)
    requires bits >= 7 && n <= Max(bits)
    ensures |Encode(n)| <= (bits + 6) / 7
  {
    Pow2Add(bits - 7, 7);
    assert Pow2(7) == 128;
    HighLength(n / 128, bits - 7);
  }

  method GetSizeOfVarInt(n0: nat) returns (nRet: nat)
    ensures nRet == |Encode(n0)|
  {
    nRet := 1;
    var n := n0;
    while n > 0x7F
      invariant nRet + |High(n / 128)| == |Encode(n0)|
      decreases n
    {
      n := n / 128 - 1;
      nRet := nRet + 1;
    }
  }

  /** One group, with the continuation bit. */
  method PutGroup(tmp: array<Byte>, len: nat, low: Byte)
    requires len < tmp.Length && low < 0x80
    modifies tmp
    ensures tmp[..len + 1] == old(tmp[..len]) + [low + 0x80]
  {
    HighBit(low);
    tmp[len] := BitOr(low, 0x80);
  }

  /** The seven-bit groups of a value, the last first, in a buffer that is never overrun. */
  method FillGroups(tmp: array<Byte>, n0: nat, width: nat) returns (len: nat)
    requires width >= 7 && n0 <= Max(width) && tmp.Length == (width + 6) / 7
    modifies tmp
    ensures len < tmp.Length && Reversed(tmp[..len + 1]) == Encode(n0)
  {
    EncodeLength(n0, width);
    var n: nat := n0;
    len := 0;
    tmp[0] := n % 128;
    assert tmp[..1] == [n0 % 128];
    GroupStart(n0);
    hide Grouped, Reversed, Encode, Max;
    while n > 0x7F
      invariant 0 <= len < tmp.Length
      invariant Grouped(n0, n / 128, tmp[..len + 1])
      decreases n
    {
      GroupStep(n0, n / 128, tmp[..len + 1]);
      n := n / 128 - 1;
      len := len + 1;
      PutGroup(tmp, len, n % 128);
    }
    NoGroups(n0, n, tmp[..len + 1]);
  }

  /** The groups so far, and those of the `k` above them, are the encoding. */
  ghost predicate Grouped(n0: nat, k: nat, done: seq<Byte>) {
    High(k) + Reversed(done) == Encode(n0) && |done| + |High(k)| == |Encode(n0)|
  }

  lemma HighBit(b: Byte)
    requires b < 0x80
    ensures BitOr(b, 0x80) == b + 0x80
  {
    OrDisjoint(b, 1, 7);
  }

  lemma NoGroups(n0: nat, n: nat, done: seq<Byte>)
    requires n <= 0x7F && Grouped(n0, n / 128, done)
    ensures Reversed(done) == Encode(n0)
  {
    assert High(n / 128) == [];
  }

  lemma GroupStart(n: nat)
    ensures Grouped(n, n / 128, [n % 128])
  {
    ReversedAppend<Byte>([], n % 128);
    assert Reversed<Byte>([n % 128]) == [n % 128];
  }

  lemma GroupStep(n0: nat, k: nat, done: seq<Byte>)
    requires k >= 1 && Grouped(n0, k, done)
    ensures Grouped(n0, (k - 1) / 128, done + [(k - 1) % 128 + 128]) && |done| < |Encode(n0)|
  {
    hide Reversed, Encode;
    Regrouped(High((k - 1) / 128), done, (k - 1) % 128 + 128);
  }

  lemma Regrouped(above: seq<Byte>, done: seq<Byte>, c: Byte)
    ensures above + Reversed(done + [c]) == (above + [c]) + Reversed(done)
  {
    ReversedAppend(done, c);
    hide Reversed;
  }

  method WriteBackwards(os: Stream, tmp: array<Byte>, last: nat)
    requires last < tmp.Length
    modifies os
    ensures os.data == old(os.data) + Reversed(tmp[..last + 1])
  {
    var len := last + 1;
    while len > 0
      invariant 0 <= len <= tmp.Length
      invariant os.data + Reversed(tmp[..len]) == old(os.data) + Reversed(tmp[..last + 1])
    {
      len := len - 1;
      assert tmp[..len + 1] == tmp[..len] + [tmp[len]];
      ReversedAppend(tmp[..len], tmp[len]);
      ghost var before := os.data;
      os.Write([tmp[len]]);
      assert os.data + Reversed(tmp[..len]) == before + ([tmp[len]] + Reversed(tmp[..len]));
    }
    assert os.data + Reversed(tmp[..0]) == os.data;
  }

  /** Writes a value of a type `width` bits wide. */
  method WriteVarInt(os: Stream, n: nat, width: nat)
    requires width >= 7 && n <= Max(width)
    modifies os
    ensures os.data == old(os.data) + Encode(n)
  {
    var tmp := new Byte[(width + 6) / 7](i => 0);
    var len := FillGroups(tmp, n, width);
    WriteBackwards(os, tmp, len);
  }

  /** Reads a value of a type with `bits` value bits. */
  method ReadVarInt(input: Stream, bits: nat) returns (n: nat, error: Option<Error>)
    requires bits >= 7
    modifies input
    ensures match Decode(bits, 0, old(input.data))
            case Ok(value, rest) => error.None? && n == value && input.data == rest
            case Err(e) => error == Some(e)
  {
    hide BitOr, Max;
    n := 0;
    ghost var all := input.data;
    while true
      invariant n <= Max(bits)
      invariant Decode(bits, n, input.data) == Decode(bits, 0, all)
      decreases |input.data|
    {
      var chData := input.Read(1);
      if chData.None? { return n, Some(EndOfData); }
      if n > Max(bits) / 128 { return n, Some(TooLarge); }
      GroupAdds(bits, n, chData.value[0] % 128);
      n := BitOr(n * 128, chData.value[0] % 128);
      if chData.value[0] >= 0x80 {
        if n == Max(bits) { return n, Some(TooLarge); }
        n := n + 1;
      } else {
        return n, None;
      }
    }
  }

  // ---- CompactSize ----

  const MAX_SIZE: nat := 0x0200_0000

  /** How many bytes follow the tag. */
  function Wide(n: nat): nat {
    if n < 253 then 0 else if n <= 0xFFFF then 2 else if n <= 0xFFFF_FFFF then 4 else 8
  }

  function Tag(wide: nat): Byte { if wide == 2 then 253 else if wide == 4 then 254 else 255 }

  function CompactEncode(n: nat): seq<Byte> {
    if n < 253 then [n] else [Tag(Wide(n))] + ToLE(n, Wide(n))
  }

  /** The bytes written, by the ranges the format documents: the tags 253, 254 and 255 stand for two, four
      and eight bytes that follow, the least significant first. */
  lemma CompactBytes(n: nat)
    requires n <= 0xFFFF_FFFF_FFFF_FFFF
    ensures n < 253 ==> CompactEncode(n) == [n]
    ensures 253 <= n <= 0xFFFF ==> CompactEncode(n) == [253, n % 0x100, n / 0x100]
    ensures 0xFFFF < n <= 0xFFFF_FFFF ==>
      CompactEncode(n) == [254, n % 0x100, n / 0x100 % 0x100, n / 0x1_0000 % 0x100, n / 0x100_0000]
    ensures 0xFFFF_FFFF < n ==>
      |CompactEncode(n)| == 9 && CompactEncode(n)[0] == 255 && FromLE(CompactEncode(n)[1..]) == n
  {
    LowBytes(n);
    Pow256Words();
    if n > 0xFFFF_FFFF { FromToLE(n, 8); }
  }

  lemma LowBytes(n: nat)
    ensures n <= 0xFFFF ==> ToLE(n, 2) == [n % 0x100, n / 0x100]
    ensures n <= 0xFFFF_FFFF ==>
      ToLE(n, 4) == [n % 0x100, n / 0x100 % 0x100, n / 0x1_0000 % 0x100, n / 0x100_0000]
  {
    assert n / 0x100 / 0x100 == n / 0x1_0000 && n / 0x1_0000 / 0x100 == n / 0x100_0000;
    assert ToLE(n, 2) == [n % 0x100] + ToLE(n / 0x100, 1);
    assert ToLE(n / 0x100, 1) == [n / 0x100 % 0x100] + ToLE(n / 0x1_0000, 0);
    assert ToLE(n, 4) == [n % 0x100] + ToLE(n / 0x100, 3);
    assert ToLE(n / 0x100, 3) == [n / 0x100 % 0x100] + ToLE(n / 0x1_0000, 2);
    assert ToLE(n / 0x1_0000, 2) == [n / 0x1_0000 % 0x100] + ToLE(n / 0x100_0000, 1);
  }

  function CompactDecode(bytes: seq<Byte>): Result {
    if bytes == [] then Err(EndOfData)
    else if bytes[0] < 253 then Ok(bytes[0], bytes[1..])
    else
      var wide := if bytes[0] == 253 then 2 else if bytes[0] == 254 then 4 else 8;
      if |bytes| < 1 + wide then Err(EndOfData)
      else
        var n := FromLE(bytes[1..1 + wide]);
        if Wide(n) < wide then Err(NonCanonical)
        else if n > MAX_SIZE then Err(TooLarge)
        else Ok(n, bytes[1 + wide..])
  }

  /** A written size is read back when it is within the limit, and refused as too large when not. */
  lemma CompactRoundTrip(n: nat, rest: seq<Byte>)
    requires n <= 0xFFFF_FFFF_FFFF_FFFF
    ensures CompactDecode(CompactEncode(n) + rest) == if n <= MAX_SIZE then Ok(n, rest) else Err(TooLarge)
  {
    var bytes, wide := CompactEncode(n) + rest, Wide(n);
    if wide == 0 {
      assert bytes[1..] == rest;
    } else {
      Pow256Words();
      FromToLE(n, wide);
      assert bytes[1..1 + wide] == ToLE(n, wide);
      assert bytes[1 + wide..] == rest;
    }
  }

  /** Only the shortest encoding of a size within the limit is accepted. */
  lemma CompactBijective(bytes: seq<Byte>, n: nat, rest: seq<Byte>)
    ensures CompactDecode(bytes) == Ok(n, rest) <==> n <= MAX_SIZE && bytes == CompactEncode(n) + rest
  {
    if CompactDecode(bytes) == Ok(n, rest) {
      if bytes[0] < 253 {
        assert bytes == [bytes[0]] + bytes[1..];
      } else {
        var wide := if bytes[0] == 253 then 2 else if bytes[0] == 254 then 4 else 8;
        Pow256Words();
        ToFromLE(bytes[1..1 + wide]);
        assert Wide(n) == wide;
        assert bytes == [bytes[0]] + bytes[1..1 + wide] + bytes[1 + wide..];
      }
    }
    if n <= MAX_SIZE && bytes == CompactEncode(n) + rest { CompactRoundTrip(n, rest); }
  }

  function GetSizeOfCompactSize(n: nat): (r: nat)
    ensures r == |CompactEncode(n)|
  {
    if n < 253 then 1 else if n <= 0xFFFF then 3 else if n <= 0xFFFF_FFFF then 5 else 9
  }

  method WriteCompactSize(os: Stream, n: nat)
    requires n <= 0xFFFF_FFFF_FFFF_FFFF
    modifies os
    ensures os.data == old(os.data) + CompactEncode(n)
  {
    ghost var before := os.data;
    if n < 253 {
      os.Write([n]);
    } else if n <= 0xFFFF {
      os.Write([253]);
      os.Write(ToLE(n, 2));
    } else if n <= 0xFFFF_FFFF {
      os.Write([254]);
      os.Write(ToLE(n, 4));
    } else {
      os.Write([255]);
      os.Write(ToLE(n, 8));
    }
    assert n >= 253 ==> os.data == before + ([Tag(Wide(n))] + ToLE(n, Wide(n)));
  }

  method ReadCompactSize(input: Stream) returns (n: nat, error: Option<Error>)
    modifies input
    ensures match CompactDecode(old(input.data))
            case Ok(value, rest) => error.None? && n == value && input.data == rest
            case Err(e) => error == Some(e)
  {
    n := 0;
    ghost var bytes := input.data;
    var chSize := input.Read(1);
    if chSize.None? { return n, Some(EndOfData); }
    var tag := chSize.value[0];
    if tag < 253 {
      n := tag;
    } else {
      var wide := if tag == 253 then 2 else if tag == 254 then 4 else 8;
      var xSize := input.Read(wide);
      if xSize.None? { return n, Some(EndOfData); }
      n := FromLE(xSize.value);
      assert xSize.value == bytes[1..1 + wide] && input.data == bytes[1 + wide..];
      Pow256Words();
      if (tag == 253 && n < 253) || (tag == 254 && n < 0x1_0000) || (tag == 255 && n < 0x1_0000_0000) {
        return n, Some(NonCanonical);
      }
    }
    if n > MAX_SIZE { return n, Some(TooLarge); }
    error := None;
  }
}

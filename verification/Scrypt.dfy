/** The memory-hard function with N = 1024, r = 1 and p = 1, in place on 32 words and a table of 1024
    copies, as sections 3 to 6 of RFC 7914 define it. */
module Scrypt {
  import opened Bits
  import opened Bytes
  import opened Uint
  import opened UintHex
  import opened Pbkdf2

  const N: nat := 1024

  // ---- Salsa20/8 ----

  function XorWord(a: Word, b: Word): Word {
    Pow2Words();
    XorBound(a, b, 32);
    BitXor(a, b)
  }

  function AddWord(a: Word, b: Word): Word { (a + b) % BASE }

  function Rotate(a: Word, b: nat): Word
    requires b <= 32
  {
    RotateFits(a, b);
    BitOr(Left(a, b), Right(a, 32 - b))
  }

  lemma RotateFits(a: Word, b: nat)
    requires b <= 32
    ensures 0 <= BitOr(Left(a, b), Right(a, 32 - b)) < BASE
  {
    Pow2Words();
    OrBound(Left(a, b), Right(a, 32 - b), 32);
  }

  /** The bits that leave at the top come back at the bottom. */
  lemma RotateIs(a: Word, b: nat)
    requires b <= 32
    ensures Rotate(a, b) == a * Pow2(b) % BASE + a / Pow2(32 - b)
  {
    hide BitOr, Pow2;
    if b == 32 {
      WholeTurn(a);
    } else {
      Factors(b);
      Parts(a, Pow2(b), Pow2(32 - b));
      JoinUp(Right(a, 32 - b), a, b);
      OrCommutes(Left(a, b), Right(a, 32 - b));
    }
  }

  lemma WholeTurn(a: Word)
    ensures Left(a, 32) == 0 && Right(a, 0) == a && BitOr(0, a) == a
    ensures a * Pow2(32) % BASE == 0 && a / Pow2(0) == a
  {
    Pow2Words();
    DivUnique(a * BASE, BASE, a, 0);
  }

  lemma {:induction false} OrBound(a: nat, b: nat, n: nat)
    requires a < Pow2(n) && b < Pow2(n)
    ensures BitOr(a, b) < Pow2(n)
  {
    if a > 0 && b > 0 { OrBound(a / 2, b / 2, n - 1); }
  }

  /** The one operation of the rounds. */
  function Mix(t: Word, a: Word, b: Word, k: nat): Word
    requires k <= 32
  {
    XorWord(t, Rotate(AddWord(a, b), k))
  }

  /** The words of section 3 of RFC 7914: the sum of two words modulo 2^32, rotated to the left, and its bits
      where they differ from those of the third. */
  lemma MixBit(t: Word, a: Word, b: Word, k: nat, i: nat)
    requires k <= 32
    ensures
      var sum: int := (a + b) % 0x1_0000_0000;
      var rotated := sum * Pow2(k) % 0x1_0000_0000 + sum / Pow2(32 - k);
      Bit(Mix(t, a, b, k), i) <==> Bit(t, i) != Bit(rotated, i)
  {
    RotateIs(AddWord(a, b), k);
    XorBit(t, Rotate(AddWord(a, b), k), i);
  }

  function QuarterRound(a: Word, b: Word, c: Word, d: Word): (Word, Word, Word, Word) {
    var b' := Mix(b, a, d, 7);
    var c' := Mix(c, b', a, 9);
    var d' := Mix(d, c', b', 13);
    var a' := Mix(a, d', c', 18);
    (a', b', c', d')
  }

  type Salsa = s: seq<Word> | |s| == 16 witness ZERO_SALSA
  const ZERO_SALSA: seq<Word> := [0, 0, 0, 0, 0, 0, 0, 0, 0, 0, 0, 0, 0, 0, 0, 0]

  /** Each column of the square, down from its diagonal. */
  function ColumnRound(x: Salsa): Salsa {
    var (y00, y04, y08, y12) := QuarterRound(x[0], x[4], x[8], x[12]);
    var (y05, y09, y13, y01) := QuarterRound(x[5], x[9], x[13], x[1]);
    var (y10, y14, y02, y06) := QuarterRound(x[10], x[14], x[2], x[6]);
    var (y15, y03, y07, y11) := QuarterRound(x[15], x[3], x[7], x[11]);
    [y00, y01, y02, y03, y04, y05, y06, y07, y08, y09, y10, y11, y12, y13, y14, y15]
  }

  /** Each row of the square, right from its diagonal. */
  function RowRound(x: Salsa): Salsa {
    var (y00, y01, y02, y03) := QuarterRound(x[0], x[1], x[2], x[3]);
    var (y05, y06, y07, y04) := QuarterRound(x[5], x[6], x[7], x[4]);
    var (y10, y11, y08, y09) := QuarterRound(x[10], x[11], x[8], x[9]);
    var (y15, y12, y13, y14) := QuarterRound(x[15], x[12], x[13], x[14]);
    [y00, y01, y02, y03, y04, y05, y06, y07, y08, y09, y10, y11, y12, y13, y14, y15]
  }

  function DoubleRounds(x: Salsa, n: nat): Salsa {
    if n == 0 then x else RowRound(ColumnRound(DoubleRounds(x, n - 1)))
  }

  function XorWords(a: seq<Word>, b: seq<Word>): (r: seq<Word>)
    requires |a| == |b|
    ensures |r| == |a|
  {
    seq(|a|, i requires 0 <= i < |a| => XorWord(a[i], b[i]))
  }

  function AddWords(a: seq<Word>, b: seq<Word>): (r: seq<Word>)
    requires |a| == |b|
    ensures |r| == |a|
  {
    seq(|a|, i requires 0 <= i < |a| => AddWord(a[i], b[i]))
  }

  lemma WordsCombined(a: seq<Word>, b: seq<Word>, i: nat, k: nat)
    requires i < |a| == |b|
    ensures Bit(XorWords(a, b)[i], k) <==> Bit(a[i], k) != Bit(b[i], k)
    ensures AddWords(a, b)[i] as int == (a[i] as int + b[i] as int) % 0x1_0000_0000
  {
    XorBit(a[i], b[i], k);
  }

  /** The core: eight rounds, added to where they started. */
  function Salsa208(x: Salsa): Salsa { AddWords(DoubleRounds(x, 4), x) }

  // ---- Block mix and the table ----

  type Block = s: seq<Word> | |s| == 32 witness ZERO_BLOCK
  const ZERO_BLOCK: seq<Word> := ZERO_SALSA + ZERO_SALSA

  function BlockMix(b: Block): Block {
    var y0: Salsa := Salsa208(XorWords(b[16..], b[..16]));
    var y1: Salsa := Salsa208(XorWords(y0, b[16..]));
    y0 + y1
  }

  /** The last 64 bytes as a number, the least significant first. */
  function Integerify(b: Block): nat { Val(b[16..]) }

  function Mixed(b: Block, n: nat): Block { if n == 0 then b else BlockMix(Mixed(b, n - 1)) }

  /** Mixing on, each time with the table entry the block itself picks. */
  function Folded(b: Block, x: Block, n: nat): Block {
    if n == 0 then x
    else
      var x' := Folded(b, x, n - 1);
      BlockMix(XorWords(x', Mixed(b, Integerify(x') % N)))
  }

  function ROMix(b: Block): Block { Folded(b, Mixed(b, N), N) }

  function WordsOf(bytes: seq<Byte>): Block
    requires |bytes| == 128
  {
    seq(32, i requires 0 <= i < 32 => WordAt(bytes, i))
  }

  /** The whole function, for 32 bytes of output. */
  function ScryptKey(h: Hash, p: seq<Byte>, s: seq<Byte>): seq<Byte> {
    DerivedKey(h, p, Memory(ROMix(WordsOf(DerivedKey(h, p, s, 1, 128)))), 1, 32)
  }

  // ---- The code ----

  /** The rounds in the order of the code: the four columns side by side, then the four rows. */
  method DoubleRound(x: Salsa) returns (y: Salsa)
    ensures y == RowRound(ColumnRound(x))
  {
    hide Mix;
    var x00, x01, x02, x03, x04, x05, x06, x07 := x[0], x[1], x[2], x[3], x[4], x[5], x[6], x[7];
    var x08, x09, x10, x11, x12, x13, x14, x15 := x[8], x[9], x[10], x[11], x[12], x[13], x[14], x[15];

    x04 := Mix(x04, x00, x12, 7); x09 := Mix(x09, x05, x01, 7);
    x14 := Mix(x14, x10, x06, 7); x03 := Mix(x03, x15, x11, 7);

    x08 := Mix(x08, x04, x00, 9); x13 := Mix(x13, x09, x05, 9);
    x02 := Mix(x02, x14, x10, 9); x07 := Mix(x07, x03, x15, 9);

    x12 := Mix(x12, x08, x04, 13); x01 := Mix(x01, x13, x09, 13);
    x06 := Mix(x06, x02, x14, 13); x11 := Mix(x11, x07, x03, 13);

    x00 := Mix(x00, x12, x08, 18); x05 := Mix(x05, x01, x13, 18);
    x10 := Mix(x10, x06, x02, 18); x15 := Mix(x15, x11, x07, 18);
    ghost var column: Salsa := [x00, x01, x02, x03, x04, x05, x06, x07, x08, x09, x10, x11, x12, x13, x14, x15];
    assert column == ColumnRound(x);

    x01 := Mix(x01, x00, x03, 7); x06 := Mix(x06, x05, x04, 7);
    x11 := Mix(x11, x10, x09, 7); x12 := Mix(x12, x15, x14, 7);

    x02 := Mix(x02, x01, x00, 9); x07 := Mix(x07, x06, x05, 9);
    x08 := Mix(x08, x11, x10, 9); x13 := Mix(x13, x12, x15, 9);

    x03 := Mix(x03, x02, x01, 13); x04 := Mix(x04, x07, x06, 13);
    x09 := Mix(x09, x08, x11, 13); x14 := Mix(x14, x13, x12, 13);

    x00 := Mix(x00, x03, x02, 18); x05 := Mix(x05, x04, x07, 18);
    x10 := Mix(x10, x09, x08, 18); x15 := Mix(x15, x14, x13, 18);
    y := [x00, x01, x02, x03, x04, x05, x06, x07, x08, x09, x10, x11, x12, x13, x14, x15];
    assert y == RowRound(column);
  }

  /** Sixteen words of `x` combined in place with sixteen others and put through the core. */
  method XorSalsa8(x: array<Word>, b: nat, bx: nat)
    requires x.Length == 32 && ((b == 0 && bx == 16) || (b == 16 && bx == 0))
    modifies x
    ensures x[b..b + 16] == Salsa208(XorWords(old(x[b..b + 16]), old(x[bx..bx + 16])))
    ensures x[bx..bx + 16] == old(x[bx..bx + 16])
  {
    hide XorWord, AddWord, Salsa208, DoubleRounds;
    var input := XorHalf(x, b, bx);
    var mixed := Rounds(input);
    AddHalf(x, b, bx, input, mixed);
    AddWordsCommutes(input, mixed);
    SalsaIs(input);
  }

  method XorHalf(x: array<Word>, b: nat, bx: nat) returns (input: Salsa)
    requires x.Length == 32 && ((b == 0 && bx == 16) || (b == 16 && bx == 0))
    modifies x
    ensures x[b..b + 16] == input == XorWords(old(x[b..b + 16]), old(x[bx..bx + 16]))
    ensures x[bx..bx + 16] == old(x[bx..bx + 16])
  {
    hide XorWord;
    ghost var start, other := x[b..b + 16], x[bx..bx + 16];
    for k := 0 to 16
      invariant x[bx..bx + 16] == other
      invariant forall m :: 0 <= m < 16 ==> x[b..b + 16][m] == if m < k then XorWord(start[m], other[m]) else start[m]
    {
      assert x[b + k] == x[b..b + 16][k] && x[bx + k] == x[bx..bx + 16][k];
      x[b + k] := XorWord(x[b + k], x[bx + k]);
    }
    var all: Block := x[..];
    input := all[b..b + 16];
    assert input == x[b..b + 16];
  }

  method AddHalf(x: array<Word>, b: nat, bx: nat, ghost input: Salsa, mixed: Salsa)
    requires x.Length == 32 && ((b == 0 && bx == 16) || (b == 16 && bx == 0)) && x[b..b + 16] == input
    modifies x
    ensures x[b..b + 16] == AddWords(input, mixed)
    ensures x[bx..bx + 16] == old(x[bx..bx + 16])
  {
    hide AddWord;
    ghost var other := x[bx..bx + 16];
    for k := 0 to 16
      invariant x[bx..bx + 16] == other
      invariant forall m :: 0 <= m < 16 ==> x[b..b + 16][m] == if m < k then AddWord(input[m], mixed[m]) else input[m]
    {
      assert x[b + k] == x[b..b + 16][k];
      x[b + k] := AddWord(x[b + k], mixed[k]);
    }
  }

  lemma SalsaIs(input: Salsa)
    ensures Salsa208(input) == AddWords(DoubleRounds(input, 4), input)
  {
  }

  method Rounds(input: Salsa) returns (x: Salsa)
    ensures x == DoubleRounds(input, 4)
  {
    x := input;
    for i := 0 to 4
      invariant x == DoubleRounds(input, i)
    {
      x := DoubleRound(x);
    }
  }

  lemma AddWordsCommutes(input: Salsa, mixed: Salsa)
    ensures AddWords(input, mixed) == AddWords(mixed, input)
  {
  }

  lemma XorWordsCommutes(a: seq<Word>, b: seq<Word>)
    requires |a| == |b|
    ensures XorWords(a, b) == XorWords(b, a)
  {
    forall i | 0 <= i < |a| ensures XorWords(a, b)[i] == XorWords(b, a)[i] { XorCommutes(a[i], b[i]); }
  }

  /** Two calls of the in-place core are one mix of the block. */
  method MixBlock(x: array<Word>)
    requires x.Length == 32
    modifies x
    ensures x[..] == BlockMix(old(x[..]))
  {
    hide XorWords, Salsa208;
    ghost var b := x[..];
    assert x[0..16] == b[..16] && x[16..32] == b[16..];
    XorSalsa8(x, 0, 16);
    ghost var y0 := x[0..16];
    XorWordsCommutes(b[..16], b[16..]);
    XorSalsa8(x, 16, 0);
    XorWordsCommutes(b[16..], y0);
    assert x[..] == x[0..16] + x[16..32];
  }

  /** The index the last half of a block picks is its first word's low bits. */
  lemma PicksEntry(x: Block)
    ensures Integerify(x) % N == x[16] % N
  {
    var s := x[16..];
    ValSplit(s, 1);
    assert ValTo(s, 1) == ValTo(s, 0) + s[0] * P(0);
    assert P(1) == BASE * P(0) && P(0) == 1;
    LowBitsOf(s[0], Above(s, 1));
  }

  lemma LowBitsOf(w: nat, above: nat)
    ensures (w + above * BASE) % N == w % N
  {
    assert w + above * BASE == w + above * 0x40_0000 * N;
    DivAdd(w, above * 0x40_0000, N);
  }

  lemma MixedNext(b: Block, i: nat)
    ensures Mixed(b, i + 1) == BlockMix(Mixed(b, i))
  {
  }

  /** Fills the table with the block and its successive mixes. */
  method FillTable(x: array<Word>, v: array<Word>)
    requires x.Length == 32 && v.Length == 32 * N && x != v
    modifies x, v
    ensures x[..] == Mixed(old(x[..]), N)
    ensures forall m :: 0 <= m < N ==> v[32 * m..32 * m + 32] == Mixed(old(x[..]), m)
  {
    hide BlockMix;
    ghost var b := x[..];
    for i := 0 to N
      invariant x[..] == Mixed(b, i)
      invariant forall m :: 0 <= m < i ==> v[32 * m..32 * m + 32] == Mixed(b, m)
    {
      ghost var before, now: Block := v[..], x[..];
      forall k | 0 <= k < 32 { v[32 * i + k] := x[k]; }
      assert x[..] == now && v[32 * i..32 * i + 32] == now;
      forall m | 0 <= m < i ensures v[32 * m..32 * m + 32] == Mixed(b, m) {
        assert v[32 * m..32 * m + 32] == before[32 * m..32 * m + 32];
      }
      MixBlock(x);
      MixedNext(b, i);
    }
  }

  /** Combines a table entry into the block. */
  method XorEntry(x: array<Word>, v: array<Word>, j: nat)
    requires x.Length == 32 && j + 32 <= v.Length && x != v
    modifies x
    ensures x[..] == XorWords(old(x[..]), v[j..j + 32])
  {
    hide XorWord;
    ghost var before: Block := x[..];
    for k := 0 to 32
      invariant forall m :: 0 <= m < 32 ==> x[m] == if m < k then XorWord(before[m], v[j + m]) else before[m]
    {
      x[k] := XorWord(x[k], v[j + k]);
    }
    assert x[..] == XorWords(before, v[j..j + 32]);
  }

  /** Folds the table back in; every entry picked is inside it. */
  method FoldTable(x: array<Word>, v: array<Word>, ghost b: Block)
    requires x.Length == 32 && v.Length == 32 * N && x != v
    requires forall m :: 0 <= m < N ==> v[32 * m..32 * m + 32] == Mixed(b, m)
    modifies x
    ensures x[..] == Folded(b, old(x[..]), N)
  {
    hide BlockMix, XorWord, Mixed, Integerify;
    ghost var start: Block := x[..];
    for i := 0 to N
      invariant x[..] == Folded(b, start, i)
    {
      PicksEntry(x[..]);
      XorEntry(x, v, 32 * (x[16] % N));
      MixBlock(x);
    }
  }

  method ScryptCore(x: array<Word>, v: array<Word>)
    requires x.Length == 32 && v.Length == 32 * N && x != v
    modifies x, v
    ensures x[..] == ROMix(old(x[..]))
  {
    ghost var b: Block := x[..];
    FillTable(x, v);
    FoldTable(x, v, b);
  }

  method ScryptHash(h: Hash, data: seq<Byte>, salt: seq<Byte>, v: array<Word>) returns (result: seq<Byte>)
    requires v.Length == 32 * N
    modifies v
    ensures result == ScryptKey(h, data, salt)
  {
    hide DerivedKey, ROMix, WordsOf, Memory;
    var b := DeriveBytes(h, data, salt, 128);
    var x := new Word[32](i => 0);
    LoadWords(x, b);
    ScryptCore(x, v);
    result := DeriveBytes(h, data, Memory(x[..]), 32);
  }

  /** One pass of the key derivation into a buffer of its own. */
  method DeriveBytes(h: Hash, p: seq<Byte>, s: seq<Byte>, n: nat) returns (r: seq<Byte>)
    requires n <= 128
    ensures r == DerivedKey(h, p, s, 1, n)
  {
    hide DerivedKey;
    var buf := new Byte[n](i => 0);
    Derive(h, p, s, 1, buf, n);
    assert buf[..n] == buf[..];
    r := buf[..];
  }

  method LoadWords(x: array<Word>, bytes: seq<Byte>)
    requires x.Length == 32 && |bytes| == 128
    modifies x
    ensures x[..] == WordsOf(bytes)
  {
    var words := WordsOf(bytes);
    forall k | 0 <= k < 32 { x[k] := words[k]; }
  }

  /** The input is its own salt. */
  method ScryptNoSalt(h: Hash, input: seq<Byte>, v: array<Word>) returns (result: seq<Byte>)
    requires v.Length == 32 * N
    modifies v
    ensures result == ScryptKey(h, input, input)
  {
    result := ScryptHash(h, input, input, v);
  }
}

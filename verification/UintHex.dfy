/** Fixed-width integers as hexadecimal text, through their bytes in memory. */
module UintHex {
  import opened Bits
  import opened Bytes
  import opened Uint

  // ---- Words as bytes ----

  /** The words as they lie in memory, each with its low byte first. */
  function Memory(s: seq<Word>): (r: seq<Byte>)
    ensures |r| == 4 * |s|
  {
    if s == [] then [] else Memory(s[..|s| - 1]) + ToLE(s[|s| - 1], 4)
  }

  lemma {:induction false} FromLEAppend(a: seq<Byte>, b: seq<Byte>)
    ensures FromLE(a + b) == FromLE(a) + Pow256(|a|) * FromLE(b)
  {
    if a == [] {
      assert a + b == b;
    } else {
      FromLEAppend(a[1..], b);
      assert (a + b)[1..] == a[1..] + b;
      Widen(FromLE(a[1..]), Pow256(|a| - 1), FromLE(b));
    }
  }

  lemma Widen(x: nat, p: nat, y: nat)
    ensures 0x100 * (x + p * y) == 0x100 * x + (0x100 * p) * y
  {
  }

  lemma {:induction false} WordBytes(n: nat)
    ensures Pow256(4 * n) == P(n)
  {
    if n > 0 {
      WordBytes(n - 1);
      var m := 4 * (n - 1);
      assert Pow256(m + 2) == 0x100 * (0x100 * Pow256(m));
      assert Pow256(m + 4) == 0x100 * (0x100 * Pow256(m + 2));
    }
  }

  lemma Commute(a: int, b: int)
    ensures a * b == b * a
  {
  }

  /** The bytes in memory stand for the same number as the words. */
  lemma {:induction false} MemoryValue(s: seq<Word>)
    ensures FromLE(Memory(s)) == Val(s)
  {
    if s != [] {
      var n := |s| - 1;
      MemoryValue(s[..n]);
      FromLEAppend(Memory(s[..n]), ToLE(s[n], 4));
      Pow256Words();
      FromToLE(s[n], 4);
      WordBytes(n);
      ValPrefix(s, s[..n], n);
      Commute(P(n), s[n]);
    }
  }

  /** The word that four bytes make up, at a place in memory. */
  function WordAt(mem: seq<Byte>, i: nat): Word
    requires 4 * i + 4 <= |mem|
  {
    Pow256Words();
    FromLE(mem[4 * i..4 * i + 4])
  }

  lemma {:induction false} MemoryOf(s: seq<Word>, mem: seq<Byte>)
    requires |mem| == 4 * |s| && forall i :: 0 <= i < |s| ==> s[i] == WordAt(mem, i)
    ensures Memory(s) == mem
  {
    if s != [] {
      var n := |s| - 1;
      forall i | 0 <= i < n ensures s[..n][i] == WordAt(mem[..4 * n], i) { WordAtPrefix(mem, n, i); }
      MemoryOf(s[..n], mem[..4 * n]);
      WordBack(mem, n);
      hide WordAt, ToLE;
      assert mem == mem[..4 * n] + mem[4 * n..4 * n + 4];
    }
  }

  lemma WordAtPrefix(mem: seq<Byte>, n: nat, i: nat)
    requires i < n && 4 * n <= |mem|
    ensures WordAt(mem[..4 * n], i) == WordAt(mem, i)
  {
    assert mem[..4 * n][4 * i..4 * i + 4] == mem[4 * i..4 * i + 4];
  }

  lemma WordBack(mem: seq<Byte>, n: nat)
    requires 4 * n + 4 <= |mem|
    ensures ToLE(WordAt(mem, n), 4) == mem[4 * n..4 * n + 4]
  {
    ToFromLE(mem[4 * n..4 * n + 4]);
  }

  // ---- Digits ----

  /** The value of a hexadecimal digit, and zero for anything else. */
  function Digit(c: char): (r: nat)
    ensures r < 16
  {
    if '0' <= c <= '9' then c as int - '0' as int
    else if 'a' <= c <= 'f' then c as int - 'a' as int + 10
    else if 'A' <= c <= 'F' then c as int - 'A' as int + 10
    else 0
  }

  /** The sixteen digits, in either case, and no other character has a value. */
  lemma DigitIs(d: nat)
    requires d < 16
    ensures Digit("0123456789abcdef"[d]) == Digit("0123456789ABCDEF"[d]) == d
    ensures IsHex("0123456789abcdef"[d]) && IsHex("0123456789ABCDEF"[d])
  {
  }

  lemma DigitsAre(c: char)
    ensures IsHex(c) <==> c in "0123456789abcdef" || c in "0123456789ABCDEF"
  {
    var low, high := "0123456789abcdef", "0123456789ABCDEF";
    if IsHex(c) {
      if c <= '9' { assert low[c as int - '0' as int] == c; }
      else if c <= 'F' { assert high[c as int - 'A' as int + 10] == c; }
      else { assert low[c as int - 'a' as int + 10] == c; }
    }
  }

  predicate IsHex(c: char) { Digit(c) != 0 || c == '0' }

  predicate IsLowerHex(c: char) { '0' <= c <= '9' || 'a' <= c <= 'f' }

  predicate IsSpace(c: char) { c == ' ' || '\t' <= c <= '\r' }

  function HexChar(d: nat): (c: char)
    requires d < 16
    ensures Digit(c) == d && IsLowerHex(c)
  {
    if d < 10 then (d + '0' as int) as char else (d - 10 + 'a' as int) as char
  }

  /** What a string of digits stands for, the most significant first. */
  function HexValue(s: string): nat {
    if s == "" then 0 else 16 * HexValue(s[..|s| - 1]) + Digit(s[|s| - 1])
  }

  /** The text as the parser takes it: past the spaces and a 0x. */
  function SkipSpaces(s: string): string { if s != "" && IsSpace(s[0]) then SkipSpaces(s[1..]) else s }

  function Skip0x(s: string): string {
    if |s| >= 2 && s[0] == '0' && (s[1] == 'x' || s[1] == 'X') then s[2..] else s
  }

  function Digits(s: string): string { if s != "" && IsHex(s[0]) then [s[0]] + Digits(s[1..]) else "" }

  function Parsed(s: string): nat { HexValue(Digits(Skip0x(SkipSpaces(s)))) }

  /** What a text stands for: after spaces and tabs, line ends and page ends, and after a 0x, the digits up
      to the first other character. */
  lemma {:induction false} ParsedText(spaces: string, prefix: string, digits: string, rest: string)
    requires forall i :: 0 <= i < |spaces| ==> spaces[i] in " \t\n\U{b}\U{c}\r"
    requires prefix == "0x" || prefix == "0X" || (prefix == "" && !(digits == "0" && rest != "" && rest[0] in "xX"))
    requires (forall i :: 0 <= i < |digits| ==> IsHex(digits[i])) && (rest == "" || !IsHex(rest[0]))
    requires prefix != "" || digits != ""
    ensures Parsed(spaces + prefix + digits + rest) == HexValue(digits)
  {
    var text := prefix + digits + rest;
    assert !IsSpace(text[0]);
    assert spaces + prefix + digits + rest == spaces + text;
    SpacesSkipped(spaces, text);
    assert Skip0x(text) == digits + rest;
    DigitsTaken(digits, rest);
  }

  lemma {:induction false} SpacesSkipped(spaces: string, text: string)
    requires forall i :: 0 <= i < |spaces| ==> spaces[i] in " \t\n\U{b}\U{c}\r"
    requires text == "" || !IsSpace(text[0])
    ensures SkipSpaces(spaces + text) == text
  {
    if spaces == "" {
      assert spaces + text == text;
    } else {
      SpacesSkipped(spaces[1..], text);
      assert (spaces + text)[1..] == spaces[1..] + text;
    }
  }

  lemma {:induction false} DigitsTaken(digits: string, rest: string)
    requires (forall i :: 0 <= i < |digits| ==> IsHex(digits[i])) && (rest == "" || !IsHex(rest[0]))
    ensures Digits(digits + rest) == digits
  {
    if digits == "" {
      assert digits + rest == rest;
    } else {
      DigitsTaken(digits[1..], rest);
      assert (digits + rest)[1..] == digits[1..] + rest;
    }
  }

  // ---- Text out ----

  method GetHex(x: BaseUint) returns (psz: string)
    requires x.Valid()
    ensures |psz| == 8 * x.pn.Length && (forall i :: 0 <= i < |psz| ==> IsLowerHex(psz[i]))
    ensures HexValue(psz) == x.Value()
  {
    psz := "";
    var mem := Memory(x.pn[..]);
    var size := |mem|;
    assert mem[size..] == [];
    for i := 0 to size
      invariant |psz| == 2 * i && forall j :: 0 <= j < |psz| ==> IsLowerHex(psz[j])
      invariant HexValue(psz) == FromLE(mem[size - i..])
    {
      var b := mem[size - i - 1];
      HexAppend(psz, b);
      psz := psz + [HexChar(b / 16), HexChar(b % 16)];
      assert mem[size - i - 1..] == [b] + mem[size - i..];
    }
    assert mem[0..] == mem;
    MemoryValue(x.pn[..]);
  }

  lemma HexAppend(psz: string, b: Byte)
    ensures HexValue(psz + [HexChar(b / 16), HexChar(b % 16)]) == 0x100 * HexValue(psz) + b
  {
    var one := psz + [HexChar(b / 16)];
    var two := psz + [HexChar(b / 16), HexChar(b % 16)];
    assert one[..|psz|] == psz && two[..|psz| + 1] == one;
  }

  // ---- Text in ----

  /** The digits of the text, past spaces and a 0x. */
  method ScanDigits(psz: string) returns (digits: string)
    ensures digits == Digits(Skip0x(SkipSpaces(psz)))
  {
    var text := psz;
    while text != "" && IsSpace(text[0])
      invariant SkipSpaces(text) == SkipSpaces(psz)
      decreases |text|
    {
      text := text[1..];
    }
    text := Skip0x(text);
    var end := 0;
    while end < |text| && IsHex(text[end])
      invariant end <= |text| && text[..end] + Digits(text[end..]) == Digits(text)
    {
      assert text[end..][1..] == text[end + 1..];
      end := end + 1;
    }
    assert Digits(text[end..]) == "";
    assert text[..end] + "" == text[..end];
    digits := text[..end];
  }

  method SetHex(x: BaseUint, psz: string)
    requires x.Valid()
    modifies x.pn
    ensures x.Value() == Parsed(psz) % P(x.pn.Length)
  {
    var digits := ScanDigits(psz);
    var mem := ParseDigits(digits, 4 * x.pn.Length);
    for i := 0 to x.pn.Length
      invariant forall j :: 0 <= j < i ==> x.pn[j] == WordAt(mem, j)
    {
      x.pn[i] := WordAt(mem, i);
    }
    MemoryOf(x.pn[..], mem);
    MemoryValue(x.pn[..]);
    WordBytes(x.pn.Length);
  }

  /** The last two digits of those left, or the last one, as a byte. */
  method ParseByte(digits: string, n0: nat) returns (b: Byte, n: nat)
    requires 0 < n0 <= |digits|
    ensures n < n0 && HexValue(digits[..n0]) == 0x100 * HexValue(digits[..n]) + b
  {
    n := n0 - 1;
    assert digits[..n + 1][..n] == digits[..n];
    b := Digit(digits[n]);
    if n > 0 {
      n := n - 1;
      assert digits[..n + 1][..n] == digits[..n];
      OrDisjoint(b, Digit(digits[n]), 4);
      b := BitOr(b, Digit(digits[n]) * 16);
    } else {
      assert digits[..n] == "";
    }
  }

  lemma NoneParsed(digits: string)
    ensures FromLE([]) + Pow256(0) * HexValue(digits) == HexValue(digits) && HexValue("") == 0
  {
  }

  /** Fills bytes from the last digit back, two digits to a byte, until one or the other runs out. */
  method ParseDigits(digits: string, size: nat) returns (mem: seq<Byte>)
    ensures |mem| == size && FromLE(mem) == HexValue(digits) % Pow256(size)
  {
    hide FromLE, Pow256, HexValue;
    var p := new Byte[size](i => 0);
    var at, n := 0, |digits|;
    NoneParsed(digits);
    assert digits[..n] == digits && p[..0] == [];
    while n > 0 && at < size
      invariant n <= |digits| && at <= size
      invariant FromLE(p[..at]) + Pow256(at) * HexValue(digits[..n]) == HexValue(digits)
      invariant forall j :: at <= j < size ==> p[j] == 0
      decreases n
    {
      ghost var before := p[..at];
      var b: Byte;
      b, n := ParseByte(digits, n);
      p[at] := b;
      assert p[..at + 1] == before + [b];
      TakeByte(before, b, HexValue(digits[..n]));
      at := at + 1;
    }
    mem := p[..];
    Remaining(mem, at);
    if n == 0 { assert digits[..n] == ""; }
    assert n == 0 || p[..at] == mem;
    Finished(FromLE(mem), HexValue(digits), Pow256(size), if n == 0 then 0 else HexValue(digits[..n]));
  }

  lemma TakeByte(before: seq<Byte>, b: Byte, rest: nat)
    ensures FromLE(before + [b]) + Pow256(|before| + 1) * rest == FromLE(before) + Pow256(|before|) * (0x100 * rest + b)
  {
    FromLEAppend(before, [b]);
    assert FromLE([b]) == b;
    Narrow(Pow256(|before|), rest, b);
  }

  lemma Narrow(p: nat, rest: nat, b: nat)
    ensures p * (0x100 * rest + b) == (0x100 * p) * rest + p * b
  {
  }

  lemma {:induction false} Zeros(s: seq<Byte>)
    requires forall j :: 0 <= j < |s| ==> s[j] == 0
    ensures FromLE(s) == 0
  {
    if s != [] { Zeros(s[1..]); }
  }

  lemma Remaining(mem: seq<Byte>, at: nat)
    requires at <= |mem| && forall j :: at <= j < |mem| ==> mem[j] == 0
    ensures FromLE(mem) == FromLE(mem[..at])
  {
    Zeros(mem[at..]);
    FromLEAppend(mem[..at], mem[at..]);
    assert mem == mem[..at] + mem[at..];
  }

  lemma Finished(v: nat, h: nat, m: nat, rest: nat)
    requires v < m && v + m * rest == h
    ensures v == h % m
  {
    ModIs(h, rest, m, v);
  }

  // ---- Round trip ----

  lemma {:induction false} AllDigits(s: string)
    requires forall i :: 0 <= i < |s| ==> IsLowerHex(s[i])
    ensures Digits(s) == s
  {
    if s != "" {
      AllDigits(s[1..]);
      assert s == [s[0]] + s[1..];
    }
  }

  /** Text that was written is taken whole. */
  lemma WrittenIsParsed(s: string)
    requires forall i :: 0 <= i < |s| ==> IsLowerHex(s[i])
    ensures Parsed(s) == HexValue(s)
  {
    AllDigits(s);
    hide HexValue, Digits, Digit, IsHex;
    assert SkipSpaces(s) == s;
    assert Skip0x(s) == s;
  }

  /** Writing a number as text and reading that into another of the same width copies every word. */
  method RoundTrip(x: BaseUint, y: BaseUint)
    requires x.Valid() && y.Valid() && y.pn.Length == x.pn.Length && x.pn != y.pn
    modifies y.pn
    ensures y.pn[..] == x.pn[..]
  {
    var text := GetHex(x);
    SetHex(y, text);
    WrittenIsParsed(text);
    ValBound(x.pn[..], x.pn.Length);
    ModIs(x.Value(), 0, P(x.pn.Length), x.Value());
    ValInjective(x.pn[..], y.pn[..], x.pn.Length);
  }
}

/** Powers of two, the bits of a natural number, and the bitwise or of two of them. */
module Bits {

  function Pow2(n: nat): (r: nat)
    ensures r >= 1
  {
    if n == 0 then 1 else 2 * Pow2(n - 1)
  }

  lemma {:induction false} Pow2Add(m: nat, n: nat)
    ensures Pow2(m + n) == Pow2(m) * Pow2(n)
  {
    if n > 0 { Pow2Add(m, n - 1); }
  }

  lemma {:induction false} Pow2Monotone(m: nat, n: nat)
    requires m <= n
    ensures Pow2(m) <= Pow2(n)
  {
    if m < n { Pow2Monotone(m, n - 1); }
  }

  lemma Pow2Byte()
    ensures Pow2(8) == 0x100
  {
  }

  lemma Pow2Words()
    ensures Pow2(8) == 0x100 && Pow2(16) == 0x1_0000
    ensures Pow2(32) == 0x1_0000_0000 && Pow2(64) == 0x1_0000_0000_0000_0000
  {
    hide Pow2;
    Pow2Byte();
    Pow2Add(8, 8);
    Pow2Add(16, 16);
    Pow2Add(32, 32);
  }

  function Bit(x: nat, k: nat): bool { x / Pow2(k) % 2 == 1 }

  function BitOr(a: nat, b: nat): nat {
    if a == 0 then b else if b == 0 then a
    else 2 * BitOr(a / 2, b / 2) + if a % 2 == 1 || b % 2 == 1 then 1 else 0
  }

  lemma {:induction false} OrCommutes(a: nat, b: nat)
    ensures BitOr(a, b) == BitOr(b, a)
  {
    if a > 0 && b > 0 { OrCommutes(a / 2, b / 2); }
  }

  /** Where no bit is set twice, the bitwise or is the sum. */
  lemma {:induction false} OrDisjoint(low: nat, high: nat, n: nat)
    requires low < Pow2(n)
    ensures BitOr(low, high * Pow2(n)) == low + high * Pow2(n)
    ensures BitOr(high * Pow2(n), low) == low + high * Pow2(n)
  {
    OrCommutes(low, high * Pow2(n));
    if n > 0 && low > 0 && high > 0 {
      OrDisjoint(low / 2, high, n - 1);
      Halve(high, Pow2(n - 1));
    }
  }

  lemma Halve(m: nat, p: nat)
    ensures m * (2 * p) == 2 * (m * p) && m * (2 * p) / 2 == m * p && m * (2 * p) % 2 == 0
  {
  }

  /** The bits of a bitwise or. */
  lemma {:induction false} OrBit(a: nat, b: nat, k: nat)
    ensures Bit(BitOr(a, b), k) <==> Bit(a, k) || Bit(b, k)
  {
    ZeroBit(k);
    if a > 0 && b > 0 {
      HalfBit(a, k);
      HalfBit(b, k);
      HalfBit(BitOr(a, b), k);
      if k > 0 { OrBit(a / 2, b / 2, k - 1); }
    }
  }

  lemma ZeroBit(k: nat)
    ensures !Bit(0, k)
  {
    DivUnique(0, Pow2(k), 0, 0);
  }

  /** The last bit is the parity; the others are those of the half. */
  lemma HalfBit(x: nat, k: nat)
    ensures k == 0 ==> (Bit(x, k) <==> x % 2 == 1)
    ensures k > 0 ==> Bit(x, k) == Bit(x / 2, k - 1)
  {
    if k > 0 { HalfQuotient(x, Pow2(k - 1)); }
  }

  lemma HalfQuotient(x: nat, p: nat)
    requires p > 0
    ensures x / (2 * p) == x / 2 / p
  {
    var h, b := x / 2, x % 2;
    var q, r := h / p, h % p;
    assert h == q * p + r;
    Doubled(q, p, r, b);
    DivUnique(x, 2 * p, q, 2 * r + b);
  }

  lemma Doubled(q: nat, p: nat, r: nat, b: nat)
    ensures 2 * (q * p + r) + b == q * (2 * p) + (2 * r + b)
  {
  }

  // ---- Division by parts ----

  lemma MulAtLeast(d: int, p: int)
    requires d >= 1 && p >= 0
    ensures d * p >= p && -d * p <= -p
  {
  }

  lemma DivUnique(x: int, p: int, q: int, r: int)
    requires p > 0 && x == q * p + r && 0 <= r < p
    ensures x / p == q && x % p == r
  {
    var d := x / p - q;
    assert x == x / p * p + x % p;
    assert d * p == r - x % p;
    if d >= 1 { MulAtLeast(d, p); } else if d <= -1 { MulAtLeast(-d, p); }
  }

  lemma DivAdd(x: int, m: int, p: int)
    requires p > 0
    ensures (x + m * p) / p == x / p + m && (x + m * p) % p == x % p
  {
    assert x + m * p == (x / p + m) * p + x % p;
    DivUnique(x + m * p, p, x / p + m, x % p);
  }

  /** Bits of a number put on top of `n` others. */
  lemma TopBit(low: nat, b: nat, n: nat, k: nat)
    requires low < Pow2(n) && b <= 1
    ensures Bit(low + b * Pow2(n), k) == if k < n then Bit(low, k) else k == n && b == 1
  {
    hide Pow2;
    if k < n {
      PowSplit(k, n);
      Regroup(b, Pow2(n - k - 1), Pow2(k));
      BelowBit(low, b * Pow2(n), b * Pow2(n - k - 1), Pow2(k));
    } else if k == n {
      DivUnique(low + b * Pow2(n), Pow2(n), b, low);
    } else {
      AboveBit(low, b, n, k);
    }
  }

  lemma PowSplit(k: nat, n: nat)
    requires k < n
    ensures Pow2(n) == Pow2(k) * (2 * Pow2(n - k - 1))
  {
    Pow2Add(k, n - k);
  }

  lemma AboveBit(low: nat, b: nat, n: nat, k: nat)
    requires low < Pow2(n) && b <= 1 && n < k
    ensures (low + b * Pow2(n)) / Pow2(k) == 0
  {
    Pow2Monotone(n + 1, k);
    DivUnique(low + b * Pow2(n), Pow2(k), 0, low + b * Pow2(n));
  }

  lemma BelowBit(low: nat, y: nat, h: nat, p: nat)
    requires p > 0 && y == 2 * h * p
    ensures (low + y) / p % 2 == low / p % 2
  {
    DivAdd(low, 2 * h, p);
  }

  lemma Regroup(b: nat, q: nat, p: nat)
    ensures b * (p * (2 * q)) == 2 * (b * q) * p
  {
  }

  // ---- Exclusive or ----

  function BitXor(a: nat, b: nat): nat {
    if a == 0 then b else if b == 0 then a
    else 2 * BitXor(a / 2, b / 2) + if a % 2 != b % 2 then 1 else 0
  }

  /** The bits of an exclusive or. */
  lemma {:induction false} XorBit(a: nat, b: nat, k: nat)
    ensures Bit(BitXor(a, b), k) <==> Bit(a, k) != Bit(b, k)
  {
    ZeroBit(k);
    if a > 0 && b > 0 {
      HalfBit(a, k);
      HalfBit(b, k);
      HalfBit(BitXor(a, b), k);
      if k > 0 { XorBit(a / 2, b / 2, k - 1); }
    }
  }

  lemma {:induction false} XorCommutes(a: nat, b: nat)
    ensures BitXor(a, b) == BitXor(b, a)
  {
    if a > 0 && b > 0 { XorCommutes(a / 2, b / 2); }
  }

  lemma {:induction false} XorBound(a: nat, b: nat, n: nat)
    requires a < Pow2(n) && b < Pow2(n)
    ensures BitXor(a, b) < Pow2(n)
  {
    if a > 0 && b > 0 { XorBound(a / 2, b / 2, n - 1); }
  }
}

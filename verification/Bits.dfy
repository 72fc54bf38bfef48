/** Bits of natural numbers, and C's bitwise operators on them. */
module Bits {
  import opened Arithmetic

  function Pow2(k: nat): (p: nat)
    ensures p >= 1
  {
    if k == 0 then 1 else 2 * Pow2(k - 1)
  }

  /** Bit k of a. */
  predicate Bit(a: nat, k: nat) {
    if k == 0 then a % 2 == 1 else Bit(a / 2, k - 1)
  }

  function Digit(b: bool): nat {
    if b then 1 else 0
  }

  function Or(a: nat, b: nat): nat
    decreases a + b
  {
    if a == 0 && b == 0 then 0 else 2 * Or(a / 2, b / 2) + Digit(a % 2 == 1 || b % 2 == 1)
  }

  function And(a: nat, b: nat): nat
    decreases a + b
  {
    if a == 0 && b == 0 then 0 else 2 * And(a / 2, b / 2) + Digit(a % 2 == 1 && b % 2 == 1)
  }

  function AndNot(a: nat, b: nat): nat
    decreases a + b
  {
    if a == 0 && b == 0 then 0 else 2 * AndNot(a / 2, b / 2) + Digit(a % 2 == 1 && b % 2 == 0)
  }

  function Xor(a: nat, b: nat): nat
    decreases a + b
  {
    if a == 0 && b == 0 then 0 else 2 * Xor(a / 2, b / 2) + Digit(a % 2 != b % 2)
  }

  lemma {:induction false} ZeroBit(k: nat)
    ensures !Bit(0, k)
  {
    if k == 0 {
    } else {
      ZeroBit(k - 1);
    }
  }

  lemma {:induction false} OrBit(a: nat, b: nat, k: nat)
    ensures Bit(Or(a, b), k) <==> Bit(a, k) || Bit(b, k)
    decreases k
  {
    if a == 0 && b == 0 { ZeroBit(k); }
    else if k > 0 { OrBit(a / 2, b / 2, k - 1); }
  }

  lemma {:induction false} AndBit(a: nat, b: nat, k: nat)
    ensures Bit(And(a, b), k) <==> Bit(a, k) && Bit(b, k)
    decreases k
  {
    if a == 0 && b == 0 { ZeroBit(k); }
    else if k > 0 { AndBit(a / 2, b / 2, k - 1); }
  }

  lemma {:induction false} AndNotBit(a: nat, b: nat, k: nat)
    ensures Bit(AndNot(a, b), k) <==> Bit(a, k) && !Bit(b, k)
    decreases k
  {
    if a == 0 && b == 0 { ZeroBit(k); }
    else if k > 0 { AndNotBit(a / 2, b / 2, k - 1); }
  }

  lemma {:induction false} XorBit(a: nat, b: nat, k: nat)
    ensures Bit(Xor(a, b), k) <==> Bit(a, k) != Bit(b, k)
    decreases k
  {
    if a == 0 && b == 0 { ZeroBit(k); }
    else if k > 0 { XorBit(a / 2, b / 2, k - 1); }
  }

  /** 1 << k has bit k and no other. */
  lemma {:induction false} Pow2Bit(k: nat, j: nat)
    ensures Bit(Pow2(k), j) <==> j == k
    decreases k
  {
    if k == 0 {
      if j > 0 { ZeroBit(j - 1); }
    } else if j > 0 {
      Pow2Bit(k - 1, j - 1);
    }
  }

  /** Testing a & (1 << k) tests bit k. */
  lemma {:induction false} AndPow2(a: nat, k: nat)
    ensures And(a, Pow2(k)) == if Bit(a, k) then Pow2(k) else 0
    decreases k
  {
    if k == 0 { AndZero(a / 2); } else { AndPow2(a / 2, k - 1); }
  }

  /** (hi << n) | lo is a sum when lo fits in n bits. */
  lemma {:induction false} OrShifted(hi: nat, lo: nat, n: nat)
    requires lo < Pow2(n)
    ensures Or(hi * Pow2(n), lo) == hi * Pow2(n) + lo
    decreases n
  {
    if n == 0 {
      OrZero(hi);
    } else {
      var m := hi * Pow2(n - 1);
      assert hi * Pow2(n) == 2 * m;
      OrShifted(hi, lo / 2, n - 1);
      OrEven(m, lo);
    }
  }

  lemma OrEven(m: nat, lo: nat)
    ensures Or(2 * m, lo) == 2 * Or(m, lo / 2) + lo % 2
  {
  }

  lemma {:induction false} OrZero(a: nat)
    ensures Or(a, 0) == a
  {
    if a != 0 { OrZero(a / 2); }
  }

  lemma {:induction false} OrBound(a: nat, b: nat, n: nat)
    requires a < Pow2(n) && b < Pow2(n)
    ensures Or(a, b) < Pow2(n)
    decreases n
  {
    if n == 0 {
    } else {
      OrBound(a / 2, b / 2, n - 1);
    }
  }

  lemma {:induction false} AndNotBound(a: nat, b: nat)
    ensures AndNot(a, b) <= a
    decreases a + b
  {
    if a != 0 || b != 0 { AndNotBound(a / 2, b / 2); }
  }

  lemma {:induction false} Pow2Monotone(j: nat, k: nat)
    requires j < k
    ensures 2 * Pow2(j) <= Pow2(k)
    decreases k
  {
    if j < k - 1 { Pow2Monotone(j, k - 1); }
  }

  lemma {:induction false} Pow2Sum(j: nat, k: nat)
    ensures Pow2(j + k) == Pow2(j) * Pow2(k)
    decreases j
  {
    if j == 0 {
      assert Pow2(0) == 1;
    } else {
      Pow2Sum(j - 1, k);
      Pow2Next(j - 1);
      Pow2Next(j - 1 + k);
      Doubled(Pow2(j - 1), Pow2(k));
    }
  }

  lemma Pow2Next(k: nat)
    ensures Pow2(k + 1) == 2 * Pow2(k)
  {
  }

  lemma Pow2Doubled(j: nat, k: nat, v: nat)
    requires k == 2 * j && Pow2(j) == v
    ensures Pow2(k) == v * v
  {
    Pow2Sum(j, j);
  }

  lemma Pow2Of32()
    ensures Pow2(32) == 0x1_0000_0000
  {
    assert Pow2(8) == 256;
    Pow2Doubled(8, 16, 256);
    Pow2Doubled(16, 32, 65536);
  }

  /** Reducing modulo a larger power of two first makes no difference. */
  lemma RemainderOfRemainder(a: nat, n: nat, m: nat)
    requires n <= m
    ensures a % Pow2(m) % Pow2(n) == a % Pow2(n)
  {
    Pow2Sum(n, m - n);
    RemainderOfMultiple(a, Pow2(n), Pow2(m - n));
  }

  /** A number below 2^n has no bit at or above n. */
  lemma {:induction false} HighBitsClear(a: nat, n: nat, k: nat)
    requires a < Pow2(n) && n <= k
    ensures !Bit(a, k)
    decreases k
  {
    if n == 0 { ZeroBit(k); } else { HighBitsClear(a / 2, n - 1, k - 1); }
  }

  /** Masking with 2^n - 1 is the remainder modulo 2^n. */
  lemma {:induction false} MaskIsRemainder(a: nat, n: nat)
    ensures And(a, Pow2(n) - 1) == a % Pow2(n)
    decreases n, a
  {
    if n == 0 {
      AndZero(a);
    } else {
      var m := Pow2(n - 1);
      assert (2 * m - 1) / 2 == m - 1 && (2 * m - 1) % 2 == 1;
      if a != 0 || 2 * m - 1 != 0 {
        MaskIsRemainder(a / 2, n - 1);
        HalfRemainder(a, m);
      }
    }
  }

  lemma {:induction false} AndZero(a: nat)
    ensures And(a, 0) == 0
  {
    if a != 0 { AndZero(a / 2); }
  }

  lemma HalfRemainder(a: nat, m: nat)
    requires m > 0
    ensures a % (2 * m) == 2 * (a / 2 % m) + a % 2
  {
    var q, r := a / 2 / m, a / 2 % m;
    assert a / 2 == q * m + r;
    assert a == q * (2 * m) + (2 * r + a % 2);
    RemainderUnique(a, 2 * m, q, 2 * r + a % 2);
  }

  /** A number is the sum of its low n bits and the rest. */
  lemma {:induction false} BitSplit(lo: nat, hi: nat, n: nat, k: nat)
    requires lo < Pow2(n)
    ensures Bit(lo + Pow2(n) * hi, k) == if k < n then Bit(lo, k) else Bit(hi, k - n)
    decreases k, n
  {
    if n == 0 {
    } else {
      var m := Pow2(n - 1);
      assert Pow2(n) * hi == 2 * (m * hi);
      assert (lo + 2 * (m * hi)) % 2 == lo % 2;
      assert (lo + 2 * (m * hi)) / 2 == lo / 2 + m * hi;
      if k > 0 { BitSplit(lo / 2, hi, n - 1, k - 1); }
    }
  }

  /** Numbers below 2^n with the same n bits are equal. */
  lemma {:induction false} SameBits(a: nat, b: nat, n: nat)
    requires a < Pow2(n) && b < Pow2(n)
    requires forall k :: 0 <= k < n ==> (Bit(a, k) <==> Bit(b, k))
    ensures a == b
    decreases n
  {
    if n == 0 {
    } else {
      assert Bit(a, 0) <==> Bit(b, 0);
      forall k | 0 <= k < n - 1 ensures Bit(a / 2, k) <==> Bit(b / 2, k) {
        assert Bit(a, k + 1) <==> Bit(b, k + 1);
      }
      SameBits(a / 2, b / 2, n - 1);
    }
  }

  /** a modulo 2^n keeps the low n bits. */
  lemma RemainderBits(a: nat, n: nat, k: nat)
    ensures Bit(a % Pow2(n), k) <==> k < n && Bit(a, k)
  {
    var d := Pow2(n);
    var lo, hi := a % d, a / d;
    Division(a, d);
    BitSplit(lo, hi, n, k);
    if k >= n { HighBitsClear(lo, n, k); }
  }

  // ----- Strings of bytes, lowest bit first -----

  predicate IsBytes(s: seq<nat>) {
    forall i :: 0 <= i < |s| ==> s[i] < 256
  }

  predicate ByteBit(s: seq<nat>, k: nat)
    requires k < 8 * |s|
  {
    Bit(s[k / 8], k % 8)
  }

  /** s with bit k switched on by |= (1 << b) or off by &= ~(1 << b). */
  function WithBit(s: seq<nat>, k: nat, on: bool): (r: seq<nat>)
    requires k < 8 * |s|
    ensures |r| == |s|
  {
    var mask := Pow2(k % 8);
    s[k / 8 := if on then Or(s[k / 8], mask) else AndNot(s[k / 8], mask)]
  }

  lemma WithBitExact(s: seq<nat>, k: nat, on: bool)
    requires k < 8 * |s|
    ensures forall j :: 0 <= j < 8 * |s| ==>
              ByteBit(WithBit(s, k, on), j) == if j == k then on else ByteBit(s, j)
    ensures IsBytes(s) ==> IsBytes(WithBit(s, k, on))
  {
    var byte, mask := s[k / 8], Pow2(k % 8);
    forall j | 0 <= j < 8 * |s|
      ensures ByteBit(WithBit(s, k, on), j) == if j == k then on else ByteBit(s, j)
    {
      OrBit(byte, mask, j % 8);
      AndNotBit(byte, mask, j % 8);
      Pow2Bit(k % 8, j % 8);
    }
    AndNotBound(byte, mask);
    Pow2Monotone(k % 8, 8);
    assert Pow2(8) == 256;
    if byte < 256 { OrBound(byte, mask, 8); }
  }

  /** The number whose bytes, lowest first, are s. */
  function LittleEndian(s: seq<nat>): nat {
    if s == [] then 0 else s[0] + 256 * LittleEndian(s[1..])
  }

  lemma {:induction false} LittleEndianBits(s: seq<nat>, k: nat)
    requires IsBytes(s) && k < 8 * |s|
    ensures ByteBit(s, k) <==> Bit(LittleEndian(s), k)
  {
    assert Pow2(8) == 256;
    BitSplit(s[0], LittleEndian(s[1..]), 8, k);
    if k >= 8 {
      LittleEndianBits(s[1..], k - 8);
      assert ByteBit(s[1..], k - 8) <==> ByteBit(s, k);
    }
  }

  lemma {:induction false} LittleEndianBound(s: seq<nat>)
    requires IsBytes(s)
    ensures LittleEndian(s) < Pow2(8 * |s|)
  {
    if s == [] {
    } else {
      LittleEndianBound(s[1..]);
      Pow2Sum(8, 8 * |s| - 8);
      assert Pow2(8) == 256;
    }
  }
}

/** Single bits of a byte, and the bitwise operators built from them. */
module Bits {
  import opened Bytes

  /** Bit i of b, counting from the least significant: (b >> i) & 1. */
  predicate Bit(b: nat, i: nat) {
    if i == 0 then b % 2 == 1 else Bit(b / 2, i - 1)
  }

  /** b | (1 << i). */
  function SetBit(b: nat, i: nat): nat {
    if i == 0 then b / 2 * 2 + 1 else 2 * SetBit(b / 2, i - 1) + b % 2
  }

  /** a ^ b on the n low bits. */
  function XorBits(a: nat, b: nat, n: nat): nat {
    if n == 0 then 0 else 2 * XorBits(a / 2, b / 2, n - 1) + (if a % 2 == b % 2 then 0 else 1)
  }

  function Pow2(n: nat): (p: nat)
    ensures p > 0
  {
    if n == 0 then 1 else 2 * Pow2(n - 1)
  }

  lemma {:induction false} SetBitBits(b: nat, i: nat, k: nat)
    ensures Bit(SetBit(b, i), k) <==> k == i || Bit(b, k)
  {
    if i > 0 && k > 0 {
      SetBitBits(b / 2, i - 1, k - 1);
      assert SetBit(b, i) / 2 == SetBit(b / 2, i - 1);
    }
  }

  lemma {:induction false} SetBitBound(b: nat, i: nat, n: nat)
    requires i < n && b < Pow2(n)
    ensures SetBit(b, i) < Pow2(n)
  {
    if i > 0 { SetBitBound(b / 2, i - 1, n - 1); }
  }

  lemma {:induction false} XorBitsBits(a: nat, b: nat, n: nat, k: nat)
    ensures XorBits(a, b, n) < Pow2(n)
    ensures k < n ==> (Bit(XorBits(a, b, n), k) <==> Bit(a, k) != Bit(b, k))
  {
    if n > 0 {
      XorBitsBits(a / 2, b / 2, n - 1, if k > 0 then k - 1 else 0);
      assert XorBits(a, b, n) / 2 == XorBits(a / 2, b / 2, n - 1);
    }
  }

  /** Numbers of n bits are equal when their bits are. */
  lemma {:induction false} BitsDetermine(a: nat, b: nat, n: nat)
    requires a < Pow2(n) && b < Pow2(n)
    requires forall k :: 0 <= k < n ==> (Bit(a, k) <==> Bit(b, k))
    ensures a == b
  {
    if n > 0 {
      assert Bit(a, 0) <==> Bit(b, 0);
      forall k | 0 <= k < n - 1
        ensures Bit(a / 2, k) <==> Bit(b / 2, k)
      {
        assert Bit(a, k + 1) <==> Bit(b, k + 1);
      }
      BitsDetermine(a / 2, b / 2, n - 1);
    }
  }

  /** Bit i is the i-th binary digit. */
  lemma {:induction false} BitIsDigit(b: nat, i: nat)
    ensures Bit(b, i) <==> b / Pow2(i) % 2 == 1
  {
    if i > 0 {
      BitIsDigit(b / 2, i - 1);
      DivideTwice(b, Pow2(i - 1));
    }
  }

  lemma DivideTwice(b: nat, p: nat)
    requires p > 0
    ensures b / 2 / p == b / (2 * p)
  {
    var q, r := b / 2 / p, b / 2 % p;
    assert b / 2 == q * p + r;
    assert b == 2 * (q * p) + (2 * r + b % 2) == q * (2 * p) + (2 * r + b % 2);
    QuotientUnique(b, 2 * p, q, 2 * r + b % 2);
  }

  lemma QuotientUnique(b: nat, m: nat, q: nat, r: nat)
    requires r < m && b == q * m + r
    ensures b / m == q
  {
    var d := b / m - q;
    assert b == (b / m) * m + b % m;
    assert d * m == r - b % m by { assert d * m == (b / m) * m - q * m; }
    if d >= 1 { TimesMonotone(1, d, m); } else if d <= -1 { TimesMonotone(d, -1, m); }
  }

  function Xor(a: byte, b: byte): (r: byte)
    ensures forall k :: 0 <= k < 8 ==> (Bit(r, k) <==> Bit(a, k) != Bit(b, k))
  {
    assert XorBits(a, b, 8) < 256 by { XorBitsBits(a, b, 8, 0); }
    assert forall k :: 0 <= k < 8 ==> (Bit(XorBits(a, b, 8), k) <==> Bit(a, k) != Bit(b, k)) by {
      forall k | 0 <= k < 8
        ensures Bit(XorBits(a, b, 8), k) <==> Bit(a, k) != Bit(b, k)
      {
        XorBitsBits(a, b, 8, k);
      }
    }
    XorBits(a, b, 8)
  }

  lemma XorInjective(a: byte, b: byte, t: byte)
    requires Xor(a, t) == Xor(b, t)
    ensures a == b
  {
    assert Pow2(8) == 256;
    forall k | 0 <= k < 8
      ensures Bit(a, k) <==> Bit(b, k)
    {
      assert Bit(Xor(a, t), k) <==> Bit(Xor(b, t), k);
    }
    BitsDetermine(a, b, 8);
  }
}

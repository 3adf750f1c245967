/** The distance between two ids, read as a number, is the XOR of the two ids read as numbers. */
module XorDistance {
  import opened Bytes
  import opened Bits
  import opened RoutingTable

  // ----- XOR of numbers, digit group by digit group -----

  /** The XOR of two numbers with k low bits each split off. */
  lemma {:induction false} XorBitsSplit(a: nat, b: nat, n: nat, x: nat, y: nat, k: nat)
    requires x < Pow2(k) && y < Pow2(k)
    ensures XorBits(Pow2(k) * a + x, Pow2(k) * b + y, n + k) == Pow2(k) * XorBits(a, b, n) + XorBits(x, y, k)
  {
    if k > 0 {
      var p, rest := Pow2(k - 1), XorBits(a, b, n);
      XorBitsSplit(a, b, n, x / 2, y / 2, k - 1);
      Doubled(p, a);
      Doubled(p, b);
      Doubled(p, rest);
      assert (Pow2(k) * a + x) / 2 == p * a + x / 2 && (Pow2(k) * a + x) % 2 == x % 2;
      assert (Pow2(k) * b + y) / 2 == p * b + y / 2 && (Pow2(k) * b + y) % 2 == y % 2;
    }
  }

  lemma Doubled(p: nat, a: nat)
    ensures (2 * p) * a == 2 * (p * a)
  {
  }

  lemma XorNextByte(a: nat, b: nat, n: nat, x: byte, y: byte)
    ensures XorBits(256 * a + x, 256 * b + y, n + 8) == 256 * XorBits(a, b, n) + Xor(x, y)
  {
    assert Pow2(8) == 256;
    assert Xor(x, y) == XorBits(x, y, 8);
    hide XorBits, Pow2, Xor;
    XorBitsSplit(a, b, n, x, y, 8);
  }

  lemma BigEndianLast(s: bytes)
    requires |s| > 0
    ensures BigEndian(s) == 256 * BigEndian(s[..|s| - 1]) + s[|s| - 1]
  {
    assert s == s[..|s| - 1] + [s[|s| - 1]];
    BigEndianSnoc(s[..|s| - 1], s[|s| - 1]);
  }

  /** XOR byte by byte is XOR of the numbers. */
  lemma {:induction false} BytesXor(a: bytes, b: bytes, d: bytes)
    requires |a| == |b| == |d| && forall i :: 0 <= i < |d| ==> d[i] == Xor(a[i], b[i])
    ensures BigEndian(d) == XorBits(BigEndian(a), BigEndian(b), 8 * |d|)
    decreases |d|
  {
    hide Xor, XorBits;
    var n := |d| - 1;
    if n >= 0 {
      hide BigEndian;
      BytesXor(a[..n], b[..n], d[..n]);
      BigEndianLast(a);
      BigEndianLast(b);
      BigEndianLast(d);
      XorNextByte(BigEndian(a[..n]), BigEndian(b[..n]), 8 * n, a[n], b[n]);
    } else {
      NothingToXor();
    }
  }

  lemma NothingToXor()
    ensures XorBits(0, 0, 0) == 0
  {
  }

  /** The distance is the XOR of the two ids as 160-bit numbers. */
  lemma DistanceIsXor(a: NodeId, b: NodeId)
    ensures BigEndian(Distance(a, b)) == XorBits(BigEndian(a), BigEndian(b), 160)
  {
    hide Xor, BigEndian, XorBits;
    BytesXor(a, b, Distance(a, b));
  }

  /** XOR of numbers, bit by bit: a bit is set exactly where the two differ, and none past the last. */
  lemma XorByDigit(a: nat, b: nat, n: nat, k: nat)
    requires k < n
    ensures XorBits(a, b, n) < Pow2(n)
    ensures XorBits(a, b, n) / Pow2(k) % 2 == 1 <==> a / Pow2(k) % 2 != b / Pow2(k) % 2
  {
    XorBitsBits(a, b, n, k);
    BitIsDigit(XorBits(a, b, n), k);
    BitIsDigit(a, k);
    BitIsDigit(b, k);
  }
}

/** Byte strings, their order, and the fixed-width integer layouts used on the wire. */
module Bytes {

  type byte = b: int | 0 <= b < 256
  type bytes = seq<byte>

  const TWO_TO_THE_16 := 0x1_0000
  const TWO_TO_THE_32 := 0x1_0000_0000
  const INT32_MIN := -0x8000_0000
  const INT32_MAX := 0x7fff_ffff
  const INT64_MIN := -0x8000_0000_0000_0000
  const INT64_MAX := 0x7fff_ffff_ffff_ffff

  type uint16 = x: int | 0 <= x < TWO_TO_THE_16
  type uint32 = x: int | 0 <= x < TWO_TO_THE_32
  type int64 = x: int | INT64_MIN <= x <= INT64_MAX

  datatype Option<+T> = None | Some(value: T)

  /** A returned value, or the exception thrown. */
  datatype Result<+T, +E> = Success(value: T) | Failure(error: E) {
    predicate IsFailure() {
      Failure?
    }

    function PropagateFailure<U>(): Result<U, E>
      requires Failure?
    {
      Failure(error)
    }

    function Extract(): T
      requires Success?
    {
      value
    }
  }

  /** A string literal as the bytes it stands for. */
  function Text(s: string): (r: bytes)
    requires forall i :: 0 <= i < |s| ==> s[i] < 256 as char
    ensures |r| == |s| && forall i :: 0 <= i < |s| ==> r[i] == s[i] as int
  {
    seq(|s|, i requires 0 <= i < |s| => s[i] as int)
  }

  lemma Associative(a: bytes, b: bytes, c: bytes)
    ensures a + (b + c) == (a + b) + c
  {
  }

  /** Byte strings one after the other. */
  function Concat(chunks: seq<bytes>): bytes {
    if |chunks| == 0 then [] else chunks[0] + Concat(chunks[1..])
  }

  // ----- Lexicographic order: operator< of std::string and of std::array<uint8_t, N> -----

  predicate LexLess(a: bytes, b: bytes) {
    if |b| == 0 then false
    else if |a| == 0 then true
    else a[0] < b[0] || (a[0] == b[0] && LexLess(a[1..], b[1..]))
  }

  /** The two strings share their first k bytes, and then the first ends or has the smaller byte. */
  predicate SplitsAt(a: bytes, b: bytes, k: nat) {
    k <= |a| && k < |b| && a[..k] == b[..k] && (k == |a| || a[k] < b[k])
  }

  /** A string comes before another exactly when it is a proper prefix of it, or has the smaller byte
      where the two first differ. */
  lemma {:induction false} LexIsDictionaryOrder(a: bytes, b: bytes)
    ensures LexLess(a, b) <==> exists k: nat :: SplitsAt(a, b, k)
  {
    if |a| == 0 || |b| == 0 {
      assert |a| == 0 < |b| ==> SplitsAt(a, b, 0);
    } else if a[0] != b[0] {
      assert a[0] < b[0] ==> SplitsAt(a, b, 0);
      forall k: nat | SplitsAt(a, b, k)
        ensures a[0] < b[0]
      {
        if k > 0 { assert a[..k][0] == b[..k][0]; }
      }
    } else {
      LexIsDictionaryOrder(a[1..], b[1..]);
      if k: nat :| SplitsAt(a[1..], b[1..], k) {
        assert a[..k + 1] == [a[0]] + a[1..][..k] && b[..k + 1] == [b[0]] + b[1..][..k];
        assert SplitsAt(a, b, k + 1);
      }
      if k: nat :| SplitsAt(a, b, k) {
        assert k > 0 && a[1..][..k - 1] == a[..k][1..] && b[1..][..k - 1] == b[..k][1..];
        assert SplitsAt(a[1..], b[1..], k - 1);
      }
    }
  }

  lemma {:induction false} LexIrreflexive(a: bytes)
    ensures !LexLess(a, a)
  {
    if |a| > 0 { LexIrreflexive(a[1..]); }
  }

  lemma {:induction false} LexTransitive(a: bytes, b: bytes, c: bytes)
    requires LexLess(a, b) && LexLess(b, c)
    ensures LexLess(a, c)
  {
    if |a| > 0 && a[0] == b[0] == c[0] { LexTransitive(a[1..], b[1..], c[1..]); }
  }

  lemma {:induction false} LexTotal(a: bytes, b: bytes)
    ensures LexLess(a, b) || a == b || LexLess(b, a)
  {
    if |a| > 0 && |b| > 0 && a[0] == b[0] {
      LexTotal(a[1..], b[1..]);
      assert a == [a[0]] + a[1..] && b == [b[0]] + b[1..];
    }
  }

  // ----- Big-endian value of a byte string -----

  function Pow256(n: nat): (p: nat)
    ensures p > 0
  {
    if n == 0 then 1 else 256 * Pow256(n - 1)
  }

  function Times(d: byte, p: nat): nat {
    d as int * p
  }

  lemma TimesMonotone(a: int, b: int, p: int)
    requires a <= b && p >= 0
    ensures a * p <= b * p
  {
    assert b * p == a * p + (b - a) * p;
  }

  lemma TimesLess(c: byte, d: byte, p: nat)
    requires c < d
    ensures Times(c, p) + p <= Times(d, p)
  {
    var next: int := c + 1;
    TimesMonotone(next, d, p);
    assert next * p == Times(c, p) + p;
  }

  function BigEndian(s: bytes): nat {
    if |s| == 0 then 0 else Times(s[0], Pow256(|s| - 1)) + BigEndian(s[1..])
  }

  lemma {:induction false} BigEndianBound(s: bytes)
    ensures BigEndian(s) < Pow256(|s|)
  {
    if |s| > 0 {
      BigEndianBound(s[1..]);
      var p := Pow256(|s| - 1);
      if s[0] < 255 { TimesLess(s[0], 255, p); }
      assert Times(255, p) + p == Pow256(|s|);
    }
  }

  /** Comparing equally long byte strings byte by byte is comparing the integers they spell. */
  lemma {:induction false} LexIsNumericOrder(a: bytes, b: bytes)
    requires |a| == |b|
    ensures LexLess(a, b) <==> BigEndian(a) < BigEndian(b)
  {
    if |a| > 0 {
      BigEndianBound(a[1..]);
      BigEndianBound(b[1..]);
      if a[0] < b[0] {
        TimesLess(a[0], b[0], Pow256(|a| - 1));
      } else if b[0] < a[0] {
        TimesLess(b[0], a[0], Pow256(|a| - 1));
      } else {
        LexIsNumericOrder(a[1..], b[1..]);
      }
    }
  }

  lemma {:induction false} BigEndianSnoc(s: bytes, x: byte)
    ensures BigEndian(s + [x]) == 256 * BigEndian(s) + x
    decreases |s|
  {
    if |s| == 0 {
      assert BigEndian([x][1..]) == 0 && Times(x, Pow256(0)) == x;
    } else {
      assert (s + [x])[1..] == s[1..] + [x];
      BigEndianSnoc(s[1..], x);
      var d: int, p: int := s[0], Pow256(|s| - 1);
      assert d * (256 * p) == 256 * (d * p);
    }
  }

  /** The integer a byte string spells with its least significant byte first. */
  function LittleEndian(s: bytes): nat {
    if |s| == 0 then 0 else s[0] + 256 * LittleEndian(s[1..])
  }

  // ----- htonl/htons layouts, and the host's own (little-endian) layout -----

  function Net32(x: uint32): (s: bytes)
    ensures |s| == 4 && FromNet32(s) == x
  {
    var high, low := x / 0x1_0000, x % 0x1_0000;
    [high / 0x100, high % 0x100, low / 0x100, low % 0x100]
  }

  function FromNet32(s: bytes): (x: uint32)
    requires |s| == 4
  {
    s[0] as int * 0x100_0000 + s[1] as int * 0x1_0000 + s[2] as int * 0x100 + s[3] as int
  }

  lemma FromNet32Inverse(s: bytes)
    requires |s| == 4
    ensures Net32(FromNet32(s)) == s
  {
    var x: int := FromNet32(s);
    var a: int, b: int, c: int, d: int := s[0], s[1], s[2], s[3];
    assert x % 0x100 == d && x / 0x100 == a * 0x1_0000 + b * 0x100 + c;
    assert x / 0x1_0000 == a * 0x100 + b;
    assert x / 0x100_0000 == a;
  }

  /** The host's layout is the network's read backwards. */
  function Host32(x: uint32): (s: bytes)
    ensures |s| == 4 && forall i :: 0 <= i < 4 ==> s[i] == Net32(x)[3 - i]
  {
    var high, low := x / 0x1_0000, x % 0x1_0000;
    [low % 0x100, low / 0x100, high % 0x100, high / 0x100]
  }

  function Net16(x: uint16): (s: bytes)
    ensures |s| == 2 && FromNet16(s) == x
  {
    [x / 0x100, x % 0x100]
  }

  function FromNet16(s: bytes): (x: uint16)
    requires |s| == 2
  {
    s[0] as int * 0x100 + s[1] as int
  }

  lemma FromNet16Inverse(s: bytes)
    requires |s| == 2
    ensures Net16(FromNet16(s)) == s
  {
    assert FromNet16(s) / 0x100 == s[0] && FromNet16(s) % 0x100 == s[1];
  }

  lemma FourBytes(s: bytes)
    requires |s| == 4
    ensures BigEndian(s) == s[0] as int * 0x100_0000 + s[1] as int * 0x1_0000 + s[2] as int * 0x100 + s[3]
    ensures LittleEndian(s) == s[3] as int * 0x100_0000 + s[2] as int * 0x1_0000 + s[1] as int * 0x100 + s[0]
  {
    assert Pow256(1) == 256 && Pow256(2) == 0x1_0000 && Pow256(3) == 0x100_0000;
    assert s[1..][1..] == s[2..] && s[2..][1..] == s[3..] && s[3..][1..] == [];
    assert BigEndian(s[3..]) == s[3] && LittleEndian(s[3..]) == s[3];
    assert BigEndian(s[2..]) == s[2] as int * 0x100 + s[3] && LittleEndian(s[2..]) == s[2] + 0x100 * (s[3] as int);
  }

  /** The network's layout is the big-endian one, and the host's the little-endian one. */
  lemma LayoutsOf32(x: uint32, s: bytes)
    requires |s| == 4
    ensures BigEndian(Net32(x)) == x && LittleEndian(Host32(x)) == x && FromNet32(s) == BigEndian(s)
  {
    FourBytes(Net32(x));
    FourBytes(Host32(x));
    FourBytes(s);
  }

  lemma LayoutsOf16(x: uint16, s: bytes)
    requires |s| == 2
    ensures BigEndian(Net16(x)) == x && FromNet16(s) == BigEndian(s)
  {
    assert Pow256(1) == 256;
    TwoBytes(Net16(x));
    TwoBytes(s);
  }

  lemma TwoBytes(s: bytes)
    requires |s| == 2
    ensures BigEndian(s) == s[0] as int * 0x100 + s[1]
  {
    assert Pow256(1) == 256;
    assert s[1..][1..] == [] && BigEndian(s[1..]) == s[1];
  }
}

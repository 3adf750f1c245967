/** The bitfield message: one bit per piece, most significant bit of each byte first. */
module Bitfield {
  import opened Bytes
  import opened Bits

  /** The bits of a payload in piece order. */
  function Unpack(payload: bytes): (bits: seq<bool>)
    ensures |bits| == 8 * |payload|
  {
    seq(8 * |payload|, i requires 0 <= i < 8 * |payload| => Bit(payload[i / 8], 7 - i % 8))
  }

  predicate BitAt(bits: seq<bool>, k: nat) {
    k < |bits| && bits[k]
  }

  /** The payload a set of pieces is sent as: enough bytes, and false bits past the end. */
  ghost predicate Packs(bits: seq<bool>, payload: bytes) {
    && |payload| == (|bits| + 7) / 8
    && forall i, j :: 0 <= i < |payload| && 0 <= j < 8 ==> PackedAt(bits, payload, i, j)
  }

  predicate PackedAt(bits: seq<bool>, payload: bytes, i: nat, j: nat)
    requires i < |payload| && j < 8
  {
    Bit(payload[i], 7 - j) <==> BitAt(bits, 8 * i + j)
  }

  /** bits, then false up to a multiple of eight. */
  function Padded(bits: seq<bool>): (r: seq<bool>)
    ensures |bits| <= |r| < |bits| + 8 && |r| % 8 == 0
    ensures forall k :: 0 <= k < |r| ==> (r[k] <==> k < |bits| && bits[k])
  {
    bits + seq((|bits| + 7) / 8 * 8 - |bits|, _ => false)
  }

  // ----- The payload as a number -----

  /** The number that bits spell in binary, the first one counting most. */
  function BinaryValue(bits: seq<bool>): nat {
    if |bits| == 0 then 0 else 2 * BinaryValue(bits[..|bits| - 1]) + if bits[|bits| - 1] then 1 else 0
  }

  /** The bits are the binary digits of the payload read as one number. */
  lemma UnpackIsBinary(payload: bytes)
    ensures BinaryValue(Unpack(payload)) == BigEndian(payload)
  {
    UnpackIsBinaryTo(payload, |payload|);
    assert Unpack(payload)[..8 * |payload|] == Unpack(payload) && payload[..|payload|] == payload;
  }

  lemma {:induction false} UnpackIsBinaryTo(payload: bytes, i: nat)
    requires i <= |payload|
    ensures BinaryValue(Unpack(payload)[..8 * i]) == BigEndian(payload[..i])
  {
    if i > 0 {
      UnpackIsBinaryTo(payload, i - 1);
      ByteIsBinary(payload, i - 1);
      hide Unpack, BinaryValue, BigEndian;
      assert payload[..i] == payload[..i - 1] + [payload[i - 1]];
      BigEndianSnoc(payload[..i - 1], payload[i - 1]);
      assert 8 * (i - 1) + 8 == 8 * i;
    } else {
      assert Unpack(payload)[..8 * i] == [] && payload[..i] == [];
    }
  }

  lemma ByteIsBinary(payload: bytes, i: nat)
    requires i < |payload|
    ensures BinaryValue(Unpack(payload)[..8 * i + 8]) == 256 * BinaryValue(Unpack(payload)[..8 * i]) + payload[i]
  {
    ByteIsBinaryTo(payload, i, 8);
    assert Pow2(8) == 256 && Pow2(0) == 1;
  }

  /** The number that the j highest of a byte's eight digits spell. */
  function TopDigits(b: nat, j: nat): int
    requires j <= 8
  {
    b / Pow2(8 - j)
  }

  lemma TopDigitsStep(b: byte, j: nat)
    requires 0 < j <= 8
    ensures TopDigits(b, j) == 2 * TopDigits(b, j - 1) + if Bit(b, 8 - j) then 1 else 0
  {
    assert Pow2(8 - (j - 1)) == 2 * Pow2(8 - j);
    hide Pow2, Bit;
    BitIsDigit(b, 8 - j);
    DigitBelow(b, Pow2(8 - j));
  }

  /** The first j bits of byte i are its j highest digits. */
  lemma {:induction false} ByteIsBinaryTo(payload: bytes, i: nat, j: nat)
    requires i < |payload| && j <= 8
    ensures BinaryValue(Unpack(payload)[..8 * i + j]) ==
            BinaryValue(Unpack(payload)[..8 * i]) * Pow2(j) + TopDigits(payload[i], j)
  {
    if j == 0 {
      assert Pow2(8) == 256;
    } else {
      var all, k := Unpack(payload), 8 * i + (j - 1);
      assert all[k] == Bit(payload[i], 8 - j) by { assert k / 8 == i && k % 8 == j - 1; }
      assert Pow2(j) == 2 * Pow2(j - 1);
      hide Unpack, BinaryValue, Bit, Pow2, TopDigits;
      ByteIsBinaryTo(payload, i, j - 1);
      LastBit(all, k + 1);
      TopDigitsStep(payload[i], j);
      Doubled(BinaryValue(all[..8 * i]), Pow2(j - 1));
    }
  }

  lemma Doubled(high: int, q: int)
    ensures high * (2 * q) == 2 * (high * q)
  {
  }

  lemma LastBit(bits: seq<bool>, k: nat)
    requires 0 < k <= |bits|
    ensures BinaryValue(bits[..k]) == 2 * BinaryValue(bits[..k - 1]) + if bits[k - 1] then 1 else 0
  {
    assert bits[..k][..k - 1] == bits[..k - 1];
  }

  lemma DigitBelow(b: nat, p: nat)
    requires p > 0
    ensures b / p == 2 * (b / p / 2) + b / p % 2
    ensures b / p / 2 == b / (2 * p)
  {
    var q, r := b / p / 2, b / p % 2;
    assert b == (b / p) * p + b % p == (2 * q + r) * p + b % p == q * (2 * p) + (r * p + b % p);
    assert r * p <= p by { TimesMonotone(r, 1, p); }
    QuotientUnique(b, 2 * p, q, r * p + b % p);
  }

  // ----- Both directions of the codec -----

  lemma UnpackPacked(bits: seq<bool>, payload: bytes)
    requires Packs(bits, payload)
    ensures Unpack(payload) == Padded(bits)
  {
    forall k | 0 <= k < 8 * |payload|
      ensures Unpack(payload)[k] == Padded(bits)[k]
    {
      assert PackedAt(bits, payload, k / 8, k % 8);
      assert k == 8 * (k / 8) + k % 8;
    }
  }

  lemma PackUnpacked(payload: bytes)
    ensures Packs(Unpack(payload), payload)
  {
    forall i, j | 0 <= i < |payload| && 0 <= j < 8
      ensures PackedAt(Unpack(payload), payload, i, j)
    {
      assert (8 * i + j) / 8 == i && (8 * i + j) % 8 == j;
    }
  }

  lemma PackUnique(bits: seq<bool>, p: bytes, q: bytes)
    requires Packs(bits, p) && Packs(bits, q)
    ensures p == q
  {
    forall i | 0 <= i < |p|
      ensures p[i] == q[i]
    {
      assert Pow2(8) == 256;
      forall k | 0 <= k < 8
        ensures Bit(p[i], k) <==> Bit(q[i], k)
      {
        assert PackedAt(bits, p, i, 7 - k) && PackedAt(bits, q, i, 7 - k);
      }
      BitsDetermine(p[i], q[i], 8);
    }
  }

  // ----- The loops -----

  /** The packing loops of sendBitfield. */
  method Pack(bits: seq<bool>) returns (payload: bytes)
    ensures Packs(bits, payload)
  {
    var byteCount := (|bits| + 7) / 8;
    payload := [];
    var i := 0;
    while i < byteCount
      invariant |payload| == i <= byteCount
      invariant forall m, k :: 0 <= m < i && 0 <= k < 8 ==> PackedAt(bits, payload, m, k)
    {
      var b := PackByte(bits, i);
      ghost var before := payload;
      payload := payload + [b];
      forall m, k | 0 <= m <= i && 0 <= k < 8
        ensures PackedAt(bits, payload, m, k)
      {
        if m < i { assert PackedAt(bits, before, m, k); } else { assert Bit(b, 7 - k) <==> BitAt(bits, 8 * i + k); }
      }
      i := i + 1;
    }
  }

  /** The first j bits of byte i are in place, and the others are still zero. */
  ghost predicate PackedSoFar(bits: seq<bool>, i: nat, j: nat, b: nat) {
    b < 256 && forall k :: 0 <= k < 8 ==> (Bit(b, k) <==> 7 - k < j && BitAt(bits, 8 * i + 7 - k))
  }

  method PackByte(bits: seq<bool>, i: nat) returns (b: byte)
    ensures PackedSoFar(bits, i, 8, b)
  {
    b := 0;
    ZeroHasNoBits();
    var j := 0;
    while j < 8
      invariant j <= 8 && PackedSoFar(bits, i, j, b)
    {
      var index := i * 8 + j;
      PackStep(bits, i, j, b);
      if index < |bits| && bits[index] { b := SetBit(b, 7 - j); }
      j := j + 1;
    }
  }

  lemma PackStep(bits: seq<bool>, i: nat, j: nat, b: nat)
    requires j < 8 && PackedSoFar(bits, i, j, b)
    ensures PackedSoFar(bits, i, j + 1, if BitAt(bits, 8 * i + j) then SetBit(b, 7 - j) else b)
  {
    var c := if BitAt(bits, 8 * i + j) then SetBit(b, 7 - j) else b;
    assert Pow2(8) == 256;
    SetBitBound(b, 7 - j, 8);
    forall k | 0 <= k < 8
      ensures Bit(c, k) <==> 7 - k < j + 1 && BitAt(bits, 8 * i + 7 - k)
    {
      SetBitBits(b, 7 - j, k);
    }
  }

  lemma ZeroHasNoBits()
    ensures forall k :: 0 <= k < 8 ==> !Bit(0, k)
  {
    forall k: nat
      ensures !Bit(0, k)
    {
      ZeroHasNoBit(k);
    }
  }

  lemma {:induction false} ZeroHasNoBit(k: nat)
    ensures !Bit(0, k)
  {
    if k > 0 { ZeroHasNoBit(k - 1); }
  }

  /** vector<bool>::resize. */
  function Resize(bits: seq<bool>, n: nat): (r: seq<bool>)
    ensures |r| == n
  {
    if n <= |bits| then bits[..n] else bits + seq(n - |bits|, _ => false)
  }

  /** The unpacking loops of handle_message: every bit is overwritten. */
  method UnpackOver(previous: seq<bool>, payload: bytes) returns (bits: seq<bool>)
    ensures bits == Unpack(payload)
  {
    bits := Resize(previous, 8 * |payload|);
    var i := 0;
    while i < |payload|
      invariant i <= |payload| && |bits| == 8 * |payload|
      invariant bits[..8 * i] == Unpack(payload)[..8 * i]
    {
      var b := payload[i];
      var j := 0;
      while j < 8
        invariant j <= 8 && |bits| == 8 * |payload|
        invariant bits[..8 * i + j] == Unpack(payload)[..8 * i + j]
      {
        var index := 8 * i + j;
        if index < |bits| {
          assert index / 8 == i && index % 8 == j;
          bits := bits[index := Bit(b, 7 - j)];
          assert bits[..index + 1] == bits[..index] + [Bit(b, 7 - j)];
          assert Unpack(payload)[..index + 1] == Unpack(payload)[..index] + [Bit(b, 7 - j)];
        }
        j := j + 1;
      }
      i := i + 1;
    }
  }

  /** The countdown loops of PeerWireProtocol::handleBitfield, on a vector that grows by each bit
      written: they agree with handle_message on every bit they keep. */
  method UnpackCountdown(payload: bytes, numPieces: nat) returns (bits: seq<bool>)
    ensures bits == Unpack(payload)[..if numPieces < 8 * |payload| then numPieces else 8 * |payload|]
  {
    bits := [];
    ghost var all := Unpack(payload);
    var i := 0;
    while i < |payload|
      invariant i <= |payload|
      invariant bits == all[..if numPieces < 8 * i then numPieces else 8 * i]
    {
      var j := 7;
      while j >= 0
        invariant -1 <= j <= 7
        invariant bits == all[..if numPieces < 8 * i + 7 - j then numPieces else 8 * i + 7 - j]
      {
        var bitIndex := i * 8 + (7 - j);
        if bitIndex >= numPieces { break; }
        assert bitIndex / 8 == i && bitIndex % 8 == 7 - j;
        assert all[bitIndex] == Bit(payload[i], j);
        bits := bits + [Bit(payload[i], j)];
        j := j - 1;
      }
      i := i + 1;
    }
  }
}

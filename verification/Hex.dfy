/** Hexadecimal digests as the two sides of the hash check print them. */
module Hex {
  import opened Bytes

  type Digest = s: bytes | |s| == 20 witness seq(20, _ => 0)

  function HexDigit(d: nat): byte
    requires d < 16
  {
    if d < 10 then '0' as int + d else 'a' as int + (d - 10)
  }

  /** oss << std::hex << (int)c with fill '0' and the given width. */
  function Format(c: byte, width: nat): bytes {
    if c < 16 && width < 2 then [HexDigit(c)] else [HexDigit(c / 16), HexDigit(c % 16)]
  }

  /** Every byte printed with width 2. */
  function PaddedHex(s: bytes): bytes {
    if |s| == 0 then [] else Format(s[0], 2) + PaddedHex(s[1..])
  }

  /** Every byte printed with no width. */
  function BareHex(s: bytes): bytes {
    if |s| == 0 then [] else Format(s[0], 0) + BareHex(s[1..])
  }

  /** setw lasts for one output only, so just the first byte is padded. */
  function FirstPaddedHex(s: bytes): bytes {
    if |s| == 0 then [] else Format(s[0], 2) + BareHex(s[1..])
  }

  // ----- The loops -----

  /** The printing loop of computeSHA1: the width is set again for each byte. */
  method DigestToHex(hash: Digest) returns (text: bytes)
    ensures text == PaddedHex(hash)
  {
    text := [];
    var i := 0;
    while i < 20
      invariant i <= 20
      invariant text + PaddedHex(hash[i..]) == PaddedHex(hash)
    {
      var width := 2;
      ghost var rest := PaddedHex(hash[i + 1..]);
      assert text + (Format(hash[i], 2) + rest) == text + Format(hash[i], 2) + rest;
      text := text + Format(hash[i], width);
      i := i + 1;
    }
  }

  /** rawToHex: the width is set once, before the loop, and the first output resets it. */
  method RawToHex(raw: bytes) returns (text: bytes)
    ensures text == FirstPaddedHex(raw)
  {
    text := [];
    var width := 2;
    var i := 0;
    while i < |raw|
      invariant i <= |raw|
      invariant width == if i == 0 then 2 else 0
      invariant i == 0 ==> text == []
      invariant i > 0 ==> text + BareHex(raw[i..]) == FirstPaddedHex(raw)
    {
      if i > 0 {
        assert text + (Format(raw[i], 0) + BareHex(raw[i + 1..])) == text + Format(raw[i], 0) + BareHex(raw[i + 1..]);
      }
      text := text + Format(raw[i], width);
      width := 0;
      i := i + 1;
    }
  }

  // ----- What the texts say -----

  /** A lower-case hexadecimal digit's value. */
  function DigitValue(c: byte): int {
    if '0' as int <= c <= '9' as int then c - '0' as int
    else if 'a' as int <= c <= 'f' as int then c - 'a' as int + 10
    else -1
  }

  /** One or two digits that spell a byte. */
  predicate Spells(text: bytes, c: byte, width: nat) {
    && |text| == width
    && ((width == 1 && DigitValue(text[0]) == c) ||
        (width == 2 && 0 <= DigitValue(text[0]) && 0 <= DigitValue(text[1]) < 16
         && 16 * DigitValue(text[0]) + DigitValue(text[1]) == c))
  }

  lemma FormatSpells(c: byte, width: nat)
    ensures Spells(Format(c, width), c, if c < 16 && width < 2 then 1 else 2)
  {
  }

  /** The two sides of the check print the bytes in order: computeSHA1 each with two digits, and
      rawToHex the first with two and any other below 16 with one. */
  lemma TextsSpell(s: bytes) returns (padded: seq<bytes>, raw: seq<bytes>)
    ensures |padded| == |raw| == |s| && PaddedHex(s) == Concat(padded) && FirstPaddedHex(s) == Concat(raw)
    ensures forall i :: 0 <= i < |s| ==> Spells(padded[i], s[i], 2)
    ensures forall i :: 0 <= i < |s| ==> Spells(raw[i], s[i], if i > 0 && s[i] < 16 then 1 else 2)
  {
    padded := FormatAll(s, 2);
    raw := [];
    if |s| > 0 {
      var bare := FormatAll(s[1..], 0);
      raw := [Format(s[0], 2)] + bare;
      FormatSpells(s[0], 2);
    }
  }

  lemma {:induction false} FormatAll(s: bytes, width: nat) returns (parts: seq<bytes>)
    requires width == 0 || width == 2
    ensures |parts| == |s| && Concat(parts) == if width == 2 then PaddedHex(s) else BareHex(s)
    ensures forall i :: 0 <= i < |s| ==> Spells(parts[i], s[i], if s[i] < 16 && width < 2 then 1 else 2)
    decreases |s|
  {
    parts := [];
    if |s| > 0 {
      var rest := FormatAll(s[1..], width);
      FormatSpells(s[0], width);
      parts := [Format(s[0], width)] + rest;
      assert parts[1..] == rest;
    }
  }

  // ----- What equality of the two texts means -----

  /** No byte after the first loses its leading zero. */
  predicate KeepsZeros(s: bytes) {
    forall i :: 0 < i < |s| ==> s[i] >= 16
  }

  lemma FormatInjective(a: byte, b: byte)
    requires Format(a, 2) == Format(b, 2)
    ensures a == b
  {
    assert HexDigit(a / 16) == Format(a, 2)[0] == Format(b, 2)[0] == HexDigit(b / 16);
    assert HexDigit(a % 16) == Format(a, 2)[1] == Format(b, 2)[1] == HexDigit(b % 16);
  }

  lemma {:induction false} PaddedHexInjective(a: bytes, b: bytes)
    requires |a| == |b| && PaddedHex(a) == PaddedHex(b)
    ensures a == b
  {
    if |a| > 0 {
      var x, y := PaddedHex(a), PaddedHex(b);
      assert x[..2] == Format(a[0], 2) && y[..2] == Format(b[0], 2);
      assert x[2..] == PaddedHex(a[1..]) && y[2..] == PaddedHex(b[1..]);
      FormatInjective(a[0], b[0]);
      PaddedHexInjective(a[1..], b[1..]);
      assert a == [a[0]] + a[1..] && b == [b[0]] + b[1..];
    }
  }

  /** A dropped zero shortens the text, and nothing else does. */
  lemma {:induction false} HexLengths(s: bytes)
    ensures |PaddedHex(s)| == 2 * |s| && |BareHex(s)| <= 2 * |s|
    ensures |BareHex(s)| == 2 * |s| <==> forall i :: 0 <= i < |s| ==> s[i] >= 16
    ensures |BareHex(s)| == 2 * |s| ==> BareHex(s) == PaddedHex(s)
  {
    if |s| > 0 {
      HexLengths(s[1..]);
      assert forall i :: 0 < i < |s| ==> s[i] == s[1..][i - 1];
      if forall i :: 0 <= i < |s| ==> s[i] >= 16 {
        assert forall i :: 0 <= i < |s| - 1 ==> s[1..][i] == s[i + 1];
      }
    }
  }

  /** The hash check accepts exactly the equal digests none of whose later bytes is below 16: it
      never accepts a wrong piece, and it can reject a right one. */
  lemma HashCheckExact(computed: bytes, expected: bytes)
    requires |computed| == |expected|
    ensures PaddedHex(computed) == FirstPaddedHex(expected) <==> computed == expected && KeepsZeros(expected)
  {
    HexLengths(computed);
    if |expected| > 0 {
      var tail := expected[1..];
      HexLengths(tail);
      assert KeepsZeros(expected) <==> forall i :: 0 <= i < |tail| ==> tail[i] >= 16 by {
        assert forall i :: 0 <= i < |tail| ==> tail[i] == expected[i + 1];
        assert forall i :: 0 < i < |expected| ==> expected[i] == tail[i - 1];
      }
      if PaddedHex(computed) == FirstPaddedHex(expected) {
        assert |BareHex(tail)| == 2 * |tail|;
        PaddedHexInjective(computed, expected);
      }
    }
  }

  /** A digest with a small byte is not recognised even when it is the right one. */
  lemma HashCheckRejectsARightPiece(digest: Digest)
    requires digest == seq(20, _ => 7)
    ensures PaddedHex(digest) != FirstPaddedHex(digest)
  {
    HashCheckExact(digest, digest);
    assert digest[1] == 7;
  }
}

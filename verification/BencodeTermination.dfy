/** When the parser ends: exactly when none of its calls is reached again from within itself. */
module BencodeTermination {
  import opened Bytes
  import opened Decimal
  import opened Bencode
  import opened BencodeRoundTrip
  import opened BencodePositions

  datatype Kind = AValue | SomeItems | SomeEntries | APair

  /** A call of the parser, or a pass of one of its loops, at a position. */
  datatype Call = Call(kind: Kind, pos: nat)

  /** The call comes to an end within a depth. */
  predicate Ends(data: bytes, c: Call, depth: nat)
    requires c.pos <= |data|
  {
    match c.kind
    case AValue => !ReadValue(data, c.pos, depth).Unfinished?
    case SomeItems => !ReadItems(data, c.pos, depth).Unfinished?
    case SomeEntries => !ReadEntries(data, c.pos, depth).Unfinished?
    case APair => !ReadPair(data, c.pos, depth).Unfinished?
  }

  ghost predicate ValueEndsAt(data: bytes, pos: nat, next: nat)
    requires pos <= |data|
  {
    exists depth: nat :: ReadValue(data, pos, depth).Done? && ReadValue(data, pos, depth).next == next
  }

  ghost predicate PairEndsAt(data: bytes, pos: nat, next: nat)
    requires pos <= |data|
  {
    exists depth: nat :: ReadPair(data, pos, depth).Done? && ReadPair(data, pos, depth).next == next
  }

  /** The second call is made directly by the first. */
  ghost predicate Makes(data: bytes, c: Call, d: Call)
    requires c.pos <= |data|
  {
    && d.pos <= |data|
    && match c.kind
       case AValue =>
         && c.pos < |data| && d.pos == c.pos + 1
         && ((data[c.pos] == CHAR_L && d.kind == SomeItems) || (data[c.pos] == CHAR_D && d.kind == SomeEntries))
       case SomeItems =>
         && c.pos < |data| && data[c.pos] != CHAR_E
         && (d == Call(AValue, c.pos) || (d.kind == SomeItems && ValueEndsAt(data, c.pos, d.pos)))
       case SomeEntries =>
         && c.pos < |data| && data[c.pos] != CHAR_E
         && (d == Call(APair, c.pos) || (d.kind == SomeEntries && PairEndsAt(data, c.pos, d.pos)))
       case APair =>
         d.kind == AValue && ReadString(data, c.pos).Done? && ReadString(data, c.pos).next == d.pos
  }

  // ----- A call ends once all it makes have ended -----

  lemma NothingEndsAtOnce(data: bytes, c: Call)
    requires c.pos <= |data|
    ensures !Ends(data, c, 0)
  {
  }

  lemma MadeCallsEnd(data: bytes, c: Call, d: Call, depth: nat)
    requires c.pos <= |data| && Makes(data, c, d) && Ends(data, c, depth + 1)
    ensures Ends(data, d, depth)
  {
    hide ReadString, ReadInt, FromEntries;
    match c.kind
    case AValue =>
    case SomeItems => if d.kind == SomeItems { ValueEndsOnce(data, c.pos, d.pos, depth); }
    case SomeEntries => if d.kind == SomeEntries { PairEndsOnce(data, c.pos, d.pos, depth); }
    case APair =>
  }

  lemma ValueEndsOnce(data: bytes, pos: nat, next: nat, depth: nat)
    requires pos <= |data| && ValueEndsAt(data, pos, next)
    ensures ReadValue(data, pos, depth).Done? ==> ReadValue(data, pos, depth).next == next
    ensures !ReadValue(data, pos, depth).Thrown?
  {
    hide ReadValue;
    var other: nat :| ReadValue(data, pos, other).Done? && ReadValue(data, pos, other).next == next;
    if !ReadValue(data, pos, depth).Unfinished? {
      DeeperSameResult(data, pos, if depth < other then depth else other, if depth < other then other else depth);
    }
  }

  lemma PairEndsOnce(data: bytes, pos: nat, next: nat, depth: nat)
    requires pos <= |data| && PairEndsAt(data, pos, next)
    ensures ReadPair(data, pos, depth).Done? ==> ReadPair(data, pos, depth).next == next
    ensures !ReadPair(data, pos, depth).Thrown?
  {
    hide ReadPair;
    var other: nat :| ReadPair(data, pos, other).Done? && ReadPair(data, pos, other).next == next;
    if !ReadPair(data, pos, depth).Unfinished? {
      PairSameResult(data, pos, if depth < other then depth else other, if depth < other then other else depth);
    }
  }

  /** A call that does not end makes one that does not end. */
  lemma EndlessMakesEndless(data: bytes, c: Call, depth: nat) returns (d: Call)
    requires c.pos <= |data| && !Ends(data, c, depth + 1)
    ensures d.pos <= |data| && Makes(data, c, d) && !Ends(data, d, depth)
  {
    hide ReadString, ReadInt, FromEntries;
    match c.kind
    case AValue =>
      d := Call(if data[c.pos] == CHAR_L then SomeItems else SomeEntries, c.pos + 1);
    case SomeItems =>
      var first := ReadValue(data, c.pos, depth);
      if first.Unfinished? {
        d := Call(AValue, c.pos);
      } else {
        assert ValueEndsAt(data, c.pos, first.next);
        d := Call(SomeItems, first.next);
      }
    case SomeEntries =>
      var first := ReadPair(data, c.pos, depth);
      if first.Unfinished? {
        d := Call(APair, c.pos);
      } else {
        assert PairEndsAt(data, c.pos, first.next);
        d := Call(SomeEntries, first.next);
      }
    case APair =>
      d := Call(AValue, ReadString(data, c.pos).next);
  }

  // ----- Chains of open calls -----

  /** Calls open at the same time, each made by the one before it. */
  ghost predicate IsChain(data: bytes, calls: seq<Call>) {
    && (forall i :: 0 <= i < |calls| ==> calls[i].pos <= |data|)
    && forall i :: 0 <= i < |calls| - 1 ==> Makes(data, calls[i], calls[i + 1])
  }

  /** Some call is made again while it is still open. */
  ghost predicate Reenters(calls: seq<Call>) {
    exists i, j :: 0 <= i < j < |calls| && calls[i] == calls[j]
  }

  /** From the first call, some call is reached that is then reached from itself. */
  ghost predicate Loops(data: bytes, c: Call) {
    exists calls :: IsChain(data, calls) && |calls| > 0 && calls[0] == c && Reenters(calls)
  }

  lemma {:induction false} EndlessChain(data: bytes, c: Call, depth: nat) returns (calls: seq<Call>)
    requires c.pos <= |data| && !Ends(data, c, depth)
    ensures IsChain(data, calls) && |calls| == depth + 1 && calls[0] == c
    decreases depth
  {
    hide Ends, Makes;
    if depth == 0 {
      calls := [c];
    } else {
      var d := EndlessMakesEndless(data, c, depth - 1);
      var rest := EndlessChain(data, d, depth - 1);
      calls := [c] + rest;
      assert forall i :: 0 < i < |calls| ==> calls[i] == rest[i - 1];
    }
  }

  /** No call on a chain that re-enters one of its calls ever ends. */
  lemma {:induction false} LoopNeverEnds(data: bytes, calls: seq<Call>, i: nat, j: nat, k: nat, depth: nat)
    requires IsChain(data, calls) && i < j < |calls| && calls[i] == calls[j] && k <= j
    ensures !Ends(data, calls[k], depth)
    decreases depth
  {
    hide Ends, Makes;
    if depth == 0 {
      NothingEndsAtOnce(data, calls[k]);
    } else {
      var at := if k == j then i else k;
      LoopNeverEnds(data, calls, i, j, at + 1, depth - 1);
      if Ends(data, calls[at], depth) { MadeCallsEnd(data, calls[at], calls[at + 1], depth - 1); }
    }
  }

  // ----- There are only so many calls -----

  /** How deep calls can be nested without a repeat. */
  function DeepEnough(data: bytes): nat {
    4 * (|data| + 1)
  }

  function Number(c: Call): nat {
    4 * c.pos + match c.kind case AValue => 0 case SomeItems => 1 case SomeEntries => 2 case APair => 3
  }

  lemma NumberInjective(c: Call, d: Call)
    requires Number(c) == Number(d)
    ensures c == d
  {
  }

  lemma {:induction false} DistinctAreFew(numbers: seq<nat>, n: nat)
    requires forall i :: 0 <= i < |numbers| ==> numbers[i] < n
    requires forall i, j :: 0 <= i < j < |numbers| ==> numbers[i] != numbers[j]
    ensures |numbers| <= n
    decreases n
  {
    if |numbers| > 0 {
      assert numbers[0] < n;
      if k :| 0 <= k < |numbers| && numbers[k] == n - 1 {
        DistinctAreFew(numbers[..k] + numbers[k + 1..], n - 1);
      } else {
        DistinctAreFew(numbers, n - 1);
      }
    }
  }

  lemma LongChainReenters(data: bytes, calls: seq<Call>)
    requires IsChain(data, calls) && |calls| > DeepEnough(data)
    ensures Reenters(calls)
  {
    hide Makes, Number;
    var numbers := seq(|calls|, i requires 0 <= i < |calls| => Number(calls[i]));
    forall i | 0 <= i < |numbers|
      ensures numbers[i] < DeepEnough(data)
    {
      NumberSmall(data, calls[i]);
    }
    if forall i, j :: 0 <= i < j < |numbers| ==> numbers[i] != numbers[j] {
      DistinctAreFew(numbers, DeepEnough(data));
      assert false;
    }
    var i, j :| 0 <= i < j < |numbers| && numbers[i] == numbers[j];
    NumberInjective(calls[i], calls[j]);
  }

  lemma NumberSmall(data: bytes, c: Call)
    requires c.pos <= |data|
    ensures Number(c) < DeepEnough(data)
  {
  }

  // ----- When the parser ends -----

  /** The parser ends exactly when no call is made again while it is still open, and that shows
      within a depth of four times the size of the input: if it has not ended there, it never does. */
  lemma EndsExactly(data: bytes, pos: nat)
    requires pos <= |data|
    ensures (exists depth: nat :: !ReadValue(data, pos, depth).Unfinished?) <==> !Loops(data, Call(AValue, pos))
    ensures !Loops(data, Call(AValue, pos)) <==> !ReadValue(data, pos, DeepEnough(data)).Unfinished?
  {
    hide Makes, ReadValue;
    var c := Call(AValue, pos);
    assert forall depth: nat :: Ends(data, c, depth) <==> !ReadValue(data, pos, depth).Unfinished?;
    assert Ends(data, c, DeepEnough(data)) <==> !ReadValue(data, pos, DeepEnough(data)).Unfinished?;
    if Loops(data, c) {
      var calls: seq<Call> :| IsChain(data, calls) && |calls| > 0 && calls[0] == c && Reenters(calls);
      var i, j :| 0 <= i < j < |calls| && calls[i] == calls[j];
      forall depth: nat
        ensures !Ends(data, c, depth)
      {
        LoopNeverEnds(data, calls, i, j, 0, depth);
      }
    } else if !Ends(data, c, DeepEnough(data)) {
      var calls := EndlessChain(data, c, DeepEnough(data));
      LongChainReenters(data, calls);
      assert false;
    }
  }

  /** A parser that does not end has met a negative length. */
  lemma LoopMeetsNegativeLength(data: bytes, pos: nat)
    requires pos <= |data| && Loops(data, Call(AValue, pos))
    ensures ParseValue(data[pos..]) == Err(NegativeLength)
  {
    hide ReadValue, ParseValue, Loops;
    EndsExactly(data, pos);
    if ParseValue(data[pos..]) != Err(NegativeLength) { ReadAgrees(data, pos, Enough(|data| - pos)); }
  }

  // ----- Two inputs with a negative length -----

  /** On d-4: the key's length moves the position back to the dictionary itself: the parser never ends. */
  lemma NegativeLengthNeedNotEnd(data: bytes)
    requires data == [CHAR_D, MINUS, 52, COLON]
    ensures forall depth: nat :: ReadValue(data, 0, depth).Unfinished?
  {
    hide ReadString;
    KeyRead(data, 52, 4);
    var calls := [Call(AValue, 0), Call(SomeEntries, 1), Call(APair, 1), Call(AValue, 0)];
    assert IsChain(data, calls);
    assert calls[0] == calls[3];
    assert Loops(data, Call(AValue, 0));
    EndsExactly(data, 0);
  }

  /** The key of a dictionary whose length is one negative digit. */
  lemma KeyRead(data: bytes, digit: byte, n: nat)
    requires |data| >= 4 && data[1..4] == [MINUS, digit, COLON] && 0 < n < 10 && digit == 48 + n
    ensures ReadString(data, 1) == if 4 - n < 0 then Thrown(LengthExceedsInput) else Done(data[4..], 4 - n)
    ensures ParseString(data[1..]) == Err(NegativeLength)
  {
    FindAfter([MINUS, digit], COLON, data[4..]);
    assert data[1..] == [MINUS, digit] + [COLON] + data[4..];
    assert data[1..3] == [MINUS, digit] == data[1..][..2];
    var length: int64 := -(n as int);
    assert ToString(length) == [MINUS, digit];
    StollOfToString(length);
  }

  /** On d-2:abe the position moves back onto the length: its digit and colon are read again as those
      of the value, and the parser ends after the whole input. */
  lemma NegativeLengthMayEnd(data: bytes)
    requires data == [CHAR_D, MINUS, 50, COLON, 97, 98, CHAR_E]
    ensures ParseValue(data) == Err(NegativeLength)
    ensures ReadValue(data, 0, DeepEnough(data)) == Done(Dict([Entry([97, 98, CHAR_E], Str([97, 98]))]), 7)
  {
    KeyRead(data, 50, 2);
    SecondReading(data);
    var entry := Entry([97, 98, CHAR_E], Str([97, 98]));
    ParseNegativeKey(data);
    hide ReadString, FromEntries;
    var deep := DeepEnough(data);
    assert data[4..] == entry.key;
    assert ReadValue(data, 2, deep - 3) == Done(entry.value, 6);
    assert ReadPair(data, 1, deep - 2) == Done(entry, 6);
    assert ReadEntries(data, 6, deep - 2) == Done([], 7);
    assert [entry] + [] == [entry];
    assert ReadEntries(data, 1, deep - 1) == Done([entry], 7);
    OneEntry(entry);
  }

  lemma OneEntry(entry: Entry)
    ensures FromEntries([entry]) == [entry]
  {
    assert [entry][..0] == [];
    assert FromEntries([]) == [];
  }

  lemma SecondReading(data: bytes)
    requires data == [CHAR_D, MINUS, 50, COLON, 97, 98, CHAR_E]
    ensures ReadString(data, 2) == Done([97, 98], 6)
  {
    FindAfter([50], COLON, [97, 98, CHAR_E]);
    assert data[2..] == [50] + [COLON] + [97, 98, CHAR_E];
    assert data[2..3] == [50] == ToString(2) && data[4..6] == [97, 98];
    StollOfToString(2);
  }

  lemma ParseNegativeKey(data: bytes)
    requires |data| > 1 && data[0] == CHAR_D && data[1] != CHAR_E && ParseString(data[1..]) == Err(NegativeLength)
    ensures ParseValue(data) == Err(NegativeLength)
  {
    hide ParseString;
    assert ParseEntry(data[1..]) == Err(NegativeLength);
    assert ParseEntries(data[1..]) == Err(NegativeLength);
  }
}

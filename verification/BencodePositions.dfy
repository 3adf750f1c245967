/** The parser as it runs: over a position in the whole input, which a negative length moves back. */
module BencodePositions {
  import opened Bytes
  import opened Decimal
  import opened Bencode

  /** The value read and the position after it, the exception, or a run whose calls and loop passes,
      each counted inside the one that makes or precedes it, nest deeper than it was given. */
  datatype Outcome<+T> = Done(value: T, next: nat) | Thrown(error: Error) | Unfinished

  /** What the function of the remaining bytes says, at a position. */
  function Lift<T>(r: Parsed<T>, pos: nat): Outcome<T> {
    match r
    case Ok(v, used) => Done(v, pos + used)
    case Err(e) => Thrown(e)
  }

  function ReadInt(data: bytes, pos: nat): (r: Outcome<int64>)
    requires pos < |data|
    ensures !r.Unfinished? && (r.Done? ==> r.next <= |data|)
  {
    Lift(ParseInt(data[pos..]), pos)
  }

  /** A negative length is added to the position in 64 bits unsigned: below zero it exceeds every
      size; otherwise the rest of the input is taken and the position moves back. */
  function ReadString(data: bytes, pos: nat): (r: Outcome<bytes>)
    requires pos <= |data|
    ensures !r.Unfinished? && (r.Done? ==> r.next <= |data|)
  {
    var colon := pos + Find(data[pos..], COLON);
    if colon == |data| then Thrown(InvalidStringFormat)
    else match Stoll(data[pos..colon])
      case None => Thrown(InvalidLength)
      case Some(n) =>
        var start := colon + 1;
        if start + n < 0 || start + n > |data| then Thrown(LengthExceedsInput)
        else Done(if n < 0 then data[start..] else data[start..start + n], start + n)
  }

  function ReadValue(data: bytes, pos: nat, fuel: nat): (r: Outcome<Value>)
    requires pos <= |data|
    ensures r.Done? ==> r.next <= |data|
    decreases fuel
  {
    if fuel == 0 then Unfinished
    else if pos == |data| then Thrown(UnexpectedEnd)
    else if data[pos] == CHAR_I then
      match ReadInt(data, pos)
      case Done(n, next) => Done(Int(n), next)
      case Thrown(e) => Thrown(e)
      case Unfinished => Unfinished
    else if data[pos] == CHAR_L then
      match ReadItems(data, pos + 1, fuel - 1)
      case Done(items, next) => Done(List(items), next)
      case Thrown(e) => Thrown(e)
      case Unfinished => Unfinished
    else if data[pos] == CHAR_D then
      match ReadEntries(data, pos + 1, fuel - 1)
      case Done(raw, next) => Done(Dict(FromEntries(raw)), next)
      case Thrown(e) => Thrown(e)
      case Unfinished => Unfinished
    else if IsDigit(data[pos]) then
      match ReadString(data, pos)
      case Done(s, next) => Done(Str(s), next)
      case Thrown(e) => Thrown(e)
      case Unfinished => Unfinished
    else Thrown(InvalidFormat)
  }

  /** The passes of parseList's loop from a position on. */
  function ReadItems(data: bytes, pos: nat, fuel: nat): (r: Outcome<seq<Value>>)
    requires pos <= |data|
    ensures r.Done? ==> r.next <= |data|
    decreases fuel
  {
    if fuel == 0 then Unfinished
    else if pos == |data| then Thrown(InvalidList)
    else if data[pos] == CHAR_E then Done([], pos + 1)
    else match ReadValue(data, pos, fuel - 1)
      case Thrown(e) => Thrown(e)
      case Unfinished => Unfinished
      case Done(v, next) => Put([v], ReadItems(data, next, fuel - 1))
  }

  /** The passes of parseDict's loop from a position on. */
  function ReadEntries(data: bytes, pos: nat, fuel: nat): (r: Outcome<seq<Entry>>)
    requires pos <= |data|
    ensures r.Done? ==> r.next <= |data|
    decreases fuel
  {
    if fuel == 0 then Unfinished
    else if pos == |data| then Thrown(InvalidDictionary)
    else if data[pos] == CHAR_E then Done([], pos + 1)
    else match ReadPair(data, pos, fuel - 1)
      case Thrown(e) => Thrown(e)
      case Unfinished => Unfinished
      case Done(entry, next) => Put([entry], ReadEntries(data, next, fuel - 1))
  }

  /** A key and its value. */
  function ReadPair(data: bytes, pos: nat, fuel: nat): (r: Outcome<Entry>)
    requires pos <= |data|
    ensures r.Done? ==> r.next <= |data|
    decreases fuel
  {
    if fuel == 0 then Unfinished
    else match ReadString(data, pos)
      case Thrown(e) => Thrown(e)
      case Unfinished => Unfinished
      case Done(key, middle) =>
        match ReadValue(data, middle, fuel - 1)
        case Thrown(e) => Thrown(e)
        case Unfinished => Unfinished
        case Done(v, next) => Done(Entry(key, v), next)
  }

  /** A list read so far, put before the rest of it. */
  function Put<T>(xs: seq<T>, r: Outcome<seq<T>>): (all: Outcome<seq<T>>)
    ensures xs == [] ==> all == r
  {
    match r
    case Done(more, next) =>
      assert xs == [] ==> xs + more == more;
      Done(xs + more, next)
    case Thrown(e) => Thrown(e)
    case Unfinished => Unfinished
  }

  lemma PutTwice<T>(xs: seq<T>, ys: seq<T>, r: Outcome<seq<T>>)
    ensures Put(xs, Put(ys, r)) == Put(xs + ys, r)
  {
    if r.Done? { assert xs + (ys + r.value) == (xs + ys) + r.value; }
  }

  // ----- Without negative lengths, the run ends and agrees with the function of the bytes left -----

  /** A depth that suffices for a value in n remaining bytes. */
  function Enough(n: nat): nat {
    3 * n + 1
  }

  lemma StringAgrees(data: bytes, pos: nat)
    requires pos <= |data| && ParseString(data[pos..]) != Err(NegativeLength)
    ensures ReadString(data, pos) == Lift(ParseString(data[pos..]), pos)
  {
    var k := Find(data[pos..], COLON);
    if k < |data| - pos {
      assert data[pos..][..k] == data[pos..pos + k];
      var n := Stoll(data[pos..pos + k]);
      if n.Some? && n.value >= 0 && pos + k + 1 + n.value <= |data| {
        assert data[pos..][k + 1..k + 1 + n.value] == data[pos + k + 1..pos + k + 1 + n.value];
      }
    }
  }

  /** An input on which no negative length is met is parsed within a depth linear in its size, to the
      result of the function of its bytes. */
  lemma {:induction false} ReadAgrees(data: bytes, pos: nat, fuel: nat)
    requires pos <= |data| && fuel >= Enough(|data| - pos)
    requires ParseValue(data[pos..]) != Err(NegativeLength)
    ensures ReadValue(data, pos, fuel) == Lift(ParseValue(data[pos..]), pos)
    decreases fuel
  {
    hide ReadString, ReadItems, ReadEntries, ParseString, ParseItems, ParseEntries, ParseInt;
    if pos < |data| {
      assert data[pos..][1..] == data[pos + 1..];
      if data[pos] == CHAR_L {
        ItemsAgree(data, pos + 1, fuel - 1);
      } else if data[pos] == CHAR_D {
        EntriesAgree(data, pos + 1, fuel - 1);
      } else if data[pos] != CHAR_I && IsDigit(data[pos]) {
        StringAgrees(data, pos);
      }
    }
  }

  lemma {:induction false} ItemsAgree(data: bytes, pos: nat, fuel: nat)
    requires pos <= |data| && fuel >= Enough(|data| - pos) + 1
    requires ParseItems(data[pos..]) != Err(NegativeLength)
    ensures ReadItems(data, pos, fuel) == Lift(ParseItems(data[pos..]), pos)
    decreases fuel
  {
    hide ReadValue, ParseValue;
    if pos < |data| && data[pos] != CHAR_E {
      ReadAgrees(data, pos, fuel - 1);
      var r := ParseValue(data[pos..]);
      if r.Ok? {
        assert data[pos..][r.used..] == data[pos + r.used..];
        ItemsAgree(data, pos + r.used, fuel - 1);
      }
    }
  }

  lemma {:induction false} EntriesAgree(data: bytes, pos: nat, fuel: nat)
    requires pos <= |data| && fuel >= Enough(|data| - pos) + 2
    requires ParseEntries(data[pos..]) != Err(NegativeLength)
    ensures ReadEntries(data, pos, fuel) == Lift(ParseEntries(data[pos..]), pos)
    decreases fuel
  {
    hide ReadPair, ParseEntry;
    if pos < |data| && data[pos] != CHAR_E {
      PairAgrees(data, pos, fuel - 1);
      var r := ParseEntry(data[pos..]);
      if r.Ok? {
        assert data[pos..][r.used..] == data[pos + r.used..];
        EntriesAgree(data, pos + r.used, fuel - 1);
      }
    }
  }

  lemma {:induction false} PairAgrees(data: bytes, pos: nat, fuel: nat)
    requires pos <= |data| && fuel >= Enough(|data| - pos) + 1
    requires ParseEntry(data[pos..]) != Err(NegativeLength)
    ensures ReadPair(data, pos, fuel) == Lift(ParseEntry(data[pos..]), pos)
    decreases fuel
  {
    hide ReadString, ReadValue, ParseString, ParseValue;
    StringAgrees(data, pos);
    var r := ParseString(data[pos..]);
    if r.Ok? {
      assert data[pos..][r.used..] == data[pos + r.used..];
      ReadAgrees(data, pos + r.used, fuel - 1);
    }
  }

  // ----- A run that ends has one result -----

  /** Allowing more depth changes no result but Unfinished, so the depth allowed never shows in the
      result of a run that ends. */
  lemma {:induction false} DeeperSameResult(data: bytes, pos: nat, fuel: nat, more: nat)
    requires pos <= |data| && fuel <= more && !ReadValue(data, pos, fuel).Unfinished?
    ensures ReadValue(data, pos, more) == ReadValue(data, pos, fuel)
    decreases fuel
  {
    hide ReadString, ReadItems, ReadEntries, ReadInt, FromEntries;
    if pos < |data| && data[pos] == CHAR_L {
      ItemsSameResult(data, pos + 1, fuel - 1, more - 1);
    } else if pos < |data| && data[pos] == CHAR_D {
      EntriesSameResult(data, pos + 1, fuel - 1, more - 1);
    }
  }

  lemma {:induction false} ItemsSameResult(data: bytes, pos: nat, fuel: nat, more: nat)
    requires pos <= |data| && fuel <= more && !ReadItems(data, pos, fuel).Unfinished?
    ensures ReadItems(data, pos, more) == ReadItems(data, pos, fuel)
    decreases fuel
  {
    hide ReadValue;
    if pos < |data| && data[pos] != CHAR_E {
      DeeperSameResult(data, pos, fuel - 1, more - 1);
      var first := ReadValue(data, pos, fuel - 1);
      if first.Done? { ItemsSameResult(data, first.next, fuel - 1, more - 1); }
    }
  }

  lemma {:induction false} EntriesSameResult(data: bytes, pos: nat, fuel: nat, more: nat)
    requires pos <= |data| && fuel <= more && !ReadEntries(data, pos, fuel).Unfinished?
    ensures ReadEntries(data, pos, more) == ReadEntries(data, pos, fuel)
    decreases fuel
  {
    hide ReadPair;
    if pos < |data| && data[pos] != CHAR_E {
      PairSameResult(data, pos, fuel - 1, more - 1);
      var first := ReadPair(data, pos, fuel - 1);
      if first.Done? { EntriesSameResult(data, first.next, fuel - 1, more - 1); }
    }
  }

  lemma {:induction false} PairSameResult(data: bytes, pos: nat, fuel: nat, more: nat)
    requires pos <= |data| && fuel <= more && !ReadPair(data, pos, fuel).Unfinished?
    ensures ReadPair(data, pos, more) == ReadPair(data, pos, fuel)
    decreases fuel
  {
    hide ReadValue;
    var key := ReadString(data, pos);
    if key.Done? { DeeperSameResult(data, key.next, fuel - 1, more - 1); }
  }
}

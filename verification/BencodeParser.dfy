/** The parser's loops. */
module BencodeParser {
  import opened Bytes
  import opened Decimal
  import opened Bencode
  import opened BencodePositions

  /** parse, cut off at the given depth. */
  method Parse(data: bytes, fuel: nat) returns (r: Outcome<Value>)
    ensures r == ReadValue(data, 0, fuel)
  {
    r := ParseValue(data, 0, fuel);
  }

  method ParseInt(data: bytes, pos: nat) returns (r: Outcome<int64>)
    requires pos < |data|
    ensures r == ReadInt(data, pos)
  {
    var next := pos + 1;
    var end := next + Find(data[next..], CHAR_E);
    if end == |data| { return Thrown(InvalidIntegerFormat); }
    var number := data[next..end];
    assert data[pos..][1..] == data[next..];
    assert data[pos..][1..1 + Find(data[next..], CHAR_E)] == number;
    match Stoll(number)
    case None => r := Thrown(InvalidIntegerValue);
    case Some(n) => r := Done(n, end + 1);
  }

  method ParseString(data: bytes, pos: nat) returns (r: Outcome<bytes>)
    requires pos <= |data|
    ensures r == ReadString(data, pos)
  {
    var colon := pos + Find(data[pos..], COLON);
    if colon == |data| { return Thrown(InvalidStringFormat); }
    match Stoll(data[pos..colon])
    case None => r := Thrown(InvalidLength);
    case Some(length) =>
      var start := colon + 1;
      if start + length < 0 || start + length > |data| { return Thrown(LengthExceedsInput); }
      var result := if length < 0 then data[start..] else data[start..start + length];
      r := Done(result, start + length);
  }

  method ParseValue(data: bytes, pos: nat, fuel: nat) returns (r: Outcome<Value>)
    requires pos <= |data|
    ensures r == ReadValue(data, pos, fuel)
    decreases fuel, 0
  {
    hide ReadInt, ReadString, ReadItems, ReadEntries;
    if fuel == 0 { return Unfinished; }
    if pos >= |data| { return Thrown(UnexpectedEnd); }
    var ch := data[pos];
    if ch == CHAR_I {
      var n := ParseInt(data, pos);
      match n
      case Done(value, next) => r := Done(Int(value), next);
      case Thrown(e) => r := Thrown(e);
      case Unfinished => r := Unfinished;
    } else if ch == CHAR_L {
      var items := ParseList(data, pos, fuel - 1);
      match items
      case Done(value, next) => r := Done(List(value), next);
      case Thrown(e) => r := Thrown(e);
      case Unfinished => r := Unfinished;
    } else if ch == CHAR_D {
      var d := ParseDict(data, pos, fuel - 1);
      match d
      case Done(value, next) => r := Done(Dict(value), next);
      case Thrown(e) => r := Thrown(e);
      case Unfinished => r := Unfinished;
    } else if IsDigit(ch) {
      var s := ParseString(data, pos);
      match s
      case Done(value, next) => r := Done(Str(value), next);
      case Thrown(e) => r := Thrown(e);
      case Unfinished => r := Unfinished;
    } else {
      r := Thrown(InvalidFormat);
    }
  }

  method ParseList(data: bytes, pos: nat, fuel: nat) returns (r: Outcome<seq<Value>>)
    requires pos < |data|
    ensures r == ReadItems(data, pos + 1, fuel)
    decreases fuel, 1
  {
    hide ReadValue;
    var next, left := pos + 1, fuel;
    var result: seq<Value> := [];
    while left > 0 && next < |data| && data[next] != CHAR_E
      invariant 0 <= next <= |data| && 0 <= left <= fuel
      invariant ReadItems(data, pos + 1, fuel) == Put(result, ReadItems(data, next, left))
      decreases left
    {
      left := left - 1;
      var v := ParseValue(data, next, left);
      if v.Thrown? { return Thrown(v.error); }
      if v.Unfinished? { return Unfinished; }
      PutTwice(result, [v.value], ReadItems(data, v.next, left));
      result := result + [v.value];
      next := v.next;
    }
    if left == 0 { return Unfinished; }
    if next >= |data| || data[next] != CHAR_E { return Thrown(InvalidList); }
    assert result + [] == result;
    r := Done(result, next + 1);
  }

  /** The dictionary of the entries read. */
  function AsDict(r: Outcome<seq<Entry>>): Outcome<seq<Entry>> {
    match r
    case Done(raw, next) => Done(FromEntries(raw), next)
    case Thrown(e) => Thrown(e)
    case Unfinished => Unfinished
  }

  /** One pass of parseDict's loop, up to the assignment into the map. */
  method ParsePair(data: bytes, pos: nat, fuel: nat) returns (r: Outcome<Entry>)
    requires pos < |data|
    ensures r == ReadPair(data, pos, fuel)
    decreases fuel, 0
  {
    hide ReadString, ReadValue;
    if fuel == 0 { return Unfinished; }
    var key := ParseString(data, pos);
    if key.Thrown? { return Thrown(key.error); }
    if key.Unfinished? { return Unfinished; }
    var v := ParseValue(data, key.next, fuel - 1);
    if v.Thrown? { return Thrown(v.error); }
    if v.Unfinished? { return Unfinished; }
    r := Done(Entry(key.value, v.value), v.next);
  }

  method ParseDict(data: bytes, pos: nat, fuel: nat) returns (r: Outcome<seq<Entry>>)
    requires pos < |data|
    ensures r == AsDict(ReadEntries(data, pos + 1, fuel))
    decreases fuel, 1
  {
    hide ReadPair, Insert, FromEntries;
    EmptyDict();
    var next, left := pos + 1, fuel;
    var result: seq<Entry> := [];
    ghost var raw: seq<Entry> := [];
    while left > 0 && next < |data| && data[next] != CHAR_E
      invariant 0 <= next <= |data| && 0 <= left <= fuel
      invariant result == FromEntries(raw)
      invariant ReadEntries(data, pos + 1, fuel) == Put(raw, ReadEntries(data, next, left))
      decreases left
    {
      left := left - 1;
      var entry := ParsePair(data, next, left);
      if entry.Thrown? { return Thrown(entry.error); }
      if entry.Unfinished? { return Unfinished; }
      PutTwice(raw, [entry.value], ReadEntries(data, entry.next, left));
      FromEntriesSnoc(raw, entry.value);
      raw := raw + [entry.value];
      result := Insert(result, entry.value.key, entry.value.value);
      next := entry.next;
    }
    if left == 0 { return Unfinished; }
    if next >= |data| || data[next] != CHAR_E { return Thrown(InvalidDictionary); }
    assert raw + [] == raw;
    r := Done(result, next + 1);
  }

  lemma EmptyDict()
    ensures FromEntries([]) == []
  {
  }

  lemma FromEntriesSnoc(raw: seq<Entry>, entry: Entry)
    ensures FromEntries(raw + [entry]) == Insert(FromEntries(raw), entry.key, entry.value)
  {
    assert (raw + [entry])[..|raw|] == raw;
  }
}

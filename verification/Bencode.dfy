/** Bencoded values, the printer, and the parser as a function of the bytes left to read. */
module Bencode {
  import opened Bytes
  import opened Decimal

  const CHAR_I: byte := 'i' as int
  const CHAR_L: byte := 'l' as int
  const CHAR_D: byte := 'd' as int
  const CHAR_E: byte := 'e' as int
  const COLON: byte := ':' as int

  /** A BencodedValue. A BencodedDict is a std::map, so its entries are kept in key order. */
  datatype Value =
    | Int(n: int64)
    | Str(s: bytes)
    | List(items: seq<Value>)
    | Dict(entries: seq<Entry>)

  datatype Entry = Entry(key: bytes, value: Value)

  // ----- Ordered dictionaries -----

  predicate Sorted(d: seq<Entry>) {
    forall i, j :: 0 <= i < j < |d| ==> LexLess(d[i].key, d[j].key)
  }

  /** result[key] = value. */
  function Insert(d: seq<Entry>, key: bytes, value: Value): seq<Entry> {
    if |d| == 0 || LexLess(key, d[0].key) then [Entry(key, value)] + d
    else if key == d[0].key then [Entry(key, value)] + d[1..]
    else [d[0]] + Insert(d[1..], key, value)
  }

  /** find(key), or at(key) when the caller lets the exception pass. */
  function Lookup(d: seq<Entry>, key: bytes): Option<Value> {
    if |d| == 0 then None
    else if d[0].key == key then Some(d[0].value)
    else Lookup(d[1..], key)
  }

  /** The dictionary that results from assigning the entries one after the other. */
  function FromEntries(raw: seq<Entry>): seq<Entry> {
    if |raw| == 0 then []
    else Insert(FromEntries(raw[..|raw| - 1]), raw[|raw| - 1].key, raw[|raw| - 1].value)
  }

  /** What the C++ types guarantee of a value: string sizes fit int64, maps are in key order. */
  predicate Valid(v: Value) {
    match v
    case Int(_) => true
    case Str(s) => |s| <= INT64_MAX
    case List(items) => ValidItems(items)
    case Dict(entries) => Sorted(entries) && ValidEntries(entries)
  }

  predicate ValidItems(items: seq<Value>) {
    forall i :: 0 <= i < |items| ==> Valid(items[i])
  }

  predicate ValidEntries(entries: seq<Entry>) {
    forall i :: 0 <= i < |entries| ==> |entries[i].key| <= INT64_MAX && Valid(entries[i].value)
  }

  // ----- Printer -----

  function EncodeString(s: bytes): (r: bytes)
    ensures |r| > 0 && IsDigit(r[0])
  {
    ToString(|s|) + [COLON] + s
  }

  function Encode(v: Value): (r: bytes)
    ensures |r| > 0 && (r[0] in {CHAR_I, CHAR_L, CHAR_D} || IsDigit(r[0]))
  {
    match v
    case Int(n) => [CHAR_I] + ToString(n) + [CHAR_E]
    case Str(s) => EncodeString(s)
    case List(items) => [CHAR_L] + EncodeItems(items) + [CHAR_E]
    case Dict(entries) => [CHAR_D] + EncodeEntries(entries) + [CHAR_E]
  }

  function EncodeItems(items: seq<Value>): bytes {
    if |items| == 0 then [] else Encode(items[0]) + EncodeItems(items[1..])
  }

  function EncodeEntries(entries: seq<Entry>): bytes {
    if |entries| == 0 then [] else EncodeEntry(entries[0]) + EncodeEntries(entries[1..])
  }

  function EncodeEntry(entry: Entry): (r: bytes)
    ensures |r| > 0 && IsDigit(r[0])
  {
    EncodeString(entry.key) + Encode(entry.value)
  }

  // ----- Parser -----

  datatype Error =
    | UnexpectedEnd
    | InvalidIntegerFormat
    | InvalidIntegerValue
    | InvalidStringFormat
    | InvalidLength
    | LengthExceedsInput
    | InvalidList
    | InvalidDictionary
    | InvalidFormat
    // A dictionary key whose length prefix is negative: the source then moves pos backwards, which
    // a function of the bytes left cannot say.
    | NegativeLength

  /** A parsed value with the number of bytes it took, or the exception. */
  datatype Parsed<+T> = Ok(value: T, used: nat) | Err(error: Error)

  /** A list read so far, put before the rest of it. */
  function Prepend<T>(xs: seq<T>, used: nat, r: Parsed<seq<T>>): (all: Parsed<seq<T>>)
    ensures xs == [] && used == 0 ==> all == r
  {
    match r
    case Ok(more, n) =>
      assert xs == [] ==> xs + more == more;
      Ok(xs + more, used + n)
    case Err(e) => Err(e)
  }

  /** s.find(c), with |s| for npos. */
  function Find(s: bytes, c: byte): (k: nat)
    ensures k <= |s|
  {
    if |s| == 0 || s[0] == c then 0 else 1 + Find(s[1..], c)
  }

  lemma {:induction false} FindFirst(s: bytes, c: byte)
    ensures Find(s, c) < |s| ==> s[Find(s, c)] == c
    ensures forall i :: 0 <= i < Find(s, c) ==> s[i] != c
  {
    if |s| > 0 && s[0] != c {
      FindFirst(s[1..], c);
      assert forall i :: 0 < i < |s| ==> s[i] == s[1..][i - 1];
    }
  }

  function ParseInt(s: bytes): (r: Parsed<int64>)
    requires |s| > 0
    ensures r.Ok? ==> 0 < r.used <= |s|
  {
    var k := Find(s[1..], CHAR_E);
    if k == |s| - 1 then Err(InvalidIntegerFormat)
    else match Stoll(s[1..1 + k])
      case None => Err(InvalidIntegerValue)
      case Some(n) => Ok(n, k + 2)
  }

  function ParseString(s: bytes): (r: Parsed<bytes>)
    ensures r.Ok? ==> 0 < r.used <= |s| && |r.value| <= INT64_MAX
  {
    var k := Find(s, COLON);
    if k == |s| then Err(InvalidStringFormat)
    else match Stoll(s[..k])
      case None => Err(InvalidLength)
      case Some(n) =>
        if n < 0 then Err(NegativeLength)
        else if k + 1 + n > |s| then Err(LengthExceedsInput)
        else Ok(s[k + 1..k + 1 + n], k + 1 + n)
  }

  function ParseValue(s: bytes): (r: Parsed<Value>)
    ensures r.Ok? ==> 0 < r.used <= |s|
    decreases |s|, 0
  {
    if |s| == 0 then Err(UnexpectedEnd)
    else if s[0] == CHAR_I then
      match ParseInt(s)
      case Ok(n, used) => Ok(Int(n), used)
      case Err(e) => Err(e)
    else if s[0] == CHAR_L then
      match ParseItems(s[1..])
      case Ok(items, used) => Ok(List(items), 1 + used)
      case Err(e) => Err(e)
    else if s[0] == CHAR_D then
      match ParseEntries(s[1..])
      case Ok(raw, used) => Ok(Dict(FromEntries(raw)), 1 + used)
      case Err(e) => Err(e)
    else if IsDigit(s[0]) then
      match ParseString(s)
      case Ok(str, used) => Ok(Str(str), used)
      case Err(e) => Err(e)
    else Err(InvalidFormat)
  }

  /** The items of a list and its closing 'e'. */
  function ParseItems(s: bytes): (r: Parsed<seq<Value>>)
    ensures r.Ok? ==> 0 < r.used <= |s|
    decreases |s|, 1
  {
    if |s| == 0 then Err(InvalidList)
    else if s[0] == CHAR_E then Ok([], 1)
    else match ParseValue(s)
      case Err(e) => Err(e)
      case Ok(v, used) => Prepend([v], used, ParseItems(s[used..]))
  }

  /** The entries of a dictionary as they stand in the input, and its closing 'e'. */
  function ParseEntries(s: bytes): (r: Parsed<seq<Entry>>)
    ensures r.Ok? ==> 0 < r.used <= |s|
    decreases |s|, 1
  {
    if |s| == 0 then Err(InvalidDictionary)
    else if s[0] == CHAR_E then Ok([], 1)
    else match ParseEntry(s)
      case Err(e) => Err(e)
      case Ok(entry, used) => Prepend([entry], used, ParseEntries(s[used..]))
  }

  function ParseEntry(s: bytes): (r: Parsed<Entry>)
    ensures r.Ok? ==> 0 < r.used <= |s|
    decreases |s|, 0
  {
    match ParseString(s)
    case Err(e) => Err(e)
    case Ok(key, used) =>
      match ParseValue(s[used..])
      case Err(e) => Err(e)
      case Ok(v, more) => Ok(Entry(key, v), used + more)
  }

  // ----- Ordered dictionaries behave as maps -----

  lemma {:induction false} InsertAppends(d: seq<Entry>, key: bytes, value: Value)
    requires forall i :: 0 <= i < |d| ==> LexLess(d[i].key, key)
    ensures Insert(d, key, value) == d + [Entry(key, value)]
  {
    if |d| > 0 {
      LexIrreflexive(key);
      if LexLess(key, d[0].key) { LexTransitive(key, d[0].key, key); }
      InsertAppends(d[1..], key, value);
    }
  }

  /** Every key of Insert(d, key, value) is key or a key of d. */
  lemma {:induction false} InsertSorted(d: seq<Entry>, key: bytes, value: Value)
    requires Sorted(d)
    ensures Sorted(Insert(d, key, value))
    ensures forall e :: e in Insert(d, key, value) ==> e == Entry(key, value) || e in d
  {
    if |d| > 0 {
      LexTotal(key, d[0].key);
      if LexLess(key, d[0].key) {
        forall i | 0 <= i < |d|
          ensures LexLess(key, d[i].key)
        {
          if i > 0 { LexTransitive(key, d[0].key, d[i].key); }
        }
      } else if key != d[0].key {
        InsertSorted(d[1..], key, value);
        var rest := Insert(d[1..], key, value);
        forall i | 0 <= i < |rest|
          ensures LexLess(d[0].key, rest[i].key)
        {
          assert rest[i] in rest;
        }
      }
    }
  }

  lemma {:induction false} LookupInsert(d: seq<Entry>, key: bytes, value: Value, k: bytes)
    requires Sorted(d)
    ensures Lookup(Insert(d, key, value), k) == if k == key then Some(value) else Lookup(d, k)
  {
    if |d| > 0 && !LexLess(key, d[0].key) && key != d[0].key {
      LookupInsert(d[1..], key, value, k);
    }
  }

  lemma {:induction false} FromEntriesSorted(raw: seq<Entry>)
    ensures Sorted(FromEntries(raw))
    ensures forall e :: e in FromEntries(raw) ==> e in raw
  {
    if |raw| > 0 {
      var init, last := raw[..|raw| - 1], raw[|raw| - 1];
      FromEntriesSorted(init);
      InsertSorted(FromEntries(init), last.key, last.value);
      assert last == Entry(last.key, last.value);
      assert raw == init + [last];
    }
  }

  /** A key's last assignment wins. */
  lemma {:induction false} LookupFromEntries(raw: seq<Entry>, i: nat)
    requires i < |raw|
    requires forall j :: i < j < |raw| ==> raw[j].key != raw[i].key
    ensures Lookup(FromEntries(raw), raw[i].key) == Some(raw[i].value)
  {
    var init, last := raw[..|raw| - 1], raw[|raw| - 1];
    FromEntriesSorted(init);
    LookupInsert(FromEntries(init), last.key, last.value, raw[i].key);
    if i < |raw| - 1 { LookupFromEntries(init, i); }
  }

  lemma {:induction false} FromSortedEntries(raw: seq<Entry>)
    requires Sorted(raw)
    ensures FromEntries(raw) == raw
  {
    if |raw| > 0 {
      var init, last := raw[..|raw| - 1], raw[|raw| - 1];
      FromSortedEntries(init);
      InsertAppends(init, last.key, last.value);
      assert raw == init + [last];
    }
  }
}

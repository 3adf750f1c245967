/** Which inputs are canonical, by a grammar on bytes, and what re-encoding does to the others. */
module BencodeCanonical {
  import opened Bytes
  import opened Decimal
  import opened Bencode
  import opened BencodeRoundTrip

  // ----- The grammar -----

  predicate CanonicalInt(s: bytes) {
    && |s| >= 2 && s[0] == CHAR_I && s[|s| - 1] == CHAR_E
    && var t := s[1..|s| - 1];
    CanonicalInteger(t) && INT64_MIN <= IntegerValue(t) <= INT64_MAX
  }

  /** numeral ':' payload, the numeral being the payload's length. */
  predicate CanonicalStr(s: bytes) {
    var k := Find(s, COLON);
    && k < |s| && CanonicalNatural(s[..k])
    && DigitsValue(s[..k]) == |s| - (k + 1) <= INT64_MAX
  }

  function Payload(s: bytes): bytes
    requires CanonicalStr(s)
  {
    s[Find(s, COLON) + 1..]
  }

  predicate Delimited(s: bytes, open: byte) {
    |s| >= 2 && s[0] == open && s[|s| - 1] == CHAR_E
  }

  ghost predicate Canonical(s: bytes)
    decreases |s|, 0
  {
    || CanonicalInt(s)
    || CanonicalStr(s)
    || (Delimited(s, CHAR_L) && CanonicalItems(s[1..|s| - 1]))
    || (Delimited(s, CHAR_D) && CanonicalEntries(s[1..|s| - 1], None))
  }

  /** Canonical values one after the other. */
  ghost predicate CanonicalItems(s: bytes)
    decreases |s|, 1
  {
    |s| == 0 || exists k :: 0 < k <= |s| && Canonical(s[..k]) && CanonicalItems(s[k..])
  }

  /** Canonical keys and values in turn, every key greater than the one before it. */
  ghost predicate CanonicalEntries(s: bytes, previous: Option<bytes>)
    decreases |s|, 1
  {
    |s| == 0 || exists k, m :: 0 < k < m <= |s| && CanonicalPair(s, previous, k, m)
  }

  ghost predicate CanonicalPair(s: bytes, previous: Option<bytes>, k: nat, m: nat)
    requires 0 < k < m <= |s|
    decreases |s|, 0
  {
    && CanonicalStr(s[..k])
    && (previous.Some? ==> LexLess(previous.value, Payload(s[..k])))
    && Canonical(s[k..m])
    && CanonicalEntries(s[m..], Some(Payload(s[..k])))
  }

  /** Entries in key order, all after previous. */
  predicate SortedAfter(entries: seq<Entry>, previous: Option<bytes>) {
    Sorted(entries) && (previous.Some? && |entries| > 0 ==> LexLess(previous.value, entries[0].key))
  }

  // ----- Printing gives canonical strings -----

  lemma EncodeIntCanonical(n: int64)
    ensures CanonicalInt(Encode(Int(n)))
  {
    ToStringCanonical(n);
    var s := Encode(Int(n));
    assert s[1..|s| - 1] == ToString(n);
  }

  lemma EncodeStringCanonical(str: bytes)
    requires |str| <= INT64_MAX
    ensures CanonicalStr(EncodeString(str)) && Payload(EncodeString(str)) == str
  {
    var t := ToString(|str|);
    ToStringCanonical(|str|);
    ToStringHasNo(|str|, COLON);
    FindAfter(t, COLON, str);
    assert EncodeString(str)[..|t|] == t;
  }

  lemma {:induction false} EncodeCanonical(v: Value)
    requires Valid(v)
    ensures Canonical(Encode(v))
    decreases v, 1
  {
    var s := Encode(v);
    match v
    case Int(n) => EncodeIntCanonical(n);
    case Str(str) => EncodeStringCanonical(str);
    case List(items) =>
      EncodeItemsCanonical(items);
      assert s[1..|s| - 1] == EncodeItems(items);
    case Dict(entries) =>
      EncodeEntriesCanonical(entries, None);
      assert s[1..|s| - 1] == EncodeEntries(entries);
  }

  lemma {:induction false} EncodeItemsCanonical(items: seq<Value>)
    requires ValidItems(items)
    ensures CanonicalItems(EncodeItems(items))
    decreases items, 0
  {
    if |items| > 0 {
      var s, k := EncodeItems(items), |Encode(items[0])|;
      EncodeCanonical(items[0]);
      EncodeItemsCanonical(items[1..]);
      assert s[..k] == Encode(items[0]) && s[k..] == EncodeItems(items[1..]);
    }
  }

  lemma {:induction false} EncodeEntriesCanonical(entries: seq<Entry>, previous: Option<bytes>)
    requires ValidEntries(entries) && SortedAfter(entries, previous)
    ensures CanonicalEntries(EncodeEntries(entries), previous)
    decreases entries, 0
  {
    if |entries| > 0 {
      var s, key, value := EncodeEntries(entries), entries[0].key, entries[0].value;
      var k := |EncodeString(key)|;
      var m := k + |Encode(value)|;
      EncodeStringCanonical(key);
      EncodeCanonical(value);
      EncodeEntriesCanonical(entries[1..], Some(key));
      assert EncodeEntry(entries[0]) == EncodeString(key) + Encode(value);
      ThreeParts(EncodeString(key), Encode(value), EncodeEntries(entries[1..]));
      assert CanonicalPair(s, previous, k, m);
    }
  }

  lemma ThreeParts(a: bytes, b: bytes, c: bytes)
    ensures var s, k, m := (a + b) + c, |a|, |a| + |b|;
            s[..k] == a && s[k..m] == b && s[m..] == c
  {
  }

  // ----- Canonical strings are printed forms -----

  lemma CanonicalStrIsEncoding(s: bytes)
    requires CanonicalStr(s)
    ensures EncodeString(Payload(s)) == s && |Payload(s)| <= INT64_MAX
  {
    var k := Find(s, COLON);
    DigitsOfDigitsValue(s[..k]);
    FindFirst(s, COLON);
    assert s == s[..k] + [COLON] + s[k + 1..];
  }

  lemma {:induction false} CanonicalIsEncoding(s: bytes) returns (v: Value)
    requires Canonical(s)
    ensures Valid(v) && Encode(v) == s
    decreases |s|, 0
  {
    hide CanonicalItems, CanonicalEntries, EncodeItems, EncodeEntries;
    if CanonicalInt(s) {
      var t := s[1..|s| - 1];
      v := Int(IntegerValue(t));
      ToStringOfIntegerValue(t);
      assert s == [CHAR_I] + t + [CHAR_E];
    } else if CanonicalStr(s) {
      v := Str(Payload(s));
      CanonicalStrIsEncoding(s);
    } else if Delimited(s, CHAR_L) && CanonicalItems(s[1..|s| - 1]) {
      var items := CanonicalItemsAreEncoding(s[1..|s| - 1]);
      v := List(items);
      assert s == [CHAR_L] + s[1..|s| - 1] + [CHAR_E];
    } else {
      var entries := CanonicalEntriesAreEncoding(s[1..|s| - 1], None);
      v := Dict(entries);
      assert s == [CHAR_D] + s[1..|s| - 1] + [CHAR_E];
    }
  }

  lemma {:induction false} CanonicalItemsAreEncoding(s: bytes) returns (items: seq<Value>)
    requires CanonicalItems(s)
    ensures ValidItems(items) && EncodeItems(items) == s
    decreases |s|, 1
  {
    hide Canonical, Encode;
    if |s| == 0 {
      items := [];
    } else {
      var k :| 0 < k <= |s| && Canonical(s[..k]) && CanonicalItems(s[k..]);
      var v := CanonicalIsEncoding(s[..k]);
      var rest := CanonicalItemsAreEncoding(s[k..]);
      items := [v] + rest;
      assert items[1..] == rest;
    }
  }

  lemma {:induction false} CanonicalEntriesAreEncoding(s: bytes, previous: Option<bytes>) returns (entries: seq<Entry>)
    requires CanonicalEntries(s, previous)
    ensures ValidEntries(entries) && SortedAfter(entries, previous) && EncodeEntries(entries) == s
    decreases |s|, 1
  {
    hide CanonicalPair, CanonicalStr, EncodeEntry;
    if |s| == 0 {
      entries := [];
    } else {
      var k, m :| 0 < k < m <= |s| && CanonicalPair(s, previous, k, m);
      var entry := CanonicalPairIsEncoding(s, previous, k, m);
      var rest := CanonicalEntriesAreEncoding(s[m..], Some(entry.key));
      entries := [entry] + rest;
      assert s == s[..m] + s[m..];
      EncodeEntriesCons(entry, rest);
      ConsSorted(entry, rest);
    }
  }

  lemma {:induction false} CanonicalPairIsEncoding(s: bytes, previous: Option<bytes>, k: nat, m: nat)
    returns (entry: Entry)
    requires 0 < k < m <= |s| && CanonicalPair(s, previous, k, m)
    ensures entry.key == Payload(s[..k]) && |entry.key| <= INT64_MAX && Valid(entry.value)
    ensures EncodeEntry(entry) == s[..m]
    ensures CanonicalEntries(s[m..], Some(entry.key))
    ensures previous.Some? ==> LexLess(previous.value, entry.key)
    decreases |s|, 0
  {
    hide Canonical, CanonicalStr;
    CanonicalStrIsEncoding(s[..k]);
    var v := CanonicalIsEncoding(s[k..m]);
    entry := Entry(Payload(s[..k]), v);
    assert s[..m] == s[..k] + s[k..m];
  }

  lemma EncodeEntriesCons(entry: Entry, rest: seq<Entry>)
    ensures EncodeEntries([entry] + rest) == EncodeEntry(entry) + EncodeEntries(rest)
  {
    assert ([entry] + rest)[1..] == rest;
  }

  lemma ConsSorted(e: Entry, rest: seq<Entry>)
    requires SortedAfter(rest, Some(e.key))
    ensures Sorted([e] + rest)
  {
    forall j | 0 <= j < |rest|
      ensures LexLess(e.key, rest[j].key)
    {
      if j > 0 { LexTransitive(e.key, rest[0].key, rest[j].key); }
    }
  }

  // ----- Main results -----

  /** Re-encoding what was parsed reproduces the input exactly when the input is canonical. */
  lemma ReencodeIsIdentityIffCanonical(s: bytes)
    requires ParseValue(s).Ok? && ParseValue(s).used == |s|
    ensures Encode(ParseValue(s).value) == s <==> Canonical(s)
  {
    var v := ParseValue(s).value;
    ParseValid(s);
    EncodeCanonical(v);
    if Canonical(s) {
      var w := CanonicalIsEncoding(s);
      ParseEncode(w, []);
      assert s + [] == s;
    }
  }

  /** Re-encoding any accepted input gives a canonical string that parses to the same value. */
  lemma ReencodeCanonicalizes(s: bytes)
    requires ParseValue(s).Ok?
    ensures var v := ParseValue(s).value;
            Canonical(Encode(v)) && ParseValue(Encode(v)) == Ok(v, |Encode(v)|)
  {
    var v := ParseValue(s).value;
    ParseValid(s);
    EncodeCanonical(v);
    ParseEncode(v, []);
    assert Encode(v) + [] == Encode(v);
  }

  /** The parser accepts every canonical string whole. */
  lemma CanonicalAccepted(s: bytes)
    requires Canonical(s)
    ensures ParseValue(s).Ok? && ParseValue(s).used == |s|
  {
    var v := CanonicalIsEncoding(s);
    ParseEncode(v, []);
    assert s + [] == s;
  }
}

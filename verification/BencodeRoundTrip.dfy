/** Parsing inverts printing, depends only on the bytes it takes, and yields valid values. */
module BencodeRoundTrip {
  import opened Bytes
  import opened Decimal
  import opened Bencode

  // ----- The first e or colon -----

  lemma {:induction false} FindAtMost(s: bytes, c: byte, i: nat)
    requires i < |s| && s[i] == c
    ensures Find(s, c) <= i
  {
    if i > 0 && s[0] != c { FindAtMost(s[1..], c, i - 1); }
  }

  lemma FindAfter(a: bytes, c: byte, rest: bytes)
    requires forall i :: 0 <= i < |a| ==> a[i] != c
    ensures Find(a + [c] + rest, c) == |a|
  {
    var s := a + [c] + rest;
    FindFirst(s, c);
    assert s[|a|] == c;
    assert forall i :: 0 <= i < |a| ==> s[i] == a[i];
    FindAtMost(s, c, |a|);
  }

  lemma ToStringHasNo(n: int, c: byte)
    requires c in {CHAR_E, COLON}
    ensures forall i :: 0 <= i < |ToString(n)| ==> ToString(n)[i] != c
  {
  }

  // ----- Round trip -----

  lemma ParseEncodeInt(n: int64, rest: bytes)
    ensures ParseInt(Encode(Int(n)) + rest) == Ok(n, |Encode(Int(n))|)
  {
    var s := Encode(Int(n)) + rest;
    var t := ToString(n);
    ToStringHasNo(n, CHAR_E);
    FindAfter(t, CHAR_E, rest);
    assert s[1..] == t + [CHAR_E] + rest;
    assert s[1..1 + |t|] == t;
    StollOfToString(n);
  }

  lemma ParseEncodeString(str: bytes, rest: bytes)
    requires |str| <= INT64_MAX
    ensures ParseString(EncodeString(str) + rest) == Ok(str, |EncodeString(str)|)
  {
    var s := EncodeString(str) + rest;
    var t := ToString(|str|);
    ToStringHasNo(|str|, COLON);
    FindAfter(t, COLON, str + rest);
    assert s == t + [COLON] + (str + rest);
    assert s[..|t|] == t;
    StollOfToString(|str|);
    assert s[|t| + 1..|t| + 1 + |str|] == str;
  }

  /** For every value and every continuation, the parser returns the value printed and stops at
      the end of what was printed. */
  lemma {:induction false} ParseEncode(v: Value, rest: bytes)
    requires Valid(v)
    ensures ParseValue(Encode(v) + rest) == Ok(v, |Encode(v)|)
    decreases v, 1
  {
    hide ParseInt, ParseString, ParseItems, ParseEntries, EncodeItems, EncodeEntries;
    var s := Encode(v) + rest;
    match v
    case Int(n) =>
      ParseEncodeInt(n, rest);
    case Str(str) =>
      ParseEncodeString(str, rest);
    case List(items) =>
      var body := EncodeItems(items) + ([CHAR_E] + rest);
      assert s == [CHAR_L] + body;
      ParseEncodeItems(items, rest);
      ListParses(body);
    case Dict(entries) =>
      var body := EncodeEntries(entries) + ([CHAR_E] + rest);
      assert s == [CHAR_D] + body;
      ParseEncodeEntries(entries, rest);
      FromSortedEntries(entries);
      DictParses(body);
  }

  lemma ListParses(body: bytes)
    requires ParseItems(body).Ok?
    ensures ParseValue([CHAR_L] + body) == Ok(List(ParseItems(body).value), 1 + ParseItems(body).used)
  {
    hide ParseItems;
    assert ([CHAR_L] + body)[1..] == body;
  }

  lemma DictParses(body: bytes)
    requires ParseEntries(body).Ok?
    ensures ParseValue([CHAR_D] + body) == Ok(Dict(FromEntries(ParseEntries(body).value)), 1 + ParseEntries(body).used)
  {
    hide ParseEntries;
    assert ([CHAR_D] + body)[1..] == body;
  }

  lemma {:induction false} ParseEncodeItems(items: seq<Value>, rest: bytes)
    requires ValidItems(items)
    ensures ParseItems(EncodeItems(items) + ([CHAR_E] + rest)) == Ok(items, |EncodeItems(items)| + 1)
    decreases items, 0
  {
    hide ParseValue, Encode;
    var s := EncodeItems(items) + ([CHAR_E] + rest);
    if |items| > 0 {
      var tail := EncodeItems(items[1..]) + ([CHAR_E] + rest);
      assert s == Encode(items[0]) + tail;
      ParseEncode(items[0], tail);
      ParseItemsStep(Encode(items[0]), tail, items[0]);
      ParseEncodeItems(items[1..], rest);
      assert items == [items[0]] + items[1..];
    }
  }

  lemma ParseItemsStep(head: bytes, tail: bytes, v: Value)
    requires |head| > 0 && head[0] != CHAR_E && ParseValue(head + tail) == Ok(v, |head|)
    ensures ParseItems(head + tail) == Prepend([v], |head|, ParseItems(tail))
  {
    hide ParseValue;
    assert (head + tail)[|head|..] == tail;
  }

  lemma {:induction false} ParseEncodeEntries(entries: seq<Entry>, rest: bytes)
    requires ValidEntries(entries)
    ensures ParseEntries(EncodeEntries(entries) + ([CHAR_E] + rest)) == Ok(entries, |EncodeEntries(entries)| + 1)
    decreases entries, 0
  {
    hide ParseEntry, EncodeEntry;
    var s := EncodeEntries(entries) + ([CHAR_E] + rest);
    if |entries| > 0 {
      var tail := EncodeEntries(entries[1..]) + ([CHAR_E] + rest);
      assert s == EncodeEntry(entries[0]) + tail;
      ParseEncodeEntry(entries[0], tail);
      ParseEntriesStep(EncodeEntry(entries[0]), tail, entries[0]);
      ParseEncodeEntries(entries[1..], rest);
      assert entries == [entries[0]] + entries[1..];
    }
  }

  lemma ParseEntriesStep(head: bytes, tail: bytes, entry: Entry)
    requires |head| > 0 && head[0] != CHAR_E && ParseEntry(head + tail) == Ok(entry, |head|)
    ensures ParseEntries(head + tail) == Prepend([entry], |head|, ParseEntries(tail))
  {
    hide ParseEntry;
    assert (head + tail)[|head|..] == tail;
  }

  lemma {:induction false} ParseEncodeEntry(entry: Entry, rest: bytes)
    requires |entry.key| <= INT64_MAX && Valid(entry.value)
    ensures ParseEntry(EncodeEntry(entry) + rest) == Ok(entry, |EncodeEntry(entry)|)
    decreases entry, 0
  {
    hide ParseString, ParseValue;
    var s := EncodeEntry(entry) + rest;
    var k := EncodeString(entry.key);
    assert s == k + (Encode(entry.value) + rest);
    ParseEncodeString(entry.key, Encode(entry.value) + rest);
    assert s[|k|..] == Encode(entry.value) + rest;
    ParseEncode(entry.value, rest);
  }

  /** Printed forms of two values never stand one before the other in a stream, unless the values
      are equal: printing is injective and prefix-free. */
  lemma EncodePrefixFree(v: Value, w: Value, rest: bytes, rest': bytes)
    requires Valid(v) && Valid(w)
    requires Encode(v) + rest == Encode(w) + rest'
    ensures v == w && rest == rest'
  {
    ParseEncode(v, rest);
    ParseEncode(w, rest');
    assert rest == (Encode(v) + rest)[|Encode(v)|..];
    assert rest' == (Encode(w) + rest')[|Encode(w)|..];
  }

  // ----- Locality: a success depends only on the bytes taken -----

  lemma FindLocal(s: bytes, t: bytes, c: byte)
    requires Find(s, c) < |s| && Find(s, c) < |t|
    requires s[..Find(s, c) + 1] == t[..Find(s, c) + 1]
    ensures Find(t, c) == Find(s, c)
  {
    var k := Find(s, c);
    FindFirst(s, c);
    FindFirst(t, c);
    forall i | 0 <= i <= k
      ensures s[i] == t[i]
    {
      assert s[i] == s[..k + 1][i] == t[..k + 1][i] == t[i];
    }
    FindAtMost(t, c, k);
  }

  predicate SharePrefix(s: bytes, t: bytes, n: nat) {
    n <= |s| && n <= |t| && s[..n] == t[..n]
  }

  lemma SharePrefixDrop(s: bytes, t: bytes, n: nat, k: nat)
    requires SharePrefix(s, t, n) && k <= n
    ensures SharePrefix(s[k..], t[k..], n - k)
    ensures k < n ==> s[k] == t[k]
    ensures s[..k] == t[..k]
  {
    assert s[k..][..n - k] == s[..n][k..] && t[k..][..n - k] == t[..n][k..];
    assert k < n ==> s[..n][k] == s[k] && t[..n][k] == t[k];
    assert s[..k] == s[..n][..k] && t[..k] == t[..n][..k];
  }

  lemma ParseIntLocal(s: bytes, t: bytes)
    requires |s| > 0 && ParseInt(s).Ok? && SharePrefix(s, t, ParseInt(s).used)
    ensures ParseInt(t) == ParseInt(s)
  {
    var n := ParseInt(s).used;
    SharePrefixDrop(s, t, n, 1);
    FindLocal(s[1..], t[1..], CHAR_E);
    assert s[1..n - 1] == s[1..][..n - 2] && t[1..n - 1] == t[1..][..n - 2];
    SharePrefixDrop(s[1..], t[1..], n - 1, n - 2);
  }

  lemma ParseStringLocal(s: bytes, t: bytes)
    requires ParseString(s).Ok? && SharePrefix(s, t, ParseString(s).used)
    ensures ParseString(t) == ParseString(s)
  {
    var n := ParseString(s).used;
    var k := Find(s, COLON);
    SharePrefixDrop(s, t, n, k);
    SharePrefixDrop(s, t, n, k + 1);
    FindLocal(s, t, COLON);
    assert s[k + 1..n] == s[k + 1..][..n - (k + 1)] && t[k + 1..n] == t[k + 1..][..n - (k + 1)];
  }

  /** Any input that shares the bytes a successful parse took parses the same way. */
  lemma {:induction false} ParseLocal(s: bytes, t: bytes)
    requires ParseValue(s).Ok? && SharePrefix(s, t, ParseValue(s).used)
    ensures ParseValue(t) == ParseValue(s)
    decreases |s|, 0
  {
    hide ParseInt, ParseString, ParseItems, ParseEntries;
    var n := ParseValue(s).used;
    SharePrefixDrop(s, t, n, 0);
    SharePrefixDrop(s, t, n, 1);
    if s[0] == CHAR_I {
      ParseIntLocal(s, t);
    } else if s[0] == CHAR_L {
      ParseItemsLocal(s[1..], t[1..]);
    } else if s[0] == CHAR_D {
      ParseEntriesLocal(s[1..], t[1..]);
    } else {
      ParseStringLocal(s, t);
    }
  }

  lemma {:induction false} ParseItemsLocal(s: bytes, t: bytes)
    requires ParseItems(s).Ok? && SharePrefix(s, t, ParseItems(s).used)
    ensures ParseItems(t) == ParseItems(s)
    decreases |s|, 1
  {
    hide ParseValue;
    var n := ParseItems(s).used;
    SharePrefixDrop(s, t, n, 0);
    if s[0] != CHAR_E {
      var k := ParseValue(s).used;
      SharePrefixDrop(s, t, n, k);
      ParseLocal(s, t);
      ParseItemsLocal(s[k..], t[k..]);
    }
  }

  lemma {:induction false} ParseEntriesLocal(s: bytes, t: bytes)
    requires ParseEntries(s).Ok? && SharePrefix(s, t, ParseEntries(s).used)
    ensures ParseEntries(t) == ParseEntries(s)
    decreases |s|, 1
  {
    hide ParseEntry;
    var n := ParseEntries(s).used;
    SharePrefixDrop(s, t, n, 0);
    if s[0] != CHAR_E {
      var k := ParseEntry(s).used;
      SharePrefixDrop(s, t, n, k);
      ParseEntryLocal(s, t);
      ParseEntriesLocal(s[k..], t[k..]);
    }
  }

  lemma {:induction false} ParseEntryLocal(s: bytes, t: bytes)
    requires ParseEntry(s).Ok? && SharePrefix(s, t, ParseEntry(s).used)
    ensures ParseEntry(t) == ParseEntry(s)
    decreases |s|, 0
  {
    hide ParseString, ParseValue;
    var n := ParseEntry(s).used;
    var k := ParseString(s).used;
    SharePrefixDrop(s, t, n, k);
    ParseStringLocal(s, t);
    ParseLocal(s[k..], t[k..]);
  }

  // ----- Whatever is parsed is a valid value -----

  lemma {:induction false} ParseValid(s: bytes)
    requires ParseValue(s).Ok?
    ensures Valid(ParseValue(s).value)
    decreases |s|, 0
  {
    if s[0] == CHAR_L {
      ParseItemsValid(s[1..]);
    } else if s[0] == CHAR_D {
      ParseEntriesValid(s[1..]);
      var raw := ParseEntries(s[1..]).value;
      FromEntriesSorted(raw);
      forall i | 0 <= i < |FromEntries(raw)|
        ensures |FromEntries(raw)[i].key| <= INT64_MAX && Valid(FromEntries(raw)[i].value)
      {
        assert FromEntries(raw)[i] in raw;
      }
    }
  }

  lemma {:induction false} ParseItemsValid(s: bytes)
    requires ParseItems(s).Ok?
    ensures ValidItems(ParseItems(s).value)
    decreases |s|, 1
  {
    if s[0] != CHAR_E {
      ParseValid(s);
      ParseItemsValid(s[ParseValue(s).used..]);
    }
  }

  lemma {:induction false} ParseEntriesValid(s: bytes)
    requires ParseEntries(s).Ok?
    ensures ValidEntries(ParseEntries(s).value)
    decreases |s|, 1
  {
    if s[0] != CHAR_E {
      ParseValid(s[ParseString(s).used..]);
      ParseEntriesValid(s[ParseEntry(s).used..]);
    }
  }
}

/** Dictionaries filled by assigning differently named fields: what they hold, and their size. */
module Dictionaries {
  import opened Bytes
  import opened Bencode
  import opened BencodeRoundTrip

  predicate DistinctKeys(fields: seq<Entry>) {
    forall i, j :: 0 <= i < j < |fields| ==> fields[i].key != fields[j].key
  }

  /** A dictionary filled field by field holds each of them. */
  lemma BuiltDict(fields: seq<Entry>)
    requires DistinctKeys(fields) && ValidEntries(fields)
    ensures Valid(Dict(FromEntries(fields)))
    ensures forall i :: 0 <= i < |fields| ==> Lookup(FromEntries(fields), fields[i].key) == Some(fields[i].value)
  {
    FromEntriesSorted(fields);
    var d := FromEntries(fields);
    forall i | 0 <= i < |d|
      ensures |d[i].key| <= INT64_MAX && Valid(d[i].value)
    {
      assert d[i] in fields;
    }
    forall i | 0 <= i < |fields|
      ensures Lookup(d, fields[i].key) == Some(fields[i].value)
    {
      LookupFromEntries(fields, i);
    }
  }

  /** A key that was never assigned is not found. */
  lemma NotAssigned(fields: seq<Entry>, k: bytes)
    requires forall i :: 0 <= i < |fields| ==> fields[i].key != k
    ensures Lookup(FromEntries(fields), k) == None
  {
    FromEntriesSorted(fields);
    var d := FromEntries(fields);
    forall i | 0 <= i < |d|
      ensures d[i].key != k
    {
      assert d[i] in fields;
    }
    LookupNone(d, k);
  }

  lemma {:induction false} LookupNone(d: seq<Entry>, k: bytes)
    requires forall i :: 0 <= i < |d| ==> d[i].key != k
    ensures Lookup(d, k) == None
  {
    if |d| > 0 { LookupNone(d[1..], k); }
  }

  lemma EncodedParses(v: Value)
    requires Valid(v)
    ensures ParseValue(Encode(v)) == Ok(v, |Encode(v)|)
  {
    ParseEncode(v, []);
    assert Encode(v) + [] == Encode(v);
  }

  lemma {:induction false} InsertSize(d: seq<Entry>, key: bytes, value: Value)
    requires forall i :: 0 <= i < |d| ==> d[i].key != key
    ensures |EncodeEntries(Insert(d, key, value))| == |EncodeEntries(d)| + |EncodeEntry(Entry(key, value))|
  {
    if |d| == 0 || LexLess(key, d[0].key) {
      assert ([Entry(key, value)] + d)[1..] == d;
    } else {
      InsertSize(d[1..], key, value);
      assert ([d[0]] + Insert(d[1..], key, value))[1..] == Insert(d[1..], key, value);
    }
  }

  function FieldsSize(fields: seq<Entry>): nat {
    if |fields| == 0 then 0
    else FieldsSize(fields[..|fields| - 1]) + |EncodeEntry(fields[|fields| - 1])|
  }

  /** A dictionary takes the size of its fields, in whatever order they were assigned. */
  lemma {:induction false} DictSize(fields: seq<Entry>)
    requires DistinctKeys(fields)
    ensures |EncodeEntries(FromEntries(fields))| == FieldsSize(fields)
  {
    if |fields| > 0 {
      var init, last := fields[..|fields| - 1], fields[|fields| - 1];
      DictSize(init);
      FromEntriesSorted(init);
      forall i | 0 <= i < |FromEntries(init)|
        ensures FromEntries(init)[i].key != last.key
      {
        assert FromEntries(init)[i] in init;
      }
      InsertSize(FromEntries(init), last.key, last.value);
      assert last == Entry(last.key, last.value);
    }
  }

  lemma TwoFieldsSize(a: Entry, b: Entry)
    ensures FieldsSize([a, b]) == |EncodeEntry(a)| + |EncodeEntry(b)|
  {
    hide EncodeEntry;
    assert [a, b][..1] == [a];
    assert [a][..0] == [];
    assert FieldsSize([a]) == |EncodeEntry(a)|;
  }

  lemma ThreeFieldsSize(a: Entry, b: Entry, c: Entry)
    ensures FieldsSize([a, b, c]) == |EncodeEntry(a)| + |EncodeEntry(b)| + |EncodeEntry(c)|
  {
    hide EncodeEntry;
    assert [a, b, c][..2] == [a, b];
    TwoFieldsSize(a, b);
  }
}

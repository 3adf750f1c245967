/** The printer's append loops. */
module BencodeEncoder {
  import opened Bytes
  import opened Decimal
  import opened Bencode

  method EncodeValue(v: Value) returns (r: bytes)
    ensures r == Encode(v)
    decreases v, 1
  {
    match v
    case Int(n) => r := [CHAR_I] + ToString(n) + [CHAR_E];
    case Str(s) => r := EncodeString(s);
    case List(items) => r := EncodeList(items);
    case Dict(entries) => r := EncodeDict(entries);
  }

  method EncodeList(items: seq<Value>) returns (r: bytes)
    ensures r == Encode(List(items))
    decreases items, 0
  {
    r := [CHAR_L];
    var i := 0;
    while i < |items|
      invariant i <= |items|
      invariant r == [CHAR_L] + EncodeItems(items[..i])
    {
      var item := EncodeValue(items[i]);
      EncodeItemsPrefix(items, i);
      Associative([CHAR_L], EncodeItems(items[..i]), item);
      r := r + item;
      i := i + 1;
    }
    assert items[..i] == items;
    r := r + [CHAR_E];
  }

  /** The source copies the map into an ordered map first; a map is already in key order. */
  method EncodeDict(entries: seq<Entry>) returns (r: bytes)
    ensures r == Encode(Dict(entries))
    decreases entries, 0
  {
    r := [CHAR_D];
    var i := 0;
    while i < |entries|
      invariant i <= |entries|
      invariant r == [CHAR_D] + EncodeEntries(entries[..i])
    {
      var value := EncodeValue(entries[i].value);
      EncodeEntriesPrefix(entries, i);
      Associative([CHAR_D], EncodeEntries(entries[..i]), EncodeEntry(entries[i]));
      Associative(r, EncodeString(entries[i].key), value);
      r := r + EncodeString(entries[i].key);
      r := r + value;
      i := i + 1;
    }
    assert entries[..i] == entries;
    r := r + [CHAR_E];
  }

  lemma {:induction false} EncodeItemsPrefix(items: seq<Value>, i: nat)
    requires i < |items|
    ensures EncodeItems(items[..i + 1]) == EncodeItems(items[..i]) + Encode(items[i])
  {
    if i == 0 {
      assert items[..1] == [items[0]];
      assert EncodeItems(items[..1][1..]) == [];
    } else {
      EncodeItemsPrefix(items[1..], i - 1);
      assert items[..i][1..] == items[1..][..i - 1] && items[..i + 1][1..] == items[1..][..i];
      Associative(Encode(items[0]), EncodeItems(items[1..][..i - 1]), Encode(items[i]));
    }
  }

  lemma {:induction false} EncodeEntriesPrefix(entries: seq<Entry>, i: nat)
    requires i < |entries|
    ensures EncodeEntries(entries[..i + 1]) == EncodeEntries(entries[..i]) + EncodeEntry(entries[i])
  {
    if i == 0 {
      assert entries[..1] == [entries[0]];
      assert EncodeEntries(entries[..1][1..]) == [];
    } else {
      EncodeEntriesPrefix(entries[1..], i - 1);
      assert entries[..i][1..] == entries[1..][..i - 1] && entries[..i + 1][1..] == entries[1..][..i];
      Associative(EncodeEntry(entries[0]), EncodeEntries(entries[1..][..i - 1]), EncodeEntry(entries[i]));
    }
  }
}

/** The info hash against the bytes of the file: where the info dictionary stands, and when hashing
    its re-encoding is hashing those bytes. */
module InfoHash {
  import opened Bytes
  import opened Decimal
  import opened Bencode
  import opened BencodeRoundTrip
  import opened BencodeCanonical
  import opened BencodePositions
  import opened Dictionaries
  import opened TorrentFile

  // ----- Where an entry's value stands in the input -----

  lemma ParseEntriesTail(s: bytes)
    requires ParseEntries(s).Ok? && |ParseEntries(s).value| > 0
    ensures ParseEntry(s).Ok? && ParseEntries(s[ParseEntry(s).used..]).Ok?
    ensures ParseEntries(s).value == [ParseEntry(s).value] + ParseEntries(s[ParseEntry(s).used..]).value
  {
  }

  /** The offset at which the i-th entry of a dictionary body begins. */
  function EntryStart(s: bytes, i: nat): nat
    decreases i
  {
    if i == 0 || ParseEntry(s).Err? then 0
    else ParseEntry(s).used + EntryStart(s[ParseEntry(s).used..], i - 1)
  }

  predicate StandsAt(entry: Entry, s: bytes, k: nat) {
    k <= |s| && ParseEntry(s[k..]).Ok? && ParseEntry(s[k..]).value == entry
  }

  lemma {:induction false} EntryAt(s: bytes, i: nat)
    requires ParseEntries(s).Ok? && i < |ParseEntries(s).value|
    ensures StandsAt(ParseEntries(s).value[i], s, EntryStart(s, i))
    decreases i
  {
    hide ParseString, ParseValue;
    ParseEntriesTail(s);
    if i == 0 {
      assert s[0..] == s;
    } else {
      var n, entry := ParseEntry(s).used, ParseEntries(s).value[i];
      var k := EntryStart(s[n..], i - 1);
      assert EntryStart(s, i) == n + k;
      assert entry == ParseEntries(s[n..]).value[i - 1];
      EntryAt(s[n..], i - 1);
      StandsAtShifted(entry, s, n, k);
    }
  }

  lemma StandsAtShifted(entry: Entry, s: bytes, n: nat, k: nat)
    requires n <= |s| && StandsAt(entry, s[n..], k)
    ensures StandsAt(entry, s, n + k)
  {
    assert s[n..][k..] == s[n + k..];
  }

  lemma ParseEntryParts(s: bytes)
    requires ParseEntry(s).Ok?
    ensures ParseString(s).Ok? && ParseString(s).used < ParseEntry(s).used <= |s|
    ensures ParseValue(s[ParseString(s).used..]) ==
            Ok(ParseEntry(s).value.value, ParseEntry(s).used - ParseString(s).used)
  {
  }

  /** Entry i is the last one of a dictionary body to name key. */
  predicate LastNamed(raw: seq<Entry>, i: nat, key: bytes) {
    i < |raw| && raw[i].key == key && forall j :: i < j < |raw| ==> raw[j].key != key
  }

  /** The bytes of a dictionary body taken by the value of its i-th entry. */
  function ValueSlice(s: bytes, i: nat): bytes
    requires ParseEntries(s).Ok? && i < |ParseEntries(s).value|
  {
    EntryAt(s, i);
    var entry := s[EntryStart(s, i)..];
    ParseEntryParts(entry);
    entry[ParseString(entry).used..ParseEntry(entry).used]
  }

  lemma ValueSliceParses(s: bytes, i: nat)
    requires ParseEntries(s).Ok? && i < |ParseEntries(s).value|
    ensures ParseValue(ValueSlice(s, i)) == Ok(ParseEntries(s).value[i].value, |ValueSlice(s, i)|)
  {
    EntryAt(s, i);
    EntryValueParses(s[EntryStart(s, i)..]);
  }

  lemma EntryValueParses(s: bytes)
    requires ParseEntry(s).Ok?
    ensures ParseString(s).Ok? && ParseString(s).used < ParseEntry(s).used <= |s|
    ensures var slice := s[ParseString(s).used..ParseEntry(s).used];
            ParseValue(slice) == Ok(ParseEntry(s).value.value, |slice|)
  {
    ParseEntryParts(s);
    var k, n := ParseString(s).used, ParseEntry(s).used;
    assert s[k..][..n - k] == s[k..n] && s[k..n][..n - k] == s[k..n];
    ParseLocal(s[k..], s[k..n]);
  }

  // ----- Fidelity -----

  /** A file that is one dictionary with no negative length in it, and enough depth to parse it. */
  predicate PlainFile(data: bytes, fuel: nat) {
    |data| > 0 && data[0] == CHAR_D && ParseEntries(data[1..]).Ok? && fuel >= Enough(|data|)
  }

  lemma PlainFileReads(data: bytes, fuel: nat)
    requires PlainFile(data, fuel)
    ensures ReadValue(data, 0, fuel).Done?
    ensures ReadValue(data, 0, fuel).value == Dict(FromEntries(ParseEntries(data[1..]).value))
  {
    hide ParseEntries, ReadValue;
    assert data[0..] == data;
    ReadAgrees(data, 0, fuel);
  }

  /** When parse succeeds, the info dictionary hashed is the file's last one, and the bytes hashed are
      its own slice of the file exactly when the slice is canonical, whatever stands around it. */
  lemma InfoHashFidelity(data: bytes, fuel: nat, sha1: bytes -> bytes, i: nat)
    requires PlainFile(data, fuel) && ParseFile(data, fuel, sha1).Success?
    requires LastNamed(ParseEntries(data[1..]).value, i, INFO)
    ensures var info, slice := ParseEntries(data[1..]).value[i].value, ValueSlice(data[1..], i);
            var infoHash := ParseFile(data, fuel, sha1).value.infoHash;
            && info.Dict? && infoHash == sha1(Encode(info))
            && (Encode(info) == slice <==> Canonical(slice))
            && (Canonical(slice) ==> infoHash == sha1(slice))
  {
    hide ReadInfo, Canonical, ParseEntries, TorrentOf, ReadValue, Enough;
    PlainFileReads(data, fuel);
    var raw := ParseEntries(data[1..]).value;
    LookupFromEntries(raw, i);
    HashesInfo(FromEntries(raw), sha1);
    ValueSliceParses(data[1..], i);
    ReencodeIsIdentityIffCanonical(ValueSlice(data[1..], i));
  }

  lemma HashesInfo(root: seq<Entry>, sha1: bytes -> bytes)
    requires TorrentOf(Dict(root), sha1).Success?
    ensures Lookup(root, INFO).Some? && Lookup(root, INFO).value.Dict?
    ensures TorrentOf(Dict(root), sha1).value.infoHash == sha1(Encode(Lookup(root, INFO).value))
  {
    hide ReadInfo, NumPieces;
  }

  // ----- A file whose info hash is not the hash of its bytes -----

  const LOOSE_NUMBER: bytes := [CHAR_I, 48, 49, CHAR_E] // i01e

  const OTHER_FIELDS: seq<Entry> := [Entry(PIECE_LENGTH, Int(1)), Entry(PIECES, Str([]))]

  const LOOSE_FIELDS: seq<Entry> := [Entry(LENGTH, Int(1))] + OTHER_FIELDS

  /** d6:lengthi01e12:piece lengthi1e6:pieces0:e */
  function LooseInfo(): bytes {
    [CHAR_D] + (EncodeString(LENGTH) + LOOSE_NUMBER + (EncodeEntries(OTHER_FIELDS) + [CHAR_E]))
  }

  /** d4:infod6:lengthi01e12:piece lengthi1e6:pieces0:ee */
  function LooseFile(): bytes {
    [CHAR_D] + (EncodeString(INFO) + LooseInfo() + [CHAR_E])
  }

  lemma LooseNumberParses(rest: bytes)
    ensures ParseValue(LOOSE_NUMBER + rest) == Ok(Int(1), 4)
  {
    var s, digits: bytes := LOOSE_NUMBER + rest, [48, 49];
    FindAfter(digits, CHAR_E, rest);
    assert s[1..] == digits + [CHAR_E] + rest;
    assert s[1..3] == digits;
    DigitRunOfDigits(digits);
    assert digits[..2] == digits && digits[..1] == [48] && [48][..0] == [];
    assert DigitsValue([48]) == 0;
    assert Stoll(digits) == Some(1);
  }

  /** A key and a value, given what the value parses to before a continuation. */
  lemma EntryParses(key: bytes, value: bytes, v: Value, rest: bytes)
    requires |key| <= INT64_MAX && ParseValue(value + rest) == Ok(v, |value|)
    ensures var s := EncodeString(key) + value + rest;
            && ParseString(s) == Ok(key, |EncodeString(key)|)
            && ParseEntry(s) == Ok(Entry(key, v), |EncodeString(key) + value|)
  {
    hide ParseValue, ParseString, EncodeString;
    var s := EncodeString(key) + value + rest;
    ParseEncodeString(key, value + rest);
    assert s == EncodeString(key) + (value + rest);
    assert s[|EncodeString(key)|..] == value + rest;
  }

  lemma LooseInfoParses(rest: bytes)
    ensures ParseValue(LooseInfo() + rest) == Ok(Dict(FromEntries(LOOSE_FIELDS)), |LooseInfo()|)
  {
    hide ParseValue, ParseString, EncodeString;
    var head := EncodeString(LENGTH) + LOOSE_NUMBER;
    var tail := EncodeEntries(OTHER_FIELDS) + ([CHAR_E] + rest);
    LooseNumberParses(tail);
    EntryParses(LENGTH, LOOSE_NUMBER, Int(1), tail);
    ParseEntriesStep(head, tail, Entry(LENGTH, Int(1)));
    ParseEncodeEntries(OTHER_FIELDS, rest);
    assert LooseInfo() + rest == [CHAR_D] + (head + tail);
    DictParses(head + tail);
  }

  lemma LooseFileParses()
    ensures var info := Entry(INFO, Dict(FromEntries(LOOSE_FIELDS)));
            var body := LooseFile()[1..];
            && body == EncodeString(INFO) + LooseInfo() + [CHAR_E]
            && ParseString(body) == Ok(INFO, |EncodeString(INFO)|)
            && ParseEntry(body) == Ok(info, |EncodeString(INFO) + LooseInfo()|)
            && ParseEntries(body) == Ok([info], |body|)
  {
    hide ParseValue, ParseString, ParseEntry, EncodeString, LooseInfo;
    var info := Entry(INFO, Dict(FromEntries(LOOSE_FIELDS)));
    LooseInfoParses([CHAR_E]);
    EntryParses(INFO, LooseInfo(), info.value, [CHAR_E]);
    ParseEntriesStep(EncodeString(INFO) + LooseInfo(), [CHAR_E], info);
    assert ParseEntries([CHAR_E]) == Ok([], 1);
    assert [info] + [] == [info];
  }

  lemma LooseKeysDiffer()
    ensures LENGTH != PIECE_LENGTH && LENGTH != PIECES && PIECE_LENGTH != PIECES
    ensures NAME !in {LENGTH, PIECE_LENGTH, PIECES}
  {
    assert LENGTH[0] != PIECES[0];
    assert |PIECE_LENGTH| == 12 && |PIECES| == 6 && |LENGTH| == 6 && |NAME| == 4;
  }

  lemma LooseLookups(d: seq<Entry>)
    requires d == FromEntries(LOOSE_FIELDS)
    ensures Lookup(d, LENGTH) == Some(Int(1)) && Lookup(d, PIECE_LENGTH) == Some(Int(1))
    ensures Lookup(d, PIECES) == Some(Str([])) && Lookup(d, NAME) == None
  {
    hide FromEntries, Lookup;
    LooseKeysDiffer();
    var a, b, c := Entry(LENGTH, Int(1)), Entry(PIECE_LENGTH, Int(1)), Entry(PIECES, Str([]));
    assert LOOSE_FIELDS == [a, b, c];
    LookupFromEntries(LOOSE_FIELDS, 0);
    LookupFromEntries(LOOSE_FIELDS, 1);
    LookupFromEntries(LOOSE_FIELDS, 2);
    NotAssigned(LOOSE_FIELDS, NAME);
  }

  /** The fields parse reads before it hashes are all there. */
  lemma LooseFieldsRead()
    ensures ReadInfo(FromEntries(LOOSE_FIELDS)) == Success(([], 1, [], [File([], 1)], 1))
    ensures NumPieces(1, 1) == Some(1)
  {
    hide FromEntries, Lookup;
    LooseLookups(FromEntries(LOOSE_FIELDS));
    assert Digests([]) == [];
  }

  lemma LooseInfoIsLonger()
    ensures |Encode(Dict(FromEntries(LOOSE_FIELDS)))| + 1 == |LooseInfo()|
  {
    hide EncodeString, FromEntries, FieldsSize, EncodeEntries;
    LooseKeysDiffer();
    var a, b, c := Entry(LENGTH, Int(1)), Entry(PIECE_LENGTH, Int(1)), Entry(PIECES, Str([]));
    assert LOOSE_FIELDS == [a, b, c] && OTHER_FIELDS == [b, c];
    DictSize(LOOSE_FIELDS);
    ThreeFieldsSize(a, b, c);
    EncodeTwo(b, c);
    assert Encode(Int(1)) == [CHAR_I, 49, CHAR_E];
  }

  lemma EncodeTwo(a: Entry, b: Entry)
    ensures EncodeEntries([a, b]) == EncodeEntry(a) + EncodeEntry(b)
  {
    hide EncodeEntry;
    assert [a, b][1..] == [b] && [b][1..] == [];
    assert EncodeEntries([b]) == EncodeEntry(b) + EncodeEntries([b][1..]);
  }

  /** A redundant zero in a number is accepted and lost: a file that parse takes whole, and whose info
      hash is taken of other bytes than those in the file. */
  lemma NonCanonicalInfoIsRewritten(sha1: bytes -> bytes, fuel: nat)
    requires fuel >= Enough(|LooseFile()|)
    ensures var body := LooseFile()[1..];
            && ParseEntries(body).Ok? && |ParseEntries(body).value| == 1
            && ValueSlice(body, 0) == LooseInfo()
    ensures var other := Encode(Dict(FromEntries(LOOSE_FIELDS)));
            && other != LooseInfo() && ParseFile(LooseFile(), fuel, sha1).Success?
            && ParseFile(LooseFile(), fuel, sha1).value.infoHash == sha1(other)
  {
    hide ParseEntries, ParseEntry, ParseString, LooseInfo, EncodeString, ReadInfo, NumPieces, Encode;
    var info, body := Entry(INFO, Dict(FromEntries(LOOSE_FIELDS))), LooseFile()[1..];
    LooseFileParses();
    assert body[0..] == body;
    assert ValueSlice(body, 0) == LooseInfo() by {
      var k := |EncodeString(INFO)|;
      assert body[k..k + |LooseInfo()|] == LooseInfo();
    }
    PlainFileReads(LooseFile(), fuel);
    LooseFieldsRead();
    LooseInfoIsLonger();
    OnlyInfo(info.value.entries, sha1);
  }

  /** A root that holds nothing but an info dictionary gets as far as that dictionary's fields. */
  lemma OnlyInfo(info: seq<Entry>, sha1: bytes -> bytes)
    requires ReadInfo(info).Success? && NumPieces(ReadInfo(info).value.4, ReadInfo(info).value.1).Some?
    ensures var r := TorrentOf(Dict(FromEntries([Entry(INFO, Dict(info))])), sha1);
            r.Success? && r.value.infoHash == sha1(Encode(Dict(info)))
  {
    hide ReadInfo, NumPieces, Encode, Lookup, FromEntries;
    var fields := [Entry(INFO, Dict(info))];
    assert |INFO| == 4 && |ANNOUNCE| == 8 && |COMMENT| == 7 && |CREATION_DATE| == 13;
    LookupFromEntries(fields, 0);
    NotAssigned(fields, ANNOUNCE);
    NotAssigned(fields, COMMENT);
    NotAssigned(fields, CREATION_DATE);
  }
}

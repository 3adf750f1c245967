/** What parse returns, field by field, in terms of what stands in the file. */
module TorrentFields {
  import opened Bytes
  import opened Bencode
  import opened BencodePositions
  import opened Dictionaries
  import opened TorrentFile
  import opened TorrentContents
  import opened InfoHash

  // ----- Fields of a dictionary -----

  /** The string under a key, or the empty one where there is none. */
  predicate IsText(d: seq<Entry>, key: bytes, s: bytes) {
    Lookup(d, key) == Some(Str(s)) || (Lookup(d, key) == None && s == [])
  }

  /** The integer under a key, or zero where there is none. */
  predicate IsNumber(d: seq<Entry>, key: bytes, n: int) {
    match Lookup(d, key)
    case None => n == 0
    case Some(v) => v.Int? && v.n == n
  }

  /** The pieces string cut into 20 bytes each, less an incomplete end. */
  predicate ArePieces(info: seq<Entry>, pieces: seq<bytes>) {
    match Lookup(info, Text("pieces"))
    case Some(Str(s)) =>
      Concat(pieces) == s[..|s| / 20 * 20] && forall i :: 0 <= i < |pieces| ==> |pieces[i]| == 20
    case _ => false
  }

  /** An item of the file list: its own size, and its own path components joined. */
  predicate IsFile(item: Value, file: File) {
    && item.Dict? && IsNumber(item.entries, Text("length"), file.size)
    && match Lookup(item.entries, Text("path"))
       case Some(List(components)) => AllStrings(components) && file.path == Joined(Visible(Names(components)))
       case _ => false
  }

  /** With a length there is one file, of that name and size; without it one for each item, in order,
      with no overflow in adding up their sizes. */
  predicate AreFiles(info: seq<Entry>, name: bytes, files: seq<File>) {
    if Lookup(info, Text("length")).Some? then
      |files| == 1 && files[0].path == name && IsNumber(info, Text("length"), files[0].size)
    else match Lookup(info, Text("files"))
      case Some(List(items)) =>
        && |files| == |items| && (forall k :: 0 <= k < |items| ==> IsFile(items[k], files[k]))
        && forall k :: 0 <= k <= |files| ==> INT64_MIN <= SumOf(files[..k]) <= INT64_MAX
      case _ => false
  }

  /** The torrent holds just what the root dictionary says. */
  predicate Describes(root: Value, t: Torrent, sha1: bytes -> bytes) {
    && root.Dict?
    && match Lookup(root.entries, Text("info"))
       case Some(Dict(info)) =>
         && IsText(root.entries, Text("announce"), t.announce) && IsText(root.entries, Text("comment"), t.comment)
         && IsNumber(root.entries, Text("creation date"), t.creationDate)
         && IsText(info, Text("name"), t.name) && IsNumber(info, Text("piece length"), t.pieceLength)
         && ArePieces(info, t.pieces) && AreFiles(info, t.name, t.files)
         && INT64_MIN <= SumOf(t.files) <= INT64_MAX && NumPieces(SumOf(t.files), t.pieceLength) == Some(t.numPieces)
         && t.infoHash == sha1(Encode(Dict(info)))
       case _ => false
  }

  // ----- The parts -----

  lemma TextIs(d: seq<Entry>, key: bytes, s: bytes)
    ensures IsText(d, key, s) <==> ExtractString(d, key) == Success(s)
  {
  }

  lemma NumberIs(d: seq<Entry>, key: bytes, n: int64)
    ensures IsNumber(d, key, n) <==> ExtractInt(d, key) == Success(n)
  {
  }

  lemma {:induction false} DigestsAre(s: bytes, pieces: seq<bytes>)
    ensures (Concat(pieces) == s[..|s| / 20 * 20] && forall i :: 0 <= i < |pieces| ==> |pieces[i]| == 20)
            <==> pieces == Digests(s)
    decreases |s|
  {
    hide Digests;
    if |s| < 20 {
      NoDigests(s);
      if |pieces| > 0 && |pieces[0]| == 20 { assert |Concat(pieces)| >= 20; }
    } else {
      DigestsTail(s);
      var whole := s[..|s| / 20 * 20];
      assert whole == s[..20] + s[20..][..|s[20..]| / 20 * 20] by { assert |s[20..]| / 20 == |s| / 20 - 1; }
      if |pieces| > 0 {
        assert pieces == [pieces[0]] + pieces[1..];
        DigestsAre(s[20..], pieces[1..]);
        if |pieces[0]| == 20 {
          assert Concat(pieces)[..20] == pieces[0] && Concat(pieces)[20..] == Concat(pieces[1..]);
        }
        forall i | 0 < i < |pieces|
          ensures pieces[i] == pieces[1..][i - 1]
        {
        }
      }
    }
  }

  lemma NoDigests(s: bytes)
    requires |s| < 20
    ensures Digests(s) == []
  {
  }

  lemma DigestsTail(s: bytes)
    requires |s| >= 20
    ensures Digests(s) == [s[..20]] + Digests(s[20..])
  {
    var more := [s[..20]] + Digests(s[20..]);
    assert |s[20..]| / 20 == |s| / 20 - 1;
    forall k | 0 <= k < |s| / 20
      ensures Digests(s)[k] == more[k]
    {
      if k > 0 { Shifted(s, 20, 20 * (k - 1), 20 * k); }
    }
  }

  lemma Shifted(s: bytes, skip: nat, from: nat, to: nat)
    requires from <= to && skip + to <= |s|
    ensures s[skip..][from..to] == s[skip + from..skip + to]
  {
  }

  lemma PiecesAre(info: seq<Entry>, pieces: seq<bytes>)
    ensures ArePieces(info, pieces) <==> PiecesOf(info) == Success(pieces)
  {
    match Lookup(info, PIECES)
    case Some(Str(s)) => DigestsAre(s, pieces);
    case _ =>
  }

  lemma FileIs(item: Value, file: File)
    ensures IsFile(item, file) <==> FileOf(item) == Success(file)
  {
    if item.Dict? {
      NumberIs(item.entries, LENGTH, file.size);
      match Lookup(item.entries, PATH)
      case Some(List(components)) => PathIsJoined(components);
      case _ =>
    }
  }

  lemma {:induction false} FileListIs(items: seq<Value>, files: seq<File>)
    ensures (|files| == |items| && forall k :: 0 <= k < |items| ==> IsFile(items[k], files[k]))
            <==> FilesOf(items) == Success(files)
    decreases |items|
  {
    hide IsFile, FileOf;
    if |items| > 0 && |files| > 0 {
      FileIs(items[0], files[0]);
      FileListIs(items[1..], files[1..]);
      assert files == [files[0]] + files[1..];
      if |files| == |items| && forall k :: 0 <= k < |items| ==> IsFile(items[k], files[k]) {
        assert forall k :: 0 <= k < |items| - 1 ==> IsFile(items[1..][k], files[1..][k]);
      }
      if FilesOf(items) == Success(files) {
        forall k | 0 <= k < |items|
          ensures IsFile(items[k], files[k])
        {
          if k > 0 { assert IsFile(items[1..][k - 1], files[1..][k - 1]); }
        }
      }
    }
  }

  // ----- The whole -----

  lemma FilesAre(info: seq<Entry>, name: bytes, files: seq<File>)
    requires Lookup(info, LENGTH).None?
    ensures AreFiles(info, name, files) <==>
            ExtractFiles(info) == Success(files) && TotalSize(0, files) == Some(SumOf(files))
  {
    hide IsFile, FilesOf, TotalSize;
    match Lookup(info, FILES)
    case Some(List(items)) =>
      FileListIs(items, files);
      TotalIsSum(0, files);
      assert TotalSize(0, files).Some? <==>
             forall k :: 0 <= k <= |files| ==> INT64_MIN <= SumOf(files[..k]) <= INT64_MAX;
    case _ =>
  }

  /** parse from the root on returns a torrent exactly when it holds just what the root says; so it fails
      exactly when no torrent does. */
  lemma TorrentIs(root: Value, t: Torrent, sha1: bytes -> bytes)
    ensures TorrentOf(root, sha1) == Success(t) <==> Describes(root, t, sha1)
  {
    hide ExtractString, ExtractInt, PiecesOf, ExtractFiles, TotalSize, NumPieces, IsText, IsNumber, ArePieces, SumOf;
    if root.Dict? {
      TextIs(root.entries, ANNOUNCE, t.announce);
      TextIs(root.entries, COMMENT, t.comment);
      NumberIs(root.entries, CREATION_DATE, t.creationDate);
      match Lookup(root.entries, INFO)
      case Some(Dict(info)) =>
        InfoIs(info, t);
        if ReadInfo(info).Success? { TotalRead(info); }
        hide ReadInfo, AreFiles;
      case _ =>
    }
  }

  lemma InfoIs(info: seq<Entry>, t: Torrent)
    ensures (&& IsText(info, Text("name"), t.name) && IsNumber(info, Text("piece length"), t.pieceLength)
             && ArePieces(info, t.pieces) && AreFiles(info, t.name, t.files)
             && INT64_MIN <= SumOf(t.files) <= INT64_MAX)
            <==> INT64_MIN <= SumOf(t.files) <= INT64_MAX &&
                 ReadInfo(info) == Success((t.name, t.pieceLength, t.pieces, t.files, SumOf(t.files)))
  {
    hide ExtractString, ExtractInt, PiecesOf, ExtractFiles, TotalSize, IsText, IsNumber, ArePieces;
    TextIs(info, NAME, t.name);
    NumberIs(info, PIECE_LENGTH, t.pieceLength);
    PiecesAre(info, t.pieces);
    if Lookup(info, LENGTH).None? {
      FilesAre(info, t.name, t.files);
    } else if |t.files| == 1 {
      NumberIs(info, LENGTH, t.files[0].size);
      assert t.files == [t.files[0]] && t.files[1..] == [];
      assert SumOf(t.files) == t.files[0].size;
    }
  }

  /** The total read is the sum of the sizes of the files read. */
  lemma TotalRead(info: seq<Entry>)
    requires ReadInfo(info).Success?
    ensures SumOf(ReadInfo(info).value.3) == ReadInfo(info).value.4
  {
    hide ExtractString, ExtractInt, PiecesOf, ExtractFiles;
    var files := ReadInfo(info).value.3;
    if Lookup(info, LENGTH).None? { TotalIsSum(0, files); } else { assert files[1..] == []; }
  }

  // ----- From the file -----

  /** The same for the bytes of a file. */
  lemma FileIsDescribed(data: bytes, fuel: nat, sha1: bytes -> bytes, t: Torrent)
    ensures ParseFile(data, fuel, sha1) == Success(t) <==>
            ReadValue(data, 0, fuel).Done? && Describes(ReadValue(data, 0, fuel).value, t, sha1)
  {
    hide ReadValue, TorrentOf, Describes;
    var r := ReadValue(data, 0, fuel);
    if r.Done? { TorrentIs(r.value, t, sha1); }
  }

  /** The value of the last entry with a key. */
  function LastValue(raw: seq<Entry>, key: bytes): Option<Value> {
    if |raw| == 0 then None
    else if raw[|raw| - 1].key == key then Some(raw[|raw| - 1].value)
    else LastValue(raw[..|raw| - 1], key)
  }

  lemma {:induction false} LookupIsLast(raw: seq<Entry>, key: bytes)
    ensures Lookup(FromEntries(raw), key) == LastValue(raw, key)
  {
    if |raw| > 0 {
      var init, last := raw[..|raw| - 1], raw[|raw| - 1];
      LookupIsLast(init, key);
      FromEntriesSorted(init);
      LookupInsert(FromEntries(init), last.key, last.value, key);
    }
  }

  /** In a file without negative lengths, what the root says under a key is the value of the last entry
      that stands in the file with that key. */
  lemma RootIsLastEntries(data: bytes, fuel: nat, key: bytes)
    requires PlainFile(data, fuel)
    ensures ReadValue(data, 0, fuel).Done? && ReadValue(data, 0, fuel).value.Dict?
    ensures Lookup(ReadValue(data, 0, fuel).value.entries, key) == LastValue(ParseEntries(data[1..]).value, key)
  {
    hide ParseEntries, ReadValue;
    PlainFileReads(data, fuel);
    LookupIsLast(ParseEntries(data[1..]).value, key);
  }

  // ----- A file made from given fields -----

  datatype Item = Item(path: seq<bytes>, size: int64)

  datatype Content = Content(
    announce: bytes,
    comment: bytes,
    creationDate: int64,
    name: bytes,
    pieceLength: int64,
    pieces: seq<bytes>,
    items: seq<Item>)

  function Strings(names: seq<bytes>): seq<Value> {
    seq(|names|, i requires 0 <= i < |names| => Str(names[i]))
  }

  function ItemFields(item: Item): seq<Entry> {
    [Entry(Text("length"), Int(item.size)), Entry(Text("path"), List(Strings(item.path)))]
  }

  function ItemValues(items: seq<Item>): seq<Value> {
    seq(|items|, i requires 0 <= i < |items| => Dict(FromEntries(ItemFields(items[i]))))
  }

  function InfoFields(c: Content): seq<Entry> {
    [Entry(Text("name"), Str(c.name)), Entry(Text("piece length"), Int(c.pieceLength)),
     Entry(Text("pieces"), Str(Concat(c.pieces))), Entry(Text("files"), List(ItemValues(c.items)))]
  }

  function RootFields(c: Content): seq<Entry> {
    [Entry(Text("announce"), Str(c.announce)), Entry(Text("comment"), Str(c.comment)),
     Entry(Text("creation date"), Int(c.creationDate)), Entry(Text("info"), Dict(FromEntries(InfoFields(c))))]
  }

  function FilesIn(items: seq<Item>): seq<File> {
    seq(|items|, i requires 0 <= i < |items| => File(Joined(Visible(items[i].path)), items[i].size))
  }

  /** Digests of 20 bytes, and sizes that fit where they are kept. */
  predicate Fits(c: Content) {
    && (forall i :: 0 <= i < |c.pieces| ==> |c.pieces[i]| == 20) && 20 * |c.pieces| <= INT64_MAX
    && |c.announce| <= INT64_MAX && |c.comment| <= INT64_MAX && |c.name| <= INT64_MAX
    && (forall i, j :: 0 <= i < |c.items| && 0 <= j < |c.items[i].path| ==> |c.items[i].path[j]| <= INT64_MAX)
    && (forall k :: 0 <= k <= |c.items| ==> INT64_MIN <= SumOf(FilesIn(c.items)[..k]) <= INT64_MAX)
    && INT64_MIN <= SumOf(FilesIn(c.items)) <= INT64_MAX
  }

  lemma ItemBuilt(item: Item)
    requires forall j :: 0 <= j < |item.path| ==> |item.path[j]| <= INT64_MAX
    ensures Valid(Dict(FromEntries(ItemFields(item))))
    ensures IsFile(Dict(FromEntries(ItemFields(item))), File(Joined(Visible(item.path)), item.size))
  {
    var fields, path := ItemFields(item), Strings(item.path);
    forall j | 0 <= j < |path|
      ensures Valid(path[j])
    {
      assert path[j] == Str(item.path[j]);
    }
    assert Valid(fields[1].value);
    assert |LENGTH| == 6 && |PATH| == 4;
    BuiltDict(fields);
    assert fields[0].key == LENGTH && fields[1].key == PATH;
    assert Names(Strings(item.path)) == item.path;
  }

  lemma {:induction false} ConcatSize(pieces: seq<bytes>)
    requires forall i :: 0 <= i < |pieces| ==> |pieces[i]| == 20
    ensures |Concat(pieces)| == 20 * |pieces|
  {
    if |pieces| > 0 { ConcatSize(pieces[1..]); }
  }

  lemma InfoBuilt(c: Content)
    requires Fits(c)
    ensures var info := FromEntries(InfoFields(c));
            && Valid(Dict(info))
            && IsText(info, Text("name"), c.name) && IsNumber(info, Text("piece length"), c.pieceLength)
            && ArePieces(info, c.pieces) && AreFiles(info, c.name, FilesIn(c.items))
  {
    hide FromEntries, Lookup, IsFile, SumOf;
    var fields, info := InfoFields(c), FromEntries(InfoFields(c));
    forall i | 0 <= i < |c.items|
      ensures Valid(ItemValues(c.items)[i]) && IsFile(ItemValues(c.items)[i], FilesIn(c.items)[i])
    {
      ItemBuilt(c.items[i]);
    }
    ConcatSize(c.pieces);
    assert |NAME| == 4 && |PIECE_LENGTH| == 12 && |PIECES| == 6 && |FILES| == 5 && |LENGTH| == 6;
    assert LENGTH[0] != PIECES[0];
    assert Valid(fields[0].value) && Valid(fields[2].value) && Valid(List(ItemValues(c.items)));
    BuiltDict(fields);
    assert fields[0].key == NAME && fields[1].key == PIECE_LENGTH && fields[2].key == PIECES && fields[3].key == FILES;
    NotAssigned(fields, LENGTH);
    assert Concat(c.pieces)[..|Concat(c.pieces)| / 20 * 20] == Concat(c.pieces);
  }

  /** A file printed from any fields parses to exactly those fields, each path joined, with the count
      of its total size and the hash of its info dictionary's own bytes. */
  lemma PrintedFileParses(c: Content, fuel: nat, sha1: bytes -> bytes)
    requires Fits(c) && NumPieces(SumOf(FilesIn(c.items)), c.pieceLength).Some?
    requires fuel >= Enough(|Encode(Dict(FromEntries(RootFields(c))))|)
    ensures ParseFile(Encode(Dict(FromEntries(RootFields(c)))), fuel, sha1) ==
            Success(Torrent(c.announce, c.comment, c.creationDate, c.name, c.pieceLength, c.pieces, FilesIn(c.items),
                            NumPieces(SumOf(FilesIn(c.items)), c.pieceLength).value,
                            sha1(Encode(Dict(FromEntries(InfoFields(c)))))))
  {
    hide FromEntries, Lookup, IsFile, SumOf, NumPieces, Encode, InfoFields, AreFiles, ArePieces, ReadValue, ParseFile;
    var fields, root := RootFields(c), Dict(FromEntries(RootFields(c)));
    InfoBuilt(c);
    assert |ANNOUNCE| == 8 && |COMMENT| == 7 && |CREATION_DATE| == 13 && |INFO| == 4;
    BuiltDict(fields);
    assert fields[0].key == ANNOUNCE && fields[1].key == COMMENT && fields[2].key == CREATION_DATE;
    assert fields[3].key == INFO;
    EncodedParses(root);
    var data := Encode(root);
    assert data[0..] == data;
    ReadAgrees(data, 0, fuel);
    var files := FilesIn(c.items);
    var t := Torrent(c.announce, c.comment, c.creationDate, c.name, c.pieceLength, c.pieces, files,
                     NumPieces(SumOf(files), c.pieceLength).value, sha1(Encode(Dict(FromEntries(InfoFields(c))))));
    FileIsDescribed(data, fuel, sha1, t);
  }
}

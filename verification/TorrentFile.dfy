/** A .torrent file taken apart: the fields read, the errors raised in the order they are met, the
    piece count and the info hash. */
module TorrentFile {
  import opened Bytes
  import opened Bencode
  import opened BencodePositions
  import BencodeEncoder
  import BencodeParser

  const INFO: bytes := Text("info")
  const ANNOUNCE: bytes := Text("announce")
  const COMMENT: bytes := Text("comment")
  const CREATION_DATE: bytes := Text("creation date")
  const NAME: bytes := Text("name")
  const PIECE_LENGTH: bytes := Text("piece length")
  const PIECES: bytes := Text("pieces")
  const LENGTH: bytes := Text("length")
  const FILES: bytes := Text("files")
  const PATH: bytes := Text("path")
  const SLASH: byte := '/' as int
  const DIGEST_SIZE := 20

  datatype TorrentError =
    | Malformed(error: Error)
    | RootNotDictionary
    | MissingInfo
    | ExpectedString(key: bytes)
    | ExpectedInteger(key: bytes)
    | MissingPieces
    | PiecesNotString
    | MissingFiles
    | FilesNotList
    | FileNotDictionary
    | MissingPath
    | PathNotList
    | PathComponentNotString
    // Arithmetic the language leaves undefined: a division by zero or an overflow.
    | UndefinedArithmetic
    // Bencode nested deeper than allowed.
    | UnfinishedParse

  type Read<+T> = Result<T, TorrentError>

  datatype File = File(path: bytes, size: int64)

  datatype Torrent = Torrent(
    announce: bytes,
    comment: bytes,
    creationDate: int64,
    name: bytes,
    pieceLength: int64,
    pieces: seq<bytes>,
    files: seq<File>,
    numPieces: int,
    infoHash: bytes)

  // ----- Fields -----

  function ExtractString(d: seq<Entry>, key: bytes): Read<bytes> {
    match Lookup(d, key)
    case None => Success([])
    case Some(Str(s)) => Success(s)
    case Some(_) => Failure(ExpectedString(key))
  }

  function ExtractInt(d: seq<Entry>, key: bytes): Read<int64> {
    match Lookup(d, key)
    case None => Success(0)
    case Some(Int(n)) => Success(n)
    case Some(_) => Failure(ExpectedInteger(key))
  }

  /** The whole 20-byte slices of a string, one after the other. */
  function Digests(s: bytes): (r: seq<bytes>)
    ensures |r| == |s| / DIGEST_SIZE
  {
    seq(|s| / DIGEST_SIZE, k requires 0 <= k < |s| / DIGEST_SIZE => s[DIGEST_SIZE * k..DIGEST_SIZE * k + DIGEST_SIZE])
  }

  function PiecesOf(info: seq<Entry>): Read<seq<bytes>> {
    match Lookup(info, PIECES)
    case None => Failure(MissingPieces)
    case Some(Str(s)) => Success(Digests(s))
    case Some(_) => Failure(PiecesNotString)
  }

  /** Path components put behind what is there already, with slashes between non-empty parts. */
  function JoinOnto(path: bytes, components: seq<Value>): Read<bytes>
    decreases |components|
  {
    if |components| == 0 then Success(path)
    else if !components[0].Str? then Failure(PathComponentNotString)
    else JoinOnto((if path != [] then path + [SLASH] else path) + components[0].s, components[1..])
  }

  function FileOf(v: Value): Read<File> {
    if !v.Dict? then Failure(FileNotDictionary)
    else
      var size :- ExtractInt(v.entries, LENGTH);
      match Lookup(v.entries, PATH)
      case None => Failure(MissingPath)
      case Some(List(components)) =>
        var path :- JoinOnto([], components);
        Success(File(path, size))
      case Some(_) => Failure(PathNotList)
  }

  /** The files of a list; the first that cannot be read decides the error. */
  function FilesOf(items: seq<Value>): Read<seq<File>> {
    if |items| == 0 then Success([])
    else
      var first :- FileOf(items[0]);
      var rest :- FilesOf(items[1..]);
      Success([first] + rest)
  }

  function ExtractFiles(info: seq<Entry>): Read<seq<File>> {
    match Lookup(info, FILES)
    case None => Failure(MissingFiles)
    case Some(List(items)) => FilesOf(items)
    case Some(_) => Failure(FilesNotList)
  }

  // ----- Sizes -----

  /** The running sum of the file sizes, from total on; None once it leaves int64. */
  function TotalSize(total: int64, files: seq<File>): Option<int64>
    decreases |files|
  {
    if |files| == 0 then Some(total)
    else if INT64_MIN <= total + files[0].size <= INT64_MAX then TotalSize(total + files[0].size, files[1..])
    else None
  }

  /** The C++ quotient, which truncates toward zero. */
  function Quotient(a: int, b: int): int
    requires b != 0
  {
    if (a >= 0) == (b > 0) then Abs(a) / Abs(b) else -(Abs(a) / Abs(b))
  }

  function Abs(a: int): nat {
    if a < 0 then -a else a
  }

  /** Conversion to a 32-bit int. */
  function ToInt32(a: int): int {
    if a % TWO_TO_THE_32 <= INT32_MAX then a % TWO_TO_THE_32 else a % TWO_TO_THE_32 - TWO_TO_THE_32
  }

  /** None where the division is undefined. */
  function NumPieces(total: int64, pieceLength: int64): Option<int> {
    if pieceLength == 0 || (total == INT64_MIN && pieceLength == -1) then None
    else
      var q := Quotient(total, pieceLength);
      Some(ToInt32(q + (if total - q * pieceLength > 0 then 1 else 0)))
  }

  /** So many pieces cover the content, and one fewer would not. */
  predicate Covers(n: int, total: int, pieceLength: int) {
    (n - 1) * pieceLength < total <= n * pieceLength
  }

  /** The count is the least number of pieces that covers the content exactly when the piece length is
      positive and that number fits an int. */
  lemma NumPiecesCoversIff(total: int64, pieceLength: int64)
    ensures NumPieces(total, pieceLength).None? <==>
            pieceLength == 0 || (total == INT64_MIN && pieceLength == -1)
    ensures NumPieces(total, pieceLength).Some? ==>
              (Covers(NumPieces(total, pieceLength).value, total, pieceLength) <==>
               pieceLength > 0 && (INT32_MIN - 1) * pieceLength < total <= INT32_MAX * pieceLength)
  {
    if NumPieces(total, pieceLength).Some? {
      var t: int, l: int, n: int := total, pieceLength, NumPieces(total, pieceLength).value;
      if l > 0 {
        var q := Quotient(t, l);
        var m := q + (if t - q * l > 0 then 1 else 0);
        RoundedUpCovers(t, l);
        CoversWithin(m, t, l);
        if Covers(n, t, l) { CoversWithin(n, t, l); }
        assert INT32_MIN <= n <= INT32_MAX && (INT32_MIN <= m <= INT32_MAX ==> n == m);
      } else {
        assert (n - 1) * l == n * l - l;
      }
    }
  }

  /** For any sizes, the count is the quotient rounded toward zero, and one more where something positive
      is left over, narrowed to an int. */
  lemma CountIsRounded(total: int64, pieceLength: int64) returns (q: int, left: int)
    requires NumPieces(total, pieceLength).Some?
    ensures total == q * pieceLength + left && Abs(left) < Abs(pieceLength)
    ensures left == 0 || (left > 0 <==> total > 0)
    ensures var n := NumPieces(total, pieceLength).value;
            INT32_MIN <= n <= INT32_MAX && (q + (if left > 0 then 1 else 0) - n) % TWO_TO_THE_32 == 0
  {
    q := Quotient(total, pieceLength);
    left := total - q * pieceLength;
    TruncatesTowardZero(total, pieceLength);
    Narrowed(q + (if left > 0 then 1 else 0));
    hide Quotient, ToInt32;
  }

  lemma Narrowed(a: int)
    ensures INT32_MIN <= ToInt32(a) <= INT32_MAX && (a - ToInt32(a)) % TWO_TO_THE_32 == 0
  {
    var wraps := a / TWO_TO_THE_32;
    assert a == wraps * TWO_TO_THE_32 + a % TWO_TO_THE_32;
  }

  lemma TruncatesTowardZero(a: int, b: int)
    requires b != 0
    ensures var left := a - Quotient(a, b) * b;
            Abs(left) < Abs(b) && (left == 0 || (left > 0 <==> a > 0))
  {
    DivisionLeaves(Abs(a), Abs(b));
    TimesBack(a, b);
    LeftOver(a, b, Abs(a) / Abs(b) * Abs(b), Abs(a) % Abs(b), Quotient(a, b) * b);
  }

  lemma LeftOver(a: int, b: int, whole: int, left: int, back: int)
    requires Abs(a) == whole + left && 0 <= whole && 0 <= left < Abs(b) && back == if a >= 0 then whole else -whole
    ensures Abs(a - back) < Abs(b) && (a - back == 0 || (a - back > 0 <==> a > 0))
  {
  }

  lemma DivisionLeaves(a: int, p: int)
    requires p > 0
    ensures a == a / p * p + a % p && 0 <= a % p < p && (a >= 0 ==> a / p * p >= 0)
  {
  }

  lemma TimesBack(a: int, b: int)
    requires b != 0
    ensures Quotient(a, b) * b == if a >= 0 then Abs(a) / Abs(b) * Abs(b) else -(Abs(a) / Abs(b) * Abs(b))
  {
    SignsOut(Abs(a) / Abs(b), Abs(b));
  }

  lemma SignsOut(w: int, p: int)
    ensures (-w) * p == -(w * p) && w * (-p) == -(w * p) && (-w) * (-p) == w * p
  {
  }

  /** 2^31 bytes in pieces of one byte. */
  lemma CountCanBeNegative()
    ensures NumPieces(INT32_MAX + 1, 1) == Some(INT32_MIN) && !Covers(INT32_MIN, INT32_MAX + 1, 1)
  {
    NumPiecesCoversIff(INT32_MAX + 1, 1);
  }

  /** Rounding the truncated quotient up where something is left over. */
  lemma RoundedUpCovers(total: int, l: int)
    requires l > 0
    ensures var q := Quotient(total, l);
            Covers(q + (if total - q * l > 0 then 1 else 0), total, l)
  {
    var a, q := Abs(total), Quotient(total, l);
    var whole, left := a / l, a % l;
    assert a == whole * l + left;
    assert (-whole) * l == -(whole * l) && (-whole - 1) * l == -(whole * l) - l;
    assert (whole + 1) * l == whole * l + l && (whole - 1) * l == whole * l - l;
  }

  lemma CoversWithin(n: int, total: int, l: int)
    requires l > 0 && Covers(n, total, l)
    ensures INT32_MIN <= n <= INT32_MAX <==> (INT32_MIN - 1) * l < total <= INT32_MAX * l
  {
    if n <= INT32_MAX { TimesMonotone(n, INT32_MAX, l); } else { TimesMonotone(INT32_MAX, n - 1, l); }
    if n >= INT32_MIN { TimesMonotone(INT32_MIN - 1, n - 1, l); } else { TimesMonotone(n, INT32_MIN - 1, l); }
  }

  // ----- The whole file -----

  /** The fields of the info dictionary that parse reads before it hashes, with the total size. */
  function ReadInfo(info: seq<Entry>): Read<(bytes, int64, seq<bytes>, seq<File>, int64)> {
    var name :- ExtractString(info, NAME);
    var pieceLength :- ExtractInt(info, PIECE_LENGTH);
    var pieces :- PiecesOf(info);
    if Lookup(info, LENGTH).Some? then
      var length :- ExtractInt(info, LENGTH);
      Success((name, pieceLength, pieces, [File(name, length)], length))
    else
      var files :- ExtractFiles(info);
      match TotalSize(0, files)
      case None => Failure(UndefinedArithmetic)
      case Some(total) => Success((name, pieceLength, pieces, files, total))
  }

  /** parse, from the parsed root on. */
  function TorrentOf(root: Value, sha1: bytes -> bytes): Read<Torrent> {
    if !root.Dict? then Failure(RootNotDictionary)
    else match Lookup(root.entries, INFO)
      case Some(Dict(info)) =>
        var announce :- ExtractString(root.entries, ANNOUNCE);
        var comment :- ExtractString(root.entries, COMMENT);
        var creationDate :- ExtractInt(root.entries, CREATION_DATE);
        var (name, pieceLength, pieces, files, total) :- ReadInfo(info);
        match NumPieces(total, pieceLength) {
          case None => Failure(UndefinedArithmetic)
          case Some(numPieces) =>
            Success(Torrent(announce, comment, creationDate, name, pieceLength, pieces, files, numPieces,
                            sha1(Encode(Dict(info)))))
        }
      case _ => Failure(MissingInfo)
  }

  /** parse on the bytes of a file. */
  function ParseFile(data: bytes, fuel: nat, sha1: bytes -> bytes): Read<Torrent> {
    match ReadValue(data, 0, fuel)
    case Done(root, _) => TorrentOf(root, sha1)
    case Thrown(e) => Failure(Malformed(e))
    case Unfinished => Failure(UnfinishedParse)
  }

  // ----- The code -----

  method ExtractPieces(info: seq<Entry>) returns (r: Read<seq<bytes>>)
    ensures r == PiecesOf(info)
  {
    var found := Lookup(info, PIECES);
    if found.None? { return Failure(MissingPieces); }
    if !found.value.Str? { return Failure(PiecesNotString); }
    var s := found.value.s;
    var pieces: seq<bytes> := [];
    var i := 0;
    while i + DIGEST_SIZE <= |s|
      invariant i == DIGEST_SIZE * |pieces| <= |s|
      invariant pieces == Digests(s)[..|pieces|]
    {
      assert Digests(s)[|pieces|] == s[i..i + DIGEST_SIZE];
      pieces := pieces + [s[i..i + DIGEST_SIZE]];
      i := i + DIGEST_SIZE;
    }
    assert pieces == Digests(s);
    r := Success(pieces);
  }

  method JoinPath(components: seq<Value>) returns (r: Read<bytes>)
    ensures r == JoinOnto([], components)
  {
    var path: bytes := [];
    var i := 0;
    assert components[0..] == components;
    while i < |components|
      invariant i <= |components|
      invariant JoinOnto(path, components[i..]) == JoinOnto([], components)
    {
      if !components[i].Str? { return Failure(PathComponentNotString); }
      assert components[i..][1..] == components[i + 1..];
      if path != [] { path := path + [SLASH]; }
      path := path + components[i].s;
      i := i + 1;
    }
    r := Success(path);
  }

  /** The files read so far, put before what becomes of the others. */
  function Behind(files: seq<File>, r: Read<seq<File>>): Read<seq<File>> {
    match r
    case Success(rest) => Success(files + rest)
    case Failure(e) => Failure(e)
  }

  method ReadFiles(items: seq<Value>) returns (r: Read<seq<File>>)
    ensures r == FilesOf(items)
  {
    var files: seq<File> := [];
    var i := 0;
    assert items[0..] == items;
    assert FilesOf(items).Success? ==> [] + FilesOf(items).value == FilesOf(items).value;
    while i < |items|
      invariant i <= |items|
      invariant Behind(files, FilesOf(items[i..])) == FilesOf(items)
    {
      assert items[i..][1..] == items[i + 1..];
      var v := items[i];
      if !v.Dict? { return Failure(FileNotDictionary); }
      var size := ExtractInt(v.entries, LENGTH);
      if size.Failure? { return Failure(size.error); }
      var path := Lookup(v.entries, PATH);
      if path.None? { return Failure(MissingPath); }
      if !path.value.List? { return Failure(PathNotList); }
      var joined := JoinPath(path.value.items);
      if joined.Failure? { return Failure(joined.error); }
      var file := File(joined.value, size.value);
      assert FileOf(v) == Success(file);
      ghost var others := FilesOf(items[i + 1..]);
      assert others.Success? ==> files + ([file] + others.value) == files + [file] + others.value;
      files := files + [file];
      i := i + 1;
    }
    assert files + [] == files;
    r := Success(files);
  }

  method SumSizes(files: seq<File>) returns (total: Option<int64>)
    ensures total == TotalSize(0, files)
  {
    var sum: int64 := 0;
    var i := 0;
    assert files[0..] == files;
    while i < |files|
      invariant i <= |files| && TotalSize(sum, files[i..]) == TotalSize(0, files)
    {
      assert files[i..][1..] == files[i + 1..];
      var next: int := sum + files[i].size;
      if next < INT64_MIN || next > INT64_MAX { return None; }
      sum := next;
      i := i + 1;
    }
    total := Some(sum);
  }

  method Parse(data: bytes, fuel: nat, sha1: bytes -> bytes) returns (r: Read<Torrent>)
    ensures r == ParseFile(data, fuel, sha1)
  {
    hide NumPieces, FilesOf, TotalSize, Digests, ReadValue;
    var parsed := BencodeParser.Parse(data, fuel);
    if parsed.Unfinished? { return Failure(UnfinishedParse); }
    if parsed.Thrown? { return Failure(Malformed(parsed.error)); }
    if !parsed.value.Dict? { return Failure(RootNotDictionary); }
    var root := parsed.value.entries;
    var found := Lookup(root, INFO);
    if found.None? || !found.value.Dict? { return Failure(MissingInfo); }
    var announce :- ExtractString(root, ANNOUNCE);
    var comment :- ExtractString(root, COMMENT);
    var creationDate :- ExtractInt(root, CREATION_DATE);
    var info := found.value.entries;
    var name :- ExtractString(info, NAME);
    var pieceLength :- ExtractInt(info, PIECE_LENGTH);
    var pieces := ExtractPieces(info);
    if pieces.Failure? { return Failure(pieces.error); }
    var files, total;
    if Lookup(info, LENGTH).Some? {
      total :- ExtractInt(info, LENGTH);
      files := [File(name, total)];
    } else {
      var list := Lookup(info, FILES);
      if list.None? { return Failure(MissingFiles); }
      if !list.value.List? { return Failure(FilesNotList); }
      var all := ReadFiles(list.value.items);
      if all.Failure? { return Failure(all.error); }
      var sum := SumSizes(all.value);
      if sum.None? { return Failure(UndefinedArithmetic); }
      files, total := all.value, sum.value;
    }
    var numPieces := NumPieces(total, pieceLength);
    if numPieces.None? { return Failure(UndefinedArithmetic); }
    var encodedInfo := BencodeEncoder.EncodeValue(Dict(info));
    r := Success(Torrent(announce, comment, creationDate, name, pieceLength, pieces.value, files,
                         numPieces.value, sha1(encodedInfo)));
  }
}

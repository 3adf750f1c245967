/** Which error parse raises: the first in a fixed order of checks that fails. */
module TorrentErrors {
  import opened Bytes
  import opened Bencode
  import opened TorrentFile
  import opened TorrentContents

  datatype Check = Check(passes: bool, error: TorrentError)

  /** The error of the first check that fails. */
  function FirstFailure(checks: seq<Check>): Option<TorrentError> {
    if |checks| == 0 then None
    else if !checks[0].passes then Some(checks[0].error)
    else FirstFailure(checks[1..])
  }

  /** Nothing under a key, or a string. */
  predicate TextOrNone(d: seq<Entry>, key: bytes) {
    Lookup(d, key).Some? ==> Lookup(d, key).value.Str?
  }

  /** Nothing under a key, or an integer. */
  predicate NumberOrNone(d: seq<Entry>, key: bytes) {
    Lookup(d, key).Some? ==> Lookup(d, key).value.Int?
  }

  // ----- The checks in order -----

  /** A file is a dictionary, its length an integer, and its path a list of strings. */
  function ItemChecks(item: Value): seq<Check> {
    if !item.Dict? then [Check(false, FileNotDictionary)]
    else
      [Check(NumberOrNone(item.entries, Text("length")), ExpectedInteger(Text("length")))] +
      match Lookup(item.entries, Text("path"))
      case None => [Check(false, MissingPath)]
      case Some(List(components)) => [Check(AllStrings(components), PathComponentNotString)]
      case Some(_) => [Check(false, PathNotList)]
  }

  function ItemsChecks(items: seq<Value>): seq<Check> {
    if |items| == 0 then [] else ItemChecks(items[0]) + ItemsChecks(items[1..])
  }

  /** With a length, only that it is an integer; without one, the files. */
  function SizeChecks(info: seq<Entry>): seq<Check> {
    if Lookup(info, Text("length")).Some? then
      [Check(NumberOrNone(info, Text("length")), ExpectedInteger(Text("length")))]
    else match Lookup(info, Text("files"))
      case None => [Check(false, MissingFiles)]
      case Some(List(items)) => ItemsChecks(items)
      case Some(_) => [Check(false, FilesNotList)]
  }

  function RootChecks(root: seq<Entry>): seq<Check> {
    [Check(TextOrNone(root, Text("announce")), ExpectedString(Text("announce"))),
     Check(TextOrNone(root, Text("comment")), ExpectedString(Text("comment"))),
     Check(NumberOrNone(root, Text("creation date")), ExpectedInteger(Text("creation date")))]
  }

  function InfoChecks(info: seq<Entry>): seq<Check> {
    [Check(TextOrNone(info, Text("name")), ExpectedString(Text("name"))),
     Check(NumberOrNone(info, Text("piece length")), ExpectedInteger(Text("piece length"))),
     Check(Lookup(info, Text("pieces")).Some?, MissingPieces),
     Check(TextOrNone(info, Text("pieces")), PiecesNotString)]
  }

  function Checks(root: Value): seq<Check> {
    if !root.Dict? then [Check(false, RootNotDictionary)]
    else match Lookup(root.entries, Text("info"))
      case Some(Dict(info)) => RootChecks(root.entries) + (InfoChecks(info) + SizeChecks(info))
      case _ => [Check(false, MissingInfo)]
  }

  // ----- The first that fails decides -----

  lemma {:induction false} FirstOfTwo(a: seq<Check>, b: seq<Check>)
    ensures FirstFailure(a + b) == if FirstFailure(a).Some? then FirstFailure(a) else FirstFailure(b)
    decreases |a|
  {
    if |a| == 0 {
      assert a + b == b;
    } else {
      assert (a + b)[1..] == a[1..] + b;
      FirstOfTwo(a[1..], b);
    }
  }

  lemma OneCheck(c: Check)
    ensures FirstFailure([c]) == if c.passes then None else Some(c.error)
  {
    assert FirstFailure([c][1..]) == None;
  }

  lemma ItemFails(item: Value)
    ensures match FirstFailure(ItemChecks(item))
            case Some(e) => FileOf(item) == Failure(e)
            case None => FileOf(item).Success?
  {
    hide FirstFailure, JoinOnto, AllStrings;
    if item.Dict? {
      var first, path := ItemChecks(item)[..1], ItemChecks(item)[1..];
      assert ItemChecks(item) == first + path && |path| == 1 && path == [path[0]] && first == [first[0]];
      FirstOfTwo(first, path);
      OneCheck(first[0]);
      OneCheck(path[0]);
      match Lookup(item.entries, PATH)
      case Some(List(components)) =>
        PathIsJoined(components);
        PathError([], components);
      case _ =>
    } else {
      OneCheck(ItemChecks(item)[0]);
    }
  }

  lemma {:induction false} PathError(path: bytes, components: seq<Value>)
    ensures JoinOnto(path, components).Failure? ==> JoinOnto(path, components).error == PathComponentNotString
    decreases |components|
  {
    if |components| > 0 && components[0].Str? {
      PathError((if path != [] then path + [SLASH] else path) + components[0].s, components[1..]);
    }
  }

  lemma {:induction false} ItemsFail(items: seq<Value>)
    ensures match FirstFailure(ItemsChecks(items))
            case Some(e) => FilesOf(items) == Failure(e)
            case None => FilesOf(items).Success?
  {
    hide ItemChecks, FileOf, FirstFailure;
    if |items| > 0 {
      ItemFails(items[0]);
      FirstOfTwo(ItemChecks(items[0]), ItemsChecks(items[1..]));
      ItemsFail(items[1..]);
    } else {
      assert FirstFailure([]) == None by { NoChecks(); }
    }
  }

  lemma NoChecks()
    ensures FirstFailure([]) == None
  {
  }

  lemma SizesFail(info: seq<Entry>)
    ensures match FirstFailure(SizeChecks(info))
            case Some(e) =>
              if Lookup(info, LENGTH).Some? then ExtractInt(info, LENGTH) == Failure(e)
              else ExtractFiles(info) == Failure(e)
            case None =>
              if Lookup(info, LENGTH).Some? then ExtractInt(info, LENGTH).Success? else ExtractFiles(info).Success?
  {
    hide FirstFailure, ItemsChecks, FilesOf;
    if Lookup(info, LENGTH).Some? {
      OneCheck(SizeChecks(info)[0]);
    } else {
      match Lookup(info, FILES)
      case Some(List(items)) => ItemsFail(items);
      case _ => OneCheck(SizeChecks(info)[0]);
    }
  }

  lemma RootFails(root: seq<Entry>)
    ensures FirstFailure(RootChecks(root)) ==
            if ExtractString(root, ANNOUNCE).Failure? then Some(ExtractString(root, ANNOUNCE).error)
            else if ExtractString(root, COMMENT).Failure? then Some(ExtractString(root, COMMENT).error)
            else if ExtractInt(root, CREATION_DATE).Failure? then Some(ExtractInt(root, CREATION_DATE).error)
            else None
  {
    var c := RootChecks(root);
    hide FirstFailure, Lookup;
    assert c == [c[0]] + ([c[1]] + [c[2]]);
    FirstOfTwo([c[0]], [c[1]] + [c[2]]);
    FirstOfTwo([c[1]], [c[2]]);
    OneCheck(c[0]);
    OneCheck(c[1]);
    OneCheck(c[2]);
  }

  lemma InfoFails(info: seq<Entry>)
    ensures FirstFailure(InfoChecks(info)) ==
            if ExtractString(info, NAME).Failure? then Some(ExtractString(info, NAME).error)
            else if ExtractInt(info, PIECE_LENGTH).Failure? then Some(ExtractInt(info, PIECE_LENGTH).error)
            else if PiecesOf(info).Failure? then Some(PiecesOf(info).error)
            else None
  {
    var c := InfoChecks(info);
    hide FirstFailure, Lookup, Digests;
    assert c == [c[0]] + ([c[1]] + ([c[2]] + [c[3]]));
    FirstOfTwo([c[0]], [c[1]] + ([c[2]] + [c[3]]));
    FirstOfTwo([c[1]], [c[2]] + [c[3]]);
    FirstOfTwo([c[2]], [c[3]]);
    OneCheck(c[0]);
    OneCheck(c[1]);
    OneCheck(c[2]);
    OneCheck(c[3]);
  }

  /** parse from the root on raises the error of the first check that fails. Where none does, only the
      arithmetic on the sizes can go wrong. */
  lemma FirstErrorIsRaised(root: Value, sha1: bytes -> bytes)
    ensures match FirstFailure(Checks(root))
            case Some(e) => TorrentOf(root, sha1) == Failure(e)
            case None => TorrentOf(root, sha1).Success? || TorrentOf(root, sha1).error == UndefinedArithmetic
  {
    hide FirstFailure, RootChecks, InfoChecks, SizeChecks, ExtractString, ExtractInt, PiecesOf, ExtractFiles, TotalSize;
    hide NumPieces;
    if root.Dict? {
      match Lookup(root.entries, INFO)
      case Some(Dict(info)) =>
        RootFails(root.entries);
        InfoFails(info);
        SizesFail(info);
        FirstOfTwo(RootChecks(root.entries), InfoChecks(info) + SizeChecks(info));
        FirstOfTwo(InfoChecks(info), SizeChecks(info));
      case _ => OneCheck(Checks(root)[0]);
    } else {
      OneCheck(Checks(root)[0]);
    }
  }
}

/** What the sizes and paths read from a file list are: sums, and names that can be told apart again. */
module TorrentContents {
  import opened Bytes
  import opened Bencode
  import opened BencodeRoundTrip
  import opened TorrentFile

  // ----- Sizes -----

  function SumOf(files: seq<File>): int {
    if |files| == 0 then 0 else files[0].size + SumOf(files[1..])
  }

  /** The total is the sum of the sizes, and it is missing exactly when the sum of the first so many
      leaves int64 on the way. */
  lemma {:induction false} TotalIsSum(total: int64, files: seq<File>)
    ensures TotalSize(total, files).Some? ==> TotalSize(total, files).value == total + SumOf(files)
    ensures TotalSize(total, files).None? <==>
            exists k :: 0 <= k <= |files| && !(INT64_MIN <= total + SumOf(files[..k]) <= INT64_MAX)
    decreases |files|
  {
    assert files[..0] == [];
    if |files| > 0 {
      var next: int := total + files[0].size;
      forall k | 0 < k <= |files|
        ensures SumOf(files[..k]) == files[0].size + SumOf(files[1..][..k - 1])
      {
        assert files[..k][1..] == files[1..][..k - 1];
      }
      if INT64_MIN <= next <= INT64_MAX {
        TotalIsSum(next, files[1..]);
        forall k | 0 <= k <= |files| - 1
          ensures next + SumOf(files[1..][..k]) == total + SumOf(files[..k + 1])
        {
        }
      } else {
        assert files[1..][..0] == [];
        assert total + SumOf(files[..1]) == next;
      }
    }
  }

  // ----- Paths -----

  predicate AllStrings(components: seq<Value>) {
    forall i :: 0 <= i < |components| ==> components[i].Str?
  }

  function Names(components: seq<Value>): seq<bytes>
    requires AllStrings(components)
  {
    seq(|components|, i requires 0 <= i < |components| => components[i].s)
  }

  /** The names from the first that is not empty on. */
  function Visible(names: seq<bytes>): seq<bytes> {
    if |names| == 0 || names[0] != [] then names else Visible(names[1..])
  }

  /** Each name behind a slash. */
  function Slashed(names: seq<bytes>): bytes {
    if |names| == 0 then [] else [SLASH] + names[0] + Slashed(names[1..])
  }

  /** The names with one slash between each two. */
  function Joined(names: seq<bytes>): bytes {
    if |names| == 0 then [] else names[0] + Slashed(names[1..])
  }

  /** A path cut at its slashes. */
  function Split(path: bytes): seq<bytes>
    decreases |path|
  {
    var k := Find(path, SLASH);
    if k == |path| then [path] else [path[..k]] + Split(path[k + 1..])
  }

  /** A path is read exactly when every component is a string. It is then the components with slashes
      between them, less the empty ones in front. */
  lemma {:induction false} PathIsJoined(components: seq<Value>)
    ensures JoinOnto([], components).Success? <==> AllStrings(components)
    ensures AllStrings(components) ==> JoinOnto([], components).value == Joined(Visible(Names(components)))
    decreases |components|
  {
    if |components| > 0 && components[0].Str? {
      NamesTail(components);
      if components[0].s == [] {
        assert [] + components[0].s == [];
        PathIsJoined(components[1..]);
      } else {
        assert [] + components[0].s == components[0].s;
        JoinedBehind(components[0].s, components[1..]);
      }
    }
  }

  lemma NamesTail(components: seq<Value>)
    requires |components| > 0 && components[0].Str?
    ensures AllStrings(components) <==> AllStrings(components[1..])
    ensures AllStrings(components) ==> Names(components) == [components[0].s] + Names(components[1..])
  {
    if AllStrings(components[1..]) {
      forall i | 0 <= i < |components|
        ensures components[i].Str?
      {
        assert i > 0 ==> components[i] == components[1..][i - 1];
      }
    }
  }

  lemma {:induction false} JoinedBehind(path: bytes, components: seq<Value>)
    requires path != []
    ensures JoinOnto(path, components).Success? <==> AllStrings(components)
    ensures AllStrings(components) ==> JoinOnto(path, components).value == path + Slashed(Names(components))
    decreases |components|
  {
    if |components| == 0 {
      assert path + [] == path;
    } else if components[0].Str? {
      NamesTail(components);
      JoinedBehind(path + [SLASH] + components[0].s, components[1..]);
      if AllStrings(components) {
        assert Slashed(Names(components)) == [SLASH] + components[0].s + Slashed(Names(components[1..]));
      }
    }
  }

  predicate NoSlash(names: seq<bytes>) {
    forall i :: 0 <= i < |names| ==> SLASH !in names[i]
  }

  /** The components can be read off the path again, less the empty ones in front, exactly when there
      is one left and none of those left holds a slash. */
  lemma PathSplitsBack(components: seq<Value>)
    requires AllStrings(components)
    ensures JoinOnto([], components).Success?
    ensures var names := Visible(Names(components));
            Split(JoinOnto([], components).value) == names <==> names != [] && NoSlash(names)
  {
    var names := Visible(Names(components));
    PathIsJoined(components);
    if names != [] && NoSlash(names) { SplitJoined(names); }
    SplitHasNoSlash(Joined(names));
  }

  lemma {:induction false} SplitHasNoSlash(path: bytes)
    ensures Split(path) != [] && NoSlash(Split(path))
    decreases |path|
  {
    var k := Find(path, SLASH);
    FindFirst(path, SLASH);
    if k < |path| {
      SplitHasNoSlash(path[k + 1..]);
      assert Split(path) == [path[..k]] + Split(path[k + 1..]);
    }
  }

  lemma {:induction false} SplitJoined(names: seq<bytes>)
    requires NoSlash(names) && |names| > 0
    ensures Split(Joined(names)) == names
    decreases |names|
  {
    var first, rest := names[0], names[1..];
    assert names == [first] + rest;
    if |rest| == 0 {
      assert first + [] == first;
      FindNone(first);
    } else {
      assert Joined(names) == first + [SLASH] + Joined(rest);
      FindAfter(first, SLASH, Joined(rest));
      SplitJoined(rest);
    }
  }

  lemma FindNone(s: bytes)
    requires SLASH !in s
    ensures Find(s, SLASH) == |s|
  {
    FindFirst(s, SLASH);
  }
}

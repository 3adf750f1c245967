/** The piece store: blocks written into piece buffers, and the bits and counter that record them. */
module PieceStore {
  import opened Bytes

  const MAX_BLOCK_SIZE := 16384

  datatype Piece = Piece(data: bytes, received: seq<bool>, count: int)

  datatype Config = Config(numPieces: int, pieceLength: int)

  datatype Store = Store(config: Config, pieces: map<int, Piece>, completed: set<int>)

  /** Sizes for which the block count does not overflow an int. */
  predicate Sized(c: Config) {
    0 <= c.numPieces <= INT32_MAX && 0 <= c.pieceLength <= INT32_MAX - (MAX_BLOCK_SIZE - 1)
  }

  function Empty(c: Config): Store {
    Store(c, map[], {})
  }

  /** getBlockCount: for the last piece it counts the blocks of pieceLength % MAX_BLOCK_SIZE. */
  function BlockCount(c: Config, i: int): (n: int)
    requires Sized(c)
    ensures n >= 0
  {
    var size := if i == c.numPieces - 1 then c.pieceLength % MAX_BLOCK_SIZE else c.pieceLength;
    (size + MAX_BLOCK_SIZE - 1) / MAX_BLOCK_SIZE
  }

  function CountTrue(bits: seq<bool>): (n: nat)
    ensures n <= |bits|
  {
    if |bits| == 0 then 0 else (if bits[|bits| - 1] then 1 else 0) + CountTrue(bits[..|bits| - 1])
  }

  function Falses(n: nat): (r: seq<bool>)
    ensures |r| == n && forall k :: 0 <= k < n ==> !r[k]
  {
    seq(n, _ => false)
  }

  function Zeros(n: nat): (r: bytes)
    ensures |r| == n
  {
    seq(n, _ => 0)
  }

  /** Buffers and bitmaps have the sizes storePieceBlock gives them. */
  predicate Shaped(s: Store) {
    && Sized(s.config)
    && forall i :: i in s.pieces ==>
         && 0 <= i < s.config.numPieces
         && |s.pieces[i].data| == s.config.pieceLength && |s.pieces[i].received| == BlockCount(s.config, i)
  }

  predicate InRange(c: Config, i: int, offset: int, size: nat) {
    0 <= i < c.numPieces && 0 <= offset && offset + size <= c.pieceLength
  }

  /** The bitmap access of storePieceBlock stays inside the bitmap. */
  predicate Defined(c: Config, i: int, offset: int, size: nat)
    requires Sized(c)
  {
    InRange(c, i, offset, size) ==> offset / MAX_BLOCK_SIZE < BlockCount(c, i)
  }

  /** The stored piece, or the one storePieceBlock would set up. */
  function PieceAt(s: Store, i: int): Piece
    requires Shaped(s)
  {
    if i in s.pieces then s.pieces[i] else Piece(Zeros(s.config.pieceLength), Falses(BlockCount(s.config, i)), 0)
  }

  /** memcpy of block into data. */
  function Overwrite(data: bytes, offset: nat, block: bytes): (r: bytes)
    requires offset + |block| <= |data|
    ensures |r| == |data|
  {
    data[..offset] + block + data[offset + |block|..]
  }

  datatype Stored = Stored(store: Store, ok: bool)

  /** storePieceBlock. */
  function StoreBlock(s: Store, i: int, offset: int, block: bytes): (r: Stored)
    requires Shaped(s) && Defined(s.config, i, offset, |block|)
    ensures Shaped(r.store) && r.store.config == s.config
    ensures !r.ok ==> r.store == s
  {
    if !InRange(s.config, i, offset, |block|) then Stored(s, false)
    else
      var p := PieceAt(s, i);
      var b := offset / MAX_BLOCK_SIZE;
      if p.received[b] then Stored(s, false)
      else
        var q := Piece(Overwrite(p.data, offset, block), p.received[b := true], p.count + 1);
        var completed := if q.count == BlockCount(s.config, i) then s.completed + {i} else s.completed;
        Stored(s.(pieces := s.pieces[i := q], completed := completed), true)
  }

  predicate Full(s: Store, i: int)
    requires Shaped(s)
  {
    i in s.pieces && s.pieces[i].count == BlockCount(s.config, i)
  }

  /** markPieceAsDownloaded. */
  function Mark(s: Store, i: int): (r: Store)
    requires Shaped(s)
    ensures Shaped(r)
  {
    if i !in s.pieces then s
    else
      var p := s.pieces[i];
      var all := seq(|p.received|, _ => true);
      s.(pieces := s.pieces[i := p.(count := BlockCount(s.config, i), received := all)])
  }

  // ----- What a store changes -----

  /** The bytes a piece holds, or the zeros it would be set up with. */
  function ByteAt(s: Store, i: int, k: int): byte
    requires Shaped(s) && 0 <= k < s.config.pieceLength
  {
    if i in s.pieces then s.pieces[i].data[k] else 0
  }

  /** Whether the bit of a block is set. */
  predicate HasBlock(s: Store, i: int, b: int)
    requires Shaped(s)
  {
    i in s.pieces && 0 <= b < |s.pieces[i].received| && s.pieces[i].received[b]
  }

  /** A block is taken exactly when it lies in the piece and its bit is not set. Its bytes then stand at
      its own offset and its bit is set; every other byte, bit and piece is as before. */
  lemma StoreChanges(s: Store, i: int, offset: int, block: bytes)
    requires Shaped(s) && Defined(s.config, i, offset, |block|)
    ensures var r, c := StoreBlock(s, i, offset, block), s.config;
            && r.ok == (0 <= i < c.numPieces && 0 <= offset && offset + |block| <= c.pieceLength &&
                        !HasBlock(s, i, offset / 16384))
            && (r.ok ==>
                && r.store.pieces.Keys == s.pieces.Keys + {i}
                && r.store.pieces[i].data[offset..offset + |block|] == block
                && (forall k :: 0 <= k < c.pieceLength && !(offset <= k < offset + |block|) ==>
                      r.store.pieces[i].data[k] == ByteAt(s, i, k))
                && (forall b :: HasBlock(r.store, i, b) <==> HasBlock(s, i, b) || b == offset / 16384)
                && r.store.pieces[i].count == (if i in s.pieces then s.pieces[i].count else 0) + 1
                && forall j :: j in s.pieces && j != i ==> r.store.pieces[j] == s.pieces[j])
  {
    var r := StoreBlock(s, i, offset, block);
    if r.ok {
      var p := PieceAt(s, i);
      assert r.store.pieces[i].data == p.data[..offset] + block + p.data[offset + |block|..];
    }
  }

  /** Marking sets the counter and every bit of a known piece, and nothing else. */
  lemma MarkChanges(s: Store, i: int)
    requires Shaped(s)
    ensures var r := Mark(s, i);
            && r.config == s.config && r.completed == s.completed && r.pieces.Keys == s.pieces.Keys
            && (forall j :: j in s.pieces && j != i ==> r.pieces[j] == s.pieces[j])
            && (i in s.pieces ==>
                && r.pieces[i].data == s.pieces[i].data && r.pieces[i].count == BlockCount(s.config, i)
                && |r.pieces[i].received| == |s.pieces[i].received|
                && forall b :: 0 <= b < |s.pieces[i].received| ==> r.pieces[i].received[b])
  {
  }

  /** So many blocks of 16384 bytes cover the piece, and one fewer would not; of the last piece only
      what is left over after whole blocks is covered. */
  lemma BlockCountCovers(c: Config, i: int)
    requires Sized(c)
    ensures var n, size := BlockCount(c, i), if i == c.numPieces - 1 then c.pieceLength % 16384 else c.pieceLength;
            (n - 1) * 16384 < size <= n * 16384
  {
  }

  // ----- When a store is defined -----

  /** The blocks in range that storePieceBlock has no bit for. Before the last piece these are only
      the empty ones at the end of a piece that is a whole number of blocks long; of the last piece,
      all those past the blocks counted, which is all of them when the length is whole. */
  lemma UndefinedExactly(c: Config, i: int, offset: int, size: nat)
    requires Sized(c) && InRange(c, i, offset, size)
    ensures i != c.numPieces - 1 ==>
              (!Defined(c, i, offset, size) <==>
               size == 0 && offset == c.pieceLength && c.pieceLength % MAX_BLOCK_SIZE == 0)
    ensures i == c.numPieces - 1 ==>
              (!Defined(c, i, offset, size) <==>
               offset / MAX_BLOCK_SIZE * MAX_BLOCK_SIZE >= c.pieceLength % MAX_BLOCK_SIZE)
  {
  }

  /** A torrent of one 16384-byte piece has no bit for its only block. */
  lemma OnlyBlockHasNoBit(c: Config)
    requires c == Config(1, MAX_BLOCK_SIZE)
    ensures InRange(c, 0, 0, MAX_BLOCK_SIZE) && BlockCount(c, 0) == 0 && !Defined(c, 0, 0, MAX_BLOCK_SIZE)
  {
    UndefinedExactly(c, 0, 0, MAX_BLOCK_SIZE);
  }

  // ----- The counter counts -----

  lemma {:induction false} CountTrueSet(bits: seq<bool>, b: nat)
    requires b < |bits| && !bits[b]
    ensures CountTrue(bits[b := true]) == CountTrue(bits) + 1
  {
    var n := |bits| - 1;
    if b == n {
      assert bits[b := true][..n] == bits[..n];
    } else {
      assert bits[b := true][..n] == bits[..n][b := true];
      CountTrueSet(bits[..n], b);
    }
  }

  lemma {:induction false} CountTrueAll(bits: seq<bool>)
    ensures CountTrue(bits) == |bits| <==> forall k :: 0 <= k < |bits| ==> bits[k]
    ensures CountTrue(bits) == 0 <==> forall k :: 0 <= k < |bits| ==> !bits[k]
  {
    if |bits| > 0 {
      var n := |bits| - 1;
      CountTrueAll(bits[..n]);
      assert forall k :: 0 <= k < n ==> bits[..n][k] == bits[k];
    }
  }

  /** receivedBlockCount is the number of bits set, and completedPieces are the full pieces. */
  predicate Counted(s: Store) {
    && Shaped(s)
    && (forall i :: i in s.pieces ==> s.pieces[i].count == CountTrue(s.pieces[i].received))
    && s.completed <= s.pieces.Keys
    && (forall i :: i in s.pieces ==> (i in s.completed <==> Full(s, i)))
  }

  lemma StoreKeepsCounted(s: Store, i: int, offset: int, block: bytes)
    requires Counted(s) && Defined(s.config, i, offset, |block|)
    ensures Counted(StoreBlock(s, i, offset, block).store)
  {
    if InRange(s.config, i, offset, |block|) && !PieceAt(s, i).received[offset / MAX_BLOCK_SIZE] {
      CountTrueAll(Falses(BlockCount(s.config, i)));
      CountTrueSet(PieceAt(s, i).received, offset / MAX_BLOCK_SIZE);
    }
  }

  /** Marking a full piece changes nothing. */
  lemma MarkFull(s: Store, i: int)
    requires Counted(s) && Full(s, i)
    ensures Mark(s, i) == s
  {
    var p := s.pieces[i];
    CountTrueAll(p.received);
    assert seq(|p.received|, _ => true) == p.received;
    assert p.(count := BlockCount(s.config, i), received := p.received) == p;
    assert s.pieces[i := p] == s.pieces;
  }

  /** A full piece refuses every later block. */
  lemma FullRefuses(s: Store, i: int, offset: int, block: bytes)
    requires Counted(s) && Full(s, i) && Defined(s.config, i, offset, |block|)
    ensures StoreBlock(s, i, offset, block) == Stored(s, false)
  {
    CountTrueAll(s.pieces[i].received);
  }

  // ----- The object -----

  class PieceManager {
    const numPieces: int
    const pieceLength: int
    var pieces: map<int, Piece>
    var completedPieces: set<int>

    function Contents(): Store
      reads this
    {
      Store(Config(numPieces, pieceLength), pieces, completedPieces)
    }

    constructor (numPieces: int, pieceLength: int)
      requires Sized(Config(numPieces, pieceLength))
      ensures Contents() == Empty(Config(numPieces, pieceLength))
    {
      this.numPieces, this.pieceLength := numPieces, pieceLength;
      pieces, completedPieces := map[], {};
    }

    method GetBlockCount(pieceIndex: int) returns (n: int)
      requires Sized(Config(numPieces, pieceLength))
      ensures n == BlockCount(Contents().config, pieceIndex)
    {
      var lastPieceSize := if pieceIndex == numPieces - 1 then pieceLength % MAX_BLOCK_SIZE else pieceLength;
      n := (lastPieceSize + MAX_BLOCK_SIZE - 1) / MAX_BLOCK_SIZE;
    }

    method StorePieceBlock(pieceIndex: int, blockOffset: int, data: bytes) returns (ok: bool)
      requires Shaped(Contents()) && Defined(Contents().config, pieceIndex, blockOffset, |data|)
      modifies this
      ensures Stored(Contents(), ok) == StoreBlock(old(Contents()), pieceIndex, blockOffset, data)
    {
      if pieceIndex < 0 || pieceIndex >= numPieces { return false; }
      if blockOffset < 0 || blockOffset + |data| > pieceLength { return false; }
      var blockCount := GetBlockCount(pieceIndex);
      if pieceIndex !in pieces {
        pieces := pieces[pieceIndex := Piece(Zeros(pieceLength), Falses(blockCount), 0)];
      }
      var blockIndex := blockOffset / MAX_BLOCK_SIZE;
      if pieces[pieceIndex].received[blockIndex] { return false; }
      var p := pieces[pieceIndex];
      p := p.(data := Overwrite(p.data, blockOffset, data));
      p := p.(received := p.received[blockIndex := true]);
      p := p.(count := p.count + 1);
      pieces := pieces[pieceIndex := p];
      if p.count == blockCount { completedPieces := completedPieces + {pieceIndex}; }
      ok := true;
    }

    method IsPieceComplete(pieceIndex: int) returns (complete: bool)
      requires Shaped(Contents())
      ensures complete <==> Full(Contents(), pieceIndex)
    {
      if pieceIndex !in pieces { return false; }
      var blockCount := GetBlockCount(pieceIndex);
      complete := pieces[pieceIndex].count == blockCount;
    }

    method GetFullPiece(pieceIndex: int) returns (ok: bool, data: bytes)
      ensures ok <==> pieceIndex in pieces && |pieces[pieceIndex].data| > 0
      ensures pieceIndex in pieces ==> data == pieces[pieceIndex].data
    {
      data := [];
      if pieceIndex !in pieces { return false, data; }
      data := pieces[pieceIndex].data;
      ok := |data| > 0;
    }

    /** The range test of getPieceBlock, which lets a negative size through. */
    predicate PassesRangeTest(pieceIndex: int, blockOffset: int, blockSize: int) {
      0 <= pieceIndex < numPieces && 0 <= blockOffset && blockOffset + blockSize <= pieceLength
    }

    /** Serves any range of a known piece, received or not. A negative size is excluded only where the
        source would copy a range that ends before it begins. */
    method GetPieceBlock(pieceIndex: int, blockOffset: int, blockSize: int) returns (ok: bool, data: bytes)
      requires Shaped(Contents())
      requires PassesRangeTest(pieceIndex, blockOffset, blockSize) && pieceIndex in pieces ==> blockSize >= 0
      ensures ok <==> PassesRangeTest(pieceIndex, blockOffset, blockSize) && pieceIndex in pieces
      ensures ok ==> data == pieces[pieceIndex].data[blockOffset..blockOffset + blockSize]
    {
      data := [];
      if pieceIndex < 0 || pieceIndex >= numPieces { return false, data; }
      if blockOffset < 0 || blockOffset + blockSize > pieceLength { return false, data; }
      if pieceIndex !in pieces { return false, data; }
      data := pieces[pieceIndex].data[blockOffset..blockOffset + blockSize];
      ok := true;
    }

    method MarkPieceAsDownloaded(pieceIndex: int) returns (ok: bool)
      requires Shaped(Contents())
      modifies this
      ensures Contents() == Mark(old(Contents()), pieceIndex)
      ensures ok <==> pieceIndex in old(pieces)
    {
      if pieceIndex !in pieces { return false; }
      var blockCount := GetBlockCount(pieceIndex);
      var p := pieces[pieceIndex];
      p := p.(count := blockCount);
      p := p.(received := seq(|p.received|, _ => true));
      pieces := pieces[pieceIndex := p];
      ok := true;
    }
  }
}

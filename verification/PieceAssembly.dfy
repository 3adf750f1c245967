/** What a store holds after blocks cut from known pieces have arrived in any order. */
module PieceAssembly {
  import opened Bytes
  import opened PieceStore

  /** The b-th block of a piece. */
  datatype Block = Block(piece: int, b: int)

  /** The content being fetched: one string of pieceLength bytes for each piece. */
  predicate Source(c: Config, source: map<int, bytes>) {
    && Sized(c)
    && forall i :: 0 <= i < c.numPieces ==> i in source && |source[i]| == c.pieceLength
  }

  /** A block of a piece that the store keeps a bit for. */
  predicate IsBlock(c: Config, block: Block)
    requires Sized(c)
  {
    0 <= block.piece < c.numPieces && 0 <= block.b < BlockCount(c, block.piece)
  }

  predicate AreBlocks(c: Config, blocks: seq<Block>)
    requires Sized(c)
  {
    forall k :: 0 <= k < |blocks| ==> IsBlock(c, blocks[k])
  }

  function BlockStart(b: int): int {
    b * MAX_BLOCK_SIZE
  }

  /** Blocks are full-size, except a shorter one at the end of the piece. */
  function BlockEnd(c: Config, b: int): int {
    if BlockStart(b) + MAX_BLOCK_SIZE <= c.pieceLength then BlockStart(b) + MAX_BLOCK_SIZE else c.pieceLength
  }

  lemma BlockFits(c: Config, block: Block)
    requires Sized(c) && IsBlock(c, block)
    ensures 0 <= BlockStart(block.b) < BlockEnd(c, block.b) <= c.pieceLength
    ensures BlockStart(block.b) / MAX_BLOCK_SIZE == block.b
    ensures forall k :: 0 <= k < c.pieceLength ==>
              (k / MAX_BLOCK_SIZE == block.b <==> BlockStart(block.b) <= k < BlockEnd(c, block.b))
  {
  }

  function Cut(c: Config, source: map<int, bytes>, block: Block): bytes
    requires Source(c, source) && IsBlock(c, block)
  {
    BlockFits(c, block);
    source[block.piece][BlockStart(block.b)..BlockEnd(c, block.b)]
  }

  /** Store one block of the source. */
  function StoreCut(s: Store, source: map<int, bytes>, block: Block): (r: Stored)
    requires Shaped(s) && Source(s.config, source) && IsBlock(s.config, block)
    ensures Shaped(r.store) && r.store.config == s.config
  {
    BlockFits(s.config, block);
    StoreBlock(s, block.piece, BlockStart(block.b), Cut(s.config, source, block))
  }

  /** Store blocks one after the other. */
  function StoreAll(s: Store, source: map<int, bytes>, blocks: seq<Block>): (r: Store)
    requires Shaped(s) && Source(s.config, source) && AreBlocks(s.config, blocks)
    decreases |blocks|
  {
    if |blocks| == 0 then s
    else
      assert AreBlocks(s.config, blocks[1..]);
      StoreAll(StoreCut(s, source, blocks[0]).store, source, blocks[1..])
  }

  // ----- The state as a function of the set of blocks that arrived -----

  function AssembledPiece(c: Config, content: bytes, i: int, arrived: set<Block>): (p: Piece)
    requires Sized(c) && |content| == c.pieceLength
    ensures |p.data| == c.pieceLength && |p.received| == BlockCount(c, i)
  {
    var data := seq(c.pieceLength, k requires 0 <= k < c.pieceLength =>
      if Block(i, k / MAX_BLOCK_SIZE) in arrived then content[k] else 0);
    var received := seq(BlockCount(c, i), b => Block(i, b) in arrived);
    Piece(data, received, CountTrue(received))
  }

  predicate Touched(i: int, arrived: set<Block>) {
    exists block :: block in arrived && block.piece == i
  }

  function Assembled(c: Config, source: map<int, bytes>, arrived: set<Block>): (s: Store)
    requires Source(c, source)
    ensures Shaped(s) && s.config == c
  {
    var pieces := map i | 0 <= i < c.numPieces && Touched(i, arrived) :: AssembledPiece(c, source[i], i, arrived);
    var completed := set i | 0 <= i < c.numPieces && Touched(i, arrived) && pieces[i].count == BlockCount(c, i);
    Store(c, pieces, completed)
  }

  lemma NothingAssembled(c: Config, source: map<int, bytes>)
    requires Source(c, source)
    ensures Assembled(c, source, {}) == Empty(c)
  {
    assert Assembled(c, source, {}).pieces == map[];
  }

  lemma PieceAtAssembled(c: Config, source: map<int, bytes>, arrived: set<Block>, i: int)
    requires Source(c, source) && 0 <= i < c.numPieces
    ensures PieceAt(Assembled(c, source, arrived), i) == AssembledPiece(c, source[i], i, arrived)
  {
    if !Touched(i, arrived) {
      var p := AssembledPiece(c, source[i], i, arrived);
      forall b
        ensures Block(i, b) !in arrived
      {
        assert Block(i, b).piece == i;
      }
      assert p.data == Zeros(c.pieceLength);
      assert p.received == Falses(BlockCount(c, i));
      CountTrueAll(p.received);
    }
  }

  lemma AssembledPieceGrows(c: Config, source: map<int, bytes>, arrived: set<Block>, block: Block)
    requires Source(c, source) && IsBlock(c, block) && block !in arrived
    ensures var p := AssembledPiece(c, source[block.piece], block.piece, arrived);
            && !p.received[block.b] && p.count < BlockCount(c, block.piece)
            && AssembledPiece(c, source[block.piece], block.piece, arrived + {block}) ==
               Piece(Overwrite(p.data, BlockStart(block.b), Cut(c, source, block)),
                     p.received[block.b := true], p.count + 1)
  {
    BlockFits(c, block);
    var i := block.piece;
    var p, q := AssembledPiece(c, source[i], i, arrived), AssembledPiece(c, source[i], i, arrived + {block});
    assert q.received == p.received[block.b := true];
    CountTrueSet(p.received, block.b);
    CountTrueAll(p.received);
    AssembledDataGrows(c, source, arrived, block);
  }

  lemma AssembledDataGrows(c: Config, source: map<int, bytes>, arrived: set<Block>, block: Block)
    requires Source(c, source) && IsBlock(c, block)
    ensures 0 <= BlockStart(block.b) && BlockStart(block.b) + |Cut(c, source, block)| <= c.pieceLength
    ensures AssembledPiece(c, source[block.piece], block.piece, arrived + {block}).data ==
            Overwrite(AssembledPiece(c, source[block.piece], block.piece, arrived).data,
                      BlockStart(block.b), Cut(c, source, block))
  {
    BlockFits(c, block);
  }

  lemma AssembledPieceElsewhere(c: Config, content: bytes, i: int, arrived: set<Block>, block: Block)
    requires Sized(c) && |content| == c.pieceLength && block.piece != i
    ensures AssembledPiece(c, content, i, arrived + {block}) == AssembledPiece(c, content, i, arrived)
    ensures Touched(i, arrived + {block}) <==> Touched(i, arrived)
  {
    var p, q := AssembledPiece(c, content, i, arrived), AssembledPiece(c, content, i, arrived + {block});
    assert p.data == q.data && p.received == q.received;
  }

  lemma AssembledGrows(c: Config, source: map<int, bytes>, arrived: set<Block>, block: Block)
    requires Source(c, source) && IsBlock(c, block)
    ensures var i := block.piece;
            var p := AssembledPiece(c, source[i], i, arrived + {block});
            var before, after := Assembled(c, source, arrived), Assembled(c, source, arrived + {block});
            && after.pieces == before.pieces[i := p]
            && after.completed - {i} == before.completed - {i}
            && (i in after.completed <==> p.count == BlockCount(c, i))
  {
    hide AssembledPiece;
    var i := block.piece;
    assert block in arrived + {block};
    assert Touched(i, arrived + {block});
    forall j | 0 <= j < c.numPieces && j != i
      ensures Touched(j, arrived + {block}) <==> Touched(j, arrived)
      ensures AssembledPiece(c, source[j], j, arrived + {block}) == AssembledPiece(c, source[j], j, arrived)
    {
      AssembledPieceElsewhere(c, source[j], j, arrived, block);
    }
  }

  /** A block already there is refused and changes nothing; any other is added. */
  lemma StoreIsUnion(c: Config, source: map<int, bytes>, arrived: set<Block>, block: Block)
    requires Source(c, source) && IsBlock(c, block)
    ensures StoreCut(Assembled(c, source, arrived), source, block) ==
            Stored(Assembled(c, source, arrived + {block}), block !in arrived)
  {
    hide AssembledPiece, Assembled;
    BlockFits(c, block);
    PieceAtAssembled(c, source, arrived, block.piece);
    if block in arrived {
      ArrivedIsReceived(c, source, arrived, block);
      assert arrived + {block} == arrived;
    } else {
      AssembledPieceGrows(c, source, arrived, block);
      AssembledGrows(c, source, arrived, block);
      CompletedIsFull(c, source, arrived, block.piece);
      SameSets(StoreCut(Assembled(c, source, arrived), source, block).store.completed,
               Assembled(c, source, arrived + {block}).completed, block.piece);
    }
  }

  lemma SameSets(a: set<int>, b: set<int>, i: int)
    requires a - {i} == b - {i} && (i in a <==> i in b)
    ensures a == b
  {
    forall j
      ensures j in a <==> j in b
    {
      assert j != i ==> (j in a <==> j in a - {i});
      assert j != i ==> (j in b <==> j in b - {i});
    }
  }

  lemma ArrivedIsReceived(c: Config, source: map<int, bytes>, arrived: set<Block>, block: Block)
    requires Source(c, source) && IsBlock(c, block)
    ensures AssembledPiece(c, source[block.piece], block.piece, arrived).received[block.b] <==> block in arrived
  {
  }

  lemma CompletedIsFull(c: Config, source: map<int, bytes>, arrived: set<Block>, i: int)
    requires Source(c, source) && 0 <= i < c.numPieces
    ensures var s := Assembled(c, source, arrived);
            && (i in s.pieces <==> Touched(i, arrived))
            && (i in s.pieces ==> s.pieces[i] == AssembledPiece(c, source[i], i, arrived))
            && (i in s.completed <==> Full(s, i))
  {
  }

  function Blocks(blocks: seq<Block>): set<Block> {
    set k | 0 <= k < |blocks| :: blocks[k]
  }

  /** However the blocks arrive, in any order and with repeats, the store is the one their set
      determines. */
  lemma {:induction false} RunIsAssembled(c: Config, source: map<int, bytes>, arrived: set<Block>, blocks: seq<Block>)
    requires Source(c, source) && AreBlocks(c, blocks)
    ensures StoreAll(Assembled(c, source, arrived), source, blocks) ==
            Assembled(c, source, arrived + Blocks(blocks))
    decreases |blocks|
  {
    hide Assembled, StoreCut;
    if |blocks| == 0 {
      assert arrived + Blocks(blocks) == arrived;
    } else {
      StoreIsUnion(c, source, arrived, blocks[0]);
      RunIsAssembled(c, source, arrived + {blocks[0]}, blocks[1..]);
      FirstBlock(blocks);
      assert arrived + {blocks[0]} + Blocks(blocks[1..]) == arrived + Blocks(blocks);
    }
  }

  lemma FirstBlock(blocks: seq<Block>)
    requires |blocks| > 0
    ensures Blocks(blocks) == {blocks[0]} + Blocks(blocks[1..])
  {
    assert forall k :: 0 <= k < |blocks| - 1 ==> blocks[1..][k] == blocks[k + 1];
    assert forall k :: 0 < k < |blocks| ==> blocks[k] == blocks[1..][k - 1];
  }

  /** Two runs over the same blocks end in the same store. */
  lemma OrderDoesNotMatter(c: Config, source: map<int, bytes>, one: seq<Block>, other: seq<Block>)
    requires Source(c, source) && AreBlocks(c, one) && AreBlocks(c, other)
    requires Blocks(one) == Blocks(other)
    ensures StoreAll(Empty(c), source, one) == StoreAll(Empty(c), source, other)
  {
    NothingAssembled(c, source);
    RunIsAssembled(c, source, {}, one);
    RunIsAssembled(c, source, {}, other);
  }

  /** A non-empty piece before the last is complete exactly when all its blocks have arrived, and then
      its bytes are the source's. */
  lemma CompleteIffAllArrived(c: Config, source: map<int, bytes>, blocks: seq<Block>, i: int)
    requires Source(c, source) && c.pieceLength > 0 && AreBlocks(c, blocks) && 0 <= i < c.numPieces - 1
    ensures var end := StoreAll(Empty(c), source, blocks);
            && Shaped(end)
            && (Full(end, i) <==> forall b :: 0 <= b < BlockCount(c, i) ==> Block(i, b) in blocks)
            && (i in end.completed <==> Full(end, i))
            && (Full(end, i) ==> end.pieces[i].data == source[i])
  {
    NothingAssembled(c, source);
    RunIsAssembled(c, source, {}, blocks);
    var arrived := {} + Blocks(blocks);
    CompletedIsFull(c, source, arrived, i);
    assert forall b :: Block(i, b) in arrived <==> Block(i, b) in blocks;
    FullPiece(c, source, arrived, i);
  }

  lemma FullPiece(c: Config, source: map<int, bytes>, arrived: set<Block>, i: int)
    requires Source(c, source) && c.pieceLength > 0 && 0 <= i < c.numPieces - 1
    ensures var s := Assembled(c, source, arrived);
            && (Full(s, i) <==> forall b :: 0 <= b < BlockCount(c, i) ==> Block(i, b) in arrived)
            && (Full(s, i) ==> s.pieces[i].data == source[i])
  {
    var s, p := Assembled(c, source, arrived), AssembledPiece(c, source[i], i, arrived);
    CompletedIsFull(c, source, arrived, i);
    CountTrueAll(p.received);
    if forall b :: 0 <= b < BlockCount(c, i) ==> Block(i, b) in arrived {
      assert Block(i, 0) in arrived && Block(i, 0).piece == i;
      assert forall b :: 0 <= b < |p.received| ==> p.received[b];
      assert p.data == source[i];
    }
    if Full(s, i) {
      forall b | 0 <= b < BlockCount(c, i)
        ensures Block(i, b) in arrived
      {
        assert p.received[b];
      }
    }
  }

  /** The first block of a piece, with zeros in the place of the rest. */
  function FirstBlockOnly(content: bytes): (r: bytes)
    ensures |r| == |content|
  {
    if |content| <= MAX_BLOCK_SIZE then content
    else content[..MAX_BLOCK_SIZE] + Zeros(|content| - MAX_BLOCK_SIZE)
  }

  /** The last piece has a bit for one block at most. It is complete exactly when that block has
      arrived, with nothing but zeros after it: it is the source's piece exactly when the source has
      zeros there too. */
  lemma LastPieceCompletesEarly(c: Config, source: map<int, bytes>, blocks: seq<Block>)
    requires Source(c, source) && c.numPieces > 0 && AreBlocks(c, blocks)
    ensures var end, last := StoreAll(Empty(c), source, blocks), c.numPieces - 1;
            && Shaped(end)
            && (Full(end, last) <==> c.pieceLength % MAX_BLOCK_SIZE != 0 && Block(last, 0) in blocks)
            && (Full(end, last) ==> end.pieces[last].data == FirstBlockOnly(source[last]))
            && (Full(end, last) ==>
                (end.pieces[last].data == source[last] <==>
                 forall k :: MAX_BLOCK_SIZE <= k < c.pieceLength ==> source[last][k] == 0))
  {
    hide Assembled, AssembledPiece, StoreAll;
    NothingAssembled(c, source);
    RunIsAssembled(c, source, {}, blocks);
    var arrived, last := {} + Blocks(blocks), c.numPieces - 1;
    assert forall block :: block in arrived ==> IsBlock(c, block);
    assert Block(last, 0) in arrived <==> Block(last, 0) in blocks;
    LastPiece(c, source, arrived);
    ZerosAfterFirstBlock(source[last]);
  }

  lemma ZerosAfterFirstBlock(content: bytes)
    ensures FirstBlockOnly(content) == content <==>
            forall k :: MAX_BLOCK_SIZE <= k < |content| ==> content[k] == 0
  {
    if FirstBlockOnly(content) == content {
      forall k | MAX_BLOCK_SIZE <= k < |content|
        ensures content[k] == 0
      {
        assert content[k] == FirstBlockOnly(content)[k];
      }
    }
  }

  /** A torrent of one piece, of one byte more than a block: its first block alone completes it, with
      the last byte lost. */
  lemma LastPieceCanBeWrong(c: Config, source: map<int, bytes>)
    requires c == Config(1, MAX_BLOCK_SIZE + 1) && source == map[0 := Zeros(MAX_BLOCK_SIZE) + [1]]
    ensures Source(c, source) && AreBlocks(c, [Block(0, 0)])
    ensures var end := StoreAll(Empty(c), source, [Block(0, 0)]);
            Shaped(end) && Full(end, 0) && 0 in end.pieces && end.pieces[0].data != source[0]
  {
    hide StoreAll;
    LastPieceCompletesEarly(c, source, [Block(0, 0)]);
    assert source[0][MAX_BLOCK_SIZE] == 1;
  }

  lemma LastPiece(c: Config, source: map<int, bytes>, arrived: set<Block>)
    requires Source(c, source) && c.numPieces > 0 && forall block :: block in arrived ==> IsBlock(c, block)
    ensures var s, last := Assembled(c, source, arrived), c.numPieces - 1;
            && (Full(s, last) <==> c.pieceLength % MAX_BLOCK_SIZE != 0 && Block(last, 0) in arrived)
            && (Full(s, last) ==> s.pieces[last].data == FirstBlockOnly(source[last]))
  {
    hide Assembled;
    var last := c.numPieces - 1;
    CompletedIsFull(c, source, arrived, last);
    if Block(last, 0) in arrived {
      assert Block(last, 0).piece == last;
      OneBlockPiece(c, source[last], last, arrived);
    } else if Touched(last, arrived) {
      var block :| block in arrived && block.piece == last;
      assert block == Block(last, 0);
    }
  }

  lemma OneBlockPiece(c: Config, content: bytes, i: int, arrived: set<Block>)
    requires Sized(c) && |content| == c.pieceLength && BlockCount(c, i) == 1
    requires Block(i, 0) in arrived && forall b :: b != 0 ==> Block(i, b) !in arrived
    ensures AssembledPiece(c, content, i, arrived) == Piece(FirstBlockOnly(content), [true], 1)
  {
    var p := AssembledPiece(c, content, i, arrived);
    assert p.received == [true];
    CountTrueAll(p.received);
    assert p.data == FirstBlockOnly(content);
  }

  /** Bytes that arrived stay as they are, whatever arrives later. */
  lemma ArrivedBytesStay(c: Config, source: map<int, bytes>, arrived: set<Block>, blocks: seq<Block>, i: int, k: int)
    requires Source(c, source) && AreBlocks(c, blocks)
    requires 0 <= i < c.numPieces && 0 <= k < c.pieceLength && Block(i, k / MAX_BLOCK_SIZE) in arrived
    ensures var end := StoreAll(Assembled(c, source, arrived), source, blocks);
            && i in end.pieces && |end.pieces[i].data| == c.pieceLength
            && end.pieces[i].data[k] == source[i][k]
  {
    RunIsAssembled(c, source, arrived, blocks);
    var all := arrived + Blocks(blocks);
    assert Block(i, k / MAX_BLOCK_SIZE) in all && Block(i, k / MAX_BLOCK_SIZE).piece == i;
    CompletedIsFull(c, source, all, i);
  }
}

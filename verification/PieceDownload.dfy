/** Whole downloads: which pieces are marked when the blocks that arrive are cut from known pieces. */
module PieceDownload {
  import opened Bytes
  import opened Hex
  import opened PieceStore
  import opened PieceAssembly
  import opened PieceVerification

  function ArrivalOf(c: Config, source: map<int, bytes>, block: Block): Arrival
    requires Source(c, source) && IsBlock(c, block)
  {
    Arrival(block.piece, BlockStart(block.b), Cut(c, source, block))
  }

  function Arrivals(c: Config, source: map<int, bytes>, blocks: seq<Block>): (r: seq<Arrival>)
    requires Source(c, source) && AreBlocks(c, blocks)
    ensures |r| == |blocks| && forall k :: 0 <= k < |r| ==> r[k] == ArrivalOf(c, source, blocks[k])
  {
    seq(|blocks|, k requires 0 <= k < |blocks| => ArrivalOf(c, source, blocks[k]))
  }

  lemma BlocksAreDefined(t: Torrent, source: map<int, bytes>, blocks: seq<Block>)
    requires Source(t.config, source) && AreBlocks(t.config, blocks)
    ensures AllDefined(t, Arrivals(t.config, source, blocks))
  {
    forall k | 0 <= k < |blocks|
      ensures var a := ArrivalOf(t.config, source, blocks[k]);
              Defined(t.config, a.piece, a.offset, |a.block|)
    {
      BlockFits(t.config, blocks[k]);
    }
  }

  /** The hash check leaves the store as storePieceBlock made it. */
  lemma HandleStores(t: Torrent, d: Download, source: map<int, bytes>, block: Block)
    requires Sound(t, d) && Source(t.config, source) && IsBlock(t.config, block)
    ensures var a := ArrivalOf(t.config, source, block);
            && Defined(t.config, a.piece, a.offset, |a.block|)
            && Handle(t, d, a).store == StoreCut(d.store, source, block).store
  {
    BlockFits(t.config, block);
    var a := ArrivalOf(t.config, source, block);
    HandleOnlyStores(t, d, a);
  }

  lemma {:induction false} RunStores(t: Torrent, d: Download, source: map<int, bytes>, blocks: seq<Block>)
    requires Sound(t, d) && Source(t.config, source) && AreBlocks(t.config, blocks)
    requires AllDefined(t, Arrivals(t.config, source, blocks))
    ensures HandleAll(t, d, Arrivals(t.config, source, blocks)).store == StoreAll(d.store, source, blocks)
    decreases |blocks|
  {
    hide Verified, Handle, StoreCut;
    if |blocks| > 0 {
      var arrivals := Arrivals(t.config, source, blocks);
      assert arrivals[1..] == Arrivals(t.config, source, blocks[1..]);
      HandleStores(t, d, source, blocks[0]);
      HandleKeepsSound(t, d, arrivals[0]);
      RunStores(t, Handle(t, d, arrivals[0]), source, blocks[1..]);
    }
  }

  /** The pieces marked after the blocks have arrived. */
  function Downloaded(t: Torrent, source: map<int, bytes>, blocks: seq<Block>): Download
    requires Source(t.config, source) && AreBlocks(t.config, blocks) && |t.digests| == t.config.numPieces
  {
    BlocksAreDefined(t, source, blocks);
    HandleAll(t, Download(Empty(t.config), {}), Arrivals(t.config, source, blocks))
  }

  lemma DownloadedIsSound(t: Torrent, source: map<int, bytes>, blocks: seq<Block>)
    requires Source(t.config, source) && AreBlocks(t.config, blocks) && |t.digests| == t.config.numPieces
    ensures Sound(t, Downloaded(t, source, blocks))
    ensures Downloaded(t, source, blocks).store == StoreAll(Empty(t.config), source, blocks)
  {
    var start := Download(Empty(t.config), {});
    StartSound(t);
    BlocksAreDefined(t, source, blocks);
    MarkedAreVerified(t, start, Arrivals(t.config, source, blocks));
    RunStores(t, start, source, blocks);
  }

  /** A piece before the last is marked exactly when all its blocks have arrived, in any order and
      with repeats, the source's piece has the torrent's digest, and that digest prints in full. Its
      bytes are then the source's. */
  lemma MarkedIffDownloaded(t: Torrent, source: map<int, bytes>, blocks: seq<Block>, i: int)
    requires Source(t.config, source) && AreBlocks(t.config, blocks) && |t.digests| == t.config.numPieces
    requires t.config.pieceLength > 0 && 0 <= i < t.config.numPieces - 1
    ensures var end := Downloaded(t, source, blocks);
            && (i in end.marked <==>
                && (forall b :: 0 <= b < BlockCount(t.config, i) ==> Block(i, b) in blocks)
                && t.sha1(source[i]) == t.digests[i] && KeepsZeros(t.digests[i]))
            && (i in end.marked ==> i in end.store.pieces && end.store.pieces[i].data == source[i])
  {
    hide Downloaded, StoreAll, KeepsZeros;
    DownloadedIsSound(t, source, blocks);
    CompleteIffAllArrived(t.config, source, blocks, i);
  }

  /** The last piece is marked exactly when it counts a block, its first block has arrived, and that
      block with zeros after it has the torrent's digest, which prints in full. */
  lemma LastMarkedIffFirstBlock(t: Torrent, source: map<int, bytes>, blocks: seq<Block>)
    requires Source(t.config, source) && AreBlocks(t.config, blocks) && |t.digests| == t.config.numPieces
    requires t.config.numPieces > 0
    ensures var last := t.config.numPieces - 1;
            last in Downloaded(t, source, blocks).marked <==>
            && t.config.pieceLength % MAX_BLOCK_SIZE != 0 && Block(last, 0) in blocks
            && t.sha1(FirstBlockOnly(source[last])) == t.digests[last] && KeepsZeros(t.digests[last])
  {
    hide Downloaded, StoreAll, KeepsZeros, FirstBlockOnly;
    DownloadedIsSound(t, source, blocks);
    LastPieceCompletesEarly(t.config, source, blocks);
  }
}

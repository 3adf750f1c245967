/** Blocks arriving from peers, and the check that marks a complete piece as downloaded. */
module PieceVerification {
  import opened Bytes
  import opened Hex
  import opened PieceStore

  datatype Arrival = Arrival(piece: int, offset: int, block: bytes)

  /** What the torrent says: the store's sizes, and one digest for each piece. */
  datatype Torrent = Torrent(config: Config, digests: seq<Digest>, sha1: bytes -> Digest)

  /** The store, and the pieces that have reached markPieceAsDownloaded. */
  datatype Download = Download(store: Store, marked: set<int>)

  predicate Matches(t: Torrent, s: Store) {
    Sized(t.config) && |t.digests| == t.config.numPieces && s.config == t.config
  }

  predicate Accepts(t: Torrent, i: int, data: bytes)
    requires 0 <= i < |t.digests|
  {
    |data| > 0 && PaddedHex(t.sha1(data)) == FirstPaddedHex(t.digests[i])
  }

  /** handlePiece. */
  function Handle(t: Torrent, d: Download, a: Arrival): (r: Download)
    requires Matches(t, d.store) && Shaped(d.store) && Defined(t.config, a.piece, a.offset, |a.block|)
    ensures Matches(t, r.store) && Shaped(r.store)
  {
    if a.piece < 0 || a.piece >= t.config.numPieces then d
    else
      var stored := StoreBlock(d.store, a.piece, a.offset, a.block);
      if !stored.ok then d
      else if Full(stored.store, a.piece) && Accepts(t, a.piece, stored.store.pieces[a.piece].data)
      then Download(Mark(stored.store, a.piece), d.marked + {a.piece})
      else d.(store := stored.store)
  }

  predicate AllDefined(t: Torrent, arrivals: seq<Arrival>)
    requires Sized(t.config)
  {
    forall k :: 0 <= k < |arrivals| ==>
      Defined(t.config, arrivals[k].piece, arrivals[k].offset, |arrivals[k].block|)
  }

  function HandleAll(t: Torrent, d: Download, arrivals: seq<Arrival>): Download
    requires Matches(t, d.store) && Shaped(d.store) && AllDefined(t, arrivals)
    decreases |arrivals|
  {
    if |arrivals| == 0 then d
    else
      assert AllDefined(t, arrivals[1..]);
      HandleAll(t, Handle(t, d, arrivals[0]), arrivals[1..])
  }

  // ----- Verified pieces -----

  /** The piece is complete, its bytes hash to the torrent's digest, and that digest prints in full. */
  predicate Verified(t: Torrent, s: Store, i: int)
    requires Matches(t, s) && Shaped(s)
  {
    && i in s.pieces && Full(s, i) && |s.pieces[i].data| > 0
    && t.sha1(s.pieces[i].data) == t.digests[i] && KeepsZeros(t.digests[i])
  }

  /** Counters count, and the marked pieces are exactly the verified ones. */
  predicate Sound(t: Torrent, d: Download) {
    && Matches(t, d.store) && Counted(d.store)
    && d.marked <= d.store.pieces.Keys
    && forall i :: i in d.store.pieces ==> (i in d.marked <==> Verified(t, d.store, i))
  }

  lemma HandleKeepsSound(t: Torrent, d: Download, a: Arrival)
    requires Sound(t, d) && Defined(t.config, a.piece, a.offset, |a.block|)
    ensures Sound(t, Handle(t, d, a))
  {
    var i := a.piece;
    if 0 <= i < t.config.numPieces {
      StoreKeepsCounted(d.store, i, a.offset, a.block);
      var stored := StoreBlock(d.store, i, a.offset, a.block);
      if stored.ok {
        if i in d.store.pieces && Full(d.store, i) { FullRefuses(d.store, i, a.offset, a.block); }
        var data := stored.store.pieces[i].data;
        HashCheckExact(t.sha1(data), t.digests[i]);
        if Full(stored.store, i) { MarkFull(stored.store, i); }
      }
    }
  }

  /** Whatever becomes of the check, the store is left as storePieceBlock made it, and at most the
      arrival's own piece is marked. */
  lemma HandleOnlyStores(t: Torrent, d: Download, a: Arrival)
    requires Sound(t, d) && Defined(t.config, a.piece, a.offset, |a.block|)
    ensures var r := Handle(t, d, a);
            && r.store == StoreBlock(d.store, a.piece, a.offset, a.block).store
            && d.marked <= r.marked <= d.marked + {a.piece}
  {
    StoreKeepsCounted(d.store, a.piece, a.offset, a.block);
    var stored := StoreBlock(d.store, a.piece, a.offset, a.block).store;
    if Full(stored, a.piece) { MarkFull(stored, a.piece); }
  }

  lemma HandleFreezesFull(t: Torrent, d: Download, a: Arrival, i: int)
    requires Sound(t, d) && Full(d.store, i) && Defined(t.config, a.piece, a.offset, |a.block|)
    ensures var r := Handle(t, d, a);
            && i in r.store.pieces && r.store.pieces[i] == d.store.pieces[i] && (i in r.marked <==> i in d.marked)
  {
    if a.piece == i { FullRefuses(d.store, i, a.offset, a.block); }
    var stored := StoreBlock(d.store, a.piece, a.offset, a.block);
    if stored.ok && 0 <= a.piece < t.config.numPieces && Full(stored.store, a.piece) {
      StoreKeepsCounted(d.store, a.piece, a.offset, a.block);
      MarkFull(stored.store, a.piece);
    }
  }

  /** In every run the marked pieces are exactly the complete ones whose bytes hash to their digest,
      the digest being one that prints in full. */
  lemma {:induction false} MarkedAreVerified(t: Torrent, d: Download, arrivals: seq<Arrival>)
    requires Sound(t, d) && AllDefined(t, arrivals)
    ensures Sound(t, HandleAll(t, d, arrivals))
    decreases |arrivals|
  {
    if |arrivals| > 0 {
      HandleKeepsSound(t, d, arrivals[0]);
      MarkedAreVerified(t, Handle(t, d, arrivals[0]), arrivals[1..]);
    }
  }

  lemma StartSound(t: Torrent)
    requires Sized(t.config) && |t.digests| == t.config.numPieces
    ensures Sound(t, Download(Empty(t.config), {}))
  {
  }

  /** Once complete, a piece keeps its bytes and its verdict for good: a verified piece stays
      verified, and one that failed the check is never marked. */
  lemma {:induction false} CompletePiecesAreFinal(t: Torrent, d: Download, arrivals: seq<Arrival>, i: int)
    requires Sound(t, d) && Full(d.store, i) && AllDefined(t, arrivals)
    ensures var end := HandleAll(t, d, arrivals);
            && i in end.store.pieces && end.store.pieces[i] == d.store.pieces[i]
            && (i in end.marked <==> i in d.marked)
            && (i in end.marked <==> Verified(t, d.store, i))
    decreases |arrivals|
  {
    if |arrivals| > 0 {
      HandleKeepsSound(t, d, arrivals[0]);
      HandleFreezesFull(t, d, arrivals[0], i);
      CompletePiecesAreFinal(t, Handle(t, d, arrivals[0]), arrivals[1..], i);
    }
  }

  // ----- The object -----

  class PeerWireProtocol {
    const torrent: Torrent
    const pieceStorage: PieceManager
    ghost var marked: set<int>

    constructor (torrent: Torrent, pieceStorage: PieceManager)
      ensures this.torrent == torrent && this.pieceStorage == pieceStorage && marked == {}
    {
      this.torrent, this.pieceStorage, this.marked := torrent, pieceStorage, {};
    }

    ghost function Now(): Download
      reads this, pieceStorage
    {
      Download(pieceStorage.Contents(), marked)
    }

    method HandlePiece(pieceIndex: int, blockOffset: int, blockData: bytes)
      requires Sound(torrent, Now()) && Defined(torrent.config, pieceIndex, blockOffset, |blockData|)
      modifies this, pieceStorage
      ensures Now() == Handle(torrent, old(Now()), Arrival(pieceIndex, blockOffset, blockData))
      ensures Sound(torrent, Now())
    {
      HandleKeepsSound(torrent, Now(), Arrival(pieceIndex, blockOffset, blockData));
      if pieceIndex < 0 || pieceIndex >= torrent.config.numPieces { return; }
      var success := pieceStorage.StorePieceBlock(pieceIndex, blockOffset, blockData);
      if !success { return; }
      var complete := pieceStorage.IsPieceComplete(pieceIndex);
      if complete {
        var retrieved, fullPiece := pieceStorage.GetFullPiece(pieceIndex);
        if !retrieved || |fullPiece| == 0 { return; }
        var computedHash := DigestToHex(torrent.sha1(fullPiece));
        var expectedHash := RawToHex(torrent.digests[pieceIndex]);
        if computedHash != expectedHash { return; }
        var done := pieceStorage.MarkPieceAsDownloaded(pieceIndex);
        marked := marked + {pieceIndex};
      }
    }
  }
}

/** The peer messages byte by byte: how each is laid out, and everything handling one changes. */
module WireMessages {
  import opened Bytes
  import opened Bitfield
  import opened Framing
  import opened PeerConnection

  // ----- Layouts -----

  /** Four bytes of length, most significant first, and then the message. */
  lemma FrameLayout(message: bytes)
    requires |message| < TWO_TO_THE_32
    ensures var s := Frame(message);
            |s| == 4 + |message| && BigEndian(s[..4]) == |message| && s[4..] == message
  {
    var s := Frame(message);
    assert s[..4] == Net32(|message|);
    LayoutsOf32(|message|, s[..4]);
  }

  /** Message type 6, then index, offset and length, most significant byte first. */
  lemma RequestLayout(r: Request)
    ensures var m := RequestMessage(r);
            && |m| == 13 && m[0] == 6 && BigEndian(m[1..5]) == r.index
            && BigEndian(m[5..9]) == r.offset && BigEndian(m[9..13]) == r.length
  {
    var m := RequestMessage(r);
    assert m[1..5] == Net32(r.index) && m[5..9] == Net32(r.offset) && m[9..13] == Net32(r.length);
    LayoutsOf32(r.index, m[1..5]);
    LayoutsOf32(r.offset, m[5..9]);
    LayoutsOf32(r.length, m[9..13]);
  }

  /** Message type 7, then index and offset, most significant byte first, and the data: what the
      receiver takes from the payload. */
  lemma PieceLayout(index: uint32, offset: uint32, data: bytes)
    ensures var m := PieceMessage(index, offset, data);
            && |m| == 9 + |data| && m[0] == 7
            && BigEndian(m[1..][..4]) == index && BigEndian(m[1..][4..8]) == offset && m[1..][8..] == data
  {
    var payload := PieceMessage(index, offset, data)[1..];
    assert payload[..4] == Net32(index) && payload[4..8] == Net32(offset) && payload[8..] == data;
    LayoutsOf32(index, payload[..4]);
    LayoutsOf32(offset, payload[4..8]);
  }

  // ----- What a message changes -----

  predicate HasType(message: bytes, id: nat) {
    |message| > 0 && message[0] == id
  }

  /** Types 0 and 1 set and clear the choke flag, 2 and 3 the interest, and nothing else does; our own
      flags are never changed. */
  lemma FlagsAfter(st: State, message: bytes)
    ensures var after := Handle(st, message);
            && (after.chokedByPeer <==> HasType(message, 0) || (st.chokedByPeer && !HasType(message, 1)))
            && (after.peerInterested <==> HasType(message, 2) || (st.peerInterested && !HasType(message, 3)))
            && after.chokedByUs == st.chokedByUs && after.interested == st.interested
  {
    hide ReadRequest, QueuedRequest, Unpack;
  }

  lemma RequestTaken(message: bytes)
    requires |message| == 13
    ensures var entry := QueuedRequest(ReadRequest(message[1..]));
            && |entry| == 12
            && LittleEndian(entry[..4]) == BigEndian(message[1..5])
            && LittleEndian(entry[4..8]) == BigEndian(message[5..9])
            && LittleEndian(entry[8..]) == BigEndian(message[9..13])
  {
    var payload := message[1..];
    assert payload[..4] == message[1..5] && payload[4..8] == message[5..9] && payload[8..] == message[9..13];
    hide BigEndian, LittleEndian, QueuedRequest, FromNet32;
    QueuedHoldsRequest(ReadRequest(payload));
    LayoutsOf32(0, payload[..4]);
    LayoutsOf32(0, payload[4..8]);
    LayoutsOf32(0, payload[8..]);
  }

  /** A request message of 13 bytes, and nothing else, adds an entry to the queue: the three integers
      at bytes 1, 5 and 9 of the message, in that order and in the host's byte order. */
  lemma QueueAfter(st: State, message: bytes)
    ensures var after := Handle(st, message);
            if HasType(message, 6) && |message| == 13 then
              && |after.queue| == |st.queue| + 1 && after.queue[..|st.queue|] == st.queue
              && var entry := after.queue[|st.queue|];
                 && |entry| == 12
                 && LittleEndian(entry[..4]) == BigEndian(message[1..5])
                 && LittleEndian(entry[4..8]) == BigEndian(message[5..9])
                 && LittleEndian(entry[8..]) == BigEndian(message[9..13])
            else after.queue == st.queue
  {
    hide QueuedRequest, ReadRequest, BigEndian, LittleEndian, Unpack;
    if HasType(message, 6) && |message| == 13 {
      RequestTaken(message);
      var entry := QueuedRequest(ReadRequest(message[1..]));
      assert Handle(st, message).queue == st.queue + [entry];
    }
  }

  /** A bitfield message leaves the binary digits of its payload; a have message of 5 bytes sets the
      bit of its index, if there is one; nothing else changes a bit. */
  lemma BitsAfter(st: State, message: bytes)
    ensures var after := Handle(st, message);
            if HasType(message, 5) then
              |after.bitfield| == 8 * (|message| - 1) && BinaryValue(after.bitfield) == BigEndian(message[1..])
            else
              && |after.bitfield| == |st.bitfield|
              && forall k :: 0 <= k < |st.bitfield| ==>
                   (after.bitfield[k] <==>
                    st.bitfield[k] || (HasType(message, 4) && |message| == 5 && k == BigEndian(message[1..5])))
  {
    hide ReadRequest, QueuedRequest, BinaryValue, BigEndian, Unpack, FromNet32;
    if HasType(message, 5) {
      UnpackIsBinary(message[1..]);
    } else if HasType(message, 4) && |message| == 5 {
      assert message[1..] == message[1..5];
      LayoutsOf32(0, message[1..]);
    }
  }
}

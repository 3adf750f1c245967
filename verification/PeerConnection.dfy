/** One connection to a peer: its flags, its buffers, and what each message does to it. */
module PeerConnection {
  import opened Bytes
  import opened Framing
  import opened Bitfield

  const CHOKE: byte := 0
  const UNCHOKE: byte := 1
  const INTERESTED: byte := 2
  const NOT_INTERESTED: byte := 3
  const HAVE: byte := 4
  const BITFIELD: byte := 5
  const REQUEST: byte := 6
  const PIECE: byte := 7

  datatype State = State(
    chokedByPeer: bool,
    chokedByUs: bool,
    interested: bool,
    peerInterested: bool,
    bitfield: seq<bool>,
    queue: seq<bytes>)

  const INITIAL := State(true, true, false, false, [], [])

  datatype Request = Request(index: uint32, offset: uint32, length: uint32)

  /** A request as message_queue keeps it: three integers in the host's byte order. */
  function QueuedRequest(r: Request): bytes {
    Host32(r.index) + Host32(r.offset) + Host32(r.length)
  }

  /** Three integers in the host's byte order: the index, the offset and the length asked for. */
  predicate HoldsRequest(entry: bytes, r: Request) {
    && |entry| == 12
    && LittleEndian(entry[..4]) == r.index
    && LittleEndian(entry[4..8]) == r.offset
    && LittleEndian(entry[8..]) == r.length
  }

  lemma QueuedHoldsRequest(r: Request)
    ensures HoldsRequest(QueuedRequest(r), r)
  {
    var entry := QueuedRequest(r);
    assert entry[..4] == Host32(r.index) && entry[4..8] == Host32(r.offset) && entry[8..] == Host32(r.length);
    LayoutsOf32(r.index, Net32(0));
    LayoutsOf32(r.offset, Net32(0));
    LayoutsOf32(r.length, Net32(0));
  }

  function RequestMessage(r: Request): bytes {
    [REQUEST] + Net32(r.index) + Net32(r.offset) + Net32(r.length)
  }

  function ReadRequest(payload: bytes): Request
    requires |payload| == 12
  {
    Request(FromNet32(payload[..4]), FromNet32(payload[4..8]), FromNet32(payload[8..]))
  }

  function PieceMessage(index: uint32, offset: uint32, data: bytes): bytes {
    [PIECE] + Net32(index) + Net32(offset) + data
  }

  /** handle_message. */
  function Handle(st: State, message: bytes): State {
    if |message| == 0 then st
    else
      var payload := message[1..];
      if message[0] == CHOKE then st.(chokedByPeer := true)
      else if message[0] == UNCHOKE then st.(chokedByPeer := false)
      else if message[0] == INTERESTED then st.(peerInterested := true)
      else if message[0] == NOT_INTERESTED then st.(peerInterested := false)
      else if message[0] == HAVE then
        if |payload| == 4 && FromNet32(payload) < |st.bitfield|
        then st.(bitfield := st.bitfield[FromNet32(payload) := true]) else st
      else if message[0] == BITFIELD then st.(bitfield := Unpack(payload))
      else if message[0] == REQUEST && |payload| == 12 then
        st.(queue := st.queue + [QueuedRequest(ReadRequest(payload))])
      else st
  }

  /** A have message sets its own bit, if there is one, and no other. */
  lemma HaveSetsOneBit(st: State, index: uint32)
    ensures var after := Handle(st, [HAVE] + Net32(index));
            && |after.bitfield| == |st.bitfield|
            && (forall k :: 0 <= k < |st.bitfield| ==> (after.bitfield[k] <==> k == index || st.bitfield[k]))
            && after == st.(bitfield := after.bitfield)
  {
    assert ([HAVE] + Net32(index))[1..] == Net32(index);
  }

  function HandleAll(st: State, messages: seq<bytes>): State
    decreases |messages|
  {
    if |messages| == 0 then st else HandleAll(Handle(st, messages[0]), messages[1..])
  }

  /** A connection after some bytes were read: its state, and the input not yet used. */
  datatype Receiver = Receiver(st: State, input: bytes)

  /** Append a read to the input buffer, then process the buffer. */
  function Receive(r: Receiver, chunk: bytes): Receiver {
    var frames := Deframe(r.input + chunk);
    Receiver(HandleAll(r.st, frames.messages), frames.rest)
  }

  function ReceiveAll(r: Receiver, chunks: seq<bytes>): Receiver
    decreases |chunks|
  {
    if |chunks| == 0 then r else ReceiveAll(Receive(r, chunks[0]), chunks[1..])
  }

  lemma {:induction false} HandleAllAppend(st: State, a: seq<bytes>, b: seq<bytes>)
    ensures HandleAll(st, a + b) == HandleAll(HandleAll(st, a), b)
    decreases |a|
  {
    if |a| == 0 {
      assert a + b == b;
    } else {
      HandleAllAppend(Handle(st, a[0]), a[1..], b);
      assert (a + b)[1..] == a[1..] + b;
    }
  }

  /** Two reads in a row are one read of both. */
  lemma ReceiveTwice(r: Receiver, a: bytes, b: bytes)
    ensures Receive(Receive(r, a), b) == Receive(r, a + b)
  {
    DeframeAppend(r.input + a, b);
    assert r.input + (a + b) == r.input + a + b;
    var first := Deframe(r.input + a);
    HandleAllAppend(r.st, first.messages, Deframe(first.rest + b).messages);
  }

  /** However a stream is cut into reads, the connection ends as if it had been read at once. */
  lemma {:induction false} ChunksDoNotMatter(r: Receiver, chunks: seq<bytes>)
    requires !HasFrame(r.input)
    ensures ReceiveAll(r, chunks) == Receive(r, Concat(chunks))
    decreases |chunks|
  {
    if |chunks| == 0 {
      assert r.input + [] == r.input;
    } else {
      DeframeLeavesNoFrame(r.input + chunks[0]);
      ChunksDoNotMatter(Receive(r, chunks[0]), chunks[1..]);
      ReceiveTwice(r, chunks[0], Concat(chunks[1..]));
    }
  }

  /** The messages cut off while a stream is read chunk by chunk, and the bytes left at the end. */
  function DeframeChunks(input: bytes, chunks: seq<bytes>): Frames
    decreases |chunks|
  {
    if |chunks| == 0 then Frames([], input)
    else
      var first := Deframe(input + chunks[0]);
      var more := DeframeChunks(first.rest, chunks[1..]);
      Frames(first.messages + more.messages, more.rest)
  }

  /** However a stream is cut into reads, the messages handled are those of the whole stream, in
      order. */
  lemma {:induction false} ChunksHoldTheSameMessages(r: Receiver, chunks: seq<bytes>)
    requires !HasFrame(r.input)
    ensures DeframeChunks(r.input, chunks) == Deframe(r.input + Concat(chunks))
    ensures ReceiveAll(r, chunks) ==
            Receiver(HandleAll(r.st, DeframeChunks(r.input, chunks).messages), DeframeChunks(r.input, chunks).rest)
    decreases |chunks|
  {
    if |chunks| == 0 {
      assert r.input + [] == r.input;
    } else {
      DeframeLeavesNoFrame(r.input + chunks[0]);
      ChunksHoldTheSameMessages(Receive(r, chunks[0]), chunks[1..]);
      Associative(r.input, chunks[0], Concat(chunks[1..]));
      DeframeAppend(r.input + chunks[0], Concat(chunks[1..]));
      ChunksDoNotMatter(r, chunks);
    }
  }

  lemma {:induction false} DeframeLeavesNoFrame(buffer: bytes)
    ensures !HasFrame(Deframe(buffer).rest)
    decreases |buffer|
  {
    if HasFrame(buffer) { DeframeLeavesNoFrame(buffer[4 + Prefix(buffer)..]); }
  }

  /** Every read of a stream with no wrapping length prefix meets the condition process_input_buffer
      needs: no buffer it is called on holds a wrapping prefix. */
  lemma {:induction false} EveryReadMeasured(r: Receiver, chunks: seq<bytes>, n: nat)
    requires n < |chunks| && Measured(r.input + Concat(chunks))
    ensures Measured(ReceiveAll(r, chunks[..n]).input + chunks[n])
    decreases n
  {
    var rest := Concat(chunks[1..]);
    assert r.input + Concat(chunks) == (r.input + chunks[0]) + rest;
    MeasuredAppend(r.input + chunks[0], rest);
    if n > 0 {
      assert chunks[..n][1..] == chunks[1..][..n - 1];
      EveryReadMeasured(Receive(r, chunks[0]), chunks[1..], n - 1);
    }
  }

  // ----- The object -----

  class Connection {
    var chokedByPeer: bool
    var chokedByUs: bool
    var interested: bool
    var peerInterested: bool
    var bitfield: seq<bool>
    var inputBuffer: bytes
    var outputBuffer: bytes
    var messageQueue: seq<bytes>

    function St(): State
      reads this
    {
      State(chokedByPeer, chokedByUs, interested, peerInterested, bitfield, messageQueue)
    }

    constructor ()
      ensures St() == INITIAL && inputBuffer == [] && outputBuffer == []
    {
      chokedByPeer, chokedByUs, interested, peerInterested := true, true, false, false;
      bitfield, inputBuffer, outputBuffer, messageQueue := [], [], [], [];
    }

    method SendChoke()
      modifies this
      ensures St() == old(St()).(chokedByUs := true) && inputBuffer == old(inputBuffer)
      ensures outputBuffer == old(outputBuffer) + Frame([CHOKE])
    {
      CreateMessageHeader(CHOKE, 0);
      chokedByUs := true;
    }

    method SendUnchoke()
      modifies this
      ensures St() == old(St()).(chokedByUs := false) && inputBuffer == old(inputBuffer)
      ensures outputBuffer == old(outputBuffer) + Frame([UNCHOKE])
    {
      CreateMessageHeader(UNCHOKE, 0);
      chokedByUs := false;
    }

    method SendInterested()
      modifies this
      ensures St() == old(St()).(interested := true) && inputBuffer == old(inputBuffer)
      ensures outputBuffer == old(outputBuffer) + Frame([INTERESTED])
    {
      CreateMessageHeader(INTERESTED, 0);
      interested := true;
    }

    method SendNotInterested()
      modifies this
      ensures St() == old(St()).(interested := false) && inputBuffer == old(inputBuffer)
      ensures outputBuffer == old(outputBuffer) + Frame([NOT_INTERESTED])
    {
      CreateMessageHeader(NOT_INTERESTED, 0);
      interested := false;
    }

    /** A message of the given type whose length payload bytes are zero. */
    method CreateMessageHeader(messageType: byte, length: uint32)
      requires 1 + length < TWO_TO_THE_32
      modifies this`outputBuffer
      ensures outputBuffer == old(outputBuffer) + Frame([messageType] + seq(length, _ => 0))
    {
      var message: bytes := seq(4 + 1 + length, _ => 0);
      var networkLength := Net32(1 + length);
      message := networkLength + message[4..];
      message := message[4 := messageType];
      assert message == Frame([messageType] + seq(length, _ => 0));
      AppendToOutput(message);
    }

    method CreateRequestMessage(r: Request)
      modifies this`outputBuffer
      ensures outputBuffer == old(outputBuffer) + Frame(RequestMessage(r))
    {
      var message: bytes := seq(17, _ => 0);
      message := Net32(13) + message[4..];
      message := message[4 := REQUEST];
      message := message[..5] + Net32(r.index) + message[9..];
      message := message[..9] + Net32(r.offset) + message[13..];
      message := message[..13] + Net32(r.length);
      assert message == Frame(RequestMessage(r));
      AppendToOutput(message);
    }

    /** PeerWireProtocol::sendRequest, whose ints are sent as the unsigned numbers they convert to. */
    method SendRequest(pieceIndex: int, blockOffset: int, blockSize: int)
      modifies this`outputBuffer
      ensures var r := Request(pieceIndex % TWO_TO_THE_32, blockOffset % TWO_TO_THE_32, blockSize % TWO_TO_THE_32);
              outputBuffer == old(outputBuffer) + Frame(RequestMessage(r))
    {
      CreateRequestMessage(
        Request(pieceIndex % TWO_TO_THE_32, blockOffset % TWO_TO_THE_32, blockSize % TWO_TO_THE_32));
    }

    /** PeerWireProtocol::sendPiece. */
    method SendPiece(index: uint32, offset: uint32, data: bytes)
      requires 9 + |data| < TWO_TO_THE_32
      modifies this`outputBuffer
      ensures outputBuffer == old(outputBuffer) + Frame(PieceMessage(index, offset, data))
    {
      var message: bytes := seq(4 + 1 + 4 + 4 + |data|, _ => 0);
      message := Net32(9 + |data|) + message[4..];
      message := message[4 := PIECE];
      message := message[..5] + Net32(index) + message[9..];
      message := message[..9] + Net32(offset) + message[13..];
      message := message[..13] + data;
      assert message == Frame(PieceMessage(index, offset, data));
      AppendToOutput(message);
    }

    method AppendToOutput(data: bytes)
      modifies this`outputBuffer
      ensures outputBuffer == old(outputBuffer) + data
    {
      outputBuffer := outputBuffer + data;
    }

    /** The locked part of handlePeerOutput: the whole buffer is taken at once. */
    method TakeOutput() returns (data: bytes)
      modifies this`outputBuffer
      ensures data == old(outputBuffer) && outputBuffer == []
    {
      data := [];
      if |outputBuffer| > 0 {
        data := outputBuffer;
        outputBuffer := [];
      }
    }

    /** The locked part of handlePeerInput. */
    method ReadChunk(chunk: bytes)
      requires Measured(inputBuffer + chunk)
      modifies this
      ensures Receiver(St(), inputBuffer) == Receive(Receiver(old(St()), old(inputBuffer)), chunk)
      ensures outputBuffer == old(outputBuffer)
    {
      inputBuffer := inputBuffer + chunk;
      ProcessInputBuffer();
    }

    method ProcessInputBuffer()
      requires Measured(inputBuffer)
      modifies this
      ensures St() == HandleAll(old(St()), Deframe(old(inputBuffer)).messages)
      ensures inputBuffer == Deframe(old(inputBuffer)).rest
      ensures outputBuffer == old(outputBuffer)
    {
      while true
        invariant Measured(inputBuffer)
        invariant HandleAll(St(), Deframe(inputBuffer).messages) ==
                  HandleAll(old(St()), Deframe(old(inputBuffer)).messages)
        invariant Deframe(inputBuffer).rest == Deframe(old(inputBuffer)).rest
        invariant outputBuffer == old(outputBuffer)
        decreases |inputBuffer|
      {
        if |inputBuffer| < 4 { return; }
        var messageLength := FromNet32(inputBuffer[..4]);
        SizeTestWraps(inputBuffer);
        if |inputBuffer| < (messageLength + 4) % TWO_TO_THE_32 { return; }
        ghost var frames := Deframe(inputBuffer);
        var message := inputBuffer[4..4 + messageLength];
        assert frames.messages[0] == message;
        assert frames.messages[1..] == Deframe(inputBuffer[4 + messageLength..]).messages;
        HandleMessage(message);
        inputBuffer := inputBuffer[4 + messageLength..];
      }
    }

    method HandleMessage(message: bytes)
      modifies this`chokedByPeer, this`peerInterested, this`bitfield, this`messageQueue
      ensures St() == Handle(old(St()), message)
    {
      if |message| == 0 { return; }
      var messageId := message[0];
      var payload := message[1..];
      if messageId == CHOKE {
        chokedByPeer := true;
      } else if messageId == UNCHOKE {
        chokedByPeer := false;
      } else if messageId == INTERESTED {
        peerInterested := true;
      } else if messageId == NOT_INTERESTED {
        peerInterested := false;
      } else if messageId == HAVE {
        if |payload| == 4 {
          var pieceIndex := FromNet32(payload);
          if pieceIndex < |bitfield| { bitfield := bitfield[pieceIndex := true]; }
        }
      } else if messageId == BITFIELD {
        var bits := UnpackOver(bitfield, payload);
        bitfield := bits;
      } else if messageId == REQUEST {
        if |payload| == 12 {
          messageQueue := messageQueue + [QueuedRequest(ReadRequest(payload))];
        }
      }
    }
  }

  /** PeerWireProtocol::sendBitfield: the bytes it hands to the socket. */
  method BitfieldMessage(bits: seq<bool>) returns (message: bytes)
    requires 1 + (|bits| + 7) / 8 < TWO_TO_THE_32
    ensures exists payload :: Packs(bits, payload) && message == Frame([BITFIELD] + payload)
  {
    message := Net32(1 + (|bits| + 7) / 8);
    message := message + [BITFIELD];
    var packed := Pack(bits);
    message := message + packed;
    assert message == Frame([BITFIELD] + packed);
  }
}

/** Length-prefixed frames in a byte stream: cutting frames off the front of a buffer. */
module Framing {
  import opened Bytes

  const MAX_FRAME := TWO_TO_THE_32 - 4

  datatype Frames = Frames(messages: seq<bytes>, rest: bytes)

  function Frame(message: bytes): bytes
    requires |message| < TWO_TO_THE_32
  {
    Net32(|message|) + message
  }

  predicate Framable(messages: seq<bytes>) {
    forall i :: 0 <= i < |messages| ==> |messages[i]| < MAX_FRAME
  }

  function FrameAll(messages: seq<bytes>): bytes
    requires Framable(messages)
  {
    if |messages| == 0 then [] else Frame(messages[0]) + FrameAll(messages[1..])
  }

  /** The value of the length prefix at the front of a buffer. */
  function Prefix(buffer: bytes): uint32
    requires |buffer| >= 4
  {
    FromNet32(buffer[..4])
  }

  predicate HasFrame(buffer: bytes) {
    |buffer| >= 4 && |buffer| >= Prefix(buffer) + 4
  }

  /** The source's test, where the sum is taken in 32 bits. */
  predicate PassesSizeTest(buffer: bytes) {
    |buffer| >= 4 && |buffer| >= (Prefix(buffer) + 4) % TWO_TO_THE_32
  }

  /** All complete frames at the front of a buffer, in order, and the bytes left. */
  function Deframe(buffer: bytes): Frames
    decreases |buffer|
  {
    if !HasFrame(buffer) then Frames([], buffer)
    else
      var end := 4 + Prefix(buffer);
      var more := Deframe(buffer[end..]);
      Frames([buffer[4..end]] + more.messages, more.rest)
  }

  /** Every length prefix met while cutting frames off stays below the size at which the source's
      32-bit sum wraps around. */
  predicate Measured(buffer: bytes)
    decreases |buffer|
  {
    |buffer| >= 4 ==>
      && Prefix(buffer) < MAX_FRAME
      && (HasFrame(buffer) ==> Measured(buffer[4 + Prefix(buffer)..]))
  }

  /** The size test lets an incomplete frame through exactly when the sum wraps. */
  lemma SizeTestWraps(buffer: bytes)
    requires |buffer| >= 4
    ensures PassesSizeTest(buffer) && !HasFrame(buffer) <==>
            Prefix(buffer) >= MAX_FRAME && |buffer| < Prefix(buffer) + 4
    ensures Measured(buffer) ==> (PassesSizeTest(buffer) <==> HasFrame(buffer))
  {
    if Prefix(buffer) >= MAX_FRAME {
      assert (Prefix(buffer) + 4) % TWO_TO_THE_32 == Prefix(buffer) + 4 - TWO_TO_THE_32;
    }
  }

  /** Four bytes of ones are taken for a frame of 2^32 - 1 bytes that is not there. */
  lemma SizeTestPassesOnNothing(buffer: bytes)
    requires buffer == [255, 255, 255, 255]
    ensures PassesSizeTest(buffer) && !HasFrame(buffer)
  {
    assert Prefix(buffer) == TWO_TO_THE_32 - 1;
    SizeTestWraps(buffer);
  }

  // ----- Frames come back out as they went in -----

  lemma DeframeStep(message: bytes, tail: bytes)
    requires |message| < MAX_FRAME
    ensures HasFrame(Frame(message) + tail) && Prefix(Frame(message) + tail) == |message|
    ensures Deframe(Frame(message) + tail) ==
            Frames([message] + Deframe(tail).messages, Deframe(tail).rest)
    ensures Measured(Frame(message) + tail) <==> Measured(tail)
  {
    var s := Frame(message) + tail;
    assert s[..4] == Net32(|message|);
    assert s[4..4 + |message|] == message && s[4 + |message|..] == tail;
  }

  /** A stream splits into frames and an incomplete tail in one way only. */
  lemma {:induction false} DeframeFrames(messages: seq<bytes>, tail: bytes)
    requires Framable(messages) && !HasFrame(tail)
    ensures Deframe(FrameAll(messages) + tail) == Frames(messages, tail)
    ensures Measured(tail) ==> Measured(FrameAll(messages) + tail)
  {
    var s := FrameAll(messages) + tail;
    if |messages| == 0 {
      assert s == tail;
    } else {
      var head, more := messages[0], messages[1..];
      assert messages == [head] + more;
      DeframeFrames(more, tail);
      DeframeStep(head, FrameAll(more) + tail);
      assert s == Frame(head) + (FrameAll(more) + tail) by {
        assert FrameAll(messages) == Frame(head) + FrameAll(more);
        Associative(Frame(head), FrameAll(more), tail);
      }
    }
  }

  lemma FrontIsFrame(buffer: bytes)
    requires HasFrame(buffer)
    ensures var end := 4 + Prefix(buffer);
            Frame(buffer[4..end]) + buffer[end..] == buffer
  {
    FromNet32Inverse(buffer[..4]);
  }

  /** Nothing is lost or made up, and what is left holds no complete frame. */
  lemma {:induction false} DeframeConserves(buffer: bytes)
    requires Measured(buffer)
    ensures Framable(Deframe(buffer).messages)
    ensures FrameAll(Deframe(buffer).messages) + Deframe(buffer).rest == buffer
    ensures !HasFrame(Deframe(buffer).rest)
    decreases |buffer|
  {
    if HasFrame(buffer) {
      var end := 4 + Prefix(buffer);
      var head, more := buffer[4..end], Deframe(buffer[end..]);
      DeframeConserves(buffer[end..]);
      FrontIsFrame(buffer);
      assert ([head] + more.messages)[1..] == more.messages;
      Associative(Frame(head), FrameAll(more.messages), more.rest);
    }
  }

  // ----- Cutting the stream into reads does not matter -----

  lemma FrontOfAppend(a: bytes, b: bytes)
    requires HasFrame(a)
    ensures HasFrame(a + b) && Prefix(a + b) == Prefix(a)
    ensures (a + b)[4..4 + Prefix(a)] == a[4..4 + Prefix(a)]
    ensures (a + b)[4 + Prefix(a)..] == a[4 + Prefix(a)..] + b
  {
    assert (a + b)[..4] == a[..4];
  }

  lemma {:induction false} DeframeAppend(a: bytes, b: bytes)
    ensures var first := Deframe(a);
            var second := Deframe(first.rest + b);
            Deframe(a + b) == Frames(first.messages + second.messages, second.rest)
    decreases |a|
  {
    if HasFrame(a) {
      var end := 4 + Prefix(a);
      FrontOfAppend(a, b);
      DeframeAppend(a[end..], b);
      var inner := Deframe(a[end..]);
      var second := Deframe(inner.rest + b);
      assert [a[4..end]] + (inner.messages + second.messages) == [a[4..end]] + inner.messages + second.messages;
    } else {
      var second := Deframe(a + b);
      assert [] + second.messages == second.messages;
    }
  }

  lemma {:induction false} MeasuredAppend(a: bytes, b: bytes)
    requires Measured(a + b)
    ensures Measured(a) && Measured(Deframe(a).rest + b)
    decreases |a|
  {
    if |a| >= 4 {
      assert (a + b)[..4] == a[..4];
      if HasFrame(a) {
        FrontOfAppend(a, b);
        MeasuredAppend(a[4 + Prefix(a)..], b);
      }
    }
  }
}

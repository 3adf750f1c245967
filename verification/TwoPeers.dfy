/** Two connections talking over a pair of FIFO byte streams that may be cut anywhere. */
module TwoPeers {
  import opened Bytes
  import opened Framing
  import opened Bitfield
  import opened PeerConnection

  const READ_SIZE := 4096

  /** One end: its connection, and what it has asked for and announced so far. */
  datatype Peer = Peer(st: State, input: bytes, output: bytes, asked: seq<Request>, announced: seq<bool>)

  /** Two ends, the bytes on their way from the first to the second, and those coming back. */
  datatype Link = Link(a: Peer, b: Peer, forth: bytes, back: bytes)

  datatype Action =
    | SendControl(id: byte)
    | AskFor(r: Request)
    | SendBlock(index: uint32, offset: uint32, data: bytes)
    | SendBits(bits: seq<bool>, payload: bytes)
    | Flush
    | Deliver(n: nat)

  const FRESH := Peer(INITIAL, [], [], [], [])
  const START := Link(FRESH, FRESH, [], [])

  function Swap(l: Link): Link {
    Link(l.b, l.a, l.back, l.forth)
  }

  /** What the first end may do: queue a message, write a bitfield straight to the socket, hand its
      output buffer to the socket, or have up to READ_SIZE of its bytes read by the other end. */
  ghost predicate Enabled(l: Link, act: Action) {
    match act
    case SendControl(id) => id <= NOT_INTERESTED
    case AskFor(_) => true
    case SendBlock(_, _, data) => 9 + |data| < MAX_FRAME
    case SendBits(bits, payload) => Packs(bits, payload) && 1 + |payload| < MAX_FRAME
    case Flush => true
    case Deliver(n) => 0 < n <= READ_SIZE && n <= |l.forth|
  }

  function Queue(p: Peer, message: bytes): Peer
    requires |message| < MAX_FRAME
  {
    p.(output := p.output + Frame(message))
  }

  /** send_choke, send_unchoke, send_interested and send_not_interested on the sender's own flags. */
  function SetOwnFlag(st: State, id: byte): State
    requires id <= NOT_INTERESTED
  {
    if id == CHOKE then st.(chokedByUs := true)
    else if id == UNCHOKE then st.(chokedByUs := false)
    else if id == INTERESTED then st.(interested := true)
    else st.(interested := false)
  }

  function Act(l: Link, act: Action): Link
    requires Enabled(l, act)
  {
    match act
    case SendControl(id) => l.(a := Queue(l.a, [id]).(st := SetOwnFlag(l.a.st, id)))
    case AskFor(r) => l.(a := Queue(l.a, RequestMessage(r)).(asked := l.a.asked + [r]))
    case SendBlock(index, offset, data) => l.(a := Queue(l.a, PieceMessage(index, offset, data)))
    case SendBits(bits, payload) =>
      l.(a := l.a.(announced := bits), forth := l.forth + Frame([BITFIELD] + payload))
    case Flush => l.(a := l.a.(output := []), forth := l.forth + l.a.output)
    case Deliver(n) =>
      var received := Receive(Receiver(l.b.st, l.b.input), l.forth[..n]);
      l.(b := l.b.(st := received.st, input := received.input), forth := l.forth[n..])
  }

  /** A step of either end. */
  datatype Step = Step(byFirst: bool, act: Action)

  /** The link as the first or the second end sees it. */
  function From(l: Link, byFirst: bool): Link {
    if byFirst then l else Swap(l)
  }

  ghost predicate StepEnabled(l: Link, step: Step) {
    Enabled(From(l, step.byFirst), step.act)
  }

  function TakeStep(l: Link, step: Step): Link
    requires StepEnabled(l, step)
  {
    From(Act(From(l, step.byFirst), step.act), step.byFirst)
  }

  ghost predicate IsRun(l: Link, steps: seq<Step>)
    decreases |steps|
  {
    |steps| == 0 || (StepEnabled(l, steps[0]) && IsRun(TakeStep(l, steps[0]), steps[1..]))
  }

  function Run(l: Link, steps: seq<Step>): Link
    requires IsRun(l, steps)
    decreases |steps|
  {
    if |steps| == 0 then l else Run(TakeStep(l, steps[0]), steps[1..])
  }

  // ----- The invariant, one direction at a time -----

  /** The queue holds what was asked for, in order. */
  predicate QueueHolds(queue: seq<bytes>, asked: seq<Request>) {
    |queue| == |asked| && forall i :: 0 <= i < |asked| ==> HoldsRequest(queue[i], asked[i])
  }

  /** A receiver that agrees with what the sender has done. */
  predicate UpToDate(st: State, sender: Peer) {
    && st.chokedByPeer == sender.st.chokedByUs
    && st.peerInterested == sender.st.interested
    && QueueHolds(st.queue, sender.asked)
    && st.bitfield == Padded(sender.announced)
  }

  /** Messages that leave the receiver's bitfield alone. */
  predicate KeepsBits(messages: seq<bytes>) {
    forall i :: 0 <= i < |messages| ==> |messages[i]| > 0 && messages[i][0] != HAVE && messages[i][0] != BITFIELD
  }

  /** The bytes on the way from sender to receiver are whole messages, and once they have all been
      handled the receiver is up to date. */
  predicate Pending(sender: Peer, wire: bytes, receiver: Peer) {
    var sent := Deframe(receiver.input + wire);
    var unsent := Deframe(sender.output);
    && !HasFrame(receiver.input)
    && Measured(receiver.input + wire) && sent.rest == []
    && Measured(sender.output) && unsent.rest == [] && KeepsBits(unsent.messages)
    && UpToDate(HandleAll(receiver.st, sent.messages + unsent.messages), sender)
  }

  predicate Consistent(l: Link) {
    Pending(l.a, l.forth, l.b) && Pending(l.b, l.back, l.a)
  }

  // ----- Every step keeps it -----

  /** A message appended to bytes that hold whole messages. */
  lemma DeframeSnoc(buffer: bytes, message: bytes)
    requires Measured(buffer) && Deframe(buffer).rest == [] && |message| < MAX_FRAME
    ensures Deframe(buffer + Frame(message)) == Frames(Deframe(buffer).messages + [message], [])
    ensures Measured(buffer + Frame(message))
  {
    DeframeStep(message, []);
    assert Frame(message) + [] == Frame(message) && [message] + [] == [message];
    DeframeConcat(buffer, Frame(message));
  }

  lemma {:induction false} MeasuredConcat(a: bytes, b: bytes)
    requires Measured(a) && Deframe(a).rest == [] && Measured(b)
    ensures Measured(a + b)
    decreases |a|
  {
    if HasFrame(a) {
      FrontOfAppend(a, b);
      MeasuredConcat(a[4 + Prefix(a)..], b);
    } else {
      assert a + b == b;
    }
  }

  lemma HandleSnoc(st: State, messages: seq<bytes>, message: bytes)
    ensures HandleAll(st, messages + [message]) == Handle(HandleAll(st, messages), message)
  {
    HandleAllAppend(st, messages, [message]);
    var now := HandleAll(st, messages);
    assert HandleAll(Handle(now, message), [message][1..]) == Handle(now, message);
  }

  /** Queueing a message that brings an up-to-date receiver up to date again. */
  lemma QueueKeepsPending(sender: Peer, wire: bytes, receiver: Peer, message: bytes, sender': Peer)
    requires Pending(sender, wire, receiver)
    requires 0 < |message| < MAX_FRAME && message[0] != HAVE && message[0] != BITFIELD
    requires sender'.output == sender.output + Frame(message)
    requires forall st: State :: UpToDate(st, sender) ==> UpToDate(Handle(st, message), sender')
    ensures Pending(sender', wire, receiver)
  {
    hide Handle, HandleAll, Deframe, Measured, HasFrame, UpToDate;
    var sent := Deframe(receiver.input + wire).messages;
    var unsent := Deframe(sender.output).messages;
    DeframeSnoc(sender.output, message);
    assert sent + (unsent + [message]) == (sent + unsent) + [message];
    HandleSnoc(receiver.st, sent + unsent, message);
  }

  lemma ControlUpdates(sender: Peer, id: byte, st: State)
    requires id <= NOT_INTERESTED && UpToDate(st, sender)
    ensures UpToDate(Handle(st, [id]), sender.(st := SetOwnFlag(sender.st, id)))
  {
  }

  lemma AskUpdates(sender: Peer, r: Request, st: State)
    requires UpToDate(st, sender)
    ensures UpToDate(Handle(st, RequestMessage(r)), sender.(asked := sender.asked + [r]))
  {
    var message := RequestMessage(r);
    var payload := message[1..];
    assert payload[..4] == Net32(r.index) && payload[4..8] == Net32(r.offset) && payload[8..] == Net32(r.length);
    QueuedHoldsRequest(r);
  }

  lemma NothingMore(messages: seq<bytes>)
    ensures messages + [] == messages
  {
  }

  lemma FlushKeepsPending(sender: Peer, wire: bytes, receiver: Peer)
    requires Pending(sender, wire, receiver)
    ensures Pending(sender.(output := []), wire + sender.output, receiver)
  {
    var front := receiver.input + wire;
    DeframeConcat(front, sender.output);
    Associative(receiver.input, wire, sender.output);
    NothingMore(Deframe(front).messages + Deframe(sender.output).messages);
  }

  /** Two buffers of whole messages, one after the other. */
  lemma DeframeConcat(a: bytes, b: bytes)
    requires Measured(a) && Deframe(a).rest == [] && Measured(b)
    ensures Measured(a + b) && Deframe(a + b) == Frames(Deframe(a).messages + Deframe(b).messages, Deframe(b).rest)
  {
    DeframeAppend(a, b);
    MeasuredConcat(a, b);
    assert [] + b == b;
  }

  /** Messages that leave the bitfield alone can be handled before or after it changes. */
  lemma {:induction false} BitsCommute(st: State, bits: seq<bool>, messages: seq<bytes>)
    requires KeepsBits(messages)
    ensures HandleAll(st.(bitfield := bits), messages) == HandleAll(st, messages).(bitfield := bits)
    decreases |messages|
  {
    if |messages| > 0 {
      BitsCommuteOnce(st, bits, messages[0]);
      hide Handle;
      BitsCommute(Handle(st, messages[0]), bits, messages[1..]);
    }
  }

  lemma BitsCommuteOnce(st: State, bits: seq<bool>, message: bytes)
    requires KeepsBits([message])
    ensures Handle(st.(bitfield := bits), message) == Handle(st, message).(bitfield := bits)
  {
    assert [message][0] == message;
    hide ReadRequest, QueuedRequest, Unpack;
  }

  /** Bits handled between what was sent before them and what was queued before them and sent after. */
  lemma BitsBetween(st: State, sent: seq<bytes>, bits: seq<bool>, payload: bytes, unsent: seq<bytes>)
    requires Packs(bits, payload) && KeepsBits(unsent)
    ensures HandleAll(st, (sent + [[BITFIELD] + payload]) + unsent) ==
            HandleAll(st, sent + unsent).(bitfield := Padded(bits))
  {
    var message := [BITFIELD] + payload;
    var now := HandleAll(st, sent);
    assert Handle(now, message) == now.(bitfield := Padded(bits)) by {
      assert message[1..] == payload;
      UnpackPacked(bits, payload);
    }
    hide Handle, HandleAll, Unpack;
    HandleSnoc(st, sent, message);
    HandleAllAppend(st, sent + [message], unsent);
    HandleAllAppend(st, sent, unsent);
    BitsCommute(now, Padded(bits), unsent);
  }

  /** A bitfield written straight to the socket overtakes the output buffer, harmlessly. */
  lemma BitsKeepPending(sender: Peer, wire: bytes, receiver: Peer, bits: seq<bool>, payload: bytes)
    requires Pending(sender, wire, receiver) && Packs(bits, payload) && 1 + |payload| < MAX_FRAME
    ensures Pending(sender.(announced := bits), wire + Frame([BITFIELD] + payload), receiver)
  {
    hide Handle, HandleAll, Deframe, Measured, HasFrame;
    var message := [BITFIELD] + payload;
    Associative(receiver.input, wire, Frame(message));
    DeframeSnoc(receiver.input + wire, message);
    BitsBetween(receiver.st, Deframe(receiver.input + wire).messages, bits, payload, Deframe(sender.output).messages);
  }

  lemma DeliverKeepsPending(sender: Peer, wire: bytes, receiver: Peer, n: nat)
    requires Pending(sender, wire, receiver) && n <= |wire|
    ensures var now := Receive(Receiver(receiver.st, receiver.input), wire[..n]);
            Pending(sender, wire[n..], receiver.(st := now.st, input := now.input))
  {
    var a, b := receiver.input + wire[..n], wire[n..];
    assert receiver.input + wire == a + b;
    DeframeAppend(a, b);
    DeframeLeavesNoFrame(a);
    MeasuredAppend(a, b);
    HandleInThree(receiver.st, Deframe(a).messages, Deframe(Deframe(a).rest + b).messages,
                  Deframe(sender.output).messages);
  }

  lemma HandleInThree(st: State, first: seq<bytes>, second: seq<bytes>, third: seq<bytes>)
    ensures HandleAll(HandleAll(st, first), second + third) == HandleAll(st, (first + second) + third)
  {
    assert (first + second) + third == first + (second + third);
    HandleAllAppend(st, first, second + third);
  }

  /** Only the sender's own flags, buffer and history matter to the other end. */
  lemma PendingDependsOn(s: Peer, s': Peer, wire: bytes, r: Peer)
    requires Pending(s, wire, r)
    requires s'.output == s.output && s'.asked == s.asked && s'.announced == s.announced
    requires s'.st.chokedByUs == s.st.chokedByUs && s'.st.interested == s.st.interested
    ensures Pending(s', wire, r)
  {
  }

  /** Sending does not touch what the sender itself has received. */
  lemma PendingIgnoresOwnFlags(s: Peer, wire: bytes, r: Peer, r': Peer)
    requires Pending(s, wire, r) && r'.input == r.input
    requires r'.st == r.st.(chokedByUs := r'.st.chokedByUs, interested := r'.st.interested)
    ensures Pending(s, wire, r')
  {
    OwnFlagsIrrelevant(r.st, r'.st.chokedByUs, r'.st.interested,
                       Deframe(r.input + wire).messages + Deframe(s.output).messages);
  }

  lemma {:induction false} OwnFlagsIrrelevant(st: State, choked: bool, interested: bool, messages: seq<bytes>)
    ensures HandleAll(st.(chokedByUs := choked, interested := interested), messages) ==
            HandleAll(st, messages).(chokedByUs := choked, interested := interested)
    decreases |messages|
  {
    if |messages| > 0 {
      OwnFlagsIrrelevant(Handle(st, messages[0]), choked, interested, messages[1..]);
      OwnFlagsIrrelevantOnce(st, choked, interested, messages[0]);
    }
  }

  lemma OwnFlagsIrrelevantOnce(st: State, choked: bool, interested: bool, message: bytes)
    ensures Handle(st.(chokedByUs := choked, interested := interested), message) ==
            Handle(st, message).(chokedByUs := choked, interested := interested)
  {
    hide ReadRequest, QueuedRequest, Unpack;
    var own := st.(chokedByUs := choked, interested := interested);
    if |message| == 0 || message[0] <= NOT_INTERESTED || message[0] > REQUEST {
    } else if message[0] == HAVE {
    } else if message[0] == BITFIELD {
      assert Handle(own, message) == own.(bitfield := Unpack(message[1..]));
    } else {
      assert Handle(own, message).queue == Handle(st, message).queue;
    }
  }

  lemma {:induction false} HandlingKeepsOwnFlags(st: State, messages: seq<bytes>)
    ensures HandleAll(st, messages).chokedByUs == st.chokedByUs
    ensures HandleAll(st, messages).interested == st.interested
    decreases |messages|
  {
    if |messages| > 0 { HandlingKeepsOwnFlags(Handle(st, messages[0]), messages[1..]); }
  }

  lemma ActKeepsForth(l: Link, act: Action)
    requires Pending(l.a, l.forth, l.b) && Enabled(l, act)
    ensures Pending(Act(l, act).a, Act(l, act).forth, Act(l, act).b)
  {
    match act
    case SendControl(id) =>
      forall st | UpToDate(st, l.a)
        ensures UpToDate(Handle(st, [id]), Act(l, act).a)
      {
        ControlUpdates(l.a, id, st);
      }
      QueueKeepsPending(l.a, l.forth, l.b, [id], Act(l, act).a);
    case AskFor(r) =>
      forall st | UpToDate(st, l.a)
        ensures UpToDate(Handle(st, RequestMessage(r)), Act(l, act).a)
      {
        AskUpdates(l.a, r, st);
      }
      QueueKeepsPending(l.a, l.forth, l.b, RequestMessage(r), Act(l, act).a);
    case SendBlock(index, offset, data) =>
      QueueKeepsPending(l.a, l.forth, l.b, PieceMessage(index, offset, data), Act(l, act).a);
    case SendBits(bits, payload) => BitsKeepPending(l.a, l.forth, l.b, bits, payload);
    case Flush => FlushKeepsPending(l.a, l.forth, l.b);
    case Deliver(n) => DeliverKeepsPending(l.a, l.forth, l.b, n);
  }

  lemma ActKeepsBack(l: Link, act: Action)
    requires Pending(l.b, l.back, l.a) && Enabled(l, act)
    ensures Pending(Act(l, act).b, l.back, Act(l, act).a)
  {
    match act
    case Deliver(n) =>
      HandlingKeepsOwnFlags(l.b.st, Deframe(l.b.input + l.forth[..n]).messages);
      PendingDependsOn(l.b, Act(l, act).b, l.back, l.a);
    case _ =>
      SendingKeepsReceived(l, act);
      PendingIgnoresOwnFlags(l.b, l.back, l.a, Act(l, act).a);
  }

  lemma SendingKeepsReceived(l: Link, act: Action)
    requires Enabled(l, act) && !act.Deliver?
    ensures var a := Act(l, act).a;
            && a.input == l.a.input
            && a.st == l.a.st.(chokedByUs := a.st.chokedByUs, interested := a.st.interested)
    ensures Act(l, act).b == l.b
  {
  }

  lemma StepKeepsConsistent(l: Link, step: Step)
    requires Consistent(l) && StepEnabled(l, step)
    ensures Consistent(TakeStep(l, step))
  {
    var m := From(l, step.byFirst);
    ActKeepsForth(m, step.act);
    ActKeepsBack(m, step.act);
  }

  /** In every reachable state, each end agrees with the other's flags, requests and bitfield once
      the bytes still on their way have been handled. */
  lemma {:induction false} EveryRunConsistent(l: Link, steps: seq<Step>)
    requires Consistent(l) && IsRun(l, steps)
    ensures Consistent(Run(l, steps))
    decreases |steps|
  {
    if |steps| > 0 {
      StepKeepsConsistent(l, steps[0]);
      EveryRunConsistent(TakeStep(l, steps[0]), steps[1..]);
    }
  }

  lemma StartConsistent()
    ensures Consistent(START)
  {
    var none: bytes, nothing: seq<bytes> := [], [];
    assert none + none == none && nothing + nothing == nothing;
  }

  /** With nothing on the way, the two ends agree outright: flags, all requests in the order they
      were made, and the last bitfield announced. */
  lemma QuietRunAgrees(steps: seq<Step>)
    requires IsRun(START, steps)
    requires var l := Run(START, steps);
             l.a.output == [] && l.forth == [] && l.b.output == [] && l.back == []
    ensures var l := Run(START, steps);
            && l.b.input == [] && UpToDate(l.b.st, l.a)
            && l.a.input == [] && UpToDate(l.a.st, l.b)
  {
    StartConsistent();
    EveryRunConsistent(START, steps);
    var l := Run(START, steps);
    QuietAgrees(l.a, l.b);
    QuietAgrees(l.b, l.a);
  }

  lemma QuietAgrees(sender: Peer, receiver: Peer)
    requires Pending(sender, [], receiver) && sender.output == []
    ensures receiver.input == [] && UpToDate(receiver.st, sender)
  {
    var nothing: seq<bytes> := [];
    assert receiver.input + [] == receiver.input && nothing + nothing == nothing;
  }

  /** A peer after reading: what it has sent, asked for and announced is as it was. */
  predicate HasOnlyRead(p: Peer, p': Peer) {
    && p' == p.(st := p'.st, input := p'.input)
    && p'.st.chokedByUs == p.st.chokedByUs && p'.st.interested == p.st.interested
  }

  /** From any consistent state, one end sending what it has queued and the other reading it all
      brings the other up to date, and changes nothing the other way. */
  lemma Settles(l: Link, byFirst: bool) returns (steps: seq<Step>)
    requires Consistent(l)
    ensures IsRun(l, steps) && Consistent(Run(l, steps))
    ensures var before, after := From(l, byFirst), From(Run(l, steps), byFirst);
            && after.a == before.a.(output := []) && after.forth == [] && after.back == before.back
            && HasOnlyRead(before.b, after.b) && after.b.input == []
            && UpToDate(after.b.st, before.a)
  {
    var first := Step(byFirst, Flush);
    var m := TakeStep(l, first);
    StepKeepsConsistent(l, first);
    var rest := ReadAll(m, byFirst);
    steps := [first] + rest;
    assert steps[1..] == rest;
    EveryRunConsistent(m, rest);
    QuietAgrees(From(Run(m, rest), byFirst).a, From(Run(m, rest), byFirst).b);
  }

  lemma {:induction false} ReadAll(l: Link, byFirst: bool) returns (steps: seq<Step>)
    ensures IsRun(l, steps)
    ensures var before, after := From(l, byFirst), From(Run(l, steps), byFirst);
            && after.a == before.a && after.forth == [] && after.back == before.back
            && HasOnlyRead(before.b, after.b)
    decreases |From(l, byFirst).forth|
  {
    var wire := From(l, byFirst).forth;
    if |wire| == 0 {
      steps := [];
    } else {
      var read := Step(byFirst, Deliver(if |wire| < READ_SIZE then |wire| else READ_SIZE));
      var peer := From(l, byFirst).b;
      HandlingKeepsOwnFlags(peer.st, Deframe(peer.input + wire[..read.act.n]).messages);
      var rest := ReadAll(TakeStep(l, read), byFirst);
      steps := [read] + rest;
      assert steps[1..] == rest;
    }
  }

  lemma {:induction false} RunAppend(l: Link, first: seq<Step>, second: seq<Step>)
    requires IsRun(l, first) && IsRun(Run(l, first), second)
    ensures IsRun(l, first + second) && Run(l, first + second) == Run(Run(l, first), second)
    decreases |first|
  {
    if |first| == 0 {
      assert first + second == second;
    } else {
      hide TakeStep, StepEnabled;
      assert (first + second)[1..] == first[1..] + second;
      RunAppend(TakeStep(l, first[0]), first[1..], second);
    }
  }

  /** Every run can be continued, without a further message, until nothing is on the way and both
      ends agree on everything done so far. */
  lemma EveryRunSettles(steps: seq<Step>) returns (more: seq<Step>)
    requires IsRun(START, steps)
    ensures IsRun(START, steps + more)
    ensures var before, after := Run(START, steps), Run(START, steps + more);
            && after.forth == [] && after.back == [] && after.a.input == [] && after.b.input == []
            && HasOnlyRead(before.a.(output := []), after.a)
            && HasOnlyRead(before.b.(output := []), after.b)
            && UpToDate(after.a.st, before.b) && UpToDate(after.b.st, before.a)
  {
    hide Run, IsRun, UpToDate, Pending;
    StartConsistent();
    EveryRunConsistent(START, steps);
    var l := Run(START, steps);
    var forth := Settles(l, true);
    var m := Run(l, forth);
    var back := Settles(m, false);
    RunAppend(l, forth, back);
    more := forth + back;
    RunAppend(START, steps, more);
    SettledTwice(l, m, Run(m, back));
  }

  /** Reading does not change the flags the reader has sent, so the first end stays agreed with. */
  lemma SettledTwice(l: Link, m: Link, n: Link)
    requires Consistent(n)
    requires m.a == l.a.(output := []) && m.forth == [] && m.back == l.back
    requires HasOnlyRead(l.b, m.b) && m.b.input == [] && UpToDate(m.b.st, l.a)
    requires n.b == m.b.(output := []) && n.back == [] && n.forth == m.forth
    requires HasOnlyRead(m.a, n.a) && n.a.input == [] && UpToDate(n.a.st, m.b)
    ensures HasOnlyRead(l.a.(output := []), n.a) && HasOnlyRead(l.b.(output := []), n.b)
    ensures UpToDate(n.a.st, l.b) && UpToDate(n.b.st, l.a)
  {
    QuietAgrees(n.a, n.b);
  }

  /** Every read in a run, by either end, meets the condition under which process_input_buffer is
      defined. */
  lemma ReadsAreDefined(steps: seq<Step>, n: nat)
    requires IsRun(START, steps)
    ensures var l := Run(START, steps);
            && (n <= |l.forth| ==> Measured(l.b.input + l.forth[..n]))
            && (n <= |l.back| ==> Measured(l.a.input + l.back[..n]))
  {
    hide Run, IsRun, Measured;
    StartConsistent();
    EveryRunConsistent(START, steps);
    var l := Run(START, steps);
    if n <= |l.forth| { ReadIsDefined(l.b.input, l.forth, n); }
    if n <= |l.back| { ReadIsDefined(l.a.input, l.back, n); }
  }

  lemma ReadIsDefined(input: bytes, wire: bytes, n: nat)
    requires Measured(input + wire) && n <= |wire|
    ensures Measured(input + wire[..n])
  {
    assert input + wire == (input + wire[..n]) + wire[n..];
    MeasuredAppend(input + wire[..n], wire[n..]);
  }

  // ----- An end that never hands over its output buffer -----

  predicate OnlyBits(messages: seq<bytes>) {
    forall i :: 0 <= i < |messages| ==> |messages[i]| > 0 && messages[i][0] == BITFIELD
  }

  /** An end to which nothing but bitfields is on the way, and nothing else has come. */
  predicate HearsOnlyBits(l: Link) {
    var coming := Deframe(l.a.input + l.back);
    && Measured(l.a.input + l.back) && coming.rest == [] && OnlyBits(coming.messages)
    && l.a.st.chokedByPeer && !l.a.st.peerInterested && l.a.st.queue == []
  }

  lemma {:induction false} OnlyBitsKeepTheRest(st: State, messages: seq<bytes>)
    requires OnlyBits(messages)
    ensures var after := HandleAll(st, messages);
            after == st.(bitfield := after.bitfield)
    decreases |messages|
  {
    if |messages| > 0 { OnlyBitsKeepTheRest(Handle(st, messages[0]), messages[1..]); }
  }

  lemma StepKeepsHearing(l: Link, step: Step)
    requires HearsOnlyBits(l) && StepEnabled(l, step) && step != Step(false, Flush)
    ensures HearsOnlyBits(TakeStep(l, step))
  {
    hide Deframe, Measured, HandleAll, OnlyBits;
    if !step.byFirst {
      if step.act.SendBits? {
        BitsKeepHearing(l, step.act.payload);
      } else if step.act.Deliver? {
        DeliverKeepsHearing(l, step.act.n);
      }
    }
  }

  lemma BitsKeepHearing(l: Link, payload: bytes)
    requires HearsOnlyBits(l) && 1 + |payload| < MAX_FRAME
    ensures HearsOnlyBits(l.(back := l.back + Frame([BITFIELD] + payload)))
  {
    hide Deframe, Measured;
    var message := [BITFIELD] + payload;
    Associative(l.a.input, l.back, Frame(message));
    DeframeSnoc(l.a.input + l.back, message);
  }

  lemma DeliverKeepsHearing(l: Link, n: nat)
    requires HearsOnlyBits(l) && n <= |l.back|
    ensures var received := Receive(Receiver(l.a.st, l.a.input), l.back[..n]);
            HearsOnlyBits(l.(a := l.a.(st := received.st, input := received.input), back := l.back[n..]))
  {
    hide Deframe, Measured, HandleAll, OnlyBits;
    var read, left := l.a.input + l.back[..n], l.back[n..];
    assert l.a.input + l.back == read + left;
    DeframeAppend(read, left);
    MeasuredAppend(read, left);
    PartsOnlyBits(Deframe(read).messages, Deframe(Deframe(read).rest + left).messages);
    OnlyBitsKeepTheRest(l.a.st, Deframe(read).messages);
  }

  lemma PartsOnlyBits(first: seq<bytes>, second: seq<bytes>)
    requires OnlyBits(first + second)
    ensures OnlyBits(first) && OnlyBits(second)
  {
    assert forall i :: 0 <= i < |first| ==> first[i] == (first + second)[i];
    assert forall i :: 0 <= i < |second| ==> second[i] == (first + second)[|first| + i];
  }

  lemma {:induction false} RunKeepsHearing(l: Link, steps: seq<Step>)
    requires HearsOnlyBits(l) && IsRun(l, steps) && Step(false, Flush) !in steps
    ensures HearsOnlyBits(Run(l, steps))
    decreases |steps|
  {
    if |steps| > 0 {
      StepKeepsHearing(l, steps[0]);
      RunKeepsHearing(TakeStep(l, steps[0]), steps[1..]);
    }
  }

  /** When the second end accepted the connection, no thread hands its output buffer to the socket:
      whatever it queues, the first end stays choked by it and never hears of its interest or of a
      request. With nothing coming to it, the first end is up to date exactly while the second chokes
      it, is not interested and has asked for nothing. */
  lemma AcceptedEndIsMute(steps: seq<Step>)
    requires IsRun(START, steps) && Step(false, Flush) !in steps
    ensures var l := Run(START, steps);
            && l.a.st.chokedByPeer && !l.a.st.peerInterested && l.a.st.queue == []
            && (UpToDate(l.a.st, l.b) <==> IsSilent(l.b) && l.a.st.bitfield == Padded(l.b.announced))
            && (l.back == [] ==> (UpToDate(l.a.st, l.b) <==> IsSilent(l.b)))
  {
    assert HearsOnlyBits(START) by {
      var none: bytes := [];
      assert none + none == none;
    }
    RunKeepsHearing(START, steps);
    StartConsistent();
    EveryRunConsistent(START, steps);
    var l := Run(START, steps);
    if l.back == [] { BitsHaveCome(l.b, l.a); }
  }

  /** An end that has queued nothing the other would have to know of. */
  predicate IsSilent(p: Peer) {
    p.st.chokedByUs && !p.st.interested && p.asked == []
  }

  /** With nothing on its way, the receiver has the last bitfield announced, whatever is still queued. */
  lemma BitsHaveCome(sender: Peer, receiver: Peer)
    requires Pending(sender, [], receiver)
    ensures receiver.st.bitfield == Padded(sender.announced)
  {
    hide Handle;
    var nothing: seq<bytes>, unsent := [], Deframe(sender.output).messages;
    assert receiver.input + [] == receiver.input && nothing + unsent == unsent;
    BitsCommute(receiver.st, receiver.st.bitfield, unsent);
  }

  /** An accepting end that unchokes the other, with nothing on its way: the other still believes it is
      choked. */
  lemma UnchokeIsNotHeard(steps: seq<Step>)
    requires steps == [Step(false, SendControl(UNCHOKE))]
    ensures IsRun(START, steps) && Step(false, Flush) !in steps
    ensures var l := Run(START, steps);
            l.back == [] && l.a.input == [] && !l.b.st.chokedByUs && l.a.st.chokedByPeer && !UpToDate(l.a.st, l.b)
  {
    var l := TakeStep(START, steps[0]);
    assert steps[1..] == [] && Run(l, []) == l;
  }
}

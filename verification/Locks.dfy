/** The mutexes around a connection's output buffer: which threads can ever finish. */
module Locks {
  /** peerMutex, and the buffer_mutex of each connection. */
  datatype Mutex = PeerMutex | BufferMutex(connection: nat)

  /** What a thread does next, as far as locks go. Access is any use of the state they guard. */
  datatype Op = Lock(m: Mutex) | Unlock(m: Mutex) | Access

  /** What each thread has yet to do, and who holds which mutex. */
  datatype System = System(rest: seq<seq<Op>>, owner: map<Mutex, nat>)

  /** A std::mutex that is held, by whomever, cannot be locked. */
  predicate CanStep(s: System, i: nat) {
    && i < |s.rest| && |s.rest[i]| > 0
    && match s.rest[i][0]
       case Lock(m) => m !in s.owner
       case Unlock(m) => m in s.owner && s.owner[m] == i
       case Access => true
  }

  function TakeStep(s: System, i: nat): (r: System)
    requires CanStep(s, i)
    ensures |r.rest| == |s.rest|
  {
    var rest := s.rest[i := s.rest[i][1..]];
    match s.rest[i][0]
    case Lock(m) => System(rest, s.owner[m := i])
    case Unlock(m) => System(rest, s.owner - {m})
    case Access => System(rest, s.owner)
  }

  predicate IsRun(s: System, steps: seq<nat>)
    decreases |steps|
  {
    |steps| == 0 || (CanStep(s, steps[0]) && IsRun(TakeStep(s, steps[0]), steps[1..]))
  }

  function Run(s: System, steps: seq<nat>): (r: System)
    requires IsRun(s, steps)
    ensures |r.rest| == |s.rest|
    decreases |steps|
  {
    if |steps| == 0 then s else Run(TakeStep(s, steps[0]), steps[1..])
  }

  // ----- What the threads do -----

  /** A lock_guard over a body. */
  function Guarded(m: Mutex, body: seq<Op>): seq<Op> {
    [Lock(m)] + body + [Unlock(m)]
  }

  function AppendToOutput(c: nat): seq<Op> {
    Guarded(BufferMutex(c), [Access])
  }

  /** send_choke, send_unchoke, send_interested and send_not_interested: the header is appended, and
      a flag set, under the mutex that append_to_output locks. */
  function SendControl(c: nat): seq<Op> {
    Guarded(BufferMutex(c), AppendToOutput(c) + [Access])
  }

  /** The end of a round of optimisticUnchoke that found a choked peer. */
  function OptimisticUnchoke(c: nat): seq<Op> {
    Guarded(PeerMutex, [Access] + SendControl(c))
  }

  /** sendRequest and sendPiece. */
  function QueueMessage(c: nat): seq<Op> {
    Guarded(PeerMutex, AppendToOutput(c))
  }

  /** The locked parts of handlePeerInput and handlePeerOutput, which do not lock buffer_mutex. */
  function Exchange(): seq<Op> {
    Guarded(PeerMutex, [Access])
  }

  // ----- Which threads can finish by themselves -----

  /** No mutex is locked while it is held, nor released while it is not. */
  predicate NeverRelocks(ops: seq<Op>, held: set<Mutex>) {
    |ops| == 0 ||
    match ops[0]
    case Lock(m) => m !in held && NeverRelocks(ops[1..], held + {m})
    case Unlock(m) => m in held && NeverRelocks(ops[1..], held - {m})
    case Access => NeverRelocks(ops[1..], held)
  }

  ghost predicate Finishes(s: System) {
    exists steps :: IsRun(s, steps) && forall i :: 0 <= i < |s.rest| ==> Run(s, steps).rest[i] == []
  }

  /** With nobody else about, a thread finishes exactly when it never locks what it holds. */
  lemma {:induction false} FinishesAloneIff(s: System)
    requires |s.rest| == 1 && forall m :: m in s.owner ==> s.owner[m] == 0
    ensures Finishes(s) <==> NeverRelocks(s.rest[0], s.owner.Keys)
    decreases |s.rest[0]|
  {
    if s.rest[0] == [] {
      assert IsRun(s, []) && Run(s, []) == s;
    } else if !CanStep(s, 0) {
      forall steps | IsRun(s, steps)
        ensures Run(s, steps).rest[0] != []
      {
      }
    } else {
      var next := TakeStep(s, 0);
      OwnersOfNext(s);
      FinishesAloneIff(next);
      FirstStepForced(s);
    }
  }

  lemma OwnersOfNext(s: System)
    requires |s.rest| == 1 && CanStep(s, 0) && forall m :: m in s.owner ==> s.owner[m] == 0
    ensures var next := TakeStep(s, 0);
            && (forall m :: m in next.owner ==> next.owner[m] == 0)
            && (NeverRelocks(s.rest[0], s.owner.Keys) <==> NeverRelocks(next.rest[0], next.owner.Keys))
  {
    match s.rest[0][0]
    case Lock(m) => assert s.owner[m := 0].Keys == s.owner.Keys + {m};
    case Unlock(m) => assert (s.owner - {m}).Keys == s.owner.Keys - {m};
    case Access =>
  }

  lemma FirstStepForced(s: System)
    requires |s.rest| == 1 && CanStep(s, 0)
    ensures Finishes(s) <==> Finishes(TakeStep(s, 0))
  {
    var next := TakeStep(s, 0);
    if Finishes(s) {
      var steps :| IsRun(s, steps) && forall i :: 0 <= i < |s.rest| ==> Run(s, steps).rest[i] == [];
      assert Run(s, steps).rest[0] == [];
      assert steps[0] == 0;
      assert Run(next, steps[1..]) == Run(s, steps);
    }
    if Finishes(next) {
      var steps :| IsRun(next, steps) && forall i :: 0 <= i < |next.rest| ==> Run(next, steps).rest[i] == [];
      assert ([0] + steps)[1..] == steps;
      assert IsRun(s, [0] + steps) && Run(s, [0] + steps) == Run(next, steps);
    }
  }

  /** Bytes can be read and taken, requests and pieces queued; the four control messages cannot, nor
      can a round of optimisticUnchoke end that sends one. */
  lemma ControlCannotFinish(c: nat)
    ensures Finishes(System([Exchange()], map[])) && Finishes(System([QueueMessage(c)], map[]))
    ensures !Finishes(System([SendControl(c)], map[])) && !Finishes(System([OptimisticUnchoke(c)], map[]))
  {
    var none: map<Mutex, nat> := map[];
    assert none.Keys == {};
    FinishesAloneIff(System([Exchange()], none));
    FinishesAloneIff(System([QueueMessage(c)], none));
    FinishesAloneIff(System([SendControl(c)], none));
    FinishesAloneIff(System([OptimisticUnchoke(c)], none));
    QueueingNeverRelocks(c);
    ControlRelocks(c, {}, []);
    var round := OptimisticUnchoke(c);
    assert round[0] == Lock(PeerMutex) && round[1..][0] == Access;
    assert round[1..][1..] == SendControl(c) + [Unlock(PeerMutex)];
    ControlRelocks(c, {PeerMutex}, [Unlock(PeerMutex)]);
    assert {} + {PeerMutex} == {PeerMutex};
    assert SendControl(c) + [] == SendControl(c);
  }

  lemma QueueingNeverRelocks(c: nat)
    ensures NeverRelocks(Exchange(), {}) && NeverRelocks(QueueMessage(c), {})
  {
    var buffer := BufferMutex(c);
    var last: seq<Op>, both := [Unlock(PeerMutex)], {PeerMutex, buffer};
    assert both - {buffer} == {PeerMutex} && {PeerMutex} + {buffer} == both;
    assert {} + {PeerMutex} == {PeerMutex} && {PeerMutex} - {PeerMutex} == {};
    assert last[1..] == [] && NeverRelocks(last, {PeerMutex});
    assert ([Access] + last)[1..] == last && NeverRelocks([Access] + last, {PeerMutex});
    assert Exchange() == [Lock(PeerMutex)] + ([Access] + last) && Exchange()[1..] == [Access] + last;
    var release := [Unlock(buffer)] + last;
    assert release[1..] == last && NeverRelocks(release, both);
    var access := [Access] + release;
    assert access[1..] == release && NeverRelocks(access, both);
    var append := [Lock(buffer)] + access;
    assert append[1..] == access && NeverRelocks(append, {PeerMutex});
    assert QueueMessage(c) == [Lock(PeerMutex)] + append && QueueMessage(c)[1..] == append;
  }

  lemma ControlRelocks(c: nat, held: set<Mutex>, more: seq<Op>)
    ensures !NeverRelocks(SendControl(c) + more, held)
  {
    var ops := SendControl(c) + more;
    assert ops[0] == Lock(BufferMutex(c)) && ops[1..][0] == Lock(BufferMutex(c));
  }

  // ----- Runs of all the threads -----

  /** The thread waits for a mutex that it holds itself. */
  predicate WaitsForItself(s: System, i: nat) {
    && i < |s.rest| && |s.rest[i]| > 0 && s.rest[i][0].Lock?
    && s.rest[i][0].m in s.owner && s.owner[s.rest[i][0].m] == i
  }

  /** Where a thread can be in sending a control message: it has not begun, or it waits for the
      mutex it has just locked. */
  predicate IsSending(s: System, i: nat, c: nat, more: seq<Op>) {
    && i < |s.rest|
    && (s.rest[i] == SendControl(c) + more ||
        (s.rest[i] == (SendControl(c) + more)[1..] && WaitsForItself(s, i)))
  }

  /** Whatever the other threads do, one that comes to send a control message appends nothing, sets
      no flag and never gets further than that. */
  lemma {:induction false} ControlIsNeverSent(s: System, steps: seq<nat>, i: nat, c: nat, more: seq<Op>)
    requires IsRun(s, steps) && IsSending(s, i, c, more)
    ensures IsSending(Run(s, steps), i, c, more)
    decreases |steps|
  {
    if |steps| > 0 {
      StepKeepsSending(s, steps[0], i, c, more);
      ControlIsNeverSent(TakeStep(s, steps[0]), steps[1..], i, c, more);
    }
  }

  lemma StepKeepsSending(s: System, k: nat, i: nat, c: nat, more: seq<Op>)
    requires CanStep(s, k) && IsSending(s, i, c, more)
    ensures IsSending(TakeStep(s, k), i, c, more)
  {
    var ops := SendControl(c) + more;
    assert ops[0] == Lock(BufferMutex(c)) && ops[1..][0] == Lock(BufferMutex(c));
  }

  /** Where a round of optimisticUnchoke can be once it has found a choked peer. */
  predicate InRound(s: System, i: nat, c: nat, more: seq<Op>) {
    var sending := SendControl(c) + ([Unlock(PeerMutex)] + more);
    && i < |s.rest| && PeerMutex in s.owner && s.owner[PeerMutex] == i
    && (s.rest[i] == [Access] + sending || IsSending(s, i, c, [Unlock(PeerMutex)] + more))
  }

  lemma RoundBegins(s: System, i: nat, c: nat, more: seq<Op>)
    requires i < |s.rest| && s.rest[i] == OptimisticUnchoke(c) + more && PeerMutex !in s.owner
    ensures CanStep(s, i) && InRound(TakeStep(s, i), i, c, more)
  {
    var ops := OptimisticUnchoke(c) + more;
    assert ops[0] == Lock(PeerMutex);
    assert ops[1..] == [Access] + (SendControl(c) + ([Unlock(PeerMutex)] + more));
  }

  /** From then on the round never ends and peerMutex is never free again: no message is queued, no
      input processed and no output taken on any connection. */
  lemma {:induction false} UnchokingStopsAll(s: System, steps: seq<nat>, i: nat, c: nat, more: seq<Op>)
    requires IsRun(s, steps) && InRound(s, i, c, more)
    ensures InRound(Run(s, steps), i, c, more)
    ensures forall j :: 0 <= j < |s.rest| && s.rest[j] != [] && s.rest[j][0] == Lock(PeerMutex) ==>
              Run(s, steps).rest[j] == s.rest[j]
    decreases |steps|
  {
    if |steps| > 0 {
      StepKeepsRound(s, steps[0], i, c, more);
      UnchokingStopsAll(TakeStep(s, steps[0]), steps[1..], i, c, more);
    }
  }

  lemma StepKeepsRound(s: System, k: nat, i: nat, c: nat, more: seq<Op>)
    requires CanStep(s, k) && InRound(s, i, c, more)
    ensures InRound(TakeStep(s, k), i, c, more)
  {
    var after := [Unlock(PeerMutex)] + more;
    var sending := SendControl(c) + after;
    assert ([Access] + sending)[1..] == sending;
    assert sending[0] == Lock(BufferMutex(c)) && sending[1..][0] == Lock(BufferMutex(c));
    if s.rest[i] != [Access] + sending { StepKeepsSending(s, k, i, c, after); }
  }
}

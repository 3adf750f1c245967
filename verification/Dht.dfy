/** A DHT node answering queries, and what whole exchanges and whole runs of queries give. */
module Dht {
  import opened Bytes
  import opened Bencode
  import opened Dictionaries
  import opened RoutingTable
  import opened Closest
  import opened Compact
  import opened DhtMessages
  import opened Bits

  type PeerStore = map<bytes, seq<Peer>>

  /** The NodeID copied from the front of a string, whose characters a zero follows. */
  function FrontId(s: bytes): (id: NodeId)
    requires |s| >= NODE_ID_SIZE - 1
    ensures forall i :: 0 <= i < 20 ==> id[i] == if i < |s| then s[i] else 0
  {
    (s + [0])[..NODE_ID_SIZE]
  }

  // ----- Replies -----

  /** A datagram that parses to a response to the transaction, sent by the node with the given id. */
  predicate RespondsAs(data: bytes, t: bytes, my: NodeId) {
    && ParseValue(data).Ok? && ParseValue(data).used == |data|
    && var v := ParseValue(data).value;
       && StringAt(v, Text("t")) == Some(t) && StringAt(v, Text("y")) == Some(Text("r"))
       && At(v, Text("r")).Some? && StringAt(At(v, Text("r")).value, Text("id")) == Some(my)
  }

  lemma ReplyResponds(t: bytes, my: NodeId, body: seq<Entry>)
    requires |t| <= INT64_MAX && DistinctKeys(body) && ValidEntries(body)
    requires StringAt(Dict(FromEntries(body)), KEY_ID) == Some(my)
    ensures RespondsAs(Encode(Reply(t, body)), t, my)
  {
    BuiltReply(t, body);
    EncodedParses(Reply(t, body));
  }

  // ----- find_node -----

  /** Copying the target does not read past the zero that follows the string received. */
  predicate FindNodeDefined(request: Value) {
    StringAt(request, KEY_T).Some? && ArgumentAt(request, KEY_TARGET).Some? ==>
      |ArgumentAt(request, KEY_TARGET).value| >= NODE_ID_SIZE - 1
  }

  /** A reply handle_find_node may send; None when it sends nothing. */
  ghost predicate AnswersFindNode(my: NodeId, table: Table, request: Value, reply: Option<bytes>)
    requires FindNodeDefined(request)
  {
    match (StringAt(request, KEY_T), ArgumentAt(request, KEY_TARGET))
    case (Some(t), Some(target)) =>
      exists closest :: IsClosest(table, FrontId(target), K, closest)
                     && reply == Some(Encode(Reply(t, NodesBody(my, closest))))
    case _ => reply == None
  }

  /** find_node is answered exactly when the transaction and the target are strings. */
  lemma FindNodeAnsweredIff(my: NodeId, table: Table, request: Value, reply: Option<bytes>)
    requires FindNodeDefined(request) && AnswersFindNode(my, table, request, reply)
    ensures reply.Some? <==> StringAt(request, Text("t")).Some? && ArgumentAt(request, Text("target")).Some?
  {
  }

  lemma ClosestFew(table: Table, target: NodeId, closest: seq<Node>)
    requires IsClosest(table, target, K, closest)
    ensures |closest| <= K && |EncodeNodes(closest)| <= INT64_MAX
  {
    ClosestAreClosest(table, target, K, closest);
  }

  /** Whatever its transaction id and its table, a find_node query with both its fields is answered,
      and the requester decodes from the reply the K nodes closest to the target, in order. */
  lemma FindNodeAnswered(my: NodeId, table: Table, request: Value, t: bytes, target: bytes, reply: Option<bytes>)
    requires StringAt(request, KEY_T) == Some(t) && ArgumentAt(request, KEY_TARGET) == Some(target)
    requires FindNodeDefined(request) && |t| <= INT64_MAX
    requires AnswersFindNode(my, table, request, reply)
    ensures reply.Some? && RespondsAs(reply.value, t, my)
    ensures IsClosest(table, FrontId(target), K, DecodeFindNodeReply(reply.value))
  {
    var closest :| IsClosest(table, FrontId(target), K, closest)
                && reply == Some(Encode(Reply(t, NodesBody(my, closest))));
    ClosestFew(table, FrontId(target), closest);
    FindNodeReplyDecodes(t, my, closest);
    NodesReplyDecodes(t, my, closest);
  }

  /** A whole exchange: whatever the responder's table and the target, the request fits the
      responder's buffer and is taken for a find_node query whose target is there to be copied, every
      reply it may send has at most 266 bytes, so it fits the requester's buffer, and the requester
      decodes from it the responder's K closest nodes, in order. */
  lemma FindNodeExchange(requester: NodeId, responder: NodeId, table: Table, target: NodeId)
    ensures var datagram := Encode(FindNodeRequest(requester, target));
            && |datagram| <= BUFFER_SIZE
            && ParseValue(datagram) == Ok(FindNodeRequest(requester, target), |datagram|)
            && IsFindNode(FindNodeRequest(requester, target))
    ensures FindNodeDefined(FindNodeRequest(requester, target))
    ensures forall reply :: AnswersFindNode(responder, table, FindNodeRequest(requester, target), reply) ==>
              && reply.Some? && |reply.value| <= 266 && RespondsAs(reply.value, TRANSACTION, responder)
              && IsClosest(table, target, K, DecodeFindNodeReply(reply.value))
  {
    var request := FindNodeRequest(requester, target);
    FindNodeRequestParses(requester, target);
    FindNodeRequestSize(requester, target);
    assert FrontId(target) == target;
    hide FindNodeRequest, IsClosest, DecodeFindNodeReply, RespondsAs;
    forall reply | AnswersFindNode(responder, table, request, reply)
      ensures reply.Some? && |reply.value| <= 266 && RespondsAs(reply.value, TRANSACTION, responder)
      ensures IsClosest(table, target, K, DecodeFindNodeReply(reply.value))
    {
      FindNodeAnswered(responder, table, request, TRANSACTION, target, reply);
      var closest :| IsClosest(table, target, K, closest)
                  && reply == Some(Encode(Reply(TRANSACTION, NodesBody(responder, closest))));
      ClosestFew(table, target, closest);
      FindNodeReplySize(responder, closest);
    }
  }

  // ----- announce_peer and get_peers -----

  function PeersOf(store: PeerStore, hash: bytes): seq<Peer> {
    if hash in store then store[hash] else []
  }

  /** The peer store after an announce_peer query, whatever becomes of the reply. */
  function Announce(store: PeerStore, request: Value, from: Peer): PeerStore {
    match ArgumentAt(request, KEY_INFO_HASH)
    case None => store
    case Some(hash) => store[hash := PeersOf(store, hash) + [from]]
  }

  /** The reply to announce_peer: an info hash of another length than 20 is stored but not answered. */
  function AnnounceReply(my: NodeId, request: Value): Option<bytes> {
    match (ArgumentAt(request, KEY_INFO_HASH), StringAt(request, KEY_T))
    case (Some(hash), Some(t)) =>
      if |hash| == NODE_ID_SIZE then Some(Encode(Reply(t, [Entry(KEY_ID, Str(my))]))) else None
    case _ => None
  }

  /** announce_peer is answered exactly when the transaction and the hash are strings and the hash has
      20 bytes, and the answer names the transaction and the node itself. */
  lemma AnnounceAnswered(my: NodeId, request: Value)
    ensures AnnounceReply(my, request).Some? <==>
            && StringAt(request, Text("t")).Some? && ArgumentAt(request, Text("info_hash")).Some?
            && |ArgumentAt(request, Text("info_hash")).value| == 20
    ensures AnnounceReply(my, request).Some? && |StringAt(request, Text("t")).value| <= INT64_MAX ==>
              RespondsAs(AnnounceReply(my, request).value, StringAt(request, Text("t")).value, my)
  {
    var t, body := StringAt(request, Text("t")), [Entry(KEY_ID, Str(my))];
    if AnnounceReply(my, request).Some? && |t.value| <= INT64_MAX {
      assert |KEY_ID| == 2;
      BuiltDict(body);
      assert body[0].key == KEY_ID;
      ReplyResponds(t.value, my, body);
    }
  }

  predicate GetPeersDefined(store: PeerStore, request: Value) {
    StringAt(request, KEY_T).Some? && ArgumentAt(request, KEY_INFO_HASH).Some? ==>
      ArgumentAt(request, KEY_INFO_HASH).value in store ||
      |ArgumentAt(request, KEY_INFO_HASH).value| >= NODE_ID_SIZE - 1
  }

  /** A reply handle_get_peers may send. */
  ghost predicate AnswersGetPeers(my: NodeId, table: Table, store: PeerStore, request: Value, reply: Option<bytes>)
    requires GetPeersDefined(store, request)
  {
    match (StringAt(request, KEY_T), ArgumentAt(request, KEY_INFO_HASH))
    case (Some(t), Some(hash)) =>
      if hash in store then reply == Some(Encode(Reply(t, PeersBody(my, store[hash]))))
      else exists closest :: IsClosest(table, FrontId(hash), K, closest)
                          && reply == Some(Encode(Reply(t, NodesBody(my, closest))))
    case _ => reply == None
  }

  /** get_peers is answered exactly when the transaction and the hash are strings. */
  lemma GetPeersAnsweredIff(my: NodeId, table: Table, store: PeerStore, request: Value, reply: Option<bytes>)
    requires GetPeersDefined(store, request) && AnswersGetPeers(my, table, store, request, reply)
    ensures reply.Some? <==> StringAt(request, Text("t")).Some? && ArgumentAt(request, Text("info_hash")).Some?
  {
  }

  /** A query handled by the node: an announcement with its sender's address, or a get_peers. */
  datatype Event = Announced(request: Value, from: Peer) | Asked(request: Value)

  function StoreAfter(events: seq<Event>): PeerStore {
    if |events| == 0 then map[]
    else
      var before := StoreAfter(events[..|events| - 1]);
      match events[|events| - 1]
      case Announced(request, from) => Announce(before, request, from)
      case Asked(_) => before
  }

  predicate Names(event: Event, hash: bytes) {
    event.Announced? && ArgumentAt(event.request, KEY_INFO_HASH) == Some(hash)
  }

  /** The senders of the announcements that named a hash, in order and with repeats. */
  function Announcers(events: seq<Event>, hash: bytes): seq<Peer> {
    if |events| == 0 then []
    else
      var before := Announcers(events[..|events| - 1], hash);
      var last := events[|events| - 1];
      if Names(last, hash) then before + [last.from] else before
  }

  /** The store holds, for each hash, exactly the announcers so far, and no entry for a hash that
      was never announced. */
  lemma {:induction false} StoreIsHistory(events: seq<Event>, hash: bytes)
    ensures PeersOf(StoreAfter(events), hash) == Announcers(events, hash)
    ensures hash in StoreAfter(events) <==> exists k :: 0 <= k < |events| && Names(events[k], hash)
    decreases |events|
  {
    if |events| > 0 {
      var init, last := events[..|events| - 1], events[|events| - 1];
      StoreIsHistory(init, hash);
      assert (exists k :: 0 <= k < |events| && Names(events[k], hash)) <==>
             (exists k :: 0 <= k < |init| && Names(init[k], hash)) || Names(last, hash) by {
        assert forall k :: 0 <= k < |init| ==> init[k] == events[k];
        if Names(last, hash) { assert Names(events[|events| - 1], hash); }
      }
    }
  }

  /** After any run of queries, the answer to get_peers carries values exactly when an earlier
      announcement named the hash, and they decode to the announcers in order; otherwise the nodes
      decode to the K closest. */
  lemma GetPeersTellsHistory(my: NodeId, table: Table, events: seq<Event>, request: Value, t: bytes, hash: bytes,
                             reply: Option<bytes>)
    requires StringAt(request, KEY_T) == Some(t) && ArgumentAt(request, KEY_INFO_HASH) == Some(hash)
    requires |t| <= INT64_MAX && PEER_SIZE * |Announcers(events, hash)| <= INT64_MAX
    requires GetPeersDefined(StoreAfter(events), request)
    requires AnswersGetPeers(my, table, StoreAfter(events), request, reply)
    ensures reply.Some? && RespondsAs(reply.value, t, my)
    ensures var r := At(ParseValue(reply.value).value, KEY_R);
            && r.Some?
            && (StringAt(r.value, KEY_VALUES).Some? <==> exists k :: 0 <= k < |events| && Names(events[k], hash))
            && (StringAt(r.value, KEY_VALUES).Some? ==>
                  DecodePeers(StringAt(r.value, KEY_VALUES).value) == Announcers(events, hash))
            && (StringAt(r.value, KEY_VALUES).None? ==>
                  && |hash| >= NODE_ID_SIZE - 1 && StringAt(r.value, KEY_NODES).Some?
                  && IsClosest(table, FrontId(hash), K, DecodeNodes(StringAt(r.value, KEY_NODES).value)))
  {
    StoreIsHistory(events, hash);
    var store := StoreAfter(events);
    if hash in store {
      PeersReplyDecodes(t, my, store[hash]);
    } else {
      var closest :| IsClosest(table, FrontId(hash), K, closest)
                  && reply == Some(Encode(Reply(t, NodesBody(my, closest))));
      ClosestFew(table, FrontId(hash), closest);
      NodesReplyDecodes(t, my, closest);
    }
  }

  lemma PeersReplyDecodes(t: bytes, my: NodeId, peers: seq<Peer>)
    requires |t| <= INT64_MAX && PEER_SIZE * |peers| <= INT64_MAX
    ensures var data := Encode(Reply(t, PeersBody(my, peers)));
            var body := Dict(FromEntries(PeersBody(my, peers)));
            && ParseValue(data) == Ok(Reply(t, PeersBody(my, peers)), |data|)
            && At(Reply(t, PeersBody(my, peers)), KEY_R) == Some(body)
            && StringAt(body, KEY_VALUES) == Some(EncodePeers(peers))
            && DecodePeers(EncodePeers(peers)) == peers
            && RespondsAs(data, t, my)
  {
    assert |KEY_ID| != |KEY_VALUES|;
    BuiltPair(KEY_ID, my, KEY_VALUES, EncodePeers(peers));
    BuiltReply(t, PeersBody(my, peers));
    EncodedParses(Reply(t, PeersBody(my, peers)));
    ReplyResponds(t, my, PeersBody(my, peers));
    PeersRoundTrip(peers);
  }

  lemma NodesReplyDecodes(t: bytes, my: NodeId, nodes: seq<Node>)
    requires |t| <= INT64_MAX && |EncodeNodes(nodes)| <= INT64_MAX
    ensures var data := Encode(Reply(t, NodesBody(my, nodes)));
            var body := Dict(FromEntries(NodesBody(my, nodes)));
            && ParseValue(data) == Ok(Reply(t, NodesBody(my, nodes)), |data|)
            && At(Reply(t, NodesBody(my, nodes)), KEY_R) == Some(body)
            && StringAt(body, KEY_VALUES) == None
            && StringAt(body, KEY_NODES) == Some(EncodeNodes(nodes))
            && DecodeNodes(EncodeNodes(nodes)) == nodes
            && RespondsAs(data, t, my)
  {
    assert |KEY_ID| != |KEY_NODES| && |KEY_ID| != |KEY_VALUES| && |KEY_NODES| != |KEY_VALUES|;
    BuiltPair(KEY_ID, my, KEY_NODES, EncodeNodes(nodes));
    BuiltReply(t, NodesBody(my, nodes));
    EncodedParses(Reply(t, NodesBody(my, nodes)));
    ReplyResponds(t, my, NodesBody(my, nodes));
    NodesRoundTrip(nodes, []);
    assert EncodeNodes(nodes) + [] == EncodeNodes(nodes);
  }

  // ----- The object -----

  class DHTBootstrap {
    const myNodeId: NodeId
    var routingTable: Table
    var peerStore: PeerStore

    constructor (myNodeId: NodeId)
      ensures this.myNodeId == myNodeId && routingTable == [[]] && peerStore == map[]
      ensures Placed(myNodeId, routingTable)
    {
      this.myNodeId := myNodeId;
      routingTable, peerStore := [[]], map[];
    }

    /** alive is what a ping of the bucket's front node would answer. */
    method AddToRoutingTable(node: Node, alive: bool)
      requires ScanDefined(Distance(myNodeId, node.id), |routingTable|)
      modifies this`routingTable
      ensures routingTable == Add(myNodeId, old(routingTable), node, alive)
      ensures old(Placed(myNodeId, routingTable)) ==> Placed(myNodeId, routingTable)
    {
      hide PlacedAt, FirstClear, Scan;
      ScanSelects(Distance(myNodeId, node.id), |routingTable|, 0);
      if Placed(myNodeId, routingTable) { AddKeepsPlaced(myNodeId, routingTable, node, alive); }
      ghost var before := routingTable;
      var distance := Distance(myNodeId, node.id);
      var bucketIndex := 0;
      while bucketIndex < |routingTable| && Bit(distance[bucketIndex / 8], bucketIndex % 8)
        invariant bucketIndex <= |routingTable| && bucketIndex <= ID_BITS
        invariant bucketIndex < |routingTable| ==> bucketIndex < ID_BITS
        invariant FirstClear(distance, 0) >= bucketIndex
        invariant LeadingBits(distance, bucketIndex)
      {
        bucketIndex := bucketIndex + 1;
      }
      assert bucketIndex < |before| ==> !BitOn(distance, bucketIndex);
      assert bucketIndex == BucketIndex(distance, |before|);
      if bucketIndex >= |routingTable| { routingTable := routingTable + [[]]; }
      var bucket := routingTable[bucketIndex];
      ghost var selected := bucket;
      if node in bucket {
        var it := IndexOf(bucket, node);
        bucket := bucket[..it] + bucket[it + 1..] + [node];
      } else if |bucket| < K {
        bucket := bucket + [node];
      } else if alive {
        bucket := bucket[1..] + [bucket[0]];
      } else {
        bucket := bucket[0 := node];
        assert bucket == [node] + selected[1..];
      }
      assert bucket == Update(selected, node, alive);
      routingTable := routingTable[bucketIndex := bucket];
    }

    method HandleFindNode(request: Value) returns (reply: Option<bytes>)
      requires FindNodeDefined(request)
      ensures AnswersFindNode(myNodeId, routingTable, request, reply)
    {
      var t := StringAt(request, KEY_T);
      if t.None? { return None; }
      var target := ArgumentAt(request, KEY_TARGET);
      if target.None? { return None; }
      var closest := FindClosestNodes(routingTable, FrontId(target.value), K);
      var encoded := EncodeNodesLoop(closest);
      reply := Some(Encode(Reply(t.value, [Entry(KEY_ID, Str(myNodeId)), Entry(KEY_NODES, Str(encoded))])));
    }

    method HandleGetPeers(request: Value) returns (reply: Option<bytes>)
      requires GetPeersDefined(peerStore, request)
      ensures AnswersGetPeers(myNodeId, routingTable, peerStore, request, reply)
    {
      var t := StringAt(request, KEY_T);
      if t.None? { return None; }
      var hash := ArgumentAt(request, KEY_INFO_HASH);
      if hash.None? { return None; }
      if hash.value in peerStore {
        var encoded := EncodePeersLoop(peerStore[hash.value]);
        reply := Some(Encode(Reply(t.value, [Entry(KEY_ID, Str(myNodeId)), Entry(KEY_VALUES, Str(encoded))])));
      } else {
        var closest := FindClosestNodes(routingTable, FrontId(hash.value), K);
        var encoded := EncodeNodesLoop(closest);
        reply := Some(Encode(Reply(t.value, [Entry(KEY_ID, Str(myNodeId)), Entry(KEY_NODES, Str(encoded))])));
      }
    }

    method HandleAnnouncePeer(request: Value, from: Peer) returns (reply: Option<bytes>)
      modifies this`peerStore
      ensures peerStore == Announce(old(peerStore), request, from)
      ensures reply == AnnounceReply(myNodeId, request)
    {
      var hash := ArgumentAt(request, KEY_INFO_HASH);
      if hash.None? { return None; }
      peerStore := peerStore[hash.value := PeersOf(peerStore, hash.value) + [from]];
      if |hash.value| != NODE_ID_SIZE { return None; }
      var t := StringAt(request, KEY_T);
      if t.None? { return None; }
      reply := Some(Encode(Reply(t.value, [Entry(KEY_ID, Str(myNodeId))])));
    }
  }
}

/** Compact contact encodings: 26 bytes a node, 6 bytes a peer. */
module Compact {
  import opened Bytes
  import opened RoutingTable

  const NODE_SIZE := 26
  const PEER_SIZE := 6

  datatype Peer = Peer(ip: Ip, port: uint16)

  function EncodeNode(n: Node): (r: bytes)
    ensures |r| == NODE_SIZE
  {
    n.id + n.ip + Net16(n.port)
  }

  function DecodeNode(s: bytes): Node
    requires |s| == NODE_SIZE
  {
    Node(s[..20], s[20..24], FromNet16(s[24..]))
  }

  function EncodeNodes(nodes: seq<Node>): (r: bytes)
    ensures |r| == NODE_SIZE * |nodes|
  {
    if |nodes| == 0 then [] else EncodeNode(nodes[0]) + EncodeNodes(nodes[1..])
  }

  function DecodeNodes(s: bytes): seq<Node> {
    if |s| < NODE_SIZE then [] else [DecodeNode(s[..NODE_SIZE])] + DecodeNodes(s[NODE_SIZE..])
  }

  function EncodePeer(p: Peer): (r: bytes)
    ensures |r| == PEER_SIZE
  {
    p.ip + Net16(p.port)
  }

  function DecodePeer(s: bytes): Peer
    requires |s| == PEER_SIZE
  {
    Peer(s[..4], FromNet16(s[4..]))
  }

  function EncodePeers(peers: seq<Peer>): (r: bytes)
    ensures |r| == PEER_SIZE * |peers|
  {
    if |peers| == 0 then [] else EncodePeer(peers[0]) + EncodePeers(peers[1..])
  }

  function PeersIn(s: bytes): seq<Peer> {
    if |s| < PEER_SIZE then [] else [DecodePeer(s[..PEER_SIZE])] + PeersIn(s[PEER_SIZE..])
  }

  /** parseTrackerPeers on a string: nothing unless it holds whole entries only. */
  function DecodePeers(s: bytes): seq<Peer> {
    if |s| % PEER_SIZE != 0 then [] else PeersIn(s)
  }

  // ----- Layouts -----

  /** Node k stands at byte 26 * k: 20 bytes of id, 4 of address, and the port, most significant byte
      first. */
  lemma {:induction false} NodeLayout(nodes: seq<Node>, k: nat)
    requires k < |nodes|
    ensures var s := EncodeNodes(nodes);
            && |s| == 26 * |nodes| && s[26 * k..26 * k + 20] == nodes[k].id
            && s[26 * k + 20..26 * k + 24] == nodes[k].ip && BigEndian(s[26 * k + 24..26 * k + 26]) == nodes[k].port
    decreases |nodes|
  {
    var s, first, rest := EncodeNodes(nodes), EncodeNode(nodes[0]), EncodeNodes(nodes[1..]);
    assert s == first + rest;
    if k == 0 {
      FirstNode(nodes[0], rest);
    } else {
      hide EncodeNode, EncodeNodes, BigEndian;
      NodeLayout(nodes[1..], k - 1);
      Shifted(first, rest, 26 * (k - 1), 26 * (k - 1) + 20);
      Shifted(first, rest, 26 * (k - 1) + 20, 26 * (k - 1) + 24);
      Shifted(first, rest, 26 * (k - 1) + 24, 26 * (k - 1) + 26);
    }
  }

  lemma FirstNode(n: Node, rest: bytes)
    ensures var s := EncodeNode(n) + rest;
            s[..20] == n.id && s[20..24] == n.ip && BigEndian(s[24..26]) == n.port
  {
    var s := EncodeNode(n) + rest;
    assert s[..20] == n.id && s[20..24] == n.ip && s[24..26] == Net16(n.port);
    LayoutsOf16(n.port, s[24..26]);
  }

  lemma Shifted(first: bytes, rest: bytes, from: nat, to: nat)
    requires from <= to <= |rest|
    ensures (first + rest)[|first| + from..|first| + to] == rest[from..to]
  {
  }

  /** Peer k stands at byte 6 * k: 4 bytes of address, and the port, most significant byte first. */
  lemma {:induction false} PeerLayout(peers: seq<Peer>, k: nat)
    requires k < |peers|
    ensures var s := EncodePeers(peers);
            && |s| == 6 * |peers| && s[6 * k..6 * k + 4] == peers[k].ip
            && BigEndian(s[6 * k + 4..6 * k + 6]) == peers[k].port
    decreases |peers|
  {
    var s, first, rest := EncodePeers(peers), EncodePeer(peers[0]), EncodePeers(peers[1..]);
    assert s == first + rest;
    if k == 0 {
      assert s[..4] == peers[0].ip && s[4..6] == Net16(peers[0].port);
      LayoutsOf16(peers[0].port, s[4..6]);
    } else {
      PeerLayout(peers[1..], k - 1);
      Shifted(first, rest, 6 * (k - 1), 6 * (k - 1) + 4);
      Shifted(first, rest, 6 * (k - 1) + 4, 6 * (k - 1) + 6);
    }
  }

  // ----- Both directions -----

  lemma NodeRoundTrip(n: Node, s: bytes)
    ensures DecodeNode(EncodeNode(n)) == n
    ensures |s| == NODE_SIZE ==> EncodeNode(DecodeNode(s)) == s
  {
    var r := EncodeNode(n);
    assert r[..20] == n.id && r[20..24] == n.ip && r[24..] == Net16(n.port);
    if |s| == NODE_SIZE {
      FromNet16Inverse(s[24..]);
      assert s == s[..20] + s[20..24] + s[24..];
    }
  }

  lemma {:induction false} NodesRoundTrip(nodes: seq<Node>, tail: bytes)
    requires |tail| < NODE_SIZE
    ensures DecodeNodes(EncodeNodes(nodes) + tail) == nodes
    decreases |nodes|
  {
    var s := EncodeNodes(nodes) + tail;
    if |nodes| > 0 {
      NodeRoundTrip(nodes[0], []);
      NodesRoundTrip(nodes[1..], tail);
      assert s[..NODE_SIZE] == EncodeNode(nodes[0]);
      assert s[NODE_SIZE..] == EncodeNodes(nodes[1..]) + tail;
      assert nodes == [nodes[0]] + nodes[1..];
    }
  }

  /** Decoding drops an incomplete last entry and nothing else. */
  lemma {:induction false} NodesDecoded(s: bytes)
    ensures |DecodeNodes(s)| == |s| / NODE_SIZE
    ensures EncodeNodes(DecodeNodes(s)) == s[..|s| / NODE_SIZE * NODE_SIZE]
    decreases |s|
  {
    hide EncodeNode, DecodeNode;
    if |s| >= NODE_SIZE {
      var rest := s[NODE_SIZE..];
      NodesDecoded(rest);
      NodeRoundTrip(DecodeNode(s[..NODE_SIZE]), s[..NODE_SIZE]);
      assert |rest| / NODE_SIZE == |s| / NODE_SIZE - 1;
      assert DecodeNodes(s)[1..] == DecodeNodes(rest);
      assert s[..|s| / NODE_SIZE * NODE_SIZE] == s[..NODE_SIZE] + rest[..|rest| / NODE_SIZE * NODE_SIZE];
    }
  }

  lemma PeerRoundTrip(p: Peer)
    ensures DecodePeer(EncodePeer(p)) == p
  {
    var r := EncodePeer(p);
    assert r[..4] == p.ip && r[4..] == Net16(p.port);
  }

  lemma {:induction false} PeersRoundTrip(peers: seq<Peer>)
    ensures DecodePeers(EncodePeers(peers)) == peers
    decreases |peers|
  {
    var s := EncodePeers(peers);
    if |peers| > 0 {
      PeerRoundTrip(peers[0]);
      PeersRoundTrip(peers[1..]);
      assert s[..PEER_SIZE] == EncodePeer(peers[0]) && s[PEER_SIZE..] == EncodePeers(peers[1..]);
      assert peers == [peers[0]] + peers[1..];
    }
  }

  /** A string of whole entries is decoded entry by entry, and any other gives no peers. */
  lemma PeersDecoded(s: bytes)
    ensures |s| % 6 != 0 ==> DecodePeers(s) == []
    ensures |s| % 6 == 0 ==> EncodePeers(DecodePeers(s)) == s
  {
    if |s| % 6 == 0 { PeersInDecoded(s); }
  }

  lemma {:induction false} PeersInDecoded(s: bytes)
    requires |s| % 6 == 0
    ensures EncodePeers(PeersIn(s)) == s
    decreases |s|
  {
    if |s| >= 6 {
      var first := s[..6];
      FromNet16Inverse(first[4..]);
      assert EncodePeer(DecodePeer(first)) == first[..4] + first[4..] == first;
      PeersInDecoded(s[6..]);
      assert PeersIn(s)[1..] == PeersIn(s[6..]);
    }
  }

  // ----- The loops -----

  lemma {:induction false} EncodeNodesAppend(nodes: seq<Node>, n: Node)
    ensures EncodeNodes(nodes + [n]) == EncodeNodes(nodes) + EncodeNode(n)
    decreases |nodes|
  {
    if |nodes| == 0 {
      assert EncodeNodes([n][1..]) == [];
    } else {
      EncodeNodesAppend(nodes[1..], n);
      assert (nodes + [n])[1..] == nodes[1..] + [n];
    }
  }

  method EncodeNodesLoop(nodes: seq<Node>) returns (result: bytes)
    ensures result == EncodeNodes(nodes)
  {
    result := [];
    var i := 0;
    while i < |nodes|
      invariant i <= |nodes| && result == EncodeNodes(nodes[..i])
    {
      EncodeNodesAppend(nodes[..i], nodes[i]);
      assert nodes[..i + 1] == nodes[..i] + [nodes[i]];
      assert result + nodes[i].id + nodes[i].ip + Net16(nodes[i].port) == result + EncodeNode(nodes[i]);
      result := result + nodes[i].id;
      result := result + nodes[i].ip;
      result := result + Net16(nodes[i].port);
      i := i + 1;
    }
    assert nodes[..i] == nodes;
  }

  lemma {:induction false} EncodePeersAppend(peers: seq<Peer>, p: Peer)
    ensures EncodePeers(peers + [p]) == EncodePeers(peers) + EncodePeer(p)
    decreases |peers|
  {
    if |peers| == 0 {
      assert EncodePeers([p][1..]) == [];
    } else {
      EncodePeersAppend(peers[1..], p);
      assert (peers + [p])[1..] == peers[1..] + [p];
    }
  }

  method EncodePeersLoop(peers: seq<Peer>) returns (result: bytes)
    ensures result == EncodePeers(peers)
  {
    result := [];
    var i := 0;
    while i < |peers|
      invariant i <= |peers| && result == EncodePeers(peers[..i])
    {
      EncodePeersAppend(peers[..i], peers[i]);
      assert peers[..i + 1] == peers[..i] + [peers[i]];
      assert result + peers[i].ip + Net16(peers[i].port) == result + EncodePeer(peers[i]);
      result := result + peers[i].ip;
      result := result + Net16(peers[i].port);
      i := i + 1;
    }
    assert peers[..i] == peers;
  }

  /** parse_compact_nodes: the nodes are appended to those already there. */
  method ParseCompactNodes(compact: bytes, given: seq<Node>) returns (nodes: seq<Node>)
    ensures nodes == given + DecodeNodes(compact)
  {
    nodes := given;
    var numNodes := |compact| / NODE_SIZE;
    var i := 0;
    assert compact[0..] == compact;
    while i < numNodes
      invariant i <= numNodes
      invariant nodes + DecodeNodes(compact[i * NODE_SIZE..]) == given + DecodeNodes(compact)
    {
      var entry := compact[i * NODE_SIZE..];
      var node := Node(entry[..20], entry[20..24], FromNet16(entry[24..26]));
      assert entry[..NODE_SIZE][..20] == entry[..20] && entry[..NODE_SIZE][20..24] == entry[20..24];
      assert entry[..NODE_SIZE][24..] == entry[24..26];
      assert node == DecodeNode(entry[..NODE_SIZE]);
      assert entry[NODE_SIZE..] == compact[(i + 1) * NODE_SIZE..];
      ghost var rest := DecodeNodes(entry[NODE_SIZE..]);
      assert nodes + ([node] + rest) == nodes + [node] + rest;
      nodes := nodes + [node];
      i := i + 1;
    }
    assert nodes + [] == nodes;
  }

  /** parseTrackerPeers on a string value. */
  method ParseCompactPeers(compact: bytes) returns (peers: seq<Peer>)
    ensures peers == DecodePeers(compact)
  {
    peers := [];
    if |compact| % PEER_SIZE != 0 { return; }
    var i := 0;
    assert compact[0..] == compact;
    while i < |compact|
      invariant i <= |compact| && i % PEER_SIZE == 0
      invariant peers + PeersIn(compact[i..]) == PeersIn(compact)
    {
      var entry := compact[i..];
      var peer := Peer(compact[i..i + 4], FromNet16(compact[i + 4..i + 6]));
      assert entry[..PEER_SIZE][..4] == compact[i..i + 4] && entry[..PEER_SIZE][4..] == compact[i + 4..i + 6];
      assert peer == DecodePeer(entry[..PEER_SIZE]);
      assert entry[PEER_SIZE..] == compact[i + PEER_SIZE..];
      ghost var rest := PeersIn(entry[PEER_SIZE..]);
      assert peers + ([peer] + rest) == peers + [peer] + rest;
      peers := peers + [peer];
      i := i + PEER_SIZE;
    }
    assert peers + [] == peers;
  }
}

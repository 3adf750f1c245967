/** The 68 bytes that open a connection, and what an accepting end does with them. */
module Handshake {
  import opened Bytes

  const SIZE := 68
  const ID_SIZE := 20
  const PROTOCOL: bytes := Text("BitTorrent protocol")

  type Id = s: bytes | |s| == ID_SIZE witness seq(ID_SIZE, _ => 0)

  datatype Ids = Ids(infoHash: Id, peerId: Id)

  /** The two ids stored in the connection, the exception, or a write through a null pointer. */
  datatype Taken = Accepted(ids: Ids) | Refused | NullConnection

  /** What sendHandshake sends. */
  method HandshakeMessage(infoHash: Id, peerId: Id) returns (handshake: bytes)
    ensures handshake == HandshakeOf(seq(8, _ => 0), Ids(infoHash, peerId))
    ensures |handshake| == 68 && handshake[0] == 19 && handshake[1..20] == Text("BitTorrent protocol")
    ensures handshake[20..28] == seq(8, _ => 0) && handshake[28..48] == infoHash && handshake[48..68] == peerId
  {
    handshake := [|PROTOCOL|];
    handshake := handshake + PROTOCOL;
    handshake := handshake + seq(8, _ => 0);
    handshake := handshake + infoHash;
    handshake := handshake + peerId;
  }

  function HandshakeOf(reserved: bytes, ids: Ids): bytes {
    [|PROTOCOL|] + PROTOCOL + reserved + ids.infoHash + ids.peerId
  }

  /** handleHandshake on one read, with the sockets that have a connection. For another socket the
      map hands out a null pointer. */
  function Take(connected: set<int>, socket: int, received: bytes): Taken {
    if |received| != SIZE || received[0] != |PROTOCOL| || received[1..20] != PROTOCOL then Refused
    else if socket !in connected then NullConnection
    else Accepted(Ids(received[28..48], received[48..]))
  }

  /** A handshake with any reserved bytes, and nothing else, gets past the check; its ids are taken
      whatever they are, where there is a connection to hold them. */
  lemma TakenExactly(connected: set<int>, socket: int, received: bytes)
    ensures Take(connected, socket, received) != Refused <==>
            exists reserved, ids :: |reserved| == 8 && received == HandshakeOf(reserved, ids)
    ensures forall reserved, ids :: |reserved| == 8 && received == HandshakeOf(reserved, ids) ==>
              Take(connected, socket, received) == if socket in connected then Accepted(ids) else NullConnection
  {
    hide HandshakeOf;
    forall reserved, ids | |reserved| == 8 && received == HandshakeOf(reserved, ids)
      ensures Take(connected, socket, received) == if socket in connected then Accepted(ids) else NullConnection
    {
      Parts(reserved, ids);
    }
    if Take(connected, socket, received) != Refused { Whole(received); }
  }

  lemma Whole(s: bytes)
    requires |s| == SIZE && s[0] == |PROTOCOL| && s[1..20] == PROTOCOL
    ensures |s[20..28]| == 8 && s == HandshakeOf(s[20..28], Ids(s[28..48], s[48..]))
  {
    assert s == s[..1] + s[1..20] + s[20..28] + s[28..48] + s[48..];
    assert s[..1] == [|PROTOCOL|];
  }

  lemma Parts(reserved: bytes, ids: Ids)
    requires |reserved| == 8
    ensures var s := HandshakeOf(reserved, ids);
            && |s| == SIZE && s[0] == |PROTOCOL| && s[1..20] == PROTOCOL
            && s[28..48] == ids.infoHash && s[48..] == ids.peerId
  {
  }

  /** run takes the handshake of an accepted socket before it stores a connection for it: what another
      end sends is then never accepted, and the null pointer is written through. */
  lemma AcceptedSocketHasNoConnection(connected: set<int>, socket: int, ids: Ids)
    requires socket !in connected
    ensures Take(connected, socket, HandshakeOf(seq(8, _ => 0), ids)) == NullConnection
  {
    TakenExactly(connected, socket, HandshakeOf(seq(8, _ => 0), ids));
  }
}

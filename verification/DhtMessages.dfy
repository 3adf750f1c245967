/** The bencoded DHT messages: built field by field, sent, parsed and taken apart. */
module DhtMessages {
  import opened Bytes
  import opened Decimal
  import opened Bencode
  import opened Dictionaries
  import opened RoutingTable
  import opened Compact

  const KEY_A: bytes := Text("a")
  const KEY_Q: bytes := Text("q")
  const KEY_R: bytes := Text("r")
  const KEY_T: bytes := Text("t")
  const KEY_Y: bytes := Text("y")
  const KEY_ID: bytes := Text("id")
  const KEY_NODES: bytes := Text("nodes")
  const KEY_TARGET: bytes := Text("target")
  const KEY_VALUES: bytes := Text("values")
  const KEY_INFO_HASH: bytes := Text("info_hash")
  const QUERY: bytes := Text("q")
  const RESPONSE: bytes := Text("r")
  const FIND_NODE: bytes := Text("find_node")
  const TRANSACTION: bytes := Text("aa")

  const BUFFER_SIZE := 1024

  // ----- Access: asDict().at(key), with None for the exceptions -----

  function At(v: Value, key: bytes): Option<Value> {
    if v.Dict? then Lookup(v.entries, key) else None
  }

  function StringAt(v: Value, key: bytes): Option<bytes> {
    match At(v, key)
    case Some(Str(s)) => Some(s)
    case _ => None
  }

  function ArgumentAt(request: Value, key: bytes): Option<bytes> {
    match At(request, KEY_A)
    case Some(a) => StringAt(a, key)
    case None => None
  }

  // ----- Messages, as the assignments that fill them -----

  function Reply(t: bytes, body: seq<Entry>): Value {
    Dict(FromEntries([Entry(KEY_T, Str(t)), Entry(KEY_Y, Str(RESPONSE)), Entry(KEY_R, Dict(FromEntries(body)))]))
  }

  function NodesBody(my: NodeId, nodes: seq<Node>): seq<Entry> {
    [Entry(KEY_ID, Str(my)), Entry(KEY_NODES, Str(EncodeNodes(nodes)))]
  }

  function PeersBody(my: NodeId, peers: seq<Peer>): seq<Entry> {
    [Entry(KEY_ID, Str(my)), Entry(KEY_VALUES, Str(EncodePeers(peers)))]
  }

  function FindNodeRequest(my: NodeId, target: NodeId): Value {
    var query := FromEntries([Entry(KEY_ID, Str(my)), Entry(KEY_TARGET, Str(target))]);
    Dict(FromEntries([Entry(KEY_T, Str(TRANSACTION)), Entry(KEY_Y, Str(QUERY)),
                      Entry(KEY_Q, Str(FIND_NODE)), Entry(KEY_A, Dict(query))]))
  }

  /** The receive loop's test for a find_node query. */
  predicate IsFindNode(message: Value) {
    StringAt(message, KEY_Y) == Some(QUERY) && StringAt(message, KEY_Q) == Some(FIND_NODE)
  }

  /** send_find_node_request on the bytes received: the nodes listed, or none. */
  function DecodeFindNodeReply(data: bytes): seq<Node> {
    match ParseValue(data)
    case Err(_) => []
    case Ok(v, _) =>
      if StringAt(v, KEY_Y) != Some(RESPONSE) then []
      else match At(v, KEY_R)
        case None => []
        case Some(r) =>
          match StringAt(r, KEY_NODES)
          case None => []
          case Some(s) => DecodeNodes(s)
  }

  /** Nodes are taken from a response only, and are then those of its nodes string. */
  lemma OnlyResponsesAreDecoded(data: bytes)
    requires DecodeFindNodeReply(data) != []
    ensures ParseValue(data).Ok? && StringAt(ParseValue(data).value, Text("y")) == Some(Text("r"))
    ensures var r := At(ParseValue(data).value, Text("r"));
            && r.Some? && StringAt(r.value, Text("nodes")).Some?
            && var s := StringAt(r.value, Text("nodes")).value;
               EncodeNodes(DecodeFindNodeReply(data)) == s[..|s| / 26 * 26]
  {
    NodesDecoded(StringAt(At(ParseValue(data).value, KEY_R).value, KEY_NODES).value);
  }

  // ----- Fields of what was built -----

  lemma BuiltReply(t: bytes, body: seq<Entry>)
    requires |t| <= INT64_MAX && DistinctKeys(body) && ValidEntries(body)
    ensures Valid(Reply(t, body))
    ensures StringAt(Reply(t, body), KEY_T) == Some(t)
    ensures StringAt(Reply(t, body), KEY_Y) == Some(RESPONSE)
    ensures At(Reply(t, body), KEY_R) == Some(Dict(FromEntries(body)))
  {
    BuiltDict(body);
    var fields := [Entry(KEY_T, Str(t)), Entry(KEY_Y, Str(RESPONSE)), Entry(KEY_R, Dict(FromEntries(body)))];
    assert KEY_T[0] != KEY_Y[0] && KEY_T[0] != KEY_R[0] && KEY_Y[0] != KEY_R[0];
    BuiltDict(fields);
    assert fields[0].key == KEY_T && fields[1].key == KEY_Y && fields[2].key == KEY_R;
  }

  /** Two differently named string fields. */
  lemma BuiltPair(key1: bytes, s1: bytes, key2: bytes, s2: bytes)
    requires key1 != key2 && |key1| <= INT64_MAX && |key2| <= INT64_MAX
    requires |s1| <= INT64_MAX && |s2| <= INT64_MAX
    ensures var fields := [Entry(key1, Str(s1)), Entry(key2, Str(s2))];
            && DistinctKeys(fields) && ValidEntries(fields)
            && StringAt(Dict(FromEntries(fields)), key1) == Some(s1)
            && StringAt(Dict(FromEntries(fields)), key2) == Some(s2)
            && forall k :: k != key1 && k != key2 ==> At(Dict(FromEntries(fields)), k) == None
  {
    var fields := [Entry(key1, Str(s1)), Entry(key2, Str(s2))];
    BuiltDict(fields);
    assert fields[0].key == key1 && fields[1].key == key2;
    forall k | k != key1 && k != key2
      ensures Lookup(FromEntries(fields), k) == None
    {
      NotAssigned(fields, k);
    }
  }

  /** The reply to any transaction decodes to the nodes it was built from. */
  lemma FindNodeReplyDecodes(t: bytes, my: NodeId, nodes: seq<Node>)
    requires |t| <= INT64_MAX && |EncodeNodes(nodes)| <= INT64_MAX
    ensures DecodeFindNodeReply(Encode(Reply(t, NodesBody(my, nodes)))) == nodes
  {
    var body := NodesBody(my, nodes);
    assert |KEY_ID| != |KEY_NODES|;
    BuiltPair(KEY_ID, my, KEY_NODES, EncodeNodes(nodes));
    BuiltReply(t, body);
    EncodedParses(Reply(t, body));
    NodesRoundTrip(nodes, []);
    assert EncodeNodes(nodes) + [] == EncodeNodes(nodes);
  }

  /** The request parses as a find_node query with its transaction, sender and target. */
  lemma FindNodeRequestParses(my: NodeId, target: NodeId)
    ensures var v := FindNodeRequest(my, target);
            && ParseValue(Encode(v)) == Ok(v, |Encode(v)|)
            && IsFindNode(v) && StringAt(v, KEY_T) == Some(TRANSACTION)
            && ArgumentAt(v, KEY_ID) == Some(my) && ArgumentAt(v, KEY_TARGET) == Some(target)
  {
    assert |KEY_ID| != |KEY_TARGET|;
    BuiltPair(KEY_ID, my, KEY_TARGET, target);
    var query := [Entry(KEY_ID, Str(my)), Entry(KEY_TARGET, Str(target))];
    BuiltDict(query);
    hide FromEntries, Lookup, DistinctKeys;
    BuiltQuery(Dict(FromEntries(query)));
    EncodedParses(FindNodeRequest(my, target));
  }

  /** The fields of a find_node request around its arguments. */
  lemma BuiltQuery(arguments: Value)
    requires Valid(arguments)
    ensures var v := Dict(FromEntries([Entry(KEY_T, Str(TRANSACTION)), Entry(KEY_Y, Str(QUERY)),
                                       Entry(KEY_Q, Str(FIND_NODE)), Entry(KEY_A, arguments)]));
            && Valid(v) && At(v, KEY_A) == Some(arguments)
            && StringAt(v, KEY_T) == Some(TRANSACTION) && StringAt(v, KEY_Y) == Some(QUERY)
            && StringAt(v, KEY_Q) == Some(FIND_NODE)
  {
    hide FromEntries, Lookup;
    var fields := [Entry(KEY_T, Str(TRANSACTION)), Entry(KEY_Y, Str(QUERY)),
                   Entry(KEY_Q, Str(FIND_NODE)), Entry(KEY_A, arguments)];
    assert KEY_T[0] != KEY_Y[0] && KEY_T[0] != KEY_Q[0] && KEY_T[0] != KEY_A[0];
    assert KEY_Y[0] != KEY_Q[0] && KEY_Y[0] != KEY_A[0] && KEY_Q[0] != KEY_A[0];
    BuiltDict(fields);
    assert fields[0].key == KEY_T && fields[1].key == KEY_Y && fields[2].key == KEY_Q && fields[3].key == KEY_A;
  }

  // ----- Sizes -----

  lemma DigitsSize(n: nat)
    ensures |Digits(n)| <= if n < 10 then 1 else if n < 100 then 2 else 3 + n / 1000
  {
    if n >= 100 {
      assert Digits(n) == Digits(n / 10) + [48 + n % 10];
      DigitsShort(n / 10);
    }
  }

  lemma {:induction false} DigitsShort(n: nat)
    ensures |Digits(n)| <= if n < 10 then 1 else 2 + n / 100
  {
    if n >= 10 { DigitsShort(n / 10); }
  }

  lemma StringSize(s: bytes)
    ensures |EncodeString(s)| <= |s| + 1 + if |s| < 10 then 1 else if |s| < 100 then 2 else 3 + |s| / 1000
  {
    DigitsSize(|s|);
  }

  lemma FourFieldsSize(a: Entry, b: Entry, c: Entry, d: Entry)
    ensures FieldsSize([a, b, c, d]) == |EncodeEntry(a)| + |EncodeEntry(b)| + |EncodeEntry(c)| + |EncodeEntry(d)|
  {
    hide EncodeEntry;
    assert [a, b, c, d][..3] == [a, b, c];
    ThreeFieldsSize(a, b, c);
  }

  lemma NodesBodySize(my: NodeId, nodes: seq<Node>)
    requires |nodes| <= K
    ensures |Encode(Dict(FromEntries(NodesBody(my, nodes))))| <= 248
  {
    var body := NodesBody(my, nodes);
    assert |KEY_ID| != |KEY_NODES|;
    DictSize(body);
    TwoFieldsSize(body[0], body[1]);
    StringSize(KEY_ID);
    StringSize(my);
    StringSize(KEY_NODES);
    StringSize(EncodeNodes(nodes));
  }

  /** A reply with the transaction id of send_find_node_request is at most 266 bytes. */
  lemma FindNodeReplySize(my: NodeId, nodes: seq<Node>)
    requires |nodes| <= K
    ensures |Encode(Reply(TRANSACTION, NodesBody(my, nodes)))| <= 266
  {
    var body := FromEntries(NodesBody(my, nodes));
    NodesBodySize(my, nodes);
    var fields := [Entry(KEY_T, Str(TRANSACTION)), Entry(KEY_Y, Str(RESPONSE)), Entry(KEY_R, Dict(body))];
    assert KEY_T[0] != KEY_Y[0] && KEY_T[0] != KEY_R[0] && KEY_Y[0] != KEY_R[0];
    DictSize(fields);
    ThreeFieldsSize(fields[0], fields[1], fields[2]);
    StringSize(KEY_T);
    StringSize(TRANSACTION);
    StringSize(RESPONSE);
    StringSize(KEY_R);
    StringSize(KEY_Y);
  }

  lemma FindNodeQuerySize(my: NodeId, target: NodeId)
    ensures |Encode(Dict(FromEntries([Entry(KEY_ID, Str(my)), Entry(KEY_TARGET, Str(target))])))| <= 100
  {
    var query := [Entry(KEY_ID, Str(my)), Entry(KEY_TARGET, Str(target))];
    assert |KEY_ID| != |KEY_TARGET|;
    DictSize(query);
    TwoFieldsSize(query[0], query[1]);
    StringSize(KEY_ID);
    StringSize(my);
    StringSize(KEY_TARGET);
    StringSize(target);
  }

  lemma FindNodeRequestSize(my: NodeId, target: NodeId)
    ensures |Encode(FindNodeRequest(my, target))| <= BUFFER_SIZE
  {
    var query := FromEntries([Entry(KEY_ID, Str(my)), Entry(KEY_TARGET, Str(target))]);
    FindNodeQuerySize(my, target);
    var fields := [Entry(KEY_T, Str(TRANSACTION)), Entry(KEY_Y, Str(QUERY)),
                   Entry(KEY_Q, Str(FIND_NODE)), Entry(KEY_A, Dict(query))];
    assert KEY_T[0] != KEY_Y[0] && KEY_T[0] != KEY_Q[0] && KEY_T[0] != KEY_A[0];
    assert KEY_Y[0] != KEY_Q[0] && KEY_Y[0] != KEY_A[0] && KEY_Q[0] != KEY_A[0];
    DictSize(fields);
    FourFieldsSize(fields[0], fields[1], fields[2], fields[3]);
    StringSize(KEY_T);
    StringSize(TRANSACTION);
    StringSize(KEY_Y);
    StringSize(QUERY);
    StringSize(KEY_Q);
    StringSize(FIND_NODE);
    StringSize(KEY_A);
  }
}

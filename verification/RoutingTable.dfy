/** The routing table: where add_to_routing_table puts a node, and what it keeps. */
module RoutingTable {
  import opened Bytes
  import opened Bits

  const NODE_ID_SIZE := 20
  const ID_BITS := 160
  const K := 8

  type NodeId = s: bytes | |s| == NODE_ID_SIZE witness seq(NODE_ID_SIZE, _ => 0)
  type Ip = s: bytes | |s| == 4 witness [0, 0, 0, 0]

  datatype Node = Node(id: NodeId, ip: Ip, port: uint16)

  type Bucket = seq<Node>
  type Table = seq<Bucket>

  /** xor_distance. */
  function Distance(a: NodeId, b: NodeId): NodeId {
    seq(NODE_ID_SIZE, i requires 0 <= i < NODE_ID_SIZE => Xor(a[i], b[i]))
  }

  lemma DistanceInjective(a: NodeId, b: NodeId, target: NodeId)
    requires Distance(a, target) == Distance(b, target)
    ensures a == b
  {
    forall i | 0 <= i < NODE_ID_SIZE
      ensures a[i] == b[i]
    {
      assert Xor(a[i], target[i]) == Distance(a, target)[i] == Distance(b, target)[i] == Xor(b[i], target[i]);
      XorInjective(a[i], b[i], target[i]);
    }
  }

  /** distance[i / 8] & (1 << (i % 8)), within the array. */
  predicate BitOn(d: NodeId, i: nat) {
    i < ID_BITS && Bit(d[i / 8], i % 8)
  }

  predicate LeadingBits(d: NodeId, i: nat) {
    forall j :: 0 <= j < i ==> BitOn(d, j)
  }

  /** The first bit at or after i that is not set, or ID_BITS. */
  function FirstClear(d: NodeId, i: nat): (k: nat)
    requires i <= ID_BITS
    ensures i <= k <= ID_BITS && !BitOn(d, k)
    ensures forall j :: i <= j < k ==> BitOn(d, j)
    decreases ID_BITS - i
  {
    if BitOn(d, i) then FirstClear(d, i + 1) else i
  }

  /** The bucket selected for a distance in a table of the given size. */
  function BucketIndex(d: NodeId, size: nat): nat {
    if FirstClear(d, 0) < size then FirstClear(d, 0) else size
  }

  /** The scan for a bucket, from index i on; None when it reads the distance past its last byte. */
  function Scan(d: NodeId, size: nat, i: nat): Option<nat>
    decreases size - i
  {
    if i >= size then Some(i)
    else if i / 8 >= NODE_ID_SIZE then None
    else if Bit(d[i / 8], i % 8) then Scan(d, size, i + 1)
    else Some(i)
  }

  predicate ScanDefined(d: NodeId, size: nat) {
    Scan(d, size, 0).Some?
  }

  /** A scan that stays inside the distance ends at the selected bucket. */
  lemma {:induction false} ScanSelects(d: NodeId, size: nat, i: nat)
    requires LeadingBits(d, i) && i <= size && i <= ID_BITS
    ensures Scan(d, size, i) ==
            if size > ID_BITS && LeadingBits(d, ID_BITS) then None else Some(BucketIndex(d, size))
    decreases size - i
  {
    assert LeadingBits(d, FirstClear(d, 0)) && !BitOn(d, FirstClear(d, 0));
    if i < size && i < ID_BITS {
      if BitOn(d, i) {
        ScanSelects(d, size, i + 1);
      } else {
        assert FirstClear(d, 0) == i;
      }
    }
  }

  function IndexOf(b: Bucket, n: Node): (j: nat)
    requires n in b
    ensures j < |b| && b[j] == n && n !in b[..j]
  {
    if b[0] == n then 0
    else
      var j := IndexOf(b[1..], n);
      assert b[..j + 1] == [b[0]] + b[1..][..j];
      1 + j
  }

  /** What happens to the selected bucket; alive is the answer of the ping, if one is sent. */
  function Update(b: Bucket, n: Node, alive: bool): (c: Bucket)
    ensures |c| == if n !in b && |b| < K then |b| + 1 else |b|
  {
    if n in b then
      var j := IndexOf(b, n);
      b[..j] + b[j + 1..] + [n]
    else if |b| < K then b + [n]
    else if alive then b[1..] + [b[0]]
    else [n] + b[1..]
  }

  /** add_to_routing_table. */
  function Add(my: NodeId, t: Table, n: Node, alive: bool): Table {
    var i := BucketIndex(Distance(my, n.id), |t|);
    if i < |t| then t[i := Update(t[i], n, alive)] else t + [Update([], n, alive)]
  }

  // ----- Placement -----

  predicate Distinct(b: Bucket) {
    forall p, q :: 0 <= p < q < |b| ==> b[p] != b[q]
  }

  predicate AtMostOneOn(my: NodeId, b: Bucket, i: nat) {
    forall p, q :: 0 <= p < q < |b| ==> !(BitOn(Distance(my, b[p].id), i) && BitOn(Distance(my, b[q].id), i))
  }

  /** Bucket i: at most K nodes, no repeats, the first i distance bits of each set, and bit i set in
      at most one of them. */
  predicate PlacedAt(my: NodeId, b: Bucket, i: nat) {
    && |b| <= K && Distinct(b) && (i > 0 ==> |b| > 0)
    && (forall p :: 0 <= p < |b| ==> LeadingBits(Distance(my, b[p].id), i))
    && AtMostOneOn(my, b, i)
  }

  predicate Placed(my: NodeId, t: Table) {
    |t| > 0 && forall i :: 0 <= i < |t| ==> PlacedAt(my, t[i], i)
  }

  /** Where the p-th node of the updated bucket stood before, or -1 for the node just added. */
  function Origin(b: Bucket, n: Node, alive: bool, p: nat): int {
    if n in b then (if p < IndexOf(b, n) then p else if p < |b| - 1 then p + 1 else IndexOf(b, n))
    else if |b| < K then (if p < |b| then p else -1)
    else if alive then (if p < |b| - 1 then p + 1 else 0)
    else if p == 0 then -1 else p
  }

  lemma OriginIsNode(b: Bucket, n: Node, alive: bool, p: nat)
    requires p < |Update(b, n, alive)|
    ensures var x := Origin(b, n, alive, p);
            if x == -1 then Update(b, n, alive)[p] == n && n !in b
            else 0 <= x < |b| && Update(b, n, alive)[p] == b[x]
  {
    if n in b {
      MovedToBack(b, IndexOf(b, n), p);
    }
  }

  lemma MovedToBack(b: Bucket, j: nat, p: nat)
    requires j < |b| && p < |b|
    ensures (b[..j] + b[j + 1..] + [b[j]])[p] == b[if p < j then p else if p < |b| - 1 then p + 1 else j]
  {
  }

  lemma OriginInjective(b: Bucket, n: Node, alive: bool, p: nat, q: nat)
    requires p < q < |Update(b, n, alive)|
    ensures Origin(b, n, alive, p) != Origin(b, n, alive, q)
  {
  }

  /** Adding a node whose first i bits are set, and whose bit i is not set unless the bucket is new,
      keeps a bucket well placed. */
  lemma UpdateKeepsPlaced(my: NodeId, b: Bucket, i: nat, n: Node, alive: bool)
    requires PlacedAt(my, b, i) || b == []
    requires LeadingBits(Distance(my, n.id), i)
    requires b != [] ==> !BitOn(Distance(my, n.id), i)
    ensures PlacedAt(my, Update(b, n, alive), i)
  {
    var c := Update(b, n, alive);
    forall p | 0 <= p < |c|
      ensures LeadingBits(Distance(my, c[p].id), i)
    {
      OriginIsNode(b, n, alive, p);
    }
    forall p, q | 0 <= p < q < |c|
      ensures c[p] != c[q]
      ensures !(BitOn(Distance(my, c[p].id), i) && BitOn(Distance(my, c[q].id), i))
    {
      OriginIsNode(b, n, alive, p);
      OriginIsNode(b, n, alive, q);
      OriginInjective(b, n, alive, p, q);
      var x, y := Origin(b, n, alive, p), Origin(b, n, alive, q);
      if x != -1 && y != -1 {
        assert b[if x < y then x else y] != b[if x < y then y else x];
      }
    }
  }

  lemma AddKeepsPlaced(my: NodeId, t: Table, n: Node, alive: bool)
    requires Placed(my, t)
    ensures Placed(my, Add(my, t, n, alive))
    ensures |Add(my, t, n, alive)| <= if FirstClear(Distance(my, n.id), 0) >= |t| then |t| + 1 else |t|
  {
    var d := Distance(my, n.id);
    var i := BucketIndex(d, |t|);
    assert LeadingBits(d, i);
    if i < |t| {
      assert PlacedAt(my, t[i], i);
      UpdateKeepsPlaced(my, t[i], i, n, alive);
    } else {
      UpdateKeepsPlaced(my, [], i, n, alive);
    }
  }

  // ----- Runs -----

  datatype Step = Step(node: Node, alive: bool)

  function Run(my: NodeId, t: Table, steps: seq<Step>): Table
    decreases |steps|
  {
    if |steps| == 0 then t else Run(my, Add(my, t, steps[0].node, steps[0].alive), steps[1..])
  }

  /** No node added is the bitwise complement of the table's owner. */
  predicate NoComplement(my: NodeId, steps: seq<Step>) {
    forall k :: 0 <= k < |steps| ==> FirstClear(Distance(my, steps[k].node.id), 0) < ID_BITS
  }

  /** Placement holds in every run, and without the owner's complement the table never outgrows the
      bits of a distance, so that every scan is defined. */
  lemma {:induction false} RunPlaced(my: NodeId, t: Table, steps: seq<Step>)
    requires Placed(my, t)
    ensures Placed(my, Run(my, t, steps))
    ensures |t| <= ID_BITS && NoComplement(my, steps) ==> |Run(my, t, steps)| <= ID_BITS
    decreases |steps|
  {
    if |steps| > 0 {
      AddKeepsPlaced(my, t, steps[0].node, steps[0].alive);
      RunPlaced(my, Add(my, t, steps[0].node, steps[0].alive), steps[1..]);
    }
  }

  // ----- Where the scan goes wrong -----

  /** The scan reads past the distance exactly when the table has more buckets than bits and the node
      is the owner's complement. */
  lemma ScanUndefinedIff(my: NodeId, t: Table, n: Node)
    ensures !ScanDefined(Distance(my, n.id), |t|) <==>
            |t| > ID_BITS && LeadingBits(Distance(my, n.id), ID_BITS)
  {
    ScanSelects(Distance(my, n.id), |t|, 0);
  }

  /** In every run without the owner's complement, the scan for the next node is defined. */
  lemma RunScansDefined(my: NodeId, steps: seq<Step>, n: Node)
    requires NoComplement(my, steps)
    ensures ScanDefined(Distance(my, n.id), |Run(my, [[]], steps)|)
  {
    RunPlaced(my, [[]], steps);
    ScanUndefinedIff(my, Run(my, [[]], steps), n);
  }

  /** The bitwise complement of an id. */
  function Complement(id: NodeId): NodeId {
    seq(NODE_ID_SIZE, i requires 0 <= i < NODE_ID_SIZE => 255 - id[i])
  }

  lemma {:induction false} XorBitsComplement(a: nat, n: nat, k: nat)
    requires a < Pow2(n) && k < n
    ensures Bit(XorBits(a, Pow2(n) - 1 - a, n), k)
  {
    var b := Pow2(n) - 1 - a;
    assert b / 2 == Pow2(n - 1) - 1 - a / 2 && a % 2 != b % 2;
    assert XorBits(a, b, n) / 2 == XorBits(a / 2, b / 2, n - 1);
    if k > 0 { XorBitsComplement(a / 2, n - 1, k - 1); }
  }

  lemma ComplementIsAllOnes(my: NodeId)
    ensures LeadingBits(Distance(my, Complement(my)), ID_BITS)
  {
    assert Pow2(8) == 256;
    forall j | 0 <= j < ID_BITS
      ensures BitOn(Distance(my, Complement(my)), j)
    {
      XorBitsComplement(my[j / 8], 8, j % 8);
    }
  }

  /** Each time the complement is added to a table of at most 160 buckets, the table grows. */
  lemma {:induction false} ComplementGrows(my: NodeId, t: Table, n: Node, k: nat)
    requires n.id == Complement(my) && |t| + k <= ID_BITS + 1
    ensures |Run(my, t, seq(k, _ => Step(n, false)))| == |t| + k
    decreases k
  {
    var steps := seq(k, _ => Step(n, false));
    if k > 0 {
      var d := Distance(my, n.id);
      ComplementIsAllOnes(my);
      assert !BitOn(d, FirstClear(d, 0));
      assert steps[1..] == seq(k - 1, _ => Step(n, false));
      ComplementGrows(my, Add(my, t, n, false), n, k - 1);
    }
  }

  /** A reachable failure: 160 additions of the complement, each with a defined scan, leave a table on
      which the next addition reads past the distance. */
  lemma ScanFailureReachable(my: NodeId, n: Node)
    requires n.id == Complement(my)
    ensures var steps := seq(ID_BITS, _ => Step(n, false));
            && (forall k :: 0 <= k < ID_BITS ==> ScanDefined(Distance(my, n.id), |Run(my, [[]], steps[..k])|))
            && !ScanDefined(Distance(my, n.id), |Run(my, [[]], steps)|)
  {
    var steps := seq(ID_BITS, _ => Step(n, false));
    ComplementIsAllOnes(my);
    ComplementGrows(my, [[]], n, ID_BITS);
    ScanUndefinedIff(my, Run(my, [[]], steps), n);
    forall k | 0 <= k < ID_BITS
      ensures ScanDefined(Distance(my, n.id), |Run(my, [[]], steps[..k])|)
    {
      assert steps[..k] == seq(k, _ => Step(n, false));
      ComplementGrows(my, [[]], n, k);
      ScanUndefinedIff(my, Run(my, [[]], steps[..k]), n);
    }
  }

  // ----- Live nodes are kept -----

  /** The step replaces n, at the front of the full bucket i, after its ping failed. */
  predicate Evicts(my: NodeId, t: Table, step: Step, i: nat, n: Node) {
    && i < |t| && BucketIndex(Distance(my, step.node.id), |t|) == i
    && |t[i]| >= K && t[i][0] == n && !step.alive && step.node !in t[i]
  }

  lemma UpdateKeeps(b: Bucket, n: Node, alive: bool, m: Node)
    requires m in b
    ensures m in Update(b, n, alive) || (|b| >= K && b[0] == m && !alive && n !in b)
  {
    var p :| 0 <= p < |b| && b[p] == m;
    var c := Update(b, n, alive);
    if n in b {
      var j := IndexOf(b, n);
      assert if p < j then c[p] == m else if p == j then c[|b| - 1] == m else c[p - 1] == m;
    } else if |b| < K {
      assert c[p] == m;
    } else if alive {
      assert if p == 0 then c[|b| - 1] == m else c[p - 1] == m;
    } else if p > 0 {
      assert c[p] == m;
    }
  }

  lemma AddKeepsUnlessEvicted(my: NodeId, t: Table, step: Step, i: nat, n: Node)
    requires i < |t| && n in t[i]
    ensures i < |Add(my, t, step.node, step.alive)|
    ensures n !in Add(my, t, step.node, step.alive)[i] ==> Evicts(my, t, step, i, n)
  {
    if n !in Add(my, t, step.node, step.alive)[i] {
      UpdateKeeps(t[i], step.node, step.alive, n);
    }
  }

  lemma RunSteps(my: NodeId, t: Table, steps: seq<Step>, k: nat)
    requires 0 < k <= |steps|
    ensures Run(my, t, steps[..k]) == Run(my, Add(my, t, steps[0].node, steps[0].alive), steps[1..][..k - 1])
  {
    assert steps[..k][1..] == steps[1..][..k - 1];
  }

  /** In every run, a node leaves its bucket only in a step where its own ping failed while it was at
      the front of the full bucket. */
  lemma {:induction false} LostOnlyByFailedPing(my: NodeId, t: Table, steps: seq<Step>, i: nat, n: Node)
    requires i < |t| && n in t[i]
    ensures i < |Run(my, t, steps)|
    ensures n !in Run(my, t, steps)[i] ==>
              exists k :: 0 <= k < |steps| && Evicts(my, Run(my, t, steps[..k]), steps[k], i, n)
    decreases |steps|
  {
    if |steps| > 0 {
      AddKeepsUnlessEvicted(my, t, steps[0], i, n);
      var u := Add(my, t, steps[0].node, steps[0].alive);
      if n in u[i] {
        LostOnlyByFailedPing(my, u, steps[1..], i, n);
        if n !in Run(my, t, steps)[i] {
          var k :| 0 <= k < |steps| - 1 && Evicts(my, Run(my, u, steps[1..][..k]), steps[1..][k], i, n);
          RunSteps(my, t, steps, k + 1);
          assert Evicts(my, Run(my, t, steps[..k + 1]), steps[k + 1], i, n);
        }
      } else {
        assert Evicts(my, Run(my, t, steps[..0]), steps[0], i, n);
        RunKeepsLength(my, u, steps[1..]);
      }
    }
  }

  lemma {:induction false} RunKeepsLength(my: NodeId, t: Table, steps: seq<Step>)
    ensures |t| <= |Run(my, t, steps)|
    decreases |steps|
  {
    if |steps| > 0 { RunKeepsLength(my, Add(my, t, steps[0].node, steps[0].alive), steps[1..]); }
  }

  // ----- Contents and order -----

  /** What a bucket holds after an update, and where the node concerned ends up: a node seen again
      or a front node that answered goes to the back, a replacement takes the front. */
  lemma UpdateContents(b: Bucket, n: Node, alive: bool)
    ensures var c := Update(b, n, alive);
            if n in b then multiset(c) == multiset(b) && c[|b| - 1] == n
            else if |b| < K then multiset(c) == multiset(b) + multiset{n} && c[|b|] == n
            else if alive then multiset(c) == multiset(b) && c[|b| - 1] == b[0]
            else multiset(c) == multiset(b) - multiset{b[0]} + multiset{n} && c[0] == n
  {
    if n in b {
      MoveToBackContents(b, IndexOf(b, n));
    } else if |b| >= K {
      if alive { MoveToBackContents(b, 0); } else { ReplaceFrontContents(b, n); }
    }
  }

  lemma ReplaceFrontContents(b: Bucket, n: Node)
    requires |b| > 0
    ensures multiset([n] + b[1..]) == multiset(b) - multiset{b[0]} + multiset{n}
  {
    assert b == [b[0]] + b[1..];
    assert multiset(b) - multiset{b[0]} == multiset(b[1..]);
  }

  lemma MoveToBackContents(b: Bucket, j: nat)
    requires j < |b|
    ensures multiset(b[..j] + b[j + 1..] + [b[j]]) == multiset(b)
    ensures j == 0 ==> b[..j] + b[j + 1..] + [b[j]] == b[1..] + [b[0]]
  {
    assert b == b[..j] + [b[j]] + b[j + 1..];
  }

  predicate Before(b: Bucket, x: Node, y: Node) {
    exists p, q :: 0 <= p < q < |b| && b[p] == x && b[q] == y
  }

  /** Apart from the node seen again and a front node that is pinged, entries keep their order. */
  lemma UpdateKeepsOrder(b: Bucket, n: Node, alive: bool, x: Node, y: Node)
    requires Before(b, x, y) && x != n && y != n
    requires n in b || |b| < K || x != b[0]
    ensures Before(Update(b, n, alive), x, y)
  {
    hide Update;
    var p, q :| 0 <= p < q < |b| && b[p] == x && b[q] == y;
    var p', q' := p, q;
    if n in b {
      var j := IndexOf(b, n);
      p', q' := if p < j then p else p - 1, if q < j then q else q - 1;
    } else if |b| >= K && alive {
      p', q' := p - 1, q - 1;
    }
    OriginIsNode(b, n, alive, p');
    OriginIsNode(b, n, alive, q');
    BeforeAt(Update(b, n, alive), p', q', x, y);
  }

  lemma BeforeAt(b: Bucket, p: nat, q: nat, x: Node, y: Node)
    requires p < q < |b| && b[p] == x && b[q] == y
    ensures Before(b, x, y)
  {
  }
}

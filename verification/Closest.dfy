/** The nodes of the table closest to a target. */
module Closest {
  import opened Bytes
  import opened Bits
  import opened RoutingTable
  import opened XorDistance

  /** All nodes, bucket after bucket. */
  function Gather(t: Table): seq<Node> {
    if |t| == 0 then [] else t[0] + Gather(t[1..])
  }

  /** How often a node stands in the table. */
  function Occurrences(t: Table, n: Node): nat {
    if |t| == 0 then 0 else Occurrences(t[..|t| - 1], n) + multiset(t[|t| - 1])[n]
  }

  /** Gathering neither loses nor repeats an entry of any bucket. */
  lemma {:induction false} GatherKeepsAll(t: Table, n: Node)
    ensures multiset(Gather(t))[n] == Occurrences(t, n)
  {
    if |t| > 0 {
      var init, last := t[..|t| - 1], t[|t| - 1];
      GatherKeepsAll(init, n);
      GatherLast(init, last);
      assert t == init + [last];
    }
  }

  lemma {:induction false} GatherLast(t: Table, b: Bucket)
    ensures Gather(t + [b]) == Gather(t) + b
  {
    if |t| == 0 {
      assert Gather([b][1..]) == [];
      assert [b][0] + [] == b;
    } else {
      GatherLast(t[1..], b);
      assert (t + [b])[1..] == t[1..] + [b];
      assert t[0] + (Gather(t[1..]) + b) == t[0] + Gather(t[1..]) + b;
    }
  }

  /** The comparison handed to std::sort. */
  predicate Closer(target: NodeId, a: Node, b: Node) {
    LexLess(Distance(a.id, target), Distance(b.id, target))
  }

  predicate SortedBy(target: NodeId, s: seq<Node>) {
    forall p, q :: 0 <= p < q < |s| ==> !Closer(target, s[q], s[p])
  }

  /** What std::sort may leave: any sorted arrangement, since it is not stable. */
  ghost predicate IsSorting(target: NodeId, all: seq<Node>, s: seq<Node>) {
    multiset(s) == multiset(all) && SortedBy(target, s)
  }

  function Take(s: seq<Node>, k: nat): seq<Node> {
    if |s| > k then s[..k] else s
  }

  /** A result find_closest_nodes may return. */
  ghost predicate IsClosest(t: Table, target: NodeId, k: nat, r: seq<Node>) {
    exists s :: IsSorting(target, Gather(t), s) && r == Take(s, k)
  }

  /** The XOR of the node's id and the target, as 160-bit numbers. */
  function DistanceValue(target: NodeId, n: Node): nat {
    XorBits(BigEndian(n.id), BigEndian(target), 160)
  }

  lemma CloserIsSmaller(target: NodeId, a: Node, b: Node)
    ensures Closer(target, a, b) <==> DistanceValue(target, a) < DistanceValue(target, b)
  {
    LexIsNumericOrder(Distance(a.id, target), Distance(b.id, target));
    DistanceIsXor(a.id, target);
    DistanceIsXor(b.id, target);
  }

  lemma SortedByValue(target: NodeId, s: seq<Node>)
    ensures SortedBy(target, s) <==>
            forall p, q :: 0 <= p < q < |s| ==> DistanceValue(target, s[p]) <= DistanceValue(target, s[q])
  {
    forall p, q | 0 <= p < q < |s|
      ensures !Closer(target, s[q], s[p]) <==> DistanceValue(target, s[p]) <= DistanceValue(target, s[q])
    {
      CloserIsSmaller(target, s[q], s[p]);
    }
  }

  /** The result has as many nodes as asked for or available, all from the table, in order of
      distance, and every node left out is at least as far as every node returned. */
  lemma ClosestAreClosest(t: Table, target: NodeId, k: nat, r: seq<Node>)
    requires IsClosest(t, target, k, r)
    ensures |r| == if |Gather(t)| < k then |Gather(t)| else k
    ensures multiset(r) <= multiset(Gather(t))
    ensures forall p, q :: 0 <= p < q < |r| ==> DistanceValue(target, r[p]) <= DistanceValue(target, r[q])
    ensures forall m, n :: m in r && n in multiset(Gather(t)) - multiset(r) ==>
              DistanceValue(target, m) <= DistanceValue(target, n)
  {
    var s: seq<Node> :| IsSorting(target, Gather(t), s) && r == Take(s, k);
    hide DistanceValue, Gather;
    SameSize(s, Gather(t));
    FrontOfSorting(target, Gather(t), s, |r|);
  }

  lemma FrontOfSorting(target: NodeId, all: seq<Node>, s: seq<Node>, k: nat)
    requires IsSorting(target, all, s) && k <= |s|
    ensures multiset(s[..k]) <= multiset(all)
    ensures forall p, q :: 0 <= p < q < k ==> DistanceValue(target, s[p]) <= DistanceValue(target, s[q])
    ensures forall m, n :: m in s[..k] && n in multiset(all) - multiset(s[..k]) ==>
              DistanceValue(target, m) <= DistanceValue(target, n)
  {
    hide DistanceValue, Closer;
    SortedByValue(target, s);
    SplitContents(s, k);
    FrontIsCloser(target, s, k);
  }

  lemma SplitContents<T>(s: seq<T>, k: nat)
    requires k <= |s|
    ensures multiset(s[..k]) <= multiset(s)
    ensures multiset(s) - multiset(s[..k]) == multiset(s[k..])
  {
    assert s == s[..k] + s[k..];
    assert multiset(s) == multiset(s[..k]) + multiset(s[k..]);
  }

  /** The conditions of ClosestAreClosest, in terms of nodes and multisets only. */
  ghost predicate AreClosest(t: Table, target: NodeId, k: nat, r: seq<Node>) {
    && |r| == (if |Gather(t)| < k then |Gather(t)| else k)
    && multiset(r) <= multiset(Gather(t))
    && SortedBy(target, r)
    && forall m, n :: m in r && n in multiset(Gather(t)) - multiset(r) ==> !Closer(target, n, m)
  }

  /** Those conditions say exactly what may be returned. */
  lemma ClosestExactly(t: Table, target: NodeId, k: nat, r: seq<Node>)
    ensures IsClosest(t, target, k, r) <==> AreClosest(t, target, k, r)
  {
    if IsClosest(t, target, k, r) {
      ClosestAreClosest(t, target, k, r);
      SortedByValue(target, r);
      forall m, n | m in r && n in multiset(Gather(t)) - multiset(r)
        ensures !Closer(target, n, m)
      {
        CloserIsSmaller(target, n, m);
      }
    }
    if AreClosest(t, target, k, r) { ClosestMayBeReturned(t, target, k, r); }
  }

  lemma ClosestMayBeReturned(t: Table, target: NodeId, k: nat, r: seq<Node>)
    requires AreClosest(t, target, k, r)
    ensures IsClosest(t, target, k, r)
  {
    hide Closer, Gather;
    var rest := SortingOf(target, multiset(Gather(t)) - multiset(r));
    var s := r + rest;
    JoinSorted(target, r, rest);
    hide SortedBy;
    assert multiset(s) == multiset(Gather(t));
    SameSize(s, Gather(t));
    assert s[..|r|] == r;
    assert IsSorting(target, Gather(t), s) && r == Take(s, k);
  }

  lemma JoinSorted(target: NodeId, a: seq<Node>, b: seq<Node>)
    requires SortedBy(target, a) && SortedBy(target, b)
    requires forall m, n :: m in a && n in multiset(b) ==> !Closer(target, n, m)
    ensures SortedBy(target, a + b)
  {
    hide Closer;
    forall p, q | 0 <= p < q < |a + b|
      ensures !Closer(target, (a + b)[q], (a + b)[p])
    {
      if p < |a| <= q { assert a[p] in a && b[q - |a|] in multiset(b); }
    }
  }

  lemma {:induction false} SortingOf(target: NodeId, nodes: multiset<Node>) returns (s: seq<Node>)
    ensures multiset(s) == nodes && SortedBy(target, s)
    decreases |nodes|
  {
    if |nodes| == 0 {
      s := [];
    } else {
      var n :| n in nodes;
      var rest := SortingOf(target, nodes - multiset{n});
      var j := Position(target, rest, n);
      InsertKeepsSorted(target, rest, j, n);
      InsertMultiset(rest, j, n);
      s := Inserted(rest, j, n);
    }
  }

  lemma {:induction false} Position(target: NodeId, s: seq<Node>, n: Node) returns (j: nat)
    ensures j <= |s| && (j > 0 ==> !Closer(target, n, s[j - 1]))
    ensures forall q :: j <= q < |s| ==> Closer(target, n, s[q])
  {
    if |s| == 0 || !Closer(target, n, s[|s| - 1]) {
      j := |s|;
    } else {
      j := Position(target, s[..|s| - 1], n);
    }
  }

  lemma FrontIsCloser(target: NodeId, s: seq<Node>, k: nat)
    requires SortedBy(target, s) && k <= |s|
    ensures forall m, n :: m in s[..k] && n in s[k..] ==> DistanceValue(target, m) <= DistanceValue(target, n)
  {
    hide DistanceValue;
    SortedByValue(target, s);
    forall m, n | m in s[..k] && n in s[k..]
      ensures DistanceValue(target, m) <= DistanceValue(target, n)
    {
      var p :| 0 <= p < k && s[..k][p] == m;
      var q :| 0 <= q < |s| - k && s[k..][q] == n;
      assert s[p] == m && s[k + q] == n;
    }
  }

  lemma SameSize<T>(a: seq<T>, b: seq<T>)
    requires multiset(a) == multiset(b)
    ensures |a| == |b|
  {
    assert |a| == |multiset(a)| && |b| == |multiset(b)|;
  }

  function Without<T>(s: seq<T>, j: nat): seq<T>
    requires j < |s|
  {
    s[..j] + s[j + 1..]
  }

  lemma WithoutMultiset<T>(s: seq<T>, j: nat)
    requires j < |s|
    ensures multiset(s) == multiset(Without(s, j)) + multiset{s[j]}
  {
    assert s == s[..j] + [s[j]] + s[j + 1..];
  }

  lemma CancelOne<T>(p: multiset<T>, q: multiset<T>, x: T)
    ensures p + multiset{x} == q + multiset{x} <==> p == q
  {
    assert p == (p + multiset{x}) - multiset{x} && q == (q + multiset{x}) - multiset{x};
  }

  /** Taking the same element out of two arrangements, or putting it back. */
  lemma WithoutSame<T>(a: seq<T>, i: nat, b: seq<T>, j: nat)
    requires i < |a| && j < |b| && a[i] == b[j]
    ensures multiset(a) == multiset(b) <==> multiset(Without(a, i)) == multiset(Without(b, j))
  {
    WithoutMultiset(a, i);
    WithoutMultiset(b, j);
    CancelOne(multiset(Without(a, i)), multiset(Without(b, j)), a[i]);
  }

  // ----- The result is determined up to ties -----

  function Values(target: NodeId, s: seq<Node>): seq<nat> {
    seq(|s|, i requires 0 <= i < |s| => DistanceValue(target, s[i]))
  }

  lemma {:induction false} ValuesMultiset(target: NodeId, a: seq<Node>, b: seq<Node>)
    requires multiset(a) == multiset(b)
    ensures multiset(Values(target, a)) == multiset(Values(target, b))
    decreases |a|
  {
    hide DistanceValue;
    SameSize(a, b);
    if |a| > 0 {
      assert a[0] in multiset(a);
      var j :| 0 <= j < |b| && b[j] == a[0];
      WithoutSame(a, 0, b, j);
      ValuesMultiset(target, Without(a, 0), Without(b, j));
      ValuesWithout(target, a, 0);
      ValuesWithout(target, b, j);
      WithoutSame(Values(target, a), 0, Values(target, b), j);
    } else {
      assert Values(target, a) == Values(target, b);
    }
  }

  lemma ValuesWithout(target: NodeId, s: seq<Node>, j: nat)
    requires j < |s|
    ensures Values(target, Without(s, j)) == Without(Values(target, s), j)
  {
    hide DistanceValue;
  }

  predicate Ascending(s: seq<nat>) {
    forall p, q :: 0 <= p < q < |s| ==> s[p] <= s[q]
  }

  lemma SameFirst(a: seq<nat>, b: seq<nat>)
    requires multiset(a) == multiset(b) && Ascending(a) && Ascending(b) && |a| > 0 && |b| > 0
    ensures a[0] == b[0]
  {
    assert a[0] in multiset(a) && b[0] in multiset(b);
    var i :| 0 <= i < |a| && a[i] == b[0];
    var j :| 0 <= j < |b| && b[j] == a[0];
    assert a[0] <= a[i] && b[0] <= b[j];
  }

  lemma {:induction false} AscendingUnique(a: seq<nat>, b: seq<nat>)
    requires multiset(a) == multiset(b) && Ascending(a) && Ascending(b)
    ensures a == b
    decreases |a|
  {
    SameSize(a, b);
    if |a| > 0 {
      SameFirst(a, b);
      WithoutFirst(a);
      WithoutFirst(b);
      WithoutSame(a, 0, b, 0);
      AscendingUnique(Without(a, 0), Without(b, 0));
    }
  }

  lemma WithoutFirst(s: seq<nat>)
    requires |s| > 0 && Ascending(s)
    ensures Ascending(Without(s, 0)) && s == [s[0]] + Without(s, 0)
  {
  }

  /** Any two results show the same distances; they differ only where nodes share an id. */
  lemma ClosestUniqueUpToTies(t: Table, target: NodeId, k: nat, r: seq<Node>, r': seq<Node>)
    requires IsClosest(t, target, k, r) && IsClosest(t, target, k, r')
    ensures |r| == |r'| && forall i :: 0 <= i < |r| ==> r[i].id == r'[i].id
  {
    var s: seq<Node> :| IsSorting(target, Gather(t), s) && r == Take(s, k);
    var s': seq<Node> :| IsSorting(target, Gather(t), s') && r' == Take(s', k);
    SortingsAgree(target, Gather(t), s, s');
  }

  lemma SortingsAgree(target: NodeId, all: seq<Node>, s: seq<Node>, s': seq<Node>)
    requires IsSorting(target, all, s) && IsSorting(target, all, s')
    ensures |s| == |s'| && forall i :: 0 <= i < |s| ==> s[i].id == s'[i].id
  {
    hide DistanceValue, Closer;
    ValuesMultiset(target, s, s');
    SortedByValue(target, s);
    SortedByValue(target, s');
    AscendingUnique(Values(target, s), Values(target, s'));
    SameSize(s, s');
    forall i | 0 <= i < |s|
      ensures s[i].id == s'[i].id
    {
      assert Values(target, s)[i] == Values(target, s')[i];
      SameDistanceSameId(target, s[i], s'[i]);
    }
  }

  lemma SameDistanceSameId(target: NodeId, a: Node, b: Node)
    requires DistanceValue(target, a) == DistanceValue(target, b)
    ensures a.id == b.id
  {
    CloserIsSmaller(target, a, b);
    CloserIsSmaller(target, b, a);
    LexTotal(Distance(a.id, target), Distance(b.id, target));
    DistanceInjective(a.id, b.id, target);
  }

  // ----- The code -----

  /** A stand-in for std::sort: insertion sort. */
  method Sort(target: NodeId, nodes: seq<Node>) returns (s: seq<Node>)
    ensures IsSorting(target, nodes, s)
  {
    s := [];
    var i := 0;
    while i < |nodes|
      invariant i <= |nodes| && IsSorting(target, nodes[..i], s)
    {
      var j := |s|;
      while j > 0 && Closer(target, nodes[i], s[j - 1])
        invariant 0 <= j <= |s|
        invariant forall q :: j <= q < |s| ==> Closer(target, nodes[i], s[q])
      {
        j := j - 1;
      }
      InsertKeepsSorted(target, s, j, nodes[i]);
      InsertMultiset(s, j, nodes[i]);
      assert nodes[..i + 1] == nodes[..i] + [nodes[i]];
      s := Inserted(s, j, nodes[i]);
      i := i + 1;
    }
    assert nodes[..i] == nodes;
  }

  function Inserted<T>(s: seq<T>, j: nat, x: T): seq<T>
    requires j <= |s|
  {
    s[..j] + [x] + s[j..]
  }

  lemma InsertMultiset<T>(s: seq<T>, j: nat, x: T)
    requires j <= |s|
    ensures multiset(Inserted(s, j, x)) == multiset(s) + multiset{x}
  {
    assert s == s[..j] + s[j..];
  }

  lemma InsertKeepsSorted(target: NodeId, s: seq<Node>, j: nat, n: Node)
    requires SortedBy(target, s) && j <= |s|
    requires j > 0 ==> !Closer(target, n, s[j - 1])
    requires forall q :: j <= q < |s| ==> Closer(target, n, s[q])
    ensures SortedBy(target, Inserted(s, j, n))
  {
    hide DistanceValue, Closer;
    var r := Inserted(s, j, n);
    SortedByValue(target, s);
    forall q | 0 <= q < |s|
      ensures q < j ==> DistanceValue(target, s[q]) <= DistanceValue(target, n)
      ensures j <= q ==> DistanceValue(target, n) <= DistanceValue(target, s[q])
    {
      CloserIsSmaller(target, n, s[q]);
      if q < j { CloserIsSmaller(target, n, s[j - 1]); }
    }
    assert forall p :: 0 <= p < |r| ==> r[p] == if p < j then s[p] else if p == j then n else s[p - 1];
    SortedByValue(target, r);
  }

  /** The two loops that copy every node of every bucket. */
  method GatherNodes(table: Table) returns (nodes: seq<Node>)
    ensures nodes == Gather(table)
  {
    nodes := [];
    var i := 0;
    while i < |table|
      invariant i <= |table| && nodes == Gather(table[..i])
    {
      var bucket := table[i];
      var j := 0;
      while j < |bucket|
        invariant j <= |bucket| && nodes == Gather(table[..i]) + bucket[..j]
      {
        nodes := nodes + [bucket[j]];
        j := j + 1;
      }
      GatherLast(table[..i], bucket);
      assert bucket[..j] == bucket && table[..i + 1] == table[..i] + [bucket];
      i := i + 1;
    }
    assert table[..i] == table;
  }

  method FindClosestNodes(table: Table, target: NodeId, k: nat) returns (closest: seq<Node>)
    ensures IsClosest(table, target, k, closest)
  {
    hide Gather, SortedBy;
    closest := GatherNodes(table);
    var sorted := Sort(target, closest);
    closest := sorted;
    if |closest| > k { closest := closest[..k]; }
    assert IsSorting(target, Gather(table), sorted) && closest == Take(sorted, k);
  }
}

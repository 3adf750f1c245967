/** What adding a node does to the table: the one bucket it changes, what it learns, and what a run of
    additions knows in the end. */
module TableContents {
  import opened Bytes
  import opened Bits
  import opened RoutingTable

  // ----- The bucket, in arithmetic on the two ids -----

  /** The ids differ in binary digit j % 8 of byte j / 8. */
  predicate DigitsDiffer(a: NodeId, b: NodeId, j: nat) {
    j < 160 && a[j / 8] / Pow2(j % 8) % 2 != b[j / 8] / Pow2(j % 8) % 2
  }

  /** The bucket for an id in a table of the given size: as many leading digits differ as its index
      says, and the next does not unless the bucket is new. */
  predicate IsBucketFor(my: NodeId, id: NodeId, size: nat, i: nat) {
    && i <= size && (forall j :: 0 <= j < i ==> DigitsDiffer(my, id, j))
    && (i < size ==> i < 160 && !DigitsDiffer(my, id, i))
  }

  lemma BitOnIsDigitsDiffer(my: NodeId, id: NodeId, j: nat)
    ensures BitOn(Distance(my, id), j) <==> DigitsDiffer(my, id, j)
  {
    if j < 160 {
      assert Distance(my, id)[j / 8] == Xor(my[j / 8], id[j / 8]);
      BitIsDigit(my[j / 8], j % 8);
      BitIsDigit(id[j / 8], j % 8);
    }
  }

  /** The scan ends at a bucket exactly when it is the one for the id. */
  lemma ScanFindsBucket(my: NodeId, id: NodeId, size: nat, i: nat)
    ensures Scan(Distance(my, id), size, 0) == Some(i) <==> IsBucketFor(my, id, size, i)
  {
    hide Distance, DigitsDiffer, Scan;
    var d := Distance(my, id);
    forall j
      ensures BitOn(d, j) <==> DigitsDiffer(my, id, j)
    {
      BitOnIsDigitsDiffer(my, id, j);
    }
    ScanSelects(d, size, 0);
    var k := FirstClear(d, 0);
    assert k < 160 ==> !DigitsDiffer(my, id, k);
    if IsBucketFor(my, id, size, i) {
      assert forall j :: 0 <= j < i ==> BitOn(d, j);
      assert !BitOn(d, k) && !BitOn(d, ID_BITS);
      assert i <= k && (i < size ==> !BitOn(d, i));
    }
  }

  // ----- One addition -----

  /** Every other bucket stays. A new bucket holds the node. Of an old one, a node seen again moves to
      the back; otherwise the node goes to the back where there is room; otherwise the front goes to the
      back if it answers, and gives its place to the node if it does not. */
  lemma AddChangesOneBucket(my: NodeId, t: Table, n: Node, alive: bool, i: nat)
    requires IsBucketFor(my, n.id, |t|, i)
    ensures var after := Add(my, t, n, alive);
            && |after| == (if i == |t| then |t| + 1 else |t|)
            && (forall j :: 0 <= j < |t| && j != i ==> after[j] == t[j])
            && (i == |t| ==> after[i] == [n])
            && (i < |t| ==>
                && (forall front, back :: t[i] == front + [n] + back && n !in front ==> after[i] == front + back + [n])
                && (n !in t[i] && |t[i]| < 8 ==> after[i] == t[i] + [n])
                && (n !in t[i] && |t[i]| >= 8 && alive ==> after[i] == t[i][1..] + [t[i][0]])
                && (n !in t[i] && |t[i]| >= 8 && !alive ==> after[i] == [n] + t[i][1..]))
  {
    SelectedIsBucket(my, t, n.id, i);
    if i < |t| {
      forall front, back | t[i] == front + [n] + back && n !in front
        ensures Add(my, t, n, alive)[i] == front + back + [n]
      {
        SeenAgain(front, back, n, alive);
      }
    }
  }

  lemma SelectedIsBucket(my: NodeId, t: Table, id: NodeId, i: nat)
    requires IsBucketFor(my, id, |t|, i)
    ensures BucketIndex(Distance(my, id), |t|) == i
  {
    ScanFindsBucket(my, id, |t|, i);
    ScanSelects(Distance(my, id), |t|, 0);
  }

  lemma SeenAgain(front: Bucket, back: Bucket, n: Node, alive: bool)
    requires n !in front
    ensures Update(front + [n] + back, n, alive) == front + back + [n]
  {
    var b := front + [n] + back;
    var j := IndexOf(b, n);
    assert b[|front|] == n;
    assert forall p :: 0 <= p < |front| ==> b[p] == front[p] != n;
    assert j <= |front| by { assert forall p :: 0 <= p < j ==> b[..j][p] == b[p] != n; }
    assert b[..j] == front && b[j + 1..] == back;
  }

  lemma BucketInRange(my: NodeId, id: NodeId, size: nat, i: nat)
    requires IsBucketFor(my, id, size, i)
    ensures i <= size
  {
  }

  /** The node is in its bucket afterwards unless the bucket was full without it and its front
      answered; and no node is there that was neither there before nor added. */
  lemma AddLearns(my: NodeId, t: Table, n: Node, alive: bool, i: nat)
    requires IsBucketFor(my, n.id, |t|, i)
    ensures var after := Add(my, t, n, alive);
            && i < |after|
            && (n in after[i] <==> !(i < |t| && n !in t[i] && |t[i]| >= 8 && alive))
            && forall j, m :: 0 <= j < |after| && m in after[j] ==> (j < |t| && m in t[j]) || (j == i && m == n)
  {
    hide Add, IsBucketFor;
    AddChangesOneBucket(my, t, n, alive, i);
    assert i <= |t| by { BucketInRange(my, n.id, |t|, i); }
    if i < |t| && n in t[i] {
      var j := IndexOf(t[i], n);
      assert t[i] == t[i][..j] + [n] + t[i][j + 1..];
    }
  }

  // ----- Runs -----

  /** Every scan of a run stays inside the distance. */
  predicate ScansDefined(my: NodeId, t: Table, steps: seq<Step>)
    decreases |steps|
  {
    |steps| == 0 ||
    (ScanDefined(Distance(my, steps[0].node.id), |t|) &&
     ScansDefined(my, Add(my, t, steps[0].node, steps[0].alive), steps[1..]))
  }

  /** Without the owner's complement every scan of a run does. */
  lemma {:induction false} NoComplementScans(my: NodeId, t: Table, steps: seq<Step>)
    requires Placed(my, t) && |t| <= ID_BITS && NoComplement(my, steps)
    ensures ScansDefined(my, t, steps)
    decreases |steps|
  {
    hide Add, Placed;
    if |steps| > 0 {
      AddKeepsPlaced(my, t, steps[0].node, steps[0].alive);
      ScanUndefinedIff(my, t, steps[0].node);
      NoComplementScans(my, Add(my, t, steps[0].node, steps[0].alive), steps[1..]);
    }
  }

  lemma {:induction false} ScansDefinedAt(my: NodeId, t: Table, steps: seq<Step>, k: nat)
    requires ScansDefined(my, t, steps) && k < |steps|
    ensures ScanDefined(Distance(my, steps[k].node.id), |Run(my, t, steps[..k])|)
    ensures Run(my, t, steps) == Run(my, Run(my, t, steps[..k + 1]), steps[k + 1..])
    ensures Run(my, t, steps[..k + 1]) == Add(my, Run(my, t, steps[..k]), steps[k].node, steps[k].alive)
    decreases |steps|
  {
    hide Add, ScanDefined;
    var u := Add(my, t, steps[0].node, steps[0].alive);
    RunSteps(my, t, steps, k + 1);
    assert steps[1..][..0] == [] && steps[..0] == [];
    if k > 0 {
      RunSteps(my, t, steps, k);
      ScansDefinedAt(my, u, steps[1..], k - 1);
      assert steps[1..][k..] == steps[k + 1..];
    }
  }

  /** The k-th step of a run finds the bucket full without the node and its front alive. */
  predicate Refused(my: NodeId, t: Table, step: Step, i: nat) {
    i < |t| && step.node !in t[i] && |t[i]| >= 8 && step.alive
  }

  /** In every run, a node added at some step is in its bucket at the end unless that step found the
      bucket full without it and its front alive, or a later step replaced the node, at the front of
      the full bucket, after its own ping failed. */
  lemma AddedIsKnown(my: NodeId, t: Table, steps: seq<Step>, k: nat, i: nat)
    requires ScansDefined(my, t, steps) && k < |steps|
    requires IsBucketFor(my, steps[k].node.id, |Run(my, t, steps[..k])|, i)
    ensures i < |Run(my, t, steps)|
    ensures steps[k].node in Run(my, t, steps)[i]
         || Refused(my, Run(my, t, steps[..k]), steps[k], i)
         || exists l :: k < l < |steps| && Evicts(my, Run(my, t, steps[..l]), steps[l], i, steps[k].node)
  {
    hide Add, Evicts, ScansDefined, IsBucketFor;
    var before, n := Run(my, t, steps[..k]), steps[k].node;
    ScansDefinedAt(my, t, steps, k);
    AddLearns(my, before, n, steps[k].alive, i);
    var after, rest := Run(my, t, steps[..k + 1]), steps[k + 1..];
    RunKeepsLength(my, after, rest);
    if n in after[i] {
      LostOnlyByFailedPing(my, after, rest, i, n);
      if n !in Run(my, t, steps)[i] {
        var j :| 0 <= j < |rest| && Evicts(my, Run(my, after, rest[..j]), rest[j], i, n);
        RunFrom(my, t, steps, k + 1, j);
        assert Evicts(my, Run(my, t, steps[..k + 1 + j]), steps[k + 1 + j], i, n);
      }
    }
  }

  lemma {:induction false} RunFrom(my: NodeId, t: Table, steps: seq<Step>, k: nat, j: nat)
    requires k + j <= |steps|
    ensures Run(my, Run(my, t, steps[..k]), steps[k..][..j]) == Run(my, t, steps[..k + j])
    decreases |steps|
  {
    hide Add;
    if k == 0 {
      assert steps[..0] == [] && steps[0..] == steps;
    } else {
      RunSteps(my, t, steps, k);
      RunSteps(my, t, steps, k + j);
      RunFrom(my, Add(my, t, steps[0].node, steps[0].alive), steps[1..], k - 1, j);
      assert steps[1..][k - 1..] == steps[k..];
    }
  }

  /** A table holds no node that was not there at the start or added on the way, and each in a bucket
      that was the one for it. */
  lemma {:induction false} OnlyAddedAreKnown(my: NodeId, t: Table, steps: seq<Step>, j: nat, m: Node)
    requires ScansDefined(my, t, steps) && j < |Run(my, t, steps)| && m in Run(my, t, steps)[j]
    ensures (j < |t| && m in t[j])
         || exists k :: 0 <= k < |steps| && steps[k].node == m
                     && IsBucketFor(my, m.id, |Run(my, t, steps[..k])|, j)
    decreases |steps|
  {
    hide Add, IsBucketFor, Scan;
    if |steps| > 0 {
      var n := steps[0].node;
      var u := Add(my, t, n, steps[0].alive);
      var i := Scan(Distance(my, n.id), |t|, 0).value;
      ScanFindsBucket(my, n.id, |t|, i);
      AddLearns(my, t, n, steps[0].alive, i);
      OnlyAddedAreKnown(my, u, steps[1..], j, m);
      assert steps[..0] == [];
      if j < |u| && m in u[j] {
        if !(j < |t| && m in t[j]) { assert steps[0].node == m && IsBucketFor(my, m.id, |Run(my, t, steps[..0])|, j); }
      } else {
        var k :| 0 <= k < |steps| - 1 && steps[1..][k].node == m
              && IsBucketFor(my, m.id, |Run(my, u, steps[1..][..k])|, j);
        RunSteps(my, t, steps, k + 1);
        assert steps[k + 1].node == m && IsBucketFor(my, m.id, |Run(my, t, steps[..k + 1])|, j);
      }
    }
  }
}

/** ViterbiSearcher.ts: the cheapest path through a lattice. The forward pass gives every
    node, bucket by bucket, the cheapest predecessor among the nodes ending just before it
    starts; the backward pass follows those links from EOS back to BOS. */
module ViterbiSearch {
  import opened Wrappers
  import opened Numbers
  import opened ViterbiNodes
  import opened ViterbiLattices
  import opened ConnectionCostsModel

  /** The connection cost matrix as the search reads it. */
  datatype CostMatrix = CostMatrix(cells: seq<Int16>, backwardDimension: int)

  datatype SearchError =
    | CostFailed(costError: CostError)
    | LatticeFailed(latticeError: LatticeError)

  // ---------------------------------------------------------------------------
  // One node's cheapest predecessor

  /** The cost of joining `q` to `node`: the matrix entry for q's right id and node's left id
      when both exist, 0 otherwise. */
  function EdgeCost(costs: CostMatrix, q: ViterbiNode, node: ViterbiNode): Result<int, CostError> {
    if node.leftId.None? || q.rightId.None? then Ok(0)
    else
      match CostAt(costs.cells, costs.backwardDimension, q.rightId.value, node.leftId.value)
      case Ok(c) => Ok(c)
      case Err(e) => Err(e)
  }

  /** The cost of the best path to `node` through `q`. */
  function CandidateCost(costs: CostMatrix, q: ViterbiNode, node: ViterbiNode): Result<int, CostError> {
    match EdgeCost(costs, q, node)
    case Ok(e) => Ok(q.shortestCost + e + node.cost)
    case Err(e) => Err(e)
  }

  /** The best candidate so far: its slot in the predecessor bucket and its cost. */
  datatype Cheapest = Cheapest(slot: nat, cost: int)

  /** The scan over the predecessors from slot k on: a candidate replaces the best one only
      when strictly cheaper; no best yet stands for Number.MAX_VALUE. */
  function BestFrom(costs: CostMatrix, preds: Bucket, node: ViterbiNode, k: nat, best: Option<Cheapest>): Result<Option<Cheapest>, CostError>
    decreases |preds| - k
  {
    if k >= |preds| then Ok(best)
    else
      match CandidateCost(costs, preds[k], node)
      case Err(e) => Err(e)
      case Ok(c) => BestFrom(costs, preds, node, k + 1, if best.None? || c < best.value.cost then Some(Cheapest(k, c)) else best)
  }

  /** `slot` is the first predecessor of minimal candidate cost, and `cost` that cost. */
  predicate IsCheapest(costs: CostMatrix, preds: Bucket, node: ViterbiNode, slot: nat, cost: int) {
    && slot < |preds|
    && CandidateCost(costs, preds[slot], node) == Ok(cost)
    && (forall k :: 0 <= k < |preds| ==> CandidateCost(costs, preds[k], node).Ok? && cost <= CandidateCost(costs, preds[k], node).value)
    && (forall k :: 0 <= k < slot ==> CandidateCost(costs, preds[k], node).Ok? && cost < CandidateCost(costs, preds[k], node).value)
  }

  /** What the scan has established after slots 0..k-1. */
  predicate BestOfPrefix(costs: CostMatrix, preds: Bucket, node: ViterbiNode, k: nat, best: Option<Cheapest>) {
    && k <= |preds|
    && (best.None? <==> k == 0)
    && (best.Some? ==>
          && best.value.slot < k
          && CandidateCost(costs, preds[best.value.slot], node) == Ok(best.value.cost)
          && (forall m :: 0 <= m < k ==> CandidateCost(costs, preds[m], node).Ok? && best.value.cost <= CandidateCost(costs, preds[m], node).value)
          && (forall m :: 0 <= m < best.value.slot ==> CandidateCost(costs, preds[m], node).Ok? && best.value.cost < CandidateCost(costs, preds[m], node).value))
  }

  lemma {:induction false} BestFromMeaning(costs: CostMatrix, preds: Bucket, node: ViterbiNode, k: nat, best: Option<Cheapest>)
    requires BestOfPrefix(costs, preds, node, k, best)
    ensures BestFrom(costs, preds, node, k, best).Ok? <==> forall m :: k <= m < |preds| ==> CandidateCost(costs, preds[m], node).Ok?
    ensures BestFrom(costs, preds, node, k, best) == Ok(None) <==> |preds| == 0
    ensures BestFrom(costs, preds, node, k, best).Ok? && |preds| > 0 ==>
              BestFrom(costs, preds, node, k, best).value.Some? &&
              IsCheapest(costs, preds, node, BestFrom(costs, preds, node, k, best).value.value.slot, BestFrom(costs, preds, node, k, best).value.value.cost)
    decreases |preds| - k
  {
    if k < |preds| {
      match CandidateCost(costs, preds[k], node)
      case Err(e) =>
      case Ok(c) =>
        var best' := if best.None? || c < best.value.cost then Some(Cheapest(k, c)) else best;
        BestFromMeaning(costs, preds, node, k + 1, best');
    }
  }

  /** The scan from the start picks the first cheapest predecessor, fails exactly when some
      edge cost cannot be read, and finds nothing only in an empty bucket. */
  lemma CheapestPredecessor(costs: CostMatrix, preds: Bucket, node: ViterbiNode)
    ensures BestFrom(costs, preds, node, 0, None).Ok? <==> forall m :: 0 <= m < |preds| ==> CandidateCost(costs, preds[m], node).Ok?
    ensures BestFrom(costs, preds, node, 0, None) == Ok(None) <==> |preds| == 0
    ensures BestFrom(costs, preds, node, 0, None).Ok? && |preds| > 0 ==>
              BestFrom(costs, preds, node, 0, None).value.Some? &&
              IsCheapest(costs, preds, node, BestFrom(costs, preds, node, 0, None).value.value.slot, BestFrom(costs, preds, node, 0, None).value.value.cost)
  {
    BestFromMeaning(costs, preds, node, 0, None);
  }

  /** The first cheapest predecessor is unique, so IsCheapest pins down the scan's answer. */
  lemma CheapestIsUnique(costs: CostMatrix, preds: Bucket, node: ViterbiNode, s1: nat, c1: int, s2: nat, c2: int)
    requires IsCheapest(costs, preds, node, s1, c1) && IsCheapest(costs, preds, node, s2, c2)
    ensures s1 == s2 && c1 == c2
  {
    assert CandidateCost(costs, preds[s1], node).value == c1;
    assert CandidateCost(costs, preds[s2], node).value == c2;
  }

  /** Two nodes that differ only in the fields the search writes. */
  predicate SameWord(n: ViterbiNode, m: ViterbiNode) {
    n.(shortestCost := 0, prev := None) == m.(shortestCost := 0, prev := None)
  }

  lemma CheapestIgnoresSearchFields(costs: CostMatrix, preds: Bucket, node: ViterbiNode, node': ViterbiNode, slot: nat, cost: int)
    requires SameWord(node, node') && IsCheapest(costs, preds, node, slot, cost)
    ensures IsCheapest(costs, preds, node', slot, cost)
  {
    assert node.leftId == node'.leftId && node.cost == node'.cost;
    forall q: ViterbiNode ensures CandidateCost(costs, q, node) == CandidateCost(costs, q, node') {
    }
  }

  // ---------------------------------------------------------------------------
  // The forward pass

  /** Same buckets present, with the same number of nodes each. */
  predicate SameShape(b: Buckets, b': Buckets) {
    && |b| == |b'|
    && forall i :: 0 <= i < |b| ==> (b[i].Some? <==> b'[i].Some?) && (b[i].Some? ==> |b[i].value| == |b'[i].value|)
  }

  /** Replace the node at r. */
  function SetNode(b: Buckets, r: NodeRef, n: ViterbiNode): (b': Buckets)
    requires ValidRef(b, r)
    ensures SameShape(b, b') && NodeAt(b', r) == n
    ensures forall r' :: ValidRef(b, r') && r' != r ==> NodeAt(b', r') == NodeAt(b, r')
    ensures forall i :: 0 <= i < |b| && i != r.bucket ==> b'[i] == b[i]
  {
    b[r.bucket := Some(b[r.bucket].value[r.slot := n])]
  }

  /** Resolve the node at r: the cheapest predecessor in bucket startPosition - 1 becomes its
      prev, and that path's cost its shortest cost. A missing predecessor bucket (and, beyond
      the source, an empty one) leaves the node as it is. */
  function Relax(costs: CostMatrix, b: Buckets, r: NodeRef): (res: Result<Buckets, CostError>)
    requires ValidRef(b, r)
    ensures res.Ok? ==> SameShape(b, res.value)
  {
    var node := NodeAt(b, r);
    var p := node.startPosition - 1;
    if p < 0 || p >= |b| || b[p].None? then Ok(b)
    else
      match BestFrom(costs, b[p].value, node, 0, None)
      case Err(e) => Err(e)
      case Ok(None) => Ok(b)
      case Ok(Some(c)) => Ok(SetNode(b, r, node.(shortestCost := c.cost, prev := Some(NodeRef(p, c.slot)))))
  }

  /** The forward pass from bucket i, slot j on: buckets up to the end of statement in
      increasing order, slots in bucket order; missing buckets are skipped. */
  function ForwardFrom(costs: CostMatrix, b: Buckets, eos: int, i: nat, j: nat): Result<Buckets, CostError>
    decreases eos + 1 - i, if i < |b| && b[i].Some? then |b[i].value| - j else 0
  {
    if i > eos then Ok(b)
    else if i >= |b| || b[i].None? || j >= |b[i].value| then ForwardFrom(costs, b, eos, i + 1, 0)
    else
      match Relax(costs, b, NodeRef(i, j))
      case Err(e) => Err(e)
      case Ok(b1) => ForwardFrom(costs, b1, eos, i, j + 1)
  }

  function ForwardPass(costs: CostMatrix, st: LatticeState): Result<Buckets, CostError> {
    ForwardFrom(costs, st.nodesEndAt, st.endOfStatementPosition, 1, 0)
  }

  /** Positions the forward pass from (i, j) does not visit. */
  predicate Settled(r: NodeRef, eos: int, i: nat, j: nat) {
    r.bucket < i || (r.bucket == i && r.slot < j) || r.bucket > eos
  }

  lemma SameShapeRefs(b: Buckets, b': Buckets, r: NodeRef)
    requires SameShape(b, b')
    ensures ValidRef(b, r) <==> ValidRef(b', r)
  {
    if r.bucket < |b| {
    }
  }

  lemma SameShapeTransitive(b: Buckets, b1: Buckets, b2: Buckets)
    requires SameShape(b, b1) && SameShape(b1, b2)
    ensures SameShape(b, b2)
  {
  }

  /** The forward pass keeps every bucket's shape and every node's word fields, and leaves
      the positions it does not visit exactly as they were. */
  lemma {:induction false} ForwardFrame(costs: CostMatrix, b: Buckets, eos: int, i: nat, j: nat)
    requires ForwardFrom(costs, b, eos, i, j).Ok?
    ensures SameShape(b, ForwardFrom(costs, b, eos, i, j).value)
    ensures forall r :: ValidRef(b, r) && ValidRef(ForwardFrom(costs, b, eos, i, j).value, r) ==>
              SameWord(NodeAt(b, r), NodeAt(ForwardFrom(costs, b, eos, i, j).value, r))
    ensures forall r :: ValidRef(b, r) && ValidRef(ForwardFrom(costs, b, eos, i, j).value, r) && Settled(r, eos, i, j) ==>
              NodeAt(ForwardFrom(costs, b, eos, i, j).value, r) == NodeAt(b, r)
    decreases eos + 1 - i, if i < |b| && b[i].Some? then |b[i].value| - j else 0
  {
    var b' := ForwardFrom(costs, b, eos, i, j).value;
    if i > eos {
    } else if i >= |b| || b[i].None? || j >= |b[i].value| {
      ForwardFrame(costs, b, eos, i + 1, 0);
      forall r | ValidRef(b, r) && ValidRef(b', r) && Settled(r, eos, i, j)
        ensures NodeAt(b', r) == NodeAt(b, r)
      {
        assert Settled(r, eos, i + 1, 0);
      }
    } else {
      var r0 := NodeRef(i, j);
      var b1 := Relax(costs, b, r0).value;
      ForwardFrame(costs, b1, eos, i, j + 1);
      SameShapeTransitive(b, b1, b');
      forall r | ValidRef(b, r) && ValidRef(b', r)
        ensures SameWord(NodeAt(b, r), NodeAt(b', r))
        ensures Settled(r, eos, i, j) ==> NodeAt(b', r) == NodeAt(b, r)
      {
        SameShapeRefs(b, b1, r);
        RelaxFrame(costs, b, r0, r);
        if Settled(r, eos, i, j) {
          assert Settled(r, eos, i, j + 1);
        }
      }
    }
  }

  /** Relax changes the node it resolves in its search fields only, and no other node. */
  lemma RelaxFrame(costs: CostMatrix, b: Buckets, r0: NodeRef, r: NodeRef)
    requires ValidRef(b, r0) && Relax(costs, b, r0).Ok? && ValidRef(b, r)
    ensures ValidRef(Relax(costs, b, r0).value, r)
    ensures SameWord(NodeAt(b, r), NodeAt(Relax(costs, b, r0).value, r))
    ensures r != r0 ==> NodeAt(Relax(costs, b, r0).value, r) == NodeAt(b, r)
  {
    SameShapeRefs(b, Relax(costs, b, r0).value, r);
  }

  lemma PredecessorsEarlierKept(b: Buckets, b': Buckets)
    requires PredecessorsEarlier(b) && SameShape(b, b')
    requires forall r :: ValidRef(b, r) && ValidRef(b', r) ==> SameWord(NodeAt(b, r), NodeAt(b', r))
    ensures PredecessorsEarlier(b')
  {
    forall i, s | 1 <= i < |b'| && b'[i].Some? && 0 <= s < |b'[i].value|
      ensures b'[i].value[s].startPosition - 1 < i
    {
      var r := NodeRef(i, s);
      assert ValidRef(b, r) && ValidRef(b', r);
      assert SameWord(NodeAt(b, r), NodeAt(b', r));
    }
  }

  /** After the search, node r's shortest cost and prev are the first cheapest way in from
      the bucket it starts after (when that bucket exists and has nodes). */
  predicate Bellman(costs: CostMatrix, b: Buckets, r: NodeRef)
    requires ValidRef(b, r)
  {
    var node := NodeAt(b, r);
    var p := node.startPosition - 1;
    HasPredecessors(b, r) ==>
      && node.prev.Some? && node.prev.value.bucket == p
      && IsCheapest(costs, b[p].value, node, node.prev.value.slot, node.shortestCost)
  }

  /** The bucket node r takes its predecessors from does not exist. */
  predicate PredecessorBucketMissing(b: Buckets, r: NodeRef)
    requires ValidRef(b, r)
  {
    var p := NodeAt(b, r).startPosition - 1;
    p < 0 || p >= |b| || b[p].None?
  }

  /** The bucket node r takes its predecessors from exists and has a node. */
  predicate HasPredecessors(b: Buckets, r: NodeRef)
    requires ValidRef(b, r)
  {
    var p := NodeAt(b, r).startPosition - 1;
    0 <= p < |b| && b[p].Some? && |b[p].value| > 0
  }

  lemma BucketKept(b: Buckets, b': Buckets, p: nat)
    requires SameShape(b, b') && p < |b| && b[p].Some?
    requires forall r :: ValidRef(b, r) && ValidRef(b', r) && r.bucket == p ==> NodeAt(b', r) == NodeAt(b, r)
    ensures b'[p] == b[p]
  {
    forall s | 0 <= s < |b[p].value| ensures b'[p].value[s] == b[p].value[s] {
      assert ValidRef(b, NodeRef(p, s)) && ValidRef(b', NodeRef(p, s));
    }
    assert b'[p].value == b[p].value;
  }

  /** Every position the forward pass from (i, j) visits ends up satisfying Bellman's
      equation in the final lattice, provided words follow their predecessors. */
  lemma {:induction false} ForwardFromBellman(costs: CostMatrix, b: Buckets, eos: int, i: nat, j: nat)
    requires PredecessorsEarlier(b)
    requires ForwardFrom(costs, b, eos, i, j).Ok?
    ensures forall r :: ValidRef(ForwardFrom(costs, b, eos, i, j).value, r) && 1 <= r.bucket && !Settled(r, eos, i, j) ==>
              Bellman(costs, ForwardFrom(costs, b, eos, i, j).value, r)
    decreases eos + 1 - i, if i < |b| && b[i].Some? then |b[i].value| - j else 0
  {
    var b' := ForwardFrom(costs, b, eos, i, j).value;
    if i > eos {
    } else if i >= |b| || b[i].None? || j >= |b[i].value| {
      ForwardFromBellman(costs, b, eos, i + 1, 0);
      ForwardFrame(costs, b, eos, i + 1, 0);
      forall r | ValidRef(b', r) && 1 <= r.bucket && !Settled(r, eos, i, j)
        ensures Bellman(costs, b', r)
      {
        SameShapeRefs(b, b', r);
        assert !Settled(r, eos, i + 1, 0);
      }
    } else {
      var r0 := NodeRef(i, j);
      var b1 := Relax(costs, b, r0).value;
      forall r | ValidRef(b, r) && ValidRef(b1, r) ensures SameWord(NodeAt(b, r), NodeAt(b1, r)) {
        RelaxFrame(costs, b, r0, r);
      }
      PredecessorsEarlierKept(b, b1);
      ForwardFromBellman(costs, b1, eos, i, j + 1);
      ForwardFrame(costs, b1, eos, i, j + 1);
      forall r | ValidRef(b', r) && 1 <= r.bucket && !Settled(r, eos, i, j)
        ensures Bellman(costs, b', r)
      {
        if r == r0 {
          SameShapeRefs(b1, b', r0);
          SameShapeRefs(b, b1, r0);
          RelaxedNodeBellman(costs, b, r0, b1, b');
        } else {
          assert !Settled(r, eos, i, j + 1);
        }
      }
    }
  }

  /** The node Relax has just resolved keeps Bellman's equation through the rest of the pass,
      which touches neither it nor the earlier bucket it reads. */
  lemma RelaxedNodeBellman(costs: CostMatrix, b: Buckets, r0: NodeRef, b1: Buckets, b': Buckets)
    requires ValidRef(b, r0) && r0.bucket >= 1 && PredecessorsEarlier(b)
    requires Relax(costs, b, r0) == Ok(b1)
    requires SameShape(b1, b') && ValidRef(b1, r0) && ValidRef(b', r0)
    requires forall r :: ValidRef(b1, r) && ValidRef(b', r) && (r.bucket < r0.bucket || r == r0) ==> NodeAt(b', r) == NodeAt(b1, r)
    ensures Bellman(costs, b', r0)
  {
    var node := NodeAt(b, r0);
    var p := node.startPosition - 1;
    assert p < r0.bucket by {
      assert b[r0.bucket].value[r0.slot] == node;
    }
    RelaxFrame(costs, b, r0, r0);
    var node' := NodeAt(b', r0);
    assert node' == NodeAt(b1, r0);
    if 0 <= p < |b| && b[p].Some? {
      assert b1[p] == b[p];
      forall r | ValidRef(b1, r) && ValidRef(b', r) && r.bucket == p ensures NodeAt(b', r) == NodeAt(b1, r) {
      }
      BucketKept(b1, b', p);
      CheapestPredecessor(costs, b[p].value, node);
      if |b[p].value| > 0 {
        var c := BestFrom(costs, b[p].value, node, 0, None).value.value;
        CheapestIgnoresSearchFields(costs, b[p].value, node, node', c.slot, c.cost);
      }
    }
  }

  /** The forward pass over a lattice whose words follow their predecessors: every node in
      buckets 1..end of statement satisfies Bellman's equation afterwards, every node keeps
      its word fields, and the buckets keep their shape. */
  lemma ForwardSatisfiesBellman(costs: CostMatrix, st: LatticeState)
    requires PredecessorsEarlier(st.nodesEndAt) && ForwardPass(costs, st).Ok?
    ensures SameShape(st.nodesEndAt, ForwardPass(costs, st).value)
    ensures forall r :: ValidRef(st.nodesEndAt, r) && ValidRef(ForwardPass(costs, st).value, r) ==>
              SameWord(NodeAt(st.nodesEndAt, r), NodeAt(ForwardPass(costs, st).value, r))
    ensures forall r :: ValidRef(ForwardPass(costs, st).value, r) && 1 <= r.bucket <= st.endOfStatementPosition ==>
              Bellman(costs, ForwardPass(costs, st).value, r)
  {
    ForwardFrame(costs, st.nodesEndAt, st.endOfStatementPosition, 1, 0);
    ForwardFromBellman(costs, st.nodesEndAt, st.endOfStatementPosition, 1, 0);
  }

  /** A node whose predecessor bucket is missing is skipped: the pass from (i, j) leaves it
      exactly as it was. */
  lemma {:induction false} ForwardFromSkipsOrphans(costs: CostMatrix, b: Buckets, eos: int, i: nat, j: nat)
    requires ForwardFrom(costs, b, eos, i, j).Ok?
    ensures forall r :: ValidRef(b, r) && PredecessorBucketMissing(b, r) ==>
              ValidRef(ForwardFrom(costs, b, eos, i, j).value, r) && NodeAt(ForwardFrom(costs, b, eos, i, j).value, r) == NodeAt(b, r)
    decreases eos + 1 - i, if i < |b| && b[i].Some? then |b[i].value| - j else 0
  {
    if i > eos {
    } else if i >= |b| || b[i].None? || j >= |b[i].value| {
      ForwardFromSkipsOrphans(costs, b, eos, i + 1, 0);
    } else {
      var r0 := NodeRef(i, j);
      var b1 := Relax(costs, b, r0).value;
      ForwardFromSkipsOrphans(costs, b1, eos, i, j + 1);
      forall r | ValidRef(b, r) && PredecessorBucketMissing(b, r)
        ensures ValidRef(b1, r) && NodeAt(b1, r) == NodeAt(b, r) && PredecessorBucketMissing(b1, r)
      {
        RelaxFrame(costs, b, r0, r);
      }
    }
  }

  /** The forward pass leaves a node unchanged when the bucket it takes its predecessors from
      is missing. */
  lemma ForwardSkipsOrphans(costs: CostMatrix, st: LatticeState, r: NodeRef)
    requires ForwardPass(costs, st).Ok?
    requires ValidRef(st.nodesEndAt, r) && PredecessorBucketMissing(st.nodesEndAt, r)
    ensures ValidRef(ForwardPass(costs, st).value, r)
    ensures NodeAt(ForwardPass(costs, st).value, r) == NodeAt(st.nodesEndAt, r)
  {
    ForwardFromSkipsOrphans(costs, st.nodesEndAt, st.endOfStatementPosition, 1, 0);
  }

  // ---------------------------------------------------------------------------
  // Links

  /** Every prev link names an existing node in an earlier bucket. */
  ghost predicate LinksBackward(b: Buckets) {
    forall r :: ValidRef(b, r) && NodeAt(b, r).prev.Some? ==>
      ValidRef(b, NodeAt(b, r).prev.value) && NodeAt(b, r).prev.value.bucket < r.bucket
  }

  lemma UnlinkedLinksBackward(b: Buckets)
    requires Unlinked(b)
    ensures LinksBackward(b)
  {
  }

  /** The forward pass only links a node to an earlier bucket, when words follow their
      predecessors. */
  lemma {:induction false} ForwardFromLinksBackward(costs: CostMatrix, b: Buckets, eos: int, i: nat, j: nat)
    requires 1 <= i && PredecessorsEarlier(b) && LinksBackward(b)
    requires ForwardFrom(costs, b, eos, i, j).Ok?
    ensures LinksBackward(ForwardFrom(costs, b, eos, i, j).value)
    decreases eos + 1 - i, if i < |b| && b[i].Some? then |b[i].value| - j else 0
  {
    if i > eos {
    } else if i >= |b| || b[i].None? || j >= |b[i].value| {
      ForwardFromLinksBackward(costs, b, eos, i + 1, 0);
    } else {
      var r0 := NodeRef(i, j);
      var b1 := Relax(costs, b, r0).value;
      forall r | ValidRef(b, r) && ValidRef(b1, r) ensures SameWord(NodeAt(b, r), NodeAt(b1, r)) {
        RelaxFrame(costs, b, r0, r);
      }
      PredecessorsEarlierKept(b, b1);
      forall r | ValidRef(b1, r) && NodeAt(b1, r).prev.Some?
        ensures ValidRef(b1, NodeAt(b1, r).prev.value) && NodeAt(b1, r).prev.value.bucket < r.bucket
      {
        SameShapeRefs(b, b1, r);
        RelaxFrame(costs, b, r0, r);
        var link := NodeAt(b1, r).prev.value;
        if r == r0 && NodeAt(b1, r) != NodeAt(b, r) {
          var node := NodeAt(b, r0);
          assert b[r0.bucket].value[r0.slot] == node;
          CheapestPredecessor(costs, b[node.startPosition - 1].value, node);
          SameShapeRefs(b, b1, link);
        } else {
          SameShapeRefs(b, b1, link);
        }
      }
      ForwardFromLinksBackward(costs, b1, eos, i, j + 1);
    }
  }

  // ---------------------------------------------------------------------------
  // The backward pass

  /** The path that the prev links spell out from r back to (not including) a BOS node,
      in left-to-right order; None when a link is missing on the way. */
  function PathTo(b: Buckets, r: NodeRef): Option<seq<ViterbiNode>>
    requires LinksBackward(b) && ValidRef(b, r)
    decreases r.bucket
  {
    var node := NodeAt(b, r);
    if node.nodeType == BOS then Some([])
    else if node.prev.None? then None
    else
      match PathTo(b, node.prev.value)
      case None => None
      case Some(path) => Some(path + [node])
  }

  /** `backward`: the path ending at EOS's predecessor, or no path when a link is missing. */
  function BackwardPath(b: Buckets): Result<seq<ViterbiNode>, LatticeError>
    requires LinksBackward(b)
  {
    match LastNode(b)
    case Err(e) => Err(e)
    case Ok(eos) =>
      assert ValidRef(b, NodeRef(|b| - 1, 0));
      if eos.prev.None? then Ok([])
      else
        match PathTo(b, eos.prev.value)
        case None => Ok([])
        case Some(path) => Ok(path)
  }

  /** The path is the chain of prev links: no BOS in it, each node's prev is the node before
      it, the first node's prev is a BOS node, and the last node is the one at r. */
  lemma {:induction false} PathToIsPrevChain(b: Buckets, r: NodeRef)
    requires LinksBackward(b) && ValidRef(b, r) && PathTo(b, r).Some?
    ensures var path := PathTo(b, r).value;
      && (forall k :: 0 <= k < |path| ==> path[k].nodeType != BOS)
      && (forall k :: 0 < k < |path| ==> path[k].prev.Some? && ValidRef(b, path[k].prev.value) && NodeAt(b, path[k].prev.value) == path[k - 1])
      && (|path| > 0 ==> path[|path| - 1] == NodeAt(b, r))
      && (|path| > 0 ==> path[0].prev.Some? && ValidRef(b, path[0].prev.value) && NodeAt(b, path[0].prev.value).nodeType == BOS)
      && (|path| == 0 <==> NodeAt(b, r).nodeType == BOS)
    decreases r.bucket
  {
    var node := NodeAt(b, r);
    if node.nodeType != BOS {
      var link := node.prev.value;
      PathToIsPrevChain(b, link);
      var prefix := PathTo(b, link).value;
      var path := prefix + [node];
      assert PathTo(b, r).value == path;
      if |prefix| > 0 {
        assert path[|prefix| - 1] == NodeAt(b, link);
      }
    }
  }

  function Reversed<T>(s: seq<T>): (r: seq<T>)
    ensures |r| == |s| && forall k :: 0 <= k < |s| ==> r[k] == s[|s| - 1 - k]
  {
    if |s| == 0 then [] else [s[|s| - 1]] + Reversed(s[..|s| - 1])
  }

  // ---------------------------------------------------------------------------
  // The cheapest path

  /** A chain of nodes from BOS through predecessor buckets: it starts at BOS's address and
      every later node starts right after the position its predecessor's bucket ends at. */
  ghost predicate IsChain(b: Buckets, refs: seq<NodeRef>) {
    && |refs| >= 1 && refs[0] == NodeRef(0, 0)
    && (forall k :: 0 <= k < |refs| ==> ValidRef(b, refs[k]))
    && (forall k :: 1 <= k < |refs| ==> ValidRef(b, refs[k]) && NodeAt(b, refs[k]).startPosition - 1 == refs[k - 1].bucket)
  }

  /** The total cost of a chain: the word cost of every node after the first plus the
      connection cost of every edge; the first node, BOS, adds nothing. */
  function ChainCost(costs: CostMatrix, b: Buckets, refs: seq<NodeRef>): Result<int, CostError>
    requires |refs| >= 1 && forall k :: 0 <= k < |refs| ==> ValidRef(b, refs[k])
    decreases |refs|
  {
    if |refs| == 1 then Ok(0)
    else
      var node := NodeAt(b, refs[|refs| - 1]);
      match ChainCost(costs, b, refs[..|refs| - 1])
      case Err(e) => Err(e)
      case Ok(c) =>
        match EdgeCost(costs, NodeAt(b, refs[|refs| - 2]), node)
        case Err(e) => Err(e)
        case Ok(edge) => Ok(c + edge + node.cost)
  }

  function NodesOf(b: Buckets, refs: seq<NodeRef>): (nodes: seq<ViterbiNode>)
    requires forall k :: 0 <= k < |refs| ==> ValidRef(b, refs[k])
    ensures |nodes| == |refs| && forall k :: 0 <= k < |refs| ==> nodes[k] == NodeAt(b, refs[k])
  {
    if |refs| == 0 then [] else NodesOf(b, refs[..|refs| - 1]) + [NodeAt(b, refs[|refs| - 1])]
  }

  /** The addresses the prev links spell out from r back to a BOS node, that node first and
      r last; None when a link is missing on the way. */
  function PrevChain(b: Buckets, r: NodeRef): Option<seq<NodeRef>>
    requires LinksBackward(b) && ValidRef(b, r)
    decreases r.bucket
  {
    var node := NodeAt(b, r);
    if node.nodeType == BOS then Some([r])
    else if node.prev.None? then None
    else
      match PrevChain(b, node.prev.value)
      case None => None
      case Some(refs) => Some(refs + [r])
  }

  lemma {:induction false} PrevChainShape(b: Buckets, r: NodeRef)
    requires LinksBackward(b) && ValidRef(b, r) && PrevChain(b, r).Some?
    ensures var refs := PrevChain(b, r).value;
      |refs| >= 1 && refs[|refs| - 1] == r && forall k :: 0 <= k < |refs| ==> ValidRef(b, refs[k])
    decreases r.bucket
  {
    var node := NodeAt(b, r);
    if node.nodeType != BOS {
      PrevChainShape(b, node.prev.value);
    }
  }

  /** PathTo is PrevChain without its BOS node. */
  lemma {:induction false} PrevChainSpellsPath(b: Buckets, r: NodeRef)
    requires LinksBackward(b) && ValidRef(b, r)
    ensures PathTo(b, r).Some? <==> PrevChain(b, r).Some?
    ensures PrevChain(b, r).Some? ==>
      var refs := PrevChain(b, r).value; var path := PathTo(b, r).value;
      && |refs| >= 1 && (forall k :: 0 <= k < |refs| ==> ValidRef(b, refs[k]))
      && |path| == |refs| - 1 && forall k :: 0 <= k < |path| ==> path[k] == NodeAt(b, refs[k + 1])
    decreases r.bucket
  {
    var node := NodeAt(b, r);
    if node.nodeType != BOS && node.prev.Some? {
      var q := node.prev.value;
      PrevChainSpellsPath(b, q);
      if PrevChain(b, q).Some? {
        PrevChainShape(b, r);
      }
    }
  }

  /** What the forward pass establishes in a lattice ready for the search: BOS alone in
      bucket 0 at cost 0, Bellman's equation for every later node, and a prev link only where
      the node has predecessors. */
  ghost predicate Searched(costs: CostMatrix, b: Buckets) {
    && WordsAfterBos(b)
    && (forall r :: ValidRef(b, r) && 1 <= r.bucket ==> Bellman(costs, b, r))
    && (forall r :: ValidRef(b, r) && NodeAt(b, r).prev.Some? ==> HasPredecessors(b, r))
  }

  lemma ForwardSearched(costs: CostMatrix, st: LatticeState)
    requires Closed(st) && ForwardPass(costs, st).Ok?
    ensures Searched(costs, ForwardPass(costs, st).value)
    ensures LinksBackward(ForwardPass(costs, st).value)
    ensures |ForwardPass(costs, st).value| == |st.nodesEndAt|
    ensures ValidRef(ForwardPass(costs, st).value, NodeRef(st.endOfStatementPosition, 0))
    ensures NodeAt(ForwardPass(costs, st).value, NodeRef(st.endOfStatementPosition, 0)).nodeType == EOS
  {
    var b, b' := st.nodesEndAt, ForwardPass(costs, st).value;
    ForwardSatisfiesBellman(costs, st);
    ForwardFrame(costs, b, st.endOfStatementPosition, 1, 0);
    UnlinkedLinksBackward(b);
    ForwardFromLinksBackward(costs, b, st.endOfStatementPosition, 1, 0);
    forall r | ValidRef(b, r) && ValidRef(b', r) && r.bucket == 0 ensures NodeAt(b', r) == NodeAt(b, r) {
      assert Settled(r, st.endOfStatementPosition, 1, 0);
    }
    BucketKept(b, b', 0);
    forall i, s | 1 <= i < |b'| && b'[i].Some? && 0 <= s < |b'[i].value| ensures b'[i].value[s].nodeType != BOS {
      SameShapeRefs(b, b', NodeRef(i, s));
    }
    forall r | ValidRef(b', r) && NodeAt(b', r).prev.Some? ensures HasPredecessors(b', r) {
      SameShapeRefs(b, b', r);
      if PredecessorBucketMissing(b, r) {
        ForwardSkipsOrphans(costs, st, r);
      }
    }
    var eos := NodeRef(st.endOfStatementPosition, 0);
    SameShapeRefs(b, b', eos);
    assert SameWord(NodeAt(b, eos), NodeAt(b', eos));
  }

  /** No chain from BOS to r costs less than r's shortest cost. */
  lemma {:induction false} ChainCostBound(costs: CostMatrix, b: Buckets, refs: seq<NodeRef>)
    requires Searched(costs, b) && IsChain(b, refs)
    ensures ChainCost(costs, b, refs).Ok?
    ensures NodeAt(b, refs[|refs| - 1]).shortestCost <= ChainCost(costs, b, refs).value
    decreases |refs|
  {
    if |refs| > 1 {
      var prefix, r := refs[..|refs| - 1], refs[|refs| - 1];
      ChainPrefix(b, refs);
      ChainCostBound(costs, b, prefix);
      ChainStepBound(costs, b, prefix, r);
    }
  }

  lemma ChainPrefix(b: Buckets, refs: seq<NodeRef>)
    requires IsChain(b, refs) && |refs| > 1
    ensures IsChain(b, refs[..|refs| - 1])
    ensures refs[..|refs| - 1] + [refs[|refs| - 1]] == refs
    ensures NodeAt(b, refs[|refs| - 1]).startPosition - 1 == refs[..|refs| - 1][|refs| - 2].bucket
  {
  }

  /** The bound carries over from a chain to the chain extended by one node. */
  lemma ChainStepBound(costs: CostMatrix, b: Buckets, refs: seq<NodeRef>, r: NodeRef)
    requires Searched(costs, b) && IsChain(b, refs) && ValidRef(b, r)
    requires NodeAt(b, r).startPosition - 1 == refs[|refs| - 1].bucket
    requires ChainCost(costs, b, refs).Ok? && NodeAt(b, refs[|refs| - 1]).shortestCost <= ChainCost(costs, b, refs).value
    ensures ChainCost(costs, b, refs + [r]).Ok?
    ensures NodeAt(b, r).shortestCost <= ChainCost(costs, b, refs + [r]).value
  {
    BelowEveryCandidate(costs, b, r, refs[|refs| - 1]);
    ChainSnoc(costs, b, refs, r);
  }

  /** In a searched lattice a node's shortest cost is at most the cost through any node of
      its predecessor bucket. */
  lemma BelowEveryCandidate(costs: CostMatrix, b: Buckets, r: NodeRef, q: NodeRef)
    requires Searched(costs, b) && ValidRef(b, r) && ValidRef(b, q) && q.bucket == NodeAt(b, r).startPosition - 1
    ensures EdgeCost(costs, NodeAt(b, q), NodeAt(b, r)).Ok?
    ensures NodeAt(b, r).shortestCost <= NodeAt(b, q).shortestCost + EdgeCost(costs, NodeAt(b, q), NodeAt(b, r)).value + NodeAt(b, r).cost
  {
    assert r.bucket != 0;
    assert HasPredecessors(b, r) && Bellman(costs, b, r);
    assert b[q.bucket].value[q.slot] == NodeAt(b, q);
  }

  /** A chain followed by a node starting right after its last node's bucket is a chain, and
      costs the chain's cost plus the joining edge and the node's word cost. */
  lemma ChainSnoc(costs: CostMatrix, b: Buckets, refs: seq<NodeRef>, r: NodeRef)
    requires IsChain(b, refs) && ValidRef(b, r) && NodeAt(b, r).startPosition - 1 == refs[|refs| - 1].bucket
    ensures IsChain(b, refs + [r])
    ensures ChainCost(costs, b, refs + [r]) ==
      match ChainCost(costs, b, refs)
      case Err(e) => Err(e)
      case Ok(c) =>
        match EdgeCost(costs, NodeAt(b, refs[|refs| - 1]), NodeAt(b, r))
        case Err(e) => Err(e)
        case Ok(edge) => Ok(c + edge + NodeAt(b, r).cost)
  {
    assert (refs + [r])[..|refs|] == refs;
  }

  /** A node the prev links lead back to BOS from has, as its shortest cost, the cost of the
      chain they spell. */
  lemma {:induction false} PrevChainCost(costs: CostMatrix, b: Buckets, r: NodeRef)
    requires Searched(costs, b) && LinksBackward(b) && ValidRef(b, r) && PrevChain(b, r).Some?
    ensures IsChain(b, PrevChain(b, r).value)
    ensures ChainCost(costs, b, PrevChain(b, r).value) == Ok(NodeAt(b, r).shortestCost)
    decreases r.bucket
  {
    var node := NodeAt(b, r);
    if node.nodeType == BOS {
      assert r.bucket == 0;
    } else {
      var q := node.prev.value;
      PrevChainCost(costs, b, q);
      PrevChainShape(b, q);
      PrevIsCheapest(costs, b, r);
      ChainSnoc(costs, b, PrevChain(b, q).value, r);
    }
  }

  /** In a searched lattice a node's prev link is its cheapest way in: the predecessor ends
      right before the node starts, and the node's shortest cost is the predecessor's plus the
      edge and the node's word cost. */
  lemma PrevIsCheapest(costs: CostMatrix, b: Buckets, r: NodeRef)
    requires Searched(costs, b) && ValidRef(b, r) && NodeAt(b, r).prev.Some?
    ensures var node := NodeAt(b, r); var q := node.prev.value;
      && ValidRef(b, q) && q.bucket == node.startPosition - 1
      && EdgeCost(costs, NodeAt(b, q), node).Ok?
      && node.shortestCost == NodeAt(b, q).shortestCost + EdgeCost(costs, NodeAt(b, q), node).value + node.cost
  {
    var q := NodeAt(b, r).prev.value;
    assert r.bucket != 0;
    assert HasPredecessors(b, r) && Bellman(costs, b, r);
    assert b[q.bucket].value[q.slot] == NodeAt(b, q);
  }

  /** When every word has a word (or BOS) ending right before it, the prev links lead back to
      BOS from every node. */
  lemma {:induction false} ConnectedReachesBos(costs: CostMatrix, b: Buckets, r: NodeRef)
    requires Searched(costs, b) && LinksBackward(b) && ValidRef(b, r)
    requires forall r' :: ValidRef(b, r') && 1 <= r'.bucket ==> HasPredecessors(b, r')
    ensures PrevChain(b, r).Some?
    decreases r.bucket
  {
    if r.bucket != 0 {
      assert Bellman(costs, b, r);
      ConnectedReachesBos(costs, b, NodeAt(b, r).prev.value);
    }
  }

  /** In a searched lattice whose last bucket starts with EOS, when the prev links lead from
      EOS back to BOS: backward returns the chain's nodes between BOS and EOS, the chain costs
      exactly EOS's shortest cost, and no chain from BOS to EOS costs less. */
  lemma {:induction false} BackwardPathIsCheapest(costs: CostMatrix, b: Buckets)
    requires Searched(costs, b) && LinksBackward(b) && |b| >= 2
    requires ValidRef(b, NodeRef(|b| - 1, 0)) && PrevChain(b, NodeRef(|b| - 1, 0)).Some?
    ensures var eos := NodeRef(|b| - 1, 0); var refs := PrevChain(b, eos).value;
      && IsChain(b, refs) && |refs| >= 2 && refs[|refs| - 1] == eos
      && BackwardPath(b) == Ok(NodesOf(b, refs[1..|refs| - 1]))
      && ChainCost(costs, b, refs) == Ok(NodeAt(b, eos).shortestCost)
      && (forall other :: IsChain(b, other) && other[|other| - 1] == eos ==>
            ChainCost(costs, b, other).Ok? && NodeAt(b, eos).shortestCost <= ChainCost(costs, b, other).value)
  {
    var eos := NodeRef(|b| - 1, 0);
    PrevChainCost(costs, b, eos);
    assert NodeAt(b, eos).nodeType != BOS;
    BackwardSpellsPrevChain(b);
    forall other | IsChain(b, other) && other[|other| - 1] == eos
      ensures ChainCost(costs, b, other).Ok? && NodeAt(b, eos).shortestCost <= ChainCost(costs, b, other).value
    {
      ChainCostBound(costs, b, other);
    }
  }

  /** backward returns the nodes of EOS's prev chain strictly between BOS and EOS. */
  lemma BackwardSpellsPrevChain(b: Buckets)
    requires LinksBackward(b) && |b| >= 2
    requires ValidRef(b, NodeRef(|b| - 1, 0)) && NodeAt(b, NodeRef(|b| - 1, 0)).nodeType != BOS
    requires PrevChain(b, NodeRef(|b| - 1, 0)).Some?
    ensures var refs := PrevChain(b, NodeRef(|b| - 1, 0)).value;
      && |refs| >= 2 && refs[|refs| - 1] == NodeRef(|b| - 1, 0)
      && (forall k :: 0 <= k < |refs| ==> ValidRef(b, refs[k]))
      && BackwardPath(b) == Ok(NodesOf(b, refs[1..|refs| - 1]))
  {
    var eos := NodeRef(|b| - 1, 0);
    var refs := PrevChain(b, eos).value;
    PrevChainShape(b, eos);
    var q := NodeAt(b, eos).prev.value;
    PrevChainSpellsPath(b, q);
    assert refs == PrevChain(b, q).value + [eos];
    assert BackwardPath(b) == Ok(PathTo(b, q).value);
    assert PathTo(b, q).value == NodesOf(b, refs[1..|refs| - 1]);
  }

  /** The search finds the cheapest path. In a lattice ready for the search, once the
      forward pass succeeds: if the prev links lead from EOS back to BOS (always so when every
      word has a word or BOS ending right before it), backward returns the nodes of that
      chain between BOS and EOS, the chain costs exactly EOS's shortest cost, and no chain
      from BOS to EOS costs less. */
  lemma SearchFindsCheapestPath(costs: CostMatrix, st: LatticeState)
    requires Closed(st) && ForwardPass(costs, st).Ok?
    ensures var b := ForwardPass(costs, st).value; var eos := NodeRef(st.endOfStatementPosition, 0);
      && ValidRef(b, eos) && NodeAt(b, eos).nodeType == EOS && LinksBackward(b)
      && ((forall r :: ValidRef(st.nodesEndAt, r) && 1 <= r.bucket ==> HasPredecessors(st.nodesEndAt, r)) ==> PrevChain(b, eos).Some?)
      && (PrevChain(b, eos).Some? ==>
            var refs := PrevChain(b, eos).value;
            && IsChain(b, refs) && |refs| >= 2 && refs[|refs| - 1] == eos
            && BackwardPath(b) == Ok(NodesOf(b, refs[1..|refs| - 1]))
            && ChainCost(costs, b, refs) == Ok(NodeAt(b, eos).shortestCost)
            && (forall other :: IsChain(b, other) && other[|other| - 1] == eos ==>
                  ChainCost(costs, b, other).Ok? && NodeAt(b, eos).shortestCost <= ChainCost(costs, b, other).value))
  {
    var b0, b := st.nodesEndAt, ForwardPass(costs, st).value;
    var eos := NodeRef(st.endOfStatementPosition, 0);
    ForwardSearched(costs, st);
    assert eos == NodeRef(|b| - 1, 0);
    if forall r :: ValidRef(b0, r) && 1 <= r.bucket ==> HasPredecessors(b0, r) {
      ConnectedAfterForward(costs, st);
    }
    if PrevChain(b, eos).Some? {
      BackwardPathIsCheapest(costs, b);
    }
  }

  lemma ConnectedAfterForward(costs: CostMatrix, st: LatticeState)
    requires Closed(st) && ForwardPass(costs, st).Ok?
    requires forall r :: ValidRef(st.nodesEndAt, r) && 1 <= r.bucket ==> HasPredecessors(st.nodesEndAt, r)
    ensures ValidRef(ForwardPass(costs, st).value, NodeRef(st.endOfStatementPosition, 0))
    ensures LinksBackward(ForwardPass(costs, st).value)
    ensures PrevChain(ForwardPass(costs, st).value, NodeRef(st.endOfStatementPosition, 0)).Some?
  {
    var b0, b := st.nodesEndAt, ForwardPass(costs, st).value;
    ForwardSearched(costs, st);
    ForwardSatisfiesBellman(costs, st);
    SameShapeRefs(b0, b, NodeRef(st.endOfStatementPosition, 0));
    forall r' | ValidRef(b, r') && 1 <= r'.bucket ensures HasPredecessors(b, r') {
      SameShapeRefs(b0, b, r');
      assert SameWord(NodeAt(b0, r'), NodeAt(b, r'));
    }
    ConnectedReachesBos(costs, b, NodeRef(st.endOfStatementPosition, 0));
  }

  // ---------------------------------------------------------------------------
  // appendEos on a lattice with no word

  /** As written: the forward pass over the empty input links EOS to itself, so the links
      no longer lead back towards BOS and the backward walk never reaches it. */
  lemma ForwardLinksEosToItselfOnEmptyInput(costs: CostMatrix)
    requires CostAt(costs.cells, costs.backwardDimension, 0, 0).Ok?
    ensures ForwardPass(costs, WithEos(InitialLattice())).Ok?
    ensures var b := ForwardPass(costs, WithEos(InitialLattice())).value;
      && ValidRef(b, NodeRef(1, 0))
      && NodeAt(b, NodeRef(1, 0)).nodeType == EOS
      && NodeAt(b, NodeRef(1, 0)).prev == Some(NodeRef(1, 0))
      && !LinksBackward(b)
  {
    var st := WithEos(InitialLattice());
    var b := st.nodesEndAt;
    var eos := CreateEndOfStatement(2);
    assert b == [Some([CreateBeginOfStatement()]), Some([eos])];
    assert BestFrom(costs, [eos], eos, 1, Some(Cheapest(0, CandidateCost(costs, eos, eos).value))) == Ok(Some(Cheapest(0, CandidateCost(costs, eos, eos).value)));
    var b1 := Relax(costs, b, NodeRef(1, 0)).value;
    assert b1[1].value[0].prev == Some(NodeRef(1, 0));
    assert ForwardFrom(costs, b1, 2, 3, 0) == Ok(b1);
    assert ForwardFrom(costs, b1, 2, 2, 0) == Ok(b1);
    assert ForwardFrom(costs, b1, 2, 1, 1) == Ok(b1);
    assert ForwardFrom(costs, b, 2, 1, 0) == Ok(b1);
    assert ValidRef(b1, NodeRef(1, 0));
  }

  /** As intended: EOS takes BOS as its predecessor, and the backward pass returns the empty
      path. */
  lemma ForwardLinksEosToBosOnEmptyInput(costs: CostMatrix)
    requires CostAt(costs.cells, costs.backwardDimension, 0, 0).Ok?
    ensures ForwardPass(costs, WithEosAtBucket(InitialLattice())).Ok?
    ensures var b := ForwardPass(costs, WithEosAtBucket(InitialLattice())).value;
      && ValidRef(b, NodeRef(1, 0))
      && NodeAt(b, NodeRef(1, 0)).prev == Some(NodeRef(0, 0))
      && NodeAt(b, NodeRef(1, 0)).shortestCost == CostAt(costs.cells, costs.backwardDimension, 0, 0).value
      && LinksBackward(b)
      && BackwardPath(b) == Ok([])
  {
    var st := WithEosAtBucket(InitialLattice());
    var b := st.nodesEndAt;
    var bos, eos := CreateBeginOfStatement(), CreateEndOfStatement(1);
    assert b == [Some([bos]), Some([eos])];
    assert EdgeCost(costs, bos, eos) == Ok(CostAt(costs.cells, costs.backwardDimension, 0, 0).value as int);
    var c := CandidateCost(costs, bos, eos).value;
    assert BestFrom(costs, [bos], eos, 1, Some(Cheapest(0, c))) == Ok(Some(Cheapest(0, c)));
    assert BestFrom(costs, [bos], eos, 0, None) == Ok(Some(Cheapest(0, c)));
    var linked := eos.(shortestCost := c, prev := Some(NodeRef(0, 0)));
    assert NodeAt(b, NodeRef(1, 0)) == eos;
    assert Relax(costs, b, NodeRef(1, 0)) == Ok(SetNode(b, NodeRef(1, 0), linked));
    assert [eos][0 := linked] == [linked];
    var b1 := Relax(costs, b, NodeRef(1, 0)).value;
    assert b1 == [Some([bos]), Some([linked])];
    assert ForwardFrom(costs, b1, 1, 2, 0) == Ok(b1);
    assert ForwardFrom(costs, b1, 1, 1, 1) == Ok(b1);
    assert ForwardFrom(costs, b, 1, 1, 0) == Ok(b1);
    assert ValidRef(b1, NodeRef(0, 0)) && NodeAt(b1, NodeRef(0, 0)) == bos;
    assert LinksBackward(b1);
  }

  // ---------------------------------------------------------------------------
  // The class

  class ViterbiSearcher {
    const connectionCosts: ConnectionCosts

    constructor (connectionCosts: ConnectionCosts)
      ensures this.connectionCosts == connectionCosts
    {
      this.connectionCosts := connectionCosts;
    }

    function Costs(): CostMatrix
      reads connectionCosts, connectionCosts.buffer
    {
      CostMatrix(connectionCosts.Cells(), connectionCosts.backwardDimension)
    }

    /** Resolve one node: scan its predecessor bucket for the first cheapest candidate. */
    method RelaxNode(lattice: ViterbiLattice, i: nat, j: nat) returns (res: Result<(), CostError>)
      requires ValidRef(lattice.nodesEndAt, NodeRef(i, j))
      modifies lattice
      ensures lattice.endOfStatementPosition == old(lattice.endOfStatementPosition)
      ensures Relax(Costs(), old(lattice.nodesEndAt), NodeRef(i, j)).Err? ==>
                res == Err(Relax(Costs(), old(lattice.nodesEndAt), NodeRef(i, j)).error) && lattice.nodesEndAt == old(lattice.nodesEndAt)
      ensures Relax(Costs(), old(lattice.nodesEndAt), NodeRef(i, j)).Ok? ==>
                res == Ok(()) && lattice.nodesEndAt == Relax(Costs(), old(lattice.nodesEndAt), NodeRef(i, j)).value
    {
      var node := lattice.nodesEndAt[i].value[j];
      var p := node.startPosition - 1;
      if p < 0 || p >= |lattice.nodesEndAt| || lattice.nodesEndAt[p].None? {
        // the predecessor bucket is missing: skip the node
        return Ok(());
      }
      var prevNodes := lattice.nodesEndAt[p].value;
      // the cheapest candidate so far and where it came from; None stands for
      // `cost = Number.MAX_VALUE` with no `shortest_prev_node`
      var best: Option<Cheapest> := None;
      var k := 0;
      while k < |prevNodes|
        invariant 0 <= k <= |prevNodes|
        invariant BestFrom(Costs(), prevNodes, node, 0, None) == BestFrom(Costs(), prevNodes, node, k, best)
      {
        var prevNode := prevNodes[k];
        var edgeCost: int;
        if node.leftId.None? || prevNode.rightId.None? {
          edgeCost := 0;
        } else {
          var got := connectionCosts.Get(prevNode.rightId.value, node.leftId.value);
          if got.Err? {
            return Err(got.error);
          }
          edgeCost := got.value;
        }
        var cost := prevNode.shortestCost + edgeCost + node.cost;
        if best.None? || cost < best.value.cost {
          best := Some(Cheapest(k, cost));
        }
        k := k + 1;
      }
      if best.None? {
        return Ok(());
      }
      lattice.nodesEndAt := SetNode(lattice.nodesEndAt, NodeRef(i, j),
                                    node.(shortestCost := best.value.cost, prev := Some(NodeRef(p, best.value.slot))));
      res := Ok(());
    }

    /** `forward`: resolve every node of buckets 1..end of statement in order. A failed cost
        lookup aborts the pass. */
    method Forward(lattice: ViterbiLattice) returns (res: Result<(), CostError>)
      modifies lattice
      ensures lattice.endOfStatementPosition == old(lattice.endOfStatementPosition)
      ensures res.Ok? <==> ForwardPass(Costs(), old(lattice.State())).Ok?
      ensures res.Ok? ==> lattice.nodesEndAt == ForwardPass(Costs(), old(lattice.State())).value
      ensures res.Err? ==> res.error == ForwardPass(Costs(), old(lattice.State())).error
    {
      ghost var spec := ForwardFrom(Costs(), lattice.nodesEndAt, lattice.endOfStatementPosition, 1, 0);
      var eos := lattice.endOfStatementPosition;
      var i := 1;
      while i <= lattice.endOfStatementPosition
        invariant lattice.endOfStatementPosition == eos && 1 <= i
        invariant spec == ForwardFrom(Costs(), lattice.nodesEndAt, eos, i, 0)
        decreases eos + 1 - i
      {
        if i < |lattice.nodesEndAt| && lattice.nodesEndAt[i].Some? {
          var count := |lattice.nodesEndAt[i].value|;
          var j := 0;
          while j < count
            invariant lattice.endOfStatementPosition == eos && 0 <= j <= count
            invariant i < |lattice.nodesEndAt| && lattice.nodesEndAt[i].Some? && |lattice.nodesEndAt[i].value| == count
            invariant spec == ForwardFrom(Costs(), lattice.nodesEndAt, eos, i, j)
          {
            ghost var before := lattice.nodesEndAt;
            var step := RelaxNode(lattice, i, j);
            if step.Err? {
              return Err(step.error);
            }
            assert SameShape(before, lattice.nodesEndAt);
            j := j + 1;
          }
        }
        i := i + 1;
      }
      res := Ok(());
    }

    /** `backward`: follow prev links from EOS to BOS, collecting the nodes, and reverse them. */
    method Backward(lattice: ViterbiLattice) returns (res: Result<seq<ViterbiNode>, LatticeError>)
      requires LinksBackward(lattice.nodesEndAt)
      ensures res == BackwardPath(lattice.nodesEndAt)
    {
      var b := lattice.nodesEndAt;
      var last := lattice.GetLastNode();
      if last.Err? {
        return Err(last.error);
      }
      var eos := last.value;
      assert ValidRef(b, NodeRef(|b| - 1, 0));
      if eos.prev.None? {
        return Ok([]);
      }
      var shortestPath: seq<ViterbiNode> := [];
      ghost var start := eos.prev.value;
      var at := eos.prev.value;
      var nodeBack := NodeAt(b, at);
      match PathTo(b, at) {
        case None =>
        case Some(path) => assert path + Reversed(shortestPath) == path;
      }
      while nodeBack.nodeType != BOS
        invariant ValidRef(b, at) && nodeBack == NodeAt(b, at)
        invariant PathTo(b, start) == (match PathTo(b, at)
                                       case None => None
                                       case Some(path) => Some(path + Reversed(shortestPath)))
        decreases at.bucket
      {
        shortestPath := shortestPath + [nodeBack];
        if nodeBack.prev.None? {
          // a node short of BOS with no predecessor: the links do not reach BOS
          assert PathTo(b, at).None?;
          return Ok([]);
        }
        ghost var old_at := at;
        at := nodeBack.prev.value;
        nodeBack := NodeAt(b, at);
        ghost var rev := Reversed(shortestPath);
        assert rev == [shortestPath[|shortestPath| - 1]] + Reversed(shortestPath[..|shortestPath| - 1]);
        assert shortestPath[..|shortestPath| - 1] + [NodeAt(b, old_at)] == shortestPath;
        match PathTo(b, at)
        case None =>
        case Some(path) =>
          assert path + [NodeAt(b, old_at)] + Reversed(shortestPath[..|shortestPath| - 1]) == path + rev;
      }
      res := Ok(Reversed(shortestPath));
      assert PathTo(b, at) == Some([]);
      assert [] + Reversed(shortestPath) == Reversed(shortestPath);
    }

    /** `search`: forward, then backward on the same lattice. */
    method Search(lattice: ViterbiLattice) returns (res: Result<seq<ViterbiNode>, SearchError>)
      requires PredecessorsEarlier(lattice.nodesEndAt) && Unlinked(lattice.nodesEndAt)
      modifies lattice
      ensures var f := ForwardPass(Costs(), old(lattice.State()));
        && (f.Err? ==> res == Err(CostFailed(f.error)))
        && (f.Ok? ==> LinksBackward(f.value) && lattice.nodesEndAt == f.value
                      && res == match BackwardPath(f.value)
                                case Ok(path) => Ok(path)
                                case Err(e) => Err(LatticeFailed(e)))
    {
      ghost var st := lattice.State();
      var forward := Forward(lattice);
      if forward.Err? {
        return Err(CostFailed(forward.error));
      }
      UnlinkedLinksBackward(st.nodesEndAt);
      ForwardFromLinksBackward(Costs(), st.nodesEndAt, st.endOfStatementPosition, 1, 0);
      var backward := Backward(lattice);
      match backward
      case Ok(path) => res := Ok(path);
      case Err(e) => res := Err(LatticeFailed(e));
    }
  }
}

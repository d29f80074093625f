/** ViterbiNode.ts: one candidate word of the lattice. The lattice keeps its nodes in
    buckets, so a node is a value and its `prev` link is the (bucket, slot) address of the
    predecessor node rather than an object reference. */
module ViterbiNodes {
  import opened Wrappers

  /** The node kinds (ViterbiNodeType.ts is not part of this model; these are its four
      kinds). */
  datatype NodeType = BOS | EOS | KNOWN | UNKNOWN

  /** Where a node lives in the lattice: bucket index and position in that bucket. */
  datatype NodeRef = NodeRef(bucket: nat, slot: nat)

  datatype ViterbiNode = ViterbiNode(
    name: int,                 // word id
    cost: int,                 // word cost
    shortestCost: int,         // cheapest known cost of a path from BOS ending with this node
    startPosition: int,        // counted from 1
    length: int,
    nodeType: NodeType,
    leftId: Option<int>,       // left context id, absent when not supplied
    rightId: Option<int>,      // right context id, absent when not supplied
    prev: Option<NodeRef>,     // best predecessor, set by the searcher
    surfaceForm: string)

  /** Number.MAX_SAFE_INTEGER, the starting shortest cost of every node but BOS. */
  const MaxSafeInteger: int := 0x1F_FFFF_FFFF_FFFF

  /** `new ViterbiNode(...)`: no predecessor yet; BOS starts resolved at cost 0 and every
      other node at MAX_SAFE_INTEGER. */
  function NewNode(name: int, cost: int, startPosition: int, length: int, nodeType: NodeType,
                   leftId: Option<int>, rightId: Option<int>, surfaceForm: string): (n: ViterbiNode)
    ensures n.prev.None?
    ensures n.shortestCost == 0 <==> nodeType == BOS
    ensures nodeType != BOS ==> n.shortestCost == MaxSafeInteger
    ensures n.name == name && n.cost == cost && n.startPosition == startPosition && n.length == length
    ensures n.nodeType == nodeType && n.leftId == leftId && n.rightId == rightId && n.surfaceForm == surfaceForm
  {
    ViterbiNode(name, cost, if nodeType == BOS then 0 else MaxSafeInteger, startPosition, length,
                nodeType, leftId, rightId, None, surfaceForm)
  }

  function CreateBeginOfStatement(): ViterbiNode {
    NewNode(-1, 0, 0, 0, BOS, Some(0), Some(0), "")
  }

  function CreateEndOfStatement(startPos: int): ViterbiNode {
    NewNode(-1, 0, startPos, 0, EOS, Some(0), Some(0), "")
  }

  /** The last input position the node covers. */
  function LastPosition(n: ViterbiNode): int {
    n.startPosition + n.length - 1
  }

  predicate HasLeftId(n: ViterbiNode) {
    n.leftId.Some?
  }

  predicate HasRightId(n: ViterbiNode) {
    n.rightId.Some?
  }

  /** The sentinels: both have length 0, so they report the position before their start as
      their last one; both carry context id 0 on each side, and only BOS starts resolved. */
  lemma SentinelShapes(startPos: int)
    ensures var bos := CreateBeginOfStatement();
      && bos.nodeType == BOS && bos.startPosition == 0 && LastPosition(bos) == -1
      && bos.shortestCost == 0 && bos.cost == 0 && bos.prev.None?
      && HasLeftId(bos) && HasRightId(bos) && bos.leftId == bos.rightId == Some(0)
    ensures var eos := CreateEndOfStatement(startPos);
      && eos.nodeType == EOS && eos.startPosition == startPos && LastPosition(eos) == startPos - 1
      && eos.shortestCost == MaxSafeInteger && eos.cost == 0 && eos.prev.None?
      && HasLeftId(eos) && HasRightId(eos) && eos.leftId == eos.rightId == Some(0)
    ensures CreateEndOfStatement(startPos) == CreateBeginOfStatement().(nodeType := EOS, startPosition := startPos, shortestCost := MaxSafeInteger)
  {
  }
}

/** ViterbiLattice.ts: the candidate words of one input, bucketed by the last position they
    cover. Bucket 0 holds BOS; appending EOS closes the lattice. A bucket list with holes
    (positions no word ends at) is a sequence of optional buckets. */
module ViterbiLattices {
  import opened Wrappers
  import opened ViterbiNodes

  type Bucket = seq<ViterbiNode>
  type Buckets = seq<Option<Bucket>>

  datatype LatticeError =
    | LastBucketMissing   // `at(-1)` gives undefined: no bucket, or a hole at the end
    | LastBucketEmpty     // the last bucket has no first node

  datatype LatticeState = LatticeState(nodesEndAt: Buckets, endOfStatementPosition: int)

  /** `n` holes, as JavaScript leaves them when an array is assigned past its end. */
  function Holes(n: nat): (h: Buckets)
    ensures |h| == n && forall k :: 0 <= k < n ==> h[k].None?
  {
    seq(n, _ => None)
  }

  // ---------------------------------------------------------------------------
  // Addressing nodes

  predicate ValidRef(b: Buckets, r: NodeRef) {
    r.bucket < |b| && b[r.bucket].Some? && r.slot < |b[r.bucket].value|
  }

  function NodeAt(b: Buckets, r: NodeRef): ViterbiNode
    requires ValidRef(b, r)
  {
    b[r.bucket].value[r.slot]
  }

  /** Every bucket that exists has a node. */
  predicate NonEmptyBuckets(b: Buckets) {
    forall i :: 0 <= i < |b| && b[i].Some? ==> |b[i].value| > 0
  }

  /** No node has a predecessor yet. */
  predicate Unlinked(b: Buckets) {
    forall i, s :: 0 <= i < |b| && b[i].Some? && 0 <= s < |b[i].value| ==> b[i].value[s].prev.None?
  }

  /** Every node past bucket 0 takes its predecessors from an earlier bucket. */
  predicate PredecessorsEarlier(b: Buckets) {
    forall i, s :: 1 <= i < |b| && b[i].Some? && 0 <= s < |b[i].value| ==> b[i].value[s].startPosition - 1 < i
  }

  // ---------------------------------------------------------------------------
  // Operations on the lattice value

  /** A fresh lattice: one bucket holding BOS, end of statement at 1. */
  function InitialLattice(): LatticeState {
    LatticeState([Some([CreateBeginOfStatement()])], 1)
  }

  /** `append(node)`: push the node onto the bucket of its last position, creating the
      bucket (and holes before it) when absent; the end of statement moves up to that
      position if it was below. */
  function AppendNode(st: LatticeState, node: ViterbiNode): LatticeState
    requires LastPosition(node) >= 0
  {
    var last := LastPosition(node);
    var b := st.nodesEndAt;
    var prevNodes := if last < |b| && b[last].Some? then b[last].value else [];
    var eos := if st.endOfStatementPosition < last then last else st.endOfStatementPosition;
    if last < |b| then LatticeState(b[last := Some(prevNodes + [node])], eos)
    else LatticeState(b + Holes(last - |b|) + [Some(prevNodes + [node])], eos)
  }

  /** `appendEos()` as written: the end of statement goes up by one, and a new last bucket
      holds an EOS starting there. */
  function WithEos(st: LatticeState): LatticeState {
    var eos := st.endOfStatementPosition + 1;
    LatticeState(st.nodesEndAt + [Some([CreateEndOfStatement(eos)])], eos)
  }

  /** appendEos as intended: EOS starts at the index of the bucket that holds it, so its
      predecessors are the words ending just before it. */
  function WithEosAtBucket(st: LatticeState): LatticeState {
    var eos := |st.nodesEndAt|;
    LatticeState(st.nodesEndAt + [Some([CreateEndOfStatement(eos)])], eos)
  }

  /** `getLastNode()`: the first node of the last bucket. */
  function LastNode(b: Buckets): Result<ViterbiNode, LatticeError> {
    if |b| == 0 || b[|b| - 1].None? then Err(LastBucketMissing)
    else if |b[|b| - 1].value| == 0 then Err(LastBucketEmpty)
    else Ok(b[|b| - 1].value[0])
  }

  // ---------------------------------------------------------------------------
  // What the operations do

  /** append adds the node at the end of its bucket and touches no other bucket; the end of
      statement becomes the larger of the old one and the node's last position. */
  lemma AppendNodeFacts(st: LatticeState, node: ViterbiNode)
    requires LastPosition(node) >= 0
    ensures var st' := AppendNode(st, node); var last := LastPosition(node);
      && |st'.nodesEndAt| == (if last < |st.nodesEndAt| then |st.nodesEndAt| else last + 1)
      && st'.nodesEndAt[last] == Some((if last < |st.nodesEndAt| && st.nodesEndAt[last].Some? then st.nodesEndAt[last].value else []) + [node])
      && (forall i :: 0 <= i < |st.nodesEndAt| && i != last ==> st'.nodesEndAt[i] == st.nodesEndAt[i])
      && (forall i :: |st.nodesEndAt| <= i < last ==> st'.nodesEndAt[i].None?)
      && st'.endOfStatementPosition >= st.endOfStatementPosition
      && st'.endOfStatementPosition >= last
      && (st'.endOfStatementPosition == st.endOfStatementPosition || st'.endOfStatementPosition == last)
  {
  }

  /** appendEos adds one bucket holding only EOS and raises the end of statement by one. */
  lemma AppendEosFacts(st: LatticeState)
    ensures var st' := WithEos(st);
      && st'.endOfStatementPosition == st.endOfStatementPosition + 1
      && |st'.nodesEndAt| == |st.nodesEndAt| + 1
      && st'.nodesEndAt[..|st.nodesEndAt|] == st.nodesEndAt
      && st'.nodesEndAt[|st.nodesEndAt|] == Some([CreateEndOfStatement(st'.endOfStatementPosition)])
      && LastNode(st'.nodesEndAt) == Ok(CreateEndOfStatement(st'.endOfStatementPosition))
  {
  }

  /** Bucket 0 holds only BOS, and no node after it is a BOS. */
  predicate WordsAfterBos(b: Buckets) {
    && |b| >= 1 && b[0] == Some([CreateBeginOfStatement()])
    && forall i, s :: 1 <= i < |b| && b[i].Some? && 0 <= s < |b[i].value| ==> b[i].value[s].nodeType != BOS
  }

  /** The state of a lattice while words are appended. */
  predicate Open(st: LatticeState) {
    var b := st.nodesEndAt;
    && |b| >= 1 && b[0] == Some([CreateBeginOfStatement()])
    && NonEmptyBuckets(b) && Unlinked(b) && PredecessorsEarlier(b)
    && (forall i, s :: 1 <= i < |b| && b[i].Some? && 0 <= s < |b[i].value| ==> LastPosition(b[i].value[s]) == i)
    && WordsAfterBos(b)
    && st.endOfStatementPosition == (if |b| == 1 then 1 else |b| - 1)
  }

  /** A lattice ready for the search: BOS alone in bucket 0, words come after their
      predecessors, nothing is linked yet, every bucket up to the end of statement exists or
      is a hole, and the last bucket holds EOS. */
  predicate Closed(st: LatticeState) {
    var b := st.nodesEndAt;
    && |b| >= 2 && st.endOfStatementPosition == |b| - 1
    && NonEmptyBuckets(b) && Unlinked(b) && PredecessorsEarlier(b) && WordsAfterBos(b)
    && b[|b| - 1] == Some([CreateEndOfStatement(|b| - 1)])
  }

  lemma InitialIsOpen()
    ensures Open(InitialLattice())
  {
  }

  /** Appending a word — not a BOS, starting at position 1 or later, covering at least one
      position and with no predecessor yet — keeps the lattice open. */
  lemma {:induction false} AppendWordKeepsOpen(st: LatticeState, node: ViterbiNode)
    requires Open(st)
    requires node.nodeType != BOS && node.startPosition >= 1 && node.length >= 1 && node.prev.None?
    ensures LastPosition(node) >= 1
    ensures Open(AppendNode(st, node))
  {
    var st' := AppendNode(st, node);
    var b, b' := st.nodesEndAt, st'.nodesEndAt;
    var last := LastPosition(node);
    AppendNodeFacts(st, node);
    forall i, s | 1 <= i < |b'| && b'[i].Some? && 0 <= s < |b'[i].value|
      ensures b'[i].value[s].prev.None? && b'[i].value[s].startPosition - 1 < i && LastPosition(b'[i].value[s]) == i
      ensures b'[i].value[s].nodeType != BOS
    {
      if i == last {
        var prevNodes := if last < |b| && b[last].Some? then b[last].value else [];
        if s < |prevNodes| {
          assert b'[i].value[s] == b[i].value[s];
        }
      } else {
        assert b'[i] == b[i];
      }
    }
    assert b'[0] == b[0];
  }

  /** Closing an open lattice with the intended appendEos gives a lattice ready for the
      search whose last node is the EOS. */
  lemma CloseOpen(st: LatticeState)
    requires Open(st)
    ensures Closed(WithEosAtBucket(st))
    ensures LastNode(WithEosAtBucket(st).nodesEndAt) == Ok(CreateEndOfStatement(|st.nodesEndAt|))
  {
    var b' := WithEosAtBucket(st).nodesEndAt;
    assert forall i :: 0 <= i < |st.nodesEndAt| ==> b'[i] == st.nodesEndAt[i];
  }

  /** Once some word has been appended, appendEos as written is the intended one. */
  lemma AppendEosAgreesOnceWordsAppended(st: LatticeState)
    requires Open(st) && |st.nodesEndAt| >= 2
    ensures WithEos(st) == WithEosAtBucket(st)
  {
  }

  /** appendEos as written on a lattice with no word: EOS lands in bucket 1 but starts at 2,
      so the bucket it takes its predecessors from is its own. */
  lemma AppendEosOnEmptyLatticeLinksEosToItself()
    ensures var b := WithEos(InitialLattice()).nodesEndAt;
      && |b| == 2 && b[1] == Some([CreateEndOfStatement(2)])
      && b[1].value[0].startPosition - 1 == 1
      && !PredecessorsEarlier(b)
  {
    var b := WithEos(InitialLattice()).nodesEndAt;
    assert b[1].value[0].startPosition - 1 == 1;
  }

  /** The intended appendEos on a lattice with no word: EOS starts at 1 and follows BOS. */
  lemma AppendEosAtBucketOnEmptyLattice()
    ensures var b := WithEosAtBucket(InitialLattice()).nodesEndAt;
      && |b| == 2 && b[1] == Some([CreateEndOfStatement(1)])
      && b[1].value[0].startPosition - 1 == 0
      && PredecessorsEarlier(b)
  {
    InitialIsOpen();
    CloseOpen(InitialLattice());
  }

  // ---------------------------------------------------------------------------
  // The class

  class ViterbiLattice {
    var nodesEndAt: Buckets
    var endOfStatementPosition: int

    function State(): LatticeState
      reads this
    {
      LatticeState(nodesEndAt, endOfStatementPosition)
    }

    constructor ()
      ensures State() == InitialLattice()
    {
      nodesEndAt := [Some([CreateBeginOfStatement()])];
      endOfStatementPosition := 1;
    }

    function GetLastNode(): Result<ViterbiNode, LatticeError>
      reads this
    {
      LastNode(nodesEndAt)
    }

    method Append(node: ViterbiNode)
      requires LastPosition(node) >= 0
      modifies this
      ensures State() == AppendNode(old(State()), node)
    {
      var lastPosition := LastPosition(node);
      var prevNodes: Bucket := [];
      if lastPosition < |nodesEndAt| && nodesEndAt[lastPosition].Some? {
        prevNodes := nodesEndAt[lastPosition].value;
      }
      if endOfStatementPosition < lastPosition {
        endOfStatementPosition := lastPosition;
      }
      prevNodes := prevNodes + [node];
      if lastPosition < |nodesEndAt| {
        nodesEndAt := nodesEndAt[lastPosition := Some(prevNodes)];
      } else {
        nodesEndAt := nodesEndAt + Holes(lastPosition - |nodesEndAt|) + [Some(prevNodes)];
      }
    }

    method AppendEos()
      modifies this
      ensures State() == WithEos(old(State()))
    {
      endOfStatementPosition := endOfStatementPosition + 1;
      nodesEndAt := nodesEndAt + [Some([CreateEndOfStatement(endOfStatementPosition)])];
    }

    /** The corrected appendEos. */
    method AppendEosAtBucket()
      modifies this
      ensures State() == WithEosAtBucket(old(State()))
    {
      endOfStatementPosition := |nodesEndAt|;
      nodesEndAt := nodesEndAt + [Some([CreateEndOfStatement(endOfStatementPosition)])];
    }
  }
}

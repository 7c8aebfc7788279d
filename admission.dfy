/**
 * Block admission as a decision on the tree's state: the reasons a block is
 * refused, and the node an accepted block becomes.
 */
module Admission {
  import opened Wrappers
  import opened Ledger
  import opened BlockReplay
  import opened ForkTree

  /** Why a block is refused; the source reports every one of them as `false`. */
  datatype Rejection =
    | MalformedBlock      // no previous-block hash
    | UnknownParent       // no retained node has that hash
    | StaleBranch         // the new height is at or below the retention floor
    | InvalidTransaction  // the validator refused one of the block's transactions

  datatype Verdict = Accepted(node: Node) | Rejected(reason: Rejection)

  /** The position of the node the block names as parent, if it names one that is retained. */
  function ParentOf(nodes: seq<Node>, b: Block): (r: Option<nat>) {
    if b.prevHash.None? then None else FindNode(nodes, b.prevHash.value)
  }

  /** A child of node `p` would be at or below the floor `tip height - CUT_OFF_AGE`. */
  predicate Stale(nodes: seq<Node>, tallest: nat, p: nat)
    requires tallest < |nodes| && p < |nodes|
  {
    nodes[p].height + 1 <= nodes[tallest].height - CUT_OFF_AGE
  }

  /** The decision `addBlock` takes, and the node it builds: on the parent's
      pools, the block's transactions replayed, then the coinbase outputs
      added, then the confirmed transactions dropped from the pending pool. */
  function Admit(nodes: seq<Node>, tallest: nat, b: Block, valid: Validator): (v: Verdict)
    requires tallest < |nodes| && AllPresent(b.txs)
  {
    if b.prevHash.None? then Rejected(MalformedBlock)
    else match FindNode(nodes, b.prevHash.value)
      case None => Rejected(UnknownParent)
      case Some(p) =>
        if Stale(nodes, tallest, p) then Rejected(StaleBranch)
        else match Replay(valid, nodes[p].utxos, Present(b.txs))
          case None => Rejected(InvalidTransaction)
          case Some(pool) =>
            Accepted(Node(b, Some(p), [], nodes[p].height + 1,
                          pool + Outputs(b.coinbase.hash, b.coinbase.outputs),
                          nodes[p].txPool - TxHashes(Present(b.txs)),
                          |nodes|))
  }

  /** Each refusal, and its reason: no parent hash; a parent hash no retained
      node has; a stale height; a transaction the validator refuses against
      the pool its predecessors in the block left. */
  lemma RejectionReasons(nodes: seq<Node>, tallest: nat, b: Block, valid: Validator)
    requires tallest < |nodes| && AllPresent(b.txs)
    ensures b.prevHash.None? ==> Admit(nodes, tallest, b, valid) == Rejected(MalformedBlock)
    ensures b.prevHash.Some? && FindNode(nodes, b.prevHash.value).None? ==>
      Admit(nodes, tallest, b, valid) == Rejected(UnknownParent)
    ensures ParentOf(nodes, b).Some? && Stale(nodes, tallest, ParentOf(nodes, b).value) ==>
      Admit(nodes, tallest, b, valid) == Rejected(StaleBranch)
    ensures ParentOf(nodes, b).Some? && !Stale(nodes, tallest, ParentOf(nodes, b).value) &&
            !AllValid(valid, nodes[ParentOf(nodes, b).value].utxos, Present(b.txs)) ==>
      Admit(nodes, tallest, b, valid) == Rejected(InvalidTransaction)
  {
    if ParentOf(nodes, b).Some? {
      ReplayAllOrNothing(valid, nodes[ParentOf(nodes, b).value].utxos, Present(b.txs));
    }
  }

  /** A block is accepted exactly when it names a retained parent, its height
      is above the floor, and every transaction is valid in turn; the new node
      is then the parent's child, one taller, stamped next, and its UTXO pool
      is the parent's after applying every transaction in order and then the
      coinbase outputs, its pending pool the parent's minus the block's
      transactions. */
  lemma AcceptedNode(nodes: seq<Node>, tallest: nat, b: Block, valid: Validator, p: nat)
    requires tallest < |nodes| && AllPresent(b.txs)
    requires ParentOf(nodes, b) == Some(p)
    ensures Admit(nodes, tallest, b, valid).Accepted? <==>
      !Stale(nodes, tallest, p) && AllValid(valid, nodes[p].utxos, Present(b.txs))
    ensures Admit(nodes, tallest, b, valid).Accepted? ==>
      Admit(nodes, tallest, b, valid).node ==
        Node(b, Some(p), [], nodes[p].height + 1,
             ApplyAll(nodes[p].utxos, Present(b.txs)) + Outputs(b.coinbase.hash, b.coinbase.outputs),
             nodes[p].txPool - TxHashes(Present(b.txs)),
             |nodes|)
  {
    ReplayAllOrNothing(valid, nodes[p].utxos, Present(b.txs));
  }

  /** An accepted block lies above the floor computed from the current tip,
      under a retained node whose hash it names. */
  lemma AcceptedAboveFloor(nodes: seq<Node>, tallest: nat, b: Block, valid: Validator)
    requires tallest < |nodes| && AllPresent(b.txs)
    requires Admit(nodes, tallest, b, valid).Accepted?
    ensures var n := Admit(nodes, tallest, b, valid).node;
      n.parent.Some? && n.parent.value < |nodes| &&
      b.prevHash == Some(nodes[n.parent.value].block.hash) &&
      n.height == nodes[n.parent.value].height + 1 &&
      n.height > nodes[tallest].height - CUT_OFF_AGE
  {
  }

  /** A block on a height-1 node (height 2) can be admitted only while the tip
      is at most CUT_OFF_AGE + 1 high; from then on it is stale. */
  lemma GenesisExtensionWindow(nodes: seq<Node>, tallest: nat, b: Block, valid: Validator, p: nat)
    requires tallest < |nodes| && AllPresent(b.txs)
    requires ParentOf(nodes, b) == Some(p) && nodes[p].height == 1
    ensures nodes[tallest].height > CUT_OFF_AGE + 1 ==>
      Admit(nodes, tallest, b, valid) == Rejected(StaleBranch)
    ensures nodes[tallest].height <= CUT_OFF_AGE + 1 ==>
      Admit(nodes, tallest, b, valid) != Rejected(StaleBranch)
  {
  }
}

/**
 * The block tree itself: the retained nodes in creation order, the position of
 * the best tip, and the chain-level pending transaction pool.
 */
module Chain {
  import opened Wrappers
  import opened Ledger
  import opened BlockReplay
  import opened ForkTree
  import opened Genesis
  import opened Admission

  class BlockChain {
    /** bChain: every node ever admitted, in creation order. */
    var nodes: seq<Node>
    /** tallestNode, as a position in `nodes`. */
    var tallest: nat
    /** The chain-level transaction pool, distinct from the nodes' own pools. */
    var tPool: TxPool

    ghost predicate Valid()
      reads this
    {
      WellFormed(nodes) && IsTallest(nodes, tallest)
    }

    /** A tree holding only the genesis node, which is the tip; the genesis
        block is taken as valid without checks. */
    constructor (genesis: Block)
      ensures Valid()
      ensures nodes == [GenesisNode(genesis)] && tallest == 0
      ensures tPool == map[]
    {
      var cb := genesis.coinbase;
      var uPool := AddOutputs(map[], cb.hash, cb.outputs);
      assert uPool == Outputs(cb.hash, cb.outputs);
      var txPool: TxPool := map[cb.hash := cb];
      var k := 0;
      assert genesis.txs[0..] == genesis.txs;
      while k < |genesis.txs|
        invariant 0 <= k <= |genesis.txs|
        invariant SeedUtxos(uPool, genesis.txs[k..]) == GenesisUtxos(genesis)
        invariant SeedTxPool(txPool, genesis.txs[k..]) == GenesisTxPool(genesis)
      {
        assert genesis.txs[k..][0] == genesis.txs[k] && genesis.txs[k..][1..] == genesis.txs[k + 1..];
        if genesis.txs[k].Some? {
          var t := genesis.txs[k].value;
          uPool := AddOutputs(uPool, t.hash, t.outputs);
          txPool := txPool[t.hash := t];
        }
        k := k + 1;
      }
      nodes := [Node(genesis, None, [], 1, uPool, txPool, 0)];
      tallest := 0;
      tPool := map[];
      GenesisTree(genesis);
    }

    /** Linear search for the first node whose block hash equals `h`. */
    method GetParentNode(h: Hash) returns (r: Option<nat>)
      ensures r == FindNode(nodes, h)
    {
      var i := 0;
      while i < |nodes|
        invariant 0 <= i <= |nodes|
        invariant forall j | 0 <= j < i :: nodes[j].block.hash != h
      {
        if nodes[i].block.hash == h {
          return Some(i);
        }
        i := i + 1;
      }
      return None;
    }

    /** The block at the best tip. */
    method GetMaxHeightBlock() returns (b: Block)
      requires Valid()
      ensures IsTallest(nodes, tallest) && b == nodes[tallest].block
    {
      b := nodes[tallest].block;
    }

    /** The best tip's UTXO pool. */
    method GetMaxHeightUTXOPool() returns (p: UTXOPool)
      requires Valid()
      ensures IsTallest(nodes, tallest) && p == nodes[tallest].utxos
    {
      p := nodes[tallest].utxos;
    }

    /** The chain-level transaction pool. */
    method GetTransactionPool() returns (p: TxPool)
      ensures p == tPool
    {
      p := tPool;
    }

    /** Records a transaction in the chain-level pool under its hash; no
        validation and no node changes. */
    method AddTransaction(tx: Transaction)
      requires Valid()
      modifies this
      ensures Valid()
      ensures tPool == old(tPool)[tx.hash := tx]
      ensures nodes == old(nodes) && tallest == old(tallest)
    {
      tPool := tPool[tx.hash := tx];
    }

    /** Block admission: refuse with no change at all, or attach the node
        `Admit` describes and rescan for the best tip. */
    method AddBlock(b: Block, valid: Validator) returns (added: bool)
      requires Valid() && AllPresent(b.txs)
      modifies this
      ensures Valid() && tPool == old(tPool)
      ensures added == Admit(old(nodes), old(tallest), b, valid).Accepted?
      ensures !added ==> nodes == old(nodes) && tallest == old(tallest)
      ensures added ==>
        var n := Admit(old(nodes), old(tallest), b, valid).node;
        nodes == Attach(old(nodes), n) &&
        tallest == if n.height > old(nodes)[old(tallest)].height then |old(nodes)| else old(tallest)
    {
      if b.prevHash.None? {
        return false;
      }
      var parent := GetParentNode(b.prevHash.value);
      if parent.None? {
        return false;
      }
      var p := parent.value;
      var height := nodes[p].height + 1;
      if height <= nodes[tallest].height - CUT_OFF_AGE {
        assert Stale(nodes, tallest, p);
        return false;
      }
      var txs := Present(b.txs);
      var ok, uPool := ReplayBlock(valid, nodes[p].utxos, txs);
      if !ok {
        return false;
      }
      uPool := AddOutputs(uPool, b.coinbase.hash, b.coinbase.outputs);
      var txPool := RemoveConfirmed(nodes[p].txPool, txs);
      var n := Node(b, Some(p), [], height, uPool, txPool, |nodes|);
      ghost var before, tip := nodes, tallest;
      assert Admit(before, tip, b, valid) == Accepted(n);
      AddNode(n);
      added := true;
    }

    /** Attaches an admitted node and rescans for the best tip. */
    method AddNode(n: Node)
      requires Valid()
      requires n.parent.Some? && n.parent.value < |nodes|
      requires n.height == nodes[n.parent.value].height + 1
      requires n.children == [] && n.createdAt == |nodes|
      modifies this
      ensures Valid() && tPool == old(tPool)
      ensures nodes == Attach(old(nodes), n)
      ensures tallest == if n.height > old(nodes)[old(tallest)].height then |old(nodes)| else old(tallest)
    {
      var p := n.parent.value;
      ghost var after := Attach(nodes, n);
      ghost var expected := if n.height > nodes[tallest].height then |nodes| else tallest;
      AttachWellFormed(nodes, n);
      TipAfterAttach(nodes, tallest, n);
      // the node joins its parent's children, then bChain
      var withChild := nodes[p := nodes[p].(children := nodes[p].children + [|nodes|])];
      nodes := withChild + [n];
      assert nodes == after;
      var best := SelectTallest(nodes, tallest);
      TallestUnique(nodes, best, expected);
      tallest := best;
    }
  }
}

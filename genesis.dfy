/**
 * The genesis node: its UTXO pool holds the outputs of the genesis coinbase
 * and of every present genesis transaction, and its transaction pool holds
 * those transactions, keyed by hash.
 */
module Genesis {
  import opened Wrappers
  import opened Ledger
  import opened ForkTree

  /** Transaction entry `t` is present and has an output at reference `u`. */
  predicate Creates(t: Option<Transaction>, u: UTXO) {
    t.Some? && u.txHash == t.value.hash && 0 <= u.index < |t.value.outputs|
  }

  /** Adds the outputs of each present entry, in order; absent entries are skipped. */
  function SeedUtxos(pool: UTXOPool, txs: seq<Option<Transaction>>): (r: UTXOPool)
    decreases |txs|
  {
    if txs == [] then pool
    else SeedUtxos(if txs[0].Some? then pool + Outputs(txs[0].value.hash, txs[0].value.outputs) else pool,
                   txs[1..])
  }

  /** Records each present entry under its hash, in order; absent entries are skipped. */
  function SeedTxPool(tp: TxPool, txs: seq<Option<Transaction>>): (r: TxPool)
    decreases |txs|
  {
    if txs == [] then tp
    else SeedTxPool(if txs[0].Some? then tp[txs[0].value.hash := txs[0].value] else tp, txs[1..])
  }

  function GenesisUtxos(g: Block): (r: UTXOPool) {
    SeedUtxos(Outputs(g.coinbase.hash, g.coinbase.outputs), g.txs)
  }

  function GenesisTxPool(g: Block): (r: TxPool) {
    SeedTxPool(map[g.coinbase.hash := g.coinbase], g.txs)
  }

  /** The node built from the genesis block: no parent, height 1, first stamp. */
  function GenesisNode(g: Block): (n: Node) {
    Node(g, None, [], 1, GenesisUtxos(g), GenesisTxPool(g), 0)
  }

  /** The tree holding just the genesis node is well formed and that node is its tip. */
  lemma GenesisTree(g: Block)
    ensures WellFormed([GenesisNode(g)]) && IsTallest([GenesisNode(g)], 0)
    ensures GenesisNode(g).parent == None && GenesisNode(g).height == 1
  {
    assert ChildrenOf([GenesisNode(g)], 0, 1) == [];
  }

  /** A reference is in the seeded pool exactly when it was there already or
      some present entry has an output there. */
  lemma {:induction false} SeedUtxosKeys(pool: UTXOPool, txs: seq<Option<Transaction>>, u: UTXO)
    ensures u in SeedUtxos(pool, txs) <==> u in pool || exists k | 0 <= k < |txs| :: Creates(txs[k], u)
    decreases |txs|
  {
    if txs != [] {
      var next := if txs[0].Some? then pool + Outputs(txs[0].value.hash, txs[0].value.outputs) else pool;
      SeedUtxosKeys(next, txs[1..], u);
      assert u in next <==> u in pool || Creates(txs[0], u);
      if exists k | 0 <= k < |txs[1..]| :: Creates(txs[1..][k], u) {
        var k :| 0 <= k < |txs[1..]| && Creates(txs[1..][k], u);
        assert Creates(txs[k + 1], u);
      }
      if exists k | 0 <= k < |txs| :: Creates(txs[k], u) {
        var k :| 0 <= k < |txs| && Creates(txs[k], u);
        if k > 0 { assert Creates(txs[1..][k - 1], u); }
      }
    }
  }

  /** The value at a reference is the output of the last entry creating it. */
  lemma {:induction false} SeedUtxosLastWriter(pool: UTXOPool, txs: seq<Option<Transaction>>, u: UTXO, k: nat)
    requires k < |txs| && Creates(txs[k], u)
    requires forall j | k < j < |txs| :: !Creates(txs[j], u)
    ensures u in SeedUtxos(pool, txs) && SeedUtxos(pool, txs)[u] == txs[k].value.outputs[u.index]
    decreases |txs|
  {
    var next := if txs[0].Some? then pool + Outputs(txs[0].value.hash, txs[0].value.outputs) else pool;
    if k == 0 {
      SeedUtxosUntouched(next, txs[1..], u);
    } else {
      SeedUtxosLastWriter(next, txs[1..], u, k - 1);
    }
  }

  /** A reference no entry creates keeps its value. */
  lemma {:induction false} SeedUtxosUntouched(pool: UTXOPool, txs: seq<Option<Transaction>>, u: UTXO)
    requires u in pool
    requires forall j | 0 <= j < |txs| :: !Creates(txs[j], u)
    ensures u in SeedUtxos(pool, txs) && SeedUtxos(pool, txs)[u] == pool[u]
    decreases |txs|
  {
    if txs != [] {
      var next := if txs[0].Some? then pool + Outputs(txs[0].value.hash, txs[0].value.outputs) else pool;
      assert !Creates(txs[0], u);
      assert forall j | 0 <= j < |txs[1..]| :: !Creates(txs[1..][j], u) by {
        forall j | 0 <= j < |txs[1..]| ensures !Creates(txs[1..][j], u) {
          assert txs[1..][j] == txs[j + 1];
        }
      }
      SeedUtxosUntouched(next, txs[1..], u);
    }
  }

  /** A hash is in the seeded transaction pool exactly when it was there
      already or some present entry has it. */
  lemma {:induction false} SeedTxPoolKeys(tp: TxPool, txs: seq<Option<Transaction>>, h: Hash)
    ensures h in SeedTxPool(tp, txs) <==>
      h in tp || exists k | 0 <= k < |txs| :: txs[k].Some? && txs[k].value.hash == h
    decreases |txs|
  {
    if txs != [] {
      var next := if txs[0].Some? then tp[txs[0].value.hash := txs[0].value] else tp;
      SeedTxPoolKeys(next, txs[1..], h);
      if exists k | 0 <= k < |txs[1..]| :: txs[1..][k].Some? && txs[1..][k].value.hash == h {
        var k :| 0 <= k < |txs[1..]| && txs[1..][k].Some? && txs[1..][k].value.hash == h;
        assert txs[k + 1] == txs[1..][k];
      }
      if exists k | 0 <= k < |txs| :: txs[k].Some? && txs[k].value.hash == h {
        var k :| 0 <= k < |txs| && txs[k].Some? && txs[k].value.hash == h;
        if k > 0 { assert txs[1..][k - 1] == txs[k]; }
      }
    }
  }

  /** The genesis UTXO pool holds exactly the coinbase outputs and the outputs
      of every present genesis transaction, keyed by (transaction hash, index). */
  lemma GenesisUtxosKeys(g: Block, u: UTXO)
    ensures u in GenesisUtxos(g) <==>
      Creates(Some(g.coinbase), u) || exists k | 0 <= k < |g.txs| :: Creates(g.txs[k], u)
  {
    SeedUtxosKeys(Outputs(g.coinbase.hash, g.coinbase.outputs), g.txs, u);
  }

  /** A coinbase output that no genesis transaction overwrites is in the
      genesis pool with its own value. */
  lemma GenesisCoinbaseValue(g: Block, i: nat)
    requires i < |g.coinbase.outputs|
    requires forall j | 0 <= j < |g.txs| :: !Creates(g.txs[j], UTXO(g.coinbase.hash, i))
    ensures UTXO(g.coinbase.hash, i) in GenesisUtxos(g)
    ensures GenesisUtxos(g)[UTXO(g.coinbase.hash, i)] == g.coinbase.outputs[i]
  {
    SeedUtxosUntouched(Outputs(g.coinbase.hash, g.coinbase.outputs), g.txs, UTXO(g.coinbase.hash, i));
  }

  /** The output of a genesis transaction that no later genesis transaction
      overwrites is in the genesis pool with its own value. */
  lemma GenesisTxOutputValue(g: Block, k: nat, i: nat)
    requires k < |g.txs| && g.txs[k].Some? && i < |g.txs[k].value.outputs|
    requires forall j | k < j < |g.txs| :: !Creates(g.txs[j], UTXO(g.txs[k].value.hash, i))
    ensures UTXO(g.txs[k].value.hash, i) in GenesisUtxos(g)
    ensures GenesisUtxos(g)[UTXO(g.txs[k].value.hash, i)] == g.txs[k].value.outputs[i]
  {
    SeedUtxosLastWriter(Outputs(g.coinbase.hash, g.coinbase.outputs), g.txs, UTXO(g.txs[k].value.hash, i), k);
  }

  /** The genesis transaction pool holds the coinbase and every present
      genesis transaction, and nothing else. */
  lemma GenesisTxPoolKeys(g: Block, h: Hash)
    ensures h in GenesisTxPool(g) <==>
      h == g.coinbase.hash || exists k | 0 <= k < |g.txs| :: g.txs[k].Some? && g.txs[k].value.hash == h
  {
    SeedTxPoolKeys(map[g.coinbase.hash := g.coinbase], g.txs, h);
  }
}

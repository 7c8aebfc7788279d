/**
 * The values the block tree receives from its collaborators: hashes,
 * transactions, blocks, unspent-output references, and the two pools a node
 * keeps. Also the loops that add a transaction's outputs to a UTXO pool,
 * remove the outputs its inputs spend, and drop confirmed transactions from a
 * transaction pool.
 */
module Ledger {
  import opened Wrappers

  /** A hash, compared byte for byte (the source wraps it in ByteArrayWrapper). */
  type Hash = seq<bv8>

  /** A spendable output; the block tree stores outputs but never inspects them. */
  datatype Output = Output(value: real, address: seq<bv8>)

  /** A reference to output `outputIndex` of the transaction hashed `prevTxHash`. */
  datatype Input = Input(prevTxHash: Hash, outputIndex: int)

  datatype Transaction = Transaction(hash: Hash, inputs: seq<Input>, outputs: seq<Output>)

  /** A block; a list entry the source may hold as null is `None`. */
  datatype Block = Block(hash: Hash, prevHash: Option<Hash>, coinbase: Transaction,
                         txs: seq<Option<Transaction>>)

  /** An unspent-output reference: (originating transaction hash, output index). */
  datatype UTXO = UTXO(txHash: Hash, index: int)

  /** UTXOPool: reference to output. */
  type UTXOPool = map<UTXO, Output>

  /** TransactionPool: transactions keyed by their hash. */
  type TxPool = map<Hash, Transaction>

  /** The reference an input spends. */
  function Spent(i: Input): (u: UTXO) {
    UTXO(i.prevTxHash, i.outputIndex)
  }

  /** The references a sequence of inputs spends. */
  function Consumed(ins: seq<Input>): (s: set<UTXO>)
    ensures forall k | 0 <= k < |ins| :: Spent(ins[k]) in s
    ensures forall u :: u in s ==> exists k | 0 <= k < |ins| :: Spent(ins[k]) == u
  {
    set k | 0 <= k < |ins| :: Spent(ins[k])
  }

  /** The outputs of the transaction hashed `h`, each keyed by (h, its position). */
  function Outputs(h: Hash, outs: seq<Output>): (m: UTXOPool)
    ensures forall u :: u in m <==> u.txHash == h && 0 <= u.index < |outs|
    ensures forall i | 0 <= i < |outs| :: m[UTXO(h, i)] == outs[i]
  {
    map i | 0 <= i < |outs| :: UTXO(h, i) := outs[i]
  }

  /** The effect of one accepted transaction: its inputs' references are gone,
      then its own outputs are present. */
  function ApplyTx(pool: UTXOPool, tx: Transaction): (r: UTXOPool)
    ensures forall u :: u in r <==>
      (u.txHash == tx.hash && 0 <= u.index < |tx.outputs|) || (u in pool && u !in Consumed(tx.inputs))
    ensures forall u | u in r && u in pool && !(u.txHash == tx.hash && 0 <= u.index < |tx.outputs|) ::
      r[u] == pool[u]
    ensures forall i | 0 <= i < |tx.outputs| :: r[UTXO(tx.hash, i)] == tx.outputs[i]
  {
    (pool - Consumed(tx.inputs)) + Outputs(tx.hash, tx.outputs)
  }

  /** The hashes of a sequence of transactions. */
  function TxHashes(txs: seq<Transaction>): (s: set<Hash>)
    ensures forall h :: h in s <==> exists k | 0 <= k < |txs| :: txs[k].hash == h
  {
    set k | 0 <= k < |txs| :: txs[k].hash
  }

  /** Every entry of a block's transaction list is present. */
  predicate AllPresent(txs: seq<Option<Transaction>>) {
    forall k | 0 <= k < |txs| :: txs[k].Some?
  }

  /** The transactions of a list whose entries are all present. */
  function Present(txs: seq<Option<Transaction>>): (r: seq<Transaction>)
    requires AllPresent(txs)
    ensures |r| == |txs|
    ensures forall k | 0 <= k < |txs| :: txs[k] == Some(r[k])
  {
    if txs == [] then [] else [txs[0].value] + Present(txs[1..])
  }

  /** One more output position added to a pool that already holds the
      earlier ones. */
  lemma OutputsGrow(pool: UTXOPool, h: Hash, outs: seq<Output>, i: nat)
    requires i < |outs|
    ensures pool + Outputs(h, outs[..i + 1]) == (pool + Outputs(h, outs[..i]))[UTXO(h, i) := outs[i]]
  {
    var m, m' := Outputs(h, outs[..i]), Outputs(h, outs[..i + 1]);
    forall u ensures u in m' <==> u in m || u == UTXO(h, i) {
      assert u in m' <==> u.txHash == h && 0 <= u.index < i + 1;
    }
    forall u | u in m ensures m'[u] == m[u] {
      assert m[u] == outs[..i][u.index] == outs[..i + 1][u.index];
    }
    assert m'[UTXO(h, i)] == outs[..i + 1][i];
    assert m' == m[UTXO(h, i) := outs[i]];
  }

  /** Adds outputs one position at a time (`addUTXO` overwrites an entry
      already present under the same reference). */
  method AddOutputs(pool: UTXOPool, h: Hash, outs: seq<Output>) returns (p: UTXOPool)
    ensures p == pool + Outputs(h, outs)
  {
    p := pool;
    var i := 0;
    while i < |outs|
      invariant 0 <= i <= |outs|
      invariant p == pool + Outputs(h, outs[..i])
    {
      OutputsGrow(pool, h, outs, i);
      p := p[UTXO(h, i) := outs[i]];
      i := i + 1;
    }
    assert outs[..i] == outs;
  }

  /** Removes, input by input, the reference each input spends (`removeUTXO`
      on a missing reference does nothing). */
  method RemoveInputs(pool: UTXOPool, ins: seq<Input>) returns (p: UTXOPool)
    ensures p == pool - Consumed(ins)
  {
    p := pool;
    var k := 0;
    while k < |ins|
      invariant 0 <= k <= |ins|
      invariant p == pool - Consumed(ins[..k])
    {
      assert Consumed(ins[..k + 1]) == Consumed(ins[..k]) + {Spent(ins[k])} by {
        assert ins[..k + 1][k] == ins[k];
        forall u | u in Consumed(ins[..k + 1]) ensures u in Consumed(ins[..k]) + {Spent(ins[k])} {
          var j :| 0 <= j < k + 1 && Spent(ins[..k + 1][j]) == u;
          if j < k { assert ins[..k + 1][j] == ins[..k][j]; }
        }
        forall u | u in Consumed(ins[..k]) ensures u in Consumed(ins[..k + 1]) {
          var j :| 0 <= j < k && Spent(ins[..k][j]) == u;
          assert ins[..k + 1][j] == ins[..k][j];
        }
      }
      p := p - {Spent(ins[k])};
      k := k + 1;
    }
    assert ins[..k] == ins;
  }

  /** Removes, transaction by transaction, each confirmed transaction's hash
      from a transaction pool. */
  method RemoveConfirmed(pool: TxPool, txs: seq<Transaction>) returns (p: TxPool)
    ensures p == pool - TxHashes(txs)
  {
    p := pool;
    var k := 0;
    while k < |txs|
      invariant 0 <= k <= |txs|
      invariant p == pool - TxHashes(txs[..k])
    {
      assert TxHashes(txs[..k + 1]) == TxHashes(txs[..k]) + {txs[k].hash} by {
        assert txs[..k + 1][k] == txs[k];
        forall h | h in TxHashes(txs[..k + 1]) ensures h in TxHashes(txs[..k]) + {txs[k].hash} {
          var j :| 0 <= j < k + 1 && txs[..k + 1][j].hash == h;
          if j < k { assert txs[..k + 1][j] == txs[..k][j]; }
        }
        forall h | h in TxHashes(txs[..k]) ensures h in TxHashes(txs[..k + 1]) {
          var j :| 0 <= j < k && txs[..k][j].hash == h;
          assert txs[..k + 1][j] == txs[..k][j];
        }
      }
      p := p - {txs[k].hash};
      k := k + 1;
    }
    assert txs[..k] == txs;
  }
}

/**
 * Replaying a block's transactions, in block order, against a working UTXO
 * pool: each transaction is judged by the external validator against the pool
 * as the earlier transactions of the same block left it, and the first one it
 * rejects rejects the whole block.
 */
module BlockReplay {
  import opened Wrappers
  import opened Ledger

  /** The external transaction validator (`TxHandler.isValidTx`), as a verdict
      on a transaction against a UTXO pool. */
  type Validator = (UTXOPool, Transaction) -> bool

  /** The pool after applying every transaction in order, without judging them. */
  function ApplyAll(pool: UTXOPool, txs: seq<Transaction>): (r: UTXOPool)
    decreases |txs|
  {
    if txs == [] then pool else ApplyAll(ApplyTx(pool, txs[0]), txs[1..])
  }

  /** Every transaction is accepted against the pool that the transactions
      before it produced. */
  ghost predicate AllValid(valid: Validator, pool: UTXOPool, txs: seq<Transaction>) {
    forall k | 0 <= k < |txs| :: valid(ApplyAll(pool, txs[..k]), txs[k])
  }

  /** The replay as the source runs it: judge, apply, go on; stop at the first
      rejection. */
  function Replay(valid: Validator, pool: UTXOPool, txs: seq<Transaction>): (r: Option<UTXOPool>)
    decreases |txs|
  {
    if txs == [] then Some(pool)
    else if !valid(pool, txs[0]) then None
    else Replay(valid, ApplyTx(pool, txs[0]), txs[1..])
  }

  /** Replay succeeds exactly when every transaction is valid against the pool
      its predecessors in the block produced, and then yields the pool after
      all of them; otherwise it yields nothing at all. */
  lemma {:induction false} ReplayAllOrNothing(valid: Validator, pool: UTXOPool, txs: seq<Transaction>)
    ensures Replay(valid, pool, txs) ==
      if AllValid(valid, pool, txs) then Some(ApplyAll(pool, txs)) else None
    decreases |txs|
  {
    if txs != [] {
      var t, rest := txs[0], txs[1..];
      var next := ApplyTx(pool, t);
      assert txs[..0] == [];
      if valid(pool, t) {
        ReplayAllOrNothing(valid, next, rest);
        forall k | 0 < k < |txs|
          ensures ApplyAll(pool, txs[..k]) == ApplyAll(next, rest[..k - 1]) && txs[k] == rest[k - 1]
        {
          assert txs[..k][0] == t && txs[..k][1..] == rest[..k - 1];
        }
        if AllValid(valid, pool, txs) {
          forall j | 0 <= j < |rest| ensures valid(ApplyAll(next, rest[..j]), rest[j]) {
            assert valid(ApplyAll(pool, txs[..j + 1]), txs[j + 1]);
          }
        } else {
          var k :| 0 <= k < |txs| && !valid(ApplyAll(pool, txs[..k]), txs[k]);
          assert !valid(ApplyAll(next, rest[..k - 1]), rest[k - 1]);
        }
      } else {
        assert !valid(ApplyAll(pool, txs[..0]), txs[0]);
      }
    }
  }

  /** The replay loop of block admission: for each transaction, ask the
      validator against the working pool, then remove the references its
      inputs spend and add its outputs. */
  method ReplayBlock(valid: Validator, pool: UTXOPool, txs: seq<Transaction>)
    returns (ok: bool, p: UTXOPool)
    ensures ok == Replay(valid, pool, txs).Some?
    ensures ok ==> p == Replay(valid, pool, txs).value
  {
    p := pool;
    var k := 0;
    while k < |txs|
      invariant 0 <= k <= |txs|
      invariant Replay(valid, pool, txs) == Replay(valid, p, txs[k..])
    {
      var t := txs[k];
      assert txs[k..][0] == t && txs[k..][1..] == txs[k + 1..];
      if !valid(p, t) {
        return false, p;
      }
      p := RemoveInputs(p, t.inputs);
      p := AddOutputs(p, t.hash, t.outputs);
      k := k + 1;
    }
    assert txs[k..] == [];
    ok := true;
  }
}

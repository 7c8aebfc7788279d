# Fork-aware block tree of a UTXO node, in Dafny

This project models `BlockChain`, the block tree of a UTXO-based cryptocurrency
node. The tree keeps every admitted block as a node. Each node holds its
parent, its children, its height, its own UTXO pool and its own pending
transaction pool. The tree also keeps a best tip and a chain-level transaction
pool.

`addBlock` refuses a block in four cases:
- it names no previous block;
- no retained node has the hash it names;
- its height is at or below `tip height - CUT_OFF_AGE` (`CUT_OFF_AGE` is 10);
- the external validator refuses one of its transactions. Each transaction is
  judged against the parent's pool as the earlier transactions of the same
  block left it.

Otherwise the new node gets:
- a UTXO pool: the parent's pool, after each transaction's inputs are removed
  and its outputs added, in block order, and then the coinbase outputs added;
- a pending pool: the parent's pool minus the block's transactions.

The node is then attached as its parent's child and appended. The best tip is
rescanned: the greatest height wins, and on a tie the node created earliest.

Modules:
- `Wrappers`: `Option`.
- `Ledger`: hashes, `Output`, `Input`, `Transaction`, `Block`, `UTXO`, and the
  pools `UTXOPool` (`map<UTXO, Output>`) and `TxPool` (`map<Hash, Transaction>`).
  Also the loops that add outputs, remove spent inputs and drop confirmed
  transactions.
- `BlockReplay`: the validator type, the replay loop, and its all-or-nothing
  characterisation. The fold `Replay` is the loop at
  testing/BlockChain.java:130-147.
- `ForkTree`: the node datatype, lookup by hash, the best-tip scan, the tree's
  well-formedness, and attaching a node. `Attach` is the child registration
  and append at testing/BlockChain.java:45 and 155-156.
- `Genesis`: the genesis node's pools. `SeedUtxos` and `SeedTxPool` are the
  seeding loop at testing/BlockChain.java:70-79.
- `Admission`: the admission decision `Admit` and the lemmas about it. `Admit`
  is the decision and node construction of testing/BlockChain.java:117-153.
- `Chain`: class `BlockChain`, with the fields `nodes` (bChain), `tallest`
  (tallestNode, as a position) and `tPool`.

In three places the code does something other than what its comments and
design intend. The model follows the code in each:
- `addTransaction` writes to the chain-level pool (`BlockChain.java` line 12).
  `addBlock` never reads that pool or removes anything from it. The nodes' own
  pending pools are separate.
- `getMaxHeightUTXOPool` returns the tip's own pool, not a copy (line 97).
- No node is ever evicted. So retained nodes can lie below the retention floor.
  Such a node cannot take a child, because its children would be stale.

## Model

| member | source | states |
|---|---|---|
| `Ledger.Outputs` | testing/BlockChain.java:143-146 | a transaction's outputs are keyed by exactly (its hash, i) for 0 <= i < count, and (hash, i) maps to output i |
| `Ledger.ApplyTx` | testing/BlockChain.java:135-146 | after one transaction, a reference is present iff it is one of that transaction's outputs, or it was present and none of its inputs spends it; each new reference (its hash, i) holds its output i, and other references keep their outputs |
| `Ledger.AddOutputs` | testing/BlockChain.java:143-146 | the loop that adds outputs one by one gives the old pool overwritten with all of the transaction's outputs |
| `Ledger.RemoveInputs` | testing/BlockChain.java:135-140 | the loop that removes inputs one by one gives the old pool without every reference that some input spends |
| `Ledger.RemoveConfirmed` | testing/BlockChain.java:151-153 | the loop that removes transactions one by one gives the pending pool without the hash of any of the block's transactions |
| `BlockReplay.ReplayBlock` | testing/BlockChain.java:130-147 | the replay loop with early exit reports success exactly when the fold `Replay` does, and then returns its pool |
| `BlockReplay.ReplayAllOrNothing` | testing/BlockChain.java:128-134 | replay succeeds iff every transaction is valid against the pool its predecessors in the block produced; it then yields the pool after all of them, and otherwise yields nothing |
| `ForkTree.FindNode` | testing/BlockChain.java:16-25 | the result is the first node whose block hash equals the given hash byte for byte, and it is None iff no node has that hash |
| `Chain.BlockChain.GetParentNode` | testing/BlockChain.java:16-25 | the linear search with early return gives the same result as `FindNode` |
| `ForkTree.SelectTallest` | testing/BlockChain.java:159-170 | the scan returns a node of greatest height, created earliest among those; if the starting tip already is one, the scan keeps it |
| `ForkTree.TallestUnique` | testing/BlockChain.java:159-170 | when the stamps follow creation order, only one node is the best tip |
| `ForkTree.TipAfterAttach` | testing/BlockChain.java:155-170 | after a node is attached, the best tip is the new node if that node is strictly taller than the old tip, and the old tip otherwise, so a tie does not displace the tip |
| `ForkTree.TipNeverLower` | testing/BlockChain.java:159-170 | the best tip's height never decreases when a node is attached |
| `ForkTree.AttachKeepsNodes` | testing/BlockChain.java:128-129 | attaching appends exactly one node and adds it to its parent's children; no existing node's block, parent, height, stamp, UTXO pool or pending pool changes |
| `ForkTree.AttachChildren` | testing/BlockChain.java:41-45 | after attaching, each node's children are exactly the nodes that name it as parent, in creation order |
| `ForkTree.AttachWellFormed` | testing/BlockChain.java:38-48 | attaching a childless node one taller than its parent, stamped next, keeps the tree well formed: parentless genesis at height 1, earlier parents, height = parent + 1, children lists exact |
| `Genesis.GenesisTree` | testing/BlockChain.java:80-82 | the tree with only the genesis node is well formed, that node has no parent and height 1, and it is the tip |
| `Genesis.SeedUtxosKeys` | testing/BlockChain.java:70-79 | a reference is in the seeded pool iff it was there before or some present entry has an output there |
| `Genesis.SeedUtxosLastWriter` | testing/BlockChain.java:70-79 | the value at a reference is the output of the last present entry that has an output there |
| `Genesis.SeedUtxosUntouched` | testing/BlockChain.java:70-79 | a reference that no entry has an output at keeps its value |
| `Genesis.SeedTxPoolKeys` | testing/BlockChain.java:69-78 | a hash is in the seeded pending pool iff it was there before or belongs to a present entry |
| `Genesis.GenesisUtxosKeys` | testing/BlockChain.java:64-79 | the genesis UTXO pool holds exactly the coinbase outputs and the outputs of every present genesis transaction |
| `Genesis.GenesisCoinbaseValue` | testing/BlockChain.java:66-68 | a coinbase output that no genesis transaction overwrites is in the genesis pool with its own value |
| `Genesis.GenesisTxOutputValue` | testing/BlockChain.java:70-76 | an output of a genesis transaction that no later genesis transaction overwrites is in the genesis pool with its own value |
| `Genesis.GenesisTxPoolKeys` | testing/BlockChain.java:65-79 | the genesis pending pool holds the coinbase and every present genesis transaction, and nothing else |
| `Admission.RejectionReasons` | testing/BlockChain.java:117-134 | a missing previous hash, an unknown parent, a stale height and an invalid transaction each refuse the block, with that reason |
| `Admission.AcceptedNode` | testing/BlockChain.java:124-156 | a block with a retained parent is accepted iff it is not stale and every transaction is valid in turn; the node is then the parent's child at parent height + 1, stamped next, with UTXO pool = parent's pool after all transactions plus the coinbase outputs, and pending pool = parent's minus the block's transactions |
| `Admission.AcceptedAboveFloor` | testing/BlockChain.java:124-127 | an accepted block's height is greater than the current tip height minus CUT_OFF_AGE, and its parent is a retained node with the hash it names |
| `Admission.GenesisExtensionWindow` | testing/BlockChain.java:107-112 | a block on a height-1 node is stale iff the tip is higher than CUT_OFF_AGE + 1 |
| `Chain.BlockChain.constructor` | testing/BlockChain.java:63-83 | the seeding loops build exactly one node, the genesis node with no parent, height 1 and the genesis pools; it is the tip; the chain-level pool is empty |
| `Chain.BlockChain.GetMaxHeightBlock` | testing/BlockChain.java:87-90 | returns the block of the best tip |
| `Chain.BlockChain.GetMaxHeightUTXOPool` | testing/BlockChain.java:95-98 | returns the best tip's own UTXO pool |
| `Chain.BlockChain.GetTransactionPool` | testing/BlockChain.java:102-105 | returns the chain-level pool |
| `Chain.BlockChain.AddTransaction` | testing/BlockChain.java:178-181 | records the transaction under its hash in the chain-level pool, changes nothing else, and keeps the invariant |
| `Chain.BlockChain.AddBlock` | testing/BlockChain.java:115-174 | returns true iff `Admit` accepts; on refusal nothing changes; on acceptance the node `Admit` built is attached and the tip is the new node iff it is strictly taller than the old tip; the invariant holds; the chain-level pool never changes |
| `Chain.BlockChain.AddNode` | testing/BlockChain.java:155-172 | attaches the node (parent's child list, then bChain), rescans for the tip, and keeps the invariant |

## Left out

- `TxHandler.isValidTx` is external, so its rules (signatures, value balance, double spending) are not modelled. The validator is a function argument of `AddBlock`.
- Because the validator's rules are unknown, the model does not prove that no double spend survives admission.
- `Chain.BlockChain.AddBlock`: requires every entry of the block's transaction list to be present. On a null entry the source either passes null to the validator or dereferences it, and this core does not handle that case.
- `java.sql.Timestamp` and the clock read are replaced by a strictly increasing admission counter: each node's stamp is its position in `nodes`. So two nodes created in the same millisecond, whose stamps would be equal in the source, cannot occur.
- `BlockNode` objects are modelled as values in a sequence, and parents and children are referred to by position. So object identity and aliasing are not modelled. In particular, the caller of `getMaxHeightUTXOPool` in the source gets the tip's live pool; here the caller gets a value.
- `getUTXOPoolCopy` and `getTransactionPoolCopy` need no members of their own, because pools are immutable values. `AttachKeepsNodes` shows that the parent's pools are untouched.
- `bChain.add` always returns true (`ArrayList.add`), so `AddBlock` treats it as unconditional.
- The `UTXOPool`, `TransactionPool`, `Block`, `Transaction`, `UTXO` and `ByteArrayWrapper` classes are not part of this model. They appear as the datatypes and maps above. Output contents (a `double` value and a public key) are carried as opaque data and never inspected.
- Java `int` overflow of heights and indices is not modelled. Heights are bounded by the number of blocks.
- Node eviction below the retention floor is not modelled, because the code never evicts.
- Concurrency is not modelled, because the code is sequential.

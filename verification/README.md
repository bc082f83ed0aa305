# RAILGUN engine: Merkle forest, TXID sync, coin selection, polling

This project models the stateful heart of the RAILGUN wallet engine and proves what the rest of the
engine relies on:

* **The Merkle forest.** `MerkleSpec` says what a tree is: the recursive `Node(leaves, level, index)`
  over an abstract two-input hash.  `Merkletrees.Merkletree` is the stateful form: node hashes in a
  database behind a cache, leaf data, cached and stored lengths, a sparse write queue with shrinking
  batches, the invalid-root marker, the historical roots of a POI node.  Its `Valid()` says that
  every stored piece agrees with the abstract forest; every method keeps it, so every node lookup in
  every reachable state equals `Node`.
* **The write queue.** `WriteQueue` gives the one-by-one reference that processing in batches must
  come to, and the confluence of out-of-order delivery; `CommitmentListener` carries that to the class.
* **The TXID forest.** `TXIDMerkletrees.TXIDMerkletree` places transactions over consecutive trees,
  takes and uses the POI launch snapshot, and truncates; `TXIDSync` is the V2 sync with its
  verification chain.
* **Coin selection.** `Solutions` is the greedy batcher, `Spending` what it guarantees,
  `TransactionBatches` the simple and complex solvers behind one transaction, `WalletBalances` the
  balances they start from.
* **The two protocols.** `Polling` (the batched event subscriber) and `QueueLock` (the promise chain
  around queue processing) are state machines over the steps between two waits; each has a class
  with the source's fields, proved equal to the state machine.
* **What relies on them.** `DatabaseKeys` is the ordered key layout, `DatabaseLayout` ties it to the
  maps a tree keeps its nodes and leaves in, `WalletScan` the resumable
  balance scan.

Hashes are numbers and the hash is a parameter, injective only where `ProofBinds` says so.  The
merkleroot validator is a function parameter that accepts, rejects or fails to answer.  Ghost
parameters and ghost fields (`view`, `all`, `settled`, `before`, `history`, `fetched`, the logs) name
the abstract state; they steer nothing.  Lemmas carry `{:induction false}`: every induction is written
out.

Where the code and its own comments differ, the code is followed: `createSimpleSatisfyingUTXOGroup`
is commented as finding the first satisfying tree but keeps the last one with a defined result, so
that it succeeds exactly when some tree can pay alone and every later tree has the balance but
cannot (`SimpleGroupIff`; `PoorLastTreeWins` is the simplest failing family), and `verifyMerkleProof` and `getMerkleProof` are total in the index: a proof
beyond the tree verifies exactly when the ancestor at root level happens to be the root
(`ProofVerifies`), up to index 2^31.  From there on `^` and `>>` read the siblings of the index's
low 32 bits, and `AnyProofVerifies` gives the exact condition.

## Model

| member | source | states |
|---|---|---|
| MerkleSpec.NodeUnchangedOutside | src/merkletree/merkletree.ts:648-698 | a node depends only on the leaves below it: trees that agree outside first..last agree on every node outside the shifted range |
| MerkleSpec.NodeBeyond | src/merkletree/merkletree.ts:321-336 | right of the edge over the last leaf every node is the zero of its level, which is what a failed lookup returns |
| MerkleSpec.NodeGrown | src/merkletree/txid-merkletree.ts:226-228 | appending changes no node left of the old edge ("always same as snapshot") |
| MerkleSpec.FoldClimbs | src/merkletree/merkle-proof.ts:32-49 | folding a proof that carries a leaf and its siblings gives, after each element, the ancestor at that level, as only the low bits of the index count |
| MerkleSpec.ProofVerifies | src/merkletree/merkle-proof.ts:32-49 | round trip: the proof of every position of every tree verifies; beyond the tree, below index 2^31, exactly when the ancestor at root level equals the root |
| MerkleSpec.AnyProofVerifies | src/merkletree/merkletree.ts:128-160 | for every index, also where 32-bit `^` and `>>` read the siblings of another one: a proof verifies exactly when, in the tree without the leaf it does not carry, the ancestor of the low 32 bits is the root |
| MerkleSpec.ProofBinds | src/merkletree/merkle-proof.ts:32-49 | binding: with an injective hash a full-depth proof for a position and root verifies if and only if it is the tree's own proof |
| MerkleSpec.CreateDummyMerkleProof | src/merkletree/merkle-proof.ts:7-25 | the dummy proof has index 0 and zero siblings and verifies against the root it carries |
| MerkleSpec.RightEdgeTop | src/merkletree/txid-merkletree.ts:455-483 | the top of the saved right edge is the root of the tree it was taken of |
| MerkleSpec.SnapshotSiblingIsOld | src/merkletree/txid-merkletree.ts:210-230 | right of, on and left of the saved edge: each sibling recovered from the edge and any grown tree is the sibling at snapshot time |
| WriteQueue.BatchIsShortcut | src/merkletree/merkletree.ts:843-881 | for a prefix-closed validator an accepted batch leads to the same one-by-one result as its groups |
| WriteQueue.RemainsMore | src/merkletree/merkletree.ts:734-741 | batch after batch, exactly the inserted groups leave the queue, beside those behind the end the tree had |
| WriteQueue.OneByOneIsLongest | src/merkletree/merkletree.ts:743-805 | the one-by-one result is a batch boundary, accepted unless nothing was inserted, and extends every accepted boundary: the longest valid contiguous run |
| WriteQueue.AcceptingDrains | src/merkletree/merkletree.ts:743-805 | with an accepting validator that run is everything contiguous |
| WriteQueue.RunIsConsistent | src/merkletree/merkletree.ts:912-931 | in every run of deliveries and processing the tree holds delivered commitments 0..n-1 and the queue holds exactly the delivered ones from n on |
| WriteQueue.BatchKeepsConsistent | src/merkletree/merkletree.ts:843-881 | whatever number of groups a call inserts, the tree again holds delivered commitments 0..n-1 |
| WriteQueue.DeliveryOrderIrrelevant | src/merkletree/merkletree.ts:843-881 | whatever the order, repetition and interleaving, after processing the tree holds exactly the commitments before the first gap, and nothing beyond it |
| Merkletrees.Merkletree.constructor | src/merkletree/merkletree.ts:71-94 | opening over a database that agrees with a forest, fresh or left behind, and for a UTXO tree whose roots the validator accepts, gives a valid tree with that forest, the zeros of every level and an empty queue |
| Merkletrees.Merkletree.CanReopen | src/merkletree/merkletree.ts:348-400 | the database of any valid tree can be opened again, with the roots its validator accepts |
| Merkletrees.FreshDatabaseOk | src/merkletree/merkletree.ts:348-400 | so can an empty database |
| Merkletrees.Merkletree.GetNodeHash | src/merkletree/merkletree.ts:321-336 | cache, then database, then the zero of the level; filling the cache keeps it agreeing with the database |
| Merkletrees.Merkletree.NodeHash | src/merkletree/merkletree.ts:321-336 | on a valid tree a lookup equals the recursive hash of the leaves, for every level and index |
| Merkletrees.Merkletree.GetTreeLength | src/merkletree/merkletree.ts:402-419 | cached, else stored, else counted length, remembered |
| Merkletrees.Merkletree.TreeLength | src/merkletree/merkletree.ts:402-419 | on a valid tree it is the number of leaves, whichever source it came from |
| Merkletrees.Merkletree.GetTreeLengthFromDBCount | src/merkletree/merkletree.ts:447-452 | counting the stored leaf data gives the number of leaves, wherever the stored data agrees with the forest |
| Merkletrees.CountIsLength | src/merkletree/merkletree.ts:447-452 | a tree whose leaves are stored at positions 0..n-1 has exactly n stored positions |
| Merkletrees.Merkletree.ResetTreeLength | src/merkletree/merkletree.ts:434-445 | the cached and the stored length of the tree are forgotten and nothing else changes, so that the next read has to count |
| Merkletrees.Merkletree.UpdateStoredMerkletreesMetadata | src/merkletree/merkletree.ts:421-432 | the stored metadata holds the tree's length and its marker |
| Merkletrees.Merkletree.FillHashWriteGroup | src/merkletree/merkletree.ts:648-698 | starting at odd or even offsets and over-covering the right edge, each row holds only true nodes of the new tree and covers the changed range |
| Merkletrees.Merkletree.HashRow | src/merkletree/merkletree.ts:660-697 | one level: pairs from the row below, or from cache, database or zero, hash to true nodes |
| Merkletrees.Merkletree.HashPair | src/merkletree/merkletree.ts:668-690 | one pair: the true node above two siblings, wherever each is read from |
| Merkletrees.Merkletree.PlaceLeaves | src/merkletree/merkletree.ts:561-577 | the leaves and their hashes at consecutive indices from the start |
| Merkletrees.GroupWritten | src/merkletree/merkletree.ts:489-541 | overlaying such rows makes every lookup right for the new leaves and leaves other trees alone |
| Merkletrees.Merkletree.WriteTreeToDB | src/merkletree/merkletree.ts:489-541 | rows, data, length, metadata and, on a POI node, the root at the last index are all written, and nothing else |
| Merkletrees.Merkletree.WriteNodes | src/merkletree/merkletree.ts:495-512 | every row goes to cache and database, which keep agreeing |
| Merkletrees.Merkletree.InsertLeaves | src/merkletree/merkletree.ts:549-611 | appends the leaves exactly when the validator accepts the new root for the last index (or validation is skipped), changes no leaf otherwise, and keeps the tree valid; a valid root clears the markers it passes, an invalid one of a UTXO tree marks its last index and block unless a lesser mark is there, a failed validator leaves them; a tree counts as unvalidated exactly while it was last written with a root the validator does not accept |
| Merkletrees.WriteKeepsOk | src/merkletree/merkletree.ts:592-611 | an accepted write keeps the whole stored state in agreement: nodes, data, lengths, metadata, roots, marker |
| Merkletrees.HistoryWritten | src/merkletree/txid-merkletree.ts:598-608 | a single-leaf append keeps a historical root at every position of the tree and none beyond it, each the root of the tree cut after the position |
| Merkletrees.RootsCommitted | src/merkletree/utxo-merkletree.ts:230-278 | through an insertion the marker stays at or beyond the length and the least of the failing positions, and the historical roots stay right |
| Merkletrees.MarkerSurvives | src/merkletree/utxo-merkletree.ts:246-278 | a valid root clears the marker exactly if it lies at or before the last valid index, an invalid one leaves the lesser of both, and other trees keep theirs |
| Merkletrees.FailingSurvives | src/merkletree/utxo-merkletree.ts:246-278 | the failing positions the marker is the least of go with it, and an invalid root adds its own |
| Merkletrees.OutcomeIs | src/merkletree/merkletree.ts:582-611 | an accepted root is inserted, a rejected one only without validation, and without an answer nothing is inserted, rejected or marked |
| Merkletrees.RootsInserted | src/merkletree/utxo-merkletree.ts:230-244 | after a write every non-empty tree not marked as unvalidated still has a root the validator accepts for its last index |
| Merkletrees.Merkletree.CurrentRootAccepted | src/merkletree/merkletree.ts:581-606 | in every valid state the validator accepts the current root of a non-empty UTXO tree for its last index, unless the tree was last written with validation skipped |
| Merkletrees.RoundMarks | src/merkletree/utxo-merkletree.ts:246-265 | when the loop gives up on a group of a UTXO tree although the validator answers, the marker lies in that group |
| Merkletrees.Merkletree.ValidRootCallback | src/merkletree/utxo-merkletree.ts:267-278 | a marker at or before the last valid index is removed and the removal stored; another one stays |
| Merkletrees.Merkletree.InvalidRootCallback | src/merkletree/utxo-merkletree.ts:246-265 | the marker becomes the least failing position since it was last cleared |
| Merkletrees.NextProcessingGroupSize | src/merkletree/merkletree.ts:814-841 | the next size is the greatest of the ladder below, so that no rung is skipped; below single leaves there is none |
| Merkletrees.Merkletree.CollectGroups | src/merkletree/merkletree.ts:852-866 | the contiguous groups at the tree's end, at most `max` of them, in order |
| Merkletrees.Merkletree.ProcessWriteQueue | src/merkletree/merkletree.ts:843-881 | at most `max` contiguous groups are inserted and dequeued together, or the verdict says why not and the queue stays |
| Merkletrees.Merkletree.DropAdded | src/merkletree/merkletree.ts:734-741 | groups behind the tree's end leave the queue, and no other does |
| Merkletrees.Merkletree.DropEmptyQueue | src/merkletree/merkletree.ts:798-803 | the queue of a tree goes exactly if it is empty, and what is queued stays the same |
| Merkletrees.Merkletree.ProcessRound | src/merkletree/merkletree.ts:748-796 | one round moves along the one-by-one reference and from full batch to full batch, steps down a rung, or stops with a reason |
| Merkletrees.RoundDone | src/merkletree/merkletree.ts:758-796 | whatever a batch came to, the loop stands where it should: at a batch boundary, still on the one-by-one reference and on full batches if the validator allows it |
| Merkletrees.Merkletree.RunQueue | src/merkletree/merkletree.ts:743-805 | the loop ends (fewer groups, or a smaller rung) at a batch boundary, with nothing left at the end of the tree if the roots after full batches get through; the measure is lexicographic |
| Merkletrees.Merkletree.ProcessWriteQueueForTree | src/merkletree/merkletree.ts:715-812 | the tree ends as `Descent` says: batches, stepping down a size for good whenever a root is rejected; for a prefix-closed validator that answers that is the one-by-one reference; if the roots after full batches get through, everything contiguous is inserted; a group left waiting in a UTXO tree has left its marker there; exactly the groups inserted, and those behind the old end, have left the queue |
| Merkletrees.EverySizeTried | src/merkletree/merkletree.ts:743-841 | a call that leaves a group waiting although the validator answers has had every size from some size down rejected there, and every size there is to try if it inserted nothing |
| Merkletrees.UnansweredStops | src/merkletree/merkletree.ts:786-795 | a validator that does not answer ends the call: no smaller size is tried |
| Merkletrees.Merkletree.UpdateTreesFromWriteQueue | src/merkletree/merkletree.ts:893-910 | the same for every tree of the forest, the markers included |
| Merkletrees.Merkletree.TreeIndicesFromWriteQueue | src/merkletree/merkletree.ts:887-891 | exactly the trees with a queue, in ascending order |
| Merkletrees.Merkletree.QueueLeaves | src/merkletree/merkletree.ts:912-931 | a group at or beyond the tree's end is queued at its index, replacing what was there; an earlier one is ignored |
| Merkletrees.Merkletree.LatestTree | src/merkletree/merkletree.ts:937-943 | the last tree before the first empty one, or tree 0 |
| Merkletrees.Merkletree.GetMerkleProof | src/merkletree/merkletree.ts:128-160 | the proof is the true leaf, the siblings of the low 32 bits of the index and the true root; it verifies for every position in the tree, and for any index exactly in the case `AnyProofVerifies` gives |
| Merkletrees.Merkletree.ElementsIndices | src/merkletree/merkletree.ts:132-139 | the sibling index at level l is (index >> l) xor 1 in 32-bit arithmetic |
| Merkletrees.Merkletree.GetDataRange | src/merkletree/merkletree.ts:285-307 | a read of any range returns the leaves of it that exist, in order |
| Merkletrees.Merkletree.ClearAllNodeHashes | src/merkletree/merkletree.ts:214-227 | the tree's nodes below root level go from cache and database, no other tree's do |
| Merkletrees.Merkletree.RebuildAndWriteTree | src/merkletree/merkletree.ts:616-646 | rehashing the stored leaves makes every lookup of the tree equal the recursive hash of them and touches no other tree |
| Merkletrees.Merkletree.HashStoredLeaves | src/merkletree/merkletree.ts:620-640 | the stored leaves are counted and read completely, and hashed to the true nodes of every level |
| Merkletrees.RebuildAgrees | src/merkletree/merkletree.ts:616-646 | rebuilding a valid tree changes no lookup, although it covers each level to another end than insertion |
| TXIDForest.LatestIsEnd | src/merkletree/merkletree.ts:459-463 | the latest tree and index are the global position of the last leaf of the forest |
| TXIDForest.NextTreeAndIndex | src/merkletree/txid-merkletree.ts:389-394 | the next place is one global position further, crossing into the next tree at the end of one |
| TXIDForest.AllowedIff | src/merkletree/txid-merkletree.ts:382-387 | a transaction may be placed exactly if its position is not beyond maxTxidIndex |
| TXIDForest.GroupPends | src/merkletree/txid-merkletree.ts:336-378 | queueing the next group of one tree extends what the queues will insert by exactly that group |
| TXIDForest.ProcessedPends | src/merkletree/merkletree.ts:893-910 | processing keeps what is pending; once no group waits at a tree's end the forest spells it |
| TXIDForest.AcceptedNoneWaits | src/merkletree/merkletree.ts:893-910 | if the validator accepts the root of every beginning of what each tree will hold, processing leaves no group waiting, whatever it says of other roots |
| TXIDForest.CutIsPrefix | src/merkletree/txid-merkletree.ts:497-515 | cutting the trees from that of position k on leaves exactly the first k + 1 leaves of the forest |
| TXIDMerkletrees.GetRightmostNonzeroIndices | src/merkletree/txid-merkletree.ts:447-453 | one index per level, the shifted ancestors of the last leaf |
| TXIDMerkletrees.TXIDMerkletree.SavePOILaunchSnapshot | src/merkletree/txid-merkletree.ts:455-483 | on a wallet the node of tree 0 above the given leaf is saved at every level, with the flag; it is the edge of the tree if that leaf is its last; on a POI node nothing is saved |
| TXIDMerkletrees.TXIDMerkletree.ReadEdge | src/merkletree/txid-merkletree.ts:460-476 | the node above the given leaf at every level, root included |
| TXIDMerkletrees.TXIDMerkletree.GetMerkleProofWithSnapshot | src/merkletree/txid-merkletree.ts:193-250 | however much a tree has grown since the snapshot, the proof of any index below the old length is the proof of that time, and verifies against the snapshot root |
| TXIDMerkletrees.TXIDMerkletree.SnapshotElement | src/merkletree/txid-merkletree.ts:210-230 | each of the three sibling cases returns the sibling at snapshot time |
| TXIDMerkletrees.TXIDMerkletree.SavePOILaunchSnapshotIfNecessary | src/merkletree/txid-merkletree.ts:396-421 | before the first launch transaction what is queued is processed and the edge saved: that of everything before it if the validator accepts the roots on the way there; later ones change no snapshot |
| TXIDMerkletrees.SnapshotAdvances | src/merkletree/txid-merkletree.ts:284-373 | over a list of transactions the snapshot is the edge of what preceded the first launch transaction, if the validator accepts the roots on the way to it |
| TXIDMerkletrees.SnapshotChains | src/merkletree/txid-merkletree.ts:284-421 | placing one list and then another does to the snapshot what placing both at once does |
| TXIDMerkletrees.TXIDMerkletree.LaunchBlock | src/merkletree/txid-merkletree.ts:396-421 | only a wallet with a launch block takes a snapshot, from that block itself on |
| TXIDMerkletrees.LookupsArePositions | src/merkletree/txid-merkletree.ts:368-379 | with distinct txids every placed transaction is looked up at its own global position, and no other txid is entered |
| TXIDMerkletrees.TXIDMerkletree.PlaceTransaction | src/merkletree/txid-merkletree.ts:284-373 | one round: the transaction joins what is pending right behind the others, whatever is flushed |
| TXIDMerkletrees.TXIDMerkletree.FlushForSnapshot | src/merkletree/txid-merkletree.ts:319-337 | a launch transaction flushes the batch before it, until the flag is set |
| TXIDMerkletrees.TXIDMerkletree.AddToBatch | src/merkletree/txid-merkletree.ts:342-366 | the transaction joins the batch of its tree, another tree's batch being flushed first, and is queued at once on a POI node |
| TXIDMerkletrees.TXIDMerkletree.FlushBatch | src/merkletree/txid-merkletree.ts:352-356 | a batch of consecutive leaves becomes pending behind the rest |
| TXIDMerkletrees.TXIDMerkletree.PlaceTransactions | src/merkletree/txid-merkletree.ts:284-373 | the loop places exactly the allowed transactions, with their lookups and the snapshot |
| TXIDMerkletrees.TXIDMerkletree.QueueRailgunTransactions | src/merkletree/txid-merkletree.ts:269-380 | exactly the prefix that maxTxidIndex allows becomes pending at consecutive positions across trees, the same for every batching; lookups and snapshot follow |
| TXIDMerkletrees.TXIDMerkletree.UpdateTreesFromWriteQueue | src/merkletree/merkletree.ts:893-910 | what is pending stays pending; the forest settles on it if no group is left waiting, and none is if the validator accepts the roots on the way to it |
| TXIDMerkletrees.TXIDMerkletree.DeleteLeaves | src/merkletree/txid-merkletree.ts:504-511 | data and historical roots of a range are deleted, and only those |
| TXIDMerkletrees.TXIDMerkletree.CutTrees | src/merkletree/txid-merkletree.ts:501-515 | the first loop cuts each tree to what it keeps and clears its nodes |
| TXIDMerkletrees.TXIDMerkletree.RebuildTrees | src/merkletree/txid-merkletree.ts:517-526 | the second loop makes nodes, lengths and metadata of each cut tree agree again |
| TXIDMerkletrees.TXIDMerkletree.ClearLeavesAfterTxidIndex | src/merkletree/txid-merkletree.ts:492-529 | for every k >= -1 the forest keeps exactly its first min(k + 1, n) leaves, the queue is empty, and nodes, lengths, metadata, data and historical roots agree again |
| TXIDMerkletrees.TXIDMerkletree.ClearLeavesForInvalidVerificationHash | src/merkletree/txid-merkletree.ts:485-490 | the last leaves go, all of them if there are fewer |
| TXIDMerkletrees.TXIDMerkletree.GetHistoricalMerkleroot | src/merkletree/txid-merkletree.ts:610-622 | on a POI node the root stored for a position is the root of the tree cut after it, after any appends and truncations, and there is none beyond the end of the tree |
| TXIDMerkletrees.TXIDMerkletree.GetLatestTreeAndIndex | src/merkletree/merkletree.ts:459-463 | the latest tree and its length less one |
| TXIDSync.ScanKeepsChain | src/railgun-engine.ts:1097-1254 | what the loop collects continues the verification chain |
| TXIDSync.ScanStops | src/railgun-engine.ts:1079-1254 | the loop takes the V2 transactions before the first that lacks a commitment or does not continue the chain, and stops there for that reason, or at the end |
| TXIDSync.SyncIs | src/railgun-engine.ts:1021-1257 | a sync leaves the forest alone once it has reached the validated index; otherwise the scanned transactions follow up to that index, and the last ten leaves go only if a complete V2 transaction broke the chain |
| TXIDSync.SyncKeepsChain | src/railgun-engine.ts:1021-1257 | through queueing, flushing, capping, the missing-commitment stop and the truncation of ten leaves, every leaf's verification hash is the chain hash of the one before and its own first nullifier |
| TXIDSync.CappedTwice | src/railgun-engine.ts:1069-1077 | flushing in chunks under the validated index is flushing once |
| TXIDSync.FlushQueue | src/railgun-engine.ts:1069-1077 | the collected transactions, up to the validated index, are settled behind the forest exactly when no group is left waiting, and none is if the validator accepts the roots on the way to them; behind a settled forest their lookups are entered and the snapshot is taken where it is due, whether or not a group waits |
| TXIDSync.FlushMore | src/railgun-engine.ts:1069-1077 | a further flush behind earlier ones settles and records, in lookups and snapshot, what one flush of both would |
| TXIDSync.FlushAndClear | src/railgun-engine.ts:1213-1238 | the stop on a broken chain: the rest is flushed and recorded, then the last ten leaves go while lookups and snapshot stay |
| TXIDSync.RecordsChain | src/railgun-engine.ts:1069-1077 | lookups and snapshot after one list and then another, each up to the validated index, are those after both at once |
| TXIDSync.SyncTransactions | src/railgun-engine.ts:1079-1257 | the loop, flushed in chunks, settles on the scanned transactions, less ten leaves when the chain broke, if the validator accepts the roots on the way to what is flushed; lookups and snapshot are those of one list |
| TXIDSync.HandleNewRailgunTransactionsV2 | src/railgun-engine.ts:1021-1257 | a sync settles on the specified result and keeps the chain on every run of a POI node, and on a wallet whenever the validator accepts the roots on the way to what is flushed; then every placed transaction is looked up at its position and the snapshot is the edge before the first launch transaction |
| TXIDSync.SyncTakesSnapshot | src/merkletree/txid-merkletree.ts:396-421 | on a wallet with a launch block, a sync that placed the first transaction of that block or later in the first tree leaves the edge `getMerkleProofWithSnapshot` asks for |
| CommitmentListener.NormalizedKeepsPosition | src/railgun-engine.ts:245-249 | normalising always lands inside a tree, and keeps the global position if and only if the index is below 2^31 |
| CommitmentListener.ProcessedIsStep | src/merkletree/merkletree.ts:715-812 | a processing call is the processing step of the delivery runs if the roots it asks for first get through: those after full batches of delivered commitments, and the one at the first gap; what the validator says of other roots does not matter |
| CommitmentListener.StrideAsked | src/merkletree/merkletree.ts:748-796 | after any number of full batches the root asked for next is that of delivered commitments only, a whole number of batches further or at the first gap |
| CommitmentListener.HeldIsLength | src/merkletree/merkletree.ts:843-931 | at every point of a run the number of leaves is the first gap at the last processing call, so that the log alone says which roots are asked for |
| CommitmentListener.OnCommitments | src/railgun-engine.ts:212-255 | each commitment of each event is delivered at its own normalised position, then the trees are processed if asked, with or without validation; every tree follows its log of events if the roots asked for get through; a call without events does nothing |
| CommitmentListener.LogAfterIs | src/railgun-engine.ts:212-255 | a call delivers exactly the commitments it brings for each tree, and processes, at its end, exactly if asked and there are events |
| CommitmentListener.QueueCommitments | src/railgun-engine.ts:242-250 | the commitments of one event are delivered one by one, each to its own tree |
| CommitmentListener.OnCommitment | src/railgun-engine.ts:245-249 | one commitment is one delivery to its own tree |
| CommitmentListener.HoldsUpToGap | src/railgun-engine.ts:240-255 | a tree that follows its log holds, after processing, exactly the commitments before the first gap |
| CommitmentListener.FollowsFromStart | src/merkletree/merkletree.ts:71-94 | every tree of a forest opened empty follows the empty log |
| CommitmentListener.Listen | src/railgun-engine.ts:212-255 | after any calls of the listener on a forest opened empty the trees follow what was delivered and processed, and each tree whose last event is a processing call holds exactly its commitments before the first gap, if each call gets the roots it asks for through |
| Solutions.SortIsStable | src/solutions/utxos.ts:10-18 | ascending, a permutation, and equal values keep their order |
| Solutions.FindNextSolutionBatch | src/solutions/complex-solutions.ts:244-288 | the batch is the specified one: exact match first, else the smallest accumulated |
| Solutions.NextBatchMeets | src/solutions/complex-solutions.ts:208-288 | a batch exists exactly when a usable UTXO is left; it has 1 to 10 distinct usable inputs, none superfluous, and covers the amount unless full or the tree is used up |
| Solutions.NextBatchChooses | src/solutions/complex-solutions.ts:244-288 | the first exact match is preferred to accumulating, and only the smallest UTXOs are accumulated |
| Solutions.FillSecondary | src/solutions/complex-solutions.ts:167-193 | change pays the secondary output as far as it is owed, which is lowered or removed |
| Solutions.CreateSpendingSolutionsForValue | src/solutions/complex-solutions.ts:90-203 | the loops over trees and batches, with their edits of the remaining outputs and the exclusion list, end as specified, or throw when the specification has no solution |
| Solutions.SpendBatch | src/solutions/complex-solutions.ts:145-193 | one batch: the group, the rest of the amount, the remaining outputs and the exclusion list stay on the specified course |
| Spending.SolutionExistsIff | src/solutions/complex-solutions.ts:196-200 | with unique ids a call throws exactly when the UTXOs neither zero nor excluded, over all trees, come to less than the value |
| Spending.SolutionConserves | src/solutions/complex-solutions.ts:27-52 | what a call's groups pay each recipient is exactly what leaves the remaining outputs, an unshield is paid exactly, and every group is within the circuits' limits and covers its outputs |
| Spending.SolutionSplits | src/solutions/complex-solutions.ts:27-52 | the notes a call makes are its outputs but for their values, token and recipient kept, in order and each in one or more pieces that add up to it |
| Spending.SolutionSpends | src/solutions/complex-solutions.ts:135-150 | the real inputs are distinct, from the trees, not excluded before; they join the exclusion list and come off what is available |
| Spending.FillInOrder | src/solutions/complex-solutions.ts:118-165 | the trees are spent in order, a later one only once every earlier one is used up |
| Spending.FillChange | src/solutions/complex-solutions.ts:135-165 | change is smaller than the largest UTXO |
| Spending.SolveSettles | src/transaction/transaction-batch.ts:279-327 | if the complex solver succeeds, its notes are the requested outputs in order, each in pieces that add up to it, each recipient and the unshield get exactly what was requested, by groups of 1 to 10 inputs and at most two outputs |
| Spending.UnshieldLast | src/transaction/transaction-batch.ts:279-327 | the outputs are paid first, and then the unshield by groups of its own |
| Spending.SplitMembers | src/note/transact-note.ts:789-795 | every note made is a requested output but for its value, and every output, of value zero too, has one |
| Spending.SolveSpendsOnce | src/transaction/transaction-batch.ts:279-327 | no UTXO is an input twice, and success needs a balance covering everything |
| Spending.SolveExists | src/transaction/transaction-batch.ts:279-327 | for any outputs and unshield a balance suffices that allows each but the last two outputs, or each output before an unshield, one UTXO of waste |
| Spending.SolveExistsIff | src/transaction/transaction-batch.ts:279-327 | for up to two outputs, or an unshield alone, the complex solver succeeds exactly when the balance covers the request |
| Spending.OneCoinStarves | src/transaction/transaction-batch.ts:279-327 | beyond that it need not: one UTXO, however large, never pays three positive outputs, nor an output and an unshield |
| TransactionBatches.FindExactSolutionsOverTargetValue | src/solutions/simple-solutions.ts:8-49 | the solution is the specified one, including the empty list for a tree whose balance is too low |
| TransactionBatches.ExactSolutionMeets | src/solutions/simple-solutions.ts:8-49 | a tree that can cover the amount does so with 1 to 10 distinct UTXOs of its own, or fails exactly when none matches and its smallest UTXOs need more than ten |
| TransactionBatches.ExactSolutionIff | src/solutions/simple-solutions.ts:8-49 | a tree with the balance has a solution if and only if one UTXO matches exactly, or it has at most ten, or its ten smallest come to the amount |
| TransactionBatches.ExactSolutionChooses | src/solutions/simple-solutions.ts:8-49 | an exact match is preferred; without one only the smallest UTXOs are taken, and none that is not needed |
| TransactionBatches.CreateSimpleSatisfyingUTXOGroup | src/transaction/transaction-batch.ts:249-274 | the last tree with a defined solution is kept |
| TransactionBatches.LastSolutionPays | src/transaction/transaction-batch.ts:249-274 | the tree kept pays if and only if it can pay alone and every later tree has the balance but cannot |
| TransactionBatches.SimpleGroupIff | src/transaction/transaction-batch.ts:214-274 | the simple solver succeeds if and only if the amount is positive and there is such a tree, and its group spends from that tree |
| TransactionBatches.PoorLastTreeWins | src/transaction/transaction-batch.ts:256-263 | so a last tree with too low a balance makes the simple solver give up, whatever the earlier trees hold |
| TransactionBatches.SimpleGroupPays | src/transaction/transaction-batch.ts:214-244 | a simple group pays everything requested from one tree, with fresh inputs |
| TransactionBatches.AllIsAvailable | src/wallet/abstract-wallet.ts:2844-2850 | the wallet's balance over all trees is what the solver may spend |
| TransactionBatches.ChangeBalances | src/transaction/transaction-batch.ts:329-357 | no group that covers its outputs makes getChangeOutput throw, and inputs equal outputs, unshield and change |
| TransactionBatches.ChangeIs | src/transaction/transaction-batch.ts:329-357 | the change is what the inputs leave, and without any there is no note for it |
| TransactionBatches.TransactionBatch.AddUnshieldData | src/transaction/transaction-batch.ts:70-81 | one unshield per token and only of a positive value |
| TransactionBatches.TransactionBatch.CreateComplexSatisfyingSpendingSolutionGroups | src/transaction/transaction-batch.ts:279-327 | the loop over remaining outputs and the unshield end as specified, None where the source throws |
| TransactionBatches.GeneratedMeets | src/transaction/transaction-batch.ts:135-212 | whatever a request returns pays every output, by notes that keep its token and recipient, and the unshield exactly with inputs equal to outputs and change, spends nothing twice, never succeeds beyond the balance, and within it always for up to two outputs or an unshield alone |
| TransactionBatches.SimpleFirst | src/transaction/transaction-batch.ts:135-212 | if the simple solver finds a tree the request takes one group from it and no other |
| TransactionBatches.OfTokenIs | src/transaction/transaction-batch.ts:135-160 | the outputs of a token are those of all outputs that have it, as often as they occur |
| TransactionBatches.TransactionBatch.GenerateValidSpendingSolutionGroups | src/transaction/transaction-batch.ts:135-212 | the balance check, the simple solver, then the complex one, come to the specified groups, with those guarantees and with notes of the requested token only |
| WalletBalances.GetTokenBalance | src/wallet/abstract-wallet.ts:2704-2768 | the unspent outputs of a token that pass the filter, in order, and their sum |
| WalletBalances.UnspentIs | src/wallet/abstract-wallet.ts:2704-2768 | an output is counted exactly if it has the token, is not spent and passes the filter, as often as it was received |
| WalletBalances.GetTotalBalancesByTreeNumber | src/wallet/abstract-wallet.ts:2788-2824 | each tree's entry holds its UTXOs in order and their sum; trees without any stay holes |
| WalletBalances.ByTreeIsSound | src/wallet/abstract-wallet.ts:2788-2850 | sorting by tree keeps balances true, loses no value and repeats no UTXO |
| WalletBalances.SpendFromWallet | src/transaction/transaction-batch.ts:135-212 | from the wallet's outputs: with distinct ids such a request succeeds exactly when the unspent outputs of its token add up to it |
| WalletScan.BatchesTile | src/wallet/abstract-wallet.ts:2922-2928 | the batches of a tree tile the range from where it resumes to its height, each of 1 to 1600 positions |
| WalletScan.PlanIs | src/wallet/abstract-wallet.ts:2902-2928 | a run plans exactly the positions at or after the creation point that lie behind the stored heights |
| WalletScan.PreparedIsCovered | src/wallet/abstract-wallet.ts:2879-2901 | extending the heights by zeros and setting the creation point never claims more than was scanned, and keeps the heights there are |
| WalletScan.Wallet.ScanLeaves | src/wallet/abstract-wallet.ts:898-946 | every leaf of a range is recorded at its own position, and nothing else changes |
| WalletScan.Wallet.CommitHeight | src/wallet/abstract-wallet.ts:2968-2974 | the height is stored, and is covered by what was scanned |
| WalletScan.Wallet.ScanTree | src/wallet/abstract-wallet.ts:2908-2976 | one tree is scanned by its batches in order, all of them unless another run takes over after a batch, and nothing else is scanned; what is stored are the heights reached before that batch, or nothing new |
| WalletScan.Wallet.ScanBatch | src/wallet/abstract-wallet.ts:2924-2974 | exactly the positions of the batch are scanned; its height is stored unless another run has taken over, and then what is stored stays |
| WalletScan.Wallet.ScanTrees | src/wallet/abstract-wallet.ts:2908-2977 | the trees from the creation tree on, each by its batches, or the beginning of that up to the batch after which another run took over; what is stored are the heights reached, once there is one |
| WalletScan.Wallet.DecryptBalances | src/wallet/abstract-wallet.ts:2852-2990 | at every write and whenever the run returns, all positions from the creation point to the stored heights have been scanned, and a run has scanned exactly its batches; a completed run has scanned every position of every tree at or after the creation point, which is the stored one or the one found, and all without one; a run that was taken over has stored the heights before its last batch, so that the next one starts with that batch |
| WalletScan.PreparedAgain | src/wallet/abstract-wallet.ts:2879-2901 | a later run with the same creation point works on the details as they were stored |
| WalletScan.GrowthKeepsScanned | src/wallet/abstract-wallet.ts:2902-2930 | what was scanned stays right when trees grow |
| Polling.NextKeepsInv | src/provider/batched-polling-event-subscriber.ts:46-160 | every step keeps: one timer at most, the named one; running means a poll in flight or a timer pending; ranges tile up to the cursor, which never goes back |
| Polling.RunKeepsInv | src/provider/batched-polling-event-subscriber.ts:46-160 | so does every run, with errors, head regressions, stop and resume in any order |
| Polling.ExactlyOnce | src/provider/batched-polling-event-subscriber.ts:66-98 | at every point of every run a block has been fetched exactly if it lies behind the first head and not behind the cursor, and by one range only |
| Polling.PollReachesHead | src/provider/batched-polling-event-subscriber.ts:60-99 | from the answer of a head on, with neither stop nor failure, the cursor reaches that head: a poll that ends has fetched up to it |
| Polling.AnswerProgresses | src/provider/batched-polling-event-subscriber.ts:60-99 | the first head sets the cursor, an old one changes nothing, a new one is fetched up to by ranges of 500 blocks or all the rest; back-off ends with a poll that has fetched |
| Polling.CallPolls | src/provider/batched-polling-event-subscriber.ts:46-60 | starting, or a timer while running, asks for the head; a poll in flight is not disturbed, but another one is scheduled |
| Polling.StopsAsking | src/provider/batched-polling-event-subscriber.ts:142-152 | once stopped nothing more is asked for, and the range in flight moves the cursor at most |
| Polling.FailureBacksOff | src/provider/batched-polling-event-subscriber.ts:101-109 | a failure leaves the cursor, so that the range is asked for again, and doubles the wait up to 30 seconds |
| Polling.AnswersNeeded | src/provider/batched-polling-event-subscriber.ts:76-99 | each answer brings a poll 500 blocks, or all the rest, closer to its head |
| Polling.BatchedPollingEventSubscriber.constructor | src/provider/batched-polling-event-subscriber.ts:35-44 | the initial state, with no cursor |
| Polling.BatchedPollingEventSubscriber.SchedulePoll | src/provider/batched-polling-event-subscriber.ts:112-130 | while running, the old timer is cleared and one new timer set |
| Polling.BatchedPollingEventSubscriber.ClearPollTimer | src/provider/batched-polling-event-subscriber.ts:117-120 | the named timer is no longer pending |
| Polling.BatchedPollingEventSubscriber.Poll | src/provider/batched-polling-event-subscriber.ts:46-60 | a second poll only reschedules |
| Polling.BatchedPollingEventSubscriber.StartPolling | src/provider/batched-polling-event-subscriber.ts:132-140 | the start step, a no-op when running |
| Polling.BatchedPollingEventSubscriber.StopPolling | src/provider/batched-polling-event-subscriber.ts:142-152 | the stop step: no timer remains |
| Polling.BatchedPollingEventSubscriber.OnTimer | src/provider/batched-polling-event-subscriber.ts:122-129 | the timer step |
| Polling.BatchedPollingEventSubscriber.OnHead | src/provider/batched-polling-event-subscriber.ts:60-76 | the first head sets the cursor, an old one only reschedules, a new one starts fetching behind the cursor |
| Polling.BatchedPollingEventSubscriber.FetchFrom | src/provider/batched-polling-event-subscriber.ts:76-110 | the next range of at most 500 blocks up to the head, or the end of the poll |
| Polling.BatchedPollingEventSubscriber.OnLogs | src/provider/batched-polling-event-subscriber.ts:88-98 | the cursor moves to the range's end and fetching goes on, or stops if stopped meanwhile |
| Polling.BatchedPollingEventSubscriber.OnError | src/provider/batched-polling-event-subscriber.ts:101-109 | back off, leave the cursor, reschedule |
| QueueLock.EnterIsNext | src/merkletree/merkletree.ts:716-728 | only the first call that has not left can pass its wait, and only when none is inside |
| QueueLock.NextKeepsInv | src/merkletree/merkletree.ts:716-812 | arrivals, entries and departures keep the chain: each call awaits the one before, the stored promise is the last arrival's until that one leaves |
| QueueLock.FifoMutex | src/merkletree/merkletree.ts:716-812 | in every interleaving at most one call per tree is inside, calls enter in order of arrival, and a waiting call is never stranded |
| QueueLock.ProcessingWriteQueueLock.Acquire | src/merkletree/merkletree.ts:716-722 | the arrival step |
| QueueLock.ProcessingWriteQueueLock.Resume | src/merkletree/merkletree.ts:724-728 | the step past the wait |
| QueueLock.ProcessingWriteQueueLock.Release | src/merkletree/merkletree.ts:806-811 | the departure step, removing the stored promise only if it is still the call's own |
| DatabaseKeys.TildeRange | src/database/database.ts:225-234 | with all characters below '~' the keys from a prefix to prefix~ are exactly those it begins |
| DatabaseKeys.NamespaceExact | src/database/database.ts:225-234 | a key lies in [key(ns), key(ns)~] exactly when ns is an element-wise prefix of its path |
| DatabaseKeys.KeyDetermines | src/database/database.ts:92-95 | two paths share a key exactly when their padded elements coincide |
| DatabaseKeys.HexOrdered | src/merkletree/merkletree.ts:246-252 | fixed-width hex orders as the numbers do |
| DatabaseKeys.LayoutSeparates | src/merkletree/merkletree.ts:191-252 | of all node and data paths exactly a tree's own data lies under its data prefix, nodes only at the reserved level 2^32 - 1 |
| DatabaseKeys.DataKeysOrdered | src/merkletree/merkletree.ts:246-252 | the string order of a tree's data keys is the order of the indices |
| DatabaseKeys.RangeExact | src/database/database.ts:244-271 | any ascending stream over start..end delivers precisely the leaves start..end that exist, in order |
| DatabaseKeys.Database.ClearNamespace | src/database/database.ts:319-334 | exactly the paths under the namespace are deleted |
| DatabaseKeys.Database.CountNamespace | src/database/database.ts:341-378 | exactly the paths under the namespace are counted |
| DatabaseLayout.KeysDistinct | src/merkletree/merkletree.ts:191-252 | node and data keys are equal exactly when tree, level and index are |
| DatabaseLayout.LookupsRealised | src/merkletree/merkletree.ts:202-252 | looking a node or a leaf up by its path is looking it up in the map of nodes or leaves |
| DatabaseLayout.CountRealised | src/merkletree/merkletree.ts:447-452 | counting the data prefix of a tree counts the leaves the map holds for it |
| DatabaseLayout.ClearRealised | src/merkletree/merkletree.ts:214-220 | clearing the namespace of a level deletes that level of that tree from the map of nodes and nothing else |
| DatabaseLayout.LeavesRealised | src/merkletree/merkletree.ts:285-307 | what a valid tree stores is what an exact range read of its leaves asks for |

## Left out

- Merkletree.InsertLeaves: empty leaf groups, groups that reach past the tree's end and, on a POI node, several leaves at once are not admitted; no caller passes them, and an empty group breaks `newTreeLength`.
- Merkletree.QueueLeaves: the same groups are not admitted; every caller queues one commitment, or consecutive leaves of one tree, one at a time on a POI node.
- Merkletree.UpdateTreesFromWriteQueue: the retry after a call that throws, that is after a failing database access, is not modelled, as database accesses do not fail here; the trees are processed one after the other; the concurrency between calls on one tree is in `QueueLock`, that between trees touches disjoint state.
- Merkletree.ProcessWriteQueueForTree: the validator's answers are fixed within one call.
- Merkletree.RebuildAndWriteTree: it asks that nothing but zeros be stored beyond the leaves, as on every valid tree and after `clearAllNodeHashes`; nodes at root level are not cleared by the source, and the one that matters is overwritten.
- TXIDMerkletree.GetMerkleProofWithSnapshot: the source saves snapshots of tree 0 only, while the statement holds for any tree the edge was taken of; the snapshot is not revised by truncation, so the statement needs the tree to extend what it was taken of.
- TXIDMerkletree.ClearLeavesAfterTxidIndex: the railgunTxid lookup is not revised, as in the source; truncation to -1 walks through a tree numbered -1, which is empty here as there.
- TXIDMerkletree.QueueRailgunTransactions: what ends up where is stated for a forest that holds no unfinished queue before the call; otherwise only validity and growth are.
- TXIDSync.HandleNewRailgunTransactionsV2: when a flushed batch is rejected and a group stays waiting, only validity is stated; whether a commitment is missing is an input, and the updates of UTXO data and unshield events are not modelled.
- Spending.SolveExists: for three or more outputs, or outputs with an unshield, the sufficient balance is not necessary; how much is wasted depends on the values.
- CommitmentListener.OnCommitments: a closed database, formatting of transaction ids and the trigger of the TXID sync are not modelled.
- Solutions.CreateSpendingSolutionsForValue: the two lists the source edits in place are returned anew; after a throw they are unspecified, and every caller drops them.
- WalletScan.Wallet.DecryptBalances: the creation point is an input (`getCreationTreeAndPosition` is not part of this model); the trees are those the run finds; clearing balances during a scan, and what the run that took over writes meanwhile, are not modelled.
- Polling.BatchedPollingEventSubscriber: the dropping pause, which forgets the cursor, the delay of a timer and the emitting of events are not modelled.
- DatabaseKeys.RangeExact: elements of at most 64 characters below '~'; on IndexedDB a range whose bounds are reversed throws instead of being empty, which is not modelled.
- DatabaseLayout.LookupsRealised: tree numbers and indices are naturals below 16^64, where the maps of a tree admit any; metadata, historical roots and lookups live under other prefixes, which are not modelled.
- DatabaseKeys.Database: values, encodings, encryption and the clearing flag.
- The refcount lock around updates, logging, progress and events.
- Poseidon, Keccak and the encoding of hashes as hex strings; zero values and the chain hash are parameters.
- `getFirstInvalidMerklerootTree`, which sorts tree numbers as strings, and `updateData`.
- The outer TXID sync loop, which need not end if a full batch makes no progress, and the V3 sync.
- Proof of innocence lists, provers, contracts, address and memo encoding, wallet storage other than the scan.

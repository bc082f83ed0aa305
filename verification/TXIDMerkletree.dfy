/** The TXID tree of a POI node or a wallet, over a `Merkletree`: placing transactions at
    consecutive global positions, the POI launch snapshot, and truncation. */
module TXIDMerkletrees {
  import opened Wrappers
  import opened MerkleSpec
  import opened WriteQueue
  import opened Merkletrees
  import opened TXIDForest
  import opened Truncation

  function EdgeNode(s: Scheme, leaves: seq<Leaf>, rightmost: int, level: nat): SnapshotNode {
    SnapshotNode(Node(s, leaves, level, Shr(rightmost, level)), Shr(rightmost, level))
  }

  /** The saved edge is that of `before`. */
  ghost predicate IsEdgeOf(s: Scheme, snapshot: map<nat, SnapshotNode>, before: seq<Leaf>) {
    forall level :: 0 <= level <= TREE_DEPTH ==>
      level in snapshot && snapshot[level] == RightEdge(s, before, |before| - 1)[level]
  }

  /** Consecutive leaves collected for one tree, not queued yet. */
  datatype LeafBatch = LeafBatch(tree: int, start: int, leaves: seq<Leaf>)
  const NO_BATCH := LeafBatch(-1, -1, [])

  /** A batch is empty or ends right before global position `next`, inside its tree. */
  ghost predicate BatchOk(batch: LeafBatch, next: int) {
    && (batch.leaves == [] <==> batch == NO_BATCH)
    && (batch.leaves != [] ==>
      && batch.tree >= 0 && batch.start >= 0 && batch.start + |batch.leaves| <= TREE_MAX_ITEMS
      && GetGlobalPosition(batch.tree, batch.start) + |batch.leaves| == next)
  }

  /** The lookup entries of the first `count` transactions placed from `first` on. */
  function Lookups(txs: seq<Leaf>, first: int, count: nat): map<nat, int>
    requires count <= |txs|
  {
    if count == 0 then map[] else Lookups(txs, first, count - 1)[txs[count - 1].railgunTxid := first + count - 1]
  }

  ghost predicate DistinctTxids(txs: seq<Leaf>) {
    forall i, j :: 0 <= i < j < |txs| ==> txs[i].railgunTxid != txs[j].railgunTxid
  }

  /** The first `count` transactions have their entries and are within the bound. */
  ghost predicate LookedUp(txs: seq<Leaf>, first: int, count: nat, maxTxidIndex: Option<int>,
      lookupBatch: map<nat, int>)
    requires count <= |txs|
  {
    && lookupBatch == Lookups(txs, first, count)
    && (maxTxidIndex.Some? && count > 0 ==> first + count - 1 <= maxTxidIndex.value)
  }

  lemma {:induction false} LookedUpNext(txs: seq<Leaf>, first: int, count: nat, maxTxidIndex: Option<int>,
      lookupBatch: map<nat, int>)
    requires count < |txs| && LookedUp(txs, first, count, maxTxidIndex, lookupBatch)
    requires maxTxidIndex.Some? ==> first + count <= maxTxidIndex.value
    ensures LookedUp(txs, first, count + 1, maxTxidIndex, lookupBatch[txs[count].railgunTxid := first + count])
  {
  }

  /** With distinct txids, each placed transaction is looked up at its own position and no other
      txid is entered. */
  lemma {:induction false} LookupsArePositions(txs: seq<Leaf>, first: int, count: nat)
    requires count <= |txs| && DistinctTxids(txs)
    ensures forall i :: 0 <= i < count ==> txs[i].railgunTxid in Lookups(txs, first, count)
                                           && Lookups(txs, first, count)[txs[i].railgunTxid] == first + i
    ensures forall id :: id in Lookups(txs, first, count) ==> exists i :: 0 <= i < count && txs[i].railgunTxid == id
  {
    if count != 0 {
      LookupsArePositions(txs, first, count - 1);
    }
  }

  // ---------- when the snapshot is taken ----------

  /** The saved snapshot, whether one counts as saved, and the tree it is taken of. */
  datatype SnapshotState = SnapshotState(nodes: map<nat, SnapshotNode>, has: bool, tree: seq<Leaf>)

  /** True from the first transaction of the launch block on; without a launch block, never. */
  predicate Launched(launch: Option<nat>, blockNumber: nat) {
    launch.Some? && blockNumber >= launch.value
  }

  /** What placing one transaction behind `before` does to the snapshot: nothing, unless it is the
      first launch transaction; then, if `before` lies in the first tree and is `exact`ly what the
      forest holds, the snapshot is the edge of `before`. */
  ghost predicate SnapshotStep(s: Scheme, launch: Option<nat>, blockNumber: nat, old': SnapshotState,
      new': SnapshotState, exact: bool, before: seq<Leaf>) {
    && old'.tree <= new'.tree
    && (!Launched(launch, blockNumber) || old'.has ==> new'.nodes == old'.nodes && new'.has == old'.has)
    && (Launched(launch, blockNumber) ==> new'.has)
    && (Launched(launch, blockNumber) && !old'.has && exact && |before| < TREE_MAX_ITEMS
      ==> before <= new'.tree && IsEdgeOf(s, new'.nodes, before))
  }

  predicate NoneLaunched(launch: Option<nat>, txs: seq<Leaf>, count: nat)
    requires count <= |txs|
  {
    forall i :: 0 <= i < count ==> !Launched(launch, txs[i].blockNumber)
  }

  predicate IsFirstLaunch(launch: Option<nat>, txs: seq<Leaf>, i: nat) {
    i < |txs| && Launched(launch, txs[i].blockNumber) && NoneLaunched(launch, txs, i)
  }

  /** The snapshot after `count` transactions were placed behind `all`: untouched when it was
      there or none of them is a launch transaction; otherwise, if the first launch transaction
      goes to the first tree and the validator accepts the roots on the way to it, the edge of
      everything placed before it. */
  ghost predicate SnapshotAfter(s: Scheme, validator: Validator, launch: Option<nat>, txs: seq<Leaf>, count: nat,
      old': SnapshotState, new': SnapshotState, all: seq<Leaf>)
    requires count <= |txs|
  {
    && old'.tree <= new'.tree
    && (old'.has || NoneLaunched(launch, txs, count) ==> new'.nodes == old'.nodes && new'.has == old'.has)
    && (!NoneLaunched(launch, txs, count) ==> new'.has)
    && (!old'.has ==> forall i :: 0 <= i < count ==> TakenAt(s, validator, launch, txs, i, new', all))
  }

  ghost predicate TakenAt(s: Scheme, validator: Validator, launch: Option<nat>, txs: seq<Leaf>, i: nat,
      new': SnapshotState, all: seq<Leaf>)
    requires i < |txs|
  {
    var before := all + txs[..i];
    IsFirstLaunch(launch, txs, i) && |before| < TREE_MAX_ITEMS && AcceptsSpelling(s, validator, before)
    ==> before <= new'.tree && IsEdgeOf(s, new'.nodes, before)
  }

  lemma {:induction false} SnapshotAdvances(s: Scheme, validator: Validator, launch: Option<nat>, txs: seq<Leaf>,
      count: nat, a: SnapshotState, b: SnapshotState, c: SnapshotState, all: seq<Leaf>)
    requires count < |txs| && SnapshotAfter(s, validator, launch, txs, count, a, b, all)
    requires SnapshotStep(s, launch, txs[count].blockNumber, b, c, AcceptsSpelling(s, validator, all + txs[..count]),
      all + txs[..count])
    ensures SnapshotAfter(s, validator, launch, txs, count + 1, a, c, all)
  {
    if !a.has {
      forall i | 0 <= i < count + 1
        ensures TakenAt(s, validator, launch, txs, i, c, all)
      {
        assert i < count ==> TakenAt(s, validator, launch, txs, i, b, all);
      }
    }
  }

  lemma {:induction false} NextShr(x: int, level: nat)
    requires level > 0
    ensures Shr(x, level) == Shr(x, level - 1) / 2
  {
  }

  // ---------- list after list ----------

  lemma {:induction false} NoneLaunchedInBoth(launch: Option<nat>, first: seq<Leaf>, second: seq<Leaf>, count: nat,
      more: nat)
    requires count <= |first| && more <= |second| && (count == |first| || more == 0)
    ensures NoneLaunched(launch, first + second, count + more)
       <==> NoneLaunched(launch, first, count) && NoneLaunched(launch, second, more)
  {
    var txs := first + second;
    assert forall i :: 0 <= i < count ==> txs[i] == first[i];
    if NoneLaunched(launch, txs, count + more) {
      assert forall i :: 0 <= i < more ==> second[i] == txs[count + i];
    }
  }

  /** A transaction of the first list was the first launch transaction: the snapshot stays. */
  lemma {:induction false} TakenStays(s: Scheme, validator: Validator, launch: Option<nat>, first: seq<Leaf>,
      count: nat, second: seq<Leaf>, more: nat, i: nat, a: SnapshotState, b: SnapshotState, c: SnapshotState,
      all: seq<Leaf>)
    requires i < count <= |first| && more <= |second| && !a.has
    requires SnapshotAfter(s, validator, launch, first, count, a, b, all)
    requires SnapshotAfter(s, validator, launch, second, more, b, c, all + first[..count])
    ensures TakenAt(s, validator, launch, first + second, i, c, all)
  {
    assert (first + second)[..i] == first[..i];
    NoneLaunchedInBoth(launch, first, second, i, 0);
    assert TakenAt(s, validator, launch, first, i, b, all);
    assert IsFirstLaunch(launch, first, i) ==> !NoneLaunched(launch, first, count);
  }

  /** The first launch transaction is in the second list. */
  lemma {:induction false} TakenLater(s: Scheme, validator: Validator, launch: Option<nat>, first: seq<Leaf>,
      second: seq<Leaf>, more: nat, i: nat, a: SnapshotState, b: SnapshotState, c: SnapshotState, all: seq<Leaf>)
    requires i < more <= |second| && !a.has
    requires SnapshotAfter(s, validator, launch, first, |first|, a, b, all)
    requires SnapshotAfter(s, validator, launch, second, more, b, c, all + first)
    ensures TakenAt(s, validator, launch, first + second, |first| + i, c, all)
  {
    assert (first + second)[..|first| + i] == first + second[..i];
    assert all + first + second[..i] == all + (first + second[..i]);
    NoneLaunchedInBoth(launch, first, second, |first|, i);
    if NoneLaunched(launch, first, |first|) {
      assert TakenAt(s, validator, launch, second, i, c, all + first);
    }
  }

  /** `count` transactions of one list and, if that was all of it, `more` of the next one. */
  lemma {:induction false} SnapshotChains(s: Scheme, validator: Validator, launch: Option<nat>, first: seq<Leaf>,
      count: nat, second: seq<Leaf>, more: nat, a: SnapshotState, b: SnapshotState, c: SnapshotState, all: seq<Leaf>)
    requires count <= |first| && more <= |second| && (count == |first| || more == 0)
    requires SnapshotAfter(s, validator, launch, first, count, a, b, all)
    requires SnapshotAfter(s, validator, launch, second, more, b, c, all + first[..count])
    ensures SnapshotAfter(s, validator, launch, first + second, count + more, a, c, all)
  {
    NoneLaunchedInBoth(launch, first, second, count, more);
    if !a.has {
      forall i | 0 <= i < count + more
        ensures TakenAt(s, validator, launch, first + second, i, c, all)
      {
        if i < count {
          TakenStays(s, validator, launch, first, count, second, more, i, a, b, c, all);
        } else {
          assert first[..count] == first;
          TakenLater(s, validator, launch, first, second, more, i - count, a, b, c, all);
        }
      }
    }
  }

  /** The tree the snapshot was taken of may have grown since. */
  lemma {:induction false} SnapshotOutlivesGrowth(s: Scheme, validator: Validator, launch: Option<nat>,
      txs: seq<Leaf>, count: nat, a: SnapshotState, b: SnapshotState, now: seq<Leaf>, all: seq<Leaf>)
    requires count <= |txs| && SnapshotAfter(s, validator, launch, txs, count, a, b, all) && b.tree <= now
    ensures SnapshotAfter(s, validator, launch, txs, count, a, b.(tree := now), all)
  {
    if !a.has {
      forall i | 0 <= i < count
        ensures TakenAt(s, validator, launch, txs, i, b.(tree := now), all)
      {
        assert TakenAt(s, validator, launch, txs, i, b, all);
      }
    }
  }

  lemma {:induction false} LookupsChain(first: seq<Leaf>, count: nat, second: seq<Leaf>, more: nat, start: int)
    requires count <= |first| && more <= |second| && (count == |first| || more == 0)
    ensures Lookups(first + second, start, count + more)
         == Lookups(first, start, count) + Lookups(second, start + count, more)
  {
    if more != 0 {
      LookupsChain(first, count, second, more - 1, start);
    } else if count != 0 {
      LookupsChain(first, count - 1, second, 0, start);
    }
  }

  /** One index per level, halving: the ancestors of the latest leaf. */
  method GetRightmostNonzeroIndices(latestLeafIndex: int) returns (r: seq<int>)
    ensures |r| == TREE_DEPTH + 1 && forall l :: 0 <= l <= TREE_DEPTH ==> r[l] == Shr(latestLeafIndex, l)
  {
    r := [latestLeafIndex];
    while |r| < TREE_DEPTH + 1
      invariant 1 <= |r| <= TREE_DEPTH + 1 && forall l :: 0 <= l < |r| ==> r[l] == Shr(latestLeafIndex, l)
      decreases TREE_DEPTH + 1 - |r|
    {
      NextShr(latestLeafIndex, |r|);
      r := r + [r[|r| - 1] / 2];
    }
  }

  class TXIDMerkletree {
    const merkletree: Merkletree
    const poiLaunchBlock: Option<nat>
    var savedPOILaunchSnapshot: bool

    // The database beside that of the Merkle tree.
    var snapshotDB: map<nat, SnapshotNode>
    var txidLookupDB: map<nat, int>

    /** Opens a TXID tree over its Merkle tree and what the rest of its database holds. */
    constructor (merkletree: Merkletree, poiLaunchBlock: Option<nat>, snapshotDB: map<nat, SnapshotNode>,
        txidLookupDB: map<nat, int>)
      requires merkletree.Valid() && merkletree.kind != UTXO
      ensures Valid() && this.merkletree == merkletree && this.poiLaunchBlock == poiLaunchBlock
      ensures this.snapshotDB == snapshotDB && this.txidLookupDB == txidLookupDB && !savedPOILaunchSnapshot
    {
      this.merkletree, this.poiLaunchBlock, this.snapshotDB, this.txidLookupDB := merkletree, poiLaunchBlock,
        snapshotDB, txidLookupDB;
      savedPOILaunchSnapshot := false;
    }

    ghost predicate Valid()
      reads this, merkletree
    {
      merkletree.Valid() && merkletree.kind != UTXO
    }

    /** The forest spells `all` and nothing is queued beyond it. */
    ghost predicate Settled(all: seq<Leaf>)
      reads merkletree
    {
      Packed(merkletree.view.forest, all) && Quiet(merkletree.writeQueue, merkletree.view.forest)
    }

    /** With what is queued inserted, the forest would spell `all`. */
    ghost predicate Awaits(all: seq<Leaf>)
      reads merkletree
    {
      Pending(merkletree.writeQueue, merkletree.view.forest, all)
    }

    method GetLatestTreeAndIndex() returns (latest: TreeAndIndex)
      requires Valid()
      modifies merkletree`db, merkletree`treeLengths
      ensures Valid() && latest.tree >= 0 && IsLatestTree(merkletree.view.forest, latest.tree)
      ensures latest.index == |merkletree.Leaves(latest.tree)| - 1
    {
      var tree := merkletree.LatestTree();
      var length := merkletree.TreeLength(tree);
      latest := TreeAndIndex(tree, length as int - 1);
    }

    // ---------- the launch snapshot ----------

    /** `savePOILaunchSnapshot`: the nodes of tree 0 above the given leaf.  They are the edge of the
        whole tree when that leaf is the tree's last. */
    method SavePOILaunchSnapshot(latestLeafIndex: int)
      requires Valid()
      modifies this`snapshotDB, this`savedPOILaunchSnapshot, merkletree`cachedNodeHashes
      ensures Valid()
      ensures merkletree.kind == TXIDNode
        ==> snapshotDB == old(snapshotDB) && savedPOILaunchSnapshot == old(savedPOILaunchSnapshot)
      ensures merkletree.kind == TXIDWallet ==> savedPOILaunchSnapshot && forall l :: 0 <= l <= TREE_DEPTH ==>
        l in snapshotDB && snapshotDB[l] == EdgeNode(merkletree.scheme, merkletree.Leaves(0), latestLeafIndex, l)
      ensures merkletree.kind == TXIDWallet && latestLeafIndex == |merkletree.Leaves(0)| - 1
        ==> IsEdgeOf(merkletree.scheme, snapshotDB, merkletree.Leaves(0))
    {
      if merkletree.kind == TXIDWallet {
        var batch := ReadEdge(latestLeafIndex);
        snapshotDB := snapshotDB + batch;
        savedPOILaunchSnapshot := true;
      }
    }

    /** The nodes above a leaf of tree 0, root included. */
    method ReadEdge(latestLeafIndex: int) returns (batch: map<nat, SnapshotNode>)
      requires Valid()
      modifies merkletree`cachedNodeHashes
      ensures Valid()
      ensures forall l :: 0 <= l <= TREE_DEPTH
                          ==> l in batch && batch[l] == EdgeNode(merkletree.scheme,
                              merkletree.Leaves(0), latestLeafIndex, l)
    {
      var indices := GetRightmostNonzeroIndices(latestLeafIndex);
      batch := map[];
      for level := 0 to TREE_DEPTH + 1
        invariant Valid()
        invariant forall l :: 0 <= l < level
                              ==> l in batch && batch[l] == EdgeNode(merkletree.scheme,
                                  merkletree.Leaves(0), latestLeafIndex, l)
      {
        var hash := merkletree.NodeHash(0, level, indices[level]);
        batch := batch[level := SnapshotNode(hash, indices[level])];
      }
    }

    /** `getMerkleProofWithSnapshot` on the tree the snapshot was taken of.  However much the tree
        has grown since it was `before`, the result is the proof `before` gave, but for the leaf,
        which is read from the tree as it is now. */
    method GetMerkleProofWithSnapshot(tree: int, index: nat, ghost before: seq<Leaf>) returns (proof: MerkleProof)
      requires Valid() && IsEdgeOf(merkletree.scheme, snapshotDB, before) && before <= merkletree.Leaves(tree)
      modifies merkletree`cachedNodeHashes
      ensures Valid()
      ensures proof == ProofOf(merkletree.scheme, before,
        index).(leaf := LeafAt(merkletree.scheme, merkletree.Leaves(tree), index))
      ensures index < |before| ==> proof == ProofOf(merkletree.scheme, before, index)
      ensures index < |before| && |before| <= TREE_MAX_ITEMS ==> VerifyMerkleProof(merkletree.scheme, proof)
    {
      var leaf := merkletree.NodeHash(tree, 0, index);
      var rightmostIndices := GetRightmostNonzeroIndices(snapshotDB[0].index);
      var elementsIndices := merkletree.ElementsIndices(index);
      var elements: seq<Hash> := [];
      for level := 0 to TREE_DEPTH
        invariant Valid() && |elements| == level && AreSiblings(merkletree.scheme, before, ToInt32(index), elements)
      {
        var element := SnapshotElement(tree, level, elementsIndices[level], rightmostIndices[level], before);
        SiblingAdded(merkletree.scheme, before, ToInt32(index), elements, element);
        elements := elements + [element];
      }
      SiblingsComplete(merkletree.scheme, before, ToInt32(index), elements);
      assert LengthAgreesAt(merkletree.treeLengths, merkletree.db.metadata, merkletree.invalidMerkleroots,
        merkletree.view.forest, tree);
      RightEdgeTop(merkletree.scheme, before);
      if index < TREE_MAX_ITEMS {
        ProofVerifies(merkletree.scheme, before, index);
      }
      proof := MerkleProof(leaf, elements, index, snapshotDB[TREE_DEPTH].hash);
    }

    /** One sibling: zero right of the snapshot's edge, the saved node on it, the current node left of it. */
    method SnapshotElement(tree: int, level: nat, elementIndex: int, snapshotIndexAtLevel: int,
        ghost before: seq<Leaf>) returns (hash: Hash)
      requires Valid() && IsEdgeOf(merkletree.scheme, snapshotDB, before) && before <= merkletree.Leaves(tree)
      requires level < TREE_DEPTH && snapshotIndexAtLevel == Shr(|before| - 1, level)
      modifies merkletree`cachedNodeHashes
      ensures Valid() && hash == Node(merkletree.scheme, before, level, elementIndex)
    {
      SnapshotSiblingIsOld(merkletree.scheme, before, merkletree.Leaves(tree), level, elementIndex);
      if elementIndex > snapshotIndexAtLevel {
        hash := merkletree.zeros[level];
      } else if elementIndex == snapshotIndexAtLevel {
        hash := snapshotDB[level].hash;
      } else {
        hash := merkletree.NodeHash(tree, level, elementIndex);
      }
    }

    // ---------- placing transactions ----------

    /** `hasSavedPOILaunchSnapshot` */
    function HasSavedPOILaunchSnapshot(): bool
      reads this
    {
      savedPOILaunchSnapshot || 0 in snapshotDB
    }

    /** Only a wallet takes the snapshot. */
    function LaunchBlock(): (r: Option<nat>)
      ensures forall block: nat ::
        Launched(r, block) <==> merkletree.kind == TXIDWallet && poiLaunchBlock.Some? && block >= poiLaunchBlock.value
    {
      if merkletree.kind == TXIDWallet then poiLaunchBlock else None
    }

    ghost function Snapshot(): SnapshotState
      reads this, merkletree
    {
      SnapshotState(snapshotDB, HasSavedPOILaunchSnapshot(), merkletree.Leaves(0))
    }

    /** The validator accepts the roots on the way to `all`, so processing leaves none of it queued. */
    ghost predicate Exact(settled: bool, all: seq<Leaf>)
      reads merkletree
    {
      settled && AcceptsSpelling(merkletree.scheme, merkletree.validator, all)
    }

    /** `updateTreesFromWriteQueue`: what is pending stays pending, trees only grow, and once no
        group waits at the end of a tree the forest spells `all`. */
    method UpdateTreesFromWriteQueue(ghost settled: bool, ghost all: seq<Leaf>)
      requires Valid() && (settled ==> Awaits(all))
      modifies merkletree`db, merkletree`cachedNodeHashes, merkletree`treeLengths, merkletree`invalidMerkleroots,
        merkletree`view, merkletree`writeQueue
      ensures Valid() && (settled ==> Awaits(all))
      ensures settled && NoneWaits(merkletree.writeQueue, merkletree.view.forest) ==> Settled(all)
      ensures Exact(settled, all) ==> NoneWaits(merkletree.writeQueue, merkletree.view.forest)
      ensures Extends(old(merkletree.view).forest, merkletree.view.forest)
    {
      ghost var queues, forest := merkletree.writeQueue, merkletree.view.forest;
      merkletree.UpdateTreesFromWriteQueue(false);
      ghost var queues', forest' := merkletree.writeQueue, merkletree.view.forest;
      forall t
        ensures ProcessedAt(merkletree.scheme, merkletree.validator, queues, forest, queues', forest',
          merkletree.How(false), t)
        ensures WellFormed(QueueOf(queues', t)) && LeavesOf(forest, t) <= LeavesOf(forest', t)
      {
        assert QueueOkAt(queues', merkletree.kind, t);
        assert ProcessedAt(merkletree.scheme, merkletree.validator, queues, forest, queues', forest',
          merkletree.How(false), t);
      }
      if settled {
        ProcessedPends(merkletree.scheme, merkletree.validator, queues, forest, queues', forest',
          merkletree.How(false), all);
        if AcceptsSpelling(merkletree.scheme, merkletree.validator, all) {
          AcceptedNoneWaits(merkletree.scheme, merkletree.validator, queues, forest, queues', forest',
            merkletree.How(false), all);
        }
      }
    }

    /** Queues a batch of consecutive leaves of one tree. */
    method FlushBatch(batchTree: int, batchStartIndex: nat, batchLeaves: seq<Leaf>, ghost settled: bool,
        ghost all: seq<Leaf>)
      requires Valid() && batchLeaves != [] && batchTree >= 0 && batchStartIndex + |batchLeaves| <= TREE_MAX_ITEMS
      requires merkletree.kind == TXIDNode ==> |batchLeaves| == 1
      requires settled ==> Awaits(all) && GetGlobalPosition(batchTree, batchStartIndex) == |all|
      modifies merkletree`db, merkletree`treeLengths, merkletree`writeQueue
      ensures Valid() && (settled ==> Awaits(all + batchLeaves))
    {
      ghost var queues := merkletree.writeQueue;
      if settled {
        PendingStart(queues, merkletree.view.forest, all, batchTree, batchStartIndex);
      }
      merkletree.QueueLeaves(batchTree, batchStartIndex, batchLeaves);
      if settled {
        GroupPends(queues, merkletree.writeQueue, merkletree.view.forest, all, batchLeaves, batchTree, batchStartIndex);
      }
    }

    /** `savePOILaunchSnapshotIfNecessary`: before the first launch transaction is placed, insert
        everything queued and save the edge of tree 0. */
    method SavePOILaunchSnapshotIfNecessary(blockNumber: nat, latestLeafIndex: int, ghost settled: bool,
        ghost all: seq<Leaf>)
      requires Valid() && (settled ==> Awaits(all))
      modifies this`snapshotDB, this`savedPOILaunchSnapshot
      modifies merkletree`db, merkletree`cachedNodeHashes, merkletree`treeLengths, merkletree`invalidMerkleroots,
        merkletree`view, merkletree`writeQueue
      ensures Valid() && (settled ==> Awaits(all))
      ensures Extends(old(merkletree.view).forest, merkletree.view.forest)
      ensures latestLeafIndex == |all| - 1 || |all| >= TREE_MAX_ITEMS
        ==> SnapshotStep(merkletree.scheme, LaunchBlock(), blockNumber, old(Snapshot()), Snapshot(),
          Exact(settled, all), all)
      ensures SnapshotStep(merkletree.scheme, LaunchBlock(), blockNumber, old(Snapshot()), Snapshot(), false, all)
    {
      if !Launched(LaunchBlock(), blockNumber) || HasSavedPOILaunchSnapshot() {
        return;
      }
      UpdateTreesFromWriteQueue(settled, all);
      assert Exact(settled, all) ==> PackedAt(merkletree.view.forest, all, 0);
      SavePOILaunchSnapshot(latestLeafIndex);
    }

    /** One round of the loop in `queueRailgunTransactions`, for the transaction that goes to
        (tree, index). */
    method PlaceTransaction(tx: Leaf, tree: int, index: nat, batch: LeafBatch, ghost settled: bool,
        ghost queued: seq<Leaf>) returns (batch': LeafBatch, ghost queued': seq<Leaf>)
      requires Valid() && tree >= 0 && index < TREE_MAX_ITEMS
      requires BatchOk(batch, GetGlobalPosition(tree, index)) && (merkletree.kind == TXIDNode ==> batch == NO_BATCH)
      requires settled ==> Awaits(queued) && |queued + batch.leaves| == GetGlobalPosition(tree, index)
      modifies this`snapshotDB, this`savedPOILaunchSnapshot
      modifies merkletree`db, merkletree`cachedNodeHashes, merkletree`treeLengths, merkletree`invalidMerkleroots,
        merkletree`view, merkletree`writeQueue
      ensures Valid() && BatchOk(batch', GetGlobalPosition(tree, index) + 1)
        && (merkletree.kind == TXIDNode ==> batch' == NO_BATCH)
      ensures settled ==> Awaits(queued')
      ensures queued' + batch'.leaves == queued + batch.leaves + [tx]
      ensures Extends(old(merkletree.view).forest, merkletree.view.forest)
      ensures SnapshotStep(merkletree.scheme, LaunchBlock(), tx.blockNumber, old(Snapshot()), Snapshot(),
        Exact(settled, queued + batch.leaves), queued + batch.leaves)
    {
      batch', queued' := FlushForSnapshot(tx.blockNumber, tree, index, batch, settled, queued);
      assert batch'.leaves == [] ==> queued' + batch'.leaves == queued';
      SavePOILaunchSnapshotIfNecessary(tx.blockNumber, index - 1, settled, queued');
      label Saved:
      batch', queued' := AddToBatch(tx, tree, index, batch', settled, queued');
      assert forall t :: old@Saved(merkletree.Leaves(t)) == merkletree.Leaves(t);
    }

    /** Until the snapshot flag is set, a launch transaction flushes the batch before it. */
    method FlushForSnapshot(blockNumber: nat, tree: int, index: nat, batch: LeafBatch, ghost settled: bool,
        ghost queued: seq<Leaf>) returns (batch': LeafBatch, ghost queued': seq<Leaf>)
      requires Valid() && BatchOk(batch, GetGlobalPosition(tree, index))
        && (merkletree.kind == TXIDNode ==> batch == NO_BATCH)
      requires settled ==> Awaits(queued) && |queued + batch.leaves| == GetGlobalPosition(tree, index)
      modifies merkletree`db, merkletree`treeLengths, merkletree`writeQueue
      ensures Valid() && BatchOk(batch', GetGlobalPosition(tree, index))
        && (merkletree.kind == TXIDNode ==> batch' == NO_BATCH)
      ensures settled ==> Awaits(queued')
      ensures queued' + batch'.leaves == queued + batch.leaves
      ensures Launched(LaunchBlock(), blockNumber) && !savedPOILaunchSnapshot ==>
        batch' == NO_BATCH && queued' == queued + batch.leaves
    {
      batch', queued' := batch, queued;
      if !savedPOILaunchSnapshot && batch.leaves != [] && Launched(LaunchBlock(), blockNumber) {
        FlushBatch(batch.tree, batch.start, batch.leaves, settled, queued);
        batch', queued' := NO_BATCH, queued + batch.leaves;
      }
      assert queued + [] == queued;
    }

    /** Adds the transaction to the batch of its tree, flushing that of another tree first, and on
        a POI node queues it at once. */
    method AddToBatch(tx: Leaf, tree: int, index: nat, batch: LeafBatch, ghost settled: bool, ghost queued: seq<Leaf>)
        returns (batch': LeafBatch, ghost queued': seq<Leaf>)
      requires Valid() && tree >= 0 && index < TREE_MAX_ITEMS
      requires BatchOk(batch, GetGlobalPosition(tree, index)) && (merkletree.kind == TXIDNode ==> batch == NO_BATCH)
      requires settled ==> Awaits(queued) && |queued + batch.leaves| == GetGlobalPosition(tree, index)
      modifies merkletree`db, merkletree`treeLengths, merkletree`writeQueue
      ensures Valid() && BatchOk(batch', GetGlobalPosition(tree, index) + 1)
        && (merkletree.kind == TXIDNode ==> batch' == NO_BATCH)
      ensures settled ==> Awaits(queued')
      ensures queued' + batch'.leaves == queued + batch.leaves + [tx]
    {
      batch', queued' := batch, queued;
      if batch'.tree == -1 {
        batch' := LeafBatch(tree, index, []);
      }
      if tree != batch'.tree {
        FlushBatch(batch.tree, batch.start, batch.leaves, settled, queued);
        batch', queued' := LeafBatch(tree, index, []), queued + batch.leaves;
      }
      assert queued' + batch'.leaves == queued + batch.leaves;
      assert queued' + (batch'.leaves + [tx]) == queued' + batch'.leaves + [tx];
      batch' := batch'.(leaves := batch'.leaves + [tx]);
      if merkletree.kind == TXIDNode {
        FlushBatch(batch'.tree, batch'.start, batch'.leaves, settled, queued');
        batch', queued' := NO_BATCH, queued' + batch'.leaves;
        assert queued' + [] == queued';
      }
    }

    /** `queueRailgunTransactions`: each transaction that `maxTxidIndex` allows goes to the next
        global position, whatever the batches; its lookup entry is that position.

        `all` is what the settled forest holds before the call. */
    method QueueRailgunTransactions(txs: seq<Leaf>, maxTxidIndex: Option<int>, ghost settled: bool,
        ghost all: seq<Leaf>)
      requires Valid() && (settled ==> Settled(all))
      modifies this`snapshotDB, this`savedPOILaunchSnapshot, this`txidLookupDB
      modifies merkletree`db, merkletree`cachedNodeHashes, merkletree`treeLengths, merkletree`invalidMerkleroots,
        merkletree`view, merkletree`writeQueue
      ensures Valid()
      ensures Extends(old(merkletree.view).forest, merkletree.view.forest)
      ensures settled ==> var count := AllowedCount(|all|, |txs|, maxTxidIndex);
        && Awaits(all + txs[..count])
        && txidLookupDB == old(txidLookupDB) + Lookups(txs, |all|, count)
        && (old(savedPOILaunchSnapshot || 0 in snapshotDB) ==> snapshotDB == old(snapshotDB))
        && SnapshotAfter(merkletree.scheme, merkletree.validator, LaunchBlock(), txs, count, old(Snapshot()),
          Snapshot(), all)
    {
      if settled {
        QuietIsPending(merkletree.writeQueue, merkletree.kind, merkletree.view.forest, all);
        assert all + txs[..0] == all;
      }
      if txs == [] {
        assert txidLookupDB == txidLookupDB + map[];
        return;
      }
      var latest := GetLatestTreeAndIndex();
      assert LengthAgreesAt(merkletree.treeLengths, merkletree.db.metadata, merkletree.invalidMerkleroots,
        merkletree.view.forest, latest.tree);
      if settled {
        LatestIsEnd(merkletree.view.forest, all, latest.tree);
      }
      var lookupBatch, batch;
      ghost var queued, placed;
      lookupBatch, batch, queued, placed := PlaceTransactions(txs, maxTxidIndex, latest, settled, all);
      assert queued + [] == queued;
      if batch.leaves != [] {
        FlushBatch(batch.tree, batch.start, batch.leaves, settled, queued);
      }
      txidLookupDB := txidLookupDB + lookupBatch;
    }

    /** The first `count` transactions are placed: queued behind `all` or still in the batch, the
        snapshot taken if one of them was the first launch transaction. */
    ghost predicate Placed(txs: seq<Leaf>, count: nat, batch: LeafBatch, queued: seq<Leaf>, all: seq<Leaf>,
        start: SnapshotState)
      requires count <= |txs|
      reads this, merkletree
    {
      && Awaits(queued) && queued + batch.leaves == all + txs[..count]
      && SnapshotAfter(merkletree.scheme, merkletree.validator, LaunchBlock(), txs, count, start, Snapshot(), all)
    }

    /** The loop stands behind position `at` with `count` transactions placed and looked up. */
    ghost predicate Placing(txs: seq<Leaf>, first: int, count: nat, maxTxidIndex: Option<int>, at: TreeAndIndex,
        lookupBatch: map<nat, int>, batch: LeafBatch)
      requires count <= |txs|
      reads this, merkletree
    {
      && Valid() && at.tree >= 0 && -1 <= at.index < TREE_MAX_ITEMS
      && GetGlobalPosition(at.tree, at.index) == first + count - 1
      && BatchOk(batch, first + count) && (merkletree.kind == TXIDNode ==> batch == NO_BATCH)
      && LookedUp(txs, first, count, maxTxidIndex, lookupBatch)
    }

    /** Places the transaction at `count` of the list at position `next`. */
    method PlaceNext(txs: seq<Leaf>, ghost first: int, count: nat, ghost maxTxidIndex: Option<int>,
        ghost at: TreeAndIndex, next: TreeAndIndex, lookupBatch: map<nat, int>, batch: LeafBatch, ghost settled: bool,
        ghost queued: seq<Leaf>, ghost all: seq<Leaf>, ghost start: SnapshotState)
      returns (lookupBatch': map<nat, int>, batch': LeafBatch, ghost queued': seq<Leaf>)
      requires count < |txs| && Placing(txs, first, count, maxTxidIndex, at, lookupBatch, batch)
      requires next == NextTreeAndIndex(at.tree, at.index) && !IsOutOfBounds(next.tree, next.index, maxTxidIndex)
      requires settled ==> Placed(txs, count, batch, queued, all, start) && first == |all|
      modifies this`snapshotDB, this`savedPOILaunchSnapshot
      modifies merkletree`db, merkletree`cachedNodeHashes, merkletree`treeLengths, merkletree`invalidMerkleroots,
        merkletree`view, merkletree`writeQueue
      ensures Placing(txs, first, count + 1, maxTxidIndex, next, lookupBatch', batch')
      ensures settled ==> Placed(txs, count + 1, batch', queued', all, start)
      ensures Extends(old(merkletree.view).forest, merkletree.view.forest)
    {
      ghost var before := Snapshot();
      batch', queued' := PlaceTransaction(txs[count], next.tree, next.index, batch, settled, queued);
      LookedUpNext(txs, first, count, maxTxidIndex, lookupBatch);
      lookupBatch' := lookupBatch[txs[count].railgunTxid := GetGlobalPosition(next.tree, next.index)];
      if settled {
        SnapshotAdvances(merkletree.scheme, merkletree.validator, LaunchBlock(), txs, count, start, before, Snapshot(),
          all);
        assert all + txs[..count] + [txs[count]] == all + txs[..count + 1];
      }
    }

    /** The loop of `queueRailgunTransactions`; the batch it ends with is still to be queued. */
    method PlaceTransactions(txs: seq<Leaf>, maxTxidIndex: Option<int>, latest: TreeAndIndex, ghost settled: bool,
        ghost all: seq<Leaf>) returns (lookupBatch: map<nat, int>, batch: LeafBatch, ghost queued: seq<Leaf>,
        ghost placed: nat)
      requires Valid() && latest.tree >= 0 && -1 <= latest.index < TREE_MAX_ITEMS
      requires settled ==> Awaits(all) && GetGlobalPosition(latest.tree, latest.index) == |all| - 1
      modifies this`snapshotDB, this`savedPOILaunchSnapshot
      modifies merkletree`db, merkletree`cachedNodeHashes, merkletree`treeLengths, merkletree`invalidMerkleroots,
        merkletree`view, merkletree`writeQueue
      ensures Valid()
      ensures Extends(old(merkletree.view).forest, merkletree.view.forest)
      ensures placed <= |txs| && BatchOk(batch, GetGlobalPosition(latest.tree, latest.index) + 1 + placed)
      ensures merkletree.kind == TXIDNode ==> batch == NO_BATCH
      ensures settled ==> placed == AllowedCount(|all|, |txs|, maxTxidIndex)
      ensures settled ==> lookupBatch == Lookups(txs, |all|, placed)
                          && Placed(txs, placed, batch, queued, all, old(Snapshot()))
    {
      var at := latest;
      ghost var first := GetGlobalPosition(at.tree, at.index) + 1;
      queued := all;
      lookupBatch := map[];
      batch := NO_BATCH;
      var count := 0;
      assert all + txs[..0] == all && all + [] == all;
      while count < |txs|
        invariant 0 <= count <= |txs| && Placing(txs, first, count, maxTxidIndex, at, lookupBatch, batch)
        invariant Extends(old(merkletree.view).forest, merkletree.view.forest)
        invariant settled ==> Placed(txs, count, batch, queued, all, old(Snapshot()))
        decreases |txs| - count
      {
        var next := NextTreeAndIndex(at.tree, at.index);
        if IsOutOfBounds(next.tree, next.index, maxTxidIndex) {
          break;
        }
        lookupBatch, batch, queued := PlaceNext(txs, first, count, maxTxidIndex, at, next, lookupBatch, batch, settled,
          queued, all, old(Snapshot()));
        at := next;
        count := count + 1;
      }
      placed := count;
    }

    // ---------- truncation ----------

    /** Halfway through a truncation: trees lo..hi are cut but not rebuilt. */
    ghost predicate Cutting(lo: int, hi: int)
      reads merkletree
    {
      && merkletree.Settings() && merkletree.kind != UTXO && merkletree.invalidMerkleroots == map[]
      && merkletree.writeQueue == map[]
      && CutNodes(merkletree.scheme, merkletree.db.nodes, merkletree.view.forest, lo, hi)
      && CacheAgrees(merkletree.cachedNodeHashes, merkletree.db.nodes)
      && DataAgrees(merkletree.db.data, merkletree.view.forest)
      && CutLengths(merkletree.treeLengths, merkletree.db.metadata, merkletree.view.forest, lo, hi)
      && RootsAgree(merkletree.kind, merkletree.scheme, merkletree.db.roots, map[],
        merkletree.view.failing, merkletree.view.forest)
    }

    lemma {:induction false} CuttingNothing(lo: int, hi: int)
      requires hi <= lo && merkletree.kind != UTXO && merkletree.writeQueue == map[]
      ensures Cutting(lo, hi) <==> Valid()
    {
      CutNothing(merkletree.scheme, merkletree.db.nodes, merkletree.treeLengths, merkletree.db.metadata,
        merkletree.view.forest, lo, hi);
      NothingCachedOrQueued(merkletree.db.nodes, merkletree.kind);
    }

    /** The inner loop of the truncation: a range of one tree's data and historical roots. */
    method DeleteLeaves(tree: int, startIndex: int, max: int)
      modifies merkletree`db
      ensures merkletree.db == old(merkletree.db).(data := merkletree.db.data, roots := merkletree.db.roots)
      ensures RangeDeleted(old(merkletree.db).data, merkletree.db.data, tree, startIndex, max)
      ensures RangeDeleted(old(merkletree.db).roots, merkletree.db.roots, tree, startIndex, max)
    {
      ghost var data0, roots0 := merkletree.db.data, merkletree.db.roots;
      var data, roots := merkletree.db.data, merkletree.db.roots;
      var currentIndex := startIndex;
      NothingDeleted(data0, data, tree, startIndex, startIndex - 1);
      NothingDeleted(roots0, roots, tree, startIndex, startIndex - 1);
      while currentIndex <= max
        invariant startIndex <= currentIndex && (currentIndex <= max + 1 || currentIndex == startIndex)
        invariant merkletree.db == old(merkletree.db)
          && (currentIndex == startIndex ==> data == data0 && roots == roots0)
        invariant RangeDeleted(data0, data, tree, startIndex, currentIndex - 1)
          && RangeDeleted(roots0, roots, tree, startIndex, currentIndex - 1)
        decreases max - currentIndex
      {
        PositionDeleted(data0, data, tree, startIndex, currentIndex);
        PositionDeleted(roots0, roots, tree, startIndex, currentIndex);
        roots := roots - {Position(tree, currentIndex)};
        data := data - {Position(tree, currentIndex)};
        currentIndex := currentIndex + 1;
      }
      merkletree.db := merkletree.db.(data := data, roots := roots);
      if max < startIndex {
        NothingDeleted(data0, data, tree, startIndex, max);
        NothingDeleted(roots0, roots, tree, startIndex, max);
      }
    }

    /** Cuts one tree: its data from `startIndex` on, and its nodes. */
    method CutTree(tree: int, startIndex: nat, max: int, ghost lo: int)
      requires Cutting(lo, tree) && lo <= tree && max >= |merkletree.Leaves(tree)| - 1
      modifies merkletree`db, merkletree`cachedNodeHashes, merkletree`view
      ensures Cutting(lo, tree + 1)
      ensures var kept := Kept(old(merkletree.Leaves(tree)), startIndex);
        merkletree.view == old(merkletree.view).(forest := old(merkletree.view).forest[tree := kept])
    {
      ghost var db0, forest0 := merkletree.db, merkletree.view.forest;
      ghost var kept := Kept(merkletree.Leaves(tree), startIndex);
      assert CutLengthAt(merkletree.treeLengths, merkletree.db.metadata, forest0, lo, tree, tree);
      DeleteLeaves(tree, startIndex, max);
      merkletree.ClearAllNodeHashes(tree);
      DataCut(db0.data, merkletree.db.data, forest0, tree, startIndex, max);
      RootsCut(merkletree.kind, merkletree.scheme, db0.roots, merkletree.db.roots, merkletree.view.failing, forest0,
        tree, startIndex, max);
      NodesCut(merkletree.scheme, db0.nodes, merkletree.db.nodes, forest0, lo, tree, kept);
      LengthsCut(merkletree.treeLengths, merkletree.db.metadata, forest0, lo, tree, kept);
      merkletree.view := merkletree.view.(forest := forest0[tree := kept]);
    }

    /** The first loop of `clearLeavesAfterTxidIndex`. */
    method CutTrees(at: TreeAndIndex, latest: TreeAndIndex)
      requires at.tree <= latest.tree && Cutting(at.tree, at.tree) && -1 <= at.index < TREE_MAX_ITEMS
        && latest.index == |merkletree.Leaves(latest.tree)| - 1
      modifies merkletree`db, merkletree`cachedNodeHashes, merkletree`view
      ensures Cutting(at.tree, latest.tree + 1)
      ensures SameForest(merkletree.view.forest,
        CutForest(old(merkletree.view).forest, at.tree, latest.tree, at.index + 1))
    {
      var currentTree := at.tree;
      ghost var forest0 := merkletree.view.forest;
      NoTreeCut(forest0, at.tree, at.tree - 1, at.index + 1);
      while currentTree <= latest.tree
        invariant at.tree <= currentTree <= latest.tree + 1 && Cutting(at.tree, currentTree)
        invariant SameForest(merkletree.view.forest, CutForest(forest0, at.tree, currentTree - 1, at.index + 1))
        decreases latest.tree - currentTree
      {
        var startIndex := if currentTree == at.tree then at.index + 1 else 0;
        var max := if currentTree == latest.tree then latest.index else TREE_MAX_ITEMS - 1;
        assert SameTreeAt(merkletree.view.forest, CutForest(forest0, at.tree, currentTree - 1, at.index + 1),
          currentTree);
        assert CutLengthAt(merkletree.treeLengths, merkletree.db.metadata, merkletree.view.forest, at.tree,
          currentTree, currentTree);
        CutStep(forest0, merkletree.view.forest, at.tree, currentTree, at.index + 1, startIndex);
        CutTree(currentTree, startIndex, max, at.tree);
        currentTree := currentTree + 1;
      }
    }

    /** Rebuilds one cut tree and stores its length, counted afresh. */
    method RebuildTree(tree: int, ghost hi: int)
      requires Cutting(tree, hi) && tree < hi
      modifies merkletree`db, merkletree`cachedNodeHashes, merkletree`treeLengths
      ensures Cutting(tree + 1, hi)
    {
      ghost var db0, lengths0 := merkletree.db, merkletree.treeLengths;
      ghost var forest := merkletree.view.forest;
      CutIsZeroBeyond(tree, hi);
      merkletree.RebuildAndWriteTree(tree);
      NodesRebuilt(merkletree.scheme, db0.nodes, merkletree.db.nodes, forest, tree, hi);
      RootsRebuilt(merkletree.kind, merkletree.scheme, db0.roots, merkletree.view.failing,
        forest, tree);
      merkletree.ResetTreeLength(tree);
      CountIsLength(merkletree.db.data, forest, tree);
      merkletree.UpdateStoredMerkletreesMetadata(tree);
      LengthsRebuilt(lengths0, merkletree.treeLengths, db0.metadata, merkletree.db.metadata, forest, tree, hi);
    }

    lemma {:induction false} CutIsZeroBeyond(tree: int, hi: int)
      requires Cutting(tree, hi) && tree < hi
      ensures ZeroBeyond(merkletree.scheme, merkletree.db.nodes, tree, |merkletree.Leaves(tree)|)
    {
      forall key
        ensures ZeroBeyondAt(merkletree.scheme, merkletree.db.nodes, tree, |merkletree.Leaves(tree)|, key)
      {
        assert CutNodeAt(merkletree.scheme, merkletree.db.nodes, merkletree.view.forest, tree, hi, key);
      }
    }

    /** The second loop of `clearLeavesAfterTxidIndex`. */
    method RebuildTrees(first: int, last: int)
      requires first <= last && Cutting(first, last + 1)
      modifies merkletree`db, merkletree`cachedNodeHashes, merkletree`treeLengths
      ensures Cutting(last + 1, last + 1)
    {
      var currentTree := first;
      while currentTree <= last
        invariant first <= currentTree <= last + 1 && Cutting(currentTree, last + 1)
        decreases last - currentTree
      {
        RebuildTree(currentTree, last + 1);
        currentTree := currentTree + 1;
      }
    }

    lemma {:induction false} CutSettles(forest: Forest, first: int, last: int, keep: int, all: seq<Leaf>)
      requires SameForest(merkletree.view.forest, CutForest(forest, first, last, keep))
        && merkletree.writeQueue == map[]
      requires Packed(CutForest(forest, first, last, keep), all)
      ensures Settled(all)
    {
      forall t
        ensures PackedAt(merkletree.view.forest, all, t) && QuietAt(merkletree.writeQueue, merkletree.view.forest, t)
      {
        assert SameTreeAt(merkletree.view.forest, CutForest(forest, first, last, keep), t)
          && PackedAt(CutForest(forest, first, last, keep), all, t);
      }
    }

    /** Both loops of `clearLeavesAfterTxidIndex`. */
    method CutAndRebuild(at: TreeAndIndex, latest: TreeAndIndex)
      requires Valid() && merkletree.writeQueue == map[]
      requires -1 <= at.index < TREE_MAX_ITEMS && latest.index == |merkletree.Leaves(latest.tree)| - 1
      modifies merkletree`db, merkletree`cachedNodeHashes, merkletree`treeLengths, merkletree`view
      ensures Valid()
      ensures SameForest(merkletree.view.forest,
        CutForest(old(merkletree.view).forest, at.tree, latest.tree, at.index + 1))
    {
      if at.tree <= latest.tree {
        CuttingNothing(at.tree, at.tree);
        CutTrees(at, latest);
        RebuildTrees(at.tree, latest.tree);
        CuttingNothing(latest.tree + 1, latest.tree + 1);
      } else {
        NoTreeCut(merkletree.view.forest, at.tree, latest.tree, at.index + 1);
      }
    }

    /** `clearLeavesAfterTxidIndex`: the write queue is emptied; the leaf data behind `txidIndex` and
        all the nodes of its tree and the later ones go; those trees are rebuilt.

        The trees from that of `txidIndex` to the latest are cut and no other changes.  If the
        forest spelled `all`, it settles on the first `txidIndex + 1` of `all`. */
    method ClearLeavesAfterTxidIndex(txidIndex: int, ghost all: seq<Leaf>)
      requires Valid() && txidIndex >= -1
      modifies merkletree
      ensures Valid() && merkletree.writeQueue == map[] && merkletree.validator == old(merkletree.validator)
      ensures exists latest: nat :: IsLatestTree(old(merkletree.view).forest, latest)
                                    && var at := GetTreeAndIndexFromGlobalPosition(txidIndex);
        SameForest(merkletree.view.forest, CutForest(old(merkletree.view).forest, at.tree, latest, at.index + 1))
      ensures old(Packed(merkletree.view.forest, all))
        ==> Settled(if txidIndex + 1 >= |all| then all else all[..txidIndex + 1])
    {
      NothingCachedOrQueued(merkletree.db.nodes, merkletree.kind);
      merkletree.writeQueue := map[];
      var at := GetTreeAndIndexFromGlobalPosition(txidIndex);
      var latest := GetLatestTreeAndIndex();
      CutAndRebuild(at, latest);
      if old(Packed(merkletree.view.forest, all)) {
        CutIsPrefix(old(merkletree.view).forest, all, latest.tree, txidIndex);
        CutSettles(old(merkletree.view).forest, at.tree, latest.tree, at.index + 1, if txidIndex + 1 >= |all| then all
          else all[..txidIndex + 1]);
      }
    }

    /** `clearLeavesForInvalidVerificationHash`: forget the last leaves of the forest. */
    method ClearLeavesForInvalidVerificationHash(numLeavesToClear: nat, ghost settled: bool, ghost all: seq<Leaf>)
      requires Valid() && (settled ==> Settled(all))
      modifies merkletree
      ensures Valid() && merkletree.validator == old(merkletree.validator)
      ensures settled ==> Settled(if numLeavesToClear >= |all| then [] else all[..|all| - numLeavesToClear])
    {
      var latest := GetLatestTreeAndIndex();
      var latestTxidIndex := GetGlobalPosition(latest.tree, latest.index);
      var clearToTxidIndex := if latestTxidIndex - numLeavesToClear > -1 then latestTxidIndex - numLeavesToClear
        else -1;
      if settled {
        LatestIsEnd(merkletree.view.forest, all, latest.tree);
        assert all[..0] == [] && all[..|all|] == all;
      }
      ClearLeavesAfterTxidIndex(clearToTxidIndex, all);
    }

    /** `getHistoricalMerkleroot`: on a POI node, the root right after the leaf at a position was
        appended, and none for a position the tree does not have. */
    method GetHistoricalMerkleroot(tree: int, index: int) returns (root: Option<Hash>)
      requires Valid()
      ensures merkletree.kind == TXIDNode && 0 <= index ==> root == if index < |merkletree.Leaves(tree)|
        then Some(Root(merkletree.scheme, merkletree.Leaves(tree)[..index + 1])) else None
    {
      assert merkletree.kind == TXIDNode
        ==> HistoryAgreesAt(merkletree.scheme, merkletree.db.roots, merkletree.view.forest, Position(tree, index));
      root := if Position(tree, index) in merkletree.db.roots then Some(merkletree.db.roots[Position(tree, index)])
        else None;
    }
  }
}

/** The V2 sync of the TXID forest: chain check, batched flushing up to the validated index, stop
    on a missing commitment, truncation on a broken chain. */
module TXIDSync {
  import opened Wrappers
  import opened MerkleSpec
  import opened WriteQueue
  import opened Merkletrees
  import opened TXIDForest
  import opened TXIDMerkletrees

  /** hash[n] from hash[n - 1], if there is one, and the first nullifier of n. */
  type ChainStep = (Option<nat>, nat) -> nat

  /** A fetched transaction, and whether the UTXO tree lacks one of its commitments. */
  datatype Fetched = Fetched(leaf: Leaf, isV2: bool, missingAnyCommitments: bool)

  const NUM_LEAVES_TO_CLEAR: nat := 10

  function LatestHash(all: seq<Leaf>): Option<nat> {
    if all == [] then None else Some(all[|all| - 1].verificationHash)
  }

  ghost predicate ChainedAt(step: ChainStep, all: seq<Leaf>, i: nat)
    requires i < |all|
  {
    all[i].verificationHash == step(LatestHash(all[..i]), all[i].firstNullifier)
  }

  /** Every leaf's verification hash is the chain hash of the previous one's and its own nullifier. */
  ghost predicate Chained(step: ChainStep, all: seq<Leaf>) {
    forall i :: 0 <= i < |all| ==> ChainedAt(step, all, i)
  }

  // ---------- what one sync must do ----------

  datatype Stop = AtEnd | AtMissingCommitment | AtBrokenChain
  datatype Scanned = Scanned(leaves: seq<Leaf>, stop: Stop)

  /** The transactions a sync may queue after `previous`, and why it stops. */
  function Scan(step: ChainStep, previous: Option<nat>, txs: seq<Fetched>): Scanned
    decreases |txs|
  {
    if txs == [] then Scanned([], AtEnd)
    else if !txs[0].isV2 then Scan(step, previous, txs[1..])
    else if txs[0].missingAnyCommitments then Scanned([], AtMissingCommitment)
    else
      var leaf := txs[0].leaf;
      if step(previous, leaf.firstNullifier) != leaf.verificationHash then Scanned([], AtBrokenChain)
      else
        var rest := Scan(step, Some(leaf.verificationHash), txs[1..]);
        Scanned([leaf] + rest.leaves, rest.stop)
  }

  /** `more` behind `all` up to the validated index. */
  function Capped(all: seq<Leaf>, more: seq<Leaf>, maxTxidIndex: Option<int>): seq<Leaf> {
    all + more[..AllowedCount(|all|, |more|, maxTxidIndex)]
  }

  function WithoutLast(all: seq<Leaf>, count: nat): seq<Leaf> {
    if count >= |all| then [] else all[..|all| - count]
  }

  predicate AlreadySynced(length: nat, maxTxidIndex: Option<int>) {
    maxTxidIndex.Some? && length as int - 1 >= maxTxidIndex.value
  }

  /** The forest after one sync: nothing new if it has reached the validated index; else the
      scanned transactions up to that index, less the last leaves if the chain broke. */
  function SyncResult(step: ChainStep, all: seq<Leaf>, txs: seq<Fetched>, maxTxidIndex: Option<int>): seq<Leaf> {
    var scanned := Scan(step, LatestHash(all), txs);
    if AlreadySynced(|all|, maxTxidIndex) then all
    else if scanned.stop == AtBrokenChain
      then WithoutLast(Capped(all, scanned.leaves, maxTxidIndex), NUM_LEAVES_TO_CLEAR)
    else Capped(all, scanned.leaves, maxTxidIndex)
  }

  /** All that one sync flushes: what the forest held, and the scanned transactions behind it. */
  function Synced(step: ChainStep, all: seq<Leaf>, txs: seq<Fetched>, maxTxidIndex: Option<int>): seq<Leaf> {
    Capped(all, Scan(step, LatestHash(all), txs).leaves, maxTxidIndex)
  }

  // ---------- what a scan is ----------

  ghost function V2Leaves(txs: seq<Fetched>): seq<Leaf> {
    if txs == [] then []
    else if txs[0].isV2 then [txs[0].leaf] + V2Leaves(txs[1..])
    else V2Leaves(txs[1..])
  }

  function HashAfter(previous: Option<nat>, leaves: seq<Leaf>): Option<nat> {
    if leaves == [] then previous else LatestHash(leaves)
  }

  /** The transaction at `i` continues the chain of the V2 transactions before it. */
  ghost predicate LinksAt(step: ChainStep, previous: Option<nat>, txs: seq<Fetched>, i: nat)
    requires i < |txs|
  {
    step(HashAfter(previous, V2Leaves(txs[..i])), txs[i].leaf.firstNullifier) == txs[i].leaf.verificationHash
  }

  ghost predicate CompleteAt(step: ChainStep, previous: Option<nat>, txs: seq<Fetched>, i: nat)
    requires i < |txs|
  {
    txs[i].isV2 ==> !txs[i].missingAnyCommitments && LinksAt(step, previous, txs, i)
  }

  /** The scan takes the V2 transactions before `k`, all complete and continuing the chain, and stops
      at the first one for which that is not so, for that reason, or at the end. */
  ghost predicate ScansTo(step: ChainStep, previous: Option<nat>, txs: seq<Fetched>, scanned: Scanned, k: nat) {
    && k <= |txs| && scanned.leaves == V2Leaves(txs[..k])
    && (forall i :: 0 <= i < k ==> CompleteAt(step, previous, txs, i))
    && match scanned.stop
       case AtEnd => k == |txs|
       case AtMissingCommitment => k < |txs| && txs[k].isV2 && txs[k].missingAnyCommitments
       case AtBrokenChain =>
         k < |txs| && txs[k].isV2 && !txs[k].missingAnyCommitments && !LinksAt(step, previous, txs, k)
  }

  lemma {:induction false} ScanStops(step: ChainStep, previous: Option<nat>, txs: seq<Fetched>) returns (k: nat)
    ensures ScansTo(step, previous, txs, Scan(step, previous, txs), k)
    decreases |txs|
  {
    if txs == [] {
      return 0;
    }
    var tx := txs[0];
    assert txs[..0] == [];
    if tx.isV2 && (tx.missingAnyCommitments || !LinksAt(step, previous, txs, 0)) {
      return 0;
    }
    var previous' := if tx.isV2 then Some(tx.leaf.verificationHash) else previous;
    var k' := ScanStops(step, previous', txs[1..]);
    k := k' + 1;
    forall i: nat | i < |txs| - 1
      ensures CompleteAt(step, previous', txs[1..], i) <==> CompleteAt(step, previous, txs, i + 1)
      ensures LinksAt(step, previous', txs[1..], i) <==> LinksAt(step, previous, txs, i + 1)
    {
      LinkMoves(previous, txs, i);
    }
    forall i | 0 <= i < k
      ensures CompleteAt(step, previous, txs, i)
    {
      assert i > 0 ==> CompleteAt(step, previous', txs[1..], i - 1);
    }
    LinkMoves(previous, txs, k');
  }

  lemma {:induction false} LinkMoves(previous: Option<nat>, txs: seq<Fetched>, i: nat)
    requires i < |txs|
    ensures var tail := V2Leaves(txs[1..][..i]);
      && V2Leaves(txs[..i + 1]) == (if txs[0].isV2 then [txs[0].leaf] + tail else tail)
      && HashAfter(previous, V2Leaves(txs[..i + 1]))
         == HashAfter(if txs[0].isV2 then Some(txs[0].leaf.verificationHash) else previous, tail)
  {
    assert txs[..i + 1][1..] == txs[1..][..i];
  }

  /** What one sync leaves of `all`: nothing changes if the forest has reached the validated index.
      Otherwise the scanned transactions follow, up to that index, and only if a complete V2
      transaction broke the chain the last ten leaves go. */
  ghost predicate SyncsTo(step: ChainStep, all: seq<Leaf>, txs: seq<Fetched>, maxTxidIndex: Option<int>,
      synced: seq<Leaf>, scanned: Scanned, k: nat)
    requires k <= |txs|
  {
    var longest := all + V2Leaves(txs[..k]);
    if maxTxidIndex.Some? && maxTxidIndex.value < |all| then synced == all
    else
      && ScansTo(step, LatestHash(all), txs, scanned, k)
      && var length := if maxTxidIndex.Some? && maxTxidIndex.value + 1 < |longest| then maxTxidIndex.value + 1
           else |longest|;
         synced == longest[..if scanned.stop != AtBrokenChain then length else if length < 10 then 0 else length - 10]
  }

  lemma {:induction false} SyncIs(step: ChainStep, all: seq<Leaf>, txs: seq<Fetched>, maxTxidIndex: Option<int>)
      returns (k: nat)
    ensures k <= |txs|
    ensures var scanned := Scan(step, LatestHash(all), txs);
      && SyncsTo(step, all, txs, maxTxidIndex, SyncResult(step, all, txs, maxTxidIndex), scanned, k)
      && (scanned.stop != AtBrokenChain ==> all <= SyncResult(step, all, txs, maxTxidIndex))
  {
    k := ScanStops(step, LatestHash(all), txs);
    var more := V2Leaves(txs[..k]);
    var longest, capped := all + more, Capped(all, more, maxTxidIndex);
    CappedIsPrefix(all, more, maxTxidIndex);
    assert longest[..|longest|] == longest && longest[..0] == [] && capped[..|capped|] == capped;
  }

  // ---------- the chain ----------

  lemma {:induction false} ScanKeepsChain(step: ChainStep, all: seq<Leaf>, txs: seq<Fetched>)
    requires Chained(step, all)
    ensures Chained(step, all + Scan(step, LatestHash(all), txs).leaves)
    decreases |txs|
  {
    var scanned := Scan(step, LatestHash(all), txs);
    if txs == [] || (txs[0].isV2 && (txs[0].missingAnyCommitments
      || step(LatestHash(all), txs[0].leaf.firstNullifier) != txs[0].leaf.verificationHash)) {
      assert all + [] == all;
    } else if !txs[0].isV2 {
      ScanKeepsChain(step, all, txs[1..]);
    } else {
      var longer := all + [txs[0].leaf];
      forall i | 0 <= i < |longer|
        ensures ChainedAt(step, longer, i)
      {
        assert longer[..i] == all[..i];
        assert all[..|all|] == all;
        assert i < |all| ==> ChainedAt(step, all, i);
      }
      ScanKeepsChain(step, longer, txs[1..]);
      assert longer + Scan(step, LatestHash(longer), txs[1..]).leaves == all + scanned.leaves;
    }
  }

  lemma {:induction false} PrefixKeepsChain(step: ChainStep, all: seq<Leaf>, length: nat)
    requires Chained(step, all) && length <= |all|
    ensures Chained(step, all[..length])
  {
    var cut := all[..length];
    forall i | 0 <= i < length
      ensures ChainedAt(step, cut, i)
    {
      assert cut[..i] == all[..i] && ChainedAt(step, all, i);
    }
  }

  /** One sync keeps the chain, whatever was fetched and wherever it stops. */
  lemma {:induction false} SyncKeepsChain(step: ChainStep, all: seq<Leaf>, txs: seq<Fetched>, maxTxidIndex: Option<int>)
    requires Chained(step, all)
    ensures Chained(step, SyncResult(step, all, txs, maxTxidIndex))
  {
    var scanned := Scan(step, LatestHash(all), txs);
    var longest, capped := all + scanned.leaves, Synced(step, all, txs, maxTxidIndex);
    ScanKeepsChain(step, all, txs);
    CappedIsPrefix(all, scanned.leaves, maxTxidIndex);
    PrefixKeepsChain(step, longest, |capped|);
    if scanned.stop == AtBrokenChain && |capped| > NUM_LEAVES_TO_CLEAR {
      PrefixKeepsChain(step, capped, |capped| - NUM_LEAVES_TO_CLEAR);
    }
  }

  lemma {:induction false} CappedIsPrefix(all: seq<Leaf>, more: seq<Leaf>, maxTxidIndex: Option<int>)
    ensures |Capped(all, more, maxTxidIndex)| <= |all + more|
    ensures Capped(all, more, maxTxidIndex) == (all + more)[..|Capped(all, more, maxTxidIndex)|]
  {
    var count := AllowedCount(|all|, |more|, maxTxidIndex);
    assert more == more[..count] + more[count..];
  }

  /** Capping a batch and then the next one is capping both. */
  lemma {:induction false} CappedTwice(all: seq<Leaf>, first: seq<Leaf>, second: seq<Leaf>, maxTxidIndex: Option<int>)
    ensures Capped(Capped(all, first, maxTxidIndex), second, maxTxidIndex) == Capped(all, first + second, maxTxidIndex)
  {
  }

  /** A validator that accepts the roots on the way to all that is flushed accepts each flush. */
  lemma {:induction false} FlushAccepted(s: Scheme, validator: Validator, all: seq<Leaf>, first: seq<Leaf>,
      second: seq<Leaf>, maxTxidIndex: Option<int>)
    ensures AcceptsSpelling(s, validator, Capped(all, first + second, maxTxidIndex))
      ==> AcceptsSpelling(s, validator, Capped(all, first, maxTxidIndex))
  {
    if AcceptsSpelling(s, validator, Capped(all, first + second, maxTxidIndex)) {
      CappedTwice(all, first, second, maxTxidIndex);
      SpellingShrinks(s, validator, Capped(all, first + second, maxTxidIndex), Capped(all, first, maxTxidIndex));
    }
  }

  // ---------- what a sync leaves beside the forest ----------

  /** The lookups and the snapshot after the allowed ones of `more` were placed behind `all`, when
      tree 0 held `tree0`: each placed transaction is entered at its position, and the snapshot is
      the edge of what preceded the first launch transaction. */
  ghost predicate Recorded(tree: TXIDMerkletree, all: seq<Leaf>, more: seq<Leaf>, maxTxidIndex: Option<int>,
      lookups: map<nat, int>, start: SnapshotState, tree0: seq<Leaf>)
    reads tree, tree.merkletree
  {
    Records(tree.merkletree.scheme, tree.merkletree.validator, tree.LaunchBlock(), all, more, maxTxidIndex, lookups,
      start, tree.txidLookupDB, tree.Snapshot().(tree := tree0))
  }

  ghost predicate Records(s: Scheme, validator: Validator, launch: Option<nat>, all: seq<Leaf>, more: seq<Leaf>,
      maxTxidIndex: Option<int>, lookups: map<nat, int>, start: SnapshotState, lookups': map<nat, int>,
      end: SnapshotState) {
    var count := AllowedCount(|all|, |more|, maxTxidIndex);
    && lookups' == lookups + Lookups(more, |all|, count)
    && SnapshotAfter(s, validator, launch, more, count, start, end, all)
  }

  lemma {:induction false} NothingRecorded(s: Scheme, validator: Validator, launch: Option<nat>, all: seq<Leaf>,
      more: seq<Leaf>, maxTxidIndex: Option<int>, lookups: map<nat, int>, start: SnapshotState)
    requires AllowedCount(|all|, |more|, maxTxidIndex) == 0
    ensures Records(s, validator, launch, all, more, maxTxidIndex, lookups, start, lookups, start)
  {
  }

  lemma {:induction false} CountsAdd(length: nat, first: nat, second: nat, maxTxidIndex: Option<int>)
    ensures var count := AllowedCount(length, first, maxTxidIndex);
      var more := AllowedCount(length + count, second, maxTxidIndex);
      AllowedCount(length, first + second, maxTxidIndex) == count + more && (count == first || more == 0)
  {
  }

  lemma {:induction false} MapsRegroup<K, V>(a: map<K, V>, b: map<K, V>, c: map<K, V>)
    ensures a + b + c == a + (b + c)
  {
  }

  /** Two lists one after the other leave what both together leave. */
  lemma {:induction false} RecordsChain(s: Scheme, validator: Validator, launch: Option<nat>, all: seq<Leaf>,
      first: seq<Leaf>, second: seq<Leaf>, maxTxidIndex: Option<int>, lookups: map<nat, int>, start: SnapshotState,
      between: map<nat, int>, middle: SnapshotState, lookups': map<nat, int>, end: SnapshotState)
    requires Records(s, validator, launch, all, first, maxTxidIndex, lookups, start, between, middle)
    requires Records(s, validator, launch, Capped(all, first, maxTxidIndex), second, maxTxidIndex, between, middle,
      lookups', end)
    ensures Records(s, validator, launch, all, first + second, maxTxidIndex, lookups, start, lookups', end)
  {
    var count := AllowedCount(|all|, |first|, maxTxidIndex);
    var more := AllowedCount(|all| + count, |second|, maxTxidIndex);
    CountsAdd(|all|, |first|, |second|, maxTxidIndex);
    LookupsChain(first, count, second, more, |all|);
    MapsRegroup(lookups, Lookups(first, |all|, count), Lookups(second, |all| + count, more));
    SnapshotChains(s, validator, launch, first, count, second, more, start, middle, end, all);
  }

  /** So after a sync `getMerkleProofWithSnapshot` has its edge, if the sync placed the first launch
      transaction in the first tree and the validator accepts the roots on the way to it. */
  lemma {:induction false} SyncTakesSnapshot(tree: TXIDMerkletree, all: seq<Leaf>, more: seq<Leaf>,
      maxTxidIndex: Option<int>, lookups: map<nat, int>, start: SnapshotState, tree0: seq<Leaf>, i: nat)
    requires Recorded(tree, all, more, maxTxidIndex, lookups, start, tree0) && !start.has
    requires i < AllowedCount(|all|, |more|, maxTxidIndex) && |all| + i < TREE_MAX_ITEMS
    requires tree.merkletree.kind == TXIDWallet && tree.poiLaunchBlock.Some?
    requires more[i].blockNumber >= tree.poiLaunchBlock.value
      && forall j :: 0 <= j < i ==> more[j].blockNumber < tree.poiLaunchBlock.value
    requires AcceptsSpelling(tree.merkletree.scheme, tree.merkletree.validator, all + more[..i])
    ensures IsEdgeOf(tree.merkletree.scheme, tree.snapshotDB, all + more[..i]) && all + more[..i] <= tree0
  {
    assert TakenAt(tree.merkletree.scheme, tree.merkletree.validator, tree.LaunchBlock(), more, i,
      tree.Snapshot().(tree := tree0), all);
  }

  // ---------- the engine's side ----------

  /** `flushQueue`: place what was collected and process it. */
  method FlushQueue(tree: TXIDMerkletree, toQueue: seq<Leaf>, maxTxidIndex: Option<int>, ghost settled: bool,
      ghost all: seq<Leaf>) returns (ghost settled': bool)
    requires tree.Valid() && (settled ==> tree.Settled(all))
    modifies tree, tree.merkletree
    ensures tree.Valid() && tree.merkletree.validator == old(tree.merkletree.validator)
    ensures settled' <==> settled && NoneWaits(tree.merkletree.writeQueue, tree.merkletree.view.forest)
    ensures settled' ==> tree.Settled(Capped(all, toQueue, maxTxidIndex))
    ensures tree.Exact(settled, Capped(all, toQueue, maxTxidIndex)) ==> settled'
    ensures settled ==> Recorded(tree, all, toQueue, maxTxidIndex, old(tree.txidLookupDB), old(tree.Snapshot()),
      tree.merkletree.Leaves(0))
  {
    settled' := settled;
    if toQueue == [] {
      NothingRecorded(tree.merkletree.scheme, tree.merkletree.validator, tree.LaunchBlock(), all, toQueue,
        maxTxidIndex, tree.txidLookupDB, tree.Snapshot());
      assert Capped(all, toQueue, maxTxidIndex) == all;
      assert settled ==> forall t :: QuietAt(tree.merkletree.writeQueue, tree.merkletree.view.forest, t)
                                     ==> NoneWaitsAt(tree.merkletree.writeQueue, tree.merkletree.view.forest, t);
      return;
    }
    tree.QueueRailgunTransactions(toQueue, maxTxidIndex, settled, all);
    ghost var placed := tree.Snapshot();
    tree.UpdateTreesFromWriteQueue(settled, Capped(all, toQueue, maxTxidIndex));
    if settled {
      SnapshotOutlivesGrowth(tree.merkletree.scheme, tree.merkletree.validator, tree.LaunchBlock(), toQueue,
        AllowedCount(|all|, |toQueue|, maxTxidIndex), old(tree.Snapshot()), placed, tree.merkletree.Leaves(0), all);
    }
    settled' := settled && NoneWaits(tree.merkletree.writeQueue, tree.merkletree.view.forest);
  }

  /** `handleNewRailgunTransactionsV2`.  `clean` says that no flush left a group waiting; then the
      forest settles on the sync's result, and the verification chain survives.  A run is clean
      if the validator accepts the roots on the way to what is flushed, and on a POI node always. */
  method HandleNewRailgunTransactionsV2(tree: TXIDMerkletree, step: ChainStep, txs: seq<Fetched>,
      latestVerificationHash: Option<nat>, latestValidatedTxidIndex: Option<int>, txidSyncBatchSize: nat,
      ghost settled: bool, ghost all: seq<Leaf>) returns (ghost clean: bool)
    requires tree.Valid() && (settled ==> tree.Settled(all) && latestVerificationHash == LatestHash(all))
    modifies tree, tree.merkletree
    ensures tree.Valid() && tree.merkletree.validator == old(tree.merkletree.validator)
    ensures clean ==> settled && tree.Settled(SyncResult(step, all, txs, latestValidatedTxidIndex))
    ensures clean && Chained(step, all) ==> Chained(step, SyncResult(step, all, txs, latestValidatedTxidIndex))
    ensures tree.Exact(settled, Synced(step, all, txs, latestValidatedTxidIndex)) ==> clean
    ensures settled && tree.merkletree.kind == TXIDNode ==> clean
    ensures clean ==> Recorded(tree, all, Scan(step, LatestHash(all), txs).leaves, latestValidatedTxidIndex,
      old(tree.txidLookupDB), old(tree.Snapshot()), TreeSlice(Synced(step, all, txs, latestValidatedTxidIndex), 0))
  {
    clean := settled;
    if Chained(step, all) {
      SyncKeepsChain(step, all, txs, latestValidatedTxidIndex);
    }
    if latestValidatedTxidIndex.Some? {
      var latest := tree.GetLatestTreeAndIndex();
      if settled {
        LatestIsEnd(tree.merkletree.view.forest, all, latest.tree);
      }
      if GetGlobalPosition(latest.tree, latest.index) >= latestValidatedTxidIndex.value {
        if settled {
          NothingRecorded(tree.merkletree.scheme, tree.merkletree.validator, tree.LaunchBlock(), all,
            Scan(step, LatestHash(all), txs).leaves, latestValidatedTxidIndex, tree.txidLookupDB, tree.Snapshot());
          assert PackedAt(tree.merkletree.view.forest, all, 0) && all + [] == all;
        }
        return;
      }
    }
    clean := SyncTransactions(tree, step, txs, latestVerificationHash, latestValidatedTxidIndex, txidSyncBatchSize,
      settled, all);
  }

  /** Where the loop stands: what is flushed, what is collected, and what the rest of the
      transactions adds make up the scan. */
  ghost predicate OnCourse(scanned: Scanned, flushed: seq<Leaf>, toQueue: seq<Leaf>, step: ChainStep,
      previous: Option<nat>, rest: seq<Fetched>) {
    var more := Scan(step, previous, rest);
    scanned == Scanned(flushed + toQueue + more.leaves, more.stop)
  }

  lemma {:induction false} CourseStops(scanned: Scanned, flushed: seq<Leaf>, toQueue: seq<Leaf>, step: ChainStep,
      previous: Option<nat>, rest: seq<Fetched>)
    requires OnCourse(scanned, flushed, toQueue, step, previous, rest) && Scan(step, previous, rest).leaves == []
    ensures scanned == Scanned(flushed + toQueue, Scan(step, previous, rest).stop)
  {
    assert flushed + toQueue + [] == flushed + toQueue;
  }

  lemma {:induction false} CourseTakes(scanned: Scanned, flushed: seq<Leaf>, toQueue: seq<Leaf>, step: ChainStep,
      previous: Option<nat>, rest: seq<Fetched>)
    requires OnCourse(scanned, flushed, toQueue, step, previous, rest) && rest != [] && rest[0].isV2
      && !rest[0].missingAnyCommitments
    requires step(previous, rest[0].leaf.firstNullifier) == rest[0].leaf.verificationHash
    ensures OnCourse(scanned, flushed, toQueue + [rest[0].leaf], step, Some(rest[0].leaf.verificationHash), rest[1..])
  {
    var more := Scan(step, Some(rest[0].leaf.verificationHash), rest[1..]);
    assert flushed + toQueue + ([rest[0].leaf] + more.leaves) == flushed + (toQueue + [rest[0].leaf]) + more.leaves;
  }

  lemma {:induction false} CourseFlushes(scanned: Scanned, flushed: seq<Leaf>, toQueue: seq<Leaf>, step: ChainStep,
      previous: Option<nat>, rest: seq<Fetched>)
    requires OnCourse(scanned, flushed, toQueue, step, previous, rest)
    ensures OnCourse(scanned, flushed + toQueue, [], step, previous, rest)
  {
    assert flushed + toQueue + [] == flushed + toQueue;
  }

  /** What is `flushed` behind `all` is settled and recorded if the run is still `clean`, as it is if
      the validator accepts the roots on the way there. */
  ghost predicate Flushed(tree: TXIDMerkletree, all: seq<Leaf>, flushed: seq<Leaf>, maxTxidIndex: Option<int>,
      lookups: map<nat, int>, start: SnapshotState, settled: bool, clean: bool)
    reads tree, tree.merkletree
  {
    && (clean ==> settled && tree.Settled(Capped(all, flushed, maxTxidIndex)))
    && (clean ==> Recorded(tree, all, flushed, maxTxidIndex, lookups, start, tree.merkletree.Leaves(0)))
    && (tree.Exact(settled, Capped(all, flushed, maxTxidIndex)) ==> clean)
  }

  /** One more flush behind what is flushed already. */
  method FlushMore(tree: TXIDMerkletree, toQueue: seq<Leaf>, maxTxidIndex: Option<int>, ghost settled: bool,
      ghost clean: bool, ghost all: seq<Leaf>, ghost flushed: seq<Leaf>, ghost lookups: map<nat, int>,
      ghost start: SnapshotState) returns (ghost clean': bool)
    requires tree.Valid() && Flushed(tree, all, flushed, maxTxidIndex, lookups, start, settled, clean)
    modifies tree, tree.merkletree
    ensures tree.Valid() && tree.merkletree.validator == old(tree.merkletree.validator)
    ensures Flushed(tree, all, flushed + toQueue, maxTxidIndex, lookups, start, settled, clean')
    ensures clean' ==> tree.merkletree.Leaves(0) == TreeSlice(Capped(all, flushed + toQueue, maxTxidIndex), 0)
  {
    CappedTwice(all, flushed, toQueue, maxTxidIndex);
    FlushAccepted(tree.merkletree.scheme, tree.merkletree.validator, all, flushed, toQueue, maxTxidIndex);
    ghost var between, middle := tree.txidLookupDB, tree.Snapshot();
    clean' := FlushQueue(tree, toQueue, maxTxidIndex, clean, Capped(all, flushed, maxTxidIndex));
    if clean' {
      RecordsChain(tree.merkletree.scheme, tree.merkletree.validator, tree.LaunchBlock(), all, flushed, toQueue,
        maxTxidIndex, lookups, start, between, middle, tree.txidLookupDB, tree.Snapshot());
      assert PackedAt(tree.merkletree.view.forest, Capped(all, flushed + toQueue, maxTxidIndex), 0);
    }
  }

  /** The stop on a broken chain: what was collected is flushed, and the last leaves go. */
  method FlushAndClear(tree: TXIDMerkletree, toQueue: seq<Leaf>, maxTxidIndex: Option<int>, ghost settled: bool,
      ghost clean: bool, ghost all: seq<Leaf>, ghost flushed: seq<Leaf>, ghost lookups: map<nat, int>,
      ghost start: SnapshotState) returns (ghost clean': bool)
    requires tree.Valid() && Flushed(tree, all, flushed, maxTxidIndex, lookups, start, settled, clean)
    modifies tree, tree.merkletree
    ensures tree.Valid() && tree.merkletree.validator == old(tree.merkletree.validator)
    ensures clean' ==>
      settled && tree.Settled(WithoutLast(Capped(all, flushed + toQueue, maxTxidIndex), NUM_LEAVES_TO_CLEAR))
    ensures clean' ==> Recorded(tree, all, flushed + toQueue, maxTxidIndex, lookups, start,
      TreeSlice(Capped(all, flushed + toQueue, maxTxidIndex), 0))
    ensures tree.Exact(settled, Capped(all, flushed + toQueue, maxTxidIndex)) ==> clean'
  {
    clean' := FlushMore(tree, toQueue, maxTxidIndex, settled, clean, all, flushed, lookups, start);
    tree.ClearLeavesForInvalidVerificationHash(NUM_LEAVES_TO_CLEAR, clean',
      Capped(all, flushed + toQueue, maxTxidIndex));
  }

  /** The transaction loop. */
  method SyncTransactions(tree: TXIDMerkletree, step: ChainStep, txs: seq<Fetched>,
      latestVerificationHash: Option<nat>, maxTxidIndex: Option<int>, txidSyncBatchSize: nat, ghost settled: bool,
      ghost all: seq<Leaf>) returns (ghost clean: bool)
    requires tree.Valid() && (settled ==> tree.Settled(all))
    modifies tree, tree.merkletree
    ensures tree.Valid() && tree.merkletree.validator == old(tree.merkletree.validator)
    ensures var scanned := Scan(step, latestVerificationHash, txs);
      clean ==> settled && tree.Settled(if scanned.stop == AtBrokenChain
        then WithoutLast(Capped(all, scanned.leaves, maxTxidIndex), NUM_LEAVES_TO_CLEAR)
        else Capped(all, scanned.leaves, maxTxidIndex))
    ensures tree.Exact(settled, Capped(all, Scan(step, latestVerificationHash, txs).leaves, maxTxidIndex)) ==> clean
    ensures var more := Scan(step, latestVerificationHash, txs).leaves;
      clean ==> Recorded(tree, all, more, maxTxidIndex, old(tree.txidLookupDB), old(tree.Snapshot()),
        TreeSlice(Capped(all, more, maxTxidIndex), 0))
  {
    clean := settled;
    ghost var scanned := Scan(step, latestVerificationHash, txs);
    var toQueue: seq<Leaf> := [];
    ghost var flushed: seq<Leaf> := [];
    ghost var lookups, start := tree.txidLookupDB, tree.Snapshot();
    NothingRecorded(tree.merkletree.scheme, tree.merkletree.validator, tree.LaunchBlock(), all, [], maxTxidIndex,
      lookups, start);
    var previousVerificationHash := latestVerificationHash;
    assert Capped(all, [], maxTxidIndex) == all && txs[0..] == txs && [] + [] + scanned.leaves == scanned.leaves;
    var index := 0;
    while index < |txs|
      invariant tree.Valid() && 0 <= index <= |txs| && tree.merkletree.validator == old(tree.merkletree.validator)
      invariant Flushed(tree, all, flushed, maxTxidIndex, lookups, start, settled, clean)
      invariant OnCourse(scanned, flushed, toQueue, step, previousVerificationHash, txs[index..])
      decreases |txs| - index
    {
      var tx := txs[index];
      assert txs[index..][0] == tx && txs[index..][1..] == txs[index + 1..];
      if tx.isV2 {
        if tx.missingAnyCommitments {
          break;
        }
        var expectedVerificationHash := step(previousVerificationHash, tx.leaf.firstNullifier);
        if expectedVerificationHash != tx.leaf.verificationHash {
          CourseStops(scanned, flushed, toQueue, step, previousVerificationHash, txs[index..]);
          clean := FlushAndClear(tree, toQueue, maxTxidIndex, settled, clean, all, flushed, lookups, start);
          return;
        }
        CourseTakes(scanned, flushed, toQueue, step, previousVerificationHash, txs[index..]);
        previousVerificationHash := Some(expectedVerificationHash);
        toQueue := toQueue + [tx.leaf];
        if |toQueue| >= txidSyncBatchSize {
          CourseFlushes(scanned, flushed, toQueue, step, previousVerificationHash, txs[index + 1..]);
          clean := FlushMore(tree, toQueue, maxTxidIndex, settled, clean, all, flushed, lookups, start);
          flushed, toQueue := flushed + toQueue, [];
        }
      }
      index := index + 1;
    }
    CourseStops(scanned, flushed, toQueue, step, previousVerificationHash, txs[index..]);
    clean := FlushMore(tree, toQueue, maxTxidIndex, settled, clean, all, flushed, lookups, start);
  }
}

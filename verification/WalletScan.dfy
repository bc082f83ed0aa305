/** `decryptBalances`: scanning the UTXO trees in batches, from where earlier runs got to. */
module WalletScan {
  import opened Wrappers
  import opened MerkleSpec

  const BATCH_SIZE: nat := 1600

  /** What the wallet stores about its progress. */
  datatype WalletDetails = WalletDetails(treeScannedHeights: seq<nat>, creationTree: Option<nat>,
      creationTreeHeight: Option<nat>)

  datatype Position = Position(tree: nat, index: nat)
  datatype Batch = Batch(tree: nat, start: nat, end: nat)

  /** A write of the wallet details, with what had been scanned by then. */
  datatype Persisted = Persisted(details: WalletDetails, scanned: map<Position, Leaf>)

  /** The trees as the run finds them, in order. */
  type Forest = seq<seq<Leaf>>

  function StartScanTree(details: WalletDetails): nat {
    if details.creationTree.Some? then details.creationTree.value else 0
  }

  /** The first position of a tree that can hold anything of the wallet's. */
  function CreationPoint(details: WalletDetails, tree: nat): nat {
    if details.creationTree == Some(tree) && details.creationTreeHeight.Some? then details.creationTreeHeight.value
      else 0
  }

  function Max(a: nat, b: nat): nat {
    if a > b then a else b
  }

  /** `Math.ceil(totalLeaves / BATCH_SIZE)` */
  function TotalBatches(totalLeaves: int): (r: int)
    ensures (r - 1) * BATCH_SIZE < totalLeaves <= r * BATCH_SIZE
  {
    -((-totalLeaves) / BATCH_SIZE)
  }

  // ---------- coverage ----------

  /** Positions at or after (tree, height) of the creation point, or all without one. */
  ghost predicate InScope(details: WalletDetails, tree: nat, index: nat) {
    match details.creationTree
    case None => true
    case Some(first) =>
      first < tree
      || (first == tree && (details.creationTreeHeight.Some? ==> details.creationTreeHeight.value <= index))
  }

  /** The scan starts at the creation point: a position is at or behind the start of its tree, in a
      tree that is visited, exactly if it is in scope. */
  lemma {:induction false} ScopeIs(details: WalletDetails, tree: nat, index: nat)
    ensures InScope(details, tree, index) <==> StartScanTree(details) <= tree && CreationPoint(details, tree) <= index
  {
  }

  ghost predicate CoveredAt(details: WalletDetails, scanned: map<Position, Leaf>, tree: nat, index: nat) {
    tree < |details.treeScannedHeights| && InScope(details, tree, index) && index < details.treeScannedHeights[tree]
    ==> Position(tree, index) in scanned
  }

  /** Every position from the creation point up to the stored heights has been scanned. */
  ghost predicate Covered(details: WalletDetails, scanned: map<Position, Leaf>) {
    forall t, i :: CoveredAt(details, scanned, t, i)
  }

  ghost predicate ScannedAt(scanned: map<Position, Leaf>, forest: Forest, at: Position) {
    at in scanned ==> at.tree < |forest| && at.index < |forest[at.tree]| && scanned[at] == forest[at.tree][at.index]
  }

  /** Whatever was scanned was scanned at its own position. */
  ghost predicate ScannedOk(scanned: map<Position, Leaf>, forest: Forest) {
    forall at :: ScannedAt(scanned, forest, at)
  }

  ghost predicate GrownAt(before: Forest, now: Forest, tree: nat) {
    tree < |before| ==> tree < |now| && before[tree] <= now[tree]
  }

  /** The forest has only grown, in its trees or by new trees. */
  ghost predicate Grown(before: Forest, now: Forest) {
    forall t :: GrownAt(before, now, t)
  }

  lemma {:induction false} GrowthKeepsScanned(scanned: map<Position, Leaf>, before: Forest, now: Forest)
    requires ScannedOk(scanned, before) && Grown(before, now)
    ensures ScannedOk(scanned, now)
  {
    forall at
      ensures ScannedAt(scanned, now, at)
    {
      assert ScannedAt(scanned, before, at) && GrownAt(before, now, at.tree);
    }
  }

  // ---------- the batches of one tree ----------

  function BatchAt(tree: nat, start: nat, height: nat, batchIndex: nat): Batch {
    Batch(tree, start + batchIndex * BATCH_SIZE, Min(start + batchIndex * BATCH_SIZE + BATCH_SIZE, height))
  }

  /** The batches of a tree from `start` up to its height. */
  function Batches(tree: nat, start: nat, height: nat): seq<Batch> {
    var totalBatches := TotalBatches(height - start);
    seq(if totalBatches < 0 then 0 else totalBatches, k requires 0 <= k => BatchAt(tree, start, height, k))
  }

  /** They tile start..height: the first begins at `start`, each next one where the one before
      ended, the last ends at the height, and each has 1 to 1600 positions. */
  lemma {:induction false} BatchesTile(tree: nat, start: nat, height: nat)
    ensures var bs := Batches(tree, start, height);
      && (bs == [] <==> start >= height)
      && (bs != [] ==> bs[0].start == start && bs[|bs| - 1].end == height)
      && (forall k :: 0 <= k < |bs| ==> bs[k].tree == tree && bs[k].start < bs[k].end <= bs[k].start + 1600)
      && (forall k :: 0 < k < |bs| ==> bs[k].start == bs[k - 1].end)
  {
    var bs := Batches(tree, start, height);
    forall k | 0 < k < |bs|
      ensures bs[k].start == bs[k - 1].end
    {
      assert bs[k - 1] == BatchAt(tree, start, height, k - 1) && bs[k] == BatchAt(tree, start, height, k);
    }
  }

  /** Where the scan of a tree resumes. */
  function ResumeAt(details: WalletDetails, tree: nat): nat
    requires tree < |details.treeScannedHeights|
  {
    Max(CreationPoint(details, tree), details.treeScannedHeights[tree])
  }

  /** Everything a run scans, from `tree` on, if nothing stops it. */
  function Plan(details: WalletDetails, forest: Forest, tree: nat): seq<Batch>
    requires |forest| <= |details.treeScannedHeights|
    decreases |forest| - tree
  {
    if tree >= |forest| then []
    else Batches(tree, ResumeAt(details, tree), |forest[tree]|) + Plan(details, forest, tree + 1)
  }

  ghost predicate PlannedAt(batches: seq<Batch>, tree: nat, index: nat) {
    exists b :: b in batches && b.tree == tree && b.start <= index < b.end
  }

  /** The plan scans exactly the positions in scope that are behind the stored heights. */
  lemma {:induction false} PlanIs(details: WalletDetails, forest: Forest, from: nat, tree: nat, index: nat)
    requires |forest| <= |details.treeScannedHeights| && StartScanTree(details) <= from
    ensures PlannedAt(Plan(details, forest, from), tree, index)
       <==> from <= tree < |forest| && InScope(details, tree, index)
            && details.treeScannedHeights[tree] <= index < |forest[tree]|
    decreases |forest| - from
  {
    ScopeIs(details, tree, index);
    if from < |forest| {
      var here := Batches(from, ResumeAt(details, from), |forest[from]|);
      PlanIs(details, forest, from + 1, tree, index);
      BatchesCover(from, ResumeAt(details, from), |forest[from]|, tree, index);
      var later := Plan(details, forest, from + 1);
      assert PlannedAt(here + later, tree, index) <==> PlannedAt(here, tree, index) || PlannedAt(later, tree, index);
    }
  }

  ghost predicate AddedAt(before: map<Position, Leaf>, after: map<Position, Leaf>, batches: seq<Batch>, at: Position) {
    at in after <==> at in before || PlannedAt(batches, at.tree, at.index)
  }

  /** Exactly the positions of the batches were scanned, beside what had been before. */
  ghost predicate Added(before: map<Position, Leaf>, after: map<Position, Leaf>, batches: seq<Batch>) {
    forall at :: AddedAt(before, after, batches, at)
  }

  lemma {:induction false} AddedMore(a: map<Position, Leaf>, b: map<Position, Leaf>, c: map<Position, Leaf>,
      first: seq<Batch>, second: seq<Batch>)
    requires Added(a, b, first) && Added(b, c, second)
    ensures Added(a, c, first + second)
  {
    forall at
      ensures AddedAt(a, c, first + second, at)
    {
      assert AddedAt(a, b, first, at) && AddedAt(b, c, second, at);
      assert PlannedAt(first + second, at.tree, at.index)
        <==> PlannedAt(first, at.tree, at.index) || PlannedAt(second, at.tree, at.index);
    }
  }

  lemma {:induction false} BatchesCover(tree: nat, start: nat, height: nat, t: nat, index: nat)
    ensures PlannedAt(Batches(tree, start, height), t, index) <==> t == tree && start <= index < height
  {
    var batches := Batches(tree, start, height);
    if t == tree && start <= index < height {
      var k := (index - start) / BATCH_SIZE;
      assert batches[k] == BatchAt(tree, start, height, k) && batches[k] in batches;
    }
  }

  /** The details a run works on: a height for every tree, and the creation point if it is known. */
  function Prepared(details: WalletDetails, treeCount: nat, creation: Option<Position>): WalletDetails {
    var heights := details.treeScannedHeights + if |details.treeScannedHeights| < treeCount
      then seq(treeCount - |details.treeScannedHeights|, _ => 0) else [];
    if creation.Some? && (details.creationTree.None? || details.creationTreeHeight.None?)
    then WalletDetails(heights, Some(creation.value.tree), Some(creation.value.index))
    else details.(treeScannedHeights := heights)
  }

  /** Preparing never claims more than was scanned, as long as the creation tree was unknown or
      stays. */
  lemma {:induction false} PreparedIsCovered(details: WalletDetails, scanned: map<Position, Leaf>, treeCount: nat,
      creation: Option<Position>)
    requires Covered(details, scanned) && (details.creationTree.Some? ==> details.creationTreeHeight.Some?)
    ensures Covered(Prepared(details, treeCount, creation), scanned)
    ensures var heights := Prepared(details, treeCount, creation).treeScannedHeights;
      && |heights| == Max(|details.treeScannedHeights|, treeCount)
      && forall t :: 0 <= t < |heights|
                     ==> heights[t] == if t < |details.treeScannedHeights| then details.treeScannedHeights[t] else 0
  {
    forall t: nat, i: nat
      ensures CoveredAt(Prepared(details, treeCount, creation), scanned, t, i)
    {
      assert CoveredAt(details, scanned, t, i);
    }
  }

  class Wallet {
    // The database: the wallet details and the commitments scanned so far.
    var details: WalletDetails
    var scanned: map<Position, Leaf>

    ghost var history: seq<Persisted>

    ghost predicate Valid(forest: Forest)
      reads this
    {
      && ScannedOk(scanned, forest)
      && DetailsOk(details, scanned)
      && (forall h :: h in history ==> Covered(h.details, h.scanned))
      && (history != [] ==> details == history[|history| - 1].details)
    }

    constructor ()
      ensures Valid([]) && scanned == map[] && history == []
    {
      details, scanned, history := WalletDetails([], None, None), map[], [];
    }

    /** `scanLeaves` for a range of one tree. */
    method ScanLeaves(leaves: seq<Leaf>, tree: nat, startScanHeight: nat, ghost forest: Forest)
      requires Valid(forest) && tree < |forest| && startScanHeight + |leaves| <= |forest[tree]|
      requires leaves == forest[tree][startScanHeight..startScanHeight + |leaves|]
      modifies this`scanned
      ensures Valid(forest) && forall d :: DetailsOk(d, old(scanned)) ==> DetailsOk(d, scanned)
      ensures forall at :: at in scanned
                           <==> at in old(scanned) || (at.tree == tree
                                && startScanHeight <= at.index < startScanHeight + |leaves|)
    {
      for i := 0 to |leaves|
        invariant ScannedOk(scanned, forest)
        invariant forall at :: at in scanned
                               <==> at in old(scanned) || (at.tree == tree
                                    && startScanHeight <= at.index < startScanHeight + i)
      {
        ghost var before := scanned;
        scanned := scanned[Position(tree, startScanHeight + i) := leaves[i]];
        ghost var now := scanned;
        forall at
          ensures ScannedAt(now, forest, at)
        {
          assert ScannedAt(before, forest, at);
        }
      }
      ghost var before, now := old(scanned), scanned;
      forall d | DetailsOk(d, before)
        ensures DetailsOk(d, now)
      {
        MoreIsCovered(d, before, now);
      }
    }

    /** The scan of one tree.  `stop` says after which batches of the run another run has taken
        over; such a batch is scanned but its height is not stored. */
    method ScanTree(walletDetails: WalletDetails, tree: nat, forest: Forest, stop: nat -> bool, batchesBefore: nat)
        returns (walletDetails': WalletDetails, completed: bool, batches: seq<Batch>)
      requires tree < |forest| <= |walletDetails.treeScannedHeights| && StartScanTree(walletDetails) <= tree
      requires Valid(forest) && DetailsOk(walletDetails, scanned)
      modifies this
      ensures Valid(forest) && DetailsOk(walletDetails', scanned) && old(history) <= history
      ensures OnlyTreeMoved(walletDetails, walletDetails', tree)
      ensures TreeScanned(walletDetails, walletDetails', forest, tree, stop, batchesBefore, batches, completed)
      ensures Stored(old(details), walletDetails, details, walletDetails', Committed(batches, completed))
      ensures Added(old(scanned), scanned, batches)
    {
      walletDetails', batches, completed := walletDetails, [], true;
      var startScanHeight, treeHeight := ResumeAt(walletDetails, tree), |forest[tree]|;
      var totalBatches := TotalBatches(treeHeight - startScanHeight);
      var batchIndex := 0;
      while batchIndex < totalBatches
        invariant Valid(forest) && DetailsOk(walletDetails', scanned) && old(history) <= history
        invariant 0 <= batchIndex == |batches|
        invariant TreeSoFar(walletDetails, walletDetails', forest, tree, stop, batchesBefore, batches)
        invariant Stored(old(details), walletDetails, details, walletDetails', |batches|)
        invariant Added(old(scanned), scanned, batches)
        decreases totalBatches - batchIndex
      {
        var batchStart := startScanHeight + batchIndex * BATCH_SIZE;
        var batchEnd := Min(batchStart + BATCH_SIZE, treeHeight);
        NextBatch(walletDetails, walletDetails', forest, tree, stop, batchesBefore, batches);
        ghost var before := scanned;
        var committed;
        walletDetails', committed := ScanBatch(walletDetails', tree, batchStart, batchEnd, forest,
          stop(batchesBefore + batchIndex));
        AddedMore(old(scanned), before, scanned, batches, [Batch(tree, batchStart, batchEnd)]);
        batches := batches + [Batch(tree, batchStart, batchEnd)];
        if !committed {
          return walletDetails', false, batches;
        }
        batchIndex := batchIndex + 1;
      }
      AllBatches(walletDetails, walletDetails', forest, tree, stop, batchesBefore, batches);
    }

    /** One batch: scan it, and store its height unless another run has taken over. */
    method ScanBatch(walletDetails: WalletDetails, tree: nat, batchStart: nat, batchEnd: nat, forest: Forest,
        takenOver: bool) returns (walletDetails': WalletDetails, committed: bool)
      requires Valid(forest) && DetailsOk(walletDetails, scanned) && tree < |walletDetails.treeScannedHeights|
        && tree < |forest|
      requires batchStart == ResumeAt(walletDetails, tree) < batchEnd <= |forest[tree]|
      modifies this
      ensures Valid(forest) && DetailsOk(walletDetails', scanned) && old(history) <= history && committed == !takenOver
      ensures walletDetails' == if takenOver then walletDetails
        else walletDetails.(treeScannedHeights := walletDetails.treeScannedHeights[tree := batchEnd])
      ensures details == if takenOver then old(details) else walletDetails'
      ensures Added(old(scanned), scanned, [Batch(tree, batchStart, batchEnd)])
    {
      ScanLeaves(forest[tree][batchStart..batchEnd], tree, batchStart, forest);
      ghost var before, now, batch := old(scanned), scanned, Batch(tree, batchStart, batchEnd);
      forall at
        ensures AddedAt(before, now, [batch], at)
      {
        assert batch in [batch];
      }
      if takenOver {
        return walletDetails, false;
      }
      walletDetails' := CommitHeight(walletDetails, tree, batchStart, batchEnd, forest);
      committed := true;
    }

    /** Stores the height reached in a tree, once everything up to it is scanned. */
    method CommitHeight(walletDetails: WalletDetails, tree: nat, batchStart: nat, batchEnd: nat, ghost forest: Forest)
        returns (walletDetails': WalletDetails)
      requires Valid(forest) && DetailsOk(walletDetails, scanned) && tree < |walletDetails.treeScannedHeights|
      requires batchStart == ResumeAt(walletDetails, tree) < batchEnd
        && forall i :: batchStart <= i < batchEnd ==> Position(tree, i) in scanned
      modifies this`details, this`history
      ensures Valid(forest) && DetailsOk(walletDetails', scanned)
        && history == old(history) + [Persisted(walletDetails', scanned)]
      ensures walletDetails' == walletDetails.(treeScannedHeights := walletDetails.treeScannedHeights[tree := batchEnd])
      ensures details == walletDetails'
    {
      walletDetails' := walletDetails.(treeScannedHeights := walletDetails.treeScannedHeights[tree := batchEnd]);
      HeightAdvances(walletDetails, tree, batchEnd, scanned);
      details := walletDetails';
      history := history + [Persisted(details, scanned)];
    }

    /** `decryptBalances` over the forest it finds.  Whenever it returns, early or not, what is
        stored is covered by what was scanned, as at every write on the way; what it scanned is the
        start of the plan, and all of it if nothing stopped the run, which then has reached the
        height of every tree from the creation tree on. */
    method DecryptBalances(forest: Forest, creation: Option<Position>, stop: nat -> bool)
        returns (completed: bool, batches: seq<Batch>, walletDetails: WalletDetails)
      requires Valid(forest) && forest != []
      modifies this
      ensures Valid(forest) && old(history) <= history
      ensures var prepared := Prepared(old(details), |forest|, creation);
        Ran(prepared, walletDetails, forest, StartScanTree(prepared), stop, batches, completed)
      ensures completed ==> AllFound(walletDetails, scanned, forest)
      ensures Added(old(scanned), scanned, batches)
      ensures creation.Some? && old(details).creationTree.None? ==>
        walletDetails.creationTree == Some(creation.value.tree)
        && walletDetails.creationTreeHeight == Some(creation.value.index)
      ensures creation.None? || old(details).creationTree.Some? ==>
        walletDetails.creationTree == old(details).creationTree
        && walletDetails.creationTreeHeight == old(details).creationTreeHeight
      ensures Stored(old(details), Prepared(old(details), |forest|, creation), details, walletDetails,
        Committed(batches, completed))
      ensures !completed ==> ResumesAtLast(Prepared(details, |forest|, creation), batches)
    {
      walletDetails := Prepared(details, |forest|, creation);
      PreparedIsCovered(details, scanned, |forest|, creation);
      completed, batches, walletDetails := ScanTrees(walletDetails, forest, stop);
      if completed {
        ReachedIsScanned(walletDetails, scanned, forest);
      } else if Committed(batches, completed) > 0 {
        PreparedAgain(old(details), walletDetails, |forest|, creation);
      }
    }

    /** The loop over the trees. */
    method ScanTrees(prepared: WalletDetails, forest: Forest, stop: nat -> bool)
        returns (completed: bool, batches: seq<Batch>, walletDetails: WalletDetails)
      requires Valid(forest) && DetailsOk(prepared, scanned) && |forest| <= |prepared.treeScannedHeights|
      modifies this
      ensures Valid(forest) && DetailsOk(walletDetails, scanned) && old(history) <= history
      ensures Ran(prepared, walletDetails, forest, StartScanTree(prepared), stop, batches, completed)
      ensures Stored(old(details), prepared, details, walletDetails, Committed(batches, completed))
      ensures SameFrom(prepared, walletDetails, |prepared.treeScannedHeights|)
      ensures Added(old(scanned), scanned, batches)
    {
      walletDetails := prepared;
      var startScanTree := StartScanTree(walletDetails);
      batches, completed := [], true;
      var treeIndex := startScanTree;
      while treeIndex < |forest|
        invariant Valid(forest) && DetailsOk(walletDetails, scanned) && old(history) <= history
        invariant startScanTree <= treeIndex
          && RunOk(prepared, walletDetails, forest, startScanTree, treeIndex, stop, batches)
        invariant Stored(old(details), prepared, details, walletDetails, |batches|)
        invariant SameFrom(prepared, walletDetails, |prepared.treeScannedHeights|)
        invariant Added(old(scanned), scanned, batches)
        decreases |forest| - treeIndex
      {
        var treeBatches;
        ghost var before, scannedBefore := walletDetails, scanned;
        walletDetails, completed, treeBatches := ScanTree(walletDetails, treeIndex, forest, stop, |batches|);
        RunAdvances(prepared, before, walletDetails, forest, startScanTree, treeIndex, stop, batches, treeBatches,
          completed);
        AddedMore(old(scanned), scannedBefore, scanned, batches, treeBatches);
        batches := batches + treeBatches;
        if !completed {
          return;
        }
        treeIndex := treeIndex + 1;
      }
      RunEnds(prepared, walletDetails, forest, startScanTree, treeIndex, stop, batches);
    }
  }

  /** How many of the batches had their height stored: all, but for one after which another run had
      taken over. */
  function Committed(batches: seq<Batch>, completed: bool): nat {
    if completed || batches == [] then |batches| else |batches| - 1
  }

  /** What a run that began with `start` stores is its own copy of the details, once a height was
      committed; before that it has changed neither. */
  ghost predicate Stored(before: WalletDetails, start: WalletDetails, stored: WalletDetails, copy: WalletDetails,
      committed: nat) {
    if committed > 0 then stored == copy else stored == before && copy == start
  }

  /** A later run with the same creation point works on the details as they are stored. */
  lemma {:induction false} PreparedAgain(before: WalletDetails, after: WalletDetails, treeCount: nat,
      creation: Option<Position>)
    requires var prepared := Prepared(before, treeCount, creation);
      SameFrom(prepared, after, |prepared.treeScannedHeights|)
    ensures Prepared(after, treeCount, creation) == after
  {
    assert after.treeScannedHeights + [] == after.treeScannedHeights;
  }

  /** The last batch scanned is the one a later run starts with. */
  ghost predicate ResumesAtLast(details: WalletDetails, batches: seq<Batch>) {
    batches != [] && var last := batches[|batches| - 1];
      last.tree < |details.treeScannedHeights| && ResumeAt(details, last.tree) == last.start
  }

  /** A position from the creation point on holds what was scanned there. */
  ghost predicate FoundAt(details: WalletDetails, scanned: map<Position, Leaf>, forest: Forest, tree: nat, index: nat) {
    tree < |forest| && InScope(details, tree, index) && index < |forest[tree]|
    ==> Position(tree, index) in scanned && scanned[Position(tree, index)] == forest[tree][index]
  }

  ghost predicate AllFound(details: WalletDetails, scanned: map<Position, Leaf>, forest: Forest) {
    forall t, i :: FoundAt(details, scanned, forest, t, i)
  }

  /** Every tree from the creation tree on has been scanned up to its height. */
  ghost predicate AllReached(details: WalletDetails, forest: Forest) {
    forall t :: StartScanTree(details) <= t < |forest| ==> HeightReached(details, forest, t)
  }

  /** No other run took over after batches first..last. */
  predicate NotStopped(stop: nat -> bool, first: nat, last: nat) {
    forall k :: first <= k < last ==> !stop(k)
  }

  lemma {:induction false} ReachedIsScanned(details: WalletDetails, scanned: map<Position, Leaf>, forest: Forest)
    requires Covered(details, scanned) && ScannedOk(scanned, forest)
    requires AllReached(details, forest)
    ensures AllFound(details, scanned, forest)
  {
    forall t: nat, i: nat
      ensures FoundAt(details, scanned, forest, t, i)
    {
      if StartScanTree(details) <= t < |forest| {
        assert HeightReached(details, forest, t) && CoveredAt(details, scanned, t, i);
        assert ScannedAt(scanned, forest, Position(t, i));
      }
    }
  }

  ghost predicate DetailsOk(details: WalletDetails, scanned: map<Position, Leaf>) {
    Covered(details, scanned) && (details.creationTree.Some? ==> details.creationTreeHeight.Some?)
  }

  lemma {:induction false} MoreIsCovered(details: WalletDetails, before: map<Position, Leaf>, now: map<Position, Leaf>)
    requires Covered(details, before) && forall at :: at in before ==> at in now
    ensures Covered(details, now)
  {
    forall t: nat, i: nat
      ensures CoveredAt(details, now, t, i)
    {
      assert CoveredAt(details, before, t, i);
    }
  }

  /** Where a run stands when it comes to `tree`: the trees before are done, those from it on are as
      they were. */
  ghost predicate RunOk(prepared: WalletDetails, details: WalletDetails, forest: Forest, first: nat, tree: nat,
      stop: nat -> bool, batches: seq<Batch>) {
    && NotStopped(stop, 0, |batches|)
    && SameFrom(prepared, details, tree) && |forest| <= |prepared.treeScannedHeights|
    && Plan(prepared, forest, first) == batches + Plan(prepared, forest, tree)
    && forall t :: first <= t < tree && t < |forest| ==> HeightReached(details, forest, t)
  }

  /** What a run comes to: the whole plan, or its beginning up to a batch after which another run
      took over. */
  ghost predicate Ran(prepared: WalletDetails, details: WalletDetails, forest: Forest, first: nat, stop: nat -> bool,
      batches: seq<Batch>, completed: bool)
    requires |forest| <= |prepared.treeScannedHeights|
  {
    && batches <= Plan(prepared, forest, first) && (completed <==> NotStopped(stop, 0, |batches|))
    && (if completed then batches == Plan(prepared, forest, first)
      && AllReached(details, forest) else ResumesAtLast(details, batches))
  }

  /** One tree's part of a run: all its batches in order, or the first of them. */
  ghost predicate TreeScanned(before: WalletDetails, after: WalletDetails, forest: Forest, tree: nat,
      stop: nat -> bool, batchesBefore: nat, batches: seq<Batch>, completed: bool)
    requires tree < |forest| && tree < |before.treeScannedHeights|
  {
    var planned := Batches(tree, ResumeAt(before, tree), |forest[tree]|);
    && batches <= planned && (completed ==> batches == planned)
    && (completed <==> NotStopped(stop, batchesBefore, batchesBefore + |batches|))
    && if completed then HeightReached(after, forest, tree) else ResumesAtLast(after, batches)
  }

  /** Where the scan of a tree stands: its first batches are scanned and their heights stored. */
  ghost predicate TreeSoFar(before: WalletDetails, after: WalletDetails, forest: Forest, tree: nat, stop: nat -> bool,
      batchesBefore: nat, batches: seq<Batch>)
    requires tree < |forest| && tree < |before.treeScannedHeights|
  {
    var planned := Batches(tree, ResumeAt(before, tree), |forest[tree]|);
    && OnlyTreeMoved(before, after, tree) && batches <= planned
    && NotStopped(stop, batchesBefore, batchesBefore + |batches|)
    && ResumeAt(after, tree) == if batches == [] then ResumeAt(before, tree) else batches[|batches| - 1].end
  }

  /** The next batch starts where the scan of the tree stands, and what it leads to. */
  lemma {:induction false} NextBatch(before: WalletDetails, after: WalletDetails, forest: Forest, tree: nat,
      stop: nat -> bool, batchesBefore: nat, batches: seq<Batch>)
    requires tree < |forest| && tree < |before.treeScannedHeights|
      && TreeSoFar(before, after, forest, tree, stop, batchesBefore, batches)
    requires |batches| < |Batches(tree, ResumeAt(before, tree), |forest[tree]|)|
    ensures var next := BatchAt(tree, ResumeAt(before, tree), |forest[tree]|, |batches|);
      && next.start == ResumeAt(after, tree) < next.end <= |forest[tree]|
      && if stop(batchesBefore + |batches|)
        then TreeScanned(before, after, forest, tree, stop, batchesBefore, batches + [next], false)
        else TreeSoFar(before, after.(treeScannedHeights := after.treeScannedHeights[tree := next.end]), forest, tree,
          stop, batchesBefore, batches + [next])
  {
    var k, planned := |batches|, Batches(tree, ResumeAt(before, tree), |forest[tree]|);
    BatchesTile(tree, ResumeAt(before, tree), |forest[tree]|);
    assert planned[..k + 1] == planned[..k] + [planned[k]];
    assert batches + [planned[k]] <= planned;
  }

  lemma {:induction false} AllBatches(before: WalletDetails, after: WalletDetails, forest: Forest, tree: nat,
      stop: nat -> bool, batchesBefore: nat, batches: seq<Batch>)
    requires tree < |forest| && tree < |before.treeScannedHeights|
      && TreeSoFar(before, after, forest, tree, stop, batchesBefore, batches)
    requires |batches| >= |Batches(tree, ResumeAt(before, tree), |forest[tree]|)|
    ensures TreeScanned(before, after, forest, tree, stop, batchesBefore, batches, true)
  {
    BatchesTile(tree, ResumeAt(before, tree), |forest[tree]|);
  }

  /** One more tree, or its first batches. */
  lemma {:induction false} RunAdvances(prepared: WalletDetails, before: WalletDetails, after: WalletDetails,
      forest: Forest, first: nat, tree: nat, stop: nat -> bool, batches: seq<Batch>, treeBatches: seq<Batch>,
      completed: bool)
    requires first <= tree < |forest| && RunOk(prepared, before, forest, first, tree, stop, batches)
      && OnlyTreeMoved(before, after, tree)
    requires TreeScanned(before, after, forest, tree, stop, |batches|, treeBatches, completed)
    ensures if completed then RunOk(prepared, after, forest, first, tree + 1, stop, batches + treeBatches)
      else Ran(prepared, after, forest, first, stop, batches + treeBatches, false)
  {
    PlanFollows(prepared, before, forest, first, tree, batches, treeBatches);
    if completed {
      StillReached(before, after, forest, first, tree);
    } else {
      LastResumes(after, batches, treeBatches);
    }
  }

  lemma {:induction false} LastResumes(details: WalletDetails, batches: seq<Batch>, treeBatches: seq<Batch>)
    requires ResumesAtLast(details, treeBatches)
    ensures ResumesAtLast(details, batches + treeBatches)
  {
    var all := batches + treeBatches;
    assert all[|all| - 1] == treeBatches[|treeBatches| - 1];
  }

  lemma {:induction false} RunEnds(prepared: WalletDetails, details: WalletDetails, forest: Forest, first: nat,
      tree: nat, stop: nat -> bool, batches: seq<Batch>)
    requires RunOk(prepared, details, forest, first, tree, stop, batches) && |forest| <= tree
      && first == StartScanTree(details)
    ensures Ran(prepared, details, forest, first, stop, batches, true)
  {
    assert batches + [] == batches;
  }

  /** The batches of the next tree continue the plan. */
  lemma {:induction false} PlanFollows(prepared: WalletDetails, details: WalletDetails, forest: Forest, first: nat,
      tree: nat, batches: seq<Batch>, treeBatches: seq<Batch>)
    requires tree < |forest| <= |prepared.treeScannedHeights| && SameFrom(prepared, details, tree)
    requires Plan(prepared, forest, first) == batches + Plan(prepared, forest, tree)
    requires treeBatches <= Batches(tree, ResumeAt(details, tree), |forest[tree]|)
    ensures batches + treeBatches <= Plan(prepared, forest, first)
    ensures treeBatches == Batches(tree, ResumeAt(details, tree), |forest[tree]|)
      ==> Plan(prepared, forest, first) == batches + treeBatches + Plan(prepared, forest, tree + 1)
  {
    assert ResumeAt(details, tree) == ResumeAt(prepared, tree);
    Continued(batches, Batches(tree, ResumeAt(prepared, tree), |forest[tree]|), Plan(prepared, forest, tree + 1),
      treeBatches);
  }

  lemma {:induction false} Continued(done: seq<Batch>, planned: seq<Batch>, later: seq<Batch>, more: seq<Batch>)
    requires more <= planned
    ensures done + more <= done + (planned + later)
    ensures more == planned ==> done + (planned + later) == done + more + later
  {
    assert planned == more + planned[|more|..];
    assert done + (planned + later) == (done + more) + (planned[|more|..] + later);
  }

  lemma {:induction false} StillReached(before: WalletDetails, after: WalletDetails, forest: Forest, first: nat,
      tree: nat)
    requires first <= tree < |forest| <= |before.treeScannedHeights| && OnlyTreeMoved(before, after, tree)
    requires HeightReached(after, forest, tree) && forall t :: first <= t < tree ==> HeightReached(before, forest, t)
    ensures forall t :: first <= t < tree + 1 ==> HeightReached(after, forest, t)
  {
    forall t | first <= t < tree + 1
      ensures HeightReached(after, forest, t)
    {
      assert t < tree ==> HeightReached(before, forest, t);
    }
  }

  /** Nothing but one tree's height has changed. */
  ghost predicate OnlyTreeMoved(before: WalletDetails, after: WalletDetails, tree: nat)
    requires tree < |before.treeScannedHeights|
  {
    && |after.treeScannedHeights| == |before.treeScannedHeights|
    && after == before.(treeScannedHeights := before.treeScannedHeights[tree := after.treeScannedHeights[tree]])
  }

  ghost predicate SameFrom(before: WalletDetails, after: WalletDetails, tree: nat) {
    && after.creationTree == before.creationTree && after.creationTreeHeight == before.creationTreeHeight
    && |after.treeScannedHeights| == |before.treeScannedHeights|
    && forall t :: tree <= t < |before.treeScannedHeights|
                   ==> after.treeScannedHeights[t] == before.treeScannedHeights[t]
  }

  ghost predicate HeightReached(details: WalletDetails, forest: Forest, tree: nat)
    requires tree < |forest|
  {
    tree < |details.treeScannedHeights| && ResumeAt(details, tree) >= |forest[tree]|
  }

  lemma {:induction false} HeightAdvances(details: WalletDetails, tree: nat, end: nat, scanned: map<Position, Leaf>)
    requires Covered(details, scanned) && tree < |details.treeScannedHeights|
    requires forall i :: ResumeAt(details, tree) <= i < end ==> Position(tree, i) in scanned
    ensures Covered(details.(treeScannedHeights := details.treeScannedHeights[tree := end]), scanned)
  {
    var details' := details.(treeScannedHeights := details.treeScannedHeights[tree := end]);
    forall t: nat, i: nat
      ensures CoveredAt(details', scanned, t, i)
    {
      assert CoveredAt(details, scanned, t, i);
    }
  }

  function Min(a: nat, b: nat): nat {
    if a < b then a else b
  }
}

/** Coin selection: which UTXOs pay for which outputs.

    `Solution` is what one `createSpendingSolutionsForValue` call must do; the methods, which edit
    the list of remaining outputs and the exclusion list as they go, are proved against it, and
    the lemmas say what it guarantees. */
module Solutions {
  import opened Wrappers

  /** A note to be sent.  `recipient` stands for everything a derived note keeps. */
  datatype Note = Note(token: nat, recipient: nat, value: nat)

  datatype UTXO = UTXO(txid: nat, position: nat, value: nat)
  datatype UTXOId = UTXOId(txid: nat, position: nat)
  datatype TreeBalance = TreeBalance(balance: nat, utxos: seq<UTXO>)

  /** Indexed by tree number; a tree without UTXOs of the token is a hole. */
  type Balances = seq<Option<TreeBalance>>

  datatype Group = Group(spendingTree: nat, utxos: seq<UTXO>, tokenOutputs: seq<Note>, unshieldValue: nat)

  const MAX_INPUTS: nat := 10

  /** The placeholder input of a 0-value group. */
  const NULL_UTXO := UTXO(0, 100000, 0)

  function Id(utxo: UTXO): UTXOId {
    UTXOId(utxo.txid, utxo.position)
  }

  function Ids(utxos: seq<UTXO>): (r: seq<UTXOId>)
    ensures |r| == |utxos|
  {
    seq(|utxos|, i requires 0 <= i < |utxos| => Id(utxos[i]))
  }

  function Min(a: int, b: int): int {
    if a < b then a else b
  }

  /** What `newProcessingNoteWithValue` makes. */
  function WithValue(note: Note, value: nat): Note {
    note.(value := value)
  }

  // ---------- sums ----------

  function CalculateTotalSpend(utxos: seq<UTXO>): nat {
    if utxos == [] then 0 else utxos[0].value + CalculateTotalSpend(utxos[1..])
  }

  function Total(notes: seq<Note>): nat {
    if notes == [] then 0 else notes[0].value + Total(notes[1..])
  }

  /** What `notes` send to one recipient. */
  function Owed(notes: seq<Note>, recipient: nat): nat {
    if notes == [] then 0
    else (if notes[0].recipient == recipient then notes[0].value else 0) + Owed(notes[1..], recipient)
  }

  function PaidTo(groups: seq<Group>, recipient: nat): nat {
    if groups == [] then 0 else Owed(groups[0].tokenOutputs, recipient) + PaidTo(groups[1..], recipient)
  }

  function Unshielded(groups: seq<Group>): nat {
    if groups == [] then 0 else groups[0].unshieldValue + Unshielded(groups[1..])
  }

  function Spent(groups: seq<Group>): nat {
    if groups == [] then 0 else CalculateTotalSpend(groups[0].utxos) + Spent(groups[1..])
  }

  /** Every real input of the groups, in order; the null UTXO is none. */
  function RealInputs(groups: seq<Group>): seq<UTXO> {
    if groups == [] then [] else FilterZeroUTXOs(groups[0].utxos) + RealInputs(groups[1..])
  }

  lemma {:induction false} SpendAppended(a: seq<UTXO>, b: seq<UTXO>)
    ensures CalculateTotalSpend(a + b) == CalculateTotalSpend(a) + CalculateTotalSpend(b)
  {
    if a == [] {
      assert a + b == b;
    } else {
      assert (a + b)[1..] == a[1..] + b;
      SpendAppended(a[1..], b);
    }
  }

  lemma {:induction false} GroupsAppended(a: seq<Group>, b: seq<Group>)
    ensures forall r :: PaidTo(a + b, r) == PaidTo(a, r) + PaidTo(b, r)
    ensures Unshielded(a + b) == Unshielded(a) + Unshielded(b)
    ensures Spent(a + b) == Spent(a) + Spent(b)
  {
    if a == [] {
      assert a + b == b;
    } else {
      assert (a + b)[1..] == a[1..] + b && (a + b)[0] == a[0];
      GroupsAppended(a[1..], b);
    }
  }

  lemma {:induction false} RealInputsAppended(a: seq<Group>, b: seq<Group>)
    ensures RealInputs(a + b) == RealInputs(a) + RealInputs(b)
  {
    if a == [] {
      assert a + b == b;
    } else {
      assert (a + b)[1..] == a[1..] + b && (a + b)[0] == a[0];
      RealInputsAppended(a[1..], b);
    }
  }

  // ---------- filters and order ----------

  function FilterZeroUTXOs(utxos: seq<UTXO>): seq<UTXO> {
    if utxos == [] then []
    else if utxos[0].value != 0 then [utxos[0]] + FilterZeroUTXOs(utxos[1..])
    else FilterZeroUTXOs(utxos[1..])
  }

  function WithoutExcluded(utxos: seq<UTXO>, excluded: seq<UTXOId>): seq<UTXO> {
    if utxos == [] then []
    else if Id(utxos[0]) !in excluded then [utxos[0]] + WithoutExcluded(utxos[1..], excluded)
    else WithoutExcluded(utxos[1..], excluded)
  }

  function Usable(utxos: seq<UTXO>, excluded: seq<UTXOId>): seq<UTXO> {
    WithoutExcluded(FilterZeroUTXOs(utxos), excluded)
  }

  predicate IsUsable(utxo: UTXO, excluded: seq<UTXOId>) {
    utxo.value != 0 && Id(utxo) !in excluded
  }

  ghost predicate Unmentioned(id: UTXOId, utxos: seq<UTXO>) {
    forall u :: u in utxos ==> Id(u) != id
  }

  /** No two entries have the same id. */
  ghost predicate Unique(utxos: seq<UTXO>) {
    utxos == [] || (Unmentioned(Id(utxos[0]), utxos[1..]) && Unique(utxos[1..]))
  }

  lemma {:induction false} UniqueParts(a: seq<UTXO>, b: seq<UTXO>)
    ensures Unique(a + b) <==> Unique(a) && Unique(b) && forall u :: u in a ==> Unmentioned(Id(u), b)
  {
    if a == [] {
      assert a + b == b;
    } else {
      UniqueParts(a[1..], b);
      assert (a + b)[1..] == a[1..] + b && (a + b)[0] == a[0];
      assert a == [a[0]] + a[1..];
    }
  }

  lemma {:induction false} UsableHead(utxos: seq<UTXO>, excluded: seq<UTXOId>)
    requires utxos != []
    ensures Usable(utxos, excluded) == if IsUsable(utxos[0], excluded) then [utxos[0]] + Usable(utxos[1..], excluded)
      else Usable(utxos[1..], excluded)
  {
    var tail := FilterZeroUTXOs(utxos[1..]);
    assert ([utxos[0]] + tail)[1..] == tail;
  }

  lemma {:induction false} UsableMembers(utxos: seq<UTXO>, excluded: seq<UTXOId>)
    ensures forall u :: u in Usable(utxos, excluded) <==> u in utxos && IsUsable(u, excluded)
    ensures Unique(utxos) ==> Unique(Usable(utxos, excluded))
  {
    if utxos != [] {
      var tail := utxos[1..];
      UsableMembers(tail, excluded);
      UsableHead(utxos, excluded);
      assert utxos == [utxos[0]] + tail;
      assert ([utxos[0]] + Usable(tail, excluded))[1..] == Usable(tail, excluded);
    }
  }

  function Insert(utxo: UTXO, sorted: seq<UTXO>): seq<UTXO> {
    if sorted == [] || utxo.value <= sorted[0].value then [utxo] + sorted
    else [sorted[0]] + Insert(utxo, sorted[1..])
  }

  /** The stable ascending sort. */
  function SortUTXOsByAscendingValue(utxos: seq<UTXO>): seq<UTXO> {
    if utxos == [] then [] else Insert(utxos[0], SortUTXOsByAscendingValue(utxos[1..]))
  }

  ghost predicate Ascending(utxos: seq<UTXO>) {
    forall i, j :: 0 <= i < j < |utxos| ==> utxos[i].value <= utxos[j].value
  }

  /** The entries of one value, in order. */
  ghost function OfValue(utxos: seq<UTXO>, value: nat): seq<UTXO> {
    if utxos == [] then []
    else if utxos[0].value == value then [utxos[0]] + OfValue(utxos[1..], value)
    else OfValue(utxos[1..], value)
  }

  lemma {:induction false} InsertSorts(utxo: UTXO, sorted: seq<UTXO>)
    requires Ascending(sorted)
    ensures Ascending(Insert(utxo, sorted))
    ensures forall u :: u in Insert(utxo, sorted) <==> u == utxo || u in sorted
  {
    if sorted != [] && utxo.value > sorted[0].value {
      var rest := Insert(utxo, sorted[1..]);
      InsertSorts(utxo, sorted[1..]);
      assert sorted == [sorted[0]] + sorted[1..];
      assert forall u :: u in rest ==> sorted[0].value <= u.value;
    }
  }

  lemma {:induction false} InsertPermutes(utxo: UTXO, sorted: seq<UTXO>)
    ensures multiset(Insert(utxo, sorted)) == multiset(sorted) + multiset{utxo}
  {
    if sorted != [] && utxo.value > sorted[0].value {
      InsertPermutes(utxo, sorted[1..]);
      assert sorted == [sorted[0]] + sorted[1..];
    }
  }

  lemma {:induction false} InsertIsStable(utxo: UTXO, sorted: seq<UTXO>, value: nat)
    ensures OfValue(Insert(utxo, sorted), value) == if utxo.value == value then [utxo] + OfValue(sorted, value)
      else OfValue(sorted, value)
  {
    if sorted != [] && utxo.value > sorted[0].value {
      var rest := Insert(utxo, sorted[1..]);
      InsertIsStable(utxo, sorted[1..], value);
      assert ([sorted[0]] + rest)[1..] == rest;
    } else {
      assert ([utxo] + sorted)[1..] == sorted;
    }
  }

  /** Ascending, a permutation, and equal values keep their order: the one stable sort. */
  lemma {:induction false} SortIsStable(utxos: seq<UTXO>)
    ensures Ascending(SortUTXOsByAscendingValue(utxos))
    ensures multiset(SortUTXOsByAscendingValue(utxos)) == multiset(utxos)
    ensures forall v :: OfValue(SortUTXOsByAscendingValue(utxos), v) == OfValue(utxos, v)
  {
    if utxos != [] {
      var sorted := SortUTXOsByAscendingValue(utxos[1..]);
      SortIsStable(utxos[1..]);
      InsertSorts(utxos[0], sorted);
      InsertPermutes(utxos[0], sorted);
      assert utxos == [utxos[0]] + utxos[1..];
      forall v
        ensures OfValue(SortUTXOsByAscendingValue(utxos), v) == OfValue(utxos, v)
      {
        InsertIsStable(utxos[0], sorted, v);
      }
    }
  }

  lemma {:induction false} SortKeepsUnique(utxos: seq<UTXO>)
    ensures |SortUTXOsByAscendingValue(utxos)| == |utxos|
    ensures forall u :: u in SortUTXOsByAscendingValue(utxos) <==> u in utxos
    ensures Unique(utxos) ==> Unique(SortUTXOsByAscendingValue(utxos))
  {
    if utxos != [] {
      var sorted := SortUTXOsByAscendingValue(utxos[1..]);
      SortKeepsUnique(utxos[1..]);
      assert utxos == [utxos[0]] + utxos[1..];
      SortIsStable(utxos[1..]);
      InsertSorts(utxos[0], sorted);
      InsertPermutes(utxos[0], sorted);
      assert |multiset(Insert(utxos[0], sorted))| == |sorted| + 1;
      if Unique(utxos) {
        InsertKeepsUnique(utxos[0], sorted);
      }
    }
  }

  lemma {:induction false} InsertKeepsUnique(utxo: UTXO, sorted: seq<UTXO>)
    requires Ascending(sorted) && Unique(sorted) && Unmentioned(Id(utxo), sorted)
    ensures Unique(Insert(utxo, sorted))
  {
    if sorted != [] && utxo.value > sorted[0].value {
      var rest := Insert(utxo, sorted[1..]);
      InsertKeepsUnique(utxo, sorted[1..]);
      InsertSorts(utxo, sorted[1..]);
      assert ([sorted[0]] + rest)[1..] == rest;
    } else {
      assert ([utxo] + sorted)[1..] == sorted;
    }
  }

  // ---------- one batch ----------

  /** `nextNullifierTarget`: the circuits take 1 to 10 inputs. */
  function NextNullifierTarget(utxoCount: nat): Option<nat> {
    if utxoCount < MAX_INPUTS then Some(utxoCount + 1) else None
  }

  predicate IsValidNullifierCount(utxoCount: nat) {
    1 <= utxoCount <= MAX_INPUTS
  }

  predicate ShouldAddMoreUTXOsForSolutionBatch(currentNullifierCount: nat, totalNullifierCount: nat, currentSpend: nat,
      totalRequired: nat) {
    var nullifierTarget := NextNullifierTarget(currentNullifierCount);
    currentSpend < totalRequired && nullifierTarget.Some? && nullifierTarget.value <= totalNullifierCount
  }

  function ExactMatch(utxos: seq<UTXO>, value: nat): (r: Option<UTXO>)
    ensures r.Some? ==> r.value in utxos && r.value.value == value
    ensures r.None? <==> forall u :: u in utxos ==> u.value != value
  {
    if utxos == [] then None
    else if utxos[0].value == value then Some(utxos[0])
    else
      assert utxos == [utxos[0]] + utxos[1..];
      ExactMatch(utxos[1..], value)
  }

  /** How many of the sorted UTXOs the accumulation takes, `count` being taken already. */
  function TakeCount(sorted: seq<UTXO>, totalRequired: nat, count: nat): (k: nat)
    requires count <= |sorted|
    ensures k <= |sorted|
    decreases |sorted| - count
  {
    if ShouldAddMoreUTXOsForSolutionBatch(count, |sorted|, CalculateTotalSpend(sorted[..count]), totalRequired)
    then TakeCount(sorted, totalRequired, count + 1)
    else count
  }

  lemma {:induction false} TakeCountStops(sorted: seq<UTXO>, totalRequired: nat, count: nat)
    requires count <= |sorted| && count <= MAX_INPUTS
    requires count > 0 ==> CalculateTotalSpend(sorted[..count - 1]) < totalRequired
    ensures var k := TakeCount(sorted, totalRequired, count);
      && count <= k <= MAX_INPUTS
      && (k > 0 ==> CalculateTotalSpend(sorted[..k - 1]) < totalRequired)
      && (CalculateTotalSpend(sorted[..k]) >= totalRequired || k == MAX_INPUTS || k == |sorted|)
    decreases |sorted| - count
  {
    if ShouldAddMoreUTXOsForSolutionBatch(count, |sorted|, CalculateTotalSpend(sorted[..count]), totalRequired) {
      TakeCountStops(sorted, totalRequired, count + 1);
    }
  }

  /** What `findNextSolutionBatch` must return. */
  function NextBatch(utxos: seq<UTXO>, totalRequired: nat, excluded: seq<UTXOId>): Option<seq<UTXO>> {
    var usable := Usable(utxos, excluded);
    var exactMatch, sorted := ExactMatch(usable, totalRequired), SortUTXOsByAscendingValue(usable);
    if usable == [] then None
    else if exactMatch.Some? then Some([exactMatch.value])
    else if IsValidNullifierCount(TakeCount(sorted, totalRequired, 0))
      then Some(sorted[..TakeCount(sorted, totalRequired, 0)])
    else None
  }

  /** The first of the UTXOs that has exactly the value, alone. */
  ghost predicate IsFirstMatch(utxos: seq<UTXO>, value: nat, batch: seq<UTXO>) {
    exists i :: 0 <= i < |utxos| && batch == [utxos[i]] && utxos[i].value == value
                && forall j :: 0 <= j < i ==> utxos[j].value != value
  }

  lemma {:induction false} ExactIsFirst(utxos: seq<UTXO>, value: nat)
    ensures ExactMatch(utxos, value).Some? ==> IsFirstMatch(utxos, value, [ExactMatch(utxos, value).value])
  {
    if ExactMatch(utxos, value).Some? && utxos[0].value != value {
      ExactIsFirst(utxos[1..], value);
      var i :| 0 <= i < |utxos| - 1 && [ExactMatch(utxos, value).value] == [utxos[1..][i]]
        && utxos[1..][i].value == value && forall j :: 0 <= j < i ==> utxos[1..][j].value != value;
      forall j | 0 <= j < i + 1
        ensures utxos[j].value != value
      {
        assert j > 0 ==> utxos[j] == utxos[1..][j - 1];
      }
      assert utxos[i + 1] == utxos[1..][i];
    }
  }

  /** The first exact match, or else the smallest UTXOs. */
  ghost predicate IsChoice(usable: seq<UTXO>, totalRequired: nat, batch: seq<UTXO>) {
    if exists u :: u in usable && u.value == totalRequired
    then IsFirstMatch(usable, totalRequired, batch)
    else forall u, w :: u in batch && w in usable && w !in batch ==> u.value <= w.value
  }

  /** What a batch must be: 1 to 10 usable inputs, none superfluous; and it covers the amount unless
      it is full or has used the tree up. */
  ghost predicate BatchMeets(usable: seq<UTXO>, totalRequired: nat, batch: seq<UTXO>) {
    && 1 <= |batch| <= MAX_INPUTS
    && (forall u :: u in batch ==> u in usable) && (Unique(usable) ==> Unique(batch))
    && CalculateTotalSpend(batch) > 0
    && CalculateTotalSpend(batch[..|batch| - 1]) < totalRequired
    && (CalculateTotalSpend(batch) >= totalRequired || |batch| == MAX_INPUTS || |batch| == |usable|)
  }

  lemma {:induction false} AccumulatedMeets(usable: seq<UTXO>, totalRequired: nat)
    requires totalRequired > 0 && usable != [] && forall u :: u in usable ==> u.value != 0
    ensures var sorted := SortUTXOsByAscendingValue(usable);
      var k := TakeCount(sorted, totalRequired, 0);
      IsValidNullifierCount(k) && BatchMeets(usable, totalRequired, sorted[..k])
  {
    var sorted := SortUTXOsByAscendingValue(usable);
    var k := TakeCount(sorted, totalRequired, 0);
    SortIsStable(usable);
    SortKeepsUnique(usable);
    TakeCountStops(sorted, totalRequired, 0);
    PrefixMeets(usable, sorted, totalRequired, k);
  }

  /** The first `k` of the sorted UTXOs, if they end where the accumulation does. */
  lemma {:induction false} PrefixMeets(usable: seq<UTXO>, sorted: seq<UTXO>, totalRequired: nat, k: nat)
    requires totalRequired > 0 && usable != [] && |sorted| == |usable| && k <= |sorted| && k <= MAX_INPUTS
    requires Ascending(sorted) && (Unique(usable) ==> Unique(sorted))
    requires forall u :: u in sorted ==> u in usable && u.value != 0
    requires forall u :: u in usable ==> u in sorted
    requires k > 0 ==> CalculateTotalSpend(sorted[..k - 1]) < totalRequired
    requires CalculateTotalSpend(sorted[..k]) >= totalRequired || k == MAX_INPUTS || k == |sorted|
    ensures IsValidNullifierCount(k) && BatchMeets(usable, totalRequired, sorted[..k])
  {
    assert k >= 1 by {
      assert sorted[..0] == [];
    }
    var batch := sorted[..k];
    assert Unique(usable) ==> Unique(batch) by {
      assert sorted == batch + sorted[k..];
      UniqueParts(batch, sorted[k..]);
    }
    assert CalculateTotalSpend(batch) > 0 by {
      assert batch[0] == sorted[0] && sorted[0] in sorted;
    }
    assert batch[..k - 1] == sorted[..k - 1];
  }

  lemma {:induction false} PrefixIsSmallest(sorted: seq<UTXO>, k: nat)
    requires k <= |sorted| && Ascending(sorted)
    ensures forall u, w :: u in sorted[..k] && w in sorted && w !in sorted[..k] ==> u.value <= w.value
  {
  }

  /** A batch exists whenever a usable UTXO is left, and is as it must be. */
  lemma {:induction false} NextBatchMeets(utxos: seq<UTXO>, totalRequired: nat, excluded: seq<UTXOId>)
    requires totalRequired > 0
    ensures var batch, usable := NextBatch(utxos, totalRequired, excluded), Usable(utxos, excluded);
      && (batch.None? <==> usable == [])
      && (batch.Some? ==> BatchMeets(usable, totalRequired, batch.value))
      && (Unique(utxos) ==> Unique(usable))
  {
    var usable := Usable(utxos, excluded);
    UsableMembers(utxos, excluded);
    if usable != [] {
      if ExactMatch(usable, totalRequired).Some? {
        ExactMeets(usable, totalRequired, ExactMatch(usable, totalRequired).value);
      } else {
        AccumulatedMeets(usable, totalRequired);
      }
    }
  }

  /** An exact match is preferred to accumulating, and only the smallest are accumulated. */
  lemma {:induction false} NextBatchChooses(utxos: seq<UTXO>, totalRequired: nat, excluded: seq<UTXOId>)
    ensures var batch, usable := NextBatch(utxos, totalRequired, excluded), Usable(utxos, excluded);
      batch.Some? ==> IsChoice(usable, totalRequired, batch.value)
  {
    var usable := Usable(utxos, excluded);
    var sorted := SortUTXOsByAscendingValue(usable);
    ExactIsFirst(usable, totalRequired);
    SortIsStable(usable);
    SortKeepsUnique(usable);
    PrefixIsSmallest(sorted, TakeCount(sorted, totalRequired, 0));
  }

  lemma {:induction false} ExactMeets(usable: seq<UTXO>, totalRequired: nat, exact: UTXO)
    requires totalRequired > 0 && exact in usable && exact.value == totalRequired
    ensures BatchMeets(usable, totalRequired, [exact])
  {
    assert [exact][1..] == [] && [exact][..0] == [];
    assert CalculateTotalSpend([exact]) == exact.value;
  }

  method FindNextSolutionBatch(treeBalance: TreeBalance, totalRequired: nat, excludedUTXOIDPositions: seq<UTXOId>)
      returns (batch: Option<seq<UTXO>>)
    ensures batch == NextBatch(treeBalance.utxos, totalRequired, excludedUTXOIDPositions)
  {
    var removedZeroUTXOs := FilterZeroUTXOs(treeBalance.utxos);
    var filteredUTXOs := WithoutExcluded(removedZeroUTXOs, excludedUTXOIDPositions);
    if filteredUTXOs == [] {
      return None;
    }
    var exactMatch := ExactMatch(filteredUTXOs, totalRequired);
    if exactMatch.Some? {
      return Some([exactMatch.value]);
    }
    SortKeepsUnique(filteredUTXOs);
    filteredUTXOs := SortUTXOsByAscendingValue(filteredUTXOs);
    var utxos: seq<UTXO> := [];
    while ShouldAddMoreUTXOsForSolutionBatch(|utxos|, |filteredUTXOs|, CalculateTotalSpend(utxos), totalRequired)
      invariant |utxos| <= |filteredUTXOs| && utxos == filteredUTXOs[..|utxos|]
      invariant TakeCount(filteredUTXOs, totalRequired, |utxos|) == TakeCount(filteredUTXOs, totalRequired, 0)
      decreases |filteredUTXOs| - |utxos|
    {
      utxos := utxos + [filteredUTXOs[|utxos|]];
    }
    if !IsValidNullifierCount(|utxos|) {
      return None;
    }
    return Some(utxos);
  }

  // ---------- one output ----------

  /** `createSpendingSolutionGroup` */
  function GroupOf(output: Note, tree: nat, solutionValue: nat, utxos: seq<UTXO>, isUnshield: bool): Group {
    if isUnshield then Group(tree, utxos, [], solutionValue)
    else Group(tree, utxos, [WithValue(output, solutionValue)], 0)
  }

  /** The groups made for an amount from tree `tree` on, and what is left of the amount: a
      positive rest was not found, a negative one is change. */
  datatype Filling = Filling(groups: seq<Group>, excluded: seq<UTXOId>, left: int)

  function Fill(trees: Balances, tree: nat, output: Note, amount: int, excluded: seq<UTXOId>,
      isUnshield: bool): (r: Filling)
    requires tree <= |trees|
    ensures r.left <= 0 < amount ==> r.groups != []
    decreases |trees| - tree, if amount > 0 then amount else 0
  {
    if tree == |trees| || amount <= 0 then Filling([], excluded, amount)
    else if trees[tree].None? then Fill(trees, tree + 1, output, amount, excluded, isUnshield)
    else
      var batch := NextBatch(trees[tree].value.utxos, amount, excluded);
      NextBatchMeets(trees[tree].value.utxos, amount, excluded);
      if batch.None? then Fill(trees, tree + 1, output, amount, excluded, isUnshield)
      else
        var totalSpend := CalculateTotalSpend(batch.value);
        var rest := Fill(trees, tree, output, amount - totalSpend, excluded + Ids(batch.value), isUnshield);
        Filling([GroupOf(output, tree, Min(totalSpend, amount), batch.value, isUnshield)] + rest.groups, rest.excluded,
          rest.left)
  }

  /** The used output goes; the amount left, if any, takes its place. */
  function ReplaceOrRemoveRemainingOutput(remainingOutputs: seq<Note>, amountToFill: int): seq<Note>
    requires remainingOutputs != []
  {
    if amountToFill > 0 then [WithValue(remainingOutputs[0], amountToFill)] + remainingOutputs[1..]
    else remainingOutputs[1..]
  }

  datatype Solved = Solved(groups: seq<Group>, remaining: seq<Note>, excluded: seq<UTXOId>)

  /** The last group also pays `paid` of the next output. */
  function WithSecondary(groups: seq<Group>, secondary: Note, paid: nat): seq<Group>
    requires groups != []
  {
    var last := groups[|groups| - 1];
    groups[|groups| - 1 := last.(tokenOutputs := last.tokenOutputs + [WithValue(secondary, paid)])]
  }

  /** Change goes to the next output, as far as it is owed any. */
  function WithChange(groups: seq<Group>, remaining: seq<Note>, change: nat,
      isUnshield: bool): (r: (seq<Group>, seq<Note>))
    requires groups != []
    ensures r.0 != [] && |r.1| <= |remaining|
  {
    if change > 0 && remaining != [] && !isUnshield then
      var paid := Min(remaining[0].value, change);
      (WithSecondary(groups, remaining[0], paid), ReplaceOrRemoveRemainingOutput(remaining, remaining[0].value - paid))
    else (groups, remaining)
  }

  /** What one call makes of the first remaining output, or None when it throws. */
  function Solution(trees: Balances, remaining: seq<Note>, excluded: seq<UTXOId>, isUnshield: bool): (r: Option<Solved>)
    requires remaining != []
    ensures r.Some? ==> |r.value.remaining| < |remaining| && r.value.groups != []
  {
    var primary := remaining[0];
    if primary.value == 0 then Some(Solved([GroupOf(primary, 0, 0, [NULL_UTXO], isUnshield)], remaining[1..], excluded))
    else
      var filling := Fill(trees, 0, primary, primary.value, excluded, isUnshield);
      if filling.left > 0 then None
      else
        var finished := WithChange(filling.groups, remaining[1..], -filling.left, isUnshield);
        Some(Solved(finished.0, finished.1, filling.excluded))
  }

  /** The filling from the first tree is `groups` and what fills `amountToFill` from `tree` on. */
  ghost predicate FillsFurther(trees: Balances, tree: nat, primary: Note, excludedBefore: seq<UTXOId>,
      isUnshield: bool, amountToFill: int, groups: seq<Group>, excluded: seq<UTXOId>)
    requires tree <= |trees|
  {
    var rest := Fill(trees, tree, primary, amountToFill, excluded, isUnshield);
    Fill(trees, 0, primary, primary.value, excludedBefore, isUnshield) == Filling(groups + rest.groups, rest.excluded,
      rest.left)
  }

  /** Where the loops of `createSpendingSolutionsForValue` stand: with an amount left the rest of
      the filling is still to come, otherwise the call's solution is complete. */
  ghost predicate PartlyFilled(trees: Balances, tree: nat, remainingOutputs: seq<Note>, excludedBefore: seq<UTXOId>,
      isUnshield: bool, amountToFill: int, groups: seq<Group>, remaining: seq<Note>, excluded: seq<UTXOId>)
    requires tree <= |trees| && remainingOutputs != []
  {
    var primary := remainingOutputs[0];
    if amountToFill > 0 then
      && FillsFurther(trees, tree, primary, excludedBefore, isUnshield, amountToFill, groups, excluded)
      && remaining == [WithValue(primary, amountToFill)] + remainingOutputs[1..]
    else IsSolution(trees, remainingOutputs, excludedBefore, isUnshield, groups, remaining, excluded)
  }

  ghost predicate IsSolution(trees: Balances, remainingOutputs: seq<Note>, excludedBefore: seq<UTXOId>,
      isUnshield: bool, groups: seq<Group>, remaining: seq<Note>, excluded: seq<UTXOId>)
    requires remainingOutputs != []
  {
    Solution(trees, remainingOutputs, excludedBefore, isUnshield) == Some(Solved(groups, remaining, excluded))
  }

  /** The end of `createSpendingSolutionsForValue`: change goes to the secondary output, as far as
      it is owed any. */
  method FillSecondary(groups: seq<Group>, remainingOutputs: seq<Note>, change: nat, isUnshield: bool)
      returns (groups': seq<Group>, remaining: seq<Note>)
    requires groups != []
    ensures (groups', remaining) == WithChange(groups, remainingOutputs, change, isUnshield)
  {
    groups', remaining := groups, remainingOutputs;
    if change > 0 && remainingOutputs != [] && !isUnshield {
      var secondaryOutput := remainingOutputs[0];
      var secondaryNoteValue, finalAmountToFill;
      if secondaryOutput.value < change {
        secondaryNoteValue := secondaryOutput.value;
        finalAmountToFill := 0;
      } else {
        secondaryNoteValue := change;
        finalAmountToFill := secondaryOutput.value - change;
      }
      var secondaryNote := WithValue(secondaryOutput, secondaryNoteValue);
      var last := groups[|groups| - 1];
      groups' := groups[|groups| - 1 := last.(tokenOutputs := last.tokenOutputs + [secondaryNote])];
      remaining := ReplaceOrRemoveRemainingOutput(remaining, finalAmountToFill);
    }
  }

  /** One more batch, as the rest of the filling begins with it. */
  lemma {:induction false} BatchPlaced(trees: Balances, tree: nat, output: Note, excludedBefore: seq<UTXOId>,
      amountToFill: int, excluded: seq<UTXOId>, isUnshield: bool, batch: seq<UTXO>, groups: seq<Group>)
    requires tree < |trees| && trees[tree].Some? && 0 < amountToFill
    requires NextBatch(trees[tree].value.utxos, amountToFill, excluded) == Some(batch)
    requires FillsFurther(trees, tree, output, excludedBefore, isUnshield, amountToFill, groups, excluded)
    ensures var totalSpend := CalculateTotalSpend(batch);
      var groups' := groups + [GroupOf(output, tree, Min(totalSpend, amountToFill), batch, isUnshield)];
      FillsFurther(trees, tree, output, excludedBefore, isUnshield, amountToFill - totalSpend, groups',
        excluded + Ids(batch))
  {
    var totalSpend := CalculateTotalSpend(batch);
    var head := GroupOf(output, tree, Min(totalSpend, amountToFill), batch, isUnshield);
    var rest := Fill(trees, tree, output, amountToFill - totalSpend, excluded + Ids(batch), isUnshield);
    assert Fill(trees, tree, output, amountToFill, excluded, isUnshield) == Filling([head] + rest.groups,
      rest.excluded, rest.left);
    Regrouped(groups, head, rest.groups);
  }

  lemma {:induction false} Regrouped<T>(before: seq<T>, head: T, rest: seq<T>)
    ensures before + ([head] + rest) == before + [head] + rest
  {
  }

  /** The last batch leaves nothing but change. */
  lemma {:induction false} FillingEnds(trees: Balances, tree: nat, remainingOutputs: seq<Note>,
      excludedBefore: seq<UTXOId>, isUnshield: bool, left: int, groups: seq<Group>, excluded: seq<UTXOId>)
    requires tree <= |trees| && remainingOutputs != [] && remainingOutputs[0].value > 0 && left <= 0 && groups != []
    requires FillsFurther(trees, tree, remainingOutputs[0], excludedBefore, isUnshield, left, groups, excluded)
    ensures var finished := WithChange(groups, remainingOutputs[1..], -left, isUnshield);
      PartlyFilled(trees, tree, remainingOutputs, excludedBefore, isUnshield, left, finished.0, finished.1, excluded)
  {
    assert groups + [] == groups;
  }

  /** The inner loop's body once a batch is found. */
  method SpendBatch(ghost trees: Balances, tree: nat, remainingOutputs: seq<Note>, ghost excludedBefore: seq<UTXOId>,
      isUnshield: bool, utxos: seq<UTXO>, amountToFill: int, groups: seq<Group>, remaining: seq<Note>,
      excluded: seq<UTXOId>)
    returns (left: int, groups': seq<Group>, remaining': seq<Note>, excluded': seq<UTXOId>)
    requires tree < |trees| && trees[tree].Some? && 0 < amountToFill && remainingOutputs != []
      && remainingOutputs[0].value > 0
    requires PartlyFilled(trees, tree, remainingOutputs, excludedBefore, isUnshield, amountToFill, groups, remaining,
      excluded)
    requires NextBatch(trees[tree].value.utxos, amountToFill, excluded) == Some(utxos)
    ensures left == amountToFill - CalculateTotalSpend(utxos)
    ensures PartlyFilled(trees, tree, remainingOutputs, excludedBefore, isUnshield, left, groups', remaining',
      excluded')
  {
    var primaryOutput := remainingOutputs[0];
    BatchPlaced(trees, tree, primaryOutput, excludedBefore, amountToFill, excluded, isUnshield, utxos, groups);
    assert remaining[1..] == remainingOutputs[1..] && remaining[0] == WithValue(primaryOutput, amountToFill);
    excluded' := excluded + Ids(utxos);
    var totalSpend := CalculateTotalSpend(utxos);
    var solutionValue := Min(totalSpend, amountToFill);
    groups' := groups + [GroupOf(primaryOutput, tree, solutionValue, utxos, isUnshield)];
    left := amountToFill - totalSpend;
    remaining' := ReplaceOrRemoveRemainingOutput(remaining, left);
    assert remaining' == if left > 0 then [WithValue(primaryOutput, left)] + remainingOutputs[1..]
      else remainingOutputs[1..];
    if left <= 0 {
      FillingEnds(trees, tree, remainingOutputs, excludedBefore, isUnshield, left, groups', excluded');
      groups', remaining' := FillSecondary(groups', remaining', -left, isUnshield);
    }
  }

  /** `createSpendingSolutionsForValue`: None where it throws. */
  method CreateSpendingSolutionsForValue(treeSortedBalances: Balances, remainingOutputs: seq<Note>,
      excludedUTXOIDPositions: seq<UTXOId>, isUnshield: bool)
    returns (solution: Option<seq<Group>>, remaining: seq<Note>, excluded: seq<UTXOId>)
    requires remainingOutputs != []
    ensures solution.None? <==> Solution(treeSortedBalances,
                                remainingOutputs, excludedUTXOIDPositions, isUnshield).None?
    ensures solution.Some? ==> Solution(treeSortedBalances, remainingOutputs,
                               excludedUTXOIDPositions, isUnshield) == Some(Solved(solution.value, remaining, excluded))
  {
    remaining, excluded := remainingOutputs, excludedUTXOIDPositions;
    var primaryOutput := remainingOutputs[0];
    var value := primaryOutput.value;
    if value == 0 {
      remaining := ReplaceOrRemoveRemainingOutput(remaining, 0);
      var nullNote := WithValue(primaryOutput, 0);
      return Some([GroupOf(nullNote, 0, nullNote.value, [NULL_UTXO], isUnshield)]), remaining, excluded;
    }
    var amountToFill: int := value;
    var groups: seq<Group> := [];
    for tree := 0 to |treeSortedBalances|
      invariant PartlyFilled(treeSortedBalances, tree, remainingOutputs, excludedUTXOIDPositions, isUnshield,
        amountToFill, groups, remaining, excluded)
    {
      if treeSortedBalances[tree].Some? {
        var treeBalance := treeSortedBalances[tree].value;
        while amountToFill > 0
          invariant PartlyFilled(treeSortedBalances, tree, remainingOutputs, excludedUTXOIDPositions, isUnshield,
            amountToFill, groups, remaining, excluded)
          decreases amountToFill
        {
          NextBatchMeets(treeBalance.utxos, amountToFill, excluded);
          var utxos := FindNextSolutionBatch(treeBalance, amountToFill, excluded);
          if utxos.None? {
            break;
          }
          amountToFill, groups, remaining,
            excluded := SpendBatch(treeSortedBalances, tree, remainingOutputs, excludedUTXOIDPositions, isUnshield,
            utxos.value, amountToFill, groups, remaining, excluded);
        }
      }
    }
    solution := if amountToFill > 0 then None else Some(groups);
  }
}

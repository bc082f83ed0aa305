/** A batch of outputs and unshields: the simple solver (one group of one tree), the complex
    solver, and the change of a group. */
module TransactionBatches {
  import opened Wrappers
  import opened Solutions
  import opened Spending

  // ---------- one group of one tree ----------

  /** How many of the sorted UTXOs cover the amount, or all of them. */
  function TakeUntil(sorted: seq<UTXO>, totalRequired: nat, count: nat): (k: nat)
    requires count <= |sorted|
    ensures count <= k <= |sorted|
    decreases |sorted| - count
  {
    if count < |sorted| && CalculateTotalSpend(sorted[..count]) < totalRequired
      then TakeUntil(sorted, totalRequired, count + 1) else count
  }

  /** What `findExactSolutionsOverTargetValue` must return: no UTXOs at all, though not None, when
      the tree's balance is too low. */
  function ExactSolution(treeBalance: TreeBalance, totalRequired: nat): Option<seq<UTXO>> {
    var utxos := FilterZeroUTXOs(treeBalance.utxos);
    var exactMatch, sorted := ExactMatch(utxos, totalRequired), SortUTXOsByAscendingValue(utxos);
    var taken := sorted[..TakeUntil(sorted, totalRequired, 0)];
    if treeBalance.balance < totalRequired then Some([])
    else if exactMatch.Some? then Some([exactMatch.value])
    else if totalRequired > CalculateTotalSpend(taken) || !IsValidNullifierCount(|taken|) then None
    else Some(taken)
  }

  method FindExactSolutionsOverTargetValue(treeBalance: TreeBalance, totalRequired: nat)
      returns (solution: Option<seq<UTXO>>)
    ensures solution == ExactSolution(treeBalance, totalRequired)
  {
    if treeBalance.balance < totalRequired {
      return Some([]);
    }
    var filteredUTXOs := FilterZeroUTXOs(treeBalance.utxos);
    var exactMatch := ExactMatch(filteredUTXOs, totalRequired);
    if exactMatch.Some? {
      return Some([exactMatch.value]);
    }
    filteredUTXOs := SortUTXOsByAscendingValue(filteredUTXOs);
    var utxos: seq<UTXO> := [];
    while |filteredUTXOs| > |utxos| && CalculateTotalSpend(utxos) < totalRequired
      invariant |utxos| <= |filteredUTXOs| && utxos == filteredUTXOs[..|utxos|]
      invariant TakeUntil(filteredUTXOs, totalRequired, |utxos|) == TakeUntil(filteredUTXOs, totalRequired, 0)
      decreases |filteredUTXOs| - |utxos|
    {
      utxos := utxos + [filteredUTXOs[|utxos|]];
    }
    if totalRequired > CalculateTotalSpend(utxos) || !IsValidNullifierCount(|utxos|) {
      return None;
    }
    return Some(utxos);
  }

  lemma {:induction false} TakeUntilStops(sorted: seq<UTXO>, totalRequired: nat, count: nat)
    requires count <= |sorted| && (count > 0 ==> CalculateTotalSpend(sorted[..count - 1]) < totalRequired)
    ensures var k := TakeUntil(sorted, totalRequired, count);
      && (k > 0 ==> CalculateTotalSpend(sorted[..k - 1]) < totalRequired)
      && (k == |sorted| || CalculateTotalSpend(sorted[..k]) >= totalRequired)
    decreases |sorted| - count
  {
    if count < |sorted| && CalculateTotalSpend(sorted[..count]) < totalRequired {
      TakeUntilStops(sorted, totalRequired, count + 1);
    }
  }

  lemma {:induction false} InsertSpends(utxo: UTXO, sorted: seq<UTXO>)
    ensures CalculateTotalSpend(Insert(utxo, sorted)) == utxo.value + CalculateTotalSpend(sorted)
  {
    if sorted != [] && utxo.value > sorted[0].value {
      InsertSpends(utxo, sorted[1..]);
      assert ([sorted[0]] + Insert(utxo, sorted[1..]))[1..] == Insert(utxo, sorted[1..]);
    } else {
      assert ([utxo] + sorted)[1..] == sorted;
    }
  }

  lemma {:induction false} SortSpends(utxos: seq<UTXO>)
    ensures CalculateTotalSpend(SortUTXOsByAscendingValue(utxos)) == CalculateTotalSpend(utxos)
  {
    if utxos != [] {
      SortSpends(utxos[1..]);
      InsertSpends(utxos[0], SortUTXOsByAscendingValue(utxos[1..]));
    }
  }

  lemma {:induction false} NonZeroMembers(utxos: seq<UTXO>)
    ensures forall u :: u in FilterZeroUTXOs(utxos) <==> u in utxos && u.value != 0
    ensures Unique(utxos) ==> Unique(FilterZeroUTXOs(utxos))
    ensures Usable(utxos, []) == FilterZeroUTXOs(utxos)
  {
    UsableMembers(utxos, []);
    NoneExcluded(FilterZeroUTXOs(utxos));
  }

  lemma {:induction false} NoneExcluded(utxos: seq<UTXO>)
    ensures WithoutExcluded(utxos, []) == utxos
  {
    if utxos != [] {
      NoneExcluded(utxos[1..]);
    }
  }

  /** The tree's balance is the sum of its UTXOs. */
  ghost predicate BalanceOk(treeBalance: TreeBalance) {
    treeBalance.balance == CalculateTotalSpend(treeBalance.utxos)
  }

  /** A tree that can cover the amount does so with 1 to 10 of its own UTXOs, unless even its ten
      smallest do not suffice and it has more, and none matches exactly. */
  lemma {:induction false} ExactSolutionMeets(treeBalance: TreeBalance, totalRequired: nat)
    requires BalanceOk(treeBalance) && 0 < totalRequired <= treeBalance.balance
    ensures var solution, utxos := ExactSolution(treeBalance, totalRequired), FilterZeroUTXOs(treeBalance.utxos);
      var sorted := SortUTXOsByAscendingValue(utxos);
      && (solution.Some? ==>
        && IsValidNullifierCount(|solution.value|) && CalculateTotalSpend(solution.value) >= totalRequired
        && (forall u :: u in solution.value ==> u in treeBalance.utxos && u.value != 0)
        && (Unique(treeBalance.utxos) ==> Unique(solution.value)))
      && (solution.None? <==> ExactMatch(utxos, totalRequired).None?
                              && TakeUntil(sorted, totalRequired, 0) > MAX_INPUTS)
  {
    var utxos := FilterZeroUTXOs(treeBalance.utxos);
    NonZeroMembers(treeBalance.utxos);
    ZerosAddNothing(treeBalance.utxos);
    if ExactMatch(utxos, totalRequired).Some? {
      var exact := ExactMatch(utxos, totalRequired).value;
      assert [exact][1..] == [];
      assert CalculateTotalSpend([exact]) == exact.value;
    } else {
      TakenCovers(utxos, totalRequired);
    }
  }

  /** An exact match is preferred; without one no UTXO is taken but the smallest, and none that is
      not needed. */
  lemma {:induction false} ExactSolutionChooses(treeBalance: TreeBalance, totalRequired: nat)
    requires BalanceOk(treeBalance) && 0 < totalRequired <= treeBalance.balance
    ensures var solution, utxos := ExactSolution(treeBalance, totalRequired), FilterZeroUTXOs(treeBalance.utxos);
      solution.Some? ==>
        && IsChoice(utxos, totalRequired, solution.value)
        && solution.value != [] && CalculateTotalSpend(solution.value[..|solution.value| - 1]) < totalRequired
  {
    var utxos := FilterZeroUTXOs(treeBalance.utxos);
    ExactSolutionMeets(treeBalance, totalRequired);
    if ExactMatch(utxos, totalRequired).Some? {
      ExactIsFirst(utxos, totalRequired);
      assert [ExactMatch(utxos, totalRequired).value][..0] == [];
    } else {
      TakenIsSmallest(utxos, totalRequired);
    }
  }

  lemma {:induction false} TakenIsSmallest(utxos: seq<UTXO>, totalRequired: nat)
    ensures var sorted := SortUTXOsByAscendingValue(utxos);
      var k := TakeUntil(sorted, totalRequired, 0);
      && (k > 0 ==> CalculateTotalSpend(sorted[..k][..k - 1]) < totalRequired)
      && forall u, w :: u in sorted[..k] && w in utxos && w !in sorted[..k] ==> u.value <= w.value
  {
    var sorted := SortUTXOsByAscendingValue(utxos);
    var k := TakeUntil(sorted, totalRequired, 0);
    SortIsStable(utxos);
    SortKeepsUnique(utxos);
    PrefixIsSmallest(sorted, k);
    TakeUntilStops(sorted, totalRequired, 0);
    if k > 0 {
      assert sorted[..k][..k - 1] == sorted[..k - 1];
    }
  }

  lemma {:induction false} TakenCovers(utxos: seq<UTXO>, totalRequired: nat)
    requires 0 < totalRequired <= CalculateTotalSpend(utxos)
    ensures var sorted := SortUTXOsByAscendingValue(utxos);
      var k := TakeUntil(sorted, totalRequired, 0);
      && k >= 1 && CalculateTotalSpend(sorted[..k]) >= totalRequired
      && (forall u :: u in sorted[..k] ==> u in utxos) && (Unique(utxos) ==> Unique(sorted[..k]))
  {
    var sorted := SortUTXOsByAscendingValue(utxos);
    var k := TakeUntil(sorted, totalRequired, 0);
    SortSpends(utxos);
    SortKeepsUnique(utxos);
    TakeUntilStops(sorted, totalRequired, 0);
    assert sorted[..|sorted|] == sorted && sorted[..0] == [] && sorted == sorted[..k] + sorted[k..];
    UniqueParts(sorted[..k], sorted[k..]);
  }

  /** The last tree with a solution, among the first `count`. */
  function LastSolution(trees: Balances, amountRequired: nat, count: nat): (r: Option<(nat, seq<UTXO>)>)
    requires count <= |trees|
    ensures r.Some? ==> r.value.0 < count && trees[r.value.0].Some?
                        && ExactSolution(trees[r.value.0].value, amountRequired) == Some(r.value.1)
  {
    if count == 0 then None
    else if trees[count - 1].Some? && ExactSolution(trees[count - 1].value, amountRequired).Some?
    then Some((count - 1, ExactSolution(trees[count - 1].value, amountRequired).value))
    else LastSolution(trees, amountRequired, count - 1)
  }

  /** What `createSimpleSpendingSolutionGroupsIfPossible` must return. */
  function SimpleGroup(trees: Balances, outputs: seq<Note>, unshield: nat, totalRequired: nat): Option<Group> {
    var last := LastSolution(trees, totalRequired, |trees|);
    if last.None? || CalculateTotalSpend(last.value.1) < totalRequired then None
    else Some(Group(last.value.0, last.value.1, outputs, unshield))
  }

  method CreateSimpleSatisfyingUTXOGroup(treeSortedBalances: Balances, amountRequired: nat)
      returns (found: Option<(nat, seq<UTXO>)>)
    ensures found == LastSolution(treeSortedBalances, amountRequired, |treeSortedBalances|)
  {
    found := None;
    for tree := 0 to |treeSortedBalances|
      invariant found == LastSolution(treeSortedBalances, amountRequired, tree)
    {
      if treeSortedBalances[tree].Some? {
        var solutions := FindExactSolutionsOverTargetValue(treeSortedBalances[tree].value, amountRequired);
        if solutions.Some? {
          found := Some((tree, solutions.value));
        }
      }
    }
  }

  ghost predicate BalancesOk(trees: Balances) {
    forall t :: 0 <= t < |trees| && trees[t].Some? ==> BalanceOk(trees[t].value)
  }

  /** One tree can pay the amount by itself: it has the balance, and either a UTXO of exactly that
      value, or its ten smallest UTXOs, or all if there are no more, come to it. */
  ghost predicate PaysAlone(treeBalance: TreeBalance, totalRequired: nat) {
    var utxos := FilterZeroUTXOs(treeBalance.utxos);
    var sorted := SortUTXOsByAscendingValue(utxos);
    && totalRequired <= treeBalance.balance
    && ((exists u :: u in utxos && u.value == totalRequired) || |sorted| <= MAX_INPUTS
      || totalRequired <= CalculateTotalSpend(sorted[..MAX_INPUTS]))
  }

  lemma {:induction false} PrefixSpendsLess(utxos: seq<UTXO>, a: nat, b: nat)
    requires a <= b <= |utxos|
    ensures CalculateTotalSpend(utxos[..a]) <= CalculateTotalSpend(utxos[..b])
  {
    assert utxos[..b] == utxos[..a] + utxos[a..b];
    SpendAppended(utxos[..a], utxos[a..b]);
  }

  /** The accumulation ends within `m` exactly when `m` UTXOs cover the amount. */
  lemma {:induction false} TakesWithin(sorted: seq<UTXO>, totalRequired: nat, m: nat)
    requires m < |sorted|
    ensures TakeUntil(sorted, totalRequired, 0) <= m <==> totalRequired <= CalculateTotalSpend(sorted[..m])
  {
    TakeUntilStops(sorted, totalRequired, 0);
    var k := TakeUntil(sorted, totalRequired, 0);
    if k <= m {
      PrefixSpendsLess(sorted, k, m);
    } else {
      PrefixSpendsLess(sorted, m, k - 1);
    }
  }

  /** A tree with the balance has a solution exactly when it can pay by itself. */
  lemma {:induction false} ExactSolutionIff(treeBalance: TreeBalance, totalRequired: nat)
    requires BalanceOk(treeBalance) && 0 < totalRequired <= treeBalance.balance
    ensures ExactSolution(treeBalance, totalRequired).Some? <==> PaysAlone(treeBalance, totalRequired)
  {
    var sorted := SortUTXOsByAscendingValue(FilterZeroUTXOs(treeBalance.utxos));
    ExactSolutionMeets(treeBalance, totalRequired);
    if |sorted| > MAX_INPUTS {
      TakesWithin(sorted, totalRequired, MAX_INPUTS);
    }
  }

  ghost predicate PaysAt(trees: Balances, totalRequired: nat, tree: nat) {
    tree < |trees| && trees[tree].Some? && PaysAlone(trees[tree].value, totalRequired)
  }

  /** A tree that has the balance but cannot pay by itself leaves an earlier solution standing; a
      tree that lacks the balance does not. */
  ghost predicate PassedOverAt(trees: Balances, totalRequired: nat, tree: nat) {
    tree < |trees| && trees[tree].Some? ==>
      totalRequired <= trees[tree].value.balance && !PaysAlone(trees[tree].value, totalRequired)
  }

  /** The tree pays, and every later one is passed over. */
  ghost predicate IsLastPayer(trees: Balances, totalRequired: nat, count: nat, tree: nat) {
    tree < count && PaysAt(trees, totalRequired, tree)
      && forall t :: tree < t < count ==> PassedOverAt(trees, totalRequired, t)
  }

  /** The last defined solution covers the amount exactly when it is that of such a tree. */
  lemma {:induction false} LastSolutionPays(trees: Balances, totalRequired: nat, count: nat)
    requires BalancesOk(trees) && totalRequired > 0 && count <= |trees|
    ensures var last := LastSolution(trees, totalRequired, count);
      && (last.Some? && totalRequired <= CalculateTotalSpend(last.value.1)
        <==> exists t: nat :: IsLastPayer(trees, totalRequired, count, t))
      && forall t: nat :: IsLastPayer(trees, totalRequired, count, t) ==> last.Some? && last.value.0 == t
  {
    if count > 0 {
      var tree := count - 1;
      LastSolutionPays(trees, totalRequired, tree);
      SolutionAt(trees, totalRequired, tree);
      forall t: nat
        ensures IsLastPayer(trees, totalRequired, count, t)
           <==> if t == tree then PaysAt(trees, totalRequired, tree) else IsLastPayer(trees, totalRequired, tree, t)
                                                                          && PassedOverAt(trees, totalRequired, tree)
      {
        LastPayerMoves(trees, totalRequired, tree, t);
      }
      if PaysAt(trees, totalRequired, tree) {
        assert IsLastPayer(trees, totalRequired, count, tree);
      } else if PassedOverAt(trees, totalRequired, tree) {
        assert forall t: nat :: IsLastPayer(trees, totalRequired, count, t)
                                <==> IsLastPayer(trees, totalRequired, tree, t);
      }
    }
  }

  /** What one tree does to the search: it pays, is passed over, or spoils it. */
  lemma {:induction false} SolutionAt(trees: Balances, totalRequired: nat, tree: nat)
    requires BalancesOk(trees) && totalRequired > 0 && tree < |trees|
    ensures var last := LastSolution(trees, totalRequired, tree + 1);
      if PaysAt(trees, totalRequired, tree) then last.Some? && last.value.0 == tree
        && totalRequired <= CalculateTotalSpend(last.value.1)
      else if PassedOverAt(trees, totalRequired, tree) then last == LastSolution(trees, totalRequired, tree)
      else last.Some? && CalculateTotalSpend(last.value.1) < totalRequired
  {
    assert CalculateTotalSpend([]) == 0;
    if trees[tree].Some? {
      assert BalanceOk(trees[tree].value);
      if totalRequired <= trees[tree].value.balance {
        ExactSolutionIff(trees[tree].value, totalRequired);
        ExactSolutionMeets(trees[tree].value, totalRequired);
      }
    }
  }

  lemma {:induction false} LastPayerMoves(trees: Balances, totalRequired: nat, tree: nat, t: nat)
    requires tree < |trees|
    ensures IsLastPayer(trees, totalRequired, tree + 1, t)
       <==> if t == tree then PaysAt(trees, totalRequired, tree) else IsLastPayer(trees, totalRequired, tree, t)
                                                                      && PassedOverAt(trees, totalRequired, tree)
  {
    if t < tree && IsLastPayer(trees, totalRequired, tree, t) && PassedOverAt(trees, totalRequired, tree) {
      forall u | t < u < tree + 1
        ensures PassedOverAt(trees, totalRequired, u)
      {
      }
    }
  }

  /** The simple solver succeeds exactly when the amount is positive and some tree can pay it alone
      while every later tree has the balance and cannot; the group is that tree's. */
  lemma {:induction false} SimpleGroupIff(trees: Balances, outputs: seq<Note>, unshield: nat, totalRequired: nat)
    requires BalancesOk(trees)
    ensures var group := SimpleGroup(trees, outputs, unshield, totalRequired);
      && (group.Some? <==> totalRequired > 0 && exists t: nat :: IsLastPayer(trees, totalRequired, |trees|, t))
      && forall t: nat :: totalRequired > 0 && IsLastPayer(trees, totalRequired, |trees|, t)
                          ==> group.Some? && group.value.spendingTree == t
  {
    if totalRequired > 0 {
      LastSolutionPays(trees, totalRequired, |trees|);
    } else {
      NothingForNothing(trees, |trees|);
    }
  }

  lemma {:induction false} NothingForNothing(trees: Balances, count: nat)
    requires count <= |trees|
    ensures LastSolution(trees, 0, count).None?
  {
    if count > 0 {
      NothingForNothing(trees, count - 1);
      if trees[count - 1].Some? {
        NonZeroMembers(trees[count - 1].value.utxos);
      }
    }
  }

  /** So a last tree with too low a balance makes it give up, whatever the earlier trees hold. */
  lemma {:induction false} PoorLastTreeWins(trees: Balances, outputs: seq<Note>, unshield: nat, totalRequired: nat)
    requires BalancesOk(trees) && trees != [] && trees[|trees| - 1].Some?
      && trees[|trees| - 1].value.balance < totalRequired
    ensures SimpleGroup(trees, outputs, unshield, totalRequired).None?
  {
    SimpleGroupIff(trees, outputs, unshield, totalRequired);
    assert !PassedOverAt(trees, totalRequired, |trees| - 1) && !PaysAt(trees, totalRequired, |trees| - 1);
  }

  /** Every output is paid in full and nothing else is, by groups of 1 to 10 inputs whose change is
      never negative; inputs equal what goes out and change. */
  ghost predicate PaysAll(groups: seq<Group>, outputs: seq<Note>, unshield: nat) {
    && SplitsInto(NotesOf(groups), outputs)
    && (forall g :: g in groups ==> IsValidNullifierCount(|g.utxos|) && GetChangeOutput(g) != NegativeChange)
    && Spent(groups) == TotalPaid(groups) + TotalChange(groups)
    && (forall r :: PaidTo(groups, r) == Owed(outputs, r))
    && Unshielded(groups) == unshield
  }

  lemma {:induction false} SimpleGroupPays(trees: Balances, outputs: seq<Note>, unshield: nat)
    requires BalancesOk(trees) && SimpleGroup(trees, outputs, unshield, Total(outputs) + unshield).Some?
    ensures var group := SimpleGroup(trees, outputs, unshield, Total(outputs) + unshield).value;
      && FromTree(trees, group) && PaysAll([group], outputs, unshield)
      && (Unique(AllUTXOs(trees)) ==> Fresh(AllUTXOs(trees), [], RealInputs([group])))
  {
    var required := Total(outputs) + unshield;
    var group := SimpleGroup(trees, outputs, unshield, required).value;
    var treeBalance := trees[group.spendingTree].value;
    assert BalanceOk(treeBalance);
    if required == 0 {
      NothingForNothing(trees, |trees|);
    } else {
      assert CalculateTotalSpend([]) == 0;
      ExactSolutionMeets(treeBalance, required);
    }
    OneGroupPays(group, outputs, unshield);
    if Unique(AllUTXOs(trees)) {
      TreeUnique(trees, 0, group.spendingTree);
    }
  }

  lemma {:induction false} OneGroupPays(group: Group, outputs: seq<Note>, unshield: nat)
    requires group.tokenOutputs == outputs && group.unshieldValue == unshield && IsValidNullifierCount(|group.utxos|)
    requires OutOf(group) <= CalculateTotalSpend(group.utxos) && forall u :: u in group.utxos ==> u.value != 0
    ensures PaysAll([group], outputs, unshield) && RealInputs([group]) == group.utxos
  {
    assert [group][1..] == [];
    OneGroupNotes(group);
    SplitsItself(outputs);
    NonZeroStay(group.utxos);
    assert RealInputs([group]) == group.utxos + RealInputs([]);
    ChangeBalances([group]);
    assert forall r :: PaidTo([group], r) == Owed(outputs, r) + PaidTo([], r);
  }

  /** One tree's share of all UTXOs. */
  lemma {:induction false} TreeUnique(trees: Balances, from: nat, tree: nat)
    requires from <= tree < |trees| && trees[tree].Some? && Unique(UTXOsFrom(trees, from))
    ensures Unique(trees[tree].value.utxos) && forall u :: u in trees[tree].value.utxos ==> u in UTXOsFrom(trees, from)
    decreases tree - from
  {
    var here := if trees[from].Some? then trees[from].value.utxos else [];
    UniqueParts(here, UTXOsFrom(trees, from + 1));
    if from < tree {
      TreeUnique(trees, from + 1, tree);
    }
  }

  // ---------- the batch ----------

  /** The sparse `reduce` over the trees' balances. */
  function TokenBalanceAcrossAllTrees(trees: Balances): nat {
    if trees == [] then 0
    else TokenBalanceAcrossAllTrees(trees[..|trees| - 1]) + if trees[|trees| - 1].Some?
      then trees[|trees| - 1].value.balance else 0
  }

  lemma {:induction false} BalanceIsAvailable(trees: Balances, count: nat)
    requires BalancesOk(trees) && count <= |trees|
    ensures TokenBalanceAcrossAllTrees(trees[..count]) + CalculateTotalSpend(UTXOsFrom(trees,
      count)) == CalculateTotalSpend(AllUTXOs(trees))
  {
    if count > 0 {
      BalanceIsAvailable(trees, count - 1);
      assert trees[..count][..count - 1] == trees[..count - 1];
      assert trees[count - 1].Some? ==> BalanceOk(trees[count - 1].value);
      SpendAppended(if trees[count - 1].Some? then trees[count - 1].value.utxos else [], UTXOsFrom(trees, count));
    }
  }

  /** The wallet's balance is what the solver may spend. */
  lemma {:induction false} AllIsAvailable(trees: Balances)
    requires BalancesOk(trees)
    ensures TokenBalanceAcrossAllTrees(trees) == Available(AllUTXOs(trees), [])
  {
    BalanceIsAvailable(trees, |trees|);
    assert trees[..|trees|] == trees;
    NonZeroMembers(AllUTXOs(trees));
    ZerosAddNothing(AllUTXOs(trees));
  }

  function OfToken(notes: seq<Note>, token: nat): seq<Note> {
    if notes == [] then []
    else if notes[0].token == token then [notes[0]] + OfToken(notes[1..], token)
    else OfToken(notes[1..], token)
  }

  datatype ChangeResult = Change(value: nat) | NoChange | NegativeChange

  /** `getChangeOutput`: the change note's value, nothing, or the error it throws. */
  function GetChangeOutput(group: Group): ChangeResult {
    var change := CalculateTotalSpend(group.utxos) as int - OutOf(group);
    if change < 0 then NegativeChange else if change > 0 then Change(change) else NoChange
  }

  /** The change is what the inputs leave; without any there is no note for it. */
  lemma {:induction false} ChangeIs(group: Group)
    ensures var spent, out := CalculateTotalSpend(group.utxos), OutOf(group);
      match GetChangeOutput(group)
      case Change(value) => value > 0 && spent == out + value
      case NoChange => spent == out
      case NegativeChange => spent < out
  {
  }

  function ChangeValue(group: Group): nat {
    match GetChangeOutput(group) case Change(value) => value case NoChange => 0 case NegativeChange => 0
  }

  function TotalChange(groups: seq<Group>): nat {
    if groups == [] then 0 else ChangeValue(groups[0]) + TotalChange(groups[1..])
  }

  function TotalPaid(groups: seq<Group>): nat {
    if groups == [] then 0 else OutOf(groups[0]) + TotalPaid(groups[1..])
  }

  /** No group that pays its outputs throws, and inputs equal outputs, unshield and change. */
  lemma {:induction false} ChangeBalances(groups: seq<Group>)
    requires forall g :: g in groups ==> OutOf(g) <= CalculateTotalSpend(g.utxos)
    ensures forall g :: g in groups ==> GetChangeOutput(g) != NegativeChange
    ensures Spent(groups) == TotalPaid(groups) + TotalChange(groups)
  {
    if groups != [] {
      assert groups == [groups[0]] + groups[1..];
      ChangeBalances(groups[1..]);
    }
  }

  /** One or two outputs, or an unshield alone. */
  predicate IsCovered(outputs: seq<Note>, unshield: Option<nat>) {
    (unshield.None? && |outputs| <= 2) || outputs == []
  }

  function Requested(outputs: seq<Note>, unshield: Option<nat>): nat {
    Total(outputs) + ValueOf(unshield)
  }

  /** What a request for one token must return: nothing beyond the balance, one group if the simple
      solver finds one, the complex solver's groups otherwise. */
  function Generated(trees: Balances, outputs: seq<Note>, token: nat, unshield: Option<nat>): Option<seq<Group>> {
    var simple := SimpleGroup(trees, outputs, ValueOf(unshield), Requested(outputs, unshield));
    if Requested(outputs, unshield) > TokenBalanceAcrossAllTrees(trees) then None
    else if simple.Some? then Some([simple.value])
    else Solve(trees, outputs, token, unshield)
  }

  class TransactionBatch {
    var outputs: seq<Note>
    var unshieldDataMap: map<nat, nat>

    constructor ()
      ensures outputs == [] && unshieldDataMap == map[]
    {
      outputs, unshieldDataMap := [], map[];
    }

    method AddOutput(output: Note)
      modifies this`outputs
      ensures outputs == old(outputs) + [output]
    {
      outputs := outputs + [output];
    }

    /** At most one unshield per token, and of a positive value; otherwise it throws. */
    method AddUnshieldData(token: nat, value: nat) returns (ok: bool)
      modifies this`unshieldDataMap
      ensures ok <==> token !in old(unshieldDataMap) && value > 0
      ensures unshieldDataMap == if ok then old(unshieldDataMap)[token := value] else old(unshieldDataMap)
    {
      if token in unshieldDataMap || value == 0 {
        return false;
      }
      unshieldDataMap := unshieldDataMap[token := value];
      return true;
    }

    function UnshieldData(token: nat): (r: Option<nat>)
      reads this
      ensures r.Some? <==> token in unshieldDataMap
      ensures r.Some? ==> r.value == unshieldDataMap[token]
    {
      if token in unshieldDataMap then Some(unshieldDataMap[token]) else None
    }

    function UnshieldTotal(token: nat): nat
      reads this
    {
      ValueOf(UnshieldData(token))
    }

    /** `createComplexSatisfyingSpendingSolutionGroups`: None where it throws. */
    method CreateComplexSatisfyingSpendingSolutionGroups(token: nat, tokenOutputs: seq<Note>,
        treeSortedBalances: Balances) returns (groups: Option<seq<Group>>)
      ensures groups == Solve(treeSortedBalances, tokenOutputs, token, UnshieldData(token))
    {
      var spendingSolutionGroups: seq<Group> := [];
      var excludedUTXOIDPositions: seq<UTXOId> := [];
      var remainingTokenOutputs := tokenOutputs;
      ghost var whole := SolveOutputs(treeSortedBalances, tokenOutputs, []);
      assert whole.Some? ==> [] + whole.value.groups == whole.value.groups;
      while remainingTokenOutputs != []
        invariant SolvedSoFar(whole, spendingSolutionGroups,
          SolveOutputs(treeSortedBalances, remainingTokenOutputs, excludedUTXOIDPositions))
        decreases |remainingTokenOutputs|
      {
        var solution, remaining, excluded := CreateSpendingSolutionsForValue(treeSortedBalances, remainingTokenOutputs,
          excludedUTXOIDPositions, false);
        if solution.None? {
          return None;
        }
        SolvedMore(whole, spendingSolutionGroups, solution.value,
          SolveOutputs(treeSortedBalances, remaining, excluded));
        spendingSolutionGroups := spendingSolutionGroups + solution.value;
        remainingTokenOutputs, excludedUTXOIDPositions := remaining, excluded;
      }
      assert spendingSolutionGroups + [] == spendingSolutionGroups;
      if token in unshieldDataMap {
        var value := UnshieldTotal(token);
        var solution, _, _ := CreateSpendingSolutionsForValue(treeSortedBalances, [NullUnshieldNote(token, value)],
          excludedUTXOIDPositions, true);
        if solution.None? {
          return None;
        }
        spendingSolutionGroups := spendingSolutionGroups + solution.value;
      }
      return Some(spendingSolutionGroups);
    }

    /** `generateValidSpendingSolutionGroups` for one token: None where it throws. */
    method GenerateValidSpendingSolutionGroups(token: nat, treeSortedBalances: Balances)
        returns (groups: Option<seq<Group>>)
      requires BalancesOk(treeSortedBalances)
      ensures groups == Generated(treeSortedBalances, OfToken(outputs, token), token, UnshieldData(token))
      ensures RequestMet(treeSortedBalances, OfToken(outputs, token), UnshieldData(token), groups)
      ensures groups.Some? ==> OnlyToken(groups.value, token)
    {
      var tokenOutputs := OfToken(outputs, token);
      groups := SimpleElseComplex(token, tokenOutputs, treeSortedBalances);
      GeneratedMeets(treeSortedBalances, tokenOutputs, token, UnshieldData(token));
      if groups.Some? {
        PaidInToken(groups.value, outputs, UnshieldTotal(token), token);
      }
    }

    /** The balance check, and the simple solver before the complex one. */
    method SimpleElseComplex(token: nat, tokenOutputs: seq<Note>, treeSortedBalances: Balances)
        returns (groups: Option<seq<Group>>)
      ensures groups == Generated(treeSortedBalances, tokenOutputs, token, UnshieldData(token))
    {
      var totalRequired := Total(tokenOutputs) + UnshieldTotal(token);
      if totalRequired > TokenBalanceAcrossAllTrees(treeSortedBalances) {
        return None;
      }
      var found := CreateSimpleSatisfyingUTXOGroup(treeSortedBalances, totalRequired);
      if found.Some? && CalculateTotalSpend(found.value.1) >= totalRequired {
        return Some([Group(found.value.0, found.value.1, tokenOutputs, UnshieldTotal(token))]);
      }
      groups := CreateComplexSatisfyingSpendingSolutionGroups(token, tokenOutputs, treeSortedBalances);
    }
  }

  /** Every note of the groups has the token. */
  ghost predicate OnlyToken(groups: seq<Group>, token: nat) {
    forall n :: n in NotesOf(groups) ==> n.token == token
  }

  lemma {:induction false} PaidInToken(groups: seq<Group>, notes: seq<Note>, unshield: nat, token: nat)
    requires PaysAll(groups, OfToken(notes, token), unshield)
    ensures OnlyToken(groups, token)
  {
    SplitMembers(NotesOf(groups), OfToken(notes, token));
    forall n | n in NotesOf(groups)
      ensures n.token == token
    {
      assert IsPiece(n, OfToken(notes, token));
      var o :| o in OfToken(notes, token) && n == o.(value := n.value);
      OfTokenIs(notes, token, o);
    }
  }

  /** The outputs of one token are those of all outputs that have it, as often as they occur. */
  lemma {:induction false} OfTokenIs(notes: seq<Note>, token: nat, note: Note)
    ensures multiset(OfToken(notes, token))[note] == if note.token == token then multiset(notes)[note] else 0
    ensures note in OfToken(notes, token) <==> note in notes && note.token == token
  {
    if notes != [] {
      OfTokenIs(notes[1..], token, note);
      assert notes == [notes[0]] + notes[1..];
    }
  }

  ghost predicate SolvedSoFar(whole: Option<Solved>, done: seq<Group>, rest: Option<Solved>) {
    if rest.None? then whole.None? else whole == Some(Solved(done + rest.value.groups, [], rest.value.excluded))
                                        && rest.value.remaining == []
  }

  lemma {:induction false} SolvedMore(whole: Option<Solved>, done: seq<Group>, groups: seq<Group>, rest: Option<Solved>)
    requires SolvedSoFar(whole, done, if rest.None? then None
      else Some(Solved(groups + rest.value.groups, [], rest.value.excluded)))
    requires rest.Some? ==> rest.value.remaining == []
    ensures SolvedSoFar(whole, done + groups, rest)
  {
    if rest.Some? {
      assert done + (groups + rest.value.groups) == done + groups + rest.value.groups;
    }
  }

  /** Whatever is returned pays every output and the unshield exactly and spends no UTXO twice; a
      request never succeeds beyond the balance, and for one or two outputs, or an unshield alone,
      always within it. */
  ghost predicate RequestMet(trees: Balances, outputs: seq<Note>, unshield: Option<nat>, groups: Option<seq<Group>>) {
    && (groups.Some? ==> PaysAll(groups.value, outputs, ValueOf(unshield)))
    && (groups.Some? && Unique(AllUTXOs(trees)) ==> Fresh(AllUTXOs(trees), [], RealInputs(groups.value)))
    && (Unique(AllUTXOs(trees)) && IsCovered(outputs, unshield)
      ==> (groups.Some? <==> Requested(outputs, unshield) <= TokenBalanceAcrossAllTrees(trees)))
  }

  lemma {:induction false} SolveMeets(trees: Balances, outputs: seq<Note>, token: nat, unshield: Option<nat>)
    requires BalancesOk(trees)
    ensures RequestMet(trees, outputs, unshield, Solve(trees, outputs, token, unshield))
  {
    AllIsAvailable(trees);
    if Solve(trees, outputs, token, unshield).Some? {
      SolveSettles(trees, outputs, token, unshield);
      ChangeBalances(Solve(trees, outputs, token, unshield).value);
    }
    if Unique(AllUTXOs(trees)) {
      if Solve(trees, outputs, token, unshield).Some? {
        SolveSpendsOnce(trees, outputs, token, unshield);
      }
      if IsCovered(outputs, unshield) {
        SolveExistsIff(trees, outputs, token, unshield);
      }
    }
  }

  lemma {:induction false} GeneratedMeets(trees: Balances, outputs: seq<Note>, token: nat, unshield: Option<nat>)
    requires BalancesOk(trees)
    ensures RequestMet(trees, outputs, unshield, Generated(trees, outputs, token, unshield))
    ensures Generated(trees, outputs, token, unshield).Some?
      ==> Requested(outputs, unshield) <= TokenBalanceAcrossAllTrees(trees)
  {
    if Requested(outputs, unshield) > TokenBalanceAcrossAllTrees(trees) {
      TooMuchMeets(trees, outputs, unshield);
    } else if SimpleGroup(trees, outputs, ValueOf(unshield), Requested(outputs, unshield)).Some? {
      SimpleMeets(trees, outputs, unshield);
    } else {
      SolveMeets(trees, outputs, token, unshield);
    }
  }

  /** The simple solver goes first: if a tree can pay alone, as it finds one, the request takes one
      group from that tree and no other. */
  lemma {:induction false} SimpleFirst(trees: Balances, outputs: seq<Note>, token: nat, unshield: Option<nat>,
      tree: nat)
    requires BalancesOk(trees) && 0 < Requested(outputs, unshield) <= TokenBalanceAcrossAllTrees(trees)
    requires IsLastPayer(trees, Requested(outputs, unshield), |trees|, tree)
    ensures var groups := Generated(trees, outputs, token, unshield);
      groups.Some? && |groups.value| == 1 && groups.value[0].spendingTree == tree
      && groups.value[0].tokenOutputs == outputs && groups.value[0].unshieldValue == ValueOf(unshield)
  {
    SimpleGroupIff(trees, outputs, ValueOf(unshield), Requested(outputs, unshield));
  }

  lemma {:induction false} TooMuchMeets(trees: Balances, outputs: seq<Note>, unshield: Option<nat>)
    requires Requested(outputs, unshield) > TokenBalanceAcrossAllTrees(trees)
    ensures RequestMet(trees, outputs, unshield, None)
  {
  }

  lemma {:induction false} SimpleMeets(trees: Balances, outputs: seq<Note>, unshield: Option<nat>)
    requires BalancesOk(trees) && Requested(outputs, unshield) <= TokenBalanceAcrossAllTrees(trees)
    requires SimpleGroup(trees, outputs, ValueOf(unshield), Requested(outputs, unshield)).Some?
    ensures RequestMet(trees, outputs, unshield,
      Some([SimpleGroup(trees, outputs, ValueOf(unshield), Requested(outputs, unshield)).value]))
  {
    SimpleGroupPays(trees, outputs, ValueOf(unshield));
  }
}

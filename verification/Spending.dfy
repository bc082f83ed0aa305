/** What coin selection guarantees: it fails only for want of balance, it conserves value for each
    recipient, and it spends no UTXO twice. */
module Spending {
  import opened Wrappers
  import opened Solutions

  /** The UTXOs of the trees from `tree` on. */
  function UTXOsFrom(trees: Balances, tree: nat): seq<UTXO>
    requires tree <= |trees|
    decreases |trees| - tree
  {
    if tree == |trees| then []
    else (if trees[tree].Some? then trees[tree].value.utxos else []) + UTXOsFrom(trees, tree + 1)
  }

  function AllUTXOs(trees: Balances): seq<UTXO> {
    UTXOsFrom(trees, 0)
  }

  /** The value that is neither zero nor excluded. */
  function Available(utxos: seq<UTXO>, excluded: seq<UTXOId>): nat {
    CalculateTotalSpend(Usable(utxos, excluded))
  }

  lemma {:induction false} UsableOfBoth(a: seq<UTXO>, b: seq<UTXO>, excluded: seq<UTXOId>)
    ensures Usable(a + b, excluded) == Usable(a, excluded) + Usable(b, excluded)
  {
    if a == [] {
      assert a + b == b;
    } else {
      assert (a + b)[1..] == a[1..] + b && (a + b)[0] == a[0];
      UsableOfBoth(a[1..], b, excluded);
      UsableHead(a, excluded);
      UsableHead(a + b, excluded);
      Regrouped(a[0], Usable(a[1..], excluded), Usable(b, excluded));
    }
  }

  lemma {:induction false} Regrouped<T>(head: T, rest: seq<T>, other: seq<T>)
    ensures [head] + (rest + other) == ([head] + rest) + other
  {
  }

  lemma {:induction false} UsableAppended(a: seq<UTXO>, b: seq<UTXO>, excluded: seq<UTXOId>)
    ensures Usable(a + b, excluded) == Usable(a, excluded) + Usable(b, excluded)
    ensures Available(a + b, excluded) == Available(a, excluded) + Available(b, excluded)
  {
    UsableOfBoth(a, b, excluded);
    SpendAppended(Usable(a, excluded), Usable(b, excluded));
  }

  /** Excluding one usable UTXO takes its value away, if no other has its id. */
  lemma {:induction false} OneExcluded(utxos: seq<UTXO>, excluded: seq<UTXOId>, utxo: UTXO)
    requires Unique(utxos)
    ensures utxo in Usable(utxos, excluded)
      ==> Available(utxos, excluded + [Id(utxo)]) == Available(utxos, excluded) - utxo.value
    ensures Unmentioned(Id(utxo), utxos) ==> Usable(utxos, excluded + [Id(utxo)]) == Usable(utxos, excluded)
  {
    if utxos != [] {
      var tail, excluded' := utxos[1..], excluded + [Id(utxo)];
      OneExcluded(tail, excluded, utxo);
      UsableHead(utxos, excluded);
      UsableHead(utxos, excluded');
      UsableMembers(utxos, excluded);
      UsableMembers(tail, excluded);
      assert utxos == [utxos[0]] + tail;
      assert ([utxos[0]] + Usable(tail, excluded))[1..] == Usable(tail, excluded);
      assert ([utxos[0]] + Usable(tail, excluded'))[1..] == Usable(tail, excluded');
    }
  }

  /** Excluding a batch takes its total spend away. */
  lemma {:induction false} BatchExcluded(utxos: seq<UTXO>, excluded: seq<UTXOId>, batch: seq<UTXO>)
    requires Unique(utxos) && Unique(batch) && forall u :: u in batch ==> u in Usable(utxos, excluded)
    ensures Available(utxos, excluded + Ids(batch)) == Available(utxos, excluded) - CalculateTotalSpend(batch)
    decreases |batch|
  {
    if batch == [] {
      assert excluded + Ids(batch) == excluded;
    } else {
      var excluded', rest := excluded + [Id(batch[0])], batch[1..];
      OneExcluded(utxos, excluded, batch[0]);
      UsableMembers(utxos, excluded);
      UsableMembers(utxos, excluded');
      assert batch == [batch[0]] + rest;
      forall u | u in rest
        ensures u in Usable(utxos, excluded')
      {
        assert u in batch && Id(u) != Id(batch[0]);
      }
      BatchExcluded(utxos, excluded', rest);
      assert excluded + Ids(batch) == excluded' + Ids(rest);
    }
  }

  /** What is used up stays used up. */
  lemma {:induction false} UsedUp(utxos: seq<UTXO>, excluded: seq<UTXOId>, more: seq<UTXOId>)
    requires Usable(utxos, excluded) == []
    ensures Usable(utxos, excluded + more) == []
  {
    if utxos != [] {
      UsableHead(utxos, excluded);
      UsableHead(utxos, excluded + more);
      UsedUp(utxos[1..], excluded, more);
    }
  }

  /** The groups' inputs join the exclusion list, and nothing else does. */
  lemma {:induction false} FillExcludes(trees: Balances, tree: nat, output: Note, amount: int, excluded: seq<UTXOId>,
      isUnshield: bool)
    requires tree <= |trees|
    ensures var f := Fill(trees, tree, output, amount, excluded,
      isUnshield); f.excluded == excluded + Ids(RealInputs(f.groups))
    decreases |trees| - tree, if amount > 0 then amount else 0
  {
    if tree == |trees| || amount <= 0 {
    } else if trees[tree].None? || NextBatch(trees[tree].value.utxos, amount, excluded).None? {
      FillExcludes(trees, tree + 1, output, amount, excluded, isUnshield);
    } else {
      var batch := NextBatch(trees[tree].value.utxos, amount, excluded).value;
      BatchIsReal(trees[tree].value.utxos, amount, excluded);
      FillExcludes(trees, tree, output, amount - CalculateTotalSpend(batch), excluded + Ids(batch), isUnshield);
      FilledHead(trees, tree, output, amount, excluded, isUnshield);
      var f := Fill(trees, tree, output, amount, excluded, isUnshield);
      assert RealInputs(f.groups) == batch + RealInputs(f.groups[1..]);
      IdsAppended(excluded, batch, RealInputs(f.groups[1..]));
    }
  }

  lemma {:induction false} BatchIsReal(utxos: seq<UTXO>, amount: nat, excluded: seq<UTXOId>)
    requires amount > 0 && NextBatch(utxos, amount, excluded).Some?
    ensures var batch := NextBatch(utxos, amount, excluded).value;
      CalculateTotalSpend(batch) > 0 && FilterZeroUTXOs(batch) == batch
  {
    NextBatchMeets(utxos, amount, excluded);
    UsableMembers(utxos, excluded);
    NonZeroStay(NextBatch(utxos, amount, excluded).value);
  }

  lemma {:induction false} IdsAppended(excluded: seq<UTXOId>, a: seq<UTXO>, b: seq<UTXO>)
    ensures excluded + Ids(a + b) == excluded + Ids(a) + Ids(b)
  {
  }

  lemma {:induction false} NonZeroStay(utxos: seq<UTXO>)
    requires forall u :: u in utxos ==> u.value != 0
    ensures FilterZeroUTXOs(utxos) == utxos
  {
    if utxos != [] {
      NonZeroStay(utxos[1..]);
    }
  }

  /** Unrolling `Fill` at a tree with a batch. */
  lemma {:induction false} FilledHead(trees: Balances, tree: nat, output: Note, amount: int, excluded: seq<UTXOId>,
      isUnshield: bool)
    requires tree < |trees| && amount > 0 && trees[tree].Some?
      && NextBatch(trees[tree].value.utxos, amount, excluded).Some?
    ensures var batch := NextBatch(trees[tree].value.utxos, amount, excluded).value;
      var f := Fill(trees, tree, output, amount, excluded, isUnshield);
      var rest := Fill(trees, tree, output, amount - CalculateTotalSpend(batch), excluded + Ids(batch), isUnshield);
      && f.groups != [] && f.groups[0] == GroupOf(output, tree, Min(CalculateTotalSpend(batch), amount), batch,
        isUnshield)
      && f.groups[1..] == rest.groups && f.excluded == rest.excluded && f.left == rest.left
  {
  }

  lemma {:induction false} BatchSpends(utxos: seq<UTXO>, amount: nat, excluded: seq<UTXOId>)
    requires amount > 0
    ensures NextBatch(utxos, amount, excluded).None? ==> Usable(utxos, excluded) == []
    ensures NextBatch(utxos, amount, excluded).Some?
      ==> CalculateTotalSpend(NextBatch(utxos, amount, excluded).value) > 0
  {
    NextBatchMeets(utxos, amount, excluded);
  }

  // ---------- no UTXO twice ----------

  /** The inputs are distinct, from the trees, and none was excluded before. */
  ghost predicate Fresh(utxos: seq<UTXO>, excluded: seq<UTXOId>, spent: seq<UTXO>) {
    Unique(spent) && forall u :: u in spent ==> u in utxos && IsUsable(u, excluded)
  }

  lemma {:induction false} FillIsFresh(trees: Balances, tree: nat, output: Note, amount: int, excluded: seq<UTXOId>,
      isUnshield: bool)
    requires tree <= |trees| && Unique(UTXOsFrom(trees, tree))
    ensures Fresh(UTXOsFrom(trees, tree), excluded,
      RealInputs(Fill(trees, tree, output, amount, excluded, isUnshield).groups))
    decreases |trees| - tree, if amount > 0 then amount else 0
  {
    if tree < |trees| && amount > 0 {
      var here := if trees[tree].Some? then trees[tree].value.utxos else [];
      var later := UTXOsFrom(trees, tree + 1);
      if trees[tree].None? || NextBatch(here, amount, excluded).None? {
        UniqueParts(here, later);
        FillIsFresh(trees, tree + 1, output, amount, excluded, isUnshield);
      } else {
        var batch := NextBatch(here, amount, excluded).value;
        BatchSpends(here, amount, excluded);
        FillIsFresh(trees, tree, output, amount - CalculateTotalSpend(batch), excluded + Ids(batch), isUnshield);
        FilledHead(trees, tree, output, amount, excluded, isUnshield);
        BatchIsFresh(here, later, amount, excluded, batch,
          RealInputs(Fill(trees, tree, output, amount, excluded, isUnshield).groups[1..]));
      }
    }
  }

  lemma {:induction false} BatchIsFresh(here: seq<UTXO>, later: seq<UTXO>, amount: nat, excluded: seq<UTXOId>,
      batch: seq<UTXO>, rest: seq<UTXO>)
    requires Unique(here + later) && amount > 0 && NextBatch(here, amount, excluded) == Some(batch)
    requires Fresh(here + later, excluded + Ids(batch), rest)
    ensures FilterZeroUTXOs(batch) == batch && Fresh(here + later, excluded, batch + rest)
  {
    UniqueParts(here, later);
    NextBatchMeets(here, amount, excluded);
    UsableMembers(here, excluded);
    NonZeroStay(batch);
    forall u | u in batch
      ensures Unmentioned(Id(u), rest)
    {
      IdListed(batch, u);
    }
    UniqueParts(batch, rest);
  }

  lemma {:induction false} IdListed(utxos: seq<UTXO>, utxo: UTXO)
    requires utxo in utxos
    ensures Id(utxo) in Ids(utxos)
  {
    var i: nat :| i < |utxos| && utxos[i] == utxo;
    assert Ids(utxos)[i] == Id(utxo);
  }

  // ---------- when it fails ----------

  lemma {:induction false} SpentIsRealInputs(groups: seq<Group>)
    ensures Spent(groups) == CalculateTotalSpend(RealInputs(groups))
  {
    if groups != [] {
      SpentIsRealInputs(groups[1..]);
      ZerosAddNothing(groups[0].utxos);
      SpendAppended(FilterZeroUTXOs(groups[0].utxos), RealInputs(groups[1..]));
    }
  }

  lemma {:induction false} ZerosAddNothing(utxos: seq<UTXO>)
    ensures CalculateTotalSpend(FilterZeroUTXOs(utxos)) == CalculateTotalSpend(utxos)
  {
    if utxos != [] {
      ZerosAddNothing(utxos[1..]);
      var tail := FilterZeroUTXOs(utxos[1..]);
      assert ([utxos[0]] + tail)[1..] == tail;
    }
  }

  lemma {:induction false} UsedUpHere(here: seq<UTXO>, later: seq<UTXO>, excluded: seq<UTXOId>, more: seq<UTXOId>)
    requires Usable(here, excluded) == []
    ensures Available(here + later, excluded) == Available(later, excluded)
    ensures Available(here + later, excluded + more) == Available(later, excluded + more)
  {
    UsableAppended(here, later, excluded);
    UsableAppended(here, later, excluded + more);
    UsedUp(here, excluded, more);
  }

  /** What is spent is what comes off the amount. */
  lemma {:induction false} FillSpends(trees: Balances, tree: nat, output: Note, amount: int, excluded: seq<UTXOId>,
      isUnshield: bool)
    requires tree <= |trees|
    ensures var f := Fill(trees, tree, output, amount, excluded, isUnshield); f.left == amount - Spent(f.groups)
    decreases |trees| - tree, if amount > 0 then amount else 0
  {
    if tree < |trees| && amount > 0 {
      if trees[tree].None? || NextBatch(trees[tree].value.utxos, amount, excluded).None? {
        FillSpends(trees, tree + 1, output, amount, excluded, isUnshield);
      } else {
        var batch := NextBatch(trees[tree].value.utxos, amount, excluded).value;
        BatchSpends(trees[tree].value.utxos, amount, excluded);
        FillSpends(trees, tree, output, amount - CalculateTotalSpend(batch), excluded + Ids(batch), isUnshield);
        FilledHead(trees, tree, output, amount, excluded, isUnshield);
      }
    }
  }

  /** It stops short only when nothing usable is left. */
  lemma {:induction false} FillExhausts(trees: Balances, tree: nat, output: Note, amount: int, excluded: seq<UTXOId>,
      isUnshield: bool)
    requires tree <= |trees| && Fill(trees, tree, output, amount, excluded, isUnshield).left > 0
    ensures Available(UTXOsFrom(trees, tree), Fill(trees, tree, output, amount, excluded, isUnshield).excluded) == 0
    decreases |trees| - tree, if amount > 0 then amount else 0
  {
    if tree < |trees| && amount > 0 {
      var here := if trees[tree].Some? then trees[tree].value.utxos else [];
      if trees[tree].None? || NextBatch(here, amount, excluded).None? {
        BatchSpends(here, amount, excluded);
        FillExhausts(trees, tree + 1, output, amount, excluded, isUnshield);
        FillExcludes(trees, tree + 1, output, amount, excluded, isUnshield);
        var f := Fill(trees, tree + 1, output, amount, excluded, isUnshield);
        UsedUpHere(here, UTXOsFrom(trees, tree + 1), excluded, Ids(RealInputs(f.groups)));
      } else {
        var batch := NextBatch(here, amount, excluded).value;
        BatchSpends(here, amount, excluded);
        FillExhausts(trees, tree, output, amount - CalculateTotalSpend(batch), excluded + Ids(batch), isUnshield);
      }
    }
  }

  /** The groups spend from tree to tree, and from a later one only once an earlier one is used up. */
  ghost predicate InOrder(trees: Balances, from: nat, groups: seq<Group>, excluded: seq<UTXOId>) {
    && (forall g :: g in groups ==> from <= g.spendingTree)
    && (forall i, j :: 0 <= i < j < |groups| ==> groups[i].spendingTree <= groups[j].spendingTree)
    && (forall g, t :: g in groups && from <= t < g.spendingTree && t < |trees| ==> UsedUpAt(trees, t, excluded))
  }

  ghost predicate UsedUpAt(trees: Balances, tree: nat, excluded: seq<UTXOId>)
    requires tree < |trees|
  {
    trees[tree].Some? ==> Usable(trees[tree].value.utxos, excluded) == []
  }

  lemma {:induction false} FillInOrder(trees: Balances, tree: nat, output: Note, amount: int, excluded: seq<UTXOId>,
      isUnshield: bool)
    requires tree <= |trees|
    ensures var f := Fill(trees, tree, output, amount, excluded, isUnshield); InOrder(trees, tree, f.groups, f.excluded)
    decreases |trees| - tree, if amount > 0 then amount else 0
  {
    if tree < |trees| && amount > 0 {
      if trees[tree].None? || NextBatch(trees[tree].value.utxos, amount, excluded).None? {
        var f := Fill(trees, tree + 1, output, amount, excluded, isUnshield);
        FillInOrder(trees, tree + 1, output, amount, excluded, isUnshield);
        FillExcludes(trees, tree + 1, output, amount, excluded, isUnshield);
        if trees[tree].Some? {
          StaysUsedUp(trees[tree].value.utxos, amount, excluded, Ids(RealInputs(f.groups)));
        }
        TreeDone(trees, tree, f.groups, f.excluded);
      } else {
        var batch := NextBatch(trees[tree].value.utxos, amount, excluded).value;
        BatchSpends(trees[tree].value.utxos, amount, excluded);
        FillInOrder(trees, tree, output, amount - CalculateTotalSpend(batch), excluded + Ids(batch), isUnshield);
        FilledHead(trees, tree, output, amount, excluded, isUnshield);
        var f := Fill(trees, tree, output, amount, excluded, isUnshield);
        HeadInOrder(trees, tree, f.groups, f.excluded);
      }
    }
  }

  lemma {:induction false} StaysUsedUp(utxos: seq<UTXO>, amount: nat, excluded: seq<UTXOId>, more: seq<UTXOId>)
    requires amount > 0 && NextBatch(utxos, amount, excluded).None?
    ensures Usable(utxos, excluded + more) == []
  {
    BatchSpends(utxos, amount, excluded);
    UsedUp(utxos, excluded, more);
  }

  lemma {:induction false} TreeDone(trees: Balances, tree: nat, groups: seq<Group>, excluded: seq<UTXOId>)
    requires tree < |trees| && InOrder(trees, tree + 1, groups, excluded) && UsedUpAt(trees, tree, excluded)
    ensures InOrder(trees, tree, groups, excluded)
  {
  }

  lemma {:induction false} HeadInOrder(trees: Balances, tree: nat, groups: seq<Group>, excluded: seq<UTXOId>)
    requires groups != [] && groups[0].spendingTree == tree && InOrder(trees, tree, groups[1..], excluded)
    ensures InOrder(trees, tree, groups, excluded)
  {
    var rest := groups[1..];
    assert groups == [groups[0]] + rest;
    forall i, j | 0 <= i < j < |groups|
      ensures groups[i].spendingTree <= groups[j].spendingTree
    {
      assert groups[j] == rest[j - 1] && rest[j - 1] in rest;
      assert i > 0 ==> groups[i] == rest[i - 1];
    }
  }

  // ---------- conservation ----------

  function OutOf(group: Group): nat {
    Total(group.tokenOutputs) + group.unshieldValue
  }

  ghost predicate FromTree(trees: Balances, group: Group) {
    && group.spendingTree < |trees| && trees[group.spendingTree].Some?
    && forall u :: u in group.utxos ==> u in trees[group.spendingTree].value.utxos && u.value != 0
  }

  /** A group the circuits can prove: 1 to 10 inputs, of one tree unless it is the null group, at
      most two token outputs, and enough input for what goes out. */
  ghost predicate GroupOk(trees: Balances, group: Group) {
    && IsValidNullifierCount(|group.utxos|) && |group.tokenOutputs| <= 2
    && OutOf(group) <= CalculateTotalSpend(group.utxos)
    && (FromTree(trees, group) || (group.utxos == [NULL_UTXO] && group.spendingTree == 0))
  }

  ghost predicate GroupsOk(trees: Balances, groups: seq<Group>) {
    forall g :: g in groups ==> GroupOk(trees, g)
  }

  /** Only the last group has change, and it has room for one more output. */
  ghost predicate LastHasChange(groups: seq<Group>, change: nat) {
    groups != [] && |groups[|groups| - 1].tokenOutputs| <= 1
    && CalculateTotalSpend(groups[|groups| - 1].utxos) == OutOf(groups[|groups| - 1]) + change
  }

  /** Groups made for an output pay that output, and nothing else, what was filled of it. */
  ghost predicate Pays(groups: seq<Group>, output: Note, amount: nat, isUnshield: bool) {
    && (forall r :: PaidTo(groups, r) == if !isUnshield && r == output.recipient then amount else 0)
    && Unshielded(groups) == if isUnshield then amount else 0
  }

  lemma {:induction false} OneNote(note: Note)
    ensures Total([note]) == note.value
    ensures forall r :: Owed([note], r) == if r == note.recipient then note.value else 0
  {
    assert [note][1..] == [];
    forall r
      ensures Owed([note], r) == if r == note.recipient then note.value else 0
    {
      assert Owed([note][1..], r) == 0;
    }
  }

  lemma {:induction false} GroupPays(output: Note, tree: nat, value: nat, utxos: seq<UTXO>, isUnshield: bool)
    ensures var g := GroupOf(output, tree, value, utxos, isUnshield);
      OutOf(g) == value && |g.tokenOutputs| <= 1 && Pays([g], output, value, isUnshield)
  {
    var g := GroupOf(output, tree, value, utxos, isUnshield);
    assert [g][1..] == [] && [g][0] == g;
    if !isUnshield {
      var note := WithValue(output, value);
      OneNote(note);
    }
    assert forall r :: PaidTo([g], r) == Owed(g.tokenOutputs, r) + PaidTo([], r);
    assert Unshielded([g]) == g.unshieldValue + Unshielded([]);
  }

  lemma {:induction false} PaysMore(groups: seq<Group>, more: seq<Group>, output: Note, a: nat, b: nat,
      isUnshield: bool)
    requires Pays(groups, output, a, isUnshield) && Pays(more, output, b, isUnshield)
    ensures Pays(groups + more, output, a + b, isUnshield)
  {
    GroupsAppended(groups, more);
  }

  lemma {:induction false} HeadAdded(trees: Balances, head: Group, rest: seq<Group>, change: int)
    requires GroupOk(trees, head) && GroupsOk(trees, rest)
    ensures GroupsOk(trees, [head] + rest)
    ensures change >= 0 && LastHasChange(rest, change) ==> LastHasChange([head] + rest, change)
  {
    var groups := [head] + rest;
    if rest != [] {
      assert groups[|groups| - 1] == rest[|rest| - 1];
    }
  }

  /** The groups pay their output what was filled of `amount`, within the circuits' limits, and
      once it is filled only the last has change. */
  ghost predicate FillOk(trees: Balances, groups: seq<Group>, output: Note, amount: nat, left: int, isUnshield: bool) {
    && left <= amount && GroupsOk(trees, groups)
    && Pays(groups, output, if left > 0 then amount - left else amount, isUnshield)
    && (left <= 0 < amount ==> LastHasChange(groups, -left))
  }

  lemma {:induction false} FillPays(trees: Balances, tree: nat, output: Note, amount: nat, excluded: seq<UTXOId>,
      isUnshield: bool)
    requires tree <= |trees|
    ensures var f := Fill(trees, tree, output, amount, excluded, isUnshield); FillOk(trees, f.groups, output, amount,
      f.left, isUnshield)
    decreases |trees| - tree, amount
  {
    if tree < |trees| && amount > 0 {
      if trees[tree].None? || NextBatch(trees[tree].value.utxos, amount, excluded).None? {
        FillPays(trees, tree + 1, output, amount, excluded, isUnshield);
      } else {
        var batch := NextBatch(trees[tree].value.utxos, amount, excluded).value;
        var left := amount - CalculateTotalSpend(batch);
        var rest := Fill(trees, tree, output, left, excluded + Ids(batch), isUnshield);
        HeadOk(trees, tree, output, amount, excluded, isUnshield, batch);
        if left > 0 {
          FillPays(trees, tree, output, left, excluded + Ids(batch), isUnshield);
        }
        FillPaysOn(trees, tree, output, amount, isUnshield, batch, rest.groups, rest.left);
      }
    }
  }

  lemma {:induction false} FillPaysOn(trees: Balances, tree: nat, output: Note, amount: nat, isUnshield: bool,
      batch: seq<UTXO>, rest: seq<Group>, left: int)
    requires var value := Min(CalculateTotalSpend(batch), amount);
      var head := GroupOf(output, tree, value, batch, isUnshield);
      GroupOk(trees, head) && |head.tokenOutputs| <= 1 && OutOf(head) == value
        && Pays([head], output, value, isUnshield)
    requires CalculateTotalSpend(batch) >= amount ==> rest == [] && left == amount - CalculateTotalSpend(batch)
    requires CalculateTotalSpend(batch) < amount
      ==> FillOk(trees, rest, output, amount - CalculateTotalSpend(batch), left, isUnshield)
    ensures FillOk(trees, [GroupOf(output, tree, Min(CalculateTotalSpend(batch), amount), batch, isUnshield)] + rest,
      output, amount, left, isUnshield)
  {
    var value := Min(CalculateTotalSpend(batch), amount);
    var head := GroupOf(output, tree, value, batch, isUnshield);
    if CalculateTotalSpend(batch) < amount {
      PaysMore([head], rest, output, value, amount - value - (if left > 0 then left else 0), isUnshield);
      HeadAdded(trees, head, rest, -left);
    } else {
      assert [head] + rest == [head];
    }
  }

  lemma {:induction false} HeadOk(trees: Balances, tree: nat, output: Note, amount: nat, excluded: seq<UTXOId>,
      isUnshield: bool, batch: seq<UTXO>)
    requires tree < |trees| && trees[tree].Some? && amount > 0
      && NextBatch(trees[tree].value.utxos, amount, excluded) == Some(batch)
    ensures var value := Min(CalculateTotalSpend(batch), amount);
      var head := GroupOf(output, tree, value, batch, isUnshield);
      && CalculateTotalSpend(batch) > 0
      && GroupOk(trees, head) && |head.tokenOutputs| <= 1 && OutOf(head) == value
      && Pays([head], output, value, isUnshield)
  {
    NextBatchMeets(trees[tree].value.utxos, amount, excluded);
    UsableMembers(trees[tree].value.utxos, excluded);
    var head := GroupOf(output, tree, Min(CalculateTotalSpend(batch), amount), batch, isUnshield);
    GroupPays(output, tree, Min(CalculateTotalSpend(batch), amount), batch, isUnshield);
    assert FromTree(trees, head);
  }

  // ---------- one call ----------

  lemma {:induction false} SecondaryPaid(trees: Balances, groups: seq<Group>, secondary: Note, paid: nat, change: nat)
    requires GroupsOk(trees, groups) && LastHasChange(groups, change) && paid <= change
    ensures var groups' := WithSecondary(groups, secondary, paid);
      && GroupsOk(trees, groups')
      && (forall r :: PaidTo(groups', r) == PaidTo(groups, r) + if r == secondary.recipient then paid else 0)
      && Unshielded(groups') == Unshielded(groups) && Spent(groups') == Spent(groups)
      && RealInputs(groups') == RealInputs(groups)
  {
    var n := |groups| - 1;
    var init, last, note := groups[..n], groups[n], WithValue(secondary, paid);
    var last' := last.(tokenOutputs := last.tokenOutputs + [note]);
    assert groups == init + [last] && WithSecondary(groups, secondary, paid) == init + [last'];
    NotesAppended(last.tokenOutputs, [note]);
    OneNote(note);
    GroupsAppended(init, [last]);
    GroupsAppended(init, [last']);
    RealInputsAppended(init, [last]);
    RealInputsAppended(init, [last']);
    assert [last][1..] == [] && [last'][1..] == [];
    forall g | g in init + [last']
      ensures GroupOk(trees, g)
    {
      assert GroupOk(trees, last);
      assert g in groups || g == last';
    }
  }

  lemma {:induction false} NotesAppended(a: seq<Note>, b: seq<Note>)
    ensures Total(a + b) == Total(a) + Total(b)
    ensures forall r :: Owed(a + b, r) == Owed(a, r) + Owed(b, r)
  {
    if a == [] {
      assert a + b == b;
    } else {
      assert (a + b)[1..] == a[1..] + b && (a + b)[0] == a[0];
      NotesAppended(a[1..], b);
    }
  }

  /** Lowering the first output's value by `paid`. */
  lemma {:induction false} OutputLowered(outputs: seq<Note>, paid: nat)
    requires outputs != [] && paid <= outputs[0].value
    ensures var rest := ReplaceOrRemoveRemainingOutput(outputs, outputs[0].value - paid);
      && Total(rest) + paid == Total(outputs)
      && forall r :: Owed(rest, r) + (if r == outputs[0].recipient then paid else 0) == Owed(outputs, r)
  {
    var note := WithValue(outputs[0], outputs[0].value - paid);
    assert ([note] + outputs[1..])[1..] == outputs[1..];
  }

  /** What goes to change although an output is still to be paid. */
  ghost function Wasted(remaining: seq<Note>, s: Solved): int {
    Spent(s.groups) - (Total(remaining) - Total(s.remaining))
  }

  lemma {:induction false} NullIsNoInput(groups: seq<Group>)
    requires |groups| == 1 && groups[0].utxos == [NULL_UTXO]
    ensures RealInputs(groups) == [] && Spent(groups) == 0
  {
    var utxos := groups[0].utxos;
    assert utxos[1..] == [] && groups[1..] == [] && utxos[0] == NULL_UTXO;
    assert FilterZeroUTXOs(utxos) == [];
    ZerosAddNothing(utxos);
    assert RealInputs(groups) == [] + RealInputs([]) && Spent(groups) == 0 + Spent([]);
  }

  /** What a call must keep: what its groups pay is exactly what leaves the list of remaining
      outputs, or the unshielded amount.  Change is wasted only once the output after the first is
      paid as well. */
  ghost predicate Conserves(trees: Balances, remaining: seq<Note>, s: Solved, change: int, isUnshield: bool)
    requires remaining != []
  {
    && GroupsOk(trees, s.groups)
    && (!isUnshield ==> Unshielded(s.groups) == 0
                        && forall r :: PaidTo(s.groups, r) + Owed(s.remaining, r) == Owed(remaining, r))
    && (isUnshield ==> Unshielded(s.groups) == remaining[0].value
                       && s.remaining == remaining[1..] && forall r :: PaidTo(s.groups, r) == 0)
    && 0 <= Wasted(remaining, s) <= change
    && (!isUnshield && Wasted(remaining, s) > 0 && |remaining| > 1 ==> |s.remaining| == |remaining| - 2)
  }

  lemma {:induction false} NullConserves(trees: Balances, remaining: seq<Note>, excluded: seq<UTXOId>, isUnshield: bool)
    requires remaining != [] && remaining[0].value == 0
    ensures Conserves(trees, remaining, Solution(trees, remaining, excluded, isUnshield).value, 0, isUnshield)
  {
    GroupPays(remaining[0], 0, 0, [NULL_UTXO], isUnshield);
    NullIsNoInput([GroupOf(remaining[0], 0, 0, [NULL_UTXO], isUnshield)]);
  }

  lemma {:induction false} ChangeConserves(trees: Balances, remaining: seq<Note>, groups: seq<Group>,
      excluded: seq<UTXOId>, change: int, isUnshield: bool)
    requires change >= 0 && remaining != [] && remaining[0].value > 0
      && FillOk(trees, groups, remaining[0], remaining[0].value, -change, isUnshield)
    requires groups != [] && Spent(groups) == remaining[0].value + change
    ensures var finished := WithChange(groups, remaining[1..], change, isUnshield);
      Conserves(trees, remaining, Solved(finished.0, finished.1, excluded), change, isUnshield)
  {
    if change > 0 && |remaining| > 1 && !isUnshield {
      SecondaryConserves(trees, remaining, groups, excluded, change);
    }
  }

  lemma {:induction false} SecondaryConserves(trees: Balances, remaining: seq<Note>, groups: seq<Group>,
      excluded: seq<UTXOId>, change: int)
    requires change > 0 && |remaining| > 1 && remaining[0].value > 0
      && FillOk(trees, groups, remaining[0], remaining[0].value, -change, false)
    requires groups != [] && Spent(groups) == remaining[0].value + change
    ensures var finished := WithChange(groups, remaining[1..], change, false);
      Conserves(trees, remaining, Solved(finished.0, finished.1, excluded), change, false)
  {
    var paid := Min(remaining[1].value, change);
    SecondaryPaid(trees, groups, remaining[1], paid, change);
    OutputLowered(remaining[1..], paid);
  }

  /** One call conserves value for every recipient. */
  lemma {:induction false} SolutionConserves(trees: Balances, remaining: seq<Note>, excluded: seq<UTXOId>,
      isUnshield: bool)
    requires remaining != [] && Solution(trees, remaining, excluded, isUnshield).Some?
    ensures Conserves(trees, remaining, Solution(trees, remaining, excluded, isUnshield).value,
      -Fill(trees, 0, remaining[0], remaining[0].value, excluded, isUnshield).left, isUnshield)
  {
    var primary := remaining[0];
    if primary.value == 0 {
      NullConserves(trees, remaining, excluded, isUnshield);
    } else {
      var f := Fill(trees, 0, primary, primary.value, excluded, isUnshield);
      FillPays(trees, 0, primary, primary.value, excluded, isUnshield);
      FillSpends(trees, 0, primary, primary.value, excluded, isUnshield);
      ChangeConserves(trees, remaining, f.groups, f.excluded, -f.left, isUnshield);
    }
  }

  /** Fresh inputs come off what is available. */
  lemma {:induction false} FreshAccounts(utxos: seq<UTXO>, excluded: seq<UTXOId>, groups: seq<Group>)
    requires Unique(utxos) && Fresh(utxos, excluded, RealInputs(groups))
    ensures Available(utxos, excluded + Ids(RealInputs(groups))) == Available(utxos, excluded) - Spent(groups)
  {
    UsableMembers(utxos, excluded);
    BatchExcluded(utxos, excluded, RealInputs(groups));
    SpentIsRealInputs(groups);
  }

  lemma {:induction false} ChangeKeepsInputs(groups: seq<Group>, remaining: seq<Note>, change: nat, isUnshield: bool)
    requires groups != []
    ensures RealInputs(WithChange(groups, remaining, change, isUnshield).0) == RealInputs(groups)
  {
    if change > 0 && remaining != [] && !isUnshield {
      var n := |groups| - 1;
      var last' := WithChange(groups, remaining, change, isUnshield).0[n];
      assert groups == groups[..n] + [groups[n]]
        && WithChange(groups, remaining, change, isUnshield).0 == groups[..n] + [last'];
      RealInputsAppended(groups[..n], [groups[n]]);
      RealInputsAppended(groups[..n], [last']);
      assert [groups[n]][1..] == [] && [last'][1..] == [];
    }
  }

  lemma {:induction false} SolutionIsFresh(trees: Balances, remaining: seq<Note>, excluded: seq<UTXOId>,
      isUnshield: bool)
    requires remaining != [] && Solution(trees, remaining, excluded, isUnshield).Some? && Unique(AllUTXOs(trees))
    ensures var s := Solution(trees, remaining, excluded, isUnshield).value;
      Fresh(AllUTXOs(trees), excluded, RealInputs(s.groups)) && s.excluded == excluded + Ids(RealInputs(s.groups))
  {
    if remaining[0].value == 0 {
      NullIsNoInput([GroupOf(remaining[0], 0, 0, [NULL_UTXO], isUnshield)]);
      assert excluded + Ids([]) == excluded;
    } else {
      FilledIsFresh(trees, remaining, excluded, isUnshield);
    }
  }

  lemma {:induction false} FilledIsFresh(trees: Balances, remaining: seq<Note>, excluded: seq<UTXOId>, isUnshield: bool)
    requires remaining != [] && remaining[0].value > 0 && Unique(AllUTXOs(trees))
    requires Fill(trees, 0, remaining[0], remaining[0].value, excluded, isUnshield).left <= 0
    ensures var f := Fill(trees, 0, remaining[0], remaining[0].value, excluded, isUnshield);
      var inputs := RealInputs(WithChange(f.groups, remaining[1..], -f.left, isUnshield).0);
      Fresh(AllUTXOs(trees), excluded, inputs) && f.excluded == excluded + Ids(inputs)
  {
    var f := Fill(trees, 0, remaining[0], remaining[0].value, excluded, isUnshield);
    FillIsFresh(trees, 0, remaining[0], remaining[0].value, excluded, isUnshield);
    FillExcludes(trees, 0, remaining[0], remaining[0].value, excluded, isUnshield);
    ChangeKeepsInputs(f.groups, remaining[1..], -f.left, isUnshield);
  }

  /** Its real inputs are fresh, join the exclusion list, and come off what is available. */
  lemma {:induction false} SolutionSpends(trees: Balances, remaining: seq<Note>, excluded: seq<UTXOId>,
      isUnshield: bool)
    requires remaining != [] && Solution(trees, remaining, excluded, isUnshield).Some? && Unique(AllUTXOs(trees))
    ensures var s := Solution(trees, remaining, excluded, isUnshield).value;
      && Fresh(AllUTXOs(trees), excluded, RealInputs(s.groups))
      && s.excluded == excluded + Ids(RealInputs(s.groups))
      && Available(AllUTXOs(trees), s.excluded) == Available(AllUTXOs(trees), excluded) - Spent(s.groups)
  {
    SolutionIsFresh(trees, remaining, excluded, isUnshield);
    FreshAccounts(AllUTXOs(trees), excluded, Solution(trees, remaining, excluded, isUnshield).value.groups);
  }

  /** With unique ids a call throws exactly when the UTXOs that are neither zero nor excluded,
      over all trees, come to less than the output's value. */
  lemma {:induction false} SolutionExistsIff(trees: Balances, remaining: seq<Note>, excluded: seq<UTXOId>,
      isUnshield: bool)
    requires remaining != [] && Unique(AllUTXOs(trees))
    ensures Solution(trees, remaining, excluded, isUnshield).Some?
      <==> remaining[0].value <= Available(AllUTXOs(trees), excluded)
  {
    var primary := remaining[0];
    if primary.value > 0 {
      var f := Fill(trees, 0, primary, primary.value, excluded, isUnshield);
      FillIsFresh(trees, 0, primary, primary.value, excluded, isUnshield);
      FillExcludes(trees, 0, primary, primary.value, excluded, isUnshield);
      FillSpends(trees, 0, primary, primary.value, excluded, isUnshield);
      FreshAccounts(AllUTXOs(trees), excluded, f.groups);
      if f.left > 0 {
        FillExhausts(trees, 0, primary, primary.value, excluded, isUnshield);
      }
    }
  }

  // ---------- which notes are made ----------

  /** The notes of the groups, in order. */
  function NotesOf(groups: seq<Group>): seq<Note> {
    if groups == [] then [] else groups[0].tokenOutputs + NotesOf(groups[1..])
  }

  /** Notes that are `output` but for their values, which add up to its value. */
  ghost predicate PiecesOf(notes: seq<Note>, output: Note) {
    && notes != [] && Total(notes) == output.value
    && forall n :: n in notes ==> n == output.(value := n.value)
  }

  /** The notes are the outputs in order, each in one or more pieces. */
  ghost predicate SplitsInto(notes: seq<Note>, outputs: seq<Note>)
    decreases |outputs|
  {
    if outputs == [] then notes == []
    else exists k :: 0 < k <= |notes| && PiecesOf(notes[..k], outputs[0]) && SplitsInto(notes[k..], outputs[1..])
  }

  lemma {:induction false} NotesOfBoth(a: seq<Group>, b: seq<Group>)
    ensures NotesOf(a + b) == NotesOf(a) + NotesOf(b)
  {
    if a == [] {
      assert a + b == b;
    } else {
      assert (a + b)[1..] == a[1..] + b && (a + b)[0] == a[0];
      NotesOfBoth(a[1..], b);
    }
  }

  lemma {:induction false} SplitMore(pieces: seq<Note>, more: seq<Note>, outputs: seq<Note>)
    requires outputs != [] && PiecesOf(pieces, outputs[0]) && SplitsInto(more, outputs[1..])
    ensures SplitsInto(pieces + more, outputs)
  {
    var notes, k := pieces + more, |pieces|;
    assert notes[..k] == pieces && notes[k..] == more;
  }

  /** One more piece in front of those of an output that is owed the less. */
  lemma {:induction false} PieceAdded(piece: Note, more: seq<Note>, output: Note, outputs: seq<Note>)
    requires 0 <= piece.value < output.value && piece == output.(value := piece.value)
    requires SplitsInto(more, [output.(value := output.value - piece.value)] + outputs)
    ensures SplitsInto([piece] + more, [output] + outputs)
  {
    var lowered := output.(value := output.value - piece.value);
    assert ([lowered] + outputs)[1..] == outputs && ([output] + outputs)[1..] == outputs;
    var k :| 0 < k <= |more| && PiecesOf(more[..k], lowered) && SplitsInto(more[k..], outputs);
    var pieces := [piece] + more[..k];
    assert pieces[1..] == more[..k];
    SplitMore(pieces, more[k..], [output] + outputs);
    assert [piece] + more == pieces + more[k..];
  }

  lemma {:induction false} GroupNotes(output: Note, tree: nat, value: nat, utxos: seq<UTXO>, isUnshield: bool,
      rest: seq<Group>)
    ensures NotesOf([GroupOf(output, tree, value, utxos, isUnshield)] + rest)
         == if isUnshield then NotesOf(rest) else [output.(value := value)] + NotesOf(rest)
  {
    var groups := [GroupOf(output, tree, value, utxos, isUnshield)] + rest;
    assert groups[1..] == rest;
  }

  /** Notes that are `output` but for their values, which add up to what was filled of `amount`. */
  ghost predicate Filled(notes: seq<Note>, output: Note, amount: int, left: int) {
    && (forall n :: n in notes ==> n == output.(value := n.value))
    && if amount <= 0 then notes == []
       else Total(notes) == (if left > 0 then amount - left else amount) && (left <= 0 ==> notes != [])
  }

  /** Filling an amount makes pieces of the output, and for an unshield no notes. */
  lemma {:induction false} FillNotes(trees: Balances, tree: nat, output: Note, amount: int, excluded: seq<UTXOId>,
      isUnshield: bool)
    requires tree <= |trees|
    ensures var f := Fill(trees, tree, output, amount, excluded, isUnshield);
      if isUnshield then NotesOf(f.groups) == [] else Filled(NotesOf(f.groups), output, amount, f.left)
    decreases |trees| - tree, if amount > 0 then amount else 0
  {
    if tree < |trees| && amount > 0 {
      if trees[tree].None? || NextBatch(trees[tree].value.utxos, amount, excluded).None? {
        FillNotes(trees, tree + 1, output, amount, excluded, isUnshield);
      } else {
        var batch := NextBatch(trees[tree].value.utxos, amount, excluded).value;
        BatchSpends(trees[tree].value.utxos, amount, excluded);
        var spend := CalculateTotalSpend(batch);
        var rest := Fill(trees, tree, output, amount - spend, excluded + Ids(batch), isUnshield);
        FillNotes(trees, tree, output, amount - spend, excluded + Ids(batch), isUnshield);
        GroupNotes(output, tree, Min(spend, amount), batch, isUnshield, rest.groups);
        FilledDone(trees, tree, output, amount - spend, excluded + Ids(batch), isUnshield);
        if !isUnshield {
          FilledMore(NotesOf(rest.groups), output, amount, spend, rest.left);
        }
      }
    }
  }

  lemma {:induction false} FilledDone(trees: Balances, tree: nat, output: Note, amount: int, excluded: seq<UTXOId>,
      isUnshield: bool)
    requires tree <= |trees|
    ensures amount <= 0 ==> Fill(trees, tree, output, amount, excluded, isUnshield).left == amount
    ensures Fill(trees, tree, output, amount, excluded, isUnshield).left <= amount
  {
    FillSpends(trees, tree, output, amount, excluded, isUnshield);
  }

  lemma {:induction false} FilledMore(notes: seq<Note>, output: Note, amount: nat, spend: nat, left: int)
    requires amount > 0 && spend > 0 && left <= amount - spend && (spend >= amount ==> left == amount - spend)
    requires Filled(notes, output, amount - spend, left)
    ensures Filled([output.(value := Min(spend, amount))] + notes, output, amount, left)
  {
    PieceTotals(output.(value := Min(spend, amount)), notes);
  }

  lemma {:induction false} PieceTotals(piece: Note, rest: seq<Note>)
    ensures Total([piece] + rest) == piece.value + Total(rest)
  {
    assert ([piece] + rest)[1..] == rest;
  }

  lemma {:induction false} SecondaryNotes(groups: seq<Group>, secondary: Note, paid: nat)
    requires groups != []
    ensures NotesOf(WithSecondary(groups, secondary, paid)) == NotesOf(groups) + [secondary.(value := paid)]
  {
    var n := |groups| - 1;
    var last' := WithSecondary(groups, secondary, paid)[n];
    assert groups == groups[..n] + [groups[n]] && WithSecondary(groups, secondary, paid) == groups[..n] + [last'];
    NotesOfBoth(groups[..n], [groups[n]]);
    NotesOfBoth(groups[..n], [last']);
    OneGroupNotes(groups[n]);
    OneGroupNotes(last');
  }

  lemma {:induction false} OneGroupNotes(group: Group)
    ensures NotesOf([group]) == group.tokenOutputs
  {
    assert [group][1..] == [] && group.tokenOutputs + [] == group.tokenOutputs;
  }

  /** Whatever pieces pay what one call leaves, behind the call's own notes they pay all outputs. */
  lemma {:induction false} SolutionSplits(trees: Balances, remaining: seq<Note>, excluded: seq<UTXOId>, more: seq<Note>)
    requires remaining != [] && Solution(trees, remaining, excluded, false).Some?
    requires SplitsInto(more, Solution(trees, remaining, excluded, false).value.remaining)
    ensures SplitsInto(NotesOf(Solution(trees, remaining, excluded, false).value.groups) + more, remaining)
  {
    var primary := remaining[0];
    if primary.value == 0 {
      OneGroupNotes(GroupOf(primary, 0, 0, [NULL_UTXO], false));
      PieceTotals(primary, []);
      assert [primary] + [] == [primary];
      SplitMore([primary], more, remaining);
    } else {
      var f := Fill(trees, 0, primary, primary.value, excluded, false);
      FillNotes(trees, 0, primary, primary.value, excluded, false);
      if -f.left > 0 && |remaining| > 1 {
        SecondarySplits(NotesOf(f.groups), f.groups, remaining, -f.left, more);
      } else {
        SplitMore(NotesOf(f.groups), more, remaining);
      }
    }
  }

  lemma {:induction false} SecondarySplits(pieces: seq<Note>, groups: seq<Group>, remaining: seq<Note>, change: nat,
      more: seq<Note>)
    requires |remaining| > 1 && groups != [] && change > 0
    requires pieces == NotesOf(groups) && PiecesOf(pieces, remaining[0])
    requires SplitsInto(more, WithChange(groups, remaining[1..], change, false).1)
    ensures SplitsInto(NotesOf(WithChange(groups, remaining[1..], change, false).0) + more, remaining)
  {
    var rest, paid := remaining[1..], Min(remaining[1].value, change);
    var note := rest[0].(value := paid);
    SecondaryNotes(groups, rest[0], paid);
    SecondaryRest(rest, paid, more);
    SplitMore(pieces, [note] + more, remaining);
    assert pieces + ([note] + more) == pieces + [note] + more;
  }

  /** What is left to pay of the secondary output follows the piece the change paid. */
  lemma {:induction false} SecondaryRest(outputs: seq<Note>, paid: nat, more: seq<Note>)
    requires outputs != [] && paid <= outputs[0].value
    requires SplitsInto(more, ReplaceOrRemoveRemainingOutput(outputs, outputs[0].value - paid))
    ensures SplitsInto([outputs[0].(value := paid)] + more, outputs)
  {
    var note := outputs[0].(value := paid);
    assert outputs == [outputs[0]] + outputs[1..];
    if paid < outputs[0].value {
      PieceAdded(note, more, outputs[0], outputs[1..]);
    } else {
      PieceTotals(note, []);
      assert [note] + [] == [note];
      SplitMore([note], more, outputs);
    }
  }

  ghost predicate IsPiece(note: Note, outputs: seq<Note>) {
    exists o :: o in outputs && note == o.(value := note.value)
  }

  ghost predicate HasPiece(output: Note, notes: seq<Note>) {
    exists n :: n in notes && n == output.(value := n.value)
  }

  /** Every note is one of the outputs but for its value, and every output has one. */
  lemma {:induction false} SplitMembers(notes: seq<Note>, outputs: seq<Note>)
    requires SplitsInto(notes, outputs)
    ensures forall n :: n in notes ==> IsPiece(n, outputs)
    ensures forall o :: o in outputs ==> HasPiece(o, notes)
    decreases |outputs|
  {
    if outputs != [] {
      var k :| 0 < k <= |notes| && PiecesOf(notes[..k], outputs[0]) && SplitsInto(notes[k..], outputs[1..]);
      var pieces, more, rest := notes[..k], notes[k..], outputs[1..];
      SplitMembers(more, rest);
      MembersJoin(pieces, more, outputs[0], rest);
      assert notes == pieces + more && outputs == [outputs[0]] + rest;
    }
  }

  lemma {:induction false} MembersJoin(pieces: seq<Note>, more: seq<Note>, output: Note, rest: seq<Note>)
    requires PiecesOf(pieces, output)
    requires (forall n :: n in more ==> IsPiece(n, rest)) && forall o :: o in rest ==> HasPiece(o, more)
    ensures forall n :: n in pieces + more ==> IsPiece(n, [output] + rest)
    ensures forall o :: o in [output] + rest ==> HasPiece(o, pieces + more)
  {
    forall n | n in pieces + more
      ensures IsPiece(n, [output] + rest)
    {
      if n in pieces {
        assert output in [output] + rest;
      } else {
        var o :| o in rest && n == o.(value := n.value);
        assert o in [output] + rest;
      }
    }
    forall o | o in [output] + rest
      ensures HasPiece(o, pieces + more)
    {
      if o == output {
        assert pieces[0] in pieces && pieces[0] in pieces + more;
      } else {
        var n :| n in more && n == o.(value := n.value);
        assert n in pieces + more;
      }
    }
  }

  lemma {:induction false} SplitsItself(outputs: seq<Note>)
    ensures SplitsInto(outputs, outputs)
  {
    if outputs != [] {
      SplitsItself(outputs[1..]);
      PieceTotals(outputs[0], []);
      assert [outputs[0]] + [] == [outputs[0]] && outputs == [outputs[0]] + outputs[1..];
      SplitMore([outputs[0]], outputs[1..], outputs);
    }
  }

  // ---------- all outputs and the unshield ----------

  /** The outputs, each call taking the first that remains. */
  function SolveOutputs(trees: Balances, outputs: seq<Note>, excluded: seq<UTXOId>): (r: Option<Solved>)
    ensures r.Some? ==> r.value.remaining == []
    decreases |outputs|
  {
    if outputs == [] then Some(Solved([], [], excluded))
    else
      var first := Solution(trees, outputs, excluded, false);
      if first.None? then None
      else
        var rest := SolveOutputs(trees, first.value.remaining, first.value.excluded);
        if rest.None? then None else Some(Solved(first.value.groups + rest.value.groups, [], rest.value.excluded))
  }

  function ValueOf(unshield: Option<nat>): nat {
    if unshield.Some? then unshield.value else 0
  }

  function NullUnshieldNote(token: nat, value: nat): Note {
    Note(token, 0, value)
  }

  /** What `createComplexSatisfyingSpendingSolutionGroups` must return, None where it throws. */
  function Solve(trees: Balances, outputs: seq<Note>, token: nat, unshield: Option<nat>): Option<seq<Group>> {
    var solved := SolveOutputs(trees, outputs, []);
    if solved.None? then None
    else if unshield.None? then Some(solved.value.groups)
    else
      var last := Solution(trees, [NullUnshieldNote(token, unshield.value)], solved.value.excluded, true);
      if last.None? then None else Some(solved.value.groups + last.value.groups)
  }

  /** Groups that pay outputs unshield nothing, and those that unshield pay no output. */
  ghost predicate OneKind(groups: seq<Group>, isUnshield: bool) {
    forall g :: g in groups ==> if isUnshield then g.tokenOutputs == [] else g.unshieldValue == 0
  }

  lemma {:induction false} FillIsOneKind(trees: Balances, tree: nat, output: Note, amount: int, excluded: seq<UTXOId>,
      isUnshield: bool)
    requires tree <= |trees|
    ensures OneKind(Fill(trees, tree, output, amount, excluded, isUnshield).groups, isUnshield)
    decreases |trees| - tree, if amount > 0 then amount else 0
  {
    if tree < |trees| && amount > 0 {
      if trees[tree].None? || NextBatch(trees[tree].value.utxos, amount, excluded).None? {
        FillIsOneKind(trees, tree + 1, output, amount, excluded, isUnshield);
      } else {
        var batch := NextBatch(trees[tree].value.utxos, amount, excluded).value;
        BatchSpends(trees[tree].value.utxos, amount, excluded);
        FillIsOneKind(trees, tree, output, amount - CalculateTotalSpend(batch), excluded + Ids(batch), isUnshield);
      }
    }
  }

  lemma {:induction false} SolutionIsOneKind(trees: Balances, remaining: seq<Note>, excluded: seq<UTXOId>,
      isUnshield: bool)
    requires remaining != [] && Solution(trees, remaining, excluded, isUnshield).Some?
    ensures OneKind(Solution(trees, remaining, excluded, isUnshield).value.groups, isUnshield)
  {
    FillIsOneKind(trees, 0, remaining[0], remaining[0].value, excluded, isUnshield);
  }

  lemma {:induction false} SolveOutputsIsOneKind(trees: Balances, outputs: seq<Note>, excluded: seq<UTXOId>)
    requires SolveOutputs(trees, outputs, excluded).Some?
    ensures OneKind(SolveOutputs(trees, outputs, excluded).value.groups, false)
    decreases |outputs|
  {
    if outputs != [] {
      var first := Solution(trees, outputs, excluded, false).value;
      SolutionIsOneKind(trees, outputs, excluded, false);
      SolveOutputsIsOneKind(trees, first.remaining, first.excluded);
    }
  }

  /** The outputs are paid first, and then the unshield by groups of its own. */
  lemma {:induction false} UnshieldLast(trees: Balances, outputs: seq<Note>, token: nat, unshield: Option<nat>)
      returns (k: nat)
    requires Solve(trees, outputs, token, unshield).Some?
    ensures var groups := Solve(trees, outputs, token, unshield).value;
      && k <= |groups| && OneKind(groups[..k], false) && OneKind(groups[k..], true)
      && (unshield.None? ==> k == |groups|)
  {
    var solved := SolveOutputs(trees, outputs, []).value;
    k := |solved.groups|;
    SolveOutputsIsOneKind(trees, outputs, []);
    if unshield.Some? {
      var note := [NullUnshieldNote(token, unshield.value)];
      SolutionIsOneKind(trees, note, solved.excluded, true);
      var last := Solution(trees, note, solved.excluded, true).value.groups;
      assert (solved.groups + last)[..k] == solved.groups && (solved.groups + last)[k..] == last;
    } else {
      assert solved.groups[..k] == solved.groups;
    }
  }

  lemma {:induction false} FreshMore(utxos: seq<UTXO>, excluded: seq<UTXOId>, first: seq<UTXO>, more: seq<UTXO>)
    requires Fresh(utxos, excluded, first) && Fresh(utxos, excluded + Ids(first), more)
    ensures Fresh(utxos, excluded, first + more) && excluded + Ids(first) + Ids(more) == excluded + Ids(first + more)
  {
    IdsAppended(excluded, first, more);
    forall u | u in first
      ensures Unmentioned(Id(u), more)
    {
      IdListed(first, u);
    }
    UniqueParts(first, more);
  }

  lemma {:induction false} GroupsOkMore(trees: Balances, a: seq<Group>, b: seq<Group>)
    requires GroupsOk(trees, a) && GroupsOk(trees, b)
    ensures GroupsOk(trees, a + b)
  {
  }

  /** Every output is paid in full and nothing else is, by notes that are the outputs in order, each
      in one or more pieces; every group can be proved. */
  ghost predicate Settles(trees: Balances, outputs: seq<Note>, unshield: nat, groups: seq<Group>) {
    && GroupsOk(trees, groups) && SplitsInto(NotesOf(groups), outputs)
    && (forall r :: PaidTo(groups, r) == Owed(outputs, r))
    && Unshielded(groups) == unshield
  }

  lemma {:induction false} SolveOutputsSettles(trees: Balances, outputs: seq<Note>, excluded: seq<UTXOId>)
    requires SolveOutputs(trees, outputs, excluded).Some?
    ensures Settles(trees, outputs, 0, SolveOutputs(trees, outputs, excluded).value.groups)
    decreases |outputs|
  {
    if outputs != [] {
      var first := Solution(trees, outputs, excluded, false).value;
      var rest := SolveOutputs(trees, first.remaining, first.excluded).value;
      SolutionConserves(trees, outputs, excluded, false);
      SolveOutputsSettles(trees, first.remaining, first.excluded);
      SolutionSplits(trees, outputs, excluded, NotesOf(rest.groups));
      NotesOfBoth(first.groups, rest.groups);
      GroupsAppended(first.groups, rest.groups);
      GroupsOkMore(trees, first.groups, rest.groups);
    }
  }

  lemma {:induction false} UnshieldNotes(trees: Balances, remaining: seq<Note>, excluded: seq<UTXOId>)
    requires remaining != [] && Solution(trees, remaining, excluded, true).Some?
    ensures NotesOf(Solution(trees, remaining, excluded, true).value.groups) == []
  {
    if remaining[0].value == 0 {
      OneGroupNotes(GroupOf(remaining[0], 0, 0, [NULL_UTXO], true));
    } else {
      FillNotes(trees, 0, remaining[0], remaining[0].value, excluded, true);
    }
  }

  /** Conservation: whatever the outputs and the unshield, if the complex solver returns groups,
      they pay each recipient and the unshield exactly what was requested. */
  lemma {:induction false} SolveSettles(trees: Balances, outputs: seq<Note>, token: nat, unshield: Option<nat>)
    requires Solve(trees, outputs, token, unshield).Some?
    ensures Settles(trees, outputs, ValueOf(unshield), Solve(trees, outputs, token, unshield).value)
  {
    var solved := SolveOutputs(trees, outputs, []).value;
    SolveOutputsSettles(trees, outputs, []);
    if unshield.Some? {
      var note := [NullUnshieldNote(token, unshield.value)];
      SolutionConserves(trees, note, solved.excluded, true);
      GroupsAppended(solved.groups, Solution(trees, note, solved.excluded, true).value.groups);
      UnshieldNotes(trees, note, solved.excluded);
      NotesOfBoth(solved.groups, Solution(trees, note, solved.excluded, true).value.groups);
      assert NotesOf(solved.groups) + [] == NotesOf(solved.groups);
      GroupsOkMore(trees, solved.groups, Solution(trees, note, solved.excluded, true).value.groups);
    }
  }

  lemma {:induction false} SolveOutputsSpends(trees: Balances, outputs: seq<Note>, excluded: seq<UTXOId>)
    requires SolveOutputs(trees, outputs, excluded).Some? && Unique(AllUTXOs(trees))
    ensures var s := SolveOutputs(trees, outputs, excluded).value;
      && Fresh(AllUTXOs(trees), excluded, RealInputs(s.groups))
      && s.excluded == excluded + Ids(RealInputs(s.groups))
      && Available(AllUTXOs(trees), s.excluded) == Available(AllUTXOs(trees), excluded) - Spent(s.groups)
      && Spent(s.groups) >= Total(outputs)
    decreases |outputs|
  {
    if outputs == [] {
      assert excluded + Ids([]) == excluded;
    } else {
      var first := Solution(trees, outputs, excluded, false).value;
      var rest := SolveOutputs(trees, first.remaining, first.excluded).value;
      SolutionSpends(trees, outputs, excluded, false);
      SolutionConserves(trees, outputs, excluded, false);
      SolveOutputsSpends(trees, first.remaining, first.excluded);
      GroupsAppended(first.groups, rest.groups);
      RealInputsAppended(first.groups, rest.groups);
      FreshMore(AllUTXOs(trees), excluded, RealInputs(first.groups), RealInputs(rest.groups));
    }
  }

  /** No reuse: with unique ids no UTXO is an input of two groups, or twice of one; and success
      needs a balance that covers everything requested. */
  lemma {:induction false} SolveSpendsOnce(trees: Balances, outputs: seq<Note>, token: nat, unshield: Option<nat>)
    requires Solve(trees, outputs, token, unshield).Some? && Unique(AllUTXOs(trees))
    ensures Fresh(AllUTXOs(trees), [], RealInputs(Solve(trees, outputs, token, unshield).value))
    ensures Total(outputs) + ValueOf(unshield) <= Available(AllUTXOs(trees), [])
  {
    var solved := SolveOutputs(trees, outputs, []).value;
    SolveOutputsSpends(trees, outputs, []);
    if unshield.Some? {
      var note := [NullUnshieldNote(token, unshield.value)];
      var last := Solution(trees, note, solved.excluded, true).value;
      SolutionSpends(trees, note, solved.excluded, true);
      SolutionExistsIff(trees, note, solved.excluded, true);
      RealInputsAppended(solved.groups, last.groups);
      FreshMore(AllUTXOs(trees), [], RealInputs(solved.groups), RealInputs(last.groups));
    }
  }

  // ---------- completeness ----------

  /** A balance that is always enough: up to two outputs without an unshield need their total;
      otherwise every output but those may waste up to `margin`. */
  function Need(outputs: seq<Note>, unshield: Option<nat>, margin: nat): nat {
    if outputs == [] then ValueOf(unshield)
    else if unshield.None? && |outputs| <= 2 then Total(outputs)
    else outputs[0].value + margin + Need(outputs[1..], unshield, margin)
  }

  /** Change is smaller than the largest UTXO. */
  lemma {:induction false} BatchChange(utxos: seq<UTXO>, amount: nat, excluded: seq<UTXOId>, margin: nat)
    requires amount > 0 && forall u :: u in utxos ==> u.value <= margin + 1
    ensures var batch := NextBatch(utxos, amount, excluded);
      batch.Some? ==> 0 < CalculateTotalSpend(batch.value) <= amount + margin
  {
    NextBatchMeets(utxos, amount, excluded);
    var batch := NextBatch(utxos, amount, excluded);
    if batch.Some? {
      UsableMembers(utxos, excluded);
      LastIsBounded(batch.value, margin + 1);
    }
  }

  lemma {:induction false} LastIsBounded(utxos: seq<UTXO>, bound: nat)
    requires utxos != [] && forall u :: u in utxos ==> u.value <= bound
    ensures CalculateTotalSpend(utxos) <= CalculateTotalSpend(utxos[..|utxos| - 1]) + bound
  {
    var n := |utxos| - 1;
    var last := utxos[n];
    assert last in utxos && utxos == utxos[..n] + [last] && [last][1..] == [];
    SpendAppended(utxos[..n], [last]);
    assert CalculateTotalSpend([last]) == last.value;
  }

  lemma {:induction false} BoundedParts(trees: Balances, tree: nat, bound: nat)
    requires tree < |trees| && forall u :: u in UTXOsFrom(trees, tree) ==> u.value <= bound
    ensures trees[tree].Some? ==> forall u :: u in trees[tree].value.utxos ==> u.value <= bound
    ensures forall u :: u in UTXOsFrom(trees, tree + 1) ==> u.value <= bound
  {
    var here := if trees[tree].Some? then trees[tree].value.utxos else [];
    assert forall u :: u in here || u in UTXOsFrom(trees, tree + 1) ==> u in here + UTXOsFrom(trees, tree + 1);
  }

  lemma {:induction false} FillChange(trees: Balances, tree: nat, output: Note, amount: nat, excluded: seq<UTXOId>,
      isUnshield: bool, margin: nat)
    requires tree <= |trees| && forall u :: u in UTXOsFrom(trees, tree) ==> u.value <= margin + 1
    ensures -Fill(trees, tree, output, amount, excluded, isUnshield).left <= margin
    decreases |trees| - tree, amount
  {
    if tree < |trees| && amount > 0 {
      BoundedParts(trees, tree, margin + 1);
      if trees[tree].None? || NextBatch(trees[tree].value.utxos, amount, excluded).None? {
        FillChange(trees, tree + 1, output, amount, excluded, isUnshield, margin);
      } else {
        var here := trees[tree].value.utxos;
        var batch := NextBatch(here, amount, excluded).value;
        BatchChange(here, amount, excluded, margin);
        FilledHead(trees, tree, output, amount, excluded, isUnshield);
        if CalculateTotalSpend(batch) < amount {
          FillChange(trees, tree, output, amount - CalculateTotalSpend(batch), excluded + Ids(batch), isUnshield,
            margin);
        }
      }
    }
  }

  lemma {:induction false} NeedLowered(outputs: seq<Note>, unshield: Option<nat>, margin: nat, paid: nat)
    requires outputs != [] && paid <= outputs[0].value
    ensures Need(ReplaceOrRemoveRemainingOutput(outputs, outputs[0].value - paid), unshield,
      margin) + paid <= Need(outputs, unshield, margin)
  {
    var rest := ReplaceOrRemoveRemainingOutput(outputs, outputs[0].value - paid);
    OutputLowered(outputs, paid);
    if paid < outputs[0].value {
      assert rest[1..] == outputs[1..];
    }
  }

  /** One call leaves what the later ones need. */
  lemma {:induction false} SolutionLeavesEnough(trees: Balances, outputs: seq<Note>, excluded: seq<UTXOId>,
      unshield: Option<nat>, margin: nat)
    requires outputs != [] && Solution(trees, outputs, excluded, false).Some? && Unique(AllUTXOs(trees))
    requires forall u :: u in AllUTXOs(trees) ==> u.value <= margin + 1
    requires Need(outputs, unshield, margin) <= Available(AllUTXOs(trees), excluded)
    ensures var s := Solution(trees,
      outputs, excluded, false).value; Need(s.remaining, unshield, margin) <= Available(AllUTXOs(trees), s.excluded)
  {
    var s, rest := Solution(trees, outputs, excluded, false).value, outputs[1..];
    SolutionSpends(trees, outputs, excluded, false);
    SolutionConserves(trees, outputs, excluded, false);
    FillChange(trees, 0, outputs[0], outputs[0].value, excluded, false, margin);
    RestLowered(trees, outputs, excluded, unshield, margin);
    assert Total(outputs) == outputs[0].value + Total(rest);
    if unshield.None? && |outputs| <= 2 {
      assert |s.remaining| <= 1 && Need(s.remaining, unshield, margin) == Total(s.remaining);
    }
  }

  /** What leaves the outputs after the first, leaves their need. */
  lemma {:induction false} RestLowered(trees: Balances, outputs: seq<Note>, excluded: seq<UTXOId>,
      unshield: Option<nat>, margin: nat)
    requires outputs != [] && Solution(trees, outputs, excluded, false).Some?
    ensures var s := Solution(trees, outputs, excluded, false).value;
      Need(s.remaining, unshield, margin) + Total(outputs[1..]) - Total(s.remaining) <= Need(outputs[1..], unshield,
        margin)
  {
    var left := Fill(trees, 0, outputs[0], outputs[0].value, excluded, false).left;
    if |outputs| > 1 && left < 0 {
      var paid := Min(outputs[1].value, -left);
      NeedLowered(outputs[1..], unshield, margin, paid);
      OutputLowered(outputs[1..], paid);
    }
  }

  lemma {:induction false} SolveOutputsExists(trees: Balances, outputs: seq<Note>, excluded: seq<UTXOId>,
      unshield: Option<nat>, margin: nat)
    requires Unique(AllUTXOs(trees)) && forall u :: u in AllUTXOs(trees) ==> u.value <= margin + 1
    requires Need(outputs, unshield, margin) <= Available(AllUTXOs(trees), excluded)
    ensures SolveOutputs(trees, outputs, excluded).Some?
    ensures unshield.Some? ==> unshield.value <= Available(AllUTXOs(trees),
      SolveOutputs(trees, outputs, excluded).value.excluded)
    decreases |outputs|
  {
    if outputs != [] {
      SolutionExistsIff(trees, outputs, excluded, false);
      SolutionLeavesEnough(trees, outputs, excluded, unshield, margin);
      var first := Solution(trees, outputs, excluded, false).value;
      SolveOutputsExists(trees, first.remaining, first.excluded, unshield, margin);
    }
  }

  /** Completeness.  A balance of `Need` always suffices, with no UTXO above margin + 1. */
  lemma {:induction false} SolveExists(trees: Balances, outputs: seq<Note>, token: nat, unshield: Option<nat>,
      margin: nat)
    requires Unique(AllUTXOs(trees)) && forall u :: u in AllUTXOs(trees) ==> u.value <= margin + 1
    requires Need(outputs, unshield, margin) <= Available(AllUTXOs(trees), [])
    ensures Solve(trees, outputs, token, unshield).Some?
  {
    SolveOutputsExists(trees, outputs, [], unshield, margin);
    if unshield.Some? {
      SolutionExistsIff(trees, [NullUnshieldNote(token, unshield.value)],
        SolveOutputs(trees, outputs, []).value.excluded, true);
    }
  }

  lemma {:induction false} SomeMargin(utxos: seq<UTXO>) returns (margin: nat)
    ensures forall u :: u in utxos ==> u.value <= margin + 1
  {
    margin := 0;
    if utxos != [] {
      var rest := SomeMargin(utxos[1..]);
      margin := rest + utxos[0].value;
    }
  }

  /** For up to two outputs without an unshield, or an unshield alone, the complex solver succeeds
      exactly when the total balance covers the request. */
  lemma {:induction false} SolveExistsIff(trees: Balances, outputs: seq<Note>, token: nat, unshield: Option<nat>)
    requires Unique(AllUTXOs(trees)) && ((unshield.None? && |outputs| <= 2) || outputs == [])
    ensures Solve(trees, outputs, token, unshield).Some?
       <==> Total(outputs) + ValueOf(unshield) <= Available(AllUTXOs(trees), [])
  {
    if Solve(trees, outputs, token, unshield).Some? {
      SolveSpendsOnce(trees, outputs, token, unshield);
    } else {
      var margin := SomeMargin(AllUTXOs(trees));
      if Need(outputs, unshield, margin) <= Available(AllUTXOs(trees), []) {
        SolveExists(trees, outputs, token, unshield, margin);
      }
    }
  }

  /** Beyond that the balance need not suffice: a wallet with one UTXO, however large, never pays
      three positive outputs, nor a positive output and a positive unshield. */
  lemma {:induction false} OneCoinStarves(trees: Balances, coin: UTXO, a: Note, b: Note, c: Note, token: nat,
      unshield: nat)
    requires AllUTXOs(trees) == [coin] && a.value > 0 && b.value > 0 && c.value > 0 && unshield > 0
    ensures Solve(trees, [a, b, c], token, None).None?
    ensures Solve(trees, [a], token, Some(unshield)).None?
  {
    var three, one := [a, b, c], [a];
    if Solution(trees, three, [], false).Some? {
      var s := Solution(trees, three, [], false).value;
      OneCoinSpent(trees, coin, three);
      StillPositive(trees, three, []);
      SolutionExistsIff(trees, s.remaining, s.excluded, false);
      assert SolveOutputs(trees, s.remaining, s.excluded).None?;
    }
    assert SolveOutputs(trees, three, []).None?;
    if Solution(trees, one, [], false).Some? {
      var s := Solution(trees, one, [], false).value;
      OneCoinSpent(trees, coin, one);
      assert s.remaining == [] && SolveOutputs(trees, one, []) == Some(Solved(s.groups + [], [], s.excluded));
      SolutionExistsIff(trees, [NullUnshieldNote(token, unshield)], s.excluded, true);
    }
  }

  lemma {:induction false} StillPositive(trees: Balances, outputs: seq<Note>, excluded: seq<UTXOId>)
    requires outputs != [] && Solution(trees, outputs, excluded, false).Some?
      && forall o :: o in outputs ==> o.value > 0
    ensures var s := Solution(trees, outputs, excluded, false).value;
      |s.remaining| >= |outputs| - 2 && forall o :: o in s.remaining ==> o.value > 0
  {
  }

  /** The first call takes the only coin. */
  lemma {:induction false} OneCoinSpent(trees: Balances, coin: UTXO, outputs: seq<Note>)
    requires AllUTXOs(trees) == [coin] && outputs != [] && outputs[0].value > 0
      && Solution(trees, outputs, [], false).Some?
    ensures Unique([coin]) && Available([coin], Solution(trees, outputs, [], false).value.excluded) == 0
  {
    assert [coin][1..] == [];
    var s := Solution(trees, outputs, [], false).value;
    var f := Fill(trees, 0, outputs[0], outputs[0].value, [], false);
    SolutionSpends(trees, outputs, [], false);
    FillExcludes(trees, 0, outputs[0], outputs[0].value, [], false);
    FillSpends(trees, 0, outputs[0], outputs[0].value, [], false);
    SpentIsRealInputs(f.groups);
    var inputs := RealInputs(s.groups);
    assert s.excluded == f.excluded && [] + Ids(inputs) == Ids(inputs);
    assert [] + Ids(RealInputs(f.groups)) == Ids(RealInputs(f.groups));
    assert |inputs| == |Ids(RealInputs(f.groups))| > 0;
    assert inputs[0] in inputs;
    IdListed(inputs, inputs[0]);
    assert Id(coin) in s.excluded;
    UsableHead([coin], s.excluded);
  }
}

/** The wallet's spendable balance of one token, tree by tree, as coin selection receives it. */
module WalletBalances {
  import opened Wrappers
  import opened Solutions
  import opened Spending
  import opened TransactionBatches

  /** A received output.  `counted` is the verdict of the bucket or origin filter. */
  datatype TXO = TXO(tree: nat, token: nat, utxo: UTXO, spent: bool, counted: bool)

  /** The unspent outputs of a token that the filter lets through, in order. */
  function Unspent(txos: seq<TXO>, token: nat): seq<TXO> {
    if txos == [] then []
    else
      var last := txos[|txos| - 1];
      Unspent(txos[..|txos| - 1], token) + if last.token == token && !last.spent && last.counted then [last] else []
  }

  /** An output is among them exactly if it has the token, is not spent and passes the filter, and
      as often as it was received. */
  lemma {:induction false} UnspentIs(txos: seq<TXO>, token: nat, txo: TXO)
    ensures multiset(Unspent(txos, token))[txo]
         == if txo.token == token && !txo.spent && txo.counted then multiset(txos)[txo] else 0
    ensures txo in Unspent(txos, token) <==> txo in txos && txo.token == token && !txo.spent && txo.counted
  {
    if txos != [] {
      var n := |txos| - 1;
      UnspentIs(txos[..n], token, txo);
      Counted(txos[..n], txos[n], txo);
      assert txos == txos[..n] + [txos[n]];
      var before := Unspent(txos[..n], token);
      if txos[n].token == token && !txos[n].spent && txos[n].counted {
        Counted(before, txos[n], txo);
      } else {
        assert before + [] == before;
      }
    }
  }

  lemma {:induction false} Counted(txos: seq<TXO>, last: TXO, txo: TXO)
    ensures multiset(txos + [last])[txo] == multiset(txos)[txo] + if txo == last then 1 else 0
    ensures txo in txos + [last] <==> txo in txos || txo == last
  {
  }

  /** Those of one tree. */
  function OfTree(txos: seq<TXO>, tree: nat): seq<UTXO> {
    if txos == [] then []
    else
      var last := txos[|txos| - 1];
      OfTree(txos[..|txos| - 1], tree) + if last.tree == tree then [last.utxo] else []
  }

  function TotalValue(txos: seq<TXO>): nat {
    if txos == [] then 0 else TotalValue(txos[..|txos| - 1]) + txos[|txos| - 1].utxo.value
  }

  function EntryOf(utxos: seq<UTXO>): Option<TreeBalance> {
    if utxos == [] then None else Some(TreeBalance(CalculateTotalSpend(utxos), utxos))
  }

  ghost predicate EntryAt(trees: Balances, txos: seq<TXO>, tree: nat) {
    (if tree < |trees| then trees[tree] else None) == EntryOf(OfTree(txos, tree))
  }

  /** The sparse array has, for each tree, its UTXOs in order and their sum. */
  ghost predicate ByTree(trees: Balances, txos: seq<TXO>) {
    forall t :: EntryAt(trees, txos, t)
  }

  ghost predicate DistinctIds(txos: seq<TXO>) {
    forall i, j :: 0 <= i < j < |txos| ==>
      txos[i].utxo.txid != txos[j].utxo.txid || txos[i].utxo.position != txos[j].utxo.position
  }

  /** `getTokenBalancesByTxidVersion`, the entry of one token. */
  method GetTokenBalance(txos: seq<TXO>, token: nat) returns (balance: nat, unspent: seq<TXO>)
    ensures unspent == Unspent(txos, token) && balance == TotalValue(unspent)
  {
    balance, unspent := 0, [];
    for i := 0 to |txos|
      invariant unspent == Unspent(txos[..i], token) && balance == TotalValue(unspent)
    {
      assert txos[..i + 1][..i] == txos[..i];
      var txo := txos[i];
      if txo.token == token && !txo.spent && txo.counted {
        assert (unspent + [txo])[..|unspent|] == unspent;
        unspent := unspent + [txo];
        balance := balance + txo.utxo.value;
      }
    }
    assert txos[..|txos|] == txos;
  }

  /** `getTotalBalancesByTreeNumber`, the array of one token. */
  method GetTotalBalancesByTreeNumber(txos: seq<TXO>) returns (trees: Balances)
    ensures ByTree(trees, txos)
  {
    trees := [];
    for i := 0 to |txos|
      invariant ByTree(trees, txos[..i])
    {
      ghost var before := trees;
      var tree, utxo := txos[i].tree, txos[i].utxo;
      assert EntryAt(trees, txos[..i], tree);
      if tree >= |trees| {
        trees := trees + seq(tree + 1 - |trees|, _ => None);
      }
      if trees[tree].None? {
        assert OfTree(txos[..i], tree) == [] && [] + [utxo] == [utxo];
        trees := trees[tree := Some(TreeBalance(utxo.value, [utxo]))];
      } else {
        var entry := trees[tree].value;
        trees := trees[tree := Some(TreeBalance(entry.balance + utxo.value, entry.utxos + [utxo]))];
      }
      EntryAdded(before, trees, txos[..i], txos[i]);
      assert txos[..i + 1] == txos[..i] + [txos[i]];
    }
    assert txos[..|txos|] == txos;
  }

  lemma {:induction false} EntryAdded(before: Balances, after: Balances, txos: seq<TXO>, txo: TXO)
    requires ByTree(before, txos) && txo.tree < |after|
    requires forall t: nat :: t != txo.tree
                              ==> (if t < |after| then after[t] else None) == (if t < |before| then before[t] else None)
    requires after[txo.tree] == Some(TreeBalance(CalculateTotalSpend(OfTree(txos, txo.tree)) + txo.utxo.value,
      OfTree(txos, txo.tree) + [txo.utxo]))
    ensures ByTree(after, txos + [txo])
  {
    OfTreeMore(txos, txo, txo.tree);
    SpendAppended(OfTree(txos, txo.tree), [txo.utxo]);
    assert CalculateTotalSpend([txo.utxo]) == txo.utxo.value by {
      assert [txo.utxo][1..] == [];
    }
    forall t: nat
      ensures EntryAt(after, txos + [txo], t)
    {
      assert EntryAt(before, txos, t);
      OfTreeMore(txos, txo, t);
    }
  }

  lemma {:induction false} OfTreeMore(txos: seq<TXO>, txo: TXO, tree: nat)
    ensures OfTree(txos + [txo], tree)
         == if txo.tree == tree then OfTree(txos, tree) + [txo.utxo] else OfTree(txos, tree)
  {
    var more := txos + [txo];
    assert more[..|txos|] == txos && more[|txos|] == txo;
    assert OfTree(txos, tree) + [] == OfTree(txos, tree);
  }

  // ---------- what coin selection relies on ----------

  lemma {:induction false} TreeMembers(txos: seq<TXO>, tree: nat)
    ensures forall u :: u in OfTree(txos, tree)
                        ==> exists i :: 0 <= i < |txos| && txos[i].tree == tree && txos[i].utxo == u
    ensures DistinctIds(txos) ==> Unique(OfTree(txos, tree))
  {
    if txos != [] {
      var n := |txos| - 1;
      var rest, last := txos[..n], txos[n];
      TreeMembers(rest, tree);
      assert forall i :: 0 <= i < n ==> rest[i] == txos[i];
      assert DistinctIds(txos) ==> DistinctIds(rest);
      if last.tree != tree {
        assert OfTree(txos, tree) == OfTree(rest, tree) + [] == OfTree(rest, tree);
      } else {
        assert OfTree(txos, tree) == OfTree(rest, tree) + [last.utxo];
        if DistinctIds(txos) {
          assert txos == rest + [last];
          LastIsNew(rest, last, OfTree(rest, tree));
        }
      }
    }
  }

  /** The last of distinct outputs adds a UTXO not yet mentioned. */
  lemma {:induction false} LastIsNew(rest: seq<TXO>, last: TXO, before: seq<UTXO>)
    requires DistinctIds(rest + [last]) && Unique(before)
    requires forall u :: u in before ==> exists i :: 0 <= i < |rest| && rest[i].utxo == u
    ensures Unique(before + [last.utxo])
  {
    var all := rest + [last];
    assert [last.utxo][1..] == [];
    forall u | u in before
      ensures Unmentioned(Id(u), [last.utxo])
    {
      var i :| 0 <= i < |rest| && rest[i].utxo == u;
      assert all[i] == rest[i] && all[|rest|] == last && Id(all[i].utxo) != Id(all[|rest|].utxo);
    }
    UniqueParts(before, [last.utxo]);
  }

  lemma {:induction false} TreesMembers(trees: Balances, txos: seq<TXO>, from: nat)
    requires ByTree(trees, txos) && from <= |trees|
    ensures forall u :: u in UTXOsFrom(trees, from)
                        ==> exists i :: 0 <= i < |txos| && txos[i].tree >= from && txos[i].utxo == u
    ensures DistinctIds(txos) ==> Unique(UTXOsFrom(trees, from))
    decreases |trees| - from
  {
    if from < |trees| {
      TreesMembers(trees, txos, from + 1);
      TreeMembers(txos, from);
      assert EntryAt(trees, txos, from);
      var here, later := OfTree(txos, from), UTXOsFrom(trees, from + 1);
      assert UTXOsFrom(trees, from) == here + later;
      UniqueParts(here, later);
    }
  }

  /** The outputs in trees below `count`. */
  ghost function ValueBelow(txos: seq<TXO>, count: nat): nat {
    if txos == [] then 0
    else ValueBelow(txos[..|txos| - 1], count) + if txos[|txos| - 1].tree < count then txos[|txos| - 1].utxo.value
      else 0
  }

  lemma {:induction false} OneTreeMore(txos: seq<TXO>, tree: nat)
    ensures ValueBelow(txos, tree + 1) == ValueBelow(txos, tree) + CalculateTotalSpend(OfTree(txos, tree))
  {
    if txos != [] {
      var n := |txos| - 1;
      var last := txos[n];
      OneTreeMore(txos[..n], tree);
      SpendAppended(OfTree(txos[..n], tree), [last.utxo]);
      assert [last.utxo][1..] == [];
      assert CalculateTotalSpend([last.utxo]) == last.utxo.value;
      assert OfTree(txos[..n], tree) + [] == OfTree(txos[..n], tree);
    }
  }

  lemma {:induction false} BalanceBelow(trees: Balances, txos: seq<TXO>, count: nat)
    requires ByTree(trees, txos) && count <= |trees|
    ensures TokenBalanceAcrossAllTrees(trees[..count]) == ValueBelow(txos, count)
  {
    if count == 0 {
      NoneBelow(txos);
    } else {
      BalanceBelow(trees, txos, count - 1);
      OneTreeMore(txos, count - 1);
      assert EntryAt(trees, txos, count - 1);
      assert trees[..count][..count - 1] == trees[..count - 1];
    }
  }

  lemma {:induction false} NoneBelow(txos: seq<TXO>)
    ensures ValueBelow(txos, 0) == 0
  {
    if txos != [] {
      NoneBelow(txos[..|txos| - 1]);
    }
  }

  lemma {:induction false} AllBelow(txos: seq<TXO>, count: nat)
    requires forall i :: 0 <= i < |txos| ==> txos[i].tree < count
    ensures ValueBelow(txos, count) == TotalValue(txos)
  {
    if txos != [] {
      AllBelow(txos[..|txos| - 1], count);
    }
  }

  lemma {:induction false} TreesReach(trees: Balances, txos: seq<TXO>, i: nat)
    requires ByTree(trees, txos) && i < |txos|
    ensures txos[i].tree < |trees|
  {
    assert EntryAt(trees, txos, txos[i].tree);
    TreeHolds(txos, i);
  }

  lemma {:induction false} TreeHolds(txos: seq<TXO>, i: nat)
    requires i < |txos|
    ensures txos[i].utxo in OfTree(txos, txos[i].tree)
  {
    if i < |txos| - 1 {
      TreeHolds(txos[..|txos| - 1], i);
    }
  }

  /** Sorting by tree keeps every balance true, loses no value, and repeats no UTXO: exactly what
      the solvers' guarantees assume. */
  lemma {:induction false} ByTreeIsSound(trees: Balances, txos: seq<TXO>)
    requires ByTree(trees, txos)
    ensures BalancesOk(trees)
    ensures TokenBalanceAcrossAllTrees(trees) == TotalValue(txos)
    ensures DistinctIds(txos) ==> Unique(AllUTXOs(trees))
  {
    forall t | 0 <= t < |trees| && trees[t].Some?
      ensures BalanceOk(trees[t].value)
    {
      assert EntryAt(trees, txos, t);
    }
    TreesMembers(trees, txos, 0);
    BalanceBelow(trees, txos, |trees|);
    assert trees[..|trees|] == trees;
    forall i | 0 <= i < |txos|
      ensures txos[i].tree < |trees|
    {
      TreesReach(trees, txos, i);
    }
    AllBelow(txos, |trees|);
  }

  /** From the wallet's outputs to a transaction.  With distinct ids, a request of up to two outputs
      or of an unshield alone succeeds exactly when the unspent outputs of its token that pass the
      filter add up to it. */
  method SpendFromWallet(batch: TransactionBatch, txos: seq<TXO>, token: nat) returns (groups: Option<seq<Group>>)
    ensures groups.Some? ==> PaysAll(groups.value, OfToken(batch.outputs, token), batch.UnshieldTotal(token))
    ensures DistinctIds(Unspent(txos, token)) && IsCovered(OfToken(batch.outputs, token), batch.UnshieldData(token))
      ==> (groups.Some? <==> Total(OfToken(batch.outputs,
                             token)) + batch.UnshieldTotal(token) <= TotalValue(Unspent(txos, token)))
  {
    var balance, unspent := GetTokenBalance(txos, token);
    var trees := GetTotalBalancesByTreeNumber(unspent);
    ByTreeIsSound(trees, unspent);
    groups := batch.GenerateValidSpendingSolutionGroups(token, trees);
  }
}

/** Facts about the rows, the eligible list and the greedy weight trim of one distribution. */
module CoinbaseTrim {
  import opened Sums
  import opened StableSorting
  import opened Apportionment
  import opened CoinbaseSplit

  // ----- Lists of positions -----

  lemma {:induction false} IncreasingIsDistinct(s: seq<nat>)
    requires forall i, j :: 0 <= i < j < |s| ==> s[i] < s[j]
    ensures Distinct(s)
  {
  }

  /** Re-ordering a list by a sort keeps exactly its members. */
  lemma {:induction false} SortedPickMembers(s: seq<nat>, keys: seq<int>)
    requires |keys| == |s|
    ensures var r := Pick(s, SortPositions(keys));
            && (forall x :: x in r <==> x in s)
            && (Distinct(s) ==> Distinct(r))
  {
    var p := SortPositions(keys);
    var r := Pick(s, p);
    SortIsStableSort(keys);
    forall x | x in s
      ensures x in r
    {
      var k :| 0 <= k < |s| && s[k] == x;
      assert k in p;
      var i :| 0 <= i < |p| && p[i] == k;
      assert r[i] == x;
    }
    forall x | x in r
      ensures x in s
    {
      var i :| 0 <= i < |r| && r[i] == x;
      assert s[p[i]] == x;
    }
    if Distinct(s) {
      PickDistinct(s, p);
    }
  }

  ghost predicate Eligible(rows: seq<Row>, minPayout: int, k: nat) {
    k < |rows| && rows[k].Target() >= minPayout
  }

  lemma {:induction false} EligibleListFacts(rows: seq<Row>, minPayout: int)
    ensures var r := EligibleList(rows, minPayout);
            && Distinct(r)
            && (forall k: nat :: k in r <==> Eligible(rows, minPayout, k))
  {
    var found := EligibleUpTo(rows, minPayout, |rows|);
    IncreasingIsDistinct(found);
    SortedPickMembers(found, Negated(Pick(Targets(rows), found)));
    forall k: nat
      ensures k in found <==> Eligible(rows, minPayout, k)
    {
    }
  }

  /** Largest target first. */
  lemma {:induction false} EligibleListSorted(rows: seq<Row>, minPayout: int, a: nat, b: nat)
    requires a < b < |EligibleList(rows, minPayout)|
    ensures var r := EligibleList(rows, minPayout);
            rows[r[a]].Target() >= rows[r[b]].Target()
  {
    var found := EligibleUpTo(rows, minPayout, |rows|);
    var keys := Negated(Pick(Targets(rows), found));
    SortIsStableSort(keys);
    var p := SortPositions(keys);
    assert Before(keys, p[a], p[b]);
  }

  lemma {:induction false} WorkingDistinct(rows: seq<Row>, idx: seq<nat>)
    requires forall i :: 0 <= i < |idx| ==> idx[i] < |rows|
    requires Distinct(idx)
    ensures Distinct(Working(rows, idx))
  {
    if |idx| != 0 {
      var n := |idx| - 1;
      WorkingDistinct(rows, idx[..n]);
      var before := Working(rows, idx[..n]);
      forall i | 0 <= i < |before|
        ensures before[i] != idx[n]
      {
        assert before[i] in idx[..n];
      }
    }
  }

  lemma {:induction false} InCreditDistinct(rows: seq<Row>, idx: seq<nat>)
    requires forall i :: 0 <= i < |idx| ==> idx[i] < |rows|
    requires Distinct(idx)
    ensures Distinct(InCredit(rows, idx))
  {
    if |idx| != 0 {
      var n := |idx| - 1;
      InCreditDistinct(rows, idx[..n]);
      var before := InCredit(rows, idx[..n]);
      forall i | 0 <= i < |before|
        ensures before[i] != idx[n]
      {
        assert before[i] in idx[..n];
      }
    }
  }

  lemma InCreditSnoc(rows: seq<Row>, idx: seq<nat>, k: nat, found: seq<nat>)
    requires k < |rows| && (forall i :: 0 <= i < |idx| ==> idx[i] < |rows|) && found == InCredit(rows, idx)
    ensures InCredit(rows, idx + [k]) == if rows[k].balanceOld > 0 then found + [k] else found
  {
    assert (idx + [k])[..|idx|] == idx;
  }

  // ----- The greedy trim -----

  /** Every miner in the list is either kept or trimmed, and never both. */
  lemma {:induction false} TrimPartitions(order: seq<nat>, weights: seq<nat>, fixedWeight: int, limit: int)
    requires forall i :: 0 <= i < |order| ==> order[i] < |weights|
    requires Distinct(order)
    ensures var t := GreedyTrim(order, weights, fixedWeight, limit);
            && Distinct(t.kept) && Distinct(t.trimmed)
            && (forall k :: k in t.kept ==> k !in t.trimmed)
            && (forall k :: k in order <==> k in t.kept || k in t.trimmed)
  {
    if |order| != 0 {
      var n := |order| - 1;
      TrimPartitions(order[..n], weights, fixedWeight, limit);
      assert order == order[..n] + [order[n]];
      assert order[n] !in order[..n];
    }
  }

  lemma {:induction false} TrimUsesWeights(order: seq<nat>, weights: seq<nat>, fixedWeight: int, limit: int)
    requires forall i :: 0 <= i < |order| ==> order[i] < |weights|
    ensures var t := GreedyTrim(order, weights, fixedWeight, limit);
            && t.used == fixedWeight + Sum(Pick(weights, t.kept))
            && fixedWeight <= t.used
            && (fixedWeight <= limit ==> t.used <= limit)
            && (fixedWeight > limit ==> t.kept == [])
  {
    if |order| != 0 {
      var n := |order| - 1;
      TrimUsesWeights(order[..n], weights, fixedWeight, limit);
      var before := GreedyTrim(order[..n], weights, fixedWeight, limit);
      var k := order[n];
      if before.used + weights[k] <= limit {
        assert Pick(weights, before.kept + [k]) == Pick(weights, before.kept) + [weights[k]];
        SumConcat(Pick(weights, before.kept), [weights[k]]);
        assert [weights[k] as int][..0] == [];
        assert Sum([weights[k]]) == weights[k];
      }
    }
  }

  /**
   * The kept set is maximal, and a miner is only ever trimmed in favour of a lower-ranked one
   * when its output is strictly heavier.
   */
  lemma {:induction false} TrimIsMaximal(order: seq<nat>, weights: seq<nat>, fixedWeight: int, limit: int)
    requires forall i :: 0 <= i < |order| ==> order[i] < |weights|
    requires Distinct(order)
    ensures var t := GreedyTrim(order, weights, fixedWeight, limit);
            && (forall k :: k in t.trimmed ==> t.used + weights[k] > limit)
            && (forall a, b :: 0 <= a < b < |order| && order[a] in t.trimmed && order[b] in t.kept ==>
                  weights[order[a]] > weights[order[b]])
  {
    if |order| != 0 {
      var n := |order| - 1;
      var k := order[n];
      var before := GreedyTrim(order[..n], weights, fixedWeight, limit);
      var t := GreedyTrim(order, weights, fixedWeight, limit);
      TrimIsMaximal(order[..n], weights, fixedWeight, limit);
      TrimPartitions(order[..n], weights, fixedWeight, limit);
      assert k !in order[..n];
      forall a, b | 0 <= a < b < |order| && order[a] in t.trimmed && order[b] in t.kept
        ensures weights[order[a]] > weights[order[b]]
      {
        assert order[a] == order[..n][a] && order[a] != k;
        assert order[a] in before.trimmed;
        if b < n {
          assert order[..n][b] in before.kept;
        }
      }
    }
  }

  /** Row j comes before row k: a larger target, or an equal one further in front. */
  ghost predicate RanksBefore(rows: seq<Row>, j: nat, k: nat) {
    j < |rows| && k < |rows| &&
    (rows[j].Target() > rows[k].Target() || (rows[j].Target() == rows[k].Target() && j < k))
  }

  /** The weights of the kept rows that come before row k. */
  ghost function WeightsBefore(rows: seq<Row>, kept: seq<nat>, weightOf: Address -> nat, k: nat): (r: seq<int>)
    ensures |r| == |rows|
  {
    seq(|rows|, j requires 0 <= j < |rows| =>
      if j in kept && RanksBefore(rows, j, k) then weightOf(rows[j].address) else 0)
  }

  /** The list of eligible rows is in that order. */
  lemma {:induction false} EligibleListRanked(rows: seq<Row>, minPayout: int, a: nat, b: nat)
    requires a < b < |EligibleList(rows, minPayout)|
    ensures RanksBefore(rows, EligibleList(rows, minPayout)[a], EligibleList(rows, minPayout)[b])
  {
    var found := EligibleUpTo(rows, minPayout, |rows|);
    var keys := Negated(Pick(Targets(rows), found));
    SortIsStableSort(keys);
    var p := SortPositions(keys);
    assert Before(keys, p[a], p[b]);
  }

  /** A kept list grows along the order: what a prefix keeps is what the whole keeps of it, in front. */
  lemma {:induction false} KeptOfPrefix(order: seq<nat>, weights: seq<nat>, fixedWeight: int, limit: int, n: nat)
    requires n <= |order| && (forall i :: 0 <= i < |order| ==> order[i] < |weights|) && Distinct(order)
    ensures forall k :: k in GreedyTrim(order[..n], weights, fixedWeight, limit).kept <==>
              k in GreedyTrim(order, weights, fixedWeight, limit).kept && k in order[..n]
    decreases |order|
  {
    if n < |order| {
      var m := |order| - 1;
      KeptOfPrefix(order[..m], weights, fixedWeight, limit, n);
      assert order[..m][..n] == order[..n];
      TrimPartitions(order[..m], weights, fixedWeight, limit);
      forall k | k in order[..n] ensures k != order[m] {
        var i :| 0 <= i < n && order[i] == k;
      }
    } else {
      assert order[..n] == order;
      TrimPartitions(order, weights, fixedWeight, limit);
    }
  }

  /** Element n of the order is kept exactly if it fits beside what was kept before it. */
  lemma {:induction false} KeptIfItFits(order: seq<nat>, weights: seq<nat>, fixedWeight: int, limit: int, n: nat)
    requires n < |order| && (forall i :: 0 <= i < |order| ==> order[i] < |weights|) && Distinct(order)
    ensures order[n] in GreedyTrim(order, weights, fixedWeight, limit).kept <==>
              GreedyTrim(order[..n], weights, fixedWeight, limit).used + weights[order[n]] <= limit
  {
    KeptOfPrefix(order, weights, fixedWeight, limit, n + 1);
    var before := GreedyTrim(order[..n], weights, fixedWeight, limit);
    TrimPartitions(order[..n], weights, fixedWeight, limit);
    assert order[..n + 1][..n] == order[..n] && order[..n + 1][n] == order[n];
    assert order[n] !in order[..n];
    assert order[n] in order[..n + 1];
  }

  lemma {:induction false} PlacedWeights(w: seq<nat>, kept: seq<nat>, at: seq<int>)
    requires Distinct(kept) && (forall i :: 0 <= i < |kept| ==> kept[i] < |w|) && |at| == |w|
    requires forall k :: 0 <= k < |w| ==> at[k] == if k in kept then w[k] else 0
    ensures Sum(Pick(w, kept)) == Sum(at)
  {
    var picked: seq<int> := Pick(w, kept);
    SumZeros(|w|);
    SumAddAll(Zeros(|w|), kept, picked);
    forall k: nat | k < |w|
      ensures AddAll(Zeros(|w|), kept, picked)[k] == at[k]
    {
      if k in kept {
        var i :| 0 <= i < |kept| && kept[i] == k;
        AddAllAt(Zeros(|w|), kept, picked, i);
      } else {
        AddAllElsewhere(Zeros(|w|), kept, picked, k);
      }
    }
    assert AddAll(Zeros(|w|), kept, picked) == at;
  }

  /** The order goes from row to row as they rank. */
  ghost predicate Ranked(rows: seq<Row>, order: seq<nat>) {
    && Distinct(order) && (forall i :: 0 <= i < |order| ==> order[i] < |rows|)
    && forall a, b :: 0 <= a < b < |order| ==> RanksBefore(rows, order[a], order[b])
  }

  lemma {:induction false} EligibleListIsRanked(rows: seq<Row>, minPayout: int)
    ensures Ranked(rows, EligibleList(rows, minPayout))
  {
    var order := EligibleList(rows, minPayout);
    EligibleListFacts(rows, minPayout);
    forall a, b | 0 <= a < b < |order| ensures RanksBefore(rows, order[a], order[b]) {
      EligibleListRanked(rows, minPayout, a, b);
    }
  }

  lemma FrontRanks(rows: seq<Row>, order: seq<nat>, n: nat, k: nat)
    requires Ranked(rows, order) && n < |order| && k in order
    ensures k in order[..n] <==> RanksBefore(rows, k, order[n])
  {
    var j: nat :| j < |order| && order[j] == k;
    if j < n {
      assert order[..n][j] == k && RanksBefore(rows, order[j], order[n]);
    } else if n < j {
      assert RanksBefore(rows, order[n], order[j]);
    }
  }

  /** The rows before element n of the order that are kept are those that its prefix keeps. */
  lemma {:induction false} KeptBefore(rows: seq<Row>, order: seq<nat>, weightOf: Address -> nat, w: seq<nat>,
                                      fixedWeight: int, limit: int, n: nat, kept: seq<nat>)
    requires Ranked(rows, order) && n < |order| && w == WeightsOf(rows, weightOf)
    requires kept == GreedyTrim(order, w, fixedWeight, limit).kept
    ensures GreedyTrim(order[..n], w, fixedWeight, limit).used ==
              fixedWeight + Sum(WeightsBefore(rows, kept, weightOf, order[n]))
  {
    var front := GreedyTrim(order[..n], w, fixedWeight, limit).kept;
    TrimPartitions(order, w, fixedWeight, limit);
    TrimPartitions(order[..n], w, fixedWeight, limit);
    KeptOfPrefix(order, w, fixedWeight, limit, n);
    TrimUsesWeights(order[..n], w, fixedWeight, limit);
    forall k: nat | k < |rows|
      ensures k in front <==> k in kept && RanksBefore(rows, k, order[n])
    {
      if k in kept { FrontRanks(rows, order, n, k); }
    }
    PlacedWeights(w, front, WeightsBefore(rows, kept, weightOf, order[n]));
  }

  lemma {:induction false} KeptOfRanked(rows: seq<Row>, order: seq<nat>, weightOf: Address -> nat, w: seq<nat>,
                                        fixedWeight: int, limit: int, k: nat, t: Trim)
    requires Ranked(rows, order) && k in order && w == WeightsOf(rows, weightOf)
    requires t == GreedyTrim(order, w, fixedWeight, limit)
    ensures var fits := fixedWeight + Sum(WeightsBefore(rows, t.kept, weightOf, k)) + w[k] <= limit;
            (k in t.kept <==> fits) && (k in t.trimmed <==> !fits)
  {
    TrimPartitions(order, w, fixedWeight, limit);
    var n: nat :| n < |order| && order[n] == k;
    KeptIfItFits(order, w, fixedWeight, limit, n);
    KeptBefore(rows, order, weightOf, w, fixedWeight, limit, n, t.kept);
  }

  /** What the fee and bonus outputs and the frame weigh. */
  ghost function FixedPart(i: Input, weightOf: Address -> nat): int {
    328 + 188 + (if i.FeeSats() != 0 then weightOf(i.feeAddress) else 0)
    + (if i.BonusSats() != 0 then weightOf(i.finderAddress) else 0)
  }

  lemma FixedPartIs(i: Input, weightOf: Address -> nat)
    ensures FixedPart(i, weightOf) == FixedWeight(i, weightOf)
  {
  }

  /**
   * Exactly who is kept: going from the largest target down, whoever is at least due the minimum payout
   * and still fits, 200 below the budget, beside the fixed part and everyone kept before.
   */
  lemma {:induction false} KeptIff(i: Input, rows: seq<Row>, weightOf: Address -> nat, k: nat)
    requires k < |rows|
    ensures var t := Trimming(i, rows, weightOf);
            var budget := if i.coinbaseWeightBudget > 0 then i.coinbaseWeightBudget else 50000;
            var due := rows[k].Target() >= 546 && rows[k].Target() >= i.minPayoutSats;
            var fits := FixedPart(i, weightOf) + Sum(WeightsBefore(rows, t.kept, weightOf, k))
              + weightOf(rows[k].address) <= budget - 200;
            (k in t.kept <==> due && fits) && (k in t.trimmed <==> due && !fits)
  {
    var order, w := EligibleList(rows, i.MinPayout()), WeightsOf(rows, weightOf);
    var fixedWeight, limit := FixedWeight(i, weightOf), i.Budget() - BUDGET_SAFETY_MARGIN_WU;
    FixedPartIs(i, weightOf);
    EligibleListFacts(rows, i.MinPayout());
    assert Eligible(rows, i.MinPayout(), k) <==> rows[k].Target() >= 546 && rows[k].Target() >= i.minPayoutSats;
    if k in order {
      EligibleListIsRanked(rows, i.MinPayout());
      KeptOfRanked(rows, order, weightOf, w, fixedWeight, limit, k, Trimming(i, rows, weightOf));
    } else {
      TrimPartitions(order, w, fixedWeight, limit);
    }
  }

  /**
   * The trim of a whole distribution. Kept outputs and fixed weight stay 200 WU below the budget
   * whenever the fixed weight alone does; no trimmed miner would still fit; and a trimmed miner
   * with a larger target than a kept one has a heavier output.
   */
  lemma {:induction false} TrimRespectsBudget(i: Input, rows: seq<Row>, weightOf: Address -> nat)
    ensures var t := Trimming(i, rows, weightOf);
            var w := WeightsOf(rows, weightOf);
            var limit := (if i.coinbaseWeightBudget > 0 then i.coinbaseWeightBudget else 50000) - 200;
            var total := FixedWeight(i, weightOf) + Sum(Pick(w, t.kept));
            && (FixedWeight(i, weightOf) <= limit ==> total <= limit)
            && (FixedWeight(i, weightOf) > limit ==> t.kept == [])
            && (forall k :: k in t.trimmed ==> total + w[k] > limit)
            && (forall a, b :: a in t.trimmed && b in t.kept && rows[a].Target() > rows[b].Target() ==>
                  w[a] > w[b])
  {
    var order := EligibleList(rows, i.MinPayout());
    var w := WeightsOf(rows, weightOf);
    var limit := i.Budget() - BUDGET_SAFETY_MARGIN_WU;
    EligibleListFacts(rows, i.MinPayout());
    TrimUsesWeights(order, w, FixedWeight(i, weightOf), limit);
    TrimIsMaximal(order, w, FixedWeight(i, weightOf), limit);
    var t := Trimming(i, rows, weightOf);
    forall a, b | a in t.trimmed && b in t.kept && rows[a].Target() > rows[b].Target()
      ensures w[a] > w[b]
    {
      HeavierWhenPassedOver(i, rows, weightOf, a, b);
    }
  }

  lemma {:induction false} HeavierWhenPassedOver(i: Input, rows: seq<Row>, weightOf: Address -> nat, a: nat, b: nat)
    requires a in Trimming(i, rows, weightOf).trimmed && b in Trimming(i, rows, weightOf).kept
    requires rows[a].Target() > rows[b].Target()
    ensures WeightsOf(rows, weightOf)[a] > WeightsOf(rows, weightOf)[b]
  {
    var order := EligibleList(rows, i.MinPayout());
    EligibleListFacts(rows, i.MinPayout());
    var x, y := PassedOver(order, WeightsOf(rows, weightOf), FixedWeight(i, weightOf),
                           i.Budget() - BUDGET_SAFETY_MARGIN_WU, a, b);
    if y < x {
      EligibleListSorted(rows, i.MinPayout(), y, x);
    }
  }

  /** Where a trimmed and a kept miner stand in the list. */
  lemma {:induction false} PassedOver(order: seq<nat>, weights: seq<nat>, fixedWeight: int, limit: int, a: nat, b: nat)
      returns (x: nat, y: nat)
    requires Distinct(order) && forall i :: 0 <= i < |order| ==> order[i] < |weights|
    requires a in GreedyTrim(order, weights, fixedWeight, limit).trimmed
               && b in GreedyTrim(order, weights, fixedWeight, limit).kept
    ensures x < |order| && y < |order| && order[x] == a && order[y] == b && x != y
    ensures x < y ==> weights[a] > weights[b]
  {
    TrimIsMaximal(order, weights, fixedWeight, limit);
    TrimPartitions(order, weights, fixedWeight, limit);
    assert a in order && b in order;
    x :| 0 <= x < |order| && order[x] == a;
    y :| 0 <= y < |order| && order[y] == b;
  }

  lemma {:induction false} TrimmingFacts(i: Input, rows: seq<Row>, weightOf: Address -> nat)
    ensures var t := Trimming(i, rows, weightOf);
            && Distinct(t.kept) && Distinct(t.trimmed)
            && (forall k :: k in t.kept ==> k !in t.trimmed)
            && (forall k: nat :: k in t.kept || k in t.trimmed <==> Eligible(rows, i.MinPayout(), k))
  {
    EligibleListFacts(rows, i.MinPayout());
    TrimPartitions(EligibleList(rows, i.MinPayout()), WeightsOf(rows, weightOf), FixedWeight(i, weightOf),
                   i.Budget() - BUDGET_SAFETY_MARGIN_WU);
  }

  // ----- The rows -----

  /** The pending rows are exactly the non-zero balances of addresses without an entry in shares. */
  lemma {:induction false} PendingRowsFacts(shares: Entries<nat>, balances: Entries<int>)
    requires IsMap(balances)
    ensures var p := PendingRows(shares, balances);
            && (forall k :: 0 <= k < |p| ==> !Has(shares, p[k].address) && Has(balances, p[k].address))
            && (forall k :: 0 <= k < |p| ==> p[k].balanceOld == GetOrZero(balances, p[k].address))
            && (forall j, k :: 0 <= j < k < |p| ==> p[j].address != p[k].address)
            && (forall a :: Has(balances, a) && !Has(shares, a) && GetOrZero(balances, a) != 0 ==>
                  exists k :: 0 <= k < |p| && p[k].address == a)
  {
    if |balances| != 0 {
      var n := |balances| - 1;
      var head := balances[..n];
      var (a, b) := balances[n];
      assert IsMap(head);
      PendingRowsFacts(shares, head);
      var before := PendingRows(shares, head);
      var p := PendingRows(shares, balances);
      assert !Has(head, a) by {
        assert forall j :: 0 <= j < n ==> head[j].0 == balances[j].0;
      }
      forall x | x != a
        ensures Has(head, x) <==> Has(balances, x)
        ensures GetOrZero(head, x) == GetOrZero(balances, x)
      {
        if Has(head, x) {
          var j :| 0 <= j < |head| && head[j].0 == x;
          assert balances[j].0 == x;
        }
        if Has(balances, x) {
          var j :| 0 <= j < |balances| && balances[j].0 == x;
          assert head[j].0 == x;
        }
      }
      assert Has(balances, a) by { assert balances[n].0 == a; }
      forall x | Has(balances, x) && !Has(shares, x) && GetOrZero(balances, x) != 0
        ensures exists k :: 0 <= k < |p| && p[k].address == x
      {
        if x == a {
          assert p[|p| - 1].address == a;
        } else {
          var k :| 0 <= k < |before| && before[k].address == x;
          assert p[k].address == x;
        }
      }
    }
  }

  lemma {:induction false} GetOrZeroMissing(m: Entries<int>, a: Address)
    ensures !Has(m, a) ==> GetOrZero(m, a) == 0
  {
    if |m| != 0 {
      GetOrZeroMissing(m[..|m| - 1], a);
      if Has(m[..|m| - 1], a) {
        var j :| 0 <= j < |m| - 1 && m[..|m| - 1][j].0 == a;
        assert m[j].0 == a;
      }
      assert m[|m| - 1].0 == a ==> Has(m, a);
    }
  }

  /** The rows carry the ledger: one row per address, its old balance the one in `balances`. */
  lemma {:induction false} RowsCarryBalances(i: Input)
    requires i.Valid() && i.TotalShares() > 0
    ensures var rows := Rows(i);
            && (forall k :: 0 <= k < |rows| ==> rows[k].balanceOld == GetOrZero(i.balances, rows[k].address))
            && (forall j, k :: 0 <= j < k < |rows| ==> rows[j].address != rows[k].address)
            && (forall a :: GetOrZero(i.balances, a) != 0 ==> exists k :: 0 <= k < |rows| && rows[k].address == a)
  {
    RowsCarry(i);
    RowsApart(i);
    forall a | GetOrZero(i.balances, a) != 0
      ensures exists k :: 0 <= k < |Rows(i)| && Rows(i)[k].address == a
    {
      var k := RowOfBalance(i, a);
    }
  }

  lemma {:induction false} RowsCarry(i: Input)
    requires i.Valid() && i.TotalShares() > 0
    ensures forall k :: 0 <= k < |Rows(i)| ==> Rows(i)[k].balanceOld == GetOrZero(i.balances, Rows(i)[k].address)
  {
    PendingRowsFacts(i.addressShares, i.balances);
  }

  lemma {:induction false} RowsApart(i: Input)
    requires i.Valid() && i.TotalShares() > 0
    ensures forall j, k :: 0 <= j < k < |Rows(i)| ==> Rows(i)[j].address != Rows(i)[k].address
  {
    PendingRowsFacts(i.addressShares, i.balances);
    TwoPartsApart(i.addressShares, ActiveRows(i), PendingRows(i.addressShares, i.balances));
  }

  lemma TwoPartsApart(shares: Entries<nat>, active: seq<Row>, pending: seq<Row>)
    requires IsMap(shares) && |active| == |shares|
    requires forall k :: 0 <= k < |active| ==> active[k].address == shares[k].0
    requires forall k :: 0 <= k < |pending| ==> !Has(shares, pending[k].address)
    requires forall j, k :: 0 <= j < k < |pending| ==> pending[j].address != pending[k].address
    ensures forall j, k :: 0 <= j < k < |active + pending| ==>
              (active + pending)[j].address != (active + pending)[k].address
  {
    forall j, k | 0 <= j < |active| && 0 <= k < |pending|
      ensures active[j].address != pending[k].address
    {
      assert Has(shares, shares[j].0);
    }
  }

  lemma {:induction false} RowOfBalance(i: Input, a: Address) returns (k: nat)
    requires i.Valid() && i.TotalShares() > 0 && GetOrZero(i.balances, a) != 0
    ensures k < |Rows(i)| && Rows(i)[k].address == a
  {
    var active, pending := ActiveRows(i), PendingRows(i.addressShares, i.balances);
    PendingRowsFacts(i.addressShares, i.balances);
    GetOrZeroMissing(i.balances, a);
    if Has(i.addressShares, a) {
      k :| 0 <= k < |i.addressShares| && i.addressShares[k].0 == a;
      assert Rows(i)[k] == active[k];
    } else {
      var m :| 0 <= m < |pending| && pending[m].address == a;
      k := |active| + m;
    }
  }

  lemma {:induction false} FairOfRows(i: Input)
    requires i.TotalShares() > 0
    ensures FairOf(Rows(i)) ==
              Floors(i.RewardForMiners(), i.Shares(), i.TotalShares())
                + Zeros(|PendingRows(i.addressShares, i.balances)|)
    ensures forall k :: 0 <= k < |Rows(i)| && Rows(i)[k].shares == 0 ==> Rows(i)[k].rawFair == 0
  {
    var active, pending := ActiveRows(i), PendingRows(i.addressShares, i.balances);
    var rows := Rows(i);
    forall k: nat | |active| <= k < |rows|
      ensures Workless(rows[k])
    {
      PendingRowsWorkless(i.addressShares, i.balances, k - |active|);
    }
    forall k: nat | k < |active|
      ensures rows[k].rawFair == i.RewardForMiners() * i.Shares()[k] / i.TotalShares()
                && rows[k].shares == i.Shares()[k]
    {
    }
  }

  /** Fair shares never exceed what the miners may get, and miss it by less than a sat per miner. */
  lemma {:induction false} FairSharesFacts(i: Input)
    requires i.TotalShares() > 0
    ensures i.RewardForMiners() - |i.addressShares| < Sum(FairOf(Rows(i))) <= i.RewardForMiners()
    ensures i.RewardForMiners() >= 0 ==> forall k :: 0 <= k < |Rows(i)| ==> 0 <= Rows(i)[k].rawFair
  {
    var fair := Floors(i.RewardForMiners(), i.Shares(), i.TotalShares());
    var n := |PendingRows(i.addressShares, i.balances)|;
    FairOfRows(i);
    FloorsLoseLessThanOneEach(i.RewardForMiners(), i.Shares());
    SumConcat(fair, Zeros(n));
    SumZeros(n);
    if i.RewardForMiners() >= 0 {
      FloorsNonNegative(i.RewardForMiners(), i.Shares(), i.TotalShares());
      forall k: nat | k < |Rows(i)|
        ensures 0 <= Rows(i)[k].rawFair
      {
        assert FairOf(Rows(i))[k] == (fair + Zeros(n))[k];
      }
    }
  }

  ghost predicate Workless(r: Row) {
    r.shares == 0 && r.rawFair == 0 && r.balanceOld != 0
  }

  lemma {:induction false} PendingRowsWorkless(shares: Entries<nat>, balances: Entries<int>, k: nat)
    requires k < |PendingRows(shares, balances)|
    ensures Workless(PendingRows(shares, balances)[k])
  {
    var n := |balances| - 1;
    if k < |PendingRows(shares, balances[..n])| {
      PendingRowsWorkless(shares, balances[..n], k);
    }
  }
}

/**
 * Concrete inputs: three that reach the fallbacks which comments in the code call impossible, one
 * whose solvency cut leaves dust, and one on which a fee above 100 % over-emits.
 */
module CoinbaseWitnesses {
  import opened Sums
  import opened StableSorting
  import opened Apportionment
  import opened CoinbaseSplit
  import opened CoinbaseTrim
  import opened CoinbaseGuarantees
  import opened CoinbaseFallbacks
  import opened CoinbaseDust

  // ----- The clamp residual -----

  function Light(): Address -> nat { a => 124 }

  function ThreeCredits(): Input {
    Input([("a", 1), ("b", 1), ("c", 1)], [("a", 10), ("b", 10), ("c", 10)], 3001, 0.0, "", 0, false, 0, 0, "")
  }

  lemma ThreeAreAMap(i: Input)
    requires i == ThreeCredits()
    ensures i.Valid()
  {
    assert "a" != "b" && "b" != "c" && "a" != "c";
  }

  lemma ThreeRows(i: Input)
    requires i == ThreeCredits()
    ensures i.TotalShares() == 3 && i.RewardForMiners() == 3001 && i.MinPayout() == 546
    ensures Rows(i) == [Row("a", 1, 1000, 10), Row("b", 1, 1000, 10), Row("c", 1, 1000, 10)]
    ensures FixedWeight(i, Light()) == 516 && i.Budget() == 50000
  {
    SumThree(i.Shares());
    ThreeBalances(i.balances);
    ThreeActive(i, i.addressShares, i.balances);
  }

  lemma ThreeActive(i: Input, shares: Entries<nat>, balances: Entries<int>)
    requires i.addressShares == shares == [("a", 1), ("b", 1), ("c", 1)]
    requires i.balances == balances == [("a", 10), ("b", 10), ("c", 10)]
    requires GetOrZero(balances, "a") == 10 && GetOrZero(balances, "b") == 10 && GetOrZero(balances, "c") == 10
    requires i.TotalShares() == 3 && i.RewardForMiners() == 3001
    ensures Rows(i) == [Row("a", 1, 1000, 10), Row("b", 1, 1000, 10), Row("c", 1, 1000, 10)]
  {
    assert shares[0].0 == "a" && shares[1].0 == "b" && shares[2].0 == "c";
    NoPending(shares, balances);
    assert PendingRows(shares, balances) == [];
  }

  lemma SumThree(s: seq<int>)
    requires |s| == 3
    ensures Sum(s) == s[0] + s[1] + s[2]
  {
    SumConcat([s[0]], [s[1]]);
    SumConcat([s[0], s[1]], [s[2]]);
    SumOne(s[0]);
    SumOne(s[1]);
    SumOne(s[2]);
    assert [s[0]] + [s[1]] == [s[0], s[1]];
    assert [s[0], s[1]] + [s[2]] == s;
  }

  lemma ThreeBalances(m: Entries<int>)
    requires m == [("a", 10), ("b", 10), ("c", 10)]
    ensures GetOrZero(m, "a") == 10 && GetOrZero(m, "b") == 10 && GetOrZero(m, "c") == 10
  {
    var two := [("a", 10), ("b", 10)];
    var one := [("a", 10)];
    assert m[..2] == two && two[..1] == one;
    assert GetOrZero(one, "a") == 10;
    assert GetOrZero(two, "b") == 10 && GetOrZero(two, "a") == 10;
  }

  lemma {:induction false} NoPending(shares: Entries<nat>, balances: Entries<int>)
    requires forall k :: 0 <= k < |balances| ==> Has(shares, balances[k].0)
    ensures PendingRows(shares, balances) == []
  {
    if |balances| != 0 {
      NoPending(shares, balances[..|balances| - 1]);
    }
  }

  // ----- Evaluating small lists -----

  function FirstN(n: nat): (r: seq<nat>)
    ensures |r| == n
  {
    seq<nat>(n, k => k)
  }

  lemma {:induction false} SortedAlready(keys: seq<int>)
    requires forall i, j :: 0 <= i < j < |keys| ==> keys[i] <= keys[j]
    ensures SortPositions(keys) == FirstN(|keys|)
  {
    if |keys| != 0 {
      var n := |keys| - 1;
      SortedAlready(keys[..n]);
      assert FirstN(n + 1) == FirstN(n) + [n];
    }
  }

  lemma {:induction false} PickFirstN<T>(s: seq<T>)
    ensures Pick(s, FirstN(|s|)) == s
  {
  }

  lemma {:induction false} AllEligible(rows: seq<Row>, minPayout: int, n: nat)
    requires n <= |rows| && forall k :: 0 <= k < |rows| ==> rows[k].Target() >= minPayout
    ensures EligibleUpTo(rows, minPayout, n) == FirstN(n)
  {
    if n != 0 {
      AllEligible(rows, minPayout, n - 1);
      assert FirstN(n) == FirstN(n - 1) + [n - 1];
    }
  }

  /** Rows already in descending order of target, all eligible, are listed as they stand. */
  lemma {:induction false} EligibleAsTheyStand(rows: seq<Row>, minPayout: int)
    requires forall k :: 0 <= k < |rows| ==> rows[k].Target() >= minPayout
    requires forall j, k :: 0 <= j < k < |rows| ==> rows[j].Target() >= rows[k].Target()
    ensures EligibleList(rows, minPayout) == FirstN(|rows|)
  {
    AllEligible(rows, minPayout, |rows|);
    PickFirstN(Targets(rows));
    SortedAlready(Negated(Targets(rows)));
    PickFirstN(FirstN(|rows|));
  }

  ghost predicate AllLight(weights: seq<nat>) {
    forall k :: 0 <= k < |weights| ==> weights[k] <= 124
  }

  lemma {:induction false} EverythingFits(order: seq<nat>, weights: seq<nat>, fixedWeight: int, limit: int)
    requires AllLight(weights) && forall i :: 0 <= i < |order| ==> order[i] < |weights|
    requires fixedWeight + 124 * |order| <= limit
    ensures GreedyTrim(order, weights, fixedWeight, limit).kept == order
    ensures GreedyTrim(order, weights, fixedWeight, limit).trimmed == []
    ensures GreedyTrim(order, weights, fixedWeight, limit).used <= fixedWeight + 124 * |order|
  {
    if |order| != 0 {
      var init, k := order[..|order| - 1], order[|order| - 1];
      assert init + [k] == order;
      EverythingFits(init, weights, fixedWeight, limit);
      assert weights[k] <= 124;
      TrimStep(order, init, k, weights, fixedWeight, limit);
    }
  }

  lemma TrimStep(order: seq<nat>, init: seq<nat>, k: nat, weights: seq<nat>, fixedWeight: int, limit: int)
    requires |order| != 0 && init == order[..|order| - 1] && k == order[|order| - 1]
    requires forall i :: 0 <= i < |order| ==> order[i] < |weights|
    ensures var before := GreedyTrim(init, weights, fixedWeight, limit);
            GreedyTrim(order, weights, fixedWeight, limit) ==
              if before.used + weights[k] <= limit
              then Trim(before.kept + [k], before.trimmed, before.used + weights[k])
              else before.(trimmed := before.trimmed + [k])
  {
  }

  lemma PayEveryone(rows: seq<Row>, t: Trim)
    requires t.kept == FirstN(|rows|)
    ensures KeptPay(rows, t) == Targets(rows)
  {
    KeptPayFacts(rows, t);
    forall k: nat | k < |rows| ensures k in t.kept { assert t.kept[k] == k; }
  }

  ghost predicate AllOwed(rows: seq<Row>) {
    forall k :: 0 <= k < |rows| ==> rows[k].balanceOld > 0
  }

  lemma {:induction false} AllInCredit(rows: seq<Row>, idx: seq<nat>)
    requires AllOwed(rows) && forall i :: 0 <= i < |idx| ==> idx[i] < |rows|
    ensures InCredit(rows, idx) == idx
  {
    if |idx| != 0 {
      AllInCredit(rows, idx[..|idx| - 1]);
      assert idx[..|idx| - 1] + [idx[|idx| - 1]] == idx;
    }
  }

  lemma {:induction false} EveryoneClaims(rows: seq<Row>, all: seq<nat>)
    requires AllOwed(rows) && all == FirstN(|rows|)
    requires forall j, k :: 0 <= j < k < |rows| ==> CreditsOf(rows)[j] <= CreditsOf(rows)[k]
    ensures Credits(rows, all) == CreditsOf(rows)
  {
    AllInCredit(rows, all);
    PickFirstN(CreditsOf(rows));
    SortedAlready(CreditsOf(rows));
    PickFirstN(all);
  }

  lemma {:induction false} ThreeClaimers(rows: seq<Row>)
    requires rows == [Row("a", 1, 1000, 10), Row("b", 1, 1000, 10), Row("c", 1, 1000, 10)]
    ensures Credits(rows, FirstN(3)) == [10, 10, 10]
  {
    assert CreditsOf(rows) == [10, 10, 10];
    EveryoneClaims(rows, FirstN(3));
  }

  lemma NothingToHandOn(i: Input, rows: seq<Row>, t: Trim)
    requires WellFormedTrim(rows, t) && t.trimmed == []
    ensures ToppedUp(i, rows, t) == KeptPay(rows, t)
  {
    assert Pick(Targets(rows), []) == [];
  }

  lemma ThreeToppedUp(i: Input, rows: seq<Row>, t: Trim)
    requires WellFormedTrim(rows, t) && t.kept == FirstN(3) && t.trimmed == []
    requires rows == [Row("a", 1, 1000, 10), Row("b", 1, 1000, 10), Row("c", 1, 1000, 10)]
    ensures Sum(ToppedUp(i, rows, t)) == 3030
  {
    NothingToHandOn(i, rows, t);
    PayEveryone(rows, t);
    ThreeTargets(rows);
  }

  lemma ThreeTargets(rows: seq<Row>)
    requires rows == [Row("a", 1, 1000, 10), Row("b", 1, 1000, 10), Row("c", 1, 1000, 10)]
    ensures Sum(Targets(rows)) == 3030
  {
    SumThree(Targets(rows));
  }

  lemma TwentyNine(credits: seq<int>)
    requires credits == [10, 10, 10]
    ensures LastCannotBear(29, credits)
  {
    ClampResidualWitness();
    CapClosesGapIff(29, credits);
  }

  lemma ThreeKept(i: Input, rows: seq<Row>, t: Trim)
    requires i.MinPayout() == 546 && FixedWeight(i, Light()) == 516 && i.Budget() == 50000
    requires rows == [Row("a", 1, 1000, 10), Row("b", 1, 1000, 10), Row("c", 1, 1000, 10)]
    requires t == Trimming(i, rows, Light())
    ensures t.kept == FirstN(3) && t.trimmed == []
  {
    EligibleAsTheyStand(rows, 546);
    EverythingFits(FirstN(3), WeightsOf(rows, Light()), 516, 49800);
  }

  lemma ThreeCannotClose(i: Input, rows: seq<Row>, t: Trim)
    requires WellFormedTrim(rows, t) && t.kept == FirstN(3) && t.trimmed == [] && i.RewardForMiners() == 3001
    requires rows == [Row("a", 1, 1000, 10), Row("b", 1, 1000, 10), Row("c", 1, 1000, 10)]
    ensures CapCannotClose(rows, t.kept, ToppedUp(i, rows, t), i.RewardForMiners())
  {
    ThreeToppedUp(i, rows, t);
    ThreeClaimers(rows);
    TwentyNine(Credits(rows, t.kept));
  }

  /**
   * Three miners of one share each, each owed 10 sats, share 3001 sats: the targets overshoot by
   * 29 of the 30 sats of credit, the last cut would be 11, and the whole block falls back.
   */
  lemma ClampResidualReached(i: Input)
    requires i == ThreeCredits()
    ensures i.Valid() && Settle(i, Light()).ClampResidual?
  {
    ThreeAreAMap(i);
    ThreeRows(i);
    ThreeFallBack(i, Rows(i));
  }

  lemma ThreeFallBack(i: Input, rows: seq<Row>)
    requires i.TotalShares() > 0 && i.RewardForMiners() == 3001 && rows == Rows(i)
    requires i.MinPayout() == 546 && FixedWeight(i, Light()) == 516 && i.Budget() == 50000
    requires rows == [Row("a", 1, 1000, 10), Row("b", 1, 1000, 10), Row("c", 1, 1000, 10)]
    ensures Settle(i, Light()).ClampResidual?
  {
    var t := Trimming(i, rows, Light());
    ClampResidualIff(i, Light());
    ThreeKept(i, rows, t);
    ThreeCannotClose(i, rows, t);
  }

  // ----- Insufficient credit, and the negative residuum -----

  /** Room for one output only: the miner in credit is trimmed and its whole target handed on. */
  function OneFits(suppress: bool): Input {
    Input([("a", 3), ("b", 1)], [("b", 100)], 2000, 0.0, "", 840, suppress, 0, 0, "")
  }

  lemma TwoAreAMap(i: Input, suppress: bool)
    requires i == OneFits(suppress)
    ensures i.Valid()
  {
    assert "a" != "b";
  }

  lemma TwoRows(i: Input, suppress: bool)
    requires i == OneFits(suppress)
    ensures i.TotalShares() == 4 && i.RewardForMiners() == 2000 && i.MinPayout() == 546
    ensures Rows(i) == [Row("a", 3, 1500, 0), Row("b", 1, 500, 100)]
    ensures FixedWeight(i, Light()) == 516 && i.Budget() == 840
  {
    SumConcat([3], [1]);
    SumOne(3);
    SumOne(1);
    assert i.Shares() == [3] + [1];
    assert Has(i.addressShares, "b") by { assert i.addressShares[1].0 == "b"; }
    NoPending(i.addressShares, i.balances);
    assert i.balances[..0] == [];
    assert GetOrZero(i.balances, "a") == 0;
  }

  lemma TrimSecond(i: Input, rows: seq<Row>)
    requires i.MinPayout() == 546 && FixedWeight(i, Light()) == 516 && i.Budget() == 840
    requires rows == [Row("a", 3, 1500, 0), Row("b", 1, 500, 100)]
    ensures Trimming(i, rows, Light()) == Trim([0], [1], 640)
  {
    EligibleAsTheyStand(rows, 546);
    var order: seq<nat> := [0, 1];
    assert FirstN(2) == order;
    var w := WeightsOf(rows, Light());
    assert w == [124, 124];
    OnlyOneFits(order, w);
  }

  lemma OnlyOneFits(order: seq<nat>, w: seq<nat>)
    requires order == [0, 1] && w == [124, 124]
    ensures GreedyTrim(order, w, 516, 640) == Trim([0], [1], 640)
  {
    var none: seq<nat> := [];
    var one: seq<nat> := [0];
    assert order[..1] == one && one[..0] == none;
    TrimStep(one, none, 0, w, 516, 640);
    TrimStep(order, one, 1, w, 516, 640);
  }

  lemma TrimmedSecond(rows: seq<Row>, t: Trim)
    requires rows == [Row("a", 3, 1500, 0), Row("b", 1, 500, 100)] && t == Trim([0], [1], 640)
    ensures WellFormedTrim(rows, t) && TrimmedTotal(rows, t) == 600
    ensures Sum(Pick(Targets(rows), t.kept)) == 1500 && KeptWorker(rows, t.kept)
    ensures Credits(rows, t.kept) == []
  {
    WorkingOne(rows, 1);
    SumOne(600);
    FirstKept(rows, t.kept);
    NoOneInCredit(rows, 0);
  }

  lemma FirstKept(rows: seq<Row>, kept: seq<nat>)
    requires rows == [Row("a", 3, 1500, 0), Row("b", 1, 500, 100)] && kept == [0]
    ensures Sum(Pick(Targets(rows), kept)) == 1500 && KeptWorker(rows, kept)
  {
    assert Pick(Targets(rows), kept) == [1500];
    SumOne(1500);
    assert 0 in kept && rows[0].shares > 0;
  }

  lemma WorkingOne(rows: seq<Row>, k: nat)
    requires k < |rows| && rows[k].shares > 0
    ensures Working(rows, [k]) == [k] && Pick(Targets(rows), [k]) == [rows[k].Target()]
  {
    var one: seq<nat> := [k];
    assert one[..0] == [];
    assert Working(rows, []) == [];
    assert Working(rows, one) == [] + [k];
  }

  lemma NoOneInCredit(rows: seq<Row>, k: nat)
    requires k < |rows| && rows[k].balanceOld <= 0
    ensures Credits(rows, [k]) == []
  {
    var one: seq<nat> := [k];
    assert one[..0] == [];
    assert InCredit(rows, one) == [];
    assert Claimers(rows, one) == [];
  }

  /** What the kept miner is promised, 1500 and the trimmed 600, and that no credit backs it. */
  lemma SecondTrimmed(i: Input, rows: seq<Row>, t: Trim)
    requires rows == [Row("a", 3, 1500, 0), Row("b", 1, 500, 100)] && t == Trim([0], [1], 640)
    ensures WellFormedTrim(rows, t) && TrimmedTotal(rows, t) == 600
    ensures Sum(Pick(Targets(rows), t.kept)) == 1500
    ensures SolvencyCap(rows, t.kept, ToppedUp(i, rows, t), 2000) ==
              if i.suppressMatchingDebits then Solvent(ToppedUp(i, rows, t)) else CreditShort
  {
    TrimmedSecond(rows, t);
    ToppedUpFacts(i, rows, t);
    NoCreditNoCap(rows, t.kept, ToppedUp(i, rows, t), 2000);
  }

  /** The kept miner gets the trimmed miner's 600 sats on top of its 1500, with no credit to cut. */
  lemma InsufficientCreditReached(i: Input)
    requires i == OneFits(false)
    ensures i.Valid() && Settle(i, Light()).InsufficientCredit?
  {
    TwoAreAMap(i, false);
    TwoRows(i, false);
    ShortOfCredit(i, Rows(i));
  }

  lemma ShortOfCredit(i: Input, rows: seq<Row>)
    requires i.TotalShares() > 0 && i.RewardForMiners() == 2000 && rows == Rows(i) && !i.suppressMatchingDebits
    requires i.MinPayout() == 546 && FixedWeight(i, Light()) == 516 && i.Budget() == 840
    requires rows == [Row("a", 3, 1500, 0), Row("b", 1, 500, 100)]
    ensures Settle(i, Light()).InsufficientCredit?
  {
    var t := Trimming(i, rows, Light());
    TrimSecond(i, rows);
    SecondTrimmed(i, rows, t);
    SettleRowsFallback(i, rows, t);
  }

  lemma NoCreditNoCap(rows: seq<Row>, kept: seq<nat>, pay: seq<int>, reward: int)
    requires |pay| == |rows| && forall k :: 0 <= k < |kept| ==> kept[k] < |rows|
    requires Credits(rows, kept) == []
    ensures SolvencyCap(rows, kept, pay, reward) == if Sum(pay) <= reward then Solvent(pay) else CreditShort
  {
  }

  /** The same block in suppress mode: 1500 for the kept miner and 600 for the fee exceed 2000. */
  lemma NegativeResiduumReached(i: Input)
    requires i == OneFits(true)
    ensures i.Valid() && Settle(i, Light()).NegativeResiduum?
  {
    TwoAreAMap(i, true);
    TwoRows(i, true);
    OverPromised(i, Rows(i));
  }

  lemma OverPromised(i: Input, rows: seq<Row>)
    requires i.TotalShares() > 0 && i.RewardForMiners() == 2000 && rows == Rows(i) && i.suppressMatchingDebits
    requires i.MinPayout() == 546 && FixedWeight(i, Light()) == 516 && i.Budget() == 840
    requires rows == [Row("a", 3, 1500, 0), Row("b", 1, 500, 100)]
    ensures Settle(i, Light()).NegativeResiduum?
  {
    var t := Trimming(i, rows, Light());
    TrimSecond(i, rows);
    SecondTrimmed(i, rows, t);
    NegativeResiduumRows(i, rows, t);
  }

  // ----- Dust after a cut -----

  /** A worker, a worker below the minimum, and a dormant credit: 1000 of the credit meets 1100 of reward. */
  function CutToDust(): Input {
    Input([("a", 10), ("c", 1)], [("b", 1000)], 1100, 0.0, "", 0, false, 0, 0, "")
  }

  function DustRows(): seq<Row> { [Row("a", 10, 1000, 0), Row("c", 1, 100, 0), Row("b", 0, 0, 1000)] }

  lemma CutToDustRows(i: Input)
    requires i == CutToDust()
    ensures i.TotalShares() == 11 && i.RewardForMiners() == 1100 && i.MinPayout() == 546
    ensures Rows(i) == DustRows()
    ensures FixedWeight(i, Light()) == 516 && i.Budget() == 50000
  {
    SumConcat([10], [1]);
    SumOne(10);
    SumOne(1);
    assert i.Shares() == [10] + [1];
    assert !Has(i.addressShares, "b") by {
      assert i.addressShares[0].0 == "a" && i.addressShares[1].0 == "c";
    }
    assert i.balances[..0] == [];
    assert PendingRows(i.addressShares, i.balances) == [Row("b", 0, 0, 1000)];
    assert GetOrZero(i.balances, "a") == 0 && GetOrZero(i.balances, "c") == 0;
  }

  lemma DustKept(i: Input, rows: seq<Row>, t: Trim)
    requires i.MinPayout() == 546 && FixedWeight(i, Light()) == 516 && i.Budget() == 50000
    requires rows == DustRows() && t == Trimming(i, rows, Light())
    ensures t.kept == [0, 2] && t.trimmed == []
  {
    var order: seq<nat> := [0, 2];
    DustEligible(rows, i.MinPayout(), order);
    EverythingFits(order, WeightsOf(rows, Light()), 516, 49800);
  }

  lemma EligibleNext(rows: seq<Row>, minPayout: int, n: nat, before: seq<nat>, m: nat, after: seq<nat>)
    requires n < |rows| && before == EligibleUpTo(rows, minPayout, n) && m == n + 1
    requires after == if rows[n].Target() >= minPayout then before + [n] else before
    ensures EligibleUpTo(rows, minPayout, m) == after
  {
  }

  lemma NoneEligible(rows: seq<Row>, minPayout: int, n: nat, none: seq<nat>)
    requires n == 0 && none == []
    ensures EligibleUpTo(rows, minPayout, n) == none
  {
  }

  lemma FirstAndThirdEligible(rows: seq<Row>, minPayout: int, n0: nat, n1: nat, n2: nat, n3: nat,
                              none: seq<nat>, first: seq<nat>, both: seq<nat>)
    requires n0 == 0 && n1 == n0 + 1 && n2 == n1 + 1 && n3 == n2 + 1 == |rows|
    requires rows[0].Target() >= minPayout && rows[1].Target() < minPayout && rows[2].Target() >= minPayout
    requires none == [] && first == none + [n0] && both == first + [n2]
    ensures EligibleUpTo(rows, minPayout, n3) == both
  {
    NoneEligible(rows, minPayout, n0, none);
    EligibleNext(rows, minPayout, n0, none, n1, first);
    EligibleNext(rows, minPayout, n1, first, n2, first);
    EligibleNext(rows, minPayout, n2, first, n3, both);
  }

  lemma DustFound(rows: seq<Row>, minPayout: int, n0: nat, n1: nat, n2: nat, found: seq<nat>)
    requires rows == DustRows() && minPayout == 546 && n0 == 0 && n1 == n0 + 1 && n2 == n1 + 1 && found == [n0, n2]
    ensures EligibleUpTo(rows, minPayout, |rows|) == found
  {
    var none: seq<nat> := [];
    var first: seq<nat> := [n0];
    FirstAndThirdEligible(rows, minPayout, n0, n1, n2, |rows|, none, first, found);
  }

  lemma DustEligible(rows: seq<Row>, minPayout: int, found: seq<nat>)
    requires rows == DustRows() && minPayout == 546 && found == [0, 2]
    ensures EligibleList(rows, minPayout) == found
  {
    DustFound(rows, minPayout, found[0], found[0] + 1, found[1], found);
    EqualTargetsStay(rows, found, minPayout);
  }

  lemma EqualTargetsStay(rows: seq<Row>, found: seq<nat>, minPayout: int)
    requires found == EligibleUpTo(rows, minPayout, |rows|)
    requires forall i, j :: 0 <= i < j < |found| ==> Targets(rows)[found[i]] == Targets(rows)[found[j]]
    ensures EligibleList(rows, minPayout) == found
  {
    SortedAlready(Negated(Pick(Targets(rows), found)));
    PickFirstN(found);
  }

  lemma DustPay(rows: seq<Row>, t: Trim)
    requires t.kept == [0, 2] && rows == DustRows()
    ensures KeptPay(rows, t) == [1000, 0, 1000] && Sum([1000, 0, 1000]) == 2000
  {
    KeptPayFacts(rows, t);
    SumThree([1000, 0, 1000]);
  }

  lemma CutThird(c: seq<nat>)
    requires c == [2]
    ensures AddAll([1000, 0, 1000], c, [-900]) == [1000, 0, 100]
  {
    assert c[..0] == [];
  }

  lemma DustCapped(i: Input, rows: seq<Row>, t: Trim)
    requires WellFormedTrim(rows, t) && t.kept == [0, 2] && t.trimmed == [] && rows == DustRows()
    ensures SolvencyCap(rows, t.kept, ToppedUp(i, rows, t), 1100) == Solvent([1000, 0, 100])
  {
    NothingToHandOn(i, rows, t);
    DustPay(rows, t);
    CappedToDust(rows, t.kept, ToppedUp(i, rows, t));
  }

  lemma CappedToDust(rows: seq<Row>, kept: seq<nat>, pay: seq<int>)
    requires rows == DustRows() && kept == [0, 2] && pay == [1000, 0, 1000] && Sum(pay) == 2000
    ensures SolvencyCap(rows, kept, pay, 1100) == Solvent([1000, 0, 100])
  {
    OneCredit(rows, kept);
    CutNineHundred([1000]);
    CutThird([2]);
  }

  lemma OneCredit(rows: seq<Row>, kept: seq<nat>)
    requires rows == DustRows() && kept == [0, 2]
    ensures Claimers(rows, kept) == [2] && Credits(rows, kept) == [1000]
  {
    SecondInCredit(rows, kept, 0, 2);
    SoleClaimer(rows, kept, 2);
  }

  lemma SecondInCredit(rows: seq<Row>, kept: seq<nat>, a: nat, b: nat)
    requires kept == [a, b] && a < |rows| && b < |rows| && rows[a].balanceOld <= 0 < rows[b].balanceOld
    ensures InCredit(rows, kept) == [b]
  {
    var none: seq<nat> := [];
    InCreditSnoc(rows, none, a, none);
    assert none + [a] == [a] && [a] + [b] == kept && none + [b] == [b];
    InCreditSnoc(rows, [a], b, none);
  }

  lemma SoleClaimer(rows: seq<Row>, kept: seq<nat>, k: nat)
    requires (forall i :: 0 <= i < |kept| ==> kept[i] < |rows|) && k < |rows| && InCredit(rows, kept) == [k]
    ensures Claimers(rows, kept) == [k] && Credits(rows, kept) == [rows[k].balanceOld]
  {
    var one: seq<nat> := [k];
    assert Pick(CreditsOf(rows), one) == [rows[k].balanceOld];
    SortedAlready([rows[k].balanceOld]);
    PickFirstN(one);
  }

  lemma CutNineHundred(credits: seq<int>)
    requires credits == [1000]
    ensures Sum(credits) == 1000 && Cuts(900, credits, 1) == [900] && Sum([900]) == 900 && Negated([900]) == [-900]
  {
    SumOne(1000);
    SumOne(900);
    assert credits[..0] == [];
  }

  /** The cut leaves the dormant miner an output of 100 sats, below the minimum of 546. */
  lemma DustAfterCut(i: Input)
    requires i == CutToDust()
    ensures i.Valid() && i.MinPayout() == 546
    ensures PaysOut(Distribution(i, Light()).payouts, "b", 100)
  {
    CutToDustRows(i);
    DustIsAMap(i);
    DustOutput(i, Rows(i));
  }

  lemma DustOutput(i: Input, rows: seq<Row>)
    requires i.TotalShares() > 0 && i.RewardForMiners() == 1100 && i.MinPayout() == 546 && !i.suppressMatchingDebits
    requires FixedWeight(i, Light()) == 516 && i.Budget() == 50000 && rows == Rows(i) && rows == DustRows()
    ensures PaysOut(Distribution(i, Light()).payouts, "b", 100)
  {
    DustSettles(i, rows);
    DustPaidOut(i, Settle(i, Light()));
  }

  /** Some output carries this amount to this address. */
  ghost predicate PaysOut(payouts: seq<Payout>, a: Address, sats: int) {
    exists j :: 0 <= j < |payouts| && payouts[j].address == a && payouts[j].sats == sats
  }

  lemma DustIsAMap(i: Input)
    requires i == CutToDust()
    ensures i.Valid()
  {
    assert "a" != "c";
  }

  lemma DustPaidOut(i: Input, o: Outcome)
    requires o.Settled? && o.WellFormed() && Distinct(o.trim.kept)
    requires o.rows == DustRows() && o.trim.kept == [0, 2] && o.pay == [1000, 0, 100]
    ensures PaysOut(Payouts(i, o), "b", 100)
  {
    KeptPaidOut(i, o, 2);
  }

  lemma {:induction false} KeptPaidOut(i: Input, o: Outcome, k: nat)
    requires o.WellFormed() && o.Settled? && Distinct(o.trim.kept) && k in o.trim.kept && o.pay[k] > 0
    ensures PaysOut(Payouts(i, o), o.rows[k].address, o.pay[k])
  {
    KeptIsPaid(i, o, k);
    var miners, fixed := MinersOf(i, o), FixedPayouts(i, o.feeBonus);
    var j :| 0 <= j < |miners| && miners[j] == PayoutOf(o.rows[k].address, o.pay[k], i.blockRewardSats);
    assert (fixed + miners)[|fixed| + j] == miners[j];
  }

  lemma DustSettles(i: Input, rows: seq<Row>)
    requires i.TotalShares() > 0 && i.RewardForMiners() == 1100 && i.MinPayout() == 546 && !i.suppressMatchingDebits
    requires FixedWeight(i, Light()) == 516 && i.Budget() == 50000 && rows == Rows(i) && rows == DustRows()
    ensures var o := Settle(i, Light());
            o.Settled? && o.rows == DustRows() && o.trim.kept == [0, 2] && o.pay == [1000, 0, 100]
  {
    var t := Trimming(i, rows, Light());
    DustKept(i, rows, t);
    TrimmingIsWellFormed(i, rows, Light());
    DustCapped(i, rows, t);
    SumThree([1000, 0, 100]);
    FinishedAsCut(i, rows, t);
    SettleOfRows(i, Light(), rows, t);
  }

  lemma FinishedAsCut(i: Input, rows: seq<Row>, t: Trim)
    requires WellFormedTrim(rows, t) && rows == DustRows() && i.RewardForMiners() == 1100 && !i.suppressMatchingDebits
    requires SolvencyCap(rows, t.kept, ToppedUp(i, rows, t), 1100) == Solvent([1000, 0, 100])
    requires Sum([1000, 0, 100]) == 1100
    ensures SettleRows(i, rows, t) == Settled(rows, t, [1000, 0, 100], 0)
  {
  }

  lemma SettleOfRows(i: Input, weightOf: Address -> nat, rows: seq<Row>, t: Trim)
    requires i.TotalShares() > 0 && rows == Rows(i) && t == Trimming(i, rows, weightOf)
    ensures Settle(i, weightOf) == SettleRows(i, rows, t)
  {
  }

  // ----- A fee above 100 % -----

  function DoubleFee(): Input {
    Input([("a", 1)], [("a", 5000)], 1000, 200.0, "f", 0, false, 0, 0, "")
  }

  lemma OneRow(i: Input)
    requires i == DoubleFee()
    ensures i.TotalShares() == 1 && i.FeeSats() == 2000 && i.RewardForMiners() == -1000 && i.MinPayout() == 546
    ensures Rows(i) == [Row("a", 1, -1000, 5000)]
    ensures FixedWeight(i, Light()) == 640 && i.Budget() == 50000
  {
    SumOne(1);
    assert i.Shares() == [1];
    assert i.feePercent / 100.0 * i.blockRewardSats as real == 2000.0;
    assert i.WantFee() == 2000;
    assert Has(i.addressShares, "a") by { assert i.addressShares[0].0 == "a"; }
    NoPending(i.addressShares, i.balances);
    assert i.balances[..0] == [];
  }

  lemma OneClaimer(rows: seq<Row>, one: seq<nat>)
    requires rows == [Row("a", 1, -1000, 5000)] && one == [0]
    ensures Credits(rows, one) == [5000] && Pick(Targets(rows), one) == [4000]
  {
    InCreditSnoc(rows, [], 0, []);
    assert [] + one == one;
    SoleClaimer(rows, one, 0);
  }

  lemma DoubleFeeSettles(i: Input, rows: seq<Row>, t: Trim)
    requires WellFormedTrim(rows, t) && t.kept == [0] && t.trimmed == [] && rows == [Row("a", 1, -1000, 5000)]
    requires i.RewardForMiners() == -1000 && !i.suppressMatchingDebits
    ensures SettleRows(i, rows, t).Settled?
  {
    OneClaimer(rows, t.kept);
    SumOne(4000);
    SumOne(5000);
    KeptPayFacts(rows, t);
    NothingToHandOn(i, rows, t);
    ToppedUpFacts(i, rows, t);
    var pay := ToppedUp(i, rows, t);
    BearableClaims(5000, [5000]);
    ClampShortIff(rows, t.kept, pay, -1000);
    SolvencyCapFacts(rows, t.kept, pay, -1000);
  }

  lemma DoubleFeeIsPaid(i: Input, rows: seq<Row>)
    requires i.TotalShares() == 1 && rows == [Row("a", 1, -1000, 5000)] && rows == Rows(i) && !i.suppressMatchingDebits
    requires i.RewardForMiners() == -1000 && i.MinPayout() == 546 && FixedWeight(i, Light()) == 640
               && i.Budget() == 50000
    ensures Settle(i, Light()).Settled?
  {
    var t := Trimming(i, rows, Light());
    DoubleFeeKept(i, rows, t);
    TrimmingIsWellFormed(i, rows, Light());
    DoubleFeeSettles(i, rows, t);
    SettleOfRows(i, Light(), rows, t);
  }

  lemma DoubleFeeKept(i: Input, rows: seq<Row>, t: Trim)
    requires rows == [Row("a", 1, -1000, 5000)] && t == Trimming(i, rows, Light())
    requires i.MinPayout() == 546 && FixedWeight(i, Light()) == 640 && i.Budget() == 50000
    ensures t.kept == [0] && t.trimmed == []
  {
    EligibleAsTheyStand(rows, 546);
    assert FirstN(1) == [0];
    EverythingFits([0], WeightsOf(rows, Light()), 640, 49800);
  }

  /** A fee of 200 % beside a miner whose credit absorbs the shortfall: 2000 sats out of 1000. */
  lemma FeeAboveRewardOverEmits(i: Input)
    requires i == DoubleFee()
    ensures i.Valid() && i.blockRewardSats == 1000 && TotalPaid(Distribution(i, Light()).payouts) > i.blockRewardSats
  {
    OneRow(i);
    DoubleFeeIsPaid(i, Rows(i));
    WithinRewardUnlessSettled(i, Light());
  }
}

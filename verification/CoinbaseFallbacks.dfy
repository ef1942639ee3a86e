/** When a distribution falls back: each of the three fallbacks by conditions on its input alone. */
module CoinbaseFallbacks {
  import opened Sums
  import opened StableSorting
  import opened Apportionment
  import opened CoinbaseSplit
  import opened CoinbaseTrim
  import opened CoinbaseGuarantees

  // ----- The clamp residual -----

  /** The claimers' credit covers the overshoot, but the last claimer cannot bear its remainder. */
  ghost predicate CapCannotClose(rows: seq<Row>, kept: seq<nat>, pay: seq<int>, reward: int)
    requires forall k :: 0 <= k < |kept| ==> kept[k] < |rows|
  {
    LastCannotBear(Sum(pay) - reward, Credits(rows, kept))
  }

  /**
   * The clamp-residual fallback is taken exactly when the claimers' credit covers the overshoot but
   * the last, largest claimer cannot bear what the other claimers' floors leave over.
   */
  lemma {:induction false} ClampResidualIff(i: Input, weightOf: Address -> nat)
    requires i.TotalShares() > 0
    ensures WellFormedTrim(Rows(i), Trimming(i, Rows(i), weightOf))
    ensures Settle(i, weightOf).ClampResidual? <==> var t := Trimming(i, Rows(i), weightOf);
              CapCannotClose(Rows(i), t.kept, ToppedUp(i, Rows(i), t), i.RewardForMiners())
  {
    TrimmingIsWellFormed(i, Rows(i), weightOf);
    ClampResidualRows(i, Rows(i), Trimming(i, Rows(i), weightOf));
  }

  lemma {:induction false} ClampResidualRows(i: Input, rows: seq<Row>, t: Trim)
    requires WellFormedTrim(rows, t)
    ensures SettleRows(i, rows, t).ClampResidual? <==>
              CapCannotClose(rows, t.kept, ToppedUp(i, rows, t), i.RewardForMiners())
  {
    SettleRowsClamp(i, rows, t);
    ClampShortIff(rows, t.kept, ToppedUp(i, rows, t), i.RewardForMiners());
  }

  lemma SettleRowsClamp(i: Input, rows: seq<Row>, t: Trim)
    requires WellFormedTrim(rows, t)
    ensures SettleRows(i, rows, t).ClampResidual? <==>
              SolvencyCap(rows, t.kept, ToppedUp(i, rows, t), i.RewardForMiners()).ClampShort?
  {
  }

  lemma {:induction false} ClampShortIff(rows: seq<Row>, kept: seq<nat>, pay: seq<int>, reward: int)
    requires |pay| == |rows| && Distinct(kept) && forall k :: 0 <= k < |kept| ==> kept[k] < |rows|
    ensures SolvencyCap(rows, kept, pay, reward).ClampShort? <==>
              CapCannotClose(rows, kept, pay, reward)
  {
    CreditsArePositive(rows, kept);
    ClampShortUnfold(rows, kept, pay, reward, Credits(rows, kept));
    CutsFallShortIff(Sum(pay) - reward, Credits(rows, kept));
  }

  ghost predicate CutsFallShort(overshoot: int, credits: seq<int>) {
    0 < overshoot <= Sum(credits) && |credits| > 0 && Sum(Cuts(overshoot, credits, |credits|)) < overshoot
  }

  lemma {:induction false} CutsFallShortIff(overshoot: int, credits: seq<int>)
    requires AllPositiveCredits(credits)
    ensures CutsFallShort(overshoot, credits) <==> LastCannotBear(overshoot, credits)
  {
    if Claims(overshoot, credits) {
      CapClosesGapIff(overshoot, credits);
      CutsWithinCredit(overshoot, credits);
    }
  }

  ghost predicate AllPositiveCredits(credits: seq<int>) {
    forall j :: 0 <= j < |credits| ==> credits[j] > 0
  }

  lemma {:induction false} CreditsArePositive(rows: seq<Row>, kept: seq<nat>)
    requires Distinct(kept) && forall k :: 0 <= k < |kept| ==> kept[k] < |rows|
    ensures |Credits(rows, kept)| == |Claimers(rows, kept)|
    ensures AllPositiveCredits(Credits(rows, kept))
  {
    ClaimersFacts(rows, kept);
  }

  lemma ClampShortUnfold(rows: seq<Row>, kept: seq<nat>, pay: seq<int>, reward: int, credits: seq<int>)
    requires |pay| == |rows| && forall k :: 0 <= k < |kept| ==> kept[k] < |rows|
    requires credits == Credits(rows, kept) && |credits| == |Claimers(rows, kept)|
    ensures SolvencyCap(rows, kept, pay, reward).ClampShort? <==> CutsFallShort(Sum(pay) - reward, credits)
  {
  }

  /** The last claimer is a largest one. */
  lemma {:induction false} LastClaimerIsLargest(rows: seq<Row>, kept: seq<nat>, j: nat)
    requires forall k :: 0 <= k < |kept| ==> kept[k] < |rows|
    requires j < |Credits(rows, kept)|
    ensures Credits(rows, kept)[j] <= Credits(rows, kept)[|Credits(rows, kept)| - 1]
  {
    var found := InCredit(rows, kept);
    var keys := Pick(CreditsOf(rows), found);
    var p := SortPositions(keys);
    SortIsStableSort(keys);
    if j < |p| - 1 {
      assert Before(keys, p[j], p[|p| - 1]);
    }
  }

  /** Conditions on the claims that can be read off without computing the cuts. */
  predicate Bearable(overshoot: int, credits: seq<int>) {
    var n, total := |credits|, Sum(credits);
    n <= 2 || overshoot == total || credits[n - 1] * (total - overshoot) >= (n - 1) * total
  }

  lemma {:induction false} BearableClaims(overshoot: int, credits: seq<int>)
    requires Bearable(overshoot, credits) && AllPositiveCredits(credits)
    ensures !LastCannotBear(overshoot, credits)
  {
    if Claims(overshoot, credits) {
      CapClosesGapWhen(overshoot, credits);
      CapClosesGapIff(overshoot, credits);
    }
  }

  /**
   * With one or two claimers, a full claim, or a big enough largest claimer, the cap never falls back,
   * whatever was trimmed.
   */
  lemma {:induction false} ClampResidualDeadWhen(i: Input, rows: seq<Row>, t: Trim, pay: seq<int>)
    requires WellFormedTrim(rows, t) && pay == ToppedUp(i, rows, t)
    requires Bearable(Sum(pay) - i.RewardForMiners(), Credits(rows, t.kept))
    ensures !SettleRows(i, rows, t).ClampResidual?
  {
    CreditsBear(rows, t.kept, pay, i.RewardForMiners());
    ClampShortIff(rows, t.kept, pay, i.RewardForMiners());
    SettleRowsClamp(i, rows, t);
  }

  lemma {:induction false} CreditsBear(rows: seq<Row>, kept: seq<nat>, pay: seq<int>, reward: int)
    requires Distinct(kept) && forall k :: 0 <= k < |kept| ==> kept[k] < |rows|
    requires Bearable(Sum(pay) - reward, Credits(rows, kept))
    ensures !CapCannotClose(rows, kept, pay, reward)
  {
    CreditsArePositive(rows, kept);
    BearableClaims(Sum(pay) - reward, Credits(rows, kept));
  }

  // ----- Too little credit -----

  /** Sum of positive balances. */
  function PositiveOf(rows: seq<Row>): (r: seq<int>)
    ensures |r| == |rows|
  {
    seq(|rows|, k requires 0 <= k < |rows| => if rows[k].balanceOld > 0 then rows[k].balanceOld else 0)
  }

  function DebtOf(rows: seq<Row>): (r: seq<int>)
    ensures |r| == |rows|
  {
    seq(|rows|, k requires 0 <= k < |rows| => if rows[k].balanceOld < 0 then -rows[k].balanceOld else 0)
  }

  /** Amounts placed at distinct positions of a zero list. */
  lemma {:induction false} PlacedAt(n: nat, idx: seq<nat>, amounts: seq<int>, k: nat, v: int)
    requires |idx| == |amounts| && k < n && Distinct(idx)
    requires forall i :: 0 <= i < |idx| ==> idx[i] < n
    requires forall i :: 0 <= i < |idx| && idx[i] == k ==> amounts[i] == v
    ensures AddAll(Zeros(n), idx, amounts)[k] == if k in idx then v else 0
  {
    if k in idx {
      var j :| 0 <= j < |idx| && idx[j] == k;
      AddAllAt(Zeros(n), idx, amounts, j);
    } else {
      AddAllElsewhere(Zeros(n), idx, amounts, k);
    }
  }

  lemma {:induction false} CreditsAreKeptCredits(rows: seq<Row>, kept: seq<nat>)
    requires forall i :: 0 <= i < |kept| ==> kept[i] < |rows|
    requires Distinct(kept)
    ensures Sum(Credits(rows, kept)) == Sum(Pick(PositiveOf(rows), kept))
  {
    var c, n := Claimers(rows, kept), |rows|;
    ClaimersFacts(rows, kept);
    SumZeros(n);
    SumAddAll(Zeros(n), c, Credits(rows, kept));
    SumAddAll(Zeros(n), kept, Pick(PositiveOf(rows), kept));
    forall k | 0 <= k < n
      ensures AddAll(Zeros(n), c, Credits(rows, kept))[k] == AddAll(Zeros(n), kept, Pick(PositiveOf(rows), kept))[k]
    {
      PlacedAt(n, c, Credits(rows, kept), k, rows[k].balanceOld);
      PlacedAt(n, kept, Pick(PositiveOf(rows), kept), k, PositiveOf(rows)[k]);
    }
    assert AddAll(Zeros(n), c, Credits(rows, kept)) == AddAll(Zeros(n), kept, Pick(PositiveOf(rows), kept));
  }

  lemma {:induction false} TargetsSplit(rows: seq<Row>, idx: seq<nat>)
    requires forall i :: 0 <= i < |idx| ==> idx[i] < |rows|
    ensures Sum(Pick(Targets(rows), idx)) == Sum(Pick(FairOf(rows), idx)) + Sum(Pick(CreditsOf(rows), idx))
    ensures Sum(Pick(CreditsOf(rows), idx)) == Sum(Pick(PositiveOf(rows), idx)) - Sum(Pick(DebtOf(rows), idx))
  {
    SumPointwise(Pick(FairOf(rows), idx), Pick(CreditsOf(rows), idx), Pick(Targets(rows), idx));
    SumPointwise(Pick(CreditsOf(rows), idx), Pick(DebtOf(rows), idx), Pick(PositiveOf(rows), idx));
  }

  /** The trimmed workers whose targets were handed on, if they were. */
  ghost function Moved(i: Input, rows: seq<Row>, t: Trim): (r: seq<nat>)
    requires WellFormedTrim(rows, t)
    ensures forall k :: 0 <= k < |r| ==> r[k] < |rows|
  {
    if HandsOn(i, rows, t) then Working(rows, t.trimmed) else []
  }

  /**
   * What the claimers' credit exceeds the overshoot by: fair shares that went to no one, plus the
   * debts of kept miners, less the net credit of the trimmed workers that was handed on.
   */
  lemma {:induction false} CreditBeyondOvershoot(i: Input, rows: seq<Row>, t: Trim)
    requires WellFormedTrim(rows, t)
    ensures var moved := Moved(i, rows, t);
            var overshoot := Sum(ToppedUp(i, rows, t)) - i.RewardForMiners();
            var unspentFair := i.RewardForMiners() - Sum(Pick(FairOf(rows), t.kept)) - Sum(Pick(FairOf(rows), moved));
            Sum(Credits(rows, t.kept)) - overshoot ==
              unspentFair + Sum(Pick(DebtOf(rows), t.kept)) - Sum(Pick(CreditsOf(rows), moved))
  {
    ToppedUpFacts(i, rows, t);
    CreditsAreKeptCredits(rows, t.kept);
    TargetsSplit(rows, t.kept);
    TargetsSplit(rows, Moved(i, rows, t));
  }

  /** The net credit of the trimmed workers that was handed on exceeds the unspent fair shares and kept debts. */
  ghost predicate CreditFallsShort(i: Input, rows: seq<Row>, t: Trim)
    requires WellFormedTrim(rows, t)
  {
    var moved := Moved(i, rows, t);
    var unspentFair := i.RewardForMiners() - Sum(Pick(FairOf(rows), t.kept)) - Sum(Pick(FairOf(rows), moved));
    Sum(Pick(CreditsOf(rows), moved)) > unspentFair + Sum(Pick(DebtOf(rows), t.kept))
  }

  /** The insufficient-credit fallback is taken exactly when the moved credit exceeds what can make up for it. */
  lemma {:induction false} InsufficientCreditIff(i: Input, weightOf: Address -> nat)
    requires i.TotalShares() > 0
    ensures var t := Trimming(i, Rows(i), weightOf);
            WellFormedTrim(Rows(i), t) && (Settle(i, weightOf).InsufficientCredit? <==> CreditFallsShort(i, Rows(i), t))
  {
    TrimmingIsWellFormed(i, Rows(i), weightOf);
    CreditShortIff(i, Rows(i), Trimming(i, Rows(i), weightOf));
    SettleRowsFallback(i, Rows(i), Trimming(i, Rows(i), weightOf));
  }

  lemma {:induction false} CreditShortIff(i: Input, rows: seq<Row>, t: Trim)
    requires WellFormedTrim(rows, t)
    ensures SolvencyCap(rows, t.kept, ToppedUp(i, rows, t), i.RewardForMiners()).CreditShort? <==>
              CreditFallsShort(i, rows, t)
  {
    CreditBeyondOvershoot(i, rows, t);
    CreditShortUnfold(rows, t.kept, ToppedUp(i, rows, t), i.RewardForMiners());
  }

  /** The cap's first guard, without its test for an overshoot, which then follows. */
  lemma {:induction false} CreditShortUnfold(rows: seq<Row>, kept: seq<nat>, pay: seq<int>, reward: int)
    requires |pay| == |rows| && Distinct(kept) && forall k :: 0 <= k < |kept| ==> kept[k] < |rows|
    ensures SolvencyCap(rows, kept, pay, reward).CreditShort? <==> Sum(Credits(rows, kept)) < Sum(pay) - reward
  {
    CreditsArePositive(rows, kept);
    SumNonNegative(Credits(rows, kept));
    assert |Claimers(rows, kept)| == 0 ==> Credits(rows, kept) == [];
  }

  lemma SettleRowsFallback(i: Input, rows: seq<Row>, t: Trim)
    requires WellFormedTrim(rows, t)
    ensures SettleRows(i, rows, t).InsufficientCredit? <==>
              SolvencyCap(rows, t.kept, ToppedUp(i, rows, t), i.RewardForMiners()).CreditShort?
  {
  }

  lemma {:induction false} FairSharesSuffice(i: Input, rows: seq<Row>, t: Trim)
    requires WellFormedTrim(rows, t)
    requires forall k :: 0 <= k < |rows| ==> 0 <= rows[k].rawFair
    ensures Sum(Pick(FairOf(rows), t.kept)) + Sum(Pick(FairOf(rows), Moved(i, rows, t))) <= Sum(FairOf(rows))
  {
    var moved := Moved(i, rows, t);
    WorkingDistinct(rows, t.trimmed);
    assert forall k :: k in t.kept ==> k !in moved;
    TwoPicksAtMost(FairOf(rows), t.kept, moved);
  }

  lemma {:induction false} TwoPicksAtMost(values: seq<int>, a: seq<nat>, b: seq<nat>)
    requires forall k :: 0 <= k < |values| ==> 0 <= values[k]
    requires Distinct(a) && Distinct(b) && forall k :: k in a ==> k !in b
    requires (forall k :: 0 <= k < |a| ==> a[k] < |values|) && forall k :: 0 <= k < |b| ==> b[k] < |values|
    ensures Sum(Pick(values, a)) + Sum(Pick(values, b)) <= Sum(values)
  {
    assert Pick(values, a + b) == Pick(values, a) + Pick(values, b);
    SumConcat(Pick(values, a), Pick(values, b));
    forall i, j | 0 <= i < j < |a + b| ensures (a + b)[i] != (a + b)[j] {
      if i < |a| <= j { assert a[i] in a && b[j - |a|] in b; }
    }
    SumPickAtMost(values, a + b);
  }

  /**
   * Unless the fee alone exceeds the reward: in matching-debit mode the fallback is dead as long as no
   * trimmed miner with shares has a positive old balance; in suppress mode it always is.
   */
  lemma {:induction false} CapIsFeasible(i: Input, weightOf: Address -> nat)
    requires i.TotalShares() > 0
    requires var rows := Rows(i);
             i.suppressMatchingDebits ||
             forall k :: k in Trimming(i, rows, weightOf).trimmed && rows[k].shares > 0 ==> rows[k].balanceOld <= 0
    ensures Settle(i, weightOf).InsufficientCredit? ==> i.FeeSats() > i.blockRewardSats
  {
    var rows := Rows(i);
    var t := Trimming(i, rows, weightOf);
    TrimmingIsWellFormed(i, rows, weightOf);
    InsufficientCreditIff(i, weightOf);
    FairSharesFacts(i);
    RewardForMinersSign(i);
    if i.FeeSats() <= i.blockRewardSats {
      FairSharesSuffice(i, rows, t);
    }
    SumNonNegative(Pick(DebtOf(rows), t.kept));
    MovedInDebt(i, rows, t);
  }

  lemma {:induction false} MovedInDebt(i: Input, rows: seq<Row>, t: Trim)
    requires WellFormedTrim(rows, t)
    requires i.suppressMatchingDebits ||
             forall k :: k in t.trimmed && rows[k].shares > 0 ==> rows[k].balanceOld <= 0
    ensures Sum(Pick(CreditsOf(rows), Moved(i, rows, t))) <= 0
  {
    var moved := Moved(i, rows, t);
    var credits := Pick(CreditsOf(rows), moved);
    SumZeros(|moved|);
    forall j | 0 <= j < |moved|
      ensures credits[j] <= Zeros(|moved|)[j]
    {
      assert moved[j] in t.trimmed;
    }
    SumBounds(credits, Zeros(|moved|));
  }

  // ----- The negative residuum -----

  /** What is promised to the fee no longer fits beside what the kept miners get. */
  ghost predicate PromisesTooMuch(i: Input, rows: seq<Row>, t: Trim)
    requires WellFormedTrim(rows, t)
  {
    var reward, targets := i.RewardForMiners(), Sum(Pick(Targets(rows), t.kept));
    && i.suppressMatchingDebits && TrimmedTotal(rows, t) > 0
    && (if targets < reward then targets else reward) + TrimmedTotal(rows, t) > reward
  }

  lemma {:induction false} NegativeResiduumRows(i: Input, rows: seq<Row>, t: Trim)
    requires WellFormedTrim(rows, t)
    requires SolvencyCap(rows, t.kept, ToppedUp(i, rows, t), i.RewardForMiners()).Solvent?
    ensures SettleRows(i, rows, t).NegativeResiduum? <==> PromisesTooMuch(i, rows, t)
  {
    ToppedUpFacts(i, rows, t);
    SolvencyCapFacts(rows, t.kept, ToppedUp(i, rows, t), i.RewardForMiners());
  }

  /**
   * The negative-residuum fallback is dead with matching debits. In suppress mode it is taken exactly
   * when the cap can close and the trimmed targets promised to the fee do not fit beside the miners.
   */
  lemma {:induction false} NegativeResiduumIff(i: Input, weightOf: Address -> nat)
    requires i.TotalShares() > 0
    ensures var t := Trimming(i, Rows(i), weightOf);
            && WellFormedTrim(Rows(i), t)
            && (Settle(i, weightOf).NegativeResiduum? <==>
                  CapCloses(i, Rows(i), t) && PromisesTooMuch(i, Rows(i), t))
  {
    TrimmingIsWellFormed(i, Rows(i), weightOf);
    SettledRowsIff(i, Rows(i), Trimming(i, Rows(i), weightOf));
  }

  /** The claimers' credit covers the overshoot, and the last of them can bear its part. */
  ghost predicate CapCloses(i: Input, rows: seq<Row>, t: Trim)
    requires WellFormedTrim(rows, t)
  {
    !CreditFallsShort(i, rows, t) && !CapCannotClose(rows, t.kept, ToppedUp(i, rows, t), i.RewardForMiners())
  }

  lemma {:induction false} CapClosesIff(i: Input, rows: seq<Row>, t: Trim)
    requires WellFormedTrim(rows, t)
    ensures SolvencyCap(rows, t.kept, ToppedUp(i, rows, t), i.RewardForMiners()).Solvent? <==> CapCloses(i, rows, t)
  {
    CreditShortIff(i, rows, t);
    ClampShortIff(rows, t.kept, ToppedUp(i, rows, t), i.RewardForMiners());
  }

  lemma {:induction false} SettledRowsIff(i: Input, rows: seq<Row>, t: Trim)
    requires WellFormedTrim(rows, t)
    ensures SettleRows(i, rows, t).Settled? <==> CapCloses(i, rows, t) && !PromisesTooMuch(i, rows, t)
    ensures SettleRows(i, rows, t).NegativeResiduum? <==> CapCloses(i, rows, t) && PromisesTooMuch(i, rows, t)
  {
    CapClosesIff(i, rows, t);
    var cap := SolvencyCap(rows, t.kept, ToppedUp(i, rows, t), i.RewardForMiners());
    if cap.Solvent? {
      NegativeResiduumRows(i, rows, t);
    }
    OutcomeOfCap(i, rows, t, cap);
  }

  lemma OutcomeOfCap(i: Input, rows: seq<Row>, t: Trim, cap: CapResult)
    requires WellFormedTrim(rows, t)
    requires cap == SolvencyCap(rows, t.kept, ToppedUp(i, rows, t), i.RewardForMiners())
    ensures cap.Solvent? <==> SettleRows(i, rows, t).Settled? || SettleRows(i, rows, t).NegativeResiduum?
  {
  }

  // ----- When miners are paid at all, and over-emission -----

  /** There is work, the cap closes, and no promise to the fee is too much. */
  ghost predicate MinersArePaid(i: Input, weightOf: Address -> nat) {
    i.TotalShares() > 0 &&
    var t := Trimming(i, Rows(i), weightOf);
    WellFormedTrim(Rows(i), t) && CapCloses(i, Rows(i), t) && !PromisesTooMuch(i, Rows(i), t)
  }

  /** A distribution settles on exactly the inputs `MinersArePaid` describes. */
  lemma {:induction false} SettledIff(i: Input, weightOf: Address -> nat)
    ensures Settle(i, weightOf).Settled? <==> MinersArePaid(i, weightOf)
  {
    if i.TotalShares() > 0 {
      TrimmingIsWellFormed(i, Rows(i), weightOf);
      SettledRowsIff(i, Rows(i), Trimming(i, Rows(i), weightOf));
    }
  }

  /**
   * The coinbase never claims more than the block reward, on every input: exactly unless the
   * configured fee alone exceeds the reward and no fallback keeps miner outputs from being built.
   */
  lemma {:induction false} NeverOverEmitsIff(i: Input, weightOf: Address -> nat)
    ensures TotalPaid(Distribution(i, weightOf).payouts) <= i.blockRewardSats
            <==> (i.FeeSats() <= i.blockRewardSats || !MinersArePaid(i, weightOf))
  {
    SettledIff(i, weightOf);
    WithinRewardUnlessSettled(i, weightOf);
  }
}

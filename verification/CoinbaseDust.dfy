/** When an output of a distribution is below the minimum payout. */
module CoinbaseDust {
  import opened Sums
  import opened Apportionment
  import opened CoinbaseSplit
  import opened CoinbaseTrim
  import opened CoinbaseGuarantees
  import opened CoinbaseFallbacks

  /** The row makes no output, or one that is large enough. */
  ghost predicate PayFine(pay: seq<int>, k: nat, x: int) {
    k < |pay| ==> pay[k] <= 0 || pay[k] >= x
  }

  ghost predicate AllFine(pay: seq<int>, idx: seq<nat>, x: int) {
    forall k: nat :: k in idx ==> PayFine(pay, k, x)
  }

  lemma {:induction false} MinerPayoutsAtLeastIff(rows: seq<Row>, pay: seq<int>, order: seq<nat>, reward: nat, x: int)
    requires |pay| == |rows| && forall i :: 0 <= i < |order| ==> order[i] < |rows|
    ensures AllAtLeast(MinerPayouts(rows, pay, order, reward), x) <==> AllFine(pay, order, x)
  {
    if |order| != 0 {
      var init, k := order[..|order| - 1], order[|order| - 1];
      MinerPayoutsAtLeastIff(rows, pay, init, reward, x);
      OneMoreRow(rows, pay, init, k, reward, x);
      assert init + [k] == order;
    }
  }

  lemma {:induction false} OneMoreRow(rows: seq<Row>, pay: seq<int>, init: seq<nat>, k: nat, reward: nat, x: int)
    requires |pay| == |rows| && (forall i :: 0 <= i < |init| ==> init[i] < |rows|) && k < |rows|
    ensures AllAtLeast(MinerPayouts(rows, pay, init + [k], reward), x) <==>
              AllAtLeast(MinerPayouts(rows, pay, init, reward), x) && PayFine(pay, k, x)
    ensures AllFine(pay, init + [k], x) <==> AllFine(pay, init, x) && PayFine(pay, k, x)
  {
    var before := MinerPayouts(rows, pay, init, reward);
    var out := PayoutOf(rows[k].address, pay[k], reward);
    assert (init + [k])[..|init|] == init;
    if AllAtLeast(before + [out], x) {
      assert (before + [out])[|before|] == out;
      forall j | 0 <= j < |before| ensures before[j].sats >= x { assert (before + [out])[j] == before[j]; }
    }
    if AllFine(pay, init + [k], x) {
      assert k in init + [k];
      forall m: nat | m in init ensures PayFine(pay, m, x) { assert m in init + [k]; }
    }
  }

  // ----- The payments of a settled distribution -----

  /** The j-th claimer is left with something, but less than x. */
  ghost predicate DustClaim(pay: seq<int>, c: seq<nat>, cuts: seq<int>, x: int, j: nat) {
    j < |c| && j < |cuts| && c[j] < |pay| && 0 < pay[c[j]] - cuts[j] < x
  }

  /** The payments overshoot the reward, and some claimer's cut leaves it less than x. */
  ghost predicate CutLeavesDust(rows: seq<Row>, kept: seq<nat>, pay: seq<int>, reward: int, x: int)
    requires forall k :: 0 <= k < |kept| ==> kept[k] < |rows|
  {
    var overshoot, credits := Sum(pay) - reward, Credits(rows, kept);
    0 < overshoot <= Sum(credits) &&
    exists j: nat :: DustClaim(pay, Claimers(rows, kept), Cuts(overshoot, credits, |credits|), x, j)
  }

  ghost predicate CutsToDust(i: Input, rows: seq<Row>, t: Trim)
    requires WellFormedTrim(rows, t)
  {
    CutLeavesDust(rows, t.kept, ToppedUp(i, rows, t), i.RewardForMiners(), i.MinPayout())
  }

  lemma {:induction false} UncutIsFine(i: Input, rows: seq<Row>, t: Trim)
    requires WellFormedTrim(rows, t) && SettleRows(i, rows, t).Settled?
    requires forall k: nat :: k in t.kept ==> Eligible(rows, i.MinPayout(), k)
    requires Sum(ToppedUp(i, rows, t)) <= i.RewardForMiners()
    ensures SettleRows(i, rows, t).WellFormed() && AllFine(SettleRows(i, rows, t).pay, t.kept, i.MinPayout())
  {
    var topped, pay := ToppedUp(i, rows, t), SettleRows(i, rows, t).pay;
    KeptClaimsFine(i, rows, t, topped);
    UncutPayGrows(i, rows, t, topped);
    forall k: nat | k in t.kept ensures PayFine(pay, k, i.MinPayout()) {}
  }

  lemma {:induction false} UncutPayGrows(i: Input, rows: seq<Row>, t: Trim, topped: seq<int>)
    requires WellFormedTrim(rows, t) && SettleRows(i, rows, t).Settled? && topped == ToppedUp(i, rows, t)
    requires Sum(topped) <= i.RewardForMiners()
    ensures var o := SettleRows(i, rows, t);
            o.WellFormed() && |o.pay| == |rows| && forall k :: 0 <= k < |rows| ==> o.pay[k] >= topped[k]
  {
    assert SolvencyCap(rows, t.kept, topped, i.RewardForMiners()) == Solvent(topped);
    if !i.suppressMatchingDebits {
      HandOutFacts(rows, t.kept, topped, i.RewardForMiners() - Sum(topped));
    }
  }

  /** After a cut the payments meet the reward, and nothing is left to hand out. */
  lemma {:induction false} CutIsFinal(i: Input, rows: seq<Row>, t: Trim, topped: seq<int>)
    requires WellFormedTrim(rows, t) && SettleRows(i, rows, t).Settled? && topped == ToppedUp(i, rows, t)
    requires Sum(topped) > i.RewardForMiners()
    ensures SolvencyCap(rows, t.kept, topped, i.RewardForMiners()).Solvent?
    ensures SettleRows(i, rows, t).WellFormed()
    ensures SettleRows(i, rows, t).pay == SolvencyCap(rows, t.kept, topped, i.RewardForMiners()).pay
    ensures Sum(SettleRows(i, rows, t).pay) == i.RewardForMiners()
  {
    SolvencyCapCuts(rows, t.kept, topped, i.RewardForMiners());
  }

  lemma {:induction false} CutFineIff(pay: seq<int>, kept: seq<nat>, c: seq<nat>, cuts: seq<int>, x: int)
    requires |cuts| == |c| && Distinct(c) && forall j :: 0 <= j < |c| ==> c[j] < |pay| && c[j] in kept
    requires forall k: nat :: k in kept ==> k < |pay| && pay[k] >= x
    ensures AllFine(AddAll(pay, c, Negated(cuts)), kept, x) <==> !exists j: nat :: DustClaim(pay, c, cuts, x, j)
  {
    var r := AddAll(pay, c, Negated(cuts));
    forall j: nat | j < |c| ensures r[c[j]] == pay[c[j]] - cuts[j] {
      AddAllAt(pay, c, Negated(cuts), j);
    }
    if j: nat :| DustClaim(pay, c, cuts, x, j) {
      assert !PayFine(r, c[j], x);
    } else {
      forall k: nat | k in kept ensures PayFine(r, k, x) {
        if k in c {
          var j: nat :| j < |c| && c[j] == k;
          assert !DustClaim(pay, c, cuts, x, j);
        } else {
          AddAllElsewhere(pay, c, Negated(cuts), k);
        }
      }
    }
  }

  lemma {:induction false} CappedFineIff(rows: seq<Row>, kept: seq<nat>, pay: seq<int>, reward: int, x: int)
    requires |pay| == |rows| && Distinct(kept) && forall k :: 0 <= k < |kept| ==> kept[k] < |rows|
    requires Sum(pay) > reward && SolvencyCap(rows, kept, pay, reward).Solvent?
    requires forall k: nat :: k in kept ==> pay[k] >= x
    ensures AllFine(SolvencyCap(rows, kept, pay, reward).pay, kept, x) <==> !CutLeavesDust(rows, kept, pay, reward, x)
  {
    var capped, c, cuts := CapPay(rows, kept, pay, reward);
    CutFineIff(pay, kept, c, cuts, x);
    DustAsCut(rows, kept, pay, reward, x, c, cuts);
  }

  /** What a cap that cuts leaves. */
  lemma {:induction false} CapPay(rows: seq<Row>, kept: seq<nat>, pay: seq<int>, reward: int)
      returns (capped: seq<int>, c: seq<nat>, cuts: seq<int>)
    requires |pay| == |rows| && Distinct(kept) && forall k :: 0 <= k < |kept| ==> kept[k] < |rows|
    requires Sum(pay) > reward && SolvencyCap(rows, kept, pay, reward).Solvent?
    ensures c == Claimers(rows, kept) && Distinct(c) && |cuts| == |c| && |c| == |Credits(rows, kept)|
    ensures forall j :: 0 <= j < |c| ==> c[j] < |pay| && c[j] in kept
    ensures 0 < Sum(pay) - reward <= Sum(Credits(rows, kept))
              && cuts == Cuts(Sum(pay) - reward, Credits(rows, kept), |c|)
    ensures capped == SolvencyCap(rows, kept, pay, reward).pay == AddAll(pay, c, Negated(cuts))
  {
    CreditsArePositive(rows, kept);
    CapTaken(rows, kept, pay, reward);
    c, cuts := CapCuts(rows, kept, pay, Sum(pay) - reward);
    ClaimersAreKept(rows, kept, c);
    capped := AddAll(pay, c, Negated(cuts));
  }

  lemma CapTaken(rows: seq<Row>, kept: seq<nat>, pay: seq<int>, reward: int)
    requires |pay| == |rows| && forall k :: 0 <= k < |kept| ==> kept[k] < |rows|
    requires |Credits(rows, kept)| == |Claimers(rows, kept)|
    requires Sum(pay) > reward && SolvencyCap(rows, kept, pay, reward).Solvent?
    ensures 0 < Sum(pay) - reward <= Sum(Credits(rows, kept)) && |Claimers(rows, kept)| > 0
    ensures var c := Claimers(rows, kept);
            SolvencyCap(rows, kept, pay, reward).pay ==
              AddAll(pay, c, Negated(Cuts(Sum(pay) - reward, Credits(rows, kept), |c|)))
  {
  }

  lemma DustAsCut(rows: seq<Row>, kept: seq<nat>, pay: seq<int>, reward: int, x: int, c: seq<nat>, cuts: seq<int>)
    requires forall k :: 0 <= k < |kept| ==> kept[k] < |rows|
    requires c == Claimers(rows, kept) && |c| == |Credits(rows, kept)|
    requires 0 < Sum(pay) - reward <= Sum(Credits(rows, kept))
               && cuts == Cuts(Sum(pay) - reward, Credits(rows, kept), |c|)
    ensures CutLeavesDust(rows, kept, pay, reward, x) <==> exists j: nat :: DustClaim(pay, c, cuts, x, j)
  {
  }

  lemma {:induction false} ClaimersAreKept(rows: seq<Row>, kept: seq<nat>, c: seq<nat>)
    requires Distinct(kept) && forall k :: 0 <= k < |kept| ==> kept[k] < |rows|
    requires c == Claimers(rows, kept)
    ensures forall j :: 0 <= j < |c| ==> c[j] in kept
  {
    ClaimersFacts(rows, kept);
    forall j | 0 <= j < |c| ensures c[j] in kept { assert c[j] in c; }
  }

  lemma {:induction false} CutFineRows(i: Input, rows: seq<Row>, t: Trim)
    requires WellFormedTrim(rows, t) && SettleRows(i, rows, t).Settled?
    requires forall k: nat :: k in t.kept ==> Eligible(rows, i.MinPayout(), k)
    requires Sum(ToppedUp(i, rows, t)) > i.RewardForMiners()
    ensures SettleRows(i, rows, t).WellFormed()
    ensures AllFine(SettleRows(i, rows, t).pay, t.kept, i.MinPayout()) <==> !CutsToDust(i, rows, t)
  {
    var topped := ToppedUp(i, rows, t);
    KeptClaimsFine(i, rows, t, topped);
    CutIsFinal(i, rows, t, topped);
    CappedFineIff(rows, t.kept, topped, i.RewardForMiners(), i.MinPayout());
  }

  lemma {:induction false} KeptClaimsFine(i: Input, rows: seq<Row>, t: Trim, topped: seq<int>)
    requires WellFormedTrim(rows, t) && topped == ToppedUp(i, rows, t)
    requires forall k: nat :: k in t.kept ==> Eligible(rows, i.MinPayout(), k)
    ensures forall k: nat :: k in t.kept ==> k < |topped| && topped[k] >= i.MinPayout()
  {
    ToppedUpFacts(i, rows, t);
    forall k: nat | k in t.kept ensures topped[k] >= i.MinPayout() { assert Eligible(rows, i.MinPayout(), k); }
  }

  /** No kept miner's output is dust exactly when no cut leaves dust. */
  lemma {:induction false} FineRowsIff(i: Input, rows: seq<Row>, t: Trim)
    requires WellFormedTrim(rows, t) && SettleRows(i, rows, t).Settled?
    requires forall k: nat :: k in t.kept ==> Eligible(rows, i.MinPayout(), k)
    ensures SettleRows(i, rows, t).WellFormed()
    ensures AllFine(SettleRows(i, rows, t).pay, t.kept, i.MinPayout()) <==> !CutsToDust(i, rows, t)
  {
    if Sum(ToppedUp(i, rows, t)) <= i.RewardForMiners() {
      UncutIsFine(i, rows, t);
    } else {
      CutFineRows(i, rows, t);
    }
  }

  lemma {:induction false} SettledDustIff(i: Input, o: Outcome)
    requires o.WellFormed() && o.Settled? && Distinct(o.trim.kept)
    ensures AllAtLeast(MinersOf(i, o), i.MinPayout()) <==> AllFine(o.pay, o.trim.kept, i.MinPayout())
  {
    var order := EmissionOrder(o.trim.kept, o.pay);
    EmissionOrderMembers(o.trim.kept, o.pay);
    MinerPayoutsAtLeastIff(o.rows, o.pay, order, i.blockRewardSats, i.MinPayout());
    if AllFine(o.pay, order, i.MinPayout()) {
      forall k: nat | k in o.trim.kept ensures PayFine(o.pay, k, i.MinPayout()) { assert k in order; }
    }
    if AllFine(o.pay, o.trim.kept, i.MinPayout()) {
      forall k: nat | k in order ensures PayFine(o.pay, k, i.MinPayout()) { assert k in o.trim.kept; }
    }
  }

  lemma FixedAtLeast(i: Input, feeBonus: nat, miners: seq<Payout>)
    ensures AllAtLeast(FixedPayouts(i, feeBonus) + miners, i.MinPayout()) <==> AllAtLeast(miners, i.MinPayout())
  {
    var fixed := FixedPayouts(i, feeBonus);
    assert AllAtLeast(fixed, i.MinPayout());
    if AllAtLeast(fixed + miners, i.MinPayout()) {
      forall j | 0 <= j < |miners| ensures miners[j].sats >= i.MinPayout() {
        assert (fixed + miners)[|fixed| + j] == miners[j];
      }
    }
  }

  // ----- Whether anything but the fee address is paid -----

  lemma {:induction false} SomeoneIsPaid(rows: seq<Row>, pay: seq<int>, order: seq<nat>, reward: nat, k: nat)
    requires |pay| == |rows| && (forall i :: 0 <= i < |order| ==> order[i] < |rows|) && k in order && pay[k] > 0
    ensures PayoutOf(rows[k].address, pay[k], reward) in MinerPayouts(rows, pay, order, reward)
  {
    var n := |order| - 1;
    if order[n] != k {
      assert order == order[..n] + [order[n]];
      SomeoneIsPaid(rows, pay, order[..n], reward, k);
    }
  }

  lemma {:induction false} NoOneIsPaid(rows: seq<Row>, pay: seq<int>, order: seq<nat>, reward: nat)
    requires |pay| == |rows| && forall i :: 0 <= i < |order| ==> order[i] < |rows| && pay[order[i]] <= 0
    ensures MinerPayouts(rows, pay, order, reward) == []
  {
    if |order| != 0 {
      NoOneIsPaid(rows, pay, order[..|order| - 1], reward);
    }
  }

  /** A kept miner with a positive payment has its output. */
  lemma {:induction false} KeptIsPaid(i: Input, o: Outcome, k: nat)
    requires o.WellFormed() && o.Settled? && Distinct(o.trim.kept) && k in o.trim.kept && o.pay[k] > 0
    ensures PayoutOf(o.rows[k].address, o.pay[k], i.blockRewardSats) in MinersOf(i, o)
  {
    EmissionOrderMembers(o.trim.kept, o.pay);
    SomeoneIsPaid(o.rows, o.pay, EmissionOrder(o.trim.kept, o.pay), i.blockRewardSats, k);
  }

  lemma {:induction false} PositiveSum(s: seq<int>) returns (k: nat)
    requires Sum(s) > 0
    ensures k < |s| && s[k] > 0
  {
    k := |s| - 1;
    if s[k] <= 0 {
      k := PositiveSum(s[..k]);
    }
  }

  /** With neither fee nor bonus, some miner is paid exactly when the reward is positive and someone kept. */
  lemma {:induction false} MinersPaidIff(i: Input, weightOf: Address -> nat)
    requires Settle(i, weightOf).Settled? && !i.FeeEmitted() && !i.BonusEmitted()
    ensures MinersOf(i, Settle(i, weightOf)) != [] <==>
              i.blockRewardSats > 0 && Trimming(i, Rows(i), weightOf).kept != []
  {
    var o := Settle(i, weightOf);
    SettledFacts(i, weightOf);
    if i.blockRewardSats > 0 && o.trim.kept != [] {
      var k := PaidKept(i, o.rows, o.trim);
      KeptIsPaid(i, o, k);
    } else {
      DroppingLosesNothing(i, weightOf);
      NothingLeft(o.pay, o.trim.kept);
      EmissionOrderMembers(o.trim.kept, o.pay);
      var order := EmissionOrder(o.trim.kept, o.pay);
      forall j | 0 <= j < |order| ensures o.pay[order[j]] <= 0 { assert order[j] in o.trim.kept; }
      NoOneIsPaid(o.rows, o.pay, order, i.blockRewardSats);
    }
  }

  lemma {:induction false} NothingLeft(pay: seq<int>, kept: seq<nat>)
    requires (forall k :: 0 <= k < |pay| ==> pay[k] >= 0) && (Sum(pay) <= 0 || kept == [])
    ensures forall k :: k in kept && k < |pay| ==> pay[k] <= 0
  {
    forall k | k in kept && k < |pay| ensures pay[k] <= 0 {
      var one: seq<nat> := [k];
      SumOne(pay[k]);
      assert Pick(pay, one) == [pay[k]];
      SumPickAtMost(pay, one);
    }
  }

  lemma {:induction false} PaidKept(i: Input, rows: seq<Row>, t: Trim) returns (k: nat)
    requires WellFormedTrim(rows, t) && SettleRows(i, rows, t).Settled? && t.kept != [] && i.RewardForMiners() > 0
    requires forall k: nat :: k in t.kept ==> Eligible(rows, i.MinPayout(), k)
    ensures SettleRows(i, rows, t).WellFormed() && k in t.kept && k < |rows| && SettleRows(i, rows, t).pay[k] > 0
  {
    var topped := ToppedUp(i, rows, t);
    SettleRowsFacts(i, rows, t);
    if Sum(topped) <= i.RewardForMiners() {
      k := t.kept[0];
      assert Eligible(rows, i.MinPayout(), k);
      ToppedUpFacts(i, rows, t);
      UncutPayGrows(i, rows, t, topped);
    } else {
      CutIsFinal(i, rows, t, topped);
      k := PositiveSum(SettleRows(i, rows, t).pay);
    }
  }

  /** The distribution has outputs of its own; otherwise all there is goes to the fee address. */
  ghost predicate PaysAnyone(i: Input, weightOf: Address -> nat) {
    && MinersArePaid(i, weightOf)
    && (i.FeeEmitted() || i.BonusEmitted() || (i.blockRewardSats > 0 && Trimming(i, Rows(i), weightOf).kept != []))
  }

  lemma {:induction false} PaysAnyoneIff(i: Input, weightOf: Address -> nat)
    ensures var o := Settle(i, weightOf);
            PaysAnyone(i, weightOf) <==> o.Settled? && |FixedPayouts(i, o.feeBonus) + MinersOf(i, o)| > 0
  {
    SettledIff(i, weightOf);
    if Settle(i, weightOf).Settled? && !i.FeeEmitted() && !i.BonusEmitted() {
      MinersPaidIff(i, weightOf);
    }
  }

  // ----- The whole distribution -----

  /**
   * Every output is at least the minimum payout, exactly unless a solvency cut leaves some claimer
   * less than that, or the whole reward goes to the fee address and is itself less.
   */
  lemma {:induction false} NoDustIff(i: Input, weightOf: Address -> nat)
    ensures AllAtLeast(Distribution(i, weightOf).payouts, i.MinPayout()) <==>
              if PaysAnyone(i, weightOf) then !CutsToDust(i, Rows(i), Trimming(i, Rows(i), weightOf))
              else i.feeAddress == "" || i.blockRewardSats >= i.MinPayout()
  {
    var o := Settle(i, weightOf);
    PaysAnyoneIff(i, weightOf);
    if PaysAnyone(i, weightOf) {
      SettledFacts(i, weightOf);
      FineRowsIff(i, o.rows, o.trim);
      SettledDustIff(i, o);
      FixedAtLeast(i, o.feeBonus, MinersOf(i, o));
    } else {
      FeeOnlyDust(i, o);
    }
  }

  lemma FeeOnlyDust(i: Input, o: Outcome)
    requires o.WellFormed() && (o.Settled? ==> |FixedPayouts(i, o.feeBonus) + MinersOf(i, o)| == 0)
    ensures Payouts(i, o) == ToFeeOnly(i)
    ensures AllAtLeast(Payouts(i, o), i.MinPayout()) <==> i.feeAddress == "" || i.blockRewardSats >= i.MinPayout()
  {
    if i.feeAddress != "" {
      assert ToFeeOnly(i)[0].sats == i.blockRewardSats;
    }
  }

  /** Without an overshoot no output is below the minimum payout, unless all there is goes to the fee address. */
  lemma {:induction false} NoDust(i: Input, weightOf: Address -> nat)
    requires Settle(i, weightOf).Settled?
    requires Sum(ToppedUp(i, Rows(i), Trimming(i, Rows(i), weightOf))) <= i.RewardForMiners()
    ensures Distribution(i, weightOf).payouts == ToFeeOnly(i)
              || AllAtLeast(Distribution(i, weightOf).payouts, i.MinPayout())
  {
    PaysAnyoneIff(i, weightOf);
    NoDustIff(i, weightOf);
    if !PaysAnyone(i, weightOf) {
      FeeOnlyDust(i, Settle(i, weightOf));
    }
  }
}

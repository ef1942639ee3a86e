/** What one coinbase distribution guarantees, on every input and every path. */
module CoinbaseGuarantees {
  import opened Sums
  import opened StableSorting
  import opened Apportionment
  import opened CoinbaseSplit
  import opened CoinbaseTrim

  // ----- What each phase does to the on-chain amounts -----

  lemma {:induction false} KeptPayFacts(rows: seq<Row>, t: Trim)
    requires forall i :: 0 <= i < |t.kept| ==> t.kept[i] < |rows|
    requires Distinct(t.kept)
    ensures var pay := KeptPay(rows, t);
            && Sum(pay) == Sum(Pick(Targets(rows), t.kept))
            && forall k :: 0 <= k < |rows| ==> pay[k] == if k in t.kept then rows[k].Target() else 0
  {
    var z, targets := Zeros(|rows|), Pick(Targets(rows), t.kept);
    SumAddAll(z, t.kept, targets);
    SumZeros(|rows|);
    forall k | 0 <= k < |rows|
      ensures KeptPay(rows, t)[k] == if k in t.kept then rows[k].Target() else 0
    {
      if k in t.kept {
        var i :| 0 <= i < |t.kept| && t.kept[i] == k;
        AddAllAt(z, t.kept, targets, i);
      } else {
        AddAllElsewhere(z, t.kept, targets, k);
      }
    }
  }

  /** Some kept miner has shares in this block. */
  ghost predicate KeptWorker(rows: seq<Row>, kept: seq<nat>) {
    exists k :: k in kept && k < |rows| && rows[k].shares > 0
  }

  lemma {:induction false} KeptWorkerHasShares(rows: seq<Row>, kept: seq<nat>)
    requires forall i :: 0 <= i < |kept| ==> kept[i] < |rows|
    ensures KeptWorker(rows, kept) <==> Sum(SharesAt(rows, Working(rows, kept))) > 0
    ensures forall j :: 0 <= j < |Working(rows, kept)| ==> 0 <= SharesAt(rows, Working(rows, kept))[j]
  {
    var working := Working(rows, kept);
    var shares := SharesAt(rows, working);
    SumNonNegative(shares);
    if KeptWorker(rows, kept) {
      var k :| k in kept && k < |rows| && rows[k].shares > 0;
      assert k in working;
      var j :| 0 <= j < |working| && working[j] == k;
      assert shares[j] > 0;
    }
    if |working| > 0 {
      assert working[0] in kept && rows[working[0]].shares > 0;
    }
  }

  lemma {:induction false} HandOutFacts(rows: seq<Row>, kept: seq<nat>, pay: seq<int>, amount: int)
    requires |pay| == |rows| && Distinct(kept)
    requires forall i :: 0 <= i < |kept| ==> kept[i] < |rows|
    ensures var r := HandOut(rows, kept, pay, amount);
            && Sum(r) == Sum(pay) + (if amount > 0 && KeptWorker(rows, kept) then amount else 0)
            && forall k :: 0 <= k < |rows| ==> pay[k] <= r[k] && (k !in kept ==> r[k] == pay[k])
  {
    var working := Working(rows, kept);
    var shares := SharesAt(rows, working);
    KeptWorkerHasShares(rows, kept);
    WorkingDistinct(rows, kept);
    if amount > 0 && Sum(shares) > 0 && |shares| > 0 {
      ShareOutIsExact(amount, shares);
      SumAddAll(pay, working, ShareOut(amount, shares));
      forall k | 0 <= k < |rows|
        ensures pay[k] <= HandOut(rows, kept, pay, amount)[k]
        ensures k !in kept ==> HandOut(rows, kept, pay, amount)[k] == pay[k]
      {
        if k in working {
          var j :| 0 <= j < |working| && working[j] == k;
          AddAllAt(pay, working, ShareOut(amount, shares), j);
        } else {
          AddAllElsewhere(pay, working, ShareOut(amount, shares), k);
        }
      }
    }
  }

  lemma {:induction false} ClaimersFacts(rows: seq<Row>, kept: seq<nat>)
    requires forall i :: 0 <= i < |kept| ==> kept[i] < |rows|
    requires Distinct(kept)
    ensures var c := Claimers(rows, kept);
            && Distinct(c)
            && (forall k :: k in c ==> k in kept && rows[k].balanceOld > 0)
            && (forall k :: k in kept && rows[k].balanceOld > 0 ==> k in c)
            && |Credits(rows, kept)| == |c|
            && (forall j :: 0 <= j < |c| ==> Credits(rows, kept)[j] == rows[c[j]].balanceOld > 0)
  {
    var found := InCredit(rows, kept);
    InCreditDistinct(rows, kept);
    SortedPickMembers(found, Pick(CreditsOf(rows), found));
    var c := Claimers(rows, kept);
    forall j | 0 <= j < |c|
      ensures Credits(rows, kept)[j] == rows[c[j]].balanceOld > 0
    {
      assert c[j] in found;
    }
  }

  ghost predicate CutAt(rows: seq<Row>, kept: seq<nat>, pay: seq<int>, r: seq<int>, k: nat)
    requires |pay| == |rows| == |r| && k < |rows|
  {
    if k in kept && rows[k].balanceOld > 0 then pay[k] - rows[k].balanceOld <= r[k] <= pay[k] else r[k] == pay[k]
  }

  ghost predicate CutWithinCredit(rows: seq<Row>, kept: seq<nat>, pay: seq<int>, r: seq<int>) {
    |pay| == |rows| == |r| && forall k :: 0 <= k < |rows| ==> CutAt(rows, kept, pay, r, k)
  }

  ghost predicate CapApplies(rows: seq<Row>, kept: seq<nat>, pay: seq<int>, overshoot: int) {
    && |pay| == |rows| && Distinct(kept)
    && (forall i :: 0 <= i < |kept| ==> kept[i] < |rows|)
    && 0 < overshoot <= Sum(Credits(rows, kept)) && |Claimers(rows, kept)| > 0
  }

  lemma {:induction false} CapCuts(rows: seq<Row>, kept: seq<nat>, pay: seq<int>, overshoot: int)
      returns (c: seq<nat>, cuts: seq<int>)
    requires CapApplies(rows, kept, pay, overshoot)
    ensures c == Claimers(rows, kept) && cuts == Cuts(overshoot, Credits(rows, kept), |c|)
    ensures |cuts| == |c| && Distinct(c) && forall j :: 0 <= j < |c| ==> c[j] < |rows|
    ensures forall k :: k in c <==> k in kept && rows[k].balanceOld > 0
    ensures forall j :: 0 <= j < |c| ==> 0 <= cuts[j] <= rows[c[j]].balanceOld
    ensures Sum(cuts) <= overshoot
  {
    c := Claimers(rows, kept);
    cuts := Cuts(overshoot, Credits(rows, kept), |c|);
    ClaimersFacts(rows, kept);
    CutsWithinCredit(overshoot, Credits(rows, kept));
  }

  lemma {:induction false} CapAt(rows: seq<Row>, kept: seq<nat>, pay: seq<int>, c: seq<nat>, cuts: seq<int>, k: nat)
    requires |pay| == |rows| && |cuts| == |c| && Distinct(c) && k < |rows|
    requires forall j :: 0 <= j < |c| ==> c[j] < |rows|
    requires k in c <==> k in kept && rows[k].balanceOld > 0
    requires forall j :: 0 <= j < |c| ==> 0 <= cuts[j] <= rows[c[j]].balanceOld
    ensures CutAt(rows, kept, pay, AddAll(pay, c, Negated(cuts)), k)
  {
    if k in c {
      var j :| 0 <= j < |c| && c[j] == k;
      AddAllAt(pay, c, Negated(cuts), j);
    } else {
      AddAllElsewhere(pay, c, Negated(cuts), k);
    }
  }

  /** The cap takes from each kept miner at most that miner's own credit, and from no one else. */
  lemma {:induction false} CapFacts(rows: seq<Row>, kept: seq<nat>, pay: seq<int>, overshoot: int)
    requires CapApplies(rows, kept, pay, overshoot)
    ensures var c := Claimers(rows, kept);
            var cuts := Cuts(overshoot, Credits(rows, kept), |c|);
            var r := AddAll(pay, c, Negated(cuts));
            && Sum(r) == Sum(pay) - Sum(cuts)
            && Sum(cuts) <= overshoot
            && CutWithinCredit(rows, kept, pay, r)
  {
    var c, cuts := CapCuts(rows, kept, pay, overshoot);
    SumAddAll(pay, c, Negated(cuts));
    SumNegated(cuts);
    forall k: nat | k < |rows|
      ensures CutAt(rows, kept, pay, AddAll(pay, c, Negated(cuts)), k)
    {
      CapAt(rows, kept, pay, c, cuts, k);
    }
  }

  // ----- What a settled distribution looks like -----

  /** Only kept miners are paid, each at least its fair share less its own debt. */
  ghost predicate PaidFairly(rows: seq<Row>, kept: seq<nat>, pay: seq<int>) {
    |pay| == |rows| &&
    forall k :: 0 <= k < |rows| ==>
      if k in kept then pay[k] >= rows[k].rawFair + (if rows[k].balanceOld < 0 then rows[k].balanceOld else 0)
      else pay[k] == 0
  }

  ghost predicate PaidInFull(rows: seq<Row>, kept: seq<nat>, pay: seq<int>) {
    |pay| == |rows| &&
    forall k :: 0 <= k < |rows| ==> if k in kept then pay[k] >= rows[k].Target() else pay[k] == 0
  }

  ghost predicate WellFormedTrim(rows: seq<Row>, t: Trim) {
    && (forall k :: 0 <= k < |t.kept| ==> t.kept[k] < |rows|)
    && (forall k :: 0 <= k < |t.trimmed| ==> t.trimmed[k] < |rows|)
    && Distinct(t.kept) && Distinct(t.trimmed) && (forall k :: k in t.kept ==> k !in t.trimmed)
  }

  /** The trimmed workers' targets are handed to kept workers. */
  ghost predicate HandsOn(i: Input, rows: seq<Row>, t: Trim)
    requires WellFormedTrim(rows, t)
  {
    !i.suppressMatchingDebits && TrimmedTotal(rows, t) > 0 && KeptWorker(rows, t.kept)
  }

  lemma {:induction false} ToppedUpFacts(i: Input, rows: seq<Row>, t: Trim)
    requires WellFormedTrim(rows, t)
    ensures PaidInFull(rows, t.kept, ToppedUp(i, rows, t))
    ensures Sum(ToppedUp(i, rows, t)) ==
              Sum(Pick(Targets(rows), t.kept)) + (if HandsOn(i, rows, t) then TrimmedTotal(rows, t) else 0)
    ensures i.suppressMatchingDebits ==> forall k :: 0 <= k < |rows| ==>
              ToppedUp(i, rows, t)[k] == if k in t.kept then rows[k].Target() else 0
  {
    KeptPayFacts(rows, t);
    if !i.suppressMatchingDebits {
      HandOutFacts(rows, t.kept, KeptPay(rows, t), TrimmedTotal(rows, t));
    }
  }

  lemma {:induction false} CutIsFair(rows: seq<Row>, kept: seq<nat>, pay: seq<int>, r: seq<int>)
    requires PaidInFull(rows, kept, pay) && CutWithinCredit(rows, kept, pay, r)
    ensures PaidFairly(rows, kept, r)
  {
    forall k: nat | k < |rows|
      ensures if k in kept then r[k] >= rows[k].rawFair + (if rows[k].balanceOld < 0 then rows[k].balanceOld else 0)
              else r[k] == 0
    {
      assert CutAt(rows, kept, pay, r, k);
    }
  }

  lemma {:induction false} SolvencyCapCuts(rows: seq<Row>, kept: seq<nat>, pay: seq<int>, reward: int)
    requires |pay| == |rows| && Distinct(kept)
    requires forall k :: 0 <= k < |kept| ==> kept[k] < |rows|
    requires SolvencyCap(rows, kept, pay, reward).Solvent? && Sum(pay) > reward
    ensures var r := SolvencyCap(rows, kept, pay, reward).pay;
            CutWithinCredit(rows, kept, pay, r) && Sum(r) == reward
  {
    CapFacts(rows, kept, pay, Sum(pay) - reward);
  }

  /** When the cap succeeds it brings the payments to the reward exactly, or leaves them alone. */
  lemma {:induction false} SolvencyCapFacts(rows: seq<Row>, kept: seq<nat>, pay: seq<int>, reward: int)
    requires PaidInFull(rows, kept, pay) && Distinct(kept)
    requires forall k :: 0 <= k < |kept| ==> kept[k] < |rows|
    requires SolvencyCap(rows, kept, pay, reward).Solvent?
    ensures var r := SolvencyCap(rows, kept, pay, reward).pay;
            && PaidFairly(rows, kept, r)
            && CutWithinCredit(rows, kept, pay, r)
            && Sum(r) == (if Sum(pay) < reward then Sum(pay) else reward)
  {
    var r := SolvencyCap(rows, kept, pay, reward).pay;
    if Sum(pay) > reward {
      SolvencyCapCuts(rows, kept, pay, reward);
      CutIsFair(rows, kept, pay, r);
    } else {
      assert r == pay;
      FullIsFair(rows, kept, pay);
    }
  }

  lemma FullIsFair(rows: seq<Row>, kept: seq<nat>, pay: seq<int>)
    requires PaidInFull(rows, kept, pay)
    ensures PaidFairly(rows, kept, pay) && CutWithinCredit(rows, kept, pay, pay)
  {
  }

  /** The state of the computation when miner outputs are built. */
  ghost predicate Balanced(suppress: bool, reward: int, o: Outcome)
    requires o.Settled?
  {
    && PaidFairly(o.rows, o.trim.kept, o.pay)
    && 0 <= o.feeBonus
    && Sum(o.pay) + o.feeBonus <= reward
    && (suppress || KeptWorker(o.rows, o.trim.kept) ==> Sum(o.pay) + o.feeBonus == reward)
    && (!suppress ==> o.feeBonus == 0)
  }

  lemma {:induction false} FinishFacts(suppress: bool, reward: int, toFee: nat, rows: seq<Row>, t: Trim, pay: seq<int>)
    requires WellFormedTrim(rows, t) && PaidFairly(rows, t.kept, pay)
    requires !suppress ==> toFee == 0
    requires Finish(suppress, reward, toFee, rows, t, pay).Settled?
    ensures var o := Finish(suppress, reward, toFee, rows, t, pay);
            && o.rows == rows && o.trim == t && Balanced(suppress, reward, o)
            && (suppress ==> o.pay == pay)
  {
    if !suppress {
      HandOutFacts(rows, t.kept, pay, reward - Sum(pay));
    }
  }

  lemma {:induction false} SettleRowsFacts(i: Input, rows: seq<Row>, t: Trim)
    requires WellFormedTrim(rows, t) && SettleRows(i, rows, t).Settled?
    ensures var o := SettleRows(i, rows, t);
            o.rows == rows && o.trim == t && Balanced(i.suppressMatchingDebits, i.RewardForMiners(), o)
    ensures i.suppressMatchingDebits ==>
              SettleRows(i, rows, t).pay == SolvencyCap(rows, t.kept, ToppedUp(i, rows, t), i.RewardForMiners()).pay
  {
    var topped := ToppedUp(i, rows, t);
    ToppedUpFacts(i, rows, t);
    SolvencyCapFacts(rows, t.kept, topped, i.RewardForMiners());
    var capped := SolvencyCap(rows, t.kept, topped, i.RewardForMiners()).pay;
    FinishFacts(i.suppressMatchingDebits, i.RewardForMiners(), TrimToFee(i, rows, t), rows, t, capped);
  }

  /** In suppress mode no miner is ever paid beyond the target. */
  lemma {:induction false} SuppressedPay(i: Input, rows: seq<Row>, t: Trim, k: nat)
    requires WellFormedTrim(rows, t) && SettleRows(i, rows, t).Settled? && i.suppressMatchingDebits && k < |rows|
    ensures SettleRows(i, rows, t).WellFormed() && |SettleRows(i, rows, t).pay| == |rows|
    ensures SettleRows(i, rows, t).pay[k] <= if k in t.kept then rows[k].Target() else 0
  {
    var topped := ToppedUp(i, rows, t);
    ToppedUpFacts(i, rows, t);
    SettleRowsFacts(i, rows, t);
    SolvencyCapFacts(rows, t.kept, topped, i.RewardForMiners());
    assert CutAt(rows, t.kept, topped, SolvencyCap(rows, t.kept, topped, i.RewardForMiners()).pay, k);
  }

  lemma {:induction false} TrimmingIsWellFormed(i: Input, rows: seq<Row>, weightOf: Address -> nat)
    ensures WellFormedTrim(rows, Trimming(i, rows, weightOf))
    ensures forall k: nat :: k in Trimming(i, rows, weightOf).kept ==> Eligible(rows, i.MinPayout(), k)
  {
    TrimmingFacts(i, rows, weightOf);
  }

  lemma {:induction false} SettledFacts(i: Input, weightOf: Address -> nat)
    requires Settle(i, weightOf).Settled?
    ensures var o := Settle(i, weightOf);
            && i.TotalShares() > 0
            && o.rows == Rows(i) && o.trim == Trimming(i, o.rows, weightOf)
            && WellFormedTrim(o.rows, o.trim)
            && (forall k: nat :: k in o.trim.kept ==> Eligible(o.rows, i.MinPayout(), k))
            && Balanced(i.suppressMatchingDebits, i.RewardForMiners(), o)
  {
    TrimmingIsWellFormed(i, Rows(i), weightOf);
    SettleRowsFacts(i, Rows(i), Trimming(i, Rows(i), weightOf));
  }

  // ----- Never over-emit -----

  lemma {:induction false} MinerPayoutsPositive(rows: seq<Row>, pay: seq<int>, order: seq<nat>, reward: nat)
    requires |pay| == |rows| && forall i :: 0 <= i < |order| ==> order[i] < |rows|
    ensures AllPositive(MinerPayouts(rows, pay, order, reward))
  {
    if |order| != 0 {
      MinerPayoutsPositive(rows, pay, order[..|order| - 1], reward);
    }
  }

  lemma {:induction false} MinerPayoutsSum(rows: seq<Row>, pay: seq<int>, order: seq<nat>, reward: nat)
    requires |pay| == |rows| && forall i :: 0 <= i < |order| ==> order[i] < |rows|
    requires forall i :: 0 <= i < |order| ==> pay[order[i]] >= 0
    ensures TotalPaid(MinerPayouts(rows, pay, order, reward)) == Sum(Pick(pay, order))
  {
    if |order| != 0 {
      var n := |order| - 1;
      MinerPayoutsSum(rows, pay, order[..n], reward);
      var before := MinerPayouts(rows, pay, order[..n], reward);
      var last := PayoutOf(rows[order[n]].address, pay[order[n]], reward);
      assert Pick(pay, order)[..n] == Pick(pay, order[..n]);
      assert SatsOf(before + [last])[..|before|] == SatsOf(before);
    }
  }

  lemma {:induction false} TotalPaidConcat(a: seq<Payout>, b: seq<Payout>)
    ensures TotalPaid(a + b) == TotalPaid(a) + TotalPaid(b)
  {
    assert SatsOf(a + b) == SatsOf(a) + SatsOf(b);
    SumConcat(SatsOf(a), SatsOf(b));
  }

  lemma TotalPaidOne(p: Payout)
    ensures TotalPaid([p]) == p.sats && TotalPaid([]) == 0
  {
    SumOne(p.sats);
    assert SatsOf([p]) == [p.sats] && SatsOf([]) == [];
  }

  /** The reward left for miners is negative only when the fee alone exceeds the whole reward. */
  lemma RewardForMinersSign(i: Input)
    ensures i.RewardForMiners() >= 0 <==> i.FeeSats() <= i.blockRewardSats
    ensures i.BonusSats() >= 0 && i.FeeSats() >= 0
  {
  }

  lemma {:induction false} EmissionOrderMembers(kept: seq<nat>, pay: seq<int>)
    requires forall i :: 0 <= i < |kept| ==> kept[i] < |pay|
    requires Distinct(kept)
    ensures var order := EmissionOrder(kept, pay);
            Distinct(order) && forall x :: x in order <==> x in kept
  {
    SortedPickMembers(kept, Negated(Pick(pay, kept)));
  }

  lemma {:induction false} PayIsNonNegative(i: Input, o: Outcome)
    requires o.Settled? && PaidFairly(o.rows, o.trim.kept, o.pay)
    requires forall k: nat :: k in o.trim.kept ==> Eligible(o.rows, i.MinPayout(), k)
    requires forall k :: 0 <= k < |o.rows| ==> 0 <= o.rows[k].rawFair
    ensures forall k :: 0 <= k < |o.pay| ==> o.pay[k] >= 0
  {
    forall k: nat | k < |o.pay|
      ensures o.pay[k] >= 0
    {
      if k in o.trim.kept {
        assert Eligible(o.rows, i.MinPayout(), k);
      }
    }
  }

  ghost predicate AmountsNonNegative(o: Outcome)
    requires o.Settled?
  {
    forall k :: 0 <= k < |o.pay| ==> o.pay[k] >= 0
  }

  /**
   * Outputs of zero or less are dropped from the coinbase. No on-chain amount is negative, and no sat
   * is lost by dropping, exactly when the fee does not exceed the reward.
   */
  lemma {:induction false} DroppingLosesNothing(i: Input, weightOf: Address -> nat)
    requires Settle(i, weightOf).Settled?
    ensures var o := Settle(i, weightOf);
            && (AmountsNonNegative(o) <==> i.FeeSats() <= i.blockRewardSats)
            && (TotalPaid(MinersOf(i, o)) == Sum(o.pay) <==> i.FeeSats() <= i.blockRewardSats)
  {
    var o := Settle(i, weightOf);
    SettledFacts(i, weightOf);
    RewardForMinersSign(i);
    if i.FeeSats() <= i.blockRewardSats {
      FairSharesFacts(i);
      PayIsNonNegative(i, o);
      NothingNegativeDropped(i, o);
    } else {
      MinersArePaidPositively(i, o);
      PositiveTotal(MinersOf(i, o));
      if AmountsNonNegative(o) {
        SumNonNegative(o.pay);
      }
    }
  }

  lemma {:induction false} NothingNegativeDropped(i: Input, o: Outcome)
    requires o.Settled? && o.WellFormed() && Distinct(o.trim.kept) && AmountsNonNegative(o)
    requires PaidFairly(o.rows, o.trim.kept, o.pay)
    ensures TotalPaid(MinersOf(i, o)) == Sum(o.pay)
  {
    EmissionOrderMembers(o.trim.kept, o.pay);
    var order := EmissionOrder(o.trim.kept, o.pay);
    MinerPayoutsSum(o.rows, o.pay, order, i.blockRewardSats);
    SumPickPlaced(o.pay, order);
  }

  lemma {:induction false} FixedPayoutsSum(i: Input, feeBonus: int)
    ensures TotalPaid(FixedPayouts(i, feeBonus)) ==
              i.FeeSats() + i.BonusSats() + (if i.FeeEmitted() then feeBonus else 0)
  {
    var fee := PayoutOf(i.feeAddress, i.FeeSats() + feeBonus, i.blockRewardSats);
    var bonus := PayoutOf(i.finderAddress, i.BonusSats(), i.blockRewardSats);
    TotalPaidOne(fee);
    TotalPaidOne(bonus);
    TotalPaidConcat(if i.FeeEmitted() then [fee] else [], if i.BonusEmitted() then [bonus] else []);
  }

  /** What a settled distribution emits in all. */
  lemma {:induction false} SettledEmission(i: Input, o: Outcome)
    requires o.WellFormed() && o.Settled?
    ensures TotalPaid(FixedPayouts(i, o.feeBonus) + MinersOf(i, o)) ==
              i.FeeSats() + i.BonusSats() + (if i.FeeEmitted() then o.feeBonus else 0) + TotalPaid(MinersOf(i, o))
  {
    FixedPayoutsSum(i, o.feeBonus);
    TotalPaidConcat(FixedPayouts(i, o.feeBonus), MinersOf(i, o));
  }

  ghost predicate AllPositive(payouts: seq<Payout>) {
    forall j :: 0 <= j < |payouts| ==> payouts[j].sats > 0
  }

  lemma PositiveConcat(a: seq<Payout>, b: seq<Payout>)
    requires AllPositive(a) && AllPositive(b)
    ensures AllPositive(a + b)
  {
  }

  lemma {:induction false} PositiveTotal(payouts: seq<Payout>)
    requires AllPositive(payouts)
    ensures TotalPaid(payouts) >= 0
  {
    SumNonNegative(SatsOf(payouts));
  }

  lemma {:induction false} MinersArePaidPositively(i: Input, o: Outcome)
    requires o.WellFormed() && o.Settled?
    ensures AllPositive(MinersOf(i, o))
  {
    MinerPayoutsPositive(o.rows, o.pay, EmissionOrder(o.trim.kept, o.pay), i.blockRewardSats);
  }

  /** Every output of a settled distribution carries sats; a fallback output carries the whole reward. */
  lemma {:induction false} NoNegativeOutput(i: Input, weightOf: Address -> nat)
    ensures NonNegative(Distribution(i, weightOf).payouts)
  {
    var o := Settle(i, weightOf);
    if o.Settled? {
      SettledFacts(i, weightOf);
    }
    PayoutsNonNegative(i, o);
  }

  ghost predicate NonNegative(payouts: seq<Payout>) {
    forall j :: 0 <= j < |payouts| ==> payouts[j].sats >= 0
  }

  lemma {:induction false} PayoutsNonNegative(i: Input, o: Outcome)
    requires o.WellFormed() && (o.Settled? ==> o.feeBonus >= 0)
    ensures NonNegative(Payouts(i, o))
  {
    if o.Settled? {
      SettledArePositive(i, o);
    }
  }

  lemma {:induction false} SettledArePositive(i: Input, o: Outcome)
    requires o.WellFormed() && o.Settled? && o.feeBonus >= 0
    ensures AllPositive(FixedPayouts(i, o.feeBonus) + MinersOf(i, o))
  {
    FixedArePositive(i, o.feeBonus);
    MinersArePaidPositively(i, o);
    PositiveConcat(FixedPayouts(i, o.feeBonus), MinersOf(i, o));
  }

  lemma FixedArePositive(i: Input, feeBonus: nat)
    ensures AllPositive(FixedPayouts(i, feeBonus))
  {
  }

  lemma {:induction false} FallbackEmission(i: Input, o: Outcome)
    requires !o.Settled?
    ensures TotalPaid(Payouts(i, o)) == if i.feeAddress != "" then i.blockRewardSats else 0
  {
    TotalPaidOne(Payout(i.feeAddress, 100.0, i.blockRewardSats));
  }

  lemma {:induction false} SettledTotal(i: Input, o: Outcome)
    requires o.WellFormed() && o.Settled?
    ensures var built := i.FeeSats() + i.BonusSats() + (if i.FeeEmitted() then o.feeBonus else 0)
              + TotalPaid(MinersOf(i, o));
            TotalPaid(Payouts(i, o)) ==
              if |FixedPayouts(i, o.feeBonus) + MinersOf(i, o)| > 0 then built
              else if i.feeAddress != "" then i.blockRewardSats else 0
  {
    SettledEmission(i, o);
    TotalPaidOne(Payout(i.feeAddress, 100.0, i.blockRewardSats));
  }

  /**
   * The coinbase claims more than the block reward exactly when the configured fee alone exceeds it
   * and miner outputs are built beside it.
   */
  lemma {:induction false} WithinRewardUnlessSettled(i: Input, weightOf: Address -> nat)
    ensures (TotalPaid(Distribution(i, weightOf).payouts) <= i.blockRewardSats)
            <==> (i.FeeSats() <= i.blockRewardSats || !Settle(i, weightOf).Settled?)
  {
    var o := Settle(i, weightOf);
    if o.Settled? {
      SettledFacts(i, weightOf);
      SettledTotal(i, o);
      RewardForMinersSign(i);
      MinersArePaidPositively(i, o);
      PositiveTotal(MinersOf(i, o));
      if i.FeeSats() <= i.blockRewardSats {
        DroppingLosesNothing(i, weightOf);
      } else {
        assert |FixedPayouts(i, o.feeBonus)| > 0;
      }
    } else {
      FallbackEmission(i, o);
    }
  }

  /** With a fee of at most 100 % the coinbase never claims more than the block reward. */
  lemma {:induction false} NeverOverEmits(i: Input, weightOf: Address -> nat)
    requires i.feePercent <= 100.0
    ensures TotalPaid(Distribution(i, weightOf).payouts) <= i.blockRewardSats
  {
    FeeAtMostReward(i);
    WithinRewardUnlessSettled(i, weightOf);
  }

  lemma FeeAtMostReward(i: Input)
    requires i.feePercent <= 100.0
    ensures i.WantFee() <= i.blockRewardSats && i.FeeSats() <= i.blockRewardSats
  {
    var share, reward := i.feePercent / 100.0, i.blockRewardSats as real;
    assert share <= 1.0;
    assert share * reward <= 1.0 * reward;
  }

  // ----- Exact emission -----

  /**
   * With matching debits and a kept miner who worked, and in suppress mode with an emitted fee, the
   * outputs add up to exactly the reward: exactly when the fee does not exceed it.
   */
  lemma {:induction false} ExactEmission(i: Input, weightOf: Address -> nat)
    requires Settle(i, weightOf).Settled?
    requires var o := Settle(i, weightOf);
             if i.suppressMatchingDebits then i.FeeEmitted() else KeptWorker(o.rows, o.trim.kept)
    ensures TotalPaid(Distribution(i, weightOf).payouts) == i.blockRewardSats <==> i.FeeSats() <= i.blockRewardSats
  {
    WithinRewardUnlessSettled(i, weightOf);
    if i.FeeSats() <= i.blockRewardSats {
      EmitsTheReward(i, weightOf);
    }
  }

  lemma {:induction false} EmitsTheReward(i: Input, weightOf: Address -> nat)
    requires Settle(i, weightOf).Settled? && i.FeeSats() <= i.blockRewardSats
    requires var o := Settle(i, weightOf);
             if i.suppressMatchingDebits then i.FeeEmitted() else KeptWorker(o.rows, o.trim.kept)
    ensures TotalPaid(Distribution(i, weightOf).payouts) == i.blockRewardSats
  {
    var o := Settle(i, weightOf);
    SettledFacts(i, weightOf);
    SettledTotal(i, o);
    SettledEmission(i, o);
    DroppingLosesNothing(i, weightOf);
    var built := FixedPayouts(i, o.feeBonus) + MinersOf(i, o);
    if |built| == 0 {
      assert built == [];
      TotalPaidOne(PayoutOf("", 0, 0));
    }
  }

  /** With matching debits the fee output is exactly the configured percentage, never padded. */
  lemma {:induction false} FeeIsExact(i: Input, weightOf: Address -> nat)
    requires !i.suppressMatchingDebits && i.FeeEmitted() && Settle(i, weightOf).Settled?
    ensures var p := Distribution(i, weightOf).payouts;
            && |p| > 0 && p[0].address == i.feeAddress && p[0].sats == i.FeeSats()
            && p[0].sats as real <= i.feePercent / 100.0 * i.blockRewardSats as real < p[0].sats as real + 1.0
  {
    SettledFacts(i, weightOf);
    FeeTaken(i);
    var o := Settle(i, weightOf);
    assert FixedPayouts(i, 0)[0] == PayoutOf(i.feeAddress, i.FeeSats(), i.blockRewardSats);
    assert (FixedPayouts(i, 0) + MinersOf(i, o))[0] == FixedPayouts(i, 0)[0];
  }

  // ----- Solvency cap -----

  /** A kept miner is paid at least its fair share, less only a debt of its own. */
  lemma {:induction false} WorkIsNeverCut(i: Input, weightOf: Address -> nat, k: nat)
    requires Settle(i, weightOf).Settled? && k in Settle(i, weightOf).trim.kept
    ensures var o := Settle(i, weightOf);
            k < |o.rows| &&
            o.pay[k] >= o.rows[k].rawFair + (if o.rows[k].balanceOld < 0 then o.rows[k].balanceOld else 0)
  {
    SettledFacts(i, weightOf);
  }

  // ----- Group-Solo -----

  ghost predicate TargetsStayNonNegative(rows: seq<Row>) {
    forall k :: 0 <= k < |rows| ==> rows[k].Target() >= 0
  }

  ghost predicate EntriesNonNegative(m: Entries<int>) {
    forall j :: 0 <= j < |m| ==> m[j].1 >= 0
  }

  /** Suppress mode writes no negative balance exactly unless a row's fair share and old balance are below zero. */
  lemma {:induction false} SuppressedBalances(i: Input, weightOf: Address -> nat)
    requires i.suppressMatchingDebits
    ensures EntriesNonNegative(Distribution(i, weightOf).balanceAfter) <==>
              (Settle(i, weightOf).Settled? ==> TargetsStayNonNegative(Rows(i)))
  {
    var o := Settle(i, weightOf);
    if o.Settled? {
      SettledFacts(i, weightOf);
      if TargetsStayNonNegative(o.rows) {
        forall k: nat | k < |o.rows|
          ensures o.pay[k] <= o.rows[k].Target()
        {
          SuppressedPay(i, o.rows, o.trim, k);
        }
        BalanceAfterNonNegative(o.rows, o.pay, |o.rows|);
      } else {
        var k: nat :| k < |o.rows| && o.rows[k].Target() < 0;
        assert k in o.trim.kept ==> Eligible(o.rows, i.MinPayout(), k);
        BalanceIsWritten(o.rows, o.pay, |o.rows|, k);
      }
    }
  }

  /** With a fee within the reward and non-negative old balances, suppress mode never writes a negative balance. */
  lemma {:induction false} GroupBalancesStayNonNegative(i: Input, weightOf: Address -> nat)
    requires i.Valid() && i.suppressMatchingDebits && i.FeeSats() <= i.blockRewardSats
    requires EntriesNonNegative(i.balances)
    ensures EntriesNonNegative(Distribution(i, weightOf).balanceAfter)
  {
    SuppressedBalances(i, weightOf);
    if Settle(i, weightOf).Settled? {
      SettledFacts(i, weightOf);
      TargetsNonNegative(i);
    }
  }

  lemma {:induction false} TargetsNonNegative(i: Input)
    requires i.Valid() && i.TotalShares() > 0 && i.FeeSats() <= i.blockRewardSats
    requires EntriesNonNegative(i.balances)
    ensures TargetsStayNonNegative(Rows(i))
  {
    RowsCarryBalances(i);
    RewardForMinersSign(i);
    FairSharesFacts(i);
    forall k | 0 <= k < |Rows(i)|
      ensures Rows(i)[k].Target() >= 0
    {
      GetOrZeroNonNegative(i.balances, Rows(i)[k].address);
    }
  }

  lemma {:induction false} GetOrZeroNonNegative(m: Entries<int>, a: Address)
    requires EntriesNonNegative(m)
    ensures GetOrZero(m, a) >= 0
  {
    if |m| != 0 {
      GetOrZeroNonNegative(m[..|m| - 1], a);
    }
  }

  lemma {:induction false} BalanceAfterNonNegative(rows: seq<Row>, pay: seq<int>, n: nat)
    requires |pay| == |rows| && n <= |rows|
    requires forall k :: 0 <= k < |rows| ==> pay[k] <= rows[k].Target()
    ensures EntriesNonNegative(BalanceAfter(rows, pay, n))
  {
    if n != 0 {
      BalanceAfterNonNegative(rows, pay, n - 1);
      assert pay[n - 1] <= rows[n - 1].Target();
    }
  }

  lemma {:induction false} BalanceIsWritten(rows: seq<Row>, pay: seq<int>, n: nat, k: nat)
    requires |pay| == |rows| && k < n <= |rows| && rows[k].Target() != pay[k]
    ensures (rows[k].address, rows[k].Target() - pay[k]) in BalanceAfter(rows, pay, n)
  {
    if k < n - 1 {
      BalanceIsWritten(rows, pay, n - 1, k);
    }
  }

  // ----- Outputs: the finder bonus and their order -----

  /**
   * The fee is the floored percentage of the reward, or nothing: nothing without an address, and nothing
   * exactly when the percentage comes to less than the minimum payout or the relay limit of 546.
   */
  lemma FeeTaken(i: Input)
    ensures var exact := i.feePercent / 100.0 * i.blockRewardSats as real;
            && (i.FeeSats() == 0 <==> i.feeAddress == "" || exact < 546.0 || exact < i.minPayoutSats as real)
            && (i.FeeSats() != 0 ==> i.FeeSats() as real <= exact < i.FeeSats() as real + 1.0 && i.FeeSats() >= 546)
            && (i.FeeEmitted() <==> i.FeeSats() != 0)
  {
    var exact := i.feePercent / 100.0 * i.blockRewardSats as real;
    FloorAtLeast(exact, 546);
    FloorAtLeast(exact, i.minPayoutSats);
    assert i.WantFee() == exact.Floor;
  }

  lemma FloorAtLeast(x: real, m: int)
    ensures x.Floor >= m <==> x >= m as real
  {
  }

  /**
   * The finder gets the whole configured bonus or the most that leaves the others 5 %; never more, and
   * nothing exactly when that comes to less than the minimum payout or the relay limit of 546.
   */
  lemma FinderBonusIsCapped(i: Input)
    ensures var rest, bonus := i.blockRewardSats - i.FeeSats(), i.BonusSats();
            && i.RewardForMiners() == rest - bonus
            && (rest <= 0 ==> bonus == 0)
            && (rest >= 0 ==> 100 * bonus <= 95 * rest)
            && (bonus != 0 ==> i.finderAddress != "" && (bonus == i.finderBonusSats ||
                                 (bonus < i.finderBonusSats && 95 * rest < 100 * (bonus + 1))))
            && (bonus == 0 <==>
                  || i.finderAddress == "" || i.finderBonusSats < 546 || i.finderBonusSats < i.minPayoutSats
                  || 95 * rest < 100 * 546 || 95 * rest < 100 * i.minPayoutSats)
            && (i.BonusEmitted() <==> bonus != 0)
  {
  }

  ghost predicate Descending(payouts: seq<Payout>) {
    forall a, b :: 0 <= a < b < |payouts| ==> payouts[a].sats >= payouts[b].sats
  }

  ghost predicate PaysDescend(pay: seq<int>, order: seq<nat>) {
    forall a, b :: 0 <= a < b < |order| && order[a] < |pay| && order[b] < |pay| ==> pay[order[a]] >= pay[order[b]]
  }

  ghost predicate AllAtLeast(payouts: seq<Payout>, x: int) {
    forall j :: 0 <= j < |payouts| ==> payouts[j].sats >= x
  }

  lemma {:induction false} MinerPayoutsAtLeast(rows: seq<Row>, pay: seq<int>, order: seq<nat>, reward: nat, x: int)
    requires |pay| == |rows| && forall i :: 0 <= i < |order| ==> order[i] < |rows| && pay[order[i]] >= x
    ensures AllAtLeast(MinerPayouts(rows, pay, order, reward), x)
  {
    if |order| != 0 {
      MinerPayoutsAtLeast(rows, pay, order[..|order| - 1], reward, x);
    }
  }

  lemma {:induction false} MinerPayoutsDescend(rows: seq<Row>, pay: seq<int>, order: seq<nat>, reward: nat)
    requires |pay| == |rows| && (forall i :: 0 <= i < |order| ==> order[i] < |rows|) && PaysDescend(pay, order)
    ensures Descending(MinerPayouts(rows, pay, order, reward))
  {
    if |order| != 0 {
      var n := |order| - 1;
      MinerPayoutsDescend(rows, pay, order[..n], reward);
      MinerPayoutsAtLeast(rows, pay, order[..n], reward, pay[order[n]]);
    }
  }

  lemma {:induction false} EmissionOrderDescends(kept: seq<nat>, pay: seq<int>)
    requires forall i :: 0 <= i < |kept| ==> kept[i] < |pay|
    ensures PaysDescend(pay, EmissionOrder(kept, pay))
  {
    var keys := Negated(Pick(pay, kept));
    var p := SortPositions(keys);
    SortIsStableSort(keys);
    forall a, b | 0 <= a < b < |p|
      ensures pay[kept[p[a]]] >= pay[kept[p[b]]]
    {
      assert Before(keys, p[a], p[b]);
    }
  }

  /** Behind the fee and the bonus the outputs come largest first. */
  lemma {:induction false} MinersLargestFirst(i: Input, o: Outcome)
    requires o.WellFormed() && o.Settled?
    ensures Descending(MinersOf(i, o))
  {
    EmissionOrderDescends(o.trim.kept, o.pay);
    MinerPayoutsDescend(o.rows, o.pay, EmissionOrder(o.trim.kept, o.pay), i.blockRewardSats);
  }

  /** Every balance that is written belongs to an address the distribution considered. */
  lemma {:induction false} WrittenIsConsidered(i: Input, weightOf: Address -> nat, j: nat)
    requires j < |Distribution(i, weightOf).balanceAfter|
    ensures Distribution(i, weightOf).balanceAfter[j].0 in Distribution(i, weightOf).consideredAddresses
  {
    var o := Settle(i, weightOf);
    SettledFacts(i, weightOf);
    var k := BalanceAfterRow(o.rows, o.pay, |o.rows|, j);
    RowIsConsidered(i, k);
  }

  lemma {:induction false} BalanceAfterRow(rows: seq<Row>, pay: seq<int>, n: nat, j: nat) returns (k: nat)
    requires |pay| == |rows| && n <= |rows| && j < |BalanceAfter(rows, pay, n)|
    ensures k < n && BalanceAfter(rows, pay, n)[j].0 == rows[k].address
  {
    var before := BalanceAfter(rows, pay, n - 1);
    if j < |before| {
      k := BalanceAfterRow(rows, pay, n - 1, j);
    } else {
      k := n - 1;
    }
  }

  lemma {:induction false} RowIsConsidered(i: Input, k: nat)
    requires i.TotalShares() > 0 && k < |Rows(i)|
    ensures Rows(i)[k].address in Keys(i.addressShares) + Keys(i.balances)
  {
    if k < |i.addressShares| {
      assert Rows(i)[k].address == i.addressShares[k].0;
    } else {
      PendingIsKeyed(i.addressShares, i.balances, k - |i.addressShares|);
    }
  }

  lemma {:induction false} PendingIsKeyed(shares: Entries<nat>, balances: Entries<int>, k: nat)
    requires k < |PendingRows(shares, balances)|
    ensures PendingRows(shares, balances)[k].address in Keys(balances)
  {
    var n := |balances| - 1;
    var before := PendingRows(shares, balances[..n]);
    if k < |before| {
      PendingIsKeyed(shares, balances[..n], k);
      var j :| 0 <= j < n && balances[..n][j].0 == before[k].address;
      assert balances[j].0 == before[k].address;
    } else {
      assert balances[n].0 == PendingRows(shares, balances)[k].address;
    }
  }
}

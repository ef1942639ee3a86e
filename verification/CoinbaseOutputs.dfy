/** From derived percentages back to sats: the outputs of the coinbase transaction. */
module CoinbaseOutputs {
  import opened Sums
  import opened ByteStrings
  import opened CoinbaseSplit
  import opened CoinbaseGuarantees

  datatype Recipient = Recipient(address: Address, percent: real)

  datatype Output = Output(script: Bytes, value: int)

  /** `Math.floor((percent / 100) * reward)` */
  function Amount(percent: real, reward: int): int {
    (percent / 100.0 * reward as real).Floor
  }

  function Amounts(recipients: seq<Recipient>, reward: int): (r: seq<int>)
    ensures |r| == |recipients|
  {
    seq(|recipients|, k requires 0 <= k < |recipients| => Amount(recipients[k].percent, reward))
  }

  function Values(outs: seq<Output>): (r: seq<int>)
    ensures |r| == |outs|
  {
    seq(|outs|, k requires 0 <= k < |outs| => outs[k].value)
  }

  /** One output per recipient; the first takes whatever the floors leave of the reward. */
  function OutputsFor(recipients: seq<Recipient>, reward: int, payTo: Address -> Bytes): (r: seq<Output>)
    ensures |r| == |recipients|
  {
    var amounts := Amounts(recipients, reward);
    seq(|recipients|, k requires 0 <= k < |recipients| =>
      Output(payTo(recipients[k].address), if k == 0 then amounts[0] + reward - Sum(amounts) else amounts[k]))
  }

  /** The coinbase claims exactly the reward, whatever the percentages say. */
  lemma {:induction false} OutputsTotalTheReward(recipients: seq<Recipient>, reward: int, payTo: Address -> Bytes)
    requires |recipients| > 0
    ensures Sum(Values(OutputsFor(recipients, reward, payTo))) == reward
  {
    var amounts := Amounts(recipients, reward);
    var left := reward - Sum(amounts);
    SumUpdate(amounts, 0, amounts[0] + left);
    assert Values(OutputsFor(recipients, reward, payTo)) == amounts[0 := amounts[0] + left];
  }

  /** Every output but the first is the whole sats of its recipient's percentage, to that recipient's script. */
  lemma {:induction false} OutputAt(recipients: seq<Recipient>, reward: int, payTo: Address -> Bytes, k: nat)
    requires k < |recipients|
    ensures var (o, r) := (OutputsFor(recipients, reward, payTo)[k], recipients[k]);
            && o.script == payTo(r.address)
            && (k > 0 ==> 100.0 * o.value as real <= r.percent * reward as real < 100.0 * (o.value + 1) as real)
  {
    var part := recipients[k].percent / 100.0 * reward as real;
    assert part * 100.0 == recipients[k].percent * reward as real by {
      var p := recipients[k].percent / 100.0;
      assert p * 100.0 == recipients[k].percent;
      assert p * reward as real * 100.0 == p * 100.0 * reward as real;
    }
  }

  /** The witness commitment claims nothing. */
  lemma {:induction false} OneMoreOutput(recipients: seq<Recipient>, reward: int, payTo: Address -> Bytes,
                                         commitment: Bytes)
    requires |recipients| > 0
    ensures Sum(Values(OutputsFor(recipients, reward, payTo) + [Output(commitment, 0)])) == reward
  {
    var outs := OutputsFor(recipients, reward, payTo);
    OutputsTotalTheReward(recipients, reward, payTo);
    assert Values(outs + [Output(commitment, 0)]) == Values(outs) + [0];
    SumConcat(Values(outs), [0]);
    SumOne(0);
  }

  datatype Built = Built(outs: seq<Output>) | NoFirstOutput

  /** `createCoinbaseTransaction`; without recipients the last statement throws. */
  method CreateOutputs(recipients: seq<Recipient>, reward: int, payTo: Address -> Bytes) returns (r: Built)
    ensures r == if |recipients| == 0 then NoFirstOutput else Built(OutputsFor(recipients, reward, payTo))
  {
    var outs: seq<Output> := [];
    var rewardBalance := reward;
    ghost var amounts := Amounts(recipients, reward);
    var n := 0;
    while n < |recipients|
      invariant n <= |recipients| && |outs| == n
      invariant forall k :: 0 <= k < n ==> outs[k] == Output(payTo(recipients[k].address), amounts[k])
      invariant rewardBalance == reward - Sum(amounts[..n])
    {
      var amount := Amount(recipients[n].percent, reward);
      rewardBalance := rewardBalance - amount;
      outs := outs + [Output(payTo(recipients[n].address), amount)];
      assert amounts[..n + 1][..n] == amounts[..n];
      n := n + 1;
    }
    if n == 0 { return NoFirstOutput; }
    assert amounts[..n] == amounts;
    outs := outs[0 := Output(outs[0].script, outs[0].value + rewardBalance)];
    assert outs == OutputsFor(recipients, reward, payTo);
    r := Built(outs);
  }

  // ----- Payout lists keep their sats -----

  function RecipientsOf(payouts: seq<Payout>): (r: seq<Recipient>)
    ensures |r| == |payouts|
  {
    seq(|payouts|, k requires 0 <= k < |payouts| => Recipient(payouts[k].address, payouts[k].percent))
  }

  /** The percentage of every payout gives its sats back. */
  ghost predicate PercentsShowSats(payouts: seq<Payout>, reward: int) {
    forall k :: 0 <= k < |payouts| ==> Amount(payouts[k].percent, reward) == payouts[k].sats
  }

  lemma PercentShowsSats(a: Address, sats: int, reward: nat)
    requires reward > 0
    ensures Amount(PayoutOf(a, sats, reward).percent, reward) == sats
    ensures Amount(100.0, reward) == reward
  {
    var whole := reward as real;
    assert sats as real / whole * 100.0 / 100.0 * whole == sats as real;
    assert 100.0 / 100.0 * whole == whole;
  }

  /** Output i > 0 is the i-th payout to the sat; only output 0 absorbs what the payouts leave over. */
  lemma {:induction false} PayoutsBecomeOutputs(payouts: seq<Payout>, reward: int, payTo: Address -> Bytes)
    requires |payouts| > 0 && PercentsShowSats(payouts, reward)
    ensures var outs := OutputsFor(RecipientsOf(payouts), reward, payTo);
            && Sum(Values(outs)) == reward
            && outs[0] == Output(payTo(payouts[0].address), payouts[0].sats + reward - TotalPaid(payouts))
            && forall k :: 0 < k < |payouts| ==> outs[k] == Output(payTo(payouts[k].address), payouts[k].sats)
  {
    OutputsTotalTheReward(RecipientsOf(payouts), reward, payTo);
    assert Amounts(RecipientsOf(payouts), reward) == SatsOf(payouts);
  }

  // ----- The PPLNS and Group-Solo distribution -----

  lemma {:induction false} MinersShowSats(rows: seq<Row>, pay: seq<int>, order: seq<nat>, reward: nat)
    requires |pay| == |rows| && reward > 0 && forall i :: 0 <= i < |order| ==> order[i] < |rows|
    ensures PercentsShowSats(MinerPayouts(rows, pay, order, reward), reward)
  {
    if |order| != 0 {
      MinersShowSats(rows, pay, order[..|order| - 1], reward);
      var k := order[|order| - 1];
      PercentShowsSats(rows[k].address, pay[k], reward);
    }
  }

  lemma ZeroRewardParts(i: Input)
    requires i.blockRewardSats == 0
    ensures !i.FeeEmitted() && !i.BonusEmitted() && i.FeeSats() == 0 && i.RewardForMiners() == 0
  {
    assert i.feePercent / 100.0 * 0.0 == 0.0;
    assert i.WantFee() == 0;
  }

  lemma {:induction false} ZeroRewardPaysNoMiner(i: Input, o: Outcome, weightOf: Address -> nat)
    requires i.blockRewardSats == 0 && o == Settle(i, weightOf) && o.Settled?
    ensures MinersOf(i, o) == []
  {
    ZeroRewardParts(i);
    SettledFacts(i, weightOf);
    DroppingLosesNothing(i, weightOf);
    MinersArePaidPositively(i, o);
    NothingPaid(MinersOf(i, o));
  }

  /** With nothing to distribute, no fee, bonus or miner output is built. */
  lemma {:induction false} ZeroRewardPaysNoOne(i: Input, o: Outcome, weightOf: Address -> nat)
    requires i.blockRewardSats == 0 && o == Settle(i, weightOf)
    ensures o.WellFormed() && Payouts(i, o) == ToFeeOnly(i)
  {
    if o.Settled? {
      ZeroRewardPaysNoMiner(i, o, weightOf);
      ZeroRewardFixed(i, o.feeBonus);
    }
  }

  lemma ZeroRewardFixed(i: Input, feeBonus: int)
    requires i.blockRewardSats == 0
    ensures FixedPayouts(i, feeBonus) == []
  {
    ZeroRewardParts(i);
  }

  lemma {:induction false} NothingPaid(payouts: seq<Payout>)
    requires AllPositive(payouts) && TotalPaid(payouts) <= 0
    ensures payouts == []
  {
    if |payouts| != 0 {
      var n := |payouts| - 1;
      assert SatsOf(payouts)[..n] == SatsOf(payouts[..n]);
      PositiveTotal(payouts[..n]);
    }
  }

  lemma {:induction false} FixedShowSats(i: Input, feeBonus: int)
    requires i.blockRewardSats > 0
    ensures PercentsShowSats(FixedPayouts(i, feeBonus), i.blockRewardSats)
  {
    PercentShowsSats(i.feeAddress, i.FeeSats() + feeBonus, i.blockRewardSats);
    PercentShowsSats(i.finderAddress, i.BonusSats(), i.blockRewardSats);
  }

  lemma {:induction false} ConcatShowsSats(a: seq<Payout>, b: seq<Payout>, reward: int)
    requires PercentsShowSats(a, reward) && PercentsShowSats(b, reward)
    ensures PercentsShowSats(a + b, reward)
  {
  }

  lemma {:induction false} FeeOnlyShowsSats(i: Input)
    ensures PercentsShowSats(ToFeeOnly(i), i.blockRewardSats)
  {
    assert 100.0 / 100.0 * i.blockRewardSats as real == i.blockRewardSats as real;
  }

  lemma {:induction false} OutcomeShowsSats(i: Input, o: Outcome)
    requires o.WellFormed() && i.blockRewardSats > 0
    ensures PercentsShowSats(Payouts(i, o), i.blockRewardSats)
  {
    FeeOnlyShowsSats(i);
    if o.Settled? {
      FixedShowSats(i, o.feeBonus);
      MinersShowSats(o.rows, o.pay, EmissionOrder(o.trim.kept, o.pay), i.blockRewardSats);
      ConcatShowsSats(FixedPayouts(i, o.feeBonus), MinersOf(i, o), i.blockRewardSats);
    }
  }

  lemma {:induction false} DistributionShowsSats(i: Input, weightOf: Address -> nat)
    ensures PercentsShowSats(Distribution(i, weightOf).payouts, i.blockRewardSats)
  {
    FeeOnlyShowsSats(i);
    if i.blockRewardSats == 0 {
      ZeroRewardPaysNoOne(i, Settle(i, weightOf), weightOf);
    } else {
      OutcomeShowsSats(i, Settle(i, weightOf));
    }
  }

  /**
   * The distribution, turned into percentages and back into a coinbase, pays every output its sats;
   * the coinbase claims exactly the reward and the first output takes up any shortfall.
   */
  lemma {:induction false} DistributionBecomesCoinbase(i: Input, weightOf: Address -> nat, payTo: Address -> Bytes)
    requires |Distribution(i, weightOf).payouts| > 0
    ensures var p := Distribution(i, weightOf).payouts;
            var outs := OutputsFor(RecipientsOf(p), i.blockRewardSats, payTo);
            && Sum(Values(outs)) == i.blockRewardSats
            && outs[0] == Output(payTo(p[0].address), p[0].sats + i.blockRewardSats - TotalPaid(p))
            && forall k :: 0 < k < |p| ==> outs[k] == Output(payTo(p[k].address), p[k].sats)
    ensures i.feePercent <= 100.0 ==>
              var p := Distribution(i, weightOf).payouts;
              OutputsFor(RecipientsOf(p), i.blockRewardSats, payTo)[0].value >= p[0].sats
  {
    DistributionShowsSats(i, weightOf);
    PayoutsBecomeOutputs(Distribution(i, weightOf).payouts, i.blockRewardSats, payTo);
    if i.feePercent <= 100.0 {
      NeverOverEmits(i, weightOf);
    }
  }
}

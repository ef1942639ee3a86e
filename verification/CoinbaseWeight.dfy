/** The weight the trim budgets for against the weight of the coinbase that is built. */
module CoinbaseWeight {
  import opened Sums
  import opened ByteStrings
  import opened CoinbaseSplit
  import opened CoinbaseTrim
  import opened CoinbaseGuarantees
  import opened CoinbaseOutputs
  import opened CoinbaseLayout
  import opened CoinbaseParsing
  import opened CoinbaseDistribution

  /** The length of the script an address of this kind is paid to. */
  function ScriptLengthOf(kind: AddressKind): nat {
    match kind
    case P2wpkh => 22 // OP_0, 20 bytes
    case P2sh => 23   // OP_HASH160, 20 bytes, OP_EQUAL
    case P2pkh => 25  // OP_DUP OP_HASH160, 20 bytes, OP_EQUALVERIFY OP_CHECKSIG
    case P2wsh => 34  // OP_0, 32 bytes
    case P2tr => 34   // OP_1, 32 bytes
    case Unparseable => 34
  }

  /** The table's weight is four times the bytes of the output. */
  lemma KindWeightIsBytes(kind: AddressKind, o: Output)
    requires o.value >= 0 && |o.script| == ScriptLengthOf(kind)
    ensures KindWeight(kind) == 4 * |OneOutput(o)|
  {
  }

  /** No output weighs more than was budgeted for its address. */
  ghost predicate Budgeted(weightOf: Address -> nat, payTo: Address -> Bytes, a: Address) {
    4 * (8 + |VarSlice(payTo(a))|) <= weightOf(a)
  }

  /** So it is with the memoised weights, when every address is of the kind its script says. */
  lemma ClassifiedIsBudgeted(classify: Address -> AddressKind, payTo: Address -> Bytes, a: Address)
    requires a != "" && |payTo(a)| == ScriptLengthOf(classify(a))
    ensures Budgeted(x => OutputWeight(classify, x), payTo, a)
  {
    KindWeightIsBytes(classify(a), Output(payTo(a), 0));
  }

  function Weights(p: seq<Payout>, weightOf: Address -> nat): (r: seq<int>)
    ensures |r| == |p|
  {
    seq(|p|, k requires 0 <= k < |p| => weightOf(p[k].address) as int)
  }

  /** No output is negative or heavier than the bound at its place. */
  ghost predicate Bounded(outs: seq<Output>, bounds: seq<int>) {
    |bounds| == |outs| &&
    forall k :: 0 <= k < |outs| ==> outs[k].value >= 0 && 4 * (8 + |VarSlice(outs[k].script)|) <= bounds[k]
  }

  lemma {:induction false} OutputBytesLength(outs: seq<Output>, bounds: seq<int>)
    requires Bounded(outs, bounds)
    ensures 4 * |OutputBytes(outs)| <= Sum(bounds)
  {
    if |outs| != 0 {
      OutputBytesLength(outs[..|outs| - 1], bounds[..|outs| - 1]);
    }
  }

  /** What the coinbase weighs beside the payouts: its frame, its script, and a commitment of 38 bytes. */
  lemma {:induction false} CoinbaseWeighs(script: Bytes, outs: seq<Output>, commitment: Output, bounds: seq<int>)
    requires |script| < 0xFD && |commitment.script| == 38 && commitment.value == 0 && Bounded(outs, bounds)
    ensures Weight(script, Tail(outs + [commitment])) <=
              Sum(bounds) + 188 + 236 + 4 * (|script| + |VarInt(|outs| + 1)|)
  {
    var all := outs + [commitment];
    assert all[..|outs|] == outs;
    OutputBytesLength(outs, bounds);
    assert |OutputBytes(all)| == |OutputBytes(outs)| + 8 + |VarSlice(commitment.script)|;
  }

  lemma {:induction false} MinerWeights(rows: seq<Row>, pay: seq<int>, order: seq<nat>, reward: nat,
                                        weightOf: Address -> nat)
    requires |pay| == |rows| && forall i :: 0 <= i < |order| ==> order[i] < |rows|
    ensures Sum(Weights(MinerPayouts(rows, pay, order, reward), weightOf)) <=
              Sum(Pick(WeightsOf(rows, weightOf), order))
  {
    if |order| != 0 {
      var n := |order| - 1;
      var k := order[n];
      var before := MinerPayouts(rows, pay, order[..n], reward);
      MinerWeights(rows, pay, order[..n], reward, weightOf);
      assert Pick(WeightsOf(rows, weightOf), order)[..n] == Pick(WeightsOf(rows, weightOf), order[..n]);
      PickAsInts(WeightsOf(rows, weightOf), order);
      var last := PayoutOf(rows[k].address, pay[k], reward);
      assert Weights(before + [last], weightOf)[..|before|] == Weights(before, weightOf);
    }
  }

  lemma PickAsInts(w: seq<nat>, idx: seq<nat>)
    requires |idx| > 0 && forall i :: 0 <= i < |idx| ==> idx[i] < |w|
    ensures Sum(Pick(w, idx)) == Sum(Pick(w, idx[..|idx| - 1])) + w[idx[|idx| - 1]]
  {
    var n := |idx| - 1;
    var all: seq<int> := Pick(w, idx);
    assert all[..n] == Pick(w, idx[..n]);
  }

  lemma {:induction false} SameMembersSameWeight(w: seq<nat>, a: seq<nat>, b: seq<nat>)
    requires Distinct(a) && Distinct(b) && forall x :: x in a <==> x in b
    requires (forall i :: 0 <= i < |a| ==> a[i] < |w|) && forall i :: 0 <= i < |b| ==> b[i] < |w|
    ensures Sum(Pick(w, a)) == Sum(Pick(w, b))
  {
    var wa, wb: seq<int> := Pick(w, a), Pick(w, b);
    SumZeros(|w|);
    SumAddAll(Zeros(|w|), a, wa);
    SumAddAll(Zeros(|w|), b, wb);
    forall k: nat | k < |w|
      ensures AddAll(Zeros(|w|), a, wa)[k] == AddAll(Zeros(|w|), b, wb)[k]
    {
      if k in a {
        var i :| 0 <= i < |a| && a[i] == k;
        var j :| 0 <= j < |b| && b[j] == k;
        AddAllAt(Zeros(|w|), a, wa, i);
        AddAllAt(Zeros(|w|), b, wb, j);
      } else {
        AddAllElsewhere(Zeros(|w|), a, wa, k);
        AddAllElsewhere(Zeros(|w|), b, wb, k);
      }
    }
    assert AddAll(Zeros(|w|), a, wa) == AddAll(Zeros(|w|), b, wb);
  }

  lemma WeightsConcat(p: seq<Payout>, q: seq<Payout>, weightOf: Address -> nat)
    ensures Sum(Weights(p + q, weightOf)) == Sum(Weights(p, weightOf)) + Sum(Weights(q, weightOf))
  {
    assert Weights(p + q, weightOf) == Weights(p, weightOf) + Weights(q, weightOf);
    SumConcat(Weights(p, weightOf), Weights(q, weightOf));
  }

  lemma WeightOfOne(p: Payout, weightOf: Address -> nat)
    ensures Sum(Weights([p], weightOf)) == weightOf(p.address) && Sum(Weights([], weightOf)) == 0
  {
    SumOne(weightOf(p.address));
    assert Weights([p], weightOf) == [weightOf(p.address) as int] && Weights([], weightOf) == [];
  }

  lemma {:induction false} FixedWeights(i: Input, feeBonus: int, weightOf: Address -> nat)
    ensures Sum(Weights(FixedPayouts(i, feeBonus), weightOf)) == FixedWeight(i, weightOf) - 516
  {
    var fee := PayoutOf(i.feeAddress, i.FeeSats() + feeBonus, i.blockRewardSats);
    var bonus := PayoutOf(i.finderAddress, i.BonusSats(), i.blockRewardSats);
    WeightOfOne(fee, weightOf);
    WeightOfOne(bonus, weightOf);
    WeightsConcat(if i.FeeEmitted() then [fee] else [], if i.BonusEmitted() then [bonus] else [], weightOf);
  }

  /** The budgeted weights of a settled block's payouts, with 516 for the frame, stay within the trim's limit. */
  lemma {:induction false} PayoutsAreBudgeted(i: Input, weightOf: Address -> nat)
    requires Settle(i, weightOf).Settled?
    ensures var o := Settle(i, weightOf);
            var limit := (if i.coinbaseWeightBudget > 0 then i.coinbaseWeightBudget else 50000) - 200;
            FixedWeight(i, weightOf) <= limit ==>
              Sum(Weights(FixedPayouts(i, o.feeBonus) + MinersOf(i, o), weightOf)) + 516 <= limit
    ensures var p := FixedPayouts(i, Settle(i, weightOf).feeBonus) + MinersOf(i, Settle(i, weightOf));
            |p| > 0 ==> Distribution(i, weightOf).payouts == p
  {
    var o := Settle(i, weightOf);
    SettledFacts(i, weightOf);
    var order := EmissionOrder(o.trim.kept, o.pay);
    EmissionOrderMembers(o.trim.kept, o.pay);
    MinerWeights(o.rows, o.pay, order, i.blockRewardSats, weightOf);
    SameMembersSameWeight(WeightsOf(o.rows, weightOf), order, o.trim.kept);
    TrimRespectsBudget(i, o.rows, weightOf);
    FixedWeights(i, o.feeBonus, weightOf);
    WeightsConcat(FixedPayouts(i, o.feeBonus), MinersOf(i, o), weightOf);
  }

  lemma {:induction false} OutputsAreBudgeted(i: Input, weightOf: Address -> nat, payTo: Address -> Bytes)
    requires i.feePercent <= 100.0 && |Distribution(i, weightOf).payouts| > 0
    requires var p := Distribution(i, weightOf).payouts;
             forall k :: 0 <= k < |p| ==> Budgeted(weightOf, payTo, p[k].address)
    ensures var p := Distribution(i, weightOf).payouts;
            Bounded(OutputsFor(RecipientsOf(p), i.blockRewardSats, payTo), Weights(p, weightOf))
  {
    DistributionBecomesCoinbase(i, weightOf, payTo);
    NoNegativeOutput(i, weightOf);
    var p := Distribution(i, weightOf).payouts;
    forall k: nat | k < |p| ensures Budgeted(weightOf, payTo, p[k].address) {}
  }

  /** With 73 bytes of script and output count a coinbase of these outputs weighs no more than the budget. */
  ghost predicate WithinBudget(script: Bytes, outs: seq<Output>, budget: int) {
    && (forall k :: 0 <= k < |outs| ==> outs[k].value >= 0)
    && Weight(script, Tail(outs)) <= budget + 4 * (|script| + |VarInt(|outs|)| - 73)
  }

  lemma {:induction false} OutputsWeigh(outs: seq<Output>, bounds: seq<int>, script: Bytes, commitment: Output,
                                        budget: int)
    requires |script| < 0xFD && |commitment.script| == 38 && commitment.value == 0 && Bounded(outs, bounds)
    ensures Sum(bounds) + 716 <= budget ==> WithinBudget(script, outs + [commitment], budget)
  {
    CoinbaseWeighs(script, outs, commitment, bounds);
  }

  /**
   * The coinbase a settled distribution becomes weighs no more than the configured budget, as long as
   * its fee and bonus fit it, no output weighs more than was budgeted for its address, and the script
   * with the output count takes at most 73 bytes. Beyond that it may exceed it by four for every byte.
   */
  lemma {:induction false} CoinbaseWithinBudget(i: Input, weightOf: Address -> nat, payTo: Address -> Bytes,
                                                script: Bytes, commitment: Output)
    requires Settle(i, weightOf).Settled? && |FixedPayouts(i, Settle(i, weightOf).feeBonus)
               + MinersOf(i, Settle(i, weightOf))| > 0
    requires var p := Distribution(i, weightOf).payouts;
             forall k :: 0 <= k < |p| ==> Budgeted(weightOf, payTo, p[k].address)
    requires |script| < 0xFD && |commitment.script| == 38 && commitment.value == 0
    requires i.feePercent <= 100.0
    ensures var budget := if i.coinbaseWeightBudget > 0 then i.coinbaseWeightBudget else 50000;
            var outs := OutputsFor(RecipientsOf(Distribution(i, weightOf).payouts), i.blockRewardSats, payTo);
            FixedWeight(i, weightOf) + 200 <= budget ==> WithinBudget(script, outs + [commitment], budget)
  {
    var p := Distribution(i, weightOf).payouts;
    var budget := if i.coinbaseWeightBudget > 0 then i.coinbaseWeightBudget else 50000;
    PayoutsAreBudgeted(i, weightOf);
    OutputsAreBudgeted(i, weightOf, payTo);
    OutputsWeigh(OutputsFor(RecipientsOf(p), i.blockRewardSats, payTo), Weights(p, weightOf), script, commitment,
                 budget);
  }
}

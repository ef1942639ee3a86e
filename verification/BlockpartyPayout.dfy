/** The fixed-percentage split of a Blockparty block. */
module BlockpartyPayout {
  import opened Sums
  import opened Apportionment
  import opened ByteStrings
  import opened CoinbaseSplit
  import opened CoinbaseOutputs

  const FULL_BP: int := 10000

  datatype Member = Member(address: Address, percentBp: int)

  datatype PartyInput = PartyInput(
    members: seq<Member>,
    blockRewardSats: int,
    poolFeeAddress: Address,
    poolFeePercent: real,
    minPayoutSats: int)
  {
    function Dust(): int { if minPayoutSats > DUST_LIMIT_SATS then minPayoutSats else DUST_LIMIT_SATS }

    function BaseFee(): int { (blockRewardSats as real * poolFeePercent / 100.0).Floor }

    function MinerCut(): int { blockRewardSats - BaseFee() }
  }

  datatype Share = Share(address: Address, percentBp: int, sats: int, trimmed: bool)

  function Nominal(cut: int, bp: int): int { cut * bp / FULL_BP }

  /** A member's share; below the dust threshold it goes to the pool. */
  function ShareFor(cut: int, dust: int, m: Member): Share {
    if Nominal(cut, m.percentBp) < dust then Share(m.address, m.percentBp, 0, true)
    else Share(m.address, m.percentBp, Nominal(cut, m.percentBp), false)
  }

  function Shares(i: PartyInput): (r: seq<Share>)
    ensures |r| == |i.members|
  {
    seq(|i.members|, k requires 0 <= k < |i.members| => ShareFor(i.MinerCut(), i.Dust(), i.members[k]))
  }

  function ShareSats(shares: seq<Share>): (r: seq<int>)
    ensures |r| == |shares|
  {
    seq(|shares|, k requires 0 <= k < |shares| => shares[k].sats)
  }

  datatype PartyResult = PartyResult(shares: seq<Share>, poolFeeSats: int, payouts: seq<Payout>)

  function PaidShares(shares: seq<Share>, reward: nat): seq<Payout> {
    if |shares| == 0 then []
    else
      var last := shares[|shares| - 1];
      PaidShares(shares[..|shares| - 1], reward) +
      (if last.sats > 0 then [PayoutOf(last.address, last.sats, reward)] else [])
  }

  /** `buildBlockpartyDistribution` */
  function PartyDistribution(i: PartyInput): PartyResult {
    if i.blockRewardSats <= 0 then PartyResult([], 0, [])
    else if |i.members| == 0 then
      PartyResult([], i.blockRewardSats,
                  if i.poolFeeAddress != "" then [Payout(i.poolFeeAddress, 100.0, i.blockRewardSats)] else [])
    else
      var shares := Shares(i);
      var poolFee := i.blockRewardSats - Sum(ShareSats(shares));
      var feeOut := if i.poolFeeAddress != "" && poolFee > 0
                    then [PayoutOf(i.poolFeeAddress, poolFee, i.blockRewardSats)] else [];
      PartyResult(shares, poolFee, feeOut + PaidShares(shares, i.blockRewardSats))
  }

  method BuildBlockpartyDistribution(i: PartyInput) returns (r: PartyResult)
    ensures r == PartyDistribution(i)
  {
    if i.blockRewardSats <= 0 { return PartyResult([], 0, []); }
    if |i.members| == 0 {
      return PartyResult([], i.blockRewardSats,
                         if i.poolFeeAddress != "" then [Payout(i.poolFeeAddress, 100.0, i.blockRewardSats)] else []);
    }
    var shares := Shares(i);
    var paidToMembers := Sum(ShareSats(shares));
    var poolFeeSats := i.blockRewardSats - paidToMembers;
    var payouts: seq<Payout> := [];
    if i.poolFeeAddress != "" && poolFeeSats > 0 {
      payouts := [PayoutOf(i.poolFeeAddress, poolFeeSats, i.blockRewardSats)];
    }
    ghost var feeOut := payouts;
    var n := 0;
    while n < |shares|
      invariant n <= |shares| && payouts == feeOut + PaidShares(shares[..n], i.blockRewardSats)
    {
      assert shares[..n + 1][..n] == shares[..n];
      if shares[n].sats > 0 {
        payouts := payouts + [PayoutOf(shares[n].address, shares[n].sats, i.blockRewardSats)];
      }
      n := n + 1;
    }
    assert shares[..n] == shares;
    r := PartyResult(shares, poolFeeSats, payouts);
  }

  // ----- Conservation -----

  lemma {:induction false} PaidSharesTotal(shares: seq<Share>, reward: nat)
    requires forall k :: 0 <= k < |shares| ==> shares[k].sats >= 0
    ensures TotalPaid(PaidShares(shares, reward)) == Sum(ShareSats(shares))
  {
    if |shares| != 0 {
      var n := |shares| - 1;
      PaidSharesTotal(shares[..n], reward);
      assert ShareSats(shares)[..n] == ShareSats(shares[..n]);
      var before := PaidShares(shares[..n], reward);
      var last := PayoutOf(shares[n].address, shares[n].sats, reward);
      assert SatsOf(before + [last])[..|before|] == SatsOf(before);
      assert before + [] == before;
    }
  }

  lemma SharesAreZeroOrAboveDust(i: PartyInput, k: nat)
    requires k < |i.members|
    ensures var s := Shares(i)[k];
            if s.trimmed then s.sats == 0 else s.sats >= 546
  {
  }

  lemma {:induction false} FeeInFront(fee: Payout, rest: seq<Payout>)
    ensures TotalPaid([fee] + rest) == fee.sats + TotalPaid(rest) && [] + rest == rest
  {
    assert SatsOf([fee] + rest) == [fee.sats] + SatsOf(rest);
    SumConcat([fee.sats], SatsOf(rest));
    SumOne(fee.sats);
  }

  /** What the outputs add up to. */
  lemma {:induction false} PartyTotal(i: PartyInput)
    requires i.blockRewardSats > 0 && |i.members| > 0
    ensures var r := PartyDistribution(i);
            TotalPaid(r.payouts) ==
              i.blockRewardSats - (if i.poolFeeAddress != "" && r.poolFeeSats > 0 then 0 else r.poolFeeSats)
  {
    var r := PartyDistribution(i);
    forall k | 0 <= k < |r.shares| ensures r.shares[k].sats >= 0 { SharesAreZeroOrAboveDust(i, k); }
    PaidSharesTotal(r.shares, i.blockRewardSats);
    FeeInFront(PayoutOf(i.poolFeeAddress, r.poolFeeSats, i.blockRewardSats), PaidShares(r.shares, i.blockRewardSats));
  }

  /** The members' percentages, 0 for one whose share is below the dust threshold. */
  function UntrimmedBps(i: PartyInput): (r: seq<int>)
    ensures |r| == |i.members|
  {
    seq(|i.members|, k requires 0 <= k < |i.members| =>
      if Nominal(i.MinerCut(), i.members[k].percentBp) < i.Dust() then 0 else i.members[k].percentBp)
  }

  /** What the members are owed together: the floors of the untrimmed percentages of the miner cut. */
  function Owed(i: PartyInput): int { Sum(Floors(i.MinerCut(), UntrimmedBps(i), FULL_BP)) }

  lemma {:induction false} SharesAreFloors(i: PartyInput)
    ensures Sum(ShareSats(Shares(i))) == Owed(i)
  {
    assert ShareSats(Shares(i)) == Floors(i.MinerCut(), UntrimmedBps(i), FULL_BP);
  }

  /**
   * The outputs exceed the reward exactly when the untrimmed members are owed more than it, and are
   * exactly the reward unless they do, or there is something left and no fee address to take it.
   */
  lemma {:induction false} PartyEmitsExactlyIff(i: PartyInput)
    requires i.blockRewardSats > 0 && |i.members| > 0
    ensures var total := TotalPaid(PartyDistribution(i).payouts);
            && (total == i.blockRewardSats
                <==> Owed(i) == i.blockRewardSats || (Owed(i) < i.blockRewardSats && i.poolFeeAddress != ""))
            && (total <= i.blockRewardSats <==> Owed(i) <= i.blockRewardSats)
            && (total > i.blockRewardSats ==> total == Owed(i))
  {
    PartyTotal(i);
    SharesAreFloors(i);
  }

  /** What the members are owed, from their percentages: less than one sat each below the exact amount. */
  lemma {:induction false} OwedBounds(i: PartyInput)
    ensures FULL_BP * Owed(i) <= i.MinerCut() * Sum(UntrimmedBps(i))
    ensures i.MinerCut() * Sum(UntrimmedBps(i)) <= FULL_BP * Owed(i) + |i.members| * (FULL_BP - 1)
  {
    FloorsScaled(i.MinerCut(), UntrimmedBps(i), FULL_BP);
  }

  lemma {:induction false} PercentagesDecideOwed(i: PartyInput)
    ensures i.MinerCut() * Sum(UntrimmedBps(i)) <= FULL_BP * i.blockRewardSats ==> Owed(i) <= i.blockRewardSats
    ensures i.MinerCut() * Sum(UntrimmedBps(i)) >= FULL_BP * (i.blockRewardSats + |i.members|) && |i.members| > 0 ==>
              Owed(i) > i.blockRewardSats
  {
    OwedBounds(i);
  }

  /** The percentages decide it, but for one sat a member: within the reward below, over it above. */
  lemma {:induction false} PercentagesDecideEmission(i: PartyInput)
    requires i.blockRewardSats > 0 && |i.members| > 0
    ensures i.MinerCut() * Sum(UntrimmedBps(i)) <= FULL_BP * i.blockRewardSats ==>
              TotalPaid(PartyDistribution(i).payouts) <= i.blockRewardSats
    ensures i.MinerCut() * Sum(UntrimmedBps(i)) >= FULL_BP * (i.blockRewardSats + |i.members|) ==>
              TotalPaid(PartyDistribution(i).payouts) > i.blockRewardSats
  {
    PartyEmitsExactlyIff(i);
    PercentagesDecideOwed(i);
  }

  /** A party that is owed more than the reward: no pool fee, and the first member's output takes the whole cut. */
  lemma {:induction false} OverfullParty(i: PartyInput, payTo: Address -> Bytes)
    requires i.blockRewardSats > 0 && |i.members| > 0 && Owed(i) > i.blockRewardSats
    ensures var r := PartyDistribution(i);
            var outs := OutputsFor(RecipientsOf(r.payouts), i.blockRewardSats, payTo);
            && r.payouts == PaidShares(Shares(i), i.blockRewardSats) && TotalPaid(r.payouts) == Owed(i)
            && |r.payouts| > 0 && Sum(Values(outs)) == i.blockRewardSats
            && outs[0] == Output(payTo(r.payouts[0].address), r.payouts[0].sats - (Owed(i) - i.blockRewardSats))
            && forall k :: 0 < k < |r.payouts| ==> outs[k] == Output(payTo(r.payouts[k].address), r.payouts[k].sats)
  {
    var p := PartyDistribution(i).payouts;
    SharesAreFloors(i);
    PartyEmitsExactlyIff(i);
    PartyShowsSats(i);
    assert |p| > 0 by { assert |p| == 0 ==> p == [] && SatsOf([]) == []; }
    assert [] + PaidShares(Shares(i), i.blockRewardSats) == PaidShares(Shares(i), i.blockRewardSats);
    PayoutsBecomeOutputs(p, i.blockRewardSats, payTo);
  }

  ghost predicate Buildable(outs: seq<Output>) {
    forall k :: 0 <= k < |outs| ==> outs[k].value >= 0
  }

  lemma {:induction false} PaidSharesPositive(shares: seq<Share>, reward: nat, k: nat)
    requires k < |PaidShares(shares, reward)|
    ensures PaidShares(shares, reward)[k].sats > 0
  {
    var n := |shares| - 1;
    if k < |PaidShares(shares[..n], reward)| {
      PaidSharesPositive(shares[..n], reward, k);
    }
  }

  lemma {:induction false} PartyPayoutsPositive(i: PartyInput, k: nat)
    requires i.blockRewardSats > 0 && |i.members| > 0 && k < |PartyDistribution(i).payouts|
    ensures PartyDistribution(i).payouts[k].sats > 0
  {
    var r := PartyDistribution(i);
    var paid := PaidShares(r.shares, i.blockRewardSats);
    var j := if i.poolFeeAddress != "" && r.poolFeeSats > 0 then k - 1 else k;
    if 0 <= j < |paid| { PaidSharesPositive(r.shares, i.blockRewardSats, j); }
  }

  /** All payouts but the first are their outputs. */
  lemma {:induction false} FirstBears(shares: seq<Share>, reward: nat, p: seq<Payout>, outs: seq<Output>, excess: int)
    requires p == PaidShares(shares, reward) && |outs| == |p| > 0 && outs[0].value == p[0].sats - excess
    requires forall k :: 0 < k < |p| ==> outs[k].value == p[k].sats
    ensures Buildable(outs) <==> p[0].sats >= excess
  {
    forall k: nat | 0 < k < |p|
      ensures outs[k].value >= 0
    {
      PaidSharesPositive(shares, reward, k);
    }
  }

  /** An overfull party's coinbase can be built exactly when the first member's output can bear the excess. */
  lemma {:induction false} OverfullPartyBuildable(i: PartyInput, payTo: Address -> Bytes)
    requires i.blockRewardSats > 0 && |i.members| > 0 && Owed(i) > i.blockRewardSats
    ensures var p := PartyDistribution(i).payouts;
            |p| > 0 && (Buildable(OutputsFor(RecipientsOf(p), i.blockRewardSats, payTo)) <==>
                          p[0].sats >= Owed(i) - i.blockRewardSats)
  {
    var p := PartyDistribution(i).payouts;
    OverfullParty(i, payTo);
    FirstBears(Shares(i), i.blockRewardSats, p, OutputsFor(RecipientsOf(p), i.blockRewardSats, payTo),
               Owed(i) - i.blockRewardSats);
  }

  /** The admin at 1 % in front of two members at 100 % each: no coinbase can be built. */
  lemma {:induction false} SmallAdminUnbuildable(i: PartyInput, payTo: Address -> Bytes)
    requires i == PartyInput([Member("a", 100), Member("b", 10000), Member("c", 10000)], 1000000, "f", 0.0, 0)
    ensures !Buildable(OutputsFor(RecipientsOf(PartyDistribution(i).payouts), i.blockRewardSats, payTo))
  {
    assert i.MinerCut() == 1000000;
    assert Shares(i) == [Share("a", 100, 10000, false), Share("b", 10000, 1000000, false),
                         Share("c", 10000, 1000000, false)];
    ThreeSats(Shares(i));
    SharesAreFloors(i);
    FirstPaid(Shares(i), i.blockRewardSats);
    OverfullParty(i, payTo);
    OverfullPartyBuildable(i, payTo);
  }

  lemma {:induction false} ThreeSats(shares: seq<Share>)
    requires |shares| == 3
    ensures Sum(ShareSats(shares)) == shares[0].sats + shares[1].sats + shares[2].sats
  {
    var s := ShareSats(shares);
    assert s == [s[0]] + [s[1]] + [s[2]];
    SumConcat([s[0]] + [s[1]], [s[2]]);
    SumConcat([s[0]], [s[1]]);
    SumOne(s[0]);
    SumOne(s[1]);
    SumOne(s[2]);
  }

  lemma {:induction false} FirstPaid(shares: seq<Share>, reward: nat)
    requires |shares| > 0 && shares[0].sats > 0
    ensures |PaidShares(shares, reward)| > 0 && PaidShares(shares, reward)[0].sats == shares[0].sats
  {
    var n := |shares| - 1;
    if n > 0 {
      FirstPaid(shares[..n], reward);
    } else {
      assert PaidShares(shares[..n], reward) == [];
    }
  }

  function Bps(members: seq<Member>): (r: seq<int>)
    ensures |r| == |members|
  {
    seq(|members|, k requires 0 <= k < |members| => members[k].percentBp)
  }

  /** What trimming moves from members to the pool. */
  function TrimmedNominal(i: PartyInput): (r: seq<int>)
    ensures |r| == |i.members|
  {
    seq(|i.members|, k requires 0 <= k < |i.members| =>
      if Shares(i)[k].trimmed then Nominal(i.MinerCut(), i.members[k].percentBp) else 0)
  }

  lemma {:induction false} NominalSplit(i: PartyInput)
    ensures Sum(ShareSats(Shares(i))) + Sum(TrimmedNominal(i)) == Sum(Floors(i.MinerCut(), Bps(i.members), FULL_BP))
  {
    SumPointwise(ShareSats(Shares(i)), TrimmedNominal(i), Floors(i.MinerCut(), Bps(i.members), FULL_BP));
  }

  /**
   * When the splits add up to 100 %, the pool output is the base fee, the trimmed shares, and less
   * than one sat per member of rounding.
   */
  lemma {:induction false} PoolKeepsOnlyDustAndRounding(i: PartyInput)
    requires i.blockRewardSats > 0 && |i.members| > 0 && Sum(Bps(i.members)) == FULL_BP
    ensures var kept := PartyDistribution(i).poolFeeSats - i.BaseFee() - Sum(TrimmedNominal(i));
            0 <= kept < |i.members|
  {
    NominalSplit(i);
    FloorsScaled(i.MinerCut(), Bps(i.members), FULL_BP);
    var floors := Sum(Floors(i.MinerCut(), Bps(i.members), FULL_BP));
    assert FULL_BP * floors <= FULL_BP * i.MinerCut();
  }

  lemma {:induction false} CutCoversMembers(i: PartyInput)
    requires i.MinerCut() >= 0 && Sum(Bps(i.members)) <= FULL_BP
    requires forall k :: 0 <= k < |i.members| ==> i.members[k].percentBp >= 0
    ensures Sum(ShareSats(Shares(i))) <= i.MinerCut()
  {
    var cut, floors := i.MinerCut(), Floors(i.MinerCut(), Bps(i.members), FULL_BP);
    FloorsScaled(cut, Bps(i.members), FULL_BP);
    ScaledMonotone(cut, Sum(Bps(i.members)), FULL_BP);
    forall k | 0 <= k < |i.members|
      ensures ShareSats(Shares(i))[k] <= floors[k]
    {
      FloorWithinBp(cut, i.members[k].percentBp);
    }
    SumBounds(ShareSats(Shares(i)), floors);
  }

  lemma FloorWithinBp(cut: int, bp: int)
    requires cut >= 0 && bp >= 0
    ensures Nominal(cut, bp) >= 0
  {
    assert cut * bp >= 0;
  }

  lemma BaseFeeRange(i: PartyInput)
    requires i.blockRewardSats > 0 && 0.0 <= i.poolFeePercent <= 100.0
    ensures 0 <= i.BaseFee() <= i.blockRewardSats
  {
    var reward := i.blockRewardSats as real;
    var scaled := reward * i.poolFeePercent;
    assert 0.0 <= scaled <= reward * 100.0;
    assert 0.0 <= scaled / 100.0 <= reward;
  }

  /**
   * With splits of at most 100 % and a fee between 0 and 100 %, the pool output is never below the
   * base fee, the outputs never exceed the reward, and with a fee address they are exactly it.
   */
  lemma {:induction false} PoolFeeNeverBelowBase(i: PartyInput)
    requires i.blockRewardSats > 0 && |i.members| > 0 && 0.0 <= i.poolFeePercent <= 100.0
    requires Sum(Bps(i.members)) <= FULL_BP && forall k :: 0 <= k < |i.members| ==> i.members[k].percentBp >= 0
    ensures var r := PartyDistribution(i);
            && r.poolFeeSats >= i.BaseFee() >= 0
            && TotalPaid(r.payouts) <= i.blockRewardSats
            && (i.poolFeeAddress != "" ==> TotalPaid(r.payouts) == i.blockRewardSats)
  {
    BaseFeeRange(i);
    CutCoversMembers(i);
    SharesAreFloors(i);
    PartyEmitsExactlyIff(i);
  }

  lemma {:induction false} PaidSharesShowSats(shares: seq<Share>, reward: nat)
    requires reward > 0
    ensures PercentsShowSats(PaidShares(shares, reward), reward)
  {
    if |shares| != 0 {
      var n := |shares| - 1;
      PaidSharesShowSats(shares[..n], reward);
      PercentShowsSats(shares[n].address, shares[n].sats, reward);
    }
  }

  lemma {:induction false} PartyShowsSats(i: PartyInput)
    requires i.blockRewardSats > 0
    ensures PercentsShowSats(PartyDistribution(i).payouts, i.blockRewardSats)
  {
    var r := PartyDistribution(i);
    PercentShowsSats(i.poolFeeAddress, r.poolFeeSats, i.blockRewardSats);
    if |i.members| > 0 {
      PaidSharesShowSats(r.shares, i.blockRewardSats);
      ConcatShowsSats(if i.poolFeeAddress != "" && r.poolFeeSats > 0
                      then [PayoutOf(i.poolFeeAddress, r.poolFeeSats, i.blockRewardSats)] else [],
                      PaidShares(r.shares, i.blockRewardSats), i.blockRewardSats);
    }
  }

  // ----- Who is paid -----

  /** A member's part of the miner cut in whole sats, or nothing where that is below a threshold. */
  function MemberDue(cut: int, minPayout: int, percentBp: int): int {
    var nominal := cut * percentBp / 10000;
    if nominal < 546 || nominal < minPayout then 0 else nominal
  }

  /** What the members under one address are due together. */
  function DueTo(members: seq<Member>, cut: int, minPayout: int, a: Address): int {
    if |members| == 0 then 0
    else
      var m := members[|members| - 1];
      DueTo(members[..|members| - 1], cut, minPayout, a)
      + if m.address == a then MemberDue(cut, minPayout, m.percentBp) else 0
  }

  lemma {:induction false} DueToNobody(members: seq<Member>, cut: int, minPayout: int, a: Address)
    requires forall j :: 0 <= j < |members| ==> members[j].address != a
    ensures DueTo(members, cut, minPayout, a) == 0
  {
    if |members| != 0 {
      DueToNobody(members[..|members| - 1], cut, minPayout, a);
    }
  }

  ghost predicate ApartMembers(members: seq<Member>) {
    forall j, k :: 0 <= j < k < |members| ==> members[j].address != members[k].address
  }

  /** Where addresses are distinct, an address is due its own member's part. */
  lemma {:induction false} DueToOne(members: seq<Member>, cut: int, minPayout: int, k: nat)
    requires ApartMembers(members) && k < |members|
    ensures DueTo(members, cut, minPayout, members[k].address) == MemberDue(cut, minPayout, members[k].percentBp)
  {
    var n := |members| - 1;
    if k == n {
      DueToNobody(members[..n], cut, minPayout, members[n].address);
    } else {
      DueToOne(members[..n], cut, minPayout, k);
    }
  }

  lemma {:induction false} PaidToBehind(p: seq<Payout>, last: Payout, a: Address)
    ensures PaidTo(p + [last], a) == PaidTo(p, a) + (if last.address == a then last.sats else 0)
    ensures PaidTo(p + [], a) == PaidTo(p, a)
  {
    assert (p + [last])[..|p|] == p && p + [] == p;
  }

  function SatsTo(shares: seq<Share>, a: Address): int {
    if |shares| == 0 then 0
    else
      var last := shares[|shares| - 1];
      SatsTo(shares[..|shares| - 1], a) + if last.address == a then last.sats else 0
  }

  lemma {:induction false} SharesPaidTo(shares: seq<Share>, reward: nat, a: Address)
    requires forall k :: 0 <= k < |shares| ==> shares[k].sats >= 0
    ensures PaidTo(PaidShares(shares, reward), a) == SatsTo(shares, a)
  {
    if |shares| != 0 {
      var n := |shares| - 1;
      SharesPaidTo(shares[..n], reward, a);
      PaidToBehind(PaidShares(shares[..n], reward), PayoutOf(shares[n].address, shares[n].sats, reward), a);
    }
  }

  /** A member's share has the member's address and percentage, and is trimmed exactly when nothing is due. */
  ghost predicate ShareFits(share: Share, m: Member, cut: int, minPayout: int) {
    && share.address == m.address && share.percentBp == m.percentBp
    && share.sats == MemberDue(cut, minPayout, m.percentBp) && (share.trimmed <==> share.sats == 0)
  }

  lemma SharesFit(i: PartyInput, k: nat)
    requires k < |i.members|
    ensures ShareFits(Shares(i)[k], i.members[k], i.MinerCut(), i.minPayoutSats) && Shares(i)[k].sats >= 0
  {
  }

  lemma {:induction false} SatsAreDue(members: seq<Member>, shares: seq<Share>, cut: int, minPayout: int, a: Address)
    requires |shares| == |members|
    requires forall k :: 0 <= k < |shares| ==> ShareFits(shares[k], members[k], cut, minPayout)
    ensures SatsTo(shares, a) == DueTo(members, cut, minPayout, a)
  {
    if |members| != 0 {
      var n := |members| - 1;
      SatsAreDue(members[..n], shares[..n], cut, minPayout, a);
      assert ShareFits(shares[n], members[n], cut, minPayout);
    }
  }

  lemma {:induction false} PaidToFront(first: Payout, rest: seq<Payout>, a: Address)
    ensures PaidTo([first] + rest, a) == (if first.address == a then first.sats else 0) + PaidTo(rest, a)
  {
    if |rest| == 0 {
      assert [first] + rest == [] + [first];
      PaidToBehind([], first, a);
    } else {
      var n := |rest| - 1;
      assert ([first] + rest)[..n + 1] == [first] + rest[..n];
      PaidToFront(first, rest[..n], a);
    }
  }

  /** The base fee is the floored percentage, and what the members do not get of the reward is the pool's. */
  lemma PoolGetsTheRest(i: PartyInput)
    requires i.blockRewardSats > 0 && |i.members| > 0
    ensures PartyDistribution(i).poolFeeSats == i.blockRewardSats - Sum(ShareSats(PartyDistribution(i).shares))
    ensures var base := i.blockRewardSats - i.MinerCut();
            base as real <= i.blockRewardSats as real * i.poolFeePercent / 100.0 < base as real + 1.0
  {
  }

  /** Every address is paid what its members are due, and the fee address what they leave of the reward besides. */
  lemma {:induction false} PartyPaysWhatIsDue(i: PartyInput, a: Address)
    requires i.blockRewardSats > 0 && |i.members| > 0
    ensures var r := PartyDistribution(i);
            PaidTo(r.payouts, a) == DueTo(i.members, i.MinerCut(), i.minPayoutSats, a)
              + (if a == i.poolFeeAddress && a != "" && r.poolFeeSats > 0 then r.poolFeeSats else 0)
  {
    var fee := PartyDistribution(i).poolFeeSats;
    SharesPayWhatIsDue(i, a);
    PaidWithFee(i.poolFeeAddress, fee, i.blockRewardSats, PaidShares(Shares(i), i.blockRewardSats), a);
  }

  lemma {:induction false} PaidWithFee(feeAddress: Address, fee: int, reward: nat, rest: seq<Payout>, a: Address)
    ensures var feeOut := if feeAddress != "" && fee > 0 then [PayoutOf(feeAddress, fee, reward)] else [];
            PaidTo(feeOut + rest, a) == PaidTo(rest, a) + if a == feeAddress && a != "" && fee > 0 then fee else 0
  {
    PaidToFront(PayoutOf(feeAddress, fee, reward), rest, a);
    assert [] + rest == rest;
  }

  lemma {:induction false} SharesPayWhatIsDue(i: PartyInput, a: Address)
    requires i.blockRewardSats > 0
    ensures PaidTo(PaidShares(Shares(i), i.blockRewardSats), a) == DueTo(i.members, i.MinerCut(), i.minPayoutSats, a)
  {
    var shares := Shares(i);
    forall k: nat | k < |shares|
      ensures ShareFits(shares[k], i.members[k], i.MinerCut(), i.minPayoutSats) && shares[k].sats >= 0
    {
      SharesFit(i, k);
    }
    SharesPaidTo(shares, i.blockRewardSats, a);
    SatsAreDue(i.members, shares, i.MinerCut(), i.minPayoutSats, a);
  }

  /** A member's own output, with the member's address and exactly what is due. */
  ghost predicate OwnOutput(outs: seq<Output>, payTo: Address -> Bytes, a: Address, sats: int) {
    exists j :: 0 <= j < |outs| && outs[j] == Output(payTo(a), sats)
  }

  lemma {:induction false} ShareIsPaid(shares: seq<Share>, reward: nat, k: nat) returns (j: nat)
    requires k < |shares| && shares[k].sats > 0
    ensures j < |PaidShares(shares, reward)|
    ensures PaidShares(shares, reward)[j] == PayoutOf(shares[k].address, shares[k].sats, reward)
  {
    var n := |shares| - 1;
    if k < n {
      j := ShareIsPaid(shares[..n], reward, k);
    } else {
      j := |PaidShares(shares[..n], reward)|;
    }
  }

  lemma {:induction false} MemberIsPaid(i: PartyInput, k: nat) returns (j: nat)
    requires i.blockRewardSats > 0 && k < |i.members|
    requires MemberDue(i.MinerCut(), i.minPayoutSats, i.members[k].percentBp) > 0
    ensures var p, m := PartyDistribution(i).payouts, i.members[k];
            j < |p| && p[j].address == m.address && p[j].sats == MemberDue(i.MinerCut(), i.minPayoutSats, m.percentBp)
  {
    var r := PartyDistribution(i);
    j := ShareIsPaid(r.shares, i.blockRewardSats, k);
    if i.poolFeeAddress != "" && r.poolFeeSats > 0 {
      j := j + 1;
    } else {
      assert [] + PaidShares(r.shares, i.blockRewardSats) == PaidShares(r.shares, i.blockRewardSats);
    }
  }

  /** A validated party's coinbase pays every payout to the sat, the first one included, and every member's part. */
  lemma {:induction false} PartyBecomesCoinbase(i: PartyInput, payTo: Address -> Bytes)
    requires i.blockRewardSats > 0 && |i.members| > 0 && 0.0 <= i.poolFeePercent <= 100.0 && i.poolFeeAddress != ""
    requires Sum(Bps(i.members)) <= FULL_BP && forall k :: 0 <= k < |i.members| ==> i.members[k].percentBp >= 0
    ensures var p := PartyDistribution(i).payouts;
            var outs := OutputsFor(RecipientsOf(p), i.blockRewardSats, payTo);
            && |p| > 0 && Sum(Values(outs)) == i.blockRewardSats
            && (forall k :: 0 <= k < |p| ==> outs[k] == Output(payTo(p[k].address), p[k].sats))
            && forall k :: 0 <= k < |i.members| ==>
                 var due := MemberDue(i.MinerCut(), i.minPayoutSats, i.members[k].percentBp);
                 due > 0 ==> OwnOutput(outs, payTo, i.members[k].address, due)
  {
    PartyPaysPayouts(i, payTo);
    forall k: nat | k < |i.members| && MemberDue(i.MinerCut(), i.minPayoutSats, i.members[k].percentBp) > 0
      ensures OwnOutput(OutputsFor(RecipientsOf(PartyDistribution(i).payouts), i.blockRewardSats, payTo), payTo,
                        i.members[k].address, MemberDue(i.MinerCut(), i.minPayoutSats, i.members[k].percentBp))
    {
      var j := MemberIsPaid(i, k);
    }
  }

  lemma {:induction false} PartyPaysPayouts(i: PartyInput, payTo: Address -> Bytes)
    requires i.blockRewardSats > 0 && |i.members| > 0 && 0.0 <= i.poolFeePercent <= 100.0 && i.poolFeeAddress != ""
    requires Sum(Bps(i.members)) <= FULL_BP && forall k :: 0 <= k < |i.members| ==> i.members[k].percentBp >= 0
    ensures var p := PartyDistribution(i).payouts;
            var outs := OutputsFor(RecipientsOf(p), i.blockRewardSats, payTo);
            && |p| > 0 && Sum(Values(outs)) == i.blockRewardSats
            && forall k :: 0 <= k < |p| ==> outs[k] == Output(payTo(p[k].address), p[k].sats)
  {
    var p := PartyDistribution(i).payouts;
    PoolFeeNeverBelowBase(i);
    PartyShowsSats(i);
    assert |p| > 0 by { assert |p| == 0 ==> p == [] && SatsOf([]) == []; }
    PayoutsBecomeOutputs(p, i.blockRewardSats, payTo);
  }
}

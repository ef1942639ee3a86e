/** From a distribution to the bytes of a job: what the serialized coinbase pays, read back output by output. */
module PaidJobs {
  import opened Sums
  import opened ByteStrings
  import opened CoinbaseSplit
  import opened CoinbaseGuarantees
  import opened CoinbaseOutputs
  import opened CoinbaseParsing
  import opened MerkleFold
  import opened MiningJob
  import P = BlockpartyPayout

  /** The outputs are the payouts in order, the first one with `extra` on top, and the commitment behind them. */
  ghost predicate PayThese(outs: seq<Output>, p: seq<Payout>, payTo: Address -> Bytes, commitment: Bytes, extra: int) {
    && |outs| == |p| + 1 && outs[|p|] == Output(commitment, 0)
    && forall k :: 0 <= k < |p| ==>
         outs[k] == Output(payTo(p[k].address), p[k].sats + if k == 0 then extra else 0)
  }

  /**
   * The job of a distribution with a fee of at most 100 %: its serialized coinbase reads back as every
   * payout to its own script, what the distribution leaves of the reward on the first, and nothing else.
   */
  method JobOfDistribution(i: Input, weightOf: Address -> nat, payTo: Address -> Bytes, commitment: Bytes,
                           height: nat, identifier: Bytes, blockWeight: nat, hash: Hash)
      returns (job: Job)
    requires i.feePercent <= 100.0 && |Distribution(i, weightOf).payouts| > 0 && 0 < height <= 0x7fff_ffff
    ensures fresh(job.tx) && job.Clean() && job.Pays()
    ensures var p := Distribution(i, weightOf).payouts;
            && PayThese(job.outs, p, payTo, commitment, i.blockRewardSats - TotalPaid(p))
            && TotalPaid(p) <= i.blockRewardSats && Sum(Values(job.outs)) == i.blockRewardSats
    ensures OutputsFit(job.outs) ==>
              Parse(job.tx.Serialized()).Some? && Parse(job.tx.Serialized()).value.outs == job.outs
  {
    var p := Distribution(i, weightOf).payouts;
    DistributionBecomesCoinbase(i, weightOf, payTo);
    NoNegativeOutput(i, weightOf);
    NeverOverEmits(i, weightOf);
    job := new Job(RecipientsOf(p), i.blockRewardSats, payTo, commitment, height, identifier, blockWeight, hash);
  }

  /** The job of a validated party: its serialized coinbase reads back as every payout, to the sat. */
  method JobOfParty(i: P.PartyInput, payTo: Address -> Bytes, commitment: Bytes, height: nat, identifier: Bytes,
                    blockWeight: nat, hash: Hash)
      returns (job: Job)
    requires i.blockRewardSats > 0 && |i.members| > 0 && 0.0 <= i.poolFeePercent <= 100.0 && i.poolFeeAddress != ""
    requires Sum(P.Bps(i.members)) <= 10000 && forall k :: 0 <= k < |i.members| ==> i.members[k].percentBp >= 0
    requires 0 < height <= 0x7fff_ffff
    ensures fresh(job.tx) && job.Clean() && job.Pays()
    ensures PayThese(job.outs, P.PartyDistribution(i).payouts, payTo, commitment, 0)
    ensures OutputsFit(job.outs) ==>
              Parse(job.tx.Serialized()).Some? && Parse(job.tx.Serialized()).value.outs == job.outs
  {
    var p := P.PartyDistribution(i).payouts;
    P.PartyBecomesCoinbase(i, payTo);
    forall k: nat | k < |p| ensures p[k].sats >= 0 { P.PartyPayoutsPositive(i, k); }
    job := new Job(RecipientsOf(p), i.blockRewardSats, payTo, commitment, height, identifier, blockWeight, hash);
  }
}

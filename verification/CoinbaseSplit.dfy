/**
 * What `buildCoinbaseDistribution` decides, phase by phase, as functions on values. The list
 * `pay` holds the on-chain sats of every computed miner; the miner's new balance is what remains
 * of rawFair + balanceOld. The mutable records and loops are in CoinbaseDistribution.dfy.
 */
module CoinbaseSplit {
  import opened Sums
  import opened StableSorting
  import opened Apportionment

  type Address = string

  const DUST_LIMIT_SATS: int := 546
  const DEFAULT_COINBASE_WEIGHT_BUDGET: int := 50000
  const COINBASE_BASE_WEIGHT: int := 328
  const COINBASE_WITNESS_COMMITMENT_WEIGHT: int := 188
  const BUDGET_SAFETY_MARGIN_WU: int := 200

  /** JavaScript maps iterate in insertion order: a list of entries with distinct keys. */
  type Entries<V> = seq<(Address, V)>

  ghost predicate IsMap<V>(m: Entries<V>) {
    forall i, j :: 0 <= i < j < |m| ==> m[i].0 != m[j].0
  }

  function Keys<V>(m: Entries<V>): set<Address> {
    set i | 0 <= i < |m| :: m[i].0
  }

  function Has<V>(m: Entries<V>, a: Address): bool {
    exists i :: 0 <= i < |m| && m[i].0 == a
  }

  /** `map.get(a) ?? 0` */
  function GetOrZero(m: Entries<int>, a: Address): int {
    if |m| == 0 then 0
    else if m[|m| - 1].0 == a then m[|m| - 1].1
    else GetOrZero(m[..|m| - 1], a)
  }

  /**
   * The arguments of one distribution. `finderBonusSats` 0 and `finderAddress` "" stand for an
   * unset bonus; `minPayoutSats` 0 stands for an unset minimum (the code treats both alike).
   */
  datatype Input = Input(
    addressShares: Entries<nat>,
    balances: Entries<int>,
    blockRewardSats: nat,
    feePercent: real,
    feeAddress: Address,
    coinbaseWeightBudget: int,
    suppressMatchingDebits: bool,
    minPayoutSats: int,
    finderBonusSats: int,
    finderAddress: Address)
  {
    ghost predicate Valid() {
      IsMap(addressShares) && IsMap(balances)
    }

    function Budget(): int {
      if coinbaseWeightBudget > 0 then coinbaseWeightBudget else DEFAULT_COINBASE_WEIGHT_BUDGET
    }

    function MinPayout(): int {
      if minPayoutSats > DUST_LIMIT_SATS then minPayoutSats else DUST_LIMIT_SATS
    }

    function Shares(): (s: seq<int>)
      ensures |s| == |addressShares|
      ensures forall k :: 0 <= k < |s| ==> s[k] == addressShares[k].1
    {
      seq(|addressShares|, k requires 0 <= k < |addressShares| => addressShares[k].1)
    }

    function TotalShares(): int { Sum(Shares()) }

    function WantFee(): int { (feePercent / 100.0 * blockRewardSats as real).Floor }

    predicate FeeEmitted() { feeAddress != "" && WantFee() >= MinPayout() }

    function FeeSats(): int { if FeeEmitted() then WantFee() else 0 }

    function WantBonus(): int { if finderAddress != "" then finderBonusSats else 0 }

    /** At most 95 % of what the fee leaves. */
    function CappedBonus(): int {
      var cap := (blockRewardSats - FeeSats()) * 95 / 100;
      if WantBonus() < cap then WantBonus() else cap
    }

    predicate BonusEmitted() { CappedBonus() >= MinPayout() }

    function BonusSats(): int { if BonusEmitted() then CappedBonus() else 0 }

    function RewardForMiners(): int { blockRewardSats - FeeSats() - BonusSats() }
  }

  datatype Row = Row(address: Address, shares: nat, rawFair: int, balanceOld: int) {
    function Target(): int { rawFair + balanceOld }
  }

  // ----- Phases 1 and 2: one row per miner with shares, then one per other non-zero balance -----

  function ActiveRows(i: Input): (rows: seq<Row>)
    requires i.TotalShares() > 0
    ensures |rows| == |i.addressShares|
  {
    var fair := Floors(i.RewardForMiners(), i.Shares(), i.TotalShares());
    seq(|i.addressShares|, k requires 0 <= k < |i.addressShares| =>
      var (a, s) := i.addressShares[k];
      Row(a, s, fair[k], GetOrZero(i.balances, a)))
  }

  function PendingRows(shares: Entries<nat>, balances: Entries<int>): seq<Row> {
    if |balances| == 0 then []
    else
      var (a, b) := balances[|balances| - 1];
      var before := PendingRows(shares, balances[..|balances| - 1]);
      if Has(shares, a) || b == 0 then before else before + [Row(a, 0, 0, b)]
  }

  function Rows(i: Input): seq<Row>
    requires i.TotalShares() > 0
  {
    ActiveRows(i) + PendingRows(i.addressShares, i.balances)
  }

  function Targets(rows: seq<Row>): (r: seq<int>)
    ensures |r| == |rows|
  {
    seq(|rows|, k requires 0 <= k < |rows| => rows[k].Target())
  }

  function SharesOf(rows: seq<Row>): (r: seq<int>)
    ensures |r| == |rows|
  {
    seq(|rows|, k requires 0 <= k < |rows| => rows[k].shares)
  }

  function FairOf(rows: seq<Row>): (r: seq<int>)
    ensures |r| == |rows|
  {
    seq(|rows|, k requires 0 <= k < |rows| => rows[k].rawFair)
  }

  function CreditsOf(rows: seq<Row>): (r: seq<int>)
    ensures |r| == |rows|
  {
    seq(|rows|, k requires 0 <= k < |rows| => rows[k].balanceOld)
  }

  // ----- Phases 3 and 4: eligibility and the greedy weight trim -----

  function EligibleUpTo(rows: seq<Row>, minPayout: int, n: nat): (r: seq<nat>)
    requires n <= |rows|
    ensures forall i :: 0 <= i < |r| ==> r[i] < n && rows[r[i]].Target() >= minPayout
    ensures forall i, j :: 0 <= i < j < |r| ==> r[i] < r[j]
    ensures forall k :: 0 <= k < n && rows[k].Target() >= minPayout ==> k in r
  {
    if n == 0 then []
    else
      var before := EligibleUpTo(rows, minPayout, n - 1);
      if rows[n - 1].Target() >= minPayout then before + [n - 1] else before
  }

  /** The eligible rows, largest target first. */
  function EligibleList(rows: seq<Row>, minPayout: int): (r: seq<nat>)
    ensures forall i :: 0 <= i < |r| ==> r[i] < |rows|
  {
    var found := EligibleUpTo(rows, minPayout, |rows|);
    Pick(found, SortPositions(Negated(Pick(Targets(rows), found))))
  }

  datatype Trim = Trim(kept: seq<nat>, trimmed: seq<nat>, used: int)

  function GreedyTrim(order: seq<nat>, weights: seq<nat>, fixedWeight: int, limit: int): (t: Trim)
    requires forall i :: 0 <= i < |order| ==> order[i] < |weights|
    ensures forall i :: 0 <= i < |t.kept| ==> t.kept[i] < |weights|
    ensures forall i :: 0 <= i < |t.trimmed| ==> t.trimmed[i] < |weights|
  {
    if |order| == 0 then Trim([], [], fixedWeight)
    else
      var before := GreedyTrim(order[..|order| - 1], weights, fixedWeight, limit);
      var k := order[|order| - 1];
      if before.used + weights[k] <= limit
      then Trim(before.kept + [k], before.trimmed, before.used + weights[k])
      else before.(trimmed := before.trimmed + [k])
  }

  /** `outputWeightForAddress` on every row; the weights are a parameter. */
  function WeightsOf(rows: seq<Row>, weightOf: Address -> nat): (r: seq<nat>)
    ensures |r| == |rows|
  {
    seq<nat>(|rows|, k requires 0 <= k < |rows| => weightOf(rows[k].address))
  }

  function FixedWeight(i: Input, weightOf: Address -> nat): int {
    COINBASE_BASE_WEIGHT + COINBASE_WITNESS_COMMITMENT_WEIGHT
    + (if i.FeeEmitted() then weightOf(i.feeAddress) else 0)
    + (if i.BonusEmitted() then weightOf(i.finderAddress) else 0)
  }

  function Trimming(i: Input, rows: seq<Row>, weightOf: Address -> nat): (t: Trim)
    ensures forall k :: 0 <= k < |t.kept| ==> t.kept[k] < |rows|
    ensures forall k :: 0 <= k < |t.trimmed| ==> t.trimmed[k] < |rows|
  {
    GreedyTrim(EligibleList(rows, i.MinPayout()), WeightsOf(rows, weightOf),
               FixedWeight(i, weightOf), i.Budget() - BUDGET_SAFETY_MARGIN_WU)
  }

  /** `list.filter(c => c.shares > 0)` */
  function Working(rows: seq<Row>, idx: seq<nat>): (r: seq<nat>)
    requires forall i :: 0 <= i < |idx| ==> idx[i] < |rows|
    ensures forall i :: 0 <= i < |r| ==> r[i] < |rows|
    ensures forall k :: k in r <==> k in idx && k < |rows| && rows[k].shares > 0
  {
    if |idx| == 0 then []
    else
      var before := Working(rows, idx[..|idx| - 1]);
      var k := idx[|idx| - 1];
      if rows[k].shares > 0 then before + [k] else before
  }

  /** `list.filter(c => c.balanceOld > 0)` */
  function InCredit(rows: seq<Row>, idx: seq<nat>): (r: seq<nat>)
    requires forall i :: 0 <= i < |idx| ==> idx[i] < |rows|
    ensures forall i :: 0 <= i < |r| ==> r[i] < |rows|
    ensures forall k :: k in r <==> k in idx && k < |rows| && rows[k].balanceOld > 0
  {
    if |idx| == 0 then []
    else
      var before := InCredit(rows, idx[..|idx| - 1]);
      var k := idx[|idx| - 1];
      if rows[k].balanceOld > 0 then before + [k] else before
  }

  // ----- Phase 5a: what was trimmed goes to the kept miners who worked -----

  function SharesAt(rows: seq<Row>, idx: seq<nat>): (r: seq<int>)
    requires forall i :: 0 <= i < |idx| ==> idx[i] < |rows|
    ensures |r| == |idx|
  {
    Pick(SharesOf(rows), idx)
  }

  /** Only targets of trimmed miners with shares are handed on. */
  function TrimmedTotal(rows: seq<Row>, t: Trim): int
    requires forall i :: 0 <= i < |t.trimmed| ==> t.trimmed[i] < |rows|
  {
    Sum(Pick(Targets(rows), Working(rows, t.trimmed)))
  }

  /** Kept miners get their target. */
  function KeptPay(rows: seq<Row>, t: Trim): (pay: seq<int>)
    requires forall i :: 0 <= i < |t.kept| ==> t.kept[i] < |rows|
    ensures |pay| == |rows|
  {
    AddAll(Zeros(|rows|), t.kept, Pick(Targets(rows), t.kept))
  }

  /** Hands `amount` to the kept miners with shares in proportion to them, if there are any. */
  function HandOut(rows: seq<Row>, kept: seq<nat>, pay: seq<int>, amount: int): (r: seq<int>)
    requires |pay| == |rows| && forall i :: 0 <= i < |kept| ==> kept[i] < |rows|
    ensures |r| == |pay|
  {
    var working := Working(rows, kept);
    var shares := SharesAt(rows, working);
    if amount > 0 && Sum(shares) > 0 && |shares| > 0
    then AddAll(pay, working, ShareOut(amount, shares))
    else pay
  }

  function ToppedUp(i: Input, rows: seq<Row>, t: Trim): (pay: seq<int>)
    requires forall k :: 0 <= k < |t.kept| ==> t.kept[k] < |rows|
    requires forall k :: 0 <= k < |t.trimmed| ==> t.trimmed[k] < |rows|
    ensures |pay| == |rows|
  {
    if i.suppressMatchingDebits then KeptPay(rows, t)
    else HandOut(rows, t.kept, KeptPay(rows, t), TrimmedTotal(rows, t))
  }

  /** In suppress mode the trimmed targets are promised to the fee instead. */
  function TrimToFee(i: Input, rows: seq<Row>, t: Trim): int
    requires forall k :: 0 <= k < |t.trimmed| ==> t.trimmed[k] < |rows|
  {
    if i.suppressMatchingDebits && TrimmedTotal(rows, t) > 0 then TrimmedTotal(rows, t) else 0
  }

  // ----- Phase 5a.5: solvency cap -----

  /** Kept miners with a credit, smallest credit first. */
  function Claimers(rows: seq<Row>, kept: seq<nat>): (r: seq<nat>)
    requires forall i :: 0 <= i < |kept| ==> kept[i] < |rows|
    ensures forall i :: 0 <= i < |r| ==> r[i] < |rows|
  {
    var found := InCredit(rows, kept);
    Pick(found, SortPositions(Pick(CreditsOf(rows), found)))
  }

  function Credits(rows: seq<Row>, kept: seq<nat>): seq<int>
    requires forall i :: 0 <= i < |kept| ==> kept[i] < |rows|
  {
    Pick(CreditsOf(rows), Claimers(rows, kept))
  }

  datatype CapResult = Solvent(pay: seq<int>) | CreditShort | ClampShort

  /** Takes the overshoot from the claimers, or says why it cannot. */
  function SolvencyCap(rows: seq<Row>, kept: seq<nat>, pay: seq<int>, reward: int): (c: CapResult)
    requires |pay| == |rows| && forall k :: 0 <= k < |kept| ==> kept[k] < |rows|
    ensures c.Solvent? ==> |c.pay| == |pay|
  {
    var overshoot := Sum(pay) - reward;
    var claimers := Claimers(rows, kept);
    var credits := Credits(rows, kept);
    if overshoot <= 0 then Solvent(pay)
    else if Sum(credits) < overshoot || |claimers| == 0 then CreditShort
    else
      var cuts := Cuts(overshoot, credits, |claimers|);
      if Sum(cuts) < overshoot then ClampShort
      else Solvent(AddAll(pay, claimers, Negated(cuts)))
  }

  // ----- Phase 5b, and the outcome -----

  datatype Outcome =
    | NoShares
    | InsufficientCredit
    | ClampResidual
    | NegativeResiduum
    | Settled(rows: seq<Row>, trim: Trim, pay: seq<int>, feeBonus: int)
  {
    ghost predicate WellFormed() {
      Settled? ==> |pay| == |rows| && forall k :: 0 <= k < |trim.kept| ==> trim.kept[k] < |rows|
    }
  }

  /** The residuum goes to the kept workers, or in suppress mode to the fee. */
  function Finish(suppress: bool, reward: int, toFee: int, rows: seq<Row>, t: Trim, pay: seq<int>): (o: Outcome)
    requires |pay| == |rows| && forall k :: 0 <= k < |t.kept| ==> t.kept[k] < |rows|
    ensures o.WellFormed()
  {
    var residuum := reward - Sum(pay) - toFee;
    if residuum < 0 then NegativeResiduum
    else if suppress then Settled(rows, t, pay, toFee + residuum)
    else Settled(rows, t, HandOut(rows, t.kept, pay, residuum), 0)
  }

  function SettleRows(i: Input, rows: seq<Row>, t: Trim): (o: Outcome)
    requires forall k :: 0 <= k < |t.kept| ==> t.kept[k] < |rows|
    requires forall k :: 0 <= k < |t.trimmed| ==> t.trimmed[k] < |rows|
    ensures o.WellFormed()
  {
    match SolvencyCap(rows, t.kept, ToppedUp(i, rows, t), i.RewardForMiners())
    case CreditShort => InsufficientCredit
    case ClampShort => ClampResidual
    case Solvent(pay) =>
      Finish(i.suppressMatchingDebits, i.RewardForMiners(), TrimToFee(i, rows, t), rows, t, pay)
  }

  function Settle(i: Input, weightOf: Address -> nat): (o: Outcome)
    ensures o.WellFormed()
  {
    if i.TotalShares() <= 0 then NoShares
    else SettleRows(i, Rows(i), Trimming(i, Rows(i), weightOf))
  }

  // ----- Phase 6: payouts and new balances -----

  datatype Payout = Payout(address: Address, percent: real, sats: int)

  /** The derived percentage; the 0.0 stands for JavaScript's 0/0, which no output ever shows. */
  function PayoutOf(a: Address, sats: int, reward: nat): Payout {
    Payout(a, if reward == 0 then 0.0 else sats as real / reward as real * 100.0, sats)
  }

  function ToFeeOnly(i: Input): seq<Payout> {
    if i.feeAddress != "" then [Payout(i.feeAddress, 100.0, i.blockRewardSats)] else []
  }

  /** Kept miners, largest on-chain amount first. */
  function EmissionOrder(kept: seq<nat>, pay: seq<int>): (r: seq<nat>)
    requires forall i :: 0 <= i < |kept| ==> kept[i] < |pay|
    ensures forall i :: 0 <= i < |r| ==> r[i] < |pay|
  {
    Pick(kept, SortPositions(Negated(Pick(pay, kept))))
  }

  function MinerPayouts(rows: seq<Row>, pay: seq<int>, order: seq<nat>, reward: nat): seq<Payout>
    requires |pay| == |rows| && forall i :: 0 <= i < |order| ==> order[i] < |rows|
  {
    if |order| == 0 then []
    else
      var before := MinerPayouts(rows, pay, order[..|order| - 1], reward);
      var k := order[|order| - 1];
      if pay[k] <= 0 then before else before + [PayoutOf(rows[k].address, pay[k], reward)]
  }

  function BalanceAfter(rows: seq<Row>, pay: seq<int>, n: nat): Entries<int>
    requires |pay| == |rows| && n <= |rows|
  {
    if n == 0 then []
    else
      var before := BalanceAfter(rows, pay, n - 1);
      var row := rows[n - 1];
      var balanceNew := row.Target() - pay[n - 1];
      if row.balanceOld != 0 || balanceNew != 0 then before + [(row.address, balanceNew)] else before
  }

  datatype Result = Result(payouts: seq<Payout>, consideredAddresses: set<Address>, balanceAfter: Entries<int>)

  /** The fee and finder outputs, in front of the miners' outputs. */
  function FixedPayouts(i: Input, feeBonus: int): seq<Payout> {
    (if i.FeeEmitted() then [PayoutOf(i.feeAddress, i.FeeSats() + feeBonus, i.blockRewardSats)] else [])
    + (if i.BonusEmitted() then [PayoutOf(i.finderAddress, i.BonusSats(), i.blockRewardSats)] else [])
  }

  function MinersOf(i: Input, o: Outcome): seq<Payout>
    requires o.Settled? && o.WellFormed()
  {
    MinerPayouts(o.rows, o.pay, EmissionOrder(o.trim.kept, o.pay), i.blockRewardSats)
  }

  /** All outputs; when there would be none, everything goes to the fee address, if there is one. */
  function Payouts(i: Input, o: Outcome): seq<Payout>
    requires o.WellFormed()
  {
    if !o.Settled? then ToFeeOnly(i)
    else
      var payouts := FixedPayouts(i, o.feeBonus) + MinersOf(i, o);
      if |payouts| > 0 then payouts else ToFeeOnly(i)
  }

  function Render(i: Input, o: Outcome): Result
    requires o.WellFormed()
  {
    Result(Payouts(i, o), Keys(i.addressShares) + Keys(i.balances),
           if o.Settled? then BalanceAfter(o.rows, o.pay, |o.rows|) else [])
  }

  function Distribution(i: Input, weightOf: Address -> nat): Result {
    Render(i, Settle(i, weightOf))
  }

  function SatsOf(payouts: seq<Payout>): (r: seq<int>)
    ensures |r| == |payouts|
  {
    seq(|payouts|, k requires 0 <= k < |payouts| => payouts[k].sats)
  }

  function TotalPaid(payouts: seq<Payout>): int { Sum(SatsOf(payouts)) }

  /** Sats of all outputs to one address. */
  function PaidTo(payouts: seq<Payout>, a: Address): int {
    if |payouts| == 0 then 0
    else
      var last := payouts[|payouts| - 1];
      PaidTo(payouts[..|payouts| - 1], a) + (if last.address == a then last.sats else 0)
  }
}

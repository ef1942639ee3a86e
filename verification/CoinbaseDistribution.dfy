/**
 * `buildCoinbaseDistribution` over its mutable per-miner records: six phases of in-place updates,
 * proved to compute exactly the distribution of CoinbaseSplit.dfy.
 */
module CoinbaseDistribution {
  import opened Sums
  import opened StableSorting
  import opened Apportionment
  import opened CoinbaseSplit
  import opened CoinbaseTrim
  import opened CoinbaseGuarantees

  // ----- outputWeightForAddress -----

  datatype AddressKind = P2wpkh | P2sh | P2pkh | P2wsh | P2tr | Unparseable

  const COINBASE_OUTPUT_WEIGHT: nat := 172

  function KindWeight(kind: AddressKind): nat {
    match kind
    case P2wpkh => 124
    case P2sh => 128
    case P2pkh => 136
    case P2wsh => 172
    case P2tr => 172
    case Unparseable => COINBASE_OUTPUT_WEIGHT
  }

  function OutputWeight(classify: Address -> AddressKind, a: Address): nat {
    if a == "" then 0 else KindWeight(classify(a))
  }

  /** The process-lifetime cache of output weights; `classify` is the address library. */
  class OutputWeightCache {
    const classify: Address -> AddressKind
    var entries: map<Address, nat>

    ghost predicate Valid()
      reads this
    {
      forall a :: a in entries ==> entries[a] == OutputWeight(classify, a)
    }

    ghost function WeightOf(): Address -> nat {
      a => OutputWeight(classify, a)
    }

    constructor (classify: Address -> AddressKind)
      ensures Valid() && this.classify == classify
    {
      this.classify := classify;
      entries := map[];
    }

    method OutputWeightForAddress(a: Address) returns (w: nat)
      requires Valid()
      modifies this`entries
      ensures Valid() && w == OutputWeight(classify, a)
    {
      if a == "" { return 0; }
      if a in entries { return entries[a]; }
      w := KindWeight(classify(a));
      entries := entries[a := w];
    }
  }

  // ----- The records -----

  class MinerComputation {
    const address: Address
    const shares: nat
    const rawFair: int
    const balanceOld: int
    const target: int
    const eligible: bool
    var onChain: int
    var balanceNew: int

    constructor (address: Address, shares: nat, rawFair: int, balanceOld: int, minPayout: int)
      ensures AsRow() == Row(address, shares, rawFair, balanceOld)
      ensures target == rawFair + balanceOld && eligible == (target >= minPayout)
      ensures onChain == 0 && balanceNew == target
    {
      this.address, this.shares, this.rawFair, this.balanceOld := address, shares, rawFair, balanceOld;
      target := rawFair + balanceOld;
      eligible := rawFair + balanceOld >= minPayout;
      onChain := 0;
      balanceNew := rawFair + balanceOld;
    }

    function AsRow(): Row { Row(address, shares, rawFair, balanceOld) }

    /** Moves sats from the miner's balance onto the chain, or back when negative. */
    method Pay(amount: int)
      modifies this
      ensures onChain == old(onChain) + amount && balanceNew == old(balanceNew) - amount
    {
      onChain := onChain + amount;
      balanceNew := balanceNew - amount;
    }
  }

  ghost predicate HoldsAt(comps: seq<MinerComputation>, rows: seq<Row>, k: int) {
    0 <= k < |comps| && k < |rows| ==> comps[k].AsRow() == rows[k] && comps[k].target == rows[k].Target()
  }

  ghost predicate Separate(comps: seq<MinerComputation>, j: int, k: int) {
    0 <= j < |comps| && 0 <= k < |comps| && j != k ==> comps[j] != comps[k]
  }

  /** The records hold these rows, in order, each record once. */
  ghost predicate Holds(comps: seq<MinerComputation>, rows: seq<Row>) {
    && |comps| == |rows|
    && (forall k :: HoldsAt(comps, rows, k))
    && (forall j, k :: Separate(comps, j, k))
  }

  ghost predicate BookedAt(comps: seq<MinerComputation>, rows: seq<Row>, pay: seq<int>, k: int)
    reads comps
  {
    0 <= k < |comps| && k < |rows| && k < |pay| ==>
      comps[k].onChain == pay[k] && comps[k].balanceNew == rows[k].Target() - pay[k]
  }

  /** What the records say: each has paid its entry of `pay`, and owes the rest of its target. */
  ghost predicate Books(comps: seq<MinerComputation>, rows: seq<Row>, pay: seq<int>)
    reads comps
  {
    && Holds(comps, rows) && |pay| == |rows|
    && (forall k :: BookedAt(comps, rows, pay, k))
  }

  /** A list of records, given by their positions. */
  ghost predicate Lists(list: seq<MinerComputation>, comps: seq<MinerComputation>, idx: seq<nat>) {
    (forall i :: 0 <= i < |idx| ==> idx[i] < |comps|) && list == Pick(comps, idx)
  }

  /** One record pays; the others are untouched. */
  method PayOne(c: MinerComputation, amount: int,
                ghost comps: seq<MinerComputation>, ghost rows: seq<Row>, ghost pay: seq<int>, ghost k: nat)
    requires Books(comps, rows, pay) && k < |comps| && comps[k] == c
    modifies c
    ensures Books(comps, rows, pay[k := pay[k] + amount])
  {
    ghost var paid := pay[k := pay[k] + amount];
    assert BookedAt(comps, rows, pay, k);
    c.Pay(amount);
    forall x ensures BookedAt(comps, rows, paid, x) {
      assert old(BookedAt(comps, rows, pay, x)) && Separate(comps, x, k);
    }
  }

  lemma {:induction false} AddAllSnoc(s: seq<int>, idx: seq<nat>, amounts: seq<int>, n: nat)
    requires n < |idx| == |amounts|
    requires forall i :: 0 <= i < |idx| ==> idx[i] < |s|
    ensures var before := AddAll(s, idx[..n], amounts[..n]);
            AddAll(s, idx[..n + 1], amounts[..n + 1]) == before[idx[n] := before[idx[n]] + amounts[n]]
  {
    assert idx[..n + 1][..n] == idx[..n] && amounts[..n + 1][..n] == amounts[..n];
  }

  lemma {:induction false} AddAllRaised(s: seq<int>, idx: seq<nat>, amounts: seq<int>, k: nat, x: int)
    requires k < |idx| == |amounts|
    requires forall i :: 0 <= i < |idx| ==> idx[i] < |s|
    ensures var r := AddAll(s, idx, amounts);
            AddAll(s, idx, amounts[k := amounts[k] + x]) == r[idx[k] := r[idx[k]] + x]
  {
    var n := |idx| - 1;
    var raised := amounts[k := amounts[k] + x];
    if k == n {
      assert raised[..n] == amounts[..n];
    } else {
      assert raised[..n] == amounts[..n][k := amounts[..n][k] + x];
      AddAllRaised(s, idx[..n], amounts[..n], k, x);
    }
  }

  // ----- Phases 1 and 2 -----

  /** Shares of the window, summed. */
  method SumShares(i: Input) returns (totalShares: int)
    ensures totalShares == i.TotalShares()
  {
    totalShares := 0;
    var shares := i.Shares();
    for n := 0 to |i.addressShares|
      invariant totalShares == Sum(shares[..n])
    {
      totalShares := totalShares + i.addressShares[n].1;
      assert shares[..n + 1][..n] == shares[..n];
    }
    assert shares[..|shares|] == shares;
  }

  method ComputeActive(i: Input, totalShares: int, rewardForMiners: int, minPayout: int)
      returns (comps: seq<MinerComputation>)
    requires i.TotalShares() > 0 && totalShares == i.TotalShares()
    requires rewardForMiners == i.RewardForMiners() && minPayout == i.MinPayout()
    ensures fresh(comps) && Fresh(comps, ActiveRows(i), minPayout)
  {
    comps := [];
    ghost var rows := ActiveRows(i);
    for n := 0 to |i.addressShares|
      invariant fresh(comps) && Fresh(comps, rows[..n], minPayout)
    {
      var (addr, shares) := i.addressShares[n];
      var rawFair := rewardForMiners * shares / totalShares;
      var c := new MinerComputation(addr, shares, rawFair, GetOrZero(i.balances, addr), minPayout);
      FreshSnoc(comps, rows[..n], minPayout, c, rows[n]);
      assert rows[..n + 1] == rows[..n] + [rows[n]];
      comps := comps + [c];
    }
    assert rows[..|rows|] == rows;
  }

  /** Records as they are before anything is paid. */
  ghost predicate Fresh(comps: seq<MinerComputation>, rows: seq<Row>, minPayout: int)
    reads comps
  {
    && Books(comps, rows, Zeros(|rows|))
    && forall k :: EligibleAt(comps, rows, minPayout, k)
  }

  ghost predicate EligibleAt(comps: seq<MinerComputation>, rows: seq<Row>, minPayout: int, k: int) {
    0 <= k < |comps| && k < |rows| ==> comps[k].eligible == (rows[k].Target() >= minPayout)
  }

  lemma FreshSnoc(comps: seq<MinerComputation>, rows: seq<Row>, minPayout: int, c: MinerComputation, r: Row)
    requires Fresh(comps, rows, minPayout) && c !in comps
    requires c.AsRow() == r && c.target == r.Target() && c.eligible == (r.Target() >= minPayout)
    requires c.onChain == 0 && c.balanceNew == c.target
    ensures Fresh(comps + [c], rows + [r], minPayout)
  {
    var comps', rows' := comps + [c], rows + [r];
    var zeros := Zeros(|rows'|);
    forall k ensures HoldsAt(comps', rows', k) { assert HoldsAt(comps, rows, k); }
    forall j, k ensures Separate(comps', j, k) { assert Separate(comps, j, k); }
    forall k ensures BookedAt(comps', rows', zeros, k) { assert BookedAt(comps, rows, Zeros(|rows|), k); }
    forall k ensures EligibleAt(comps', rows', minPayout, k) { assert EligibleAt(comps, rows, minPayout, k); }
  }

  method AddPending(i: Input, active: seq<MinerComputation>, minPayout: int) returns (comps: seq<MinerComputation>)
    requires i.TotalShares() > 0 && Fresh(active, ActiveRows(i), minPayout)
    ensures forall c :: c in comps ==> c in active || fresh(c)
    ensures Fresh(comps, Rows(i), minPayout)
  {
    comps := active;
    ghost var rows := ActiveRows(i);
    assert i.balances[..0] == [];
    for n := 0 to |i.balances|
      invariant forall c :: c in comps ==> c in active || fresh(c)
      invariant rows == ActiveRows(i) + PendingRows(i.addressShares, i.balances[..n])
      invariant Fresh(comps, rows, minPayout)
    {
      var (addr, balanceOld) := i.balances[n];
      assert i.balances[..n + 1][..n] == i.balances[..n];
      if Has(i.addressShares, addr) || balanceOld == 0 { continue; }
      var c := new MinerComputation(addr, 0, 0, balanceOld, minPayout);
      FreshSnoc(comps, rows, minPayout, c, Row(addr, 0, 0, balanceOld));
      comps := comps + [c];
      rows := rows + [Row(addr, 0, 0, balanceOld)];
    }
    assert i.balances[..|i.balances|] == i.balances;
  }

  // ----- Phases 3 and 4 -----

  lemma PickSnoc<T>(s: seq<T>, idx: seq<nat>, k: nat)
    requires k < |s| && forall i :: 0 <= i < |idx| ==> idx[i] < |s|
    ensures Pick(s, idx + [k]) == Pick(s, idx) + [s[k]]
  {
  }

  lemma PickPick<T>(s: seq<T>, idx: seq<nat>, p: seq<nat>)
    requires forall i :: 0 <= i < |idx| ==> idx[i] < |s|
    requires forall i :: 0 <= i < |p| ==> p[i] < |idx|
    ensures Pick(Pick(s, idx), p) == Pick(s, Pick(idx, p))
  {
  }

  lemma EligibleNext(rows: seq<Row>, minPayout: int, n: nat, before: seq<nat>)
    requires n < |rows| && before == EligibleUpTo(rows, minPayout, n)
    ensures EligibleUpTo(rows, minPayout, n + 1) == if rows[n].Target() >= minPayout then before + [n] else before
  {
  }

  /** Taking record n, if it is eligible, keeps a list and its targets those of the eligible positions. */
  lemma EligibleTaken<T>(all: seq<T>, rows: seq<Row>, minPayout: int, n: nat, before: seq<nat>,
                         found: seq<T>, targets: seq<int>, target: int)
      returns (after: seq<nat>)
    requires |all| == |rows| && n < |rows| && before == EligibleUpTo(rows, minPayout, n) && target == rows[n].Target()
    requires found == Pick(all, before) && targets == Pick(Targets(rows), before)
    ensures after == EligibleUpTo(rows, minPayout, n + 1) && forall k :: 0 <= k < |after| ==> after[k] < |rows|
    ensures Pick(all, after) == if target >= minPayout then found + [all[n]] else found
    ensures Pick(Targets(rows), after) == if target >= minPayout then targets + [target] else targets
  {
    EligibleNext(rows, minPayout, n, before);
    after := EligibleUpTo(rows, minPayout, n + 1);
    if target >= minPayout {
      PickSnoc(all, before, n);
      PickSnoc(Targets(rows), before, n);
    }
  }

  /** `Array.from(computations.values()).filter(c => c.eligible)` */
  method FilterEligible(comps: seq<MinerComputation>, minPayout: int, ghost rows: seq<Row>)
      returns (found: seq<MinerComputation>, targets: seq<int>)
    requires Fresh(comps, rows, minPayout)
    ensures var idx := EligibleUpTo(rows, minPayout, |rows|);
            Lists(found, comps, idx) && targets == Pick(Targets(rows), idx)
  {
    found, targets := [], [];
    ghost var idx: seq<nat> := [];
    for n := 0 to |comps|
      invariant idx == EligibleUpTo(rows, minPayout, n)
      invariant Lists(found, comps, idx)
      invariant targets == Pick(Targets(rows), idx)
    {
      assert HoldsAt(comps, rows, n) && EligibleAt(comps, rows, minPayout, n);
      var target := comps[n].target;
      idx := EligibleTaken(comps, rows, minPayout, n, idx, found, targets, target);
      if comps[n].eligible {
        found, targets := found + [comps[n]], targets + [target];
      }
    }
  }

  /** `.sort((a, b) => b.target - a.target)` */
  method EligibleSorted(comps: seq<MinerComputation>, minPayout: int, ghost rows: seq<Row>)
      returns (list: seq<MinerComputation>)
    requires Fresh(comps, rows, minPayout)
    ensures Lists(list, comps, EligibleList(rows, minPayout))
  {
    var found, targets := FilterEligible(comps, minPayout, rows);
    list := Pick(found, SortPositions(Negated(targets)));
    PickPick(comps, EligibleUpTo(rows, minPayout, |rows|), SortPositions(Negated(targets)));
  }

  method TrimToBudget(order: seq<MinerComputation>, fixedWeight: int, limit: int, cache: OutputWeightCache,
                      ghost comps: seq<MinerComputation>, ghost rows: seq<Row>, ghost idx: seq<nat>)
      returns (kept: seq<MinerComputation>, trimmed: seq<MinerComputation>)
    requires cache.Valid() && Holds(comps, rows) && Lists(order, comps, idx)
    modifies cache`entries
    ensures cache.Valid()
    ensures var t := GreedyTrim(idx, WeightsOf(rows, cache.WeightOf()), fixedWeight, limit);
            Lists(kept, comps, t.kept) && Lists(trimmed, comps, t.trimmed)
  {
    kept, trimmed := [], [];
    var used := fixedWeight;
    ghost var weights := WeightsOf(rows, cache.WeightOf());
    ghost var t := Trim([], [], fixedWeight);
    for n := 0 to |order|
      invariant cache.Valid()
      invariant t == GreedyTrim(idx[..n], weights, fixedWeight, limit) && t.used == used
      invariant Lists(kept, comps, t.kept) && Lists(trimmed, comps, t.trimmed)
    {
      var miner := order[n];
      assert miner == comps[idx[n]] && HoldsAt(comps, rows, idx[n]);
      var outWeight := cache.OutputWeightForAddress(miner.address);
      assert outWeight == weights[idx[n]];
      assert idx[..n + 1][..n] == idx[..n];
      t := GreedyTrim(idx[..n + 1], weights, fixedWeight, limit);
      if used + outWeight <= limit {
        PickSnoc(comps, GreedyTrim(idx[..n], weights, fixedWeight, limit).kept, idx[n]);
        kept := kept + [miner];
        used := used + outWeight;
      } else {
        PickSnoc(comps, GreedyTrim(idx[..n], weights, fixedWeight, limit).trimmed, idx[n]);
        trimmed := trimmed + [miner];
      }
    }
    assert idx[..|order|] == idx;
  }

  /** One record is paid its whole target. */
  method SetTarget(c: MinerComputation, ghost comps: seq<MinerComputation>, ghost rows: seq<Row>, ghost pay: seq<int>,
                   ghost k: nat)
    requires Books(comps, rows, pay) && k < |comps| && comps[k] == c && pay[k] == 0
    modifies c
    ensures Books(comps, rows, pay[k := pay[k] + rows[k].Target()])
  {
    ghost var paid := pay[k := pay[k] + rows[k].Target()];
    assert HoldsAt(comps, rows, k);
    c.onChain := c.target;
    c.balanceNew := 0;
    forall x ensures BookedAt(comps, rows, paid, x) {
      assert old(BookedAt(comps, rows, pay, x)) && Separate(comps, x, k);
    }
  }

  /** Kept miners get their target on chain, and their balance clears. */
  method PayTargets(kept: seq<MinerComputation>, ghost comps: seq<MinerComputation>, ghost rows: seq<Row>,
                    ghost t: Trim)
    requires Books(comps, rows, Zeros(|rows|)) && Lists(kept, comps, t.kept) && Distinct(t.kept)
    modifies comps
    ensures Books(comps, rows, KeptPay(rows, t))
  {
    ghost var targets := Pick(Targets(rows), t.kept);
    ghost var pay := Zeros(|rows|);
    for n := 0 to |kept|
      invariant pay == AddAll(Zeros(|rows|), t.kept[..n], targets[..n])
      invariant Books(comps, rows, pay)
    {
      var c := kept[n];
      ghost var k := t.kept[n];
      assert c == comps[k] && HoldsAt(comps, rows, k);
      assert k !in t.kept[..n];
      AddAllElsewhere(Zeros(|rows|), t.kept[..n], targets[..n], k);
      AddAllSnoc(Zeros(|rows|), t.kept, targets, n);
      SetTarget(c, comps, rows, pay, k);
      pay := pay[k := pay[k] + targets[n]];
    }
    assert t.kept[..|kept|] == t.kept && targets[..|kept|] == targets;
  }

  // ----- Phases 5a and 5b -----

  /** `list.filter(c => c.shares > 0)` */
  method FilterWorking(list: seq<MinerComputation>, ghost comps: seq<MinerComputation>, ghost rows: seq<Row>,
                       ghost idx: seq<nat>)
      returns (r: seq<MinerComputation>)
    requires Holds(comps, rows) && Lists(list, comps, idx)
    ensures Lists(r, comps, Working(rows, idx))
  {
    r := [];
    for n := 0 to |list|
      invariant Lists(r, comps, Working(rows, idx[..n]))
    {
      assert list[n] == comps[idx[n]] && HoldsAt(comps, rows, idx[n]);
      assert idx[..n + 1][..n] == idx[..n];
      if list[n].shares > 0 {
        PickSnoc(comps, Working(rows, idx[..n]), idx[n]);
        r := r + [list[n]];
      }
    }
    assert idx[..|list|] == idx;
  }

  lemma WorkingTotalNext(rows: seq<Row>, idx: seq<nat>, n: nat)
    requires n < |idx| && forall i :: 0 <= i < |idx| ==> idx[i] < |rows|
    ensures Sum(Pick(Targets(rows), Working(rows, idx[..n + 1]))) ==
              Sum(Pick(Targets(rows), Working(rows, idx[..n])))
                + (if rows[idx[n]].shares > 0 then rows[idx[n]].Target() else 0)
  {
    assert idx[..n + 1][..n] == idx[..n];
    if rows[idx[n]].shares > 0 {
      PickSnoc(Targets(rows), Working(rows, idx[..n]), idx[n]);
      SumConcat(Pick(Targets(rows), Working(rows, idx[..n])), [rows[idx[n]].Target()]);
      SumOne(rows[idx[n]].Target());
    }
  }

  method TotalOfTrimmed(trimmed: seq<MinerComputation>, ghost comps: seq<MinerComputation>, ghost rows: seq<Row>,
                        ghost t: Trim)
      returns (trimmedTotal: int)
    requires Holds(comps, rows) && Lists(trimmed, comps, t.trimmed)
    ensures trimmedTotal == TrimmedTotal(rows, t)
  {
    trimmedTotal := 0;
    ghost var idx := t.trimmed;
    for n := 0 to |trimmed|
      invariant trimmedTotal == Sum(Pick(Targets(rows), Working(rows, idx[..n])))
    {
      var c := trimmed[n];
      assert c == comps[idx[n]] && HoldsAt(comps, rows, idx[n]);
      assert idx[..n + 1][..n] == idx[..n];
      WorkingTotalNext(rows, idx, n);
      trimmedTotal := trimmedTotal + (if c.shares > 0 then c.target else 0);
    }
    assert idx[..|trimmed|] == idx;
  }

  method PayFloors(working: seq<MinerComputation>, totalShares: int, amount: int, ghost shares: seq<int>,
                   ghost comps: seq<MinerComputation>, ghost rows: seq<Row>, ghost pay: seq<int>, ghost idx: seq<nat>)
      returns (handedOut: int)
    requires Books(comps, rows, pay) && Lists(working, comps, idx)
    requires shares == SharesAt(rows, idx) && totalShares > 0
    modifies comps
    ensures handedOut == Sum(Floors(amount, shares, totalShares))
    ensures Books(comps, rows, AddAll(pay, idx, Floors(amount, shares, totalShares)))
  {
    handedOut := 0;
    ghost var floors := Floors(amount, shares, totalShares);
    ghost var paid := pay;
    for n := 0 to |working|
      invariant handedOut == Sum(floors[..n])
      invariant paid == AddAll(pay, idx[..n], floors[..n])
      invariant Books(comps, rows, paid)
    {
      var c := working[n];
      assert c == comps[idx[n]] && HoldsAt(comps, rows, idx[n]);
      var bonus := amount * c.shares / totalShares;
      assert bonus == floors[n];
      PayOne(c, bonus, comps, rows, paid, idx[n]);
      AddAllSnoc(pay, idx, floors, n);
      assert floors[..n + 1][..n] == floors[..n];
      paid := paid[idx[n] := paid[idx[n]] + bonus];
      handedOut := handedOut + bonus;
    }
    assert idx[..|working|] == idx && floors[..|working|] == floors;
  }

  method PayTail(working: seq<MinerComputation>, handedOut: int, amount: int, shares: seq<int>, ghost floors: seq<int>,
                 ghost comps: seq<MinerComputation>, ghost rows: seq<Row>, ghost pay: seq<int>, ghost idx: seq<nat>)
    requires |floors| == |shares| == |working| > 0 && handedOut == Sum(floors)
    requires Lists(working, comps, idx) && |pay| == |comps| && Books(comps, rows, AddAll(pay, idx, floors))
    modifies comps
    ensures Books(comps, rows, AddAll(pay, idx, WithTail(floors, amount, shares)))
  {
    var residual := amount - handedOut;
    if residual > 0 {
      var biggest := SortPositions(Negated(shares))[0];
      AddAllRaised(pay, idx, floors, biggest, residual);
      PayOne(working[biggest], residual, comps, rows, AddAll(pay, idx, floors), idx[biggest]);
    }
  }

  method ShareOutTo(working: seq<MinerComputation>, shares: seq<int>, totalShares: int, amount: int,
                    ghost comps: seq<MinerComputation>, ghost rows: seq<Row>, ghost pay: seq<int>, ghost idx: seq<nat>)
    requires Books(comps, rows, pay) && Lists(working, comps, idx)
    requires |shares| == |working| > 0 && shares == SharesAt(rows, idx) && totalShares == Sum(shares) > 0
    modifies comps
    ensures Books(comps, rows, AddAll(pay, idx, ShareOut(amount, shares)))
  {
    var handedOut := PayFloors(working, totalShares, amount, shares, comps, rows, pay, idx);
    PayTail(working, handedOut, amount, shares, Floors(amount, shares, totalShares), comps, rows, pay, idx);
  }

  lemma SharesNext(rows: seq<Row>, idx: seq<nat>, n: nat, share: nat, before: seq<int>)
    requires n < |idx| && (forall i :: 0 <= i < |idx| ==> idx[i] < |rows|) && share == rows[idx[n]].shares
    requires before == SharesAt(rows, idx)[..n]
    ensures before + [share] == SharesAt(rows, idx)[..n + 1] && Sum(before + [share]) == Sum(before) + share
  {
    SumConcat(before, [share]);
    SumOne(share);
  }

  method SharesTotal(working: seq<MinerComputation>, ghost comps: seq<MinerComputation>, ghost rows: seq<Row>,
                     ghost idx: seq<nat>)
      returns (shares: seq<int>, total: int)
    requires Holds(comps, rows) && Lists(working, comps, idx)
    ensures shares == SharesAt(rows, idx) && total == Sum(shares)
  {
    shares, total := [], 0;
    for n := 0 to |working|
      invariant shares == SharesAt(rows, idx)[..n]
      invariant total == Sum(shares)
    {
      assert working[n] == comps[idx[n]] && HoldsAt(comps, rows, idx[n]);
      var share := working[n].shares;
      SharesNext(rows, idx, n, share, shares);
      shares := shares + [share];
      total := total + share;
    }
  }

  /** Hands an amount to the kept miners with shares, each with a matching debit. */
  method HandOutTo(kept: seq<MinerComputation>, amount: int,
                   ghost comps: seq<MinerComputation>, ghost rows: seq<Row>, ghost pay: seq<int>, ghost idx: seq<nat>)
    requires Books(comps, rows, pay) && Lists(kept, comps, idx) && amount > 0
    modifies comps
    ensures Books(comps, rows, HandOut(rows, idx, pay, amount))
  {
    var keptActive := FilterWorking(kept, comps, rows, idx);
    var shares, keptActiveShares := SharesTotal(keptActive, comps, rows, Working(rows, idx));
    if keptActiveShares > 0 && |keptActive| > 0 {
      ShareOutTo(keptActive, shares, keptActiveShares, amount, comps, rows, pay, Working(rows, idx));
    }
  }

  // ----- Phase 5a.5 -----

  method TotalOnChain(comps: seq<MinerComputation>, ghost rows: seq<Row>, ghost pay: seq<int>) returns (total: int)
    requires Books(comps, rows, pay)
    ensures total == Sum(pay)
  {
    total := 0;
    for n := 0 to |comps|
      invariant total == Sum(pay[..n])
    {
      assert pay[..n + 1][..n] == pay[..n];
      assert BookedAt(comps, rows, pay, n);
      total := total + comps[n].onChain;
    }
    assert pay[..|comps|] == pay;
  }

  /** Taking the n-th listed record, if it is in credit, keeps a list and its balances those of the rows in credit. */
  lemma {:induction false} CreditTaken<T>(all: seq<T>, rows: seq<Row>, idx: seq<nat>, n: nat, before: seq<nat>,
                                          found: seq<T>, balances: seq<int>, credit: int)
      returns (after: seq<nat>)
    requires |all| == |rows| && n < |idx| && forall i :: 0 <= i < |idx| ==> idx[i] < |rows|
    requires before == InCredit(rows, idx[..n]) && credit == rows[idx[n]].balanceOld
    requires found == Pick(all, before) && balances == Pick(CreditsOf(rows), before)
    ensures after == InCredit(rows, idx[..n + 1]) && forall k :: 0 <= k < |after| ==> after[k] < |rows|
    ensures Pick(all, after) == if credit > 0 then found + [all[idx[n]]] else found
    ensures Pick(CreditsOf(rows), after) == if credit > 0 then balances + [credit] else balances
  {
    after := if credit > 0 then before + [idx[n]] else before;
    InCreditNext(rows, idx, n, before);
    PickTaken(all, before, idx[n], credit > 0, after);
    PickTaken(CreditsOf(rows), before, idx[n], credit > 0, after);
  }

  lemma {:induction false} InCreditNext(rows: seq<Row>, idx: seq<nat>, n: nat, before: seq<nat>)
    requires n < |idx| && forall i :: 0 <= i < |idx| ==> idx[i] < |rows|
    requires before == InCredit(rows, idx[..n])
    ensures InCredit(rows, idx[..n + 1]) == if rows[idx[n]].balanceOld > 0 then before + [idx[n]] else before
  {
    InCreditSnoc(rows, idx[..n], idx[n], before);
    assert idx[..n + 1] == idx[..n] + [idx[n]];
  }

  lemma PickTaken<T>(s: seq<T>, before: seq<nat>, k: nat, take: bool, after: seq<nat>)
    requires k < |s| && (forall i :: 0 <= i < |before| ==> before[i] < |s|)
    requires after == if take then before + [k] else before
    ensures forall i :: 0 <= i < |after| ==> after[i] < |s|
    ensures Pick(s, after) == if take then Pick(s, before) + [s[k]] else Pick(s, before)
  {
    if take {
      PickSnoc(s, before, k);
    }
  }

  /** `kept.filter(c => c.balanceOld > 0)` */
  method FilterInCredit(kept: seq<MinerComputation>, ghost comps: seq<MinerComputation>, ghost rows: seq<Row>,
                        ghost idx: seq<nat>)
      returns (found: seq<MinerComputation>, balances: seq<int>)
    requires Holds(comps, rows) && Lists(kept, comps, idx)
    ensures Lists(found, comps, InCredit(rows, idx)) && balances == Pick(CreditsOf(rows), InCredit(rows, idx))
  {
    found, balances := [], [];
    ghost var c: seq<nat> := [];
    for n := 0 to |kept|
      invariant c == InCredit(rows, idx[..n])
      invariant Lists(found, comps, c)
      invariant balances == Pick(CreditsOf(rows), c)
    {
      assert kept[n] == comps[idx[n]] && HoldsAt(comps, rows, idx[n]);
      var credit := kept[n].balanceOld;
      c := CreditTaken(comps, rows, idx, n, c, found, balances, credit);
      if credit > 0 {
        found, balances := found + [kept[n]], balances + [credit];
      }
    }
    assert idx[..|kept|] == idx;
  }

  /** Those in credit, smallest credit first. */
  method ClaimersSorted(kept: seq<MinerComputation>, ghost comps: seq<MinerComputation>, ghost rows: seq<Row>,
                        ghost idx: seq<nat>)
      returns (list: seq<MinerComputation>, credits: seq<int>, ghost c: seq<nat>)
    requires Holds(comps, rows) && Lists(kept, comps, idx)
    ensures c == Claimers(rows, idx) && credits == Credits(rows, idx)
    ensures Lists(list, comps, c) && |list| == |credits| == |c| && credits == Pick(CreditsOf(rows), c)
  {
    var found, balances := FilterInCredit(kept, comps, rows, idx);
    var p := SortPositions(balances);
    PickPick(comps, InCredit(rows, idx), p);
    PickPick(CreditsOf(rows), InCredit(rows, idx), p);
    list, credits, c := Pick(found, p), Pick(balances, p), Claimers(rows, idx);
  }

  method SumAll(s: seq<int>) returns (total: int)
    ensures total == Sum(s)
  {
    total := 0;
    for n := 0 to |s|
      invariant total == Sum(s[..n])
    {
      assert s[..n + 1][..n] == s[..n];
      total := total + s[n];
    }
    assert s[..|s|] == s;
  }

  lemma {:induction false} AddAllOneMore(s: seq<int>, idx: seq<nat>, amounts: seq<int>, n: nat, x: int)
    requires n == |amounts| < |idx| && forall i :: 0 <= i < |idx| ==> idx[i] < |s|
    ensures var before := AddAll(s, idx[..n], amounts);
            AddAll(s, idx[..n + 1], amounts + [x]) == before[idx[n] := before[idx[n]] + x]
  {
    assert idx[..n + 1][..n] == idx[..n] && (amounts + [x])[..n] == amounts;
  }

  lemma {:induction false} CutsNext(overshoot: int, credits: seq<int>, n: nat, cut: int)
    requires Sum(credits) > 0 && n < |credits|
    requires var asked := Asked(overshoot, credits, n + 1);
             cut == if asked > credits[n] then credits[n] else asked
    ensures var cuts := Cuts(overshoot, credits, n);
            && Cuts(overshoot, credits, n + 1) == cuts + [cut]
            && Sum(cuts + [cut]) == Sum(cuts) + cut
            && Negated(cuts + [cut]) == Negated(cuts) + [-cut]
  {
    SumConcat(Cuts(overshoot, credits, n), [cut]);
    SumOne(cut);
  }

  lemma {:induction false} AskedOf(overshoot: int, credits: seq<int>, n: nat)
    requires Sum(credits) > 0 && n < |credits|
    ensures Asked(overshoot, credits, n + 1) ==
              if n == |credits| - 1 then overshoot - Sum(Cuts(overshoot, credits, n))
                else overshoot * credits[n] / Sum(credits)
  {
  }

  lemma {:induction false} CutNext(overshoot: int, credits: seq<int>, n: nat, applied: int, pay: seq<int>,
                                   idx: seq<nat>, paid: seq<int>)
      returns (cut: int)
    requires Sum(credits) > 0 && n < |credits| == |idx| && forall i :: 0 <= i < |idx| ==> idx[i] < |pay|
    requires applied == Sum(Cuts(overshoot, credits, n))
               && paid == AddAll(pay, idx[..n], Negated(Cuts(overshoot, credits, n)))
    ensures var asked := if n == |credits| - 1 then overshoot - applied else overshoot * credits[n] / Sum(credits);
            cut == if asked > credits[n] then credits[n] else asked
    ensures applied + cut == Sum(Cuts(overshoot, credits, n + 1))
    ensures |paid| == |pay| && idx[n] < |paid|
    ensures paid[idx[n] := paid[idx[n]] + -cut] == AddAll(pay, idx[..n + 1], Negated(Cuts(overshoot, credits, n + 1)))
  {
    AskedOf(overshoot, credits, n);
    var asked := Asked(overshoot, credits, n + 1);
    cut := if asked > credits[n] then credits[n] else asked;
    CutsNext(overshoot, credits, n, cut);
    CutPlaced(pay, idx, n, Cuts(overshoot, credits, n), cut, Cuts(overshoot, credits, n + 1), paid);
  }

  lemma {:induction false} CutPlaced(pay: seq<int>, idx: seq<nat>, n: nat, cuts: seq<int>, cut: int, next: seq<int>,
                                     paid: seq<int>)
    requires n < |idx| && |cuts| == n && next == cuts + [cut] && forall i :: 0 <= i < |idx| ==> idx[i] < |pay|
    requires paid == AddAll(pay, idx[..n], Negated(cuts))
    ensures |paid| == |pay| && idx[n] < |paid|
    ensures paid[idx[n] := paid[idx[n]] + -cut] == AddAll(pay, idx[..n + 1], Negated(next))
  {
    var before := Negated(cuts);
    assert Negated(next) == before + [-cut];
    AddAllOneMore(pay, idx, before, n, -cut);
  }

  /** Takes one claimer's cut: pro rata, or for the last one what is left, but never more than its credit. */
  method CutOne(c: MinerComputation, last: bool, overshoot: int, applied: int, totalCredit: int,
                ghost comps: seq<MinerComputation>, ghost rows: seq<Row>, ghost paid: seq<int>, ghost k: nat)
      returns (cut: int)
    requires Books(comps, rows, paid) && k < |comps| && comps[k] == c && totalCredit > 0
    modifies c
    ensures var asked := if last then overshoot - applied else overshoot * c.balanceOld / totalCredit;
            cut == if asked > c.balanceOld then c.balanceOld else asked
    ensures Books(comps, rows, paid[k := paid[k] + -cut])
  {
    cut := if last then overshoot - applied else overshoot * c.balanceOld / totalCredit;
    if cut > c.balanceOld { cut := c.balanceOld; }
    PayOne(c, -cut, comps, rows, paid, k);
  }

  /** The n-th claimer's cut, with the books after it. */
  method CutRound(c: MinerComputation, n: nat, overshoot: int, applied: int, totalCredit: int, count: nat,
                  ghost comps: seq<MinerComputation>, ghost rows: seq<Row>, ghost pay: seq<int>, ghost idx: seq<nat>,
                  ghost paid: seq<int>, ghost credits: seq<int>)
      returns (cut: int, ghost paid': seq<int>)
    requires n < |idx| == |credits| == count && |pay| == |comps| && forall i :: 0 <= i < |idx| ==> idx[i] < |comps|
    requires Books(comps, rows, paid) && comps[idx[n]] == c && totalCredit == Sum(credits) > 0
    requires credits == Pick(CreditsOf(rows), idx) && applied == Sum(Cuts(overshoot, credits, n))
    requires paid == AddAll(pay, idx[..n], Negated(Cuts(overshoot, credits, n)))
    modifies c
    ensures applied + cut == Sum(Cuts(overshoot, credits, n + 1))
    ensures paid' == AddAll(pay, idx[..n + 1], Negated(Cuts(overshoot, credits, n + 1)))
    ensures Books(comps, rows, paid')
  {
    assert HoldsAt(comps, rows, idx[n]) && c.balanceOld == credits[n];
    ghost var next := CutNext(overshoot, credits, n, applied, pay, idx, paid);
    cut := CutOne(c, n == count - 1, overshoot, applied, totalCredit, comps, rows, paid, idx[n]);
    assert cut == next;
    paid' := paid[idx[n] := paid[idx[n]] + -cut];
  }

  method CutClaims(claimers: seq<MinerComputation>, credits: seq<int>, overshoot: int, totalCredit: int,
                   ghost comps: seq<MinerComputation>, ghost rows: seq<Row>, ghost pay: seq<int>, ghost idx: seq<nat>)
      returns (applied: int)
    requires Books(comps, rows, pay) && Lists(claimers, comps, idx)
    requires |credits| == |claimers| && credits == Pick(CreditsOf(rows), idx) && totalCredit == Sum(credits) > 0
    modifies comps
    ensures applied == Sum(Cuts(overshoot, credits, |credits|))
    ensures Books(comps, rows, AddAll(pay, idx, Negated(Cuts(overshoot, credits, |credits|))))
  {
    applied := 0;
    ghost var paid := pay;
    for n := 0 to |claimers|
      invariant applied == Sum(Cuts(overshoot, credits, n))
      invariant paid == AddAll(pay, idx[..n], Negated(Cuts(overshoot, credits, n)))
      invariant Books(comps, rows, paid)
    {
      var cut;
      cut, paid := CutRound(claimers[n], n, overshoot, applied, totalCredit, |claimers|, comps, rows, pay, idx, paid,
                            credits);
      applied := applied + cut;
    }
    assert idx[..|claimers|] == idx;
  }

  /** The parts a solvency cap is made of. */
  datatype CapParts = CapParts(claimers: seq<nat>, due: seq<int>, cuts: seq<int>, capped: seq<int>)

  ghost predicate CapIs(cap: CapResult, overshoot: int, pay: seq<int>, p: CapParts) {
    if overshoot <= 0 then cap == Solvent(pay)
    else if Sum(p.due) < overshoot || |p.due| == 0 then !cap.Solvent?
    else (cap.Solvent? <==> Sum(p.cuts) >= overshoot) && (cap.Solvent? ==> cap.pay == p.capped)
  }

  ghost predicate PartsOf(rows: seq<Row>, kept: seq<nat>, pay: seq<int>, overshoot: int, p: CapParts)
    requires |pay| == |rows| && forall k :: 0 <= k < |kept| ==> kept[k] < |rows|
  {
    && p.claimers == Claimers(rows, kept) && p.due == Credits(rows, kept) && |p.claimers| == |p.due|
    && (0 < overshoot <= Sum(p.due) && |p.due| > 0 ==>
          p.cuts == Cuts(overshoot, p.due, |p.due|) && p.capped == AddAll(pay, p.claimers, Negated(p.cuts)))
  }

  /** Reduces credit claims until the miners' payments fit the reward, or says that it cannot. */
  method ApplySolvencyCap(kept: seq<MinerComputation>, reward: int, all: seq<MinerComputation>,
                          ghost rows: seq<Row>, ghost pay: seq<int>, ghost idx: seq<nat>, ghost cap: CapResult,
                          ghost p: CapParts)
      returns (solvent: bool)
    requires Books(all, rows, pay) && Lists(kept, all, idx) && |pay| == |rows|
    requires forall k :: 0 <= k < |idx| ==> idx[k] < |rows|
    requires PartsOf(rows, idx, pay, Sum(pay) - reward, p) && CapIs(cap, Sum(pay) - reward, pay, p)
    modifies all
    ensures solvent == cap.Solvent?
    ensures solvent ==> Books(all, rows, cap.pay)
  {
    var preliminaryOnChain := TotalOnChain(all, rows, pay);
    if preliminaryOnChain - reward <= 0 { return true; }
    solvent := CapOvershoot(kept, preliminaryOnChain - reward, all, rows, pay, idx, p);
  }

  /** Cuts the claims of kept miners in credit, unless they are too few or it does not suffice. */
  method CapOvershoot(kept: seq<MinerComputation>, overshoot: int, ghost all: seq<MinerComputation>,
                      ghost rows: seq<Row>, ghost pay: seq<int>, ghost idx: seq<nat>, ghost p: CapParts)
      returns (solvent: bool)
    requires Books(all, rows, pay) && Lists(kept, all, idx) && overshoot > 0 && |pay| == |rows|
    requires forall k :: 0 <= k < |idx| ==> idx[k] < |rows|
    requires PartsOf(rows, idx, pay, overshoot, p)
    modifies all
    ensures solvent <==> Sum(p.due) >= overshoot && |p.due| > 0 && Sum(p.cuts) >= overshoot
    ensures solvent ==> Books(all, rows, p.capped)
  {
    var claimers, credits, c := ClaimersSorted(kept, all, rows, idx);
    var totalCredit := SumAll(credits);
    if totalCredit < overshoot || |claimers| == 0 { return false; }
    var applied := CutClaims(claimers, credits, overshoot, totalCredit, all, rows, pay, c);
    solvent := applied >= overshoot;
  }

  lemma CapUnfold(rows: seq<Row>, kept: seq<nat>, pay: seq<int>, reward: int) returns (cap: CapResult, p: CapParts)
    requires |pay| == |rows| && forall k :: 0 <= k < |kept| ==> kept[k] < |rows|
    ensures cap == SolvencyCap(rows, kept, pay, reward)
    ensures PartsOf(rows, kept, pay, Sum(pay) - reward, p) && CapIs(cap, Sum(pay) - reward, pay, p)
  {
    var overshoot, due := Sum(pay) - reward, Credits(rows, kept);
    p := CapParts(Claimers(rows, kept), due, [], pay);
    if 0 < overshoot <= Sum(due) && |due| > 0 {
      p := PartsWithCuts(rows, kept, pay, overshoot);
    }
    cap := SolvencyCap(rows, kept, pay, reward);
    CapOfParts(rows, kept, pay, reward, p);
  }

  lemma PartsWithCuts(rows: seq<Row>, kept: seq<nat>, pay: seq<int>, overshoot: int) returns (p: CapParts)
    requires |pay| == |rows| && forall k :: 0 <= k < |kept| ==> kept[k] < |rows|
    requires 0 < overshoot <= Sum(Credits(rows, kept)) && |Credits(rows, kept)| > 0
    ensures PartsOf(rows, kept, pay, overshoot, p)
  {
    var c, due := Claimers(rows, kept), Credits(rows, kept);
    var cuts := Cuts(overshoot, due, |due|);
    p := CapParts(c, due, cuts, AddAll(pay, c, Negated(cuts)));
  }

  lemma CapOfParts(rows: seq<Row>, kept: seq<nat>, pay: seq<int>, reward: int, p: CapParts)
    requires |pay| == |rows| && forall k :: 0 <= k < |kept| ==> kept[k] < |rows|
    requires PartsOf(rows, kept, pay, Sum(pay) - reward, p)
    ensures CapIs(SolvencyCap(rows, kept, pay, reward), Sum(pay) - reward, pay, p)
  {
  }

  // ----- Phase 6 -----

  method OnChainOf(kept: seq<MinerComputation>, ghost comps: seq<MinerComputation>, ghost rows: seq<Row>,
                   ghost pay: seq<int>, ghost idx: seq<nat>)
      returns (onChain: seq<int>)
    requires Books(comps, rows, pay) && Lists(kept, comps, idx)
    ensures onChain == Pick(pay, idx)
  {
    onChain := [];
    for n := 0 to |kept|
      invariant onChain == Pick(pay, idx)[..n]
    {
      assert kept[n] == comps[idx[n]] && BookedAt(comps, rows, pay, idx[n]);
      onChain := onChain + [kept[n].onChain];
    }
  }

  lemma MinerPayoutsNext(rows: seq<Row>, pay: seq<int>, order: seq<nat>, reward: nat, n: nat)
    requires |pay| == |rows| && n < |order| && forall i :: 0 <= i < |order| ==> order[i] < |rows|
    ensures MinerPayouts(rows, pay, order[..n + 1], reward) ==
              MinerPayouts(rows, pay, order[..n], reward) +
              (if pay[order[n]] <= 0 then [] else [PayoutOf(rows[order[n]].address, pay[order[n]], reward)])
  {
    assert order[..n + 1][..n] == order[..n];
    var before := MinerPayouts(rows, pay, order[..n], reward);
    assert before + [] == before;
  }

  /** Kept miners, largest on-chain amount first; nothing for amounts of zero or less. */
  method EmitMiners(kept: seq<MinerComputation>, reward: nat, first: seq<Payout>,
                    ghost comps: seq<MinerComputation>, ghost rows: seq<Row>, ghost pay: seq<int>, ghost idx: seq<nat>)
      returns (payouts: seq<Payout>)
    requires Books(comps, rows, pay) && Lists(kept, comps, idx)
    ensures payouts == first + MinerPayouts(rows, pay, EmissionOrder(idx, pay), reward)
  {
    var onChain := OnChainOf(kept, comps, rows, pay, idx);
    var p := SortPositions(Negated(onChain));
    PickPick(comps, idx, p);
    payouts := EmitInOrder(Pick(kept, p), reward, first, comps, rows, pay, EmissionOrder(idx, pay));
  }

  method EmitInOrder(sortedKept: seq<MinerComputation>, reward: nat, first: seq<Payout>,
                     ghost comps: seq<MinerComputation>, ghost rows: seq<Row>, ghost pay: seq<int>,
                     ghost order: seq<nat>)
      returns (payouts: seq<Payout>)
    requires Books(comps, rows, pay) && Lists(sortedKept, comps, order)
    ensures payouts == first + MinerPayouts(rows, pay, order, reward)
  {
    payouts := first;
    for n := 0 to |sortedKept|
      invariant payouts == first + MinerPayouts(rows, pay, order[..n], reward)
    {
      var c := sortedKept[n];
      assert c == comps[order[n]] && HoldsAt(comps, rows, order[n]) && BookedAt(comps, rows, pay, order[n]);
      MinerPayoutsNext(rows, pay, order, reward, n);
      if c.onChain <= 0 { continue; }
      payouts := payouts + [PayoutOf(c.address, c.onChain, reward)];
    }
    assert order[..|sortedKept|] == order;
  }

  method BuildBalanceAfter(comps: seq<MinerComputation>, ghost rows: seq<Row>, ghost pay: seq<int>)
      returns (balanceAfter: Entries<int>)
    requires Books(comps, rows, pay)
    ensures balanceAfter == BalanceAfter(rows, pay, |rows|)
  {
    balanceAfter := [];
    for n := 0 to |comps|
      invariant balanceAfter == BalanceAfter(rows, pay, n)
    {
      var c := comps[n];
      assert HoldsAt(comps, rows, n) && BookedAt(comps, rows, pay, n);
      if c.balanceOld != 0 || c.balanceNew != 0 {
        balanceAfter := balanceAfter + [(c.address, c.balanceNew)];
      }
    }
  }

  // ----- The whole distribution -----

  /** Everything to the fee address, no ledger change. */
  function FeeFallback(i: Input): Result {
    Result(ToFeeOnly(i), Keys(i.addressShares) + Keys(i.balances), [])
  }

  lemma DistributionUnfold(i: Input, weightOf: Address -> nat)
    ensures i.TotalShares() <= 0 ==> Distribution(i, weightOf) == FeeFallback(i)
    ensures i.TotalShares() > 0 ==>
              var t := Trimming(i, Rows(i), weightOf);
              WellFormedTrim(Rows(i), t) && Distribution(i, weightOf) == Render(i, SettleRows(i, Rows(i), t))
  {
    if i.TotalShares() > 0 {
      TrimmingIsWellFormed(i, Rows(i), weightOf);
    }
  }

  /** Phases 1 and 2: a record per miner with shares, then per other non-zero balance. */
  method ComputeMiners(i: Input, totalShares: int, rewardForMiners: int) returns (comps: seq<MinerComputation>)
    requires i.TotalShares() > 0 && totalShares == i.TotalShares() && rewardForMiners == i.RewardForMiners()
    ensures fresh(comps) && Fresh(comps, Rows(i), i.MinPayout())
  {
    var active := ComputeActive(i, totalShares, rewardForMiners, i.MinPayout());
    comps := AddPending(i, active, i.MinPayout());
    assert forall k :: 0 <= k < |comps| ==> comps[k] in comps;
  }

  method BuildCoinbaseDistribution(i: Input, cache: OutputWeightCache) returns (r: Result)
    requires i.Valid() && cache.Valid()
    modifies cache`entries
    ensures cache.Valid() && r == Distribution(i, cache.WeightOf())
  {
    var totalShares := SumShares(i);
    DistributionUnfold(i, cache.WeightOf());
    if totalShares <= 0 { return FeeFallback(i); }
    var rewardForMiners := i.RewardForMiners();
    var comps := ComputeMiners(i, totalShares, rewardForMiners);
    ghost var rows := Rows(i);
    var kept, trimmed := SelectKept(i, comps, cache, rows);
    r := PayAndRender(i, comps, kept, trimmed, rewardForMiners, rows, Trimming(i, rows, cache.WeightOf()));
  }

  method WeighFixed(i: Input, cache: OutputWeightCache) returns (fixedWeight: int)
    requires cache.Valid()
    modifies cache`entries
    ensures cache.Valid() && fixedWeight == FixedWeight(i, cache.WeightOf())
  {
    var feeOutputWeight, bonusOutputWeight := 0, 0;
    if i.FeeEmitted() { feeOutputWeight := cache.OutputWeightForAddress(i.feeAddress); }
    if i.BonusEmitted() { bonusOutputWeight := cache.OutputWeightForAddress(i.finderAddress); }
    fixedWeight := COINBASE_BASE_WEIGHT + COINBASE_WITNESS_COMMITMENT_WEIGHT + feeOutputWeight + bonusOutputWeight;
  }

  /** Phases 3 and 4: the eligible records, kept or trimmed. */
  method SelectKept(i: Input, comps: seq<MinerComputation>, cache: OutputWeightCache, ghost rows: seq<Row>)
      returns (kept: seq<MinerComputation>, trimmed: seq<MinerComputation>)
    requires cache.Valid() && Fresh(comps, rows, i.MinPayout())
    modifies cache`entries
    ensures cache.Valid() && Books(comps, rows, Zeros(|rows|))
    ensures var t := Trimming(i, rows, cache.WeightOf());
            Lists(kept, comps, t.kept) && Lists(trimmed, comps, t.trimmed)
  {
    var fixedWeight := WeighFixed(i, cache);
    var eligible := EligibleSorted(comps, i.MinPayout(), rows);
    kept, trimmed := TrimToBudget(eligible, fixedWeight, i.Budget() - BUDGET_SAFETY_MARGIN_WU, cache,
                                  comps, rows, EligibleList(rows, i.MinPayout()));
  }

  /** Phases 5 and 6 on the kept and trimmed records. */
  method PayAndRender(i: Input, comps: seq<MinerComputation>, kept: seq<MinerComputation>,
                      trimmed: seq<MinerComputation>,
                      rewardForMiners: int, ghost rows: seq<Row>, ghost t: Trim)
      returns (r: Result)
    requires Books(comps, rows, Zeros(|rows|)) && WellFormedTrim(rows, t)
    requires Lists(kept, comps, t.kept) && Lists(trimmed, comps, t.trimmed)
    requires rewardForMiners == i.RewardForMiners()
    modifies comps
    ensures r == Render(i, SettleRows(i, rows, t))
  {
    var feeBonusSats := PayAndHandOn(i, comps, kept, trimmed, rows, t);
    ghost var topped := ToppedUp(i, rows, t);
    ghost var cap, parts := CapUnfold(rows, t.kept, topped, rewardForMiners);
    var solvent := ApplySolvencyCap(kept, rewardForMiners, comps, rows, topped, t.kept, cap, parts);
    if !solvent { return FeeFallback(i); }
    r := FinishAndRender(i, comps, kept, rewardForMiners, feeBonusSats, rows, t, cap.pay);
  }

  /** Phase 5a: kept records get their targets, trimmed targets go to workers or are promised to the fee. */
  method PayAndHandOn(i: Input, comps: seq<MinerComputation>, kept: seq<MinerComputation>,
                      trimmed: seq<MinerComputation>,
                      ghost rows: seq<Row>, ghost t: Trim)
      returns (feeBonusSats: int)
    requires Books(comps, rows, Zeros(|rows|)) && WellFormedTrim(rows, t)
    requires Lists(kept, comps, t.kept) && Lists(trimmed, comps, t.trimmed)
    modifies comps
    ensures Books(comps, rows, ToppedUp(i, rows, t)) && feeBonusSats == TrimToFee(i, rows, t)
  {
    PayTargets(kept, comps, rows, t);
    var trimmedTotal := TotalOfTrimmed(trimmed, comps, rows, t);
    feeBonusSats := 0;
    if trimmedTotal > 0 {
      if i.suppressMatchingDebits {
        feeBonusSats := trimmedTotal;
      } else {
        HandOutTo(kept, trimmedTotal, comps, rows, KeptPay(rows, t), t.kept);
      }
    }
  }

  method FinishAndRender(i: Input, comps: seq<MinerComputation>, kept: seq<MinerComputation>,
                         rewardForMiners: int, toFee: int, ghost rows: seq<Row>, ghost t: Trim, ghost pay: seq<int>)
      returns (r: Result)
    requires Books(comps, rows, pay) && WellFormedTrim(rows, t) && Lists(kept, comps, t.kept)
    requires !i.suppressMatchingDebits ==> toFee == 0
    modifies comps
    ensures r == Render(i, Finish(i.suppressMatchingDebits, rewardForMiners, toFee, rows, t, pay))
  {
    var onChainTotal := TotalOnChain(comps, rows, pay);
    var residuum := rewardForMiners - onChainTotal - toFee;
    ghost var o := FinishOf(i.suppressMatchingDebits, rewardForMiners, toFee, rows, t, pay, residuum);
    if residuum < 0 { return FeeFallback(i); }
    var feeBonusSats := DistributeResiduum(i.suppressMatchingDebits, kept, residuum, toFee, comps, rows, pay, t.kept);
    ghost var paid := if i.suppressMatchingDebits then pay else HandOut(rows, t.kept, pay, residuum);
    r := RenderSettled(i, comps, kept, feeBonusSats, rows, t, paid);
  }

  lemma FinishOf(suppress: bool, reward: int, toFee: int, rows: seq<Row>, t: Trim, pay: seq<int>, residuum: int)
      returns (o: Outcome)
    requires |pay| == |rows| && (forall k :: 0 <= k < |t.kept| ==> t.kept[k] < |rows|)
    requires residuum == reward - Sum(pay) - toFee
    ensures o == Finish(suppress, reward, toFee, rows, t, pay)
    ensures residuum < 0 ==> o == NegativeResiduum
    ensures residuum >= 0 && suppress ==> o == Settled(rows, t, pay, toFee + residuum)
    ensures residuum >= 0 && !suppress ==> o == Settled(rows, t, HandOut(rows, t.kept, pay, residuum), 0)
  {
    o := Finish(suppress, reward, toFee, rows, t, pay);
  }

  /** Phase 5b: what is left goes to kept workers, or to the fee. */
  method DistributeResiduum(suppress: bool, kept: seq<MinerComputation>, residuum: nat, toFee: int,
                            ghost comps: seq<MinerComputation>, ghost rows: seq<Row>, ghost pay: seq<int>,
                            ghost idx: seq<nat>)
      returns (feeBonusSats: int)
    requires Books(comps, rows, pay) && Lists(kept, comps, idx)
    modifies comps
    ensures Books(comps, rows, if suppress then pay else HandOut(rows, idx, pay, residuum))
    ensures feeBonusSats == if suppress then toFee + residuum else toFee
  {
    feeBonusSats := toFee;
    if residuum > 0 {
      if suppress {
        feeBonusSats := feeBonusSats + residuum;
      } else {
        HandOutTo(kept, residuum, comps, rows, pay, idx);
      }
    }
  }

  method RenderSettled(i: Input, comps: seq<MinerComputation>, kept: seq<MinerComputation>, feeBonusSats: int,
                       ghost rows: seq<Row>, ghost t: Trim, ghost paid: seq<int>)
      returns (r: Result)
    requires Books(comps, rows, paid) && WellFormedTrim(rows, t) && Lists(kept, comps, t.kept)
    ensures r == Render(i, Settled(rows, t, paid, feeBonusSats))
  {
    var payouts := EmitMiners(kept, i.blockRewardSats, FixedPayouts(i, feeBonusSats), comps, rows, paid, t.kept);
    var balanceAfter := BuildBalanceAfter(comps, rows, paid);
    r := Result(if |payouts| > 0 then payouts else ToFeeOnly(i),
                Keys(i.addressShares) + Keys(i.balances), balanceAfter);
  }
}

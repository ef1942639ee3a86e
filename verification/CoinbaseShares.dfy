/**
 * Who gets what: every miner's on-chain amount item by item, from the shares and balances of the block's
 * input, and the outputs and balances that come of it.
 */
module CoinbaseShares {
  import opened Sums
  import opened StableSorting
  import opened Apportionment
  import opened CoinbaseSplit
  import opened CoinbaseTrim
  import opened CoinbaseGuarantees
  import opened CoinbaseFallbacks
  import opened LedgerRuns

  // ----- Proportional division -----

  /** The whole sats of a proportional part. */
  function Part(amount: int, weight: int, total: int): int
    requires total > 0
  {
    amount * weight / total
  }

  /** Position k, unless it is t, gets the whole sats of its part; t has no smaller weight. */
  ghost predicate GetsPart(amount: int, weights: seq<int>, got: seq<int>, t: nat, k: nat)
    requires t < |weights| == |got| && Sum(weights) > 0
  {
    k < |weights| ==>
      weights[k] <= weights[t] && (k != t ==> got[k] == Part(amount, weights[k], Sum(weights)))
  }

  ghost predicate DividesBut(amount: int, weights: seq<int>, got: seq<int>, t: nat) {
    t < |weights| == |got| && Sum(weights) > 0 && forall k: nat :: GetsPart(amount, weights, got, t, k)
  }

  /** The whole amount, in proportion to the weights, what the floors leave to one of the greatest weight. */
  ghost predicate Divides(amount: int, weights: seq<int>, got: seq<int>) {
    Sum(got) == amount && exists t: nat :: DividesBut(amount, weights, got, t)
  }

  /** Nothing is divided where there is nothing, or nobody to divide it among. */
  ghost predicate Handed(amount: int, weights: seq<int>, got: seq<int>) {
    if amount > 0 && Sum(weights) > 0 then Divides(amount, weights, got) else got == Zeros(|weights|)
  }

  function Positives(weights: seq<int>): nat {
    if |weights| == 0 then 0
    else Positives(weights[..|weights| - 1]) + if weights[|weights| - 1] > 0 then 1 else 0
  }

  function Parts(amount: int, weights: seq<int>, total: int): (r: seq<int>)
    requires total > 0
    ensures |r| == |weights|
  {
    seq(|weights|, k requires 0 <= k < |weights| => Part(amount, weights[k], total))
  }

  lemma {:induction false} PartsScaled(amount: int, weights: seq<int>, total: int)
    requires total > 0 && forall k :: 0 <= k < |weights| ==> weights[k] >= 0
    ensures total * Sum(Parts(amount, weights, total)) <= amount * Sum(weights)
    ensures amount * Sum(weights) <= total * Sum(Parts(amount, weights, total)) + Positives(weights) * (total - 1)
  {
    if |weights| != 0 {
      var n := |weights| - 1;
      var p := Parts(amount, weights, total);
      assert p[..n] == Parts(amount, weights[..n], total);
      PartsScaled(amount, weights[..n], total);
      if weights[n] > 0 {
        ScaledStep(amount, total, Sum(weights[..n]), weights[n], Sum(p[..n]), p[n], Positives(weights[..n]));
      } else {
        assert amount * 0 == 0 && p[n] == 0;
        assert Sum(weights) == Sum(weights[..n]) && Sum(p) == Sum(p[..n]);
      }
    }
  }

  lemma {:induction false} TailAt(amount: int, weights: seq<int>, got: seq<int>, t: nat)
    requires DividesBut(amount, weights, got, t) && Sum(got) == amount
    requires forall j :: 0 <= j < |weights| ==> weights[j] >= 0
    ensures var whole := Part(amount, weights[t], Sum(weights));
            whole <= got[t] && (got[t] == whole || got[t] < whole + Positives(weights))
  {
    var parts := Parts(amount, weights, Sum(weights));
    forall j: nat | j < |got| && j != t ensures got[j] == parts[j] { assert GetsPart(amount, weights, got, t, j); }
    assert got == parts[t := got[t]];
    SumUpdate(parts, t, got[t]);
    PartsScaled(amount, weights, Sum(weights));
    TailBounds(amount, Sum(weights), Sum(parts), Positives(weights), got[t] - parts[t]);
  }

  /** Nobody gets less than the whole sats, and only one gets more: less than one sat per positive weight. */
  lemma {:induction false} DividedWithinASat(amount: int, weights: seq<int>, got: seq<int>, k: nat)
    requires Divides(amount, weights, got) && k < |weights|
    requires forall j :: 0 <= j < |weights| ==> weights[j] >= 0
    ensures Sum(weights) > 0 && |got| == |weights|
    ensures var whole := Part(amount, weights[k], Sum(weights));
            && whole <= got[k] && (got[k] == whole || got[k] < whole + Positives(weights))
            && (got[k] != whole ==> forall j: nat :: GetsPart(amount, weights, got, k, j))
  {
    var t: nat :| DividesBut(amount, weights, got, t);
    assert GetsPart(amount, weights, got, t, k);
    if k == t {
      TailAt(amount, weights, got, t);
    }
  }

  lemma TailBounds(amount: int, total: int, floors: int, n: nat, tail: int)
    requires total > 0 && amount == floors + tail
    requires total * floors <= amount * total <= total * floors + n * (total - 1)
    ensures 0 <= tail && (tail == 0 || tail < n)
  {
    assert amount * total == total * floors + total * tail;
    assert n * (total - 1) == n * total - n;
    CancelStrictly(total, -1, tail);
    if tail > 0 {
      assert total * tail <= n * total - n;
      if n > 0 {
        assert total * tail < total * n;
        CancelStrictly(total, tail, n);
      }
    }
  }

  // ----- Weights by row -----

  function KeptTargets(rows: seq<Row>, kept: seq<nat>): (r: seq<int>)
    ensures |r| == |rows|
  {
    seq(|rows|, k requires 0 <= k < |rows| => if k in kept then rows[k].Target() else 0)
  }

  function KeptShares(rows: seq<Row>, kept: seq<nat>): (r: seq<int>)
    ensures |r| == |rows|
  {
    seq(|rows|, k requires 0 <= k < |rows| => if k in kept then rows[k].shares else 0)
  }

  function KeptCredits(rows: seq<Row>, kept: seq<nat>): (r: seq<int>)
    ensures |r| == |rows|
  {
    seq(|rows|, k requires 0 <= k < |rows| =>
      if k in kept && rows[k].balanceOld > 0 then rows[k].balanceOld else 0)
  }

  /** The targets of trimmed miners who worked. */
  function TrimmedClaims(rows: seq<Row>, trimmed: seq<nat>): (r: seq<int>)
    ensures |r| == |rows|
  {
    seq(|rows|, k requires 0 <= k < |rows| => if k in trimmed && rows[k].shares > 0 then rows[k].Target() else 0)
  }

  ghost predicate Positions(rows: seq<Row>, idx: seq<nat>) {
    Distinct(idx) && forall j :: 0 <= j < |idx| ==> idx[j] < |rows|
  }

  /** Values placed at distinct positions that hold them, with zeros elsewhere. */
  lemma {:induction false} PlacedEverywhere(idx: seq<nat>, values: seq<int>, amounts: seq<int>)
    requires Distinct(idx) && (forall j :: 0 <= j < |idx| ==> idx[j] < |values|) && |amounts| == |idx|
    requires forall j :: 0 <= j < |idx| ==> amounts[j] == values[idx[j]]
    requires forall k :: 0 <= k < |values| && k !in idx ==> values[k] == 0
    ensures AddAll(Zeros(|values|), idx, amounts) == values && Sum(amounts) == Sum(values)
  {
    var z := Zeros(|values|);
    SumZeros(|values|);
    SumAddAll(z, idx, amounts);
    forall k | 0 <= k < |values|
      ensures AddAll(z, idx, amounts)[k] == values[k]
    {
      PlacedAt(|values|, idx, amounts, k, values[k]);
    }
    assert AddAll(z, idx, amounts) == values;
  }

  /** The positive weights, listed with their positions. */
  ghost predicate Lists(weights: seq<int>, idx: seq<nat>, values: seq<int>) {
    && Distinct(idx) && |values| == |idx| && Sum(values) == Sum(weights)
    && (forall j :: 0 <= j < |idx| ==> idx[j] < |weights| && values[j] == weights[idx[j]])
    && forall k :: 0 <= k < |weights| ==> weights[k] >= 0 && (k !in idx ==> weights[k] == 0)
  }

  lemma {:induction false} SharesPlaced(rows: seq<Row>, kept: seq<nat>)
    requires Positions(rows, kept)
    ensures Lists(KeptShares(rows, kept), Working(rows, kept), SharesAt(rows, Working(rows, kept)))
  {
    WorkingDistinct(rows, kept);
    PlacedEverywhere(Working(rows, kept), KeptShares(rows, kept), SharesAt(rows, Working(rows, kept)));
  }

  lemma {:induction false} ClaimsPlaced(rows: seq<Row>, t: Trim)
    requires WellFormedTrim(rows, t)
    ensures TrimmedTotal(rows, t) == Sum(TrimmedClaims(rows, t.trimmed))
  {
    WorkingDistinct(rows, t.trimmed);
    PlacedEverywhere(Working(rows, t.trimmed), TrimmedClaims(rows, t.trimmed),
                     Pick(Targets(rows), Working(rows, t.trimmed)));
  }

  lemma {:induction false} CreditsPlaced(rows: seq<Row>, kept: seq<nat>)
    requires Positions(rows, kept)
    ensures Lists(KeptCredits(rows, kept), Claimers(rows, kept), Credits(rows, kept))
    ensures AllPositiveCredits(Credits(rows, kept))
  {
    ClaimersFacts(rows, kept);
    forall j | 0 <= j < |Claimers(rows, kept)|
      ensures Credits(rows, kept)[j] == KeptCredits(rows, kept)[Claimers(rows, kept)[j]] > 0
    {
      assert Claimers(rows, kept)[j] in Claimers(rows, kept);
    }
    PlacedEverywhere(Claimers(rows, kept), KeptCredits(rows, kept), Credits(rows, kept));
  }

  // ----- Each phase divides -----

  /** Amounts placed at the positions with a weight divide the total if the list of amounts does. */
  lemma {:induction false} PlacedDivides(amount: int, weights: seq<int>, idx: seq<nat>, values: seq<int>, at: seq<int>,
                                         last: nat)
    requires Lists(weights, idx, values) && |at| == |idx|
    requires last < |idx| && Sum(weights) > 0 && Sum(at) == amount
    requires forall j :: 0 <= j < |idx| ==> values[j] <= values[last]
    requires forall j :: 0 <= j < |idx| && j != last ==> at[j] == Part(amount, values[j], Sum(values))
    ensures Divides(amount, weights, AddAll(Zeros(|weights|), idx, at))
  {
    var got := AddAll(Zeros(|weights|), idx, at);
    SumZeros(|weights|);
    SumAddAll(Zeros(|weights|), idx, at);
    var t := idx[last];
    forall k: nat
      ensures GetsPart(amount, weights, got, t, k)
    {
      if k >= |weights| {
      } else if k in idx {
        var j :| 0 <= j < |idx| && idx[j] == k;
        AddAllAt(Zeros(|weights|), idx, at, j);
      } else {
        AddAllElsewhere(Zeros(|weights|), idx, at, k);
        assert amount * 0 == 0;
      }
    }
    assert DividesBut(amount, weights, got, t);
  }

  /** `ShareOut` gives everyone but the biggest the floor. */
  lemma {:induction false} ShareOutAt(amount: int, weights: seq<int>, j: nat)
    requires Sum(weights) > 0 && j < |weights|
    ensures weights[j] <= weights[Biggest(weights)]
    ensures j != Biggest(weights) ==> ShareOut(amount, weights)[j] == Part(amount, weights[j], Sum(weights))
  {
    var keys := Negated(weights);
    var p := SortPositions(keys);
    SortIsStableSort(keys);
    assert j in p;
    var i :| 0 <= i < |p| && p[i] == j;
    assert i > 0 ==> Before(keys, p[0], p[i]);
  }

  function Less(a: seq<int>, b: seq<int>): (r: seq<int>)
    requires |a| == |b|
    ensures |r| == |a|
  {
    seq(|a|, k requires 0 <= k < |a| => a[k] - b[k])
  }

  /** What one hand-out adds to every row. */
  lemma {:induction false} HandOutDivides(rows: seq<Row>, kept: seq<nat>, pay: seq<int>, amount: int)
    requires |pay| == |rows| && Positions(rows, kept)
    ensures Handed(amount, KeptShares(rows, kept), Less(HandOut(rows, kept, pay, amount), pay))
  {
    var working, weights := Working(rows, kept), KeptShares(rows, kept);
    var shares := SharesAt(rows, working);
    SharesPlaced(rows, kept);
    if amount > 0 && Sum(weights) > 0 {
      assert |shares| > 0 by { assert |shares| == 0 ==> Sum(shares) == 0; }
      HandedOutTo(amount, weights, working, shares);
      AddedAlike(pay, working, ShareOut(amount, shares));
    } else {
      NothingTaken(pay);
    }
  }

  lemma NothingTaken(a: seq<int>)
    ensures Less(a, a) == Zeros(|a|)
  {
  }

  lemma {:induction false} HandedOutTo(amount: int, weights: seq<int>, working: seq<nat>, shares: seq<int>)
    requires amount > 0 && Sum(weights) > 0 && Lists(weights, working, shares) && |shares| > 0
    ensures Divides(amount, weights, AddAll(Zeros(|weights|), working, ShareOut(amount, shares)))
  {
    ShareOutIsExact(amount, shares);
    forall j: nat | j < |working|
      ensures shares[j] <= shares[Biggest(shares)]
      ensures j != Biggest(shares) ==> ShareOut(amount, shares)[j] == Part(amount, shares[j], Sum(shares))
    {
      ShareOutAt(amount, shares, j);
    }
    PlacedDivides(amount, weights, working, shares, ShareOut(amount, shares), Biggest(shares));
  }

  /** Adding a list of amounts adds the same to every entry, whatever stands there. */
  lemma {:induction false} AddedAlike(pay: seq<int>, idx: seq<nat>, amounts: seq<int>)
    requires |idx| == |amounts| && Distinct(idx) && forall j :: 0 <= j < |idx| ==> idx[j] < |pay|
    ensures Less(AddAll(pay, idx, amounts), pay) == AddAll(Zeros(|pay|), idx, amounts)
    ensures Less(pay, AddAll(pay, idx, Negated(amounts))) == AddAll(Zeros(|pay|), idx, amounts)
  {
    forall k: nat | k < |pay|
      ensures AddAll(pay, idx, amounts)[k] == pay[k] + AddAll(Zeros(|pay|), idx, amounts)[k]
      ensures AddAll(pay, idx, Negated(amounts))[k] == pay[k] - AddAll(Zeros(|pay|), idx, amounts)[k]
    {
      if k in idx {
        var j :| 0 <= j < |idx| && idx[j] == k;
        AddAllAt(pay, idx, amounts, j);
        AddAllAt(pay, idx, Negated(amounts), j);
        AddAllAt(Zeros(|pay|), idx, amounts, j);
      } else {
        AddAllElsewhere(pay, idx, amounts, k);
        AddAllElsewhere(pay, idx, Negated(amounts), k);
        AddAllElsewhere(Zeros(|pay|), idx, amounts, k);
      }
    }
  }

  /** What a cap that succeeds leaves. */
  ghost predicate CappedForm(overshoot: int, pay: seq<int>, c: seq<nat>, credits: seq<int>, capped: seq<int>) {
    && |c| == |credits| && (forall j :: 0 <= j < |c| ==> c[j] < |pay|)
    && if overshoot <= 0 then capped == pay
       else overshoot <= Sum(credits) && |c| > 0 && Sum(Cuts(overshoot, credits, |c|)) >= overshoot
            && capped == AddAll(pay, c, Negated(Cuts(overshoot, credits, |c|)))
  }

  lemma {:induction false} SolventForm(rows: seq<Row>, kept: seq<nat>, pay: seq<int>, reward: int, overshoot: int)
    requires |pay| == |rows| && (forall j :: 0 <= j < |kept| ==> kept[j] < |rows|)
    requires SolvencyCap(rows, kept, pay, reward).Solvent? && overshoot == Sum(pay) - reward
    ensures CappedForm(overshoot, pay, Claimers(rows, kept), Credits(rows, kept),
                       SolvencyCap(rows, kept, pay, reward).pay)
  {
  }

  ghost predicate Ascends(credits: seq<int>) {
    forall j :: 0 <= j < |credits| ==> 0 < credits[j] <= credits[|credits| - 1]
  }

  lemma {:induction false} CapEffect(overshoot: int, pay: seq<int>, weights: seq<int>, c: seq<nat>, credits: seq<int>,
                                     capped: seq<int>)
    requires Lists(weights, c, credits) && |weights| == |pay| == |capped| && Ascends(credits)
    requires CappedForm(overshoot, pay, c, credits, capped)
    ensures Handed(overshoot, weights, Less(pay, capped))
  {
    if overshoot > 0 {
      AddedAlike(pay, c, Cuts(overshoot, credits, |c|));
      CutFrom(overshoot, weights, c, credits);
    } else {
      NothingTaken(pay);
    }
  }

  /** What a cap that succeeds takes from every row. */
  lemma {:induction false} CapTakes(rows: seq<Row>, kept: seq<nat>, overshoot: int, pay: seq<int>, capped: seq<int>)
    requires |pay| == |capped| == |rows| && Positions(rows, kept)
    ensures CappedForm(overshoot, pay, Claimers(rows, kept), Credits(rows, kept), capped) ==>
              Handed(overshoot, KeptCredits(rows, kept), Less(pay, capped))
  {
    if CappedForm(overshoot, pay, Claimers(rows, kept), Credits(rows, kept), capped) {
      CreditsPlaced(rows, kept);
      CreditsAscend(rows, kept);
      CapEffect(overshoot, pay, KeptCredits(rows, kept), Claimers(rows, kept), Credits(rows, kept), capped);
    }
  }

  lemma {:induction false} CreditsAscend(rows: seq<Row>, kept: seq<nat>)
    requires Positions(rows, kept)
    ensures Ascends(Credits(rows, kept))
  {
    CreditsPlaced(rows, kept);
    var credits := Credits(rows, kept);
    forall j: nat | j < |credits| ensures credits[j] <= credits[|credits| - 1] { LastClaimerIsLargest(rows, kept, j); }
  }

  lemma {:induction false} CutFrom(overshoot: int, weights: seq<int>, c: seq<nat>, credits: seq<int>)
    requires Claims(overshoot, credits) && Lists(weights, c, credits)
    requires Sum(Cuts(overshoot, credits, |c|)) >= overshoot && Ascends(credits)
    ensures Divides(overshoot, weights, AddAll(Zeros(|weights|), c, Cuts(overshoot, credits, |c|)))
  {
    var n := |c| - 1;
    CutsWithinCredit(overshoot, credits);
    ProRataCuts(overshoot, credits, n);
    var cuts := Cuts(overshoot, credits, |c|);
    assert cuts[..n] == Cuts(overshoot, credits, n);
    forall j: nat | j < |c| && j != n
      ensures cuts[j] == Part(overshoot, credits[j], Sum(credits))
    {
      assert cuts[j] == cuts[..n][j] == Floors(overshoot, credits[..n], Sum(credits))[j];
    }
    PlacedDivides(overshoot, weights, c, credits, cuts, n);
  }

  // ----- The on-chain amounts, item by item -----

  /** What a miner's on-chain amount is made of beside the target. */
  datatype Items = Items(handedOn: seq<int>, cut: seq<int>, residuum: seq<int>)
  {
    predicate Fits(n: nat) { |handedOn| == |cut| == |residuum| == n }
  }

  /** One row's amount. */
  ghost predicate Adds(rows: seq<Row>, kept: seq<nat>, pay: seq<int>, it: Items, k: nat)
    requires it.Fits(|rows|) && |pay| == |rows|
  {
    k < |rows| ==> pay[k] == KeptTargets(rows, kept)[k] + it.handedOn[k] - it.cut[k] + it.residuum[k]
  }

  /**
   * Kept miners get their targets. The claims of trimmed workers are handed on to kept workers by their
   * shares; what then exceeds the reward is cut from kept credits by their size; what then is left of
   * it goes to kept workers by their shares. In suppress mode nothing is handed on or left.
   */
  ghost predicate Itemized(suppress: bool, reward: int, rows: seq<Row>, t: Trim, pay: seq<int>, it: Items) {
    && it.Fits(|rows|) && |pay| == |rows| && (forall k: nat :: Adds(rows, t.kept, pay, it, k))
    && var claims := Sum(KeptTargets(rows, t.kept)) + Sum(it.handedOn);
    && Handed(if suppress then 0 else Sum(TrimmedClaims(rows, t.trimmed)), KeptShares(rows, t.kept), it.handedOn)
    && Handed(claims - reward, KeptCredits(rows, t.kept), it.cut)
    && Handed(if suppress then 0 else reward - (claims - Sum(it.cut)), KeptShares(rows, t.kept), it.residuum)
  }

  lemma {:induction false} KeptPayIsTargets(rows: seq<Row>, t: Trim)
    requires WellFormedTrim(rows, t)
    ensures KeptPay(rows, t) == KeptTargets(rows, t.kept)
  {
    KeptPayFacts(rows, t);
  }

  lemma {:induction false} SumLess(a: seq<int>, b: seq<int>)
    requires |a| == |b|
    ensures Sum(Less(a, b)) == Sum(a) - Sum(b)
  {
    SumPointwise(Less(a, b), b, a);
  }

  lemma {:induction false} HandedNothing(weights: seq<int>, pay: seq<int>)
    requires |pay| == |weights|
    ensures Handed(0, weights, Less(pay, pay))
  {
    NothingTaken(pay);
  }

  lemma {:induction false} ToppedUpDivides(i: Input, rows: seq<Row>, t: Trim, trimmed: int)
    requires WellFormedTrim(rows, t)
    requires trimmed == if i.suppressMatchingDebits then 0 else Sum(TrimmedClaims(rows, t.trimmed))
    ensures Handed(trimmed, KeptShares(rows, t.kept), Less(ToppedUp(i, rows, t), KeptTargets(rows, t.kept)))
  {
    KeptPayIsTargets(rows, t);
    ClaimsPlaced(rows, t);
    HandedNothing(KeptShares(rows, t.kept), KeptTargets(rows, t.kept));
    HandOutDivides(rows, t.kept, KeptTargets(rows, t.kept), TrimmedTotal(rows, t));
  }

  lemma ItemsAdd(suppress: bool, reward: int, rows: seq<Row>, t: Trim, topped: seq<int>, capped: seq<int>,
                 paid: seq<int>, it: Items)
    requires |topped| == |capped| == |paid| == |rows|
    requires it == Items(Less(topped, KeptTargets(rows, t.kept)), Less(topped, capped), Less(paid, capped))
    ensures
      && Handed(if suppress then 0 else Sum(TrimmedClaims(rows, t.trimmed)), KeptShares(rows, t.kept), it.handedOn)
      && Handed(Sum(topped) - reward, KeptCredits(rows, t.kept), it.cut)
      && Handed(if suppress then 0 else reward - Sum(capped), KeptShares(rows, t.kept), it.residuum)
      ==> Itemized(suppress, reward, rows, t, paid, it)
  {
    SumLess(topped, KeptTargets(rows, t.kept));
    SumLess(topped, capped);
    forall k: nat ensures Adds(rows, t.kept, paid, it, k) {}
  }

  /** The phases of a block, whatever they computed, give itemized amounts if each divided as it should. */
  lemma {:induction false} PhasesItemize(suppress: bool, reward: int, rows: seq<Row>, t: Trim, topped: seq<int>,
                                         capped: seq<int>, paid: seq<int>, trimmed: int, overshoot: int, rest: int)
    requires |topped| == |capped| == |paid| == |rows| && Positions(rows, t.kept) && (suppress ==> paid == capped)
    requires trimmed == if suppress then 0 else Sum(TrimmedClaims(rows, t.trimmed))
    requires overshoot == Sum(topped) - reward && rest == reward - Sum(capped)
    ensures
      && Handed(trimmed, KeptShares(rows, t.kept), Less(topped, KeptTargets(rows, t.kept)))
      && CappedForm(overshoot, topped, Claimers(rows, t.kept), Credits(rows, t.kept), capped)
      && (suppress || Handed(rest, KeptShares(rows, t.kept), Less(paid, capped)))
      ==> exists it :: Itemized(suppress, reward, rows, t, paid, it)
  {
    var it := Items(Less(topped, KeptTargets(rows, t.kept)), Less(topped, capped), Less(paid, capped));
    CapTakes(rows, t.kept, overshoot, topped, capped);
    HandedNothing(KeptShares(rows, t.kept), capped);
    ItemsAdd(suppress, reward, rows, t, topped, capped, paid, it);
  }

  lemma SettledByPhases(i: Input, rows: seq<Row>, t: Trim, topped: seq<int>, cap: CapResult)
    requires WellFormedTrim(rows, t) && SettleRows(i, rows, t).Settled? && topped == ToppedUp(i, rows, t)
    requires cap == SolvencyCap(rows, t.kept, topped, i.RewardForMiners())
    ensures cap.Solvent? && SettleRows(i, rows, t) ==
              Finish(i.suppressMatchingDebits, i.RewardForMiners(), TrimToFee(i, rows, t), rows, t, cap.pay)
    ensures !i.suppressMatchingDebits ==> TrimToFee(i, rows, t) == 0
  {
  }

  lemma FinishPay(suppress: bool, reward: int, toFee: int, rows: seq<Row>, t: Trim, pay: seq<int>, rest: int)
    requires |pay| == |rows| && (forall k :: 0 <= k < |t.kept| ==> t.kept[k] < |rows|) && (!suppress ==> toFee == 0)
    requires Finish(suppress, reward, toFee, rows, t, pay).Settled? && rest == reward - Sum(pay)
    ensures Finish(suppress, reward, toFee, rows, t, pay).pay ==
              if suppress then pay else HandOut(rows, t.kept, pay, rest)
  {
  }

  lemma {:induction false} ResiduumDivides(suppress: bool, rows: seq<Row>, kept: seq<nat>, capped: seq<int>,
                                           paid: seq<int>, rest: int)
    requires |capped| == |paid| == |rows| && Positions(rows, kept)
    ensures paid == (if suppress then capped else HandOut(rows, kept, capped, rest)) ==>
              suppress || Handed(rest, KeptShares(rows, kept), Less(paid, capped))
  {
    HandOutDivides(rows, kept, capped, rest);
  }

  /** Every settled block's on-chain amounts, item by item. */
  lemma {:induction false} SettleRowsItems(i: Input, rows: seq<Row>, t: Trim)
    requires WellFormedTrim(rows, t) && SettleRows(i, rows, t).Settled?
    ensures exists it ::
              Itemized(i.suppressMatchingDebits, i.RewardForMiners(), rows, t, SettleRows(i, rows, t).pay, it)
  {
    var reward, topped, toFee := i.RewardForMiners(), ToppedUp(i, rows, t), TrimToFee(i, rows, t);
    var cap := SolvencyCap(rows, t.kept, topped, reward);
    SettledByPhases(i, rows, t, topped, cap);
    var paid := SettleRows(i, rows, t).pay;
    var overshoot, rest := Sum(topped) - reward, reward - Sum(cap.pay);
    var trimmed := if i.suppressMatchingDebits then 0 else Sum(TrimmedClaims(rows, t.trimmed));
    ToppedUpDivides(i, rows, t, trimmed);
    SolventForm(rows, t.kept, topped, reward, overshoot);
    FinishPay(i.suppressMatchingDebits, reward, toFee, rows, t, cap.pay, rest);
    ResiduumDivides(i.suppressMatchingDebits, rows, t.kept, cap.pay, paid, rest);
    PhasesItemize(i.suppressMatchingDebits, reward, rows, t, topped, cap.pay, paid, trimmed, overshoot, rest);
  }

  // ----- From the input to the outputs and balances -----

  /** What the balances say of an address: its entry, or 0 if it has none. */
  ghost predicate IsBalance(balances: Entries<int>, a: Address, v: int) {
    (a, v) in balances || (v == 0 && !Has(balances, a))
  }

  lemma {:induction false} BalanceIs(balances: Entries<int>, a: Address)
    ensures IsBalance(balances, a, GetOrZero(balances, a))
  {
    var n := |balances| - 1;
    if n >= 0 && balances[n].0 != a {
      BalanceIs(balances[..n], a);
      assert Has(balances, a) ==> Has(balances[..n], a) by {
        if j :| 0 <= j < |balances| && balances[j].0 == a { assert balances[..n][j].0 == a; }
      }
    }
  }

  /** Entry k of the shares: the whole sats of its part of what is left for miners, and its old balance. */
  ghost predicate ActiveRow(i: Input, rows: seq<Row>, k: nat)
    requires i.TotalShares() > 0
  {
    k < |i.addressShares| ==>
      && k < |rows| && (rows[k].address, rows[k].shares) == i.addressShares[k]
      && rows[k].rawFair == Part(i.RewardForMiners(), i.addressShares[k].1, i.TotalShares())
      && IsBalance(i.balances, rows[k].address, rows[k].balanceOld)
  }

  /** A row behind them: a balance of someone who did not work. */
  ghost predicate PendingRow(i: Input, rows: seq<Row>, k: nat) {
    |i.addressShares| <= k < |rows| ==>
      && rows[k].shares == 0 && rows[k].rawFair == 0 && rows[k].balanceOld != 0
      && (rows[k].address, rows[k].balanceOld) in i.balances && !Has(i.addressShares, rows[k].address)
  }

  ghost predicate HasRow(rows: seq<Row>, a: Address) {
    exists k :: 0 <= k < |rows| && rows[k].address == a
  }

  /** Everyone who worked or has a balance has one row. */
  ghost predicate RowsOfInput(i: Input, rows: seq<Row>)
    requires i.TotalShares() > 0
  {
    && DistinctAddresses(rows)
    && (forall k: nat :: ActiveRow(i, rows, k) && PendingRow(i, rows, k))
    && forall e :: e in i.balances && e.1 != 0 ==> HasRow(rows, e.0)
  }

  lemma {:induction false} RowsAreInput(i: Input)
    requires i.Valid() && i.TotalShares() > 0
    ensures RowsOfInput(i, Rows(i))
  {
    var rows := Rows(i);
    RowsCarryBalances(i);
    PendingRowsFacts(i.addressShares, i.balances);
    forall k: nat
      ensures ActiveRow(i, rows, k) && PendingRow(i, rows, k)
    {
      if k < |rows| {
        BalanceIs(i.balances, rows[k].address);
        if k >= |i.addressShares| { PendingRowsWorkless(i.addressShares, i.balances, k - |i.addressShares|); }
      }
    }
    forall e | e in i.balances && e.1 != 0
      ensures HasRow(rows, e.0)
    {
      BalanceIs(i.balances, e.0);
      assert GetOrZero(i.balances, e.0) == e.1;
    }
  }

  /** A row's own output, where its amount is positive. */
  function Positive(pay: seq<int>): (r: seq<int>)
    ensures |r| == |pay|
  {
    seq(|pay|, k requires 0 <= k < |pay| => if pay[k] > 0 then pay[k] else 0)
  }

  /** What an address is paid: fee, finder bonus, and its own row's amount; all of it when nothing else is built. */
  function Due(i: Input, o: Outcome, a: Address): int
    requires o.WellFormed()
  {
    if o.Settled? && |FixedPayouts(i, o.feeBonus) + MinersOf(i, o)| > 0 then
      (if i.FeeEmitted() && a == i.feeAddress then i.FeeSats() + o.feeBonus else 0)
      + (if i.BonusEmitted() && a == i.finderAddress then i.BonusSats() else 0)
      + ValueOf(o.rows, Positive(o.pay), a)
    else if a != "" && a == i.feeAddress then i.blockRewardSats else 0
  }

  lemma {:induction false} PaidToConcat(p: seq<Payout>, q: seq<Payout>, a: Address)
    ensures PaidTo(p + q, a) == PaidTo(p, a) + PaidTo(q, a)
  {
    if |q| == 0 {
      assert p + q == p;
    } else {
      assert (p + q)[..|p + q| - 1] == p + q[..|q| - 1];
      PaidToConcat(p, q[..|q| - 1], a);
    }
  }

  lemma PaidToOne(p: Payout, a: Address)
    ensures PaidTo([p], a) == if p.address == a then p.sats else 0
    ensures PaidTo([], a) == 0
  {
    assert PaidTo([p], a) == PaidTo([p][..0], a) + if p.address == a then p.sats else 0;
  }

  lemma {:induction false} MinersPaidTo(i: Input, o: Outcome, a: Address)
    requires o.Settled? && o.WellFormed() && Distinct(o.trim.kept) && DistinctAddresses(o.rows)
    requires PaidFairly(o.rows, o.trim.kept, o.pay)
    ensures PaidTo(MinersOf(i, o), a) == ValueOf(o.rows, Positive(o.pay), a)
  {
    var order := EmissionOrder(o.trim.kept, o.pay);
    EmissionOrderMembers(o.trim.kept, o.pay);
    if k: nat :| k < |o.rows| && o.rows[k].address == a {
      ValueAt(o.rows, Positive(o.pay), k);
      PaidToRow(o.rows, o.pay, order, i.blockRewardSats, k);
    } else {
      ValueNowhere(o.rows, Positive(o.pay), a);
      PaidToNobody(o.rows, o.pay, order, i.blockRewardSats, a);
    }
  }

  lemma {:induction false} FixedPaidTo(i: Input, feeBonus: int, a: Address)
    ensures PaidTo(FixedPayouts(i, feeBonus), a) ==
              (if i.FeeEmitted() && a == i.feeAddress then i.FeeSats() + feeBonus else 0)
              + (if i.BonusEmitted() && a == i.finderAddress then i.BonusSats() else 0)
  {
    var fee := PayoutOf(i.feeAddress, i.FeeSats() + feeBonus, i.blockRewardSats);
    var bonus := PayoutOf(i.finderAddress, i.BonusSats(), i.blockRewardSats);
    PaidToOne(fee, a);
    PaidToOne(bonus, a);
    PaidToConcat(if i.FeeEmitted() then [fee] else [], if i.BonusEmitted() then [bonus] else [], a);
  }

  lemma {:induction false} SettledPaidTo(i: Input, o: Outcome, a: Address)
    requires o.Settled? && o.WellFormed() && Distinct(o.trim.kept) && DistinctAddresses(o.rows)
    requires PaidFairly(o.rows, o.trim.kept, o.pay)
    ensures PaidTo(Payouts(i, o), a) == Due(i, o, a)
  {
    PaidToOne(Payout(i.feeAddress, 100.0, i.blockRewardSats), a);
    FixedPaidTo(i, o.feeBonus, a);
    MinersPaidTo(i, o, a);
    PaidToConcat(FixedPayouts(i, o.feeBonus), MinersOf(i, o), a);
  }

  /** Every address is paid what it is due, on every path. */
  lemma {:induction false} PaidWhatIsDue(i: Input, weightOf: Address -> nat, a: Address)
    requires i.Valid()
    ensures PaidTo(Distribution(i, weightOf).payouts, a) == Due(i, Settle(i, weightOf), a)
  {
    if Settle(i, weightOf).Settled? {
      SettledFacts(i, weightOf);
      RowsCarryBalances(i);
      SettledPaidTo(i, Settle(i, weightOf), a);
    } else {
      PaidToOne(Payout(i.feeAddress, 100.0, i.blockRewardSats), a);
    }
  }

  /** A row's new balance is what it was owed less what it was paid; it is written unless it is and was 0. */
  ghost predicate BalanceStored(rows: seq<Row>, pay: seq<int>, stored: Entries<int>, k: nat)
    requires |pay| == |rows|
  {
    k < |rows| ==>
      var left := rows[k].rawFair + rows[k].balanceOld - pay[k];
      if rows[k].balanceOld != 0 || left != 0 then (rows[k].address, left) in stored else !Has(stored, rows[k].address)
  }

  lemma {:induction false} StoredUpTo(rows: seq<Row>, pay: seq<int>, n: nat, k: nat)
    requires |pay| == |rows| && n <= |rows| && DistinctAddresses(rows)
    ensures k < n ==> BalanceStored(rows, pay, BalanceAfter(rows, pay, n), k)
    ensures n <= k < |rows| ==> !Has(BalanceAfter(rows, pay, n), rows[k].address)
  {
    if n != 0 {
      StoredUpTo(rows, pay, n - 1, k);
      var before, after := BalanceAfter(rows, pay, n - 1), BalanceAfter(rows, pay, n);
      if k < |rows| && k != n - 1 {
        HasSnoc(before, after, rows[k].address);
      } else if k == n - 1 && |after| > |before| {
        assert after[|before|] == (rows[k].address, rows[k].Target() - pay[k]);
      }
    }
  }

  lemma HasSnoc(before: Entries<int>, after: Entries<int>, a: Address)
    requires |before| <= |after| <= |before| + 1 && after[..|before|] == before
    requires |after| > |before| ==> after[|before|].0 != a
    ensures Has(after, a) <==> Has(before, a)
  {
    if j :| 0 <= j < |after| && after[j].0 == a { assert before[j] == after[..|before|][j]; }
    if j :| 0 <= j < |before| && before[j].0 == a { assert after[..|before|][j] == after[j]; }
  }

  ghost predicate Listed<V(!new)>(m: Entries<V>, a: Address) {
    exists v :: (a, v) in m
  }

  lemma KeysListed<V(!new)>(m: Entries<V>, a: Address)
    ensures a in Keys(m) <==> Listed(m, a)
  {
    if a in Keys(m) {
      var j :| 0 <= j < |m| && m[j].0 == a;
      assert (a, m[j].1) in m;
    }
  }

  /** On every path the considered addresses are those with shares or a balance entry. */
  lemma {:induction false} ConsideredIff(i: Input, weightOf: Address -> nat, a: Address)
    ensures a in Distribution(i, weightOf).consideredAddresses <==> Listed(i.addressShares, a) || Listed(i.balances, a)
  {
    assert Distribution(i, weightOf).consideredAddresses == Keys(i.addressShares) + Keys(i.balances);
    KeysListed(i.addressShares, a);
    KeysListed(i.balances, a);
  }

  /**
   * Every settled distribution, from its input: who has a row and with what fair share and balance, what
   * each row's amount is made of, where the rest of a suppressed block goes, and every new balance.
   */
  lemma {:induction false} WhoGetsWhat(i: Input, weightOf: Address -> nat)
    requires i.Valid() && Settle(i, weightOf).Settled?
    ensures var o, r := Settle(i, weightOf), Distribution(i, weightOf);
            && i.TotalShares() > 0 && RowsOfInput(i, o.rows) && |o.pay| == |o.rows|
            && o.feeBonus == (if i.suppressMatchingDebits then i.RewardForMiners() - Sum(o.pay) else 0)
            && (forall k: nat :: BalanceStored(o.rows, o.pay, r.balanceAfter, k))
    ensures var o := Settle(i, weightOf);
            exists it :: Itemized(i.suppressMatchingDebits, i.RewardForMiners(), o.rows, o.trim, o.pay, it)
  {
    var o := Settle(i, weightOf);
    SettledFacts(i, weightOf);
    RowsAreInput(i);
    SettleRowsItems(i, Rows(i), Trimming(i, Rows(i), weightOf));
    forall k: nat ensures BalanceStored(o.rows, o.pay, BalanceAfter(o.rows, o.pay, |o.rows|), k) {
      StoredUpTo(o.rows, o.pay, |o.rows|, k);
    }
  }
}

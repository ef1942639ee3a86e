/** The ledger over whole runs of blocks and pair sweeps. */
module LedgerRuns {
  import opened Sums
  import opened CoinbaseSplit
  import opened CoinbaseTrim
  import opened CoinbaseGuarantees
  import opened Ledger
  import PairSweep
  import DustSweep

  // ----- One block -----

  ghost predicate DistinctAddresses(rows: seq<Row>) {
    forall j, k :: 0 <= j < k < |rows| ==> rows[j].address != rows[k].address
  }

  /** The value at an address's row, 0 for an address that is not in the block. */
  function ValueOf(rows: seq<Row>, values: seq<int>, a: Address): int
    requires |values| == |rows|
  {
    var n := |rows| - 1;
    if n < 0 then 0
    else if rows[n].address == a then values[n]
    else ValueOf(rows[..n], values[..n], a)
  }

  lemma {:induction false} ValueAt(rows: seq<Row>, values: seq<int>, k: nat)
    requires |values| == |rows| && DistinctAddresses(rows) && k < |rows|
    ensures ValueOf(rows, values, rows[k].address) == values[k]
  {
    var n := |rows| - 1;
    if k < n {
      ValueAt(rows[..n], values[..n], k);
    }
  }

  lemma {:induction false} ValueNowhere(rows: seq<Row>, values: seq<int>, a: Address)
    requires |values| == |rows| && forall k :: 0 <= k < |rows| ==> rows[k].address != a
    ensures ValueOf(rows, values, a) == 0
  {
    var n := |rows| - 1;
    if n >= 0 {
      ValueNowhere(rows[..n], values[..n], a);
    }
  }

  /** What is negative of a list of amounts. */
  function Negatives(pay: seq<int>): (r: seq<int>)
    ensures |r| == |pay|
  {
    seq(|pay|, k requires 0 <= k < |pay| => if pay[k] < 0 then pay[k] else 0)
  }

  lemma {:induction false} PaidToSnoc(payouts: seq<Payout>, p: Payout, a: Address)
    ensures PaidTo(payouts + [p], a) == PaidTo(payouts, a) + (if p.address == a then p.sats else 0)
  {
    assert (payouts + [p])[..|payouts|] == payouts;
  }

  lemma {:induction false} PaidToNobody(rows: seq<Row>, pay: seq<int>, order: seq<nat>, reward: nat, a: Address)
    requires |pay| == |rows| && forall i :: 0 <= i < |order| ==> order[i] < |rows|
    requires forall i :: 0 <= i < |order| ==> rows[order[i]].address != a
    ensures PaidTo(MinerPayouts(rows, pay, order, reward), a) == 0
  {
    if |order| != 0 {
      var n := |order| - 1;
      PaidToNobody(rows, pay, order[..n], reward, a);
      PaidToSnoc(MinerPayouts(rows, pay, order[..n], reward), PayoutOf(rows[order[n]].address, pay[order[n]], reward),
                 a);
    }
  }

  lemma {:induction false} PaidToRow(rows: seq<Row>, pay: seq<int>, order: seq<nat>, reward: nat, k: nat)
    requires |pay| == |rows| && forall i :: 0 <= i < |order| ==> order[i] < |rows|
    requires DistinctAddresses(rows) && Distinct(order) && k < |rows|
    ensures PaidTo(MinerPayouts(rows, pay, order, reward), rows[k].address) ==
              if k in order && pay[k] > 0 then pay[k] else 0
  {
    if |order| != 0 {
      var n := |order| - 1;
      var a := rows[k].address;
      var last := order[n];
      PaidToSnoc(MinerPayouts(rows, pay, order[..n], reward), PayoutOf(rows[last].address, pay[last], reward), a);
      assert order == order[..n] + [last];
      if last == k {
        forall i | 0 <= i < n
          ensures rows[order[i]].address != a
        {
          assert order[i] != k;
        }
        PaidToNobody(rows, pay, order[..n], reward, a);
      } else {
        PaidToRow(rows, pay, order[..n], reward, k);
        assert rows[last].address != a;
      }
    }
  }

  ghost predicate LedgerMatches(l: Table, rows: seq<Row>) {
    forall k :: 0 <= k < |rows| ==> rows[k].balanceOld == Bal(l, rows[k].address)
  }

  lemma {:induction false} WriteSnoc(l: Table, entries: Entries<int>, e: (Address, int))
    ensures WriteAll(l, entries + [e]) == WriteAll(l, entries)[e.0 := e.1]
  {
    assert (entries + [e])[..|entries|] == entries;
  }

  /** The writes of the first n rows give their new balances and touch no other address. */
  lemma {:induction false} BalancesWritten(l: Table, rows: seq<Row>, pay: seq<int>, n: nat, a: Address)
    requires |pay| == |rows| && n <= |rows| && DistinctAddresses(rows) && LedgerMatches(l, rows)
    ensures (forall k :: 0 <= k < n ==> rows[k].address != a) ==>
              Bal(WriteAll(l, BalanceAfter(rows, pay, n)), a) == Bal(l, a)
    ensures forall k :: 0 <= k < n && rows[k].address == a ==>
              Bal(WriteAll(l, BalanceAfter(rows, pay, n)), a) == rows[k].Target() - pay[k]
  {
    if n != 0 {
      BalancesWritten(l, rows, pay, n - 1, a);
      var row := rows[n - 1];
      WriteSnoc(l, BalanceAfter(rows, pay, n - 1), (row.address, row.Target() - pay[n - 1]));
    }
  }

  /** The total changes by what was earned less what was paid. */
  lemma {:induction false} TotalWritten(l: Table, rows: seq<Row>, pay: seq<int>, n: nat)
    requires |pay| == |rows| && n <= |rows| && DistinctAddresses(rows) && LedgerMatches(l, rows)
    ensures Total(WriteAll(l, BalanceAfter(rows, pay, n))) == Total(l) + Sum(FairOf(rows)[..n]) - Sum(pay[..n])
  {
    if n != 0 {
      TotalWritten(l, rows, pay, n - 1);
      var before, after := RowWritten(l, rows, pay, n);
      TotalOfRow(before, rows[n - 1], pay[n - 1], after);
      PrefixSum(FairOf(rows), n);
      PrefixSum(pay, n);
    }
  }

  lemma {:induction false} RowWritten(l: Table, rows: seq<Row>, pay: seq<int>, n: nat)
      returns (before: Table, after: Table)
    requires |pay| == |rows| && 0 < n <= |rows| && DistinctAddresses(rows) && LedgerMatches(l, rows)
    ensures before == WriteAll(l, BalanceAfter(rows, pay, n - 1)) && after == WriteAll(l, BalanceAfter(rows, pay, n))
    ensures Bal(before, rows[n - 1].address) == rows[n - 1].balanceOld
    ensures after == RowStored(before, rows[n - 1], pay[n - 1])
  {
    var row := rows[n - 1];
    before, after := WriteAll(l, BalanceAfter(rows, pay, n - 1)), WriteAll(l, BalanceAfter(rows, pay, n));
    BalancesWritten(l, rows, pay, n - 1, row.address);
    WriteSnoc(l, BalanceAfter(rows, pay, n - 1), (row.address, row.Target() - pay[n - 1]));
  }

  /** A row's new balance is written unless it is and was zero. */
  function RowStored(l: Table, row: Row, paid: int): Table {
    if row.balanceOld != 0 || row.Target() - paid != 0 then l[row.address := row.Target() - paid] else l
  }

  lemma {:induction false} TotalOfRow(before: Table, row: Row, paid: int, after: Table)
    requires Bal(before, row.address) == row.balanceOld && after == RowStored(before, row, paid)
    ensures Total(after) == Total(before) + row.rawFair - paid
  {
    TotalAfterWrite(before, row.address, row.Target() - paid);
  }

  lemma {:induction false} PrefixSum(s: seq<int>, n: nat)
    requires 0 < n <= |s|
    ensures Sum(s[..n]) == Sum(s[..n - 1]) + s[n - 1]
  {
    assert s[..n][..n - 1] == s[..n - 1];
  }

  /** The balances passed to the distribution are those of the ledger. */
  ghost predicate Carries(i: Input, l: Table) {
    i.Valid() && forall a :: GetOrZero(i.balances, a) == Bal(l, a)
  }

  lemma CarriedRows(i: Input, l: Table)
    requires Carries(i, l) && i.TotalShares() > 0
    ensures DistinctAddresses(Rows(i)) && LedgerMatches(l, Rows(i))
    ensures forall a :: Bal(l, a) != 0 ==> exists k :: 0 <= k < |Rows(i)| && Rows(i)[k].address == a
  {
    RowsCarryBalances(i);
  }

  /** The outputs that carry proportional shares: all but the fee and the finder bonus. */
  function Proportional(i: Input, o: Outcome): seq<Payout>
    requires o.WellFormed()
  {
    if o.Settled? then MinersOf(i, o) else []
  }

  /** The fair share an address earned. */
  function EarnedIn(o: Outcome, a: Address): int {
    if o.Settled? then ValueOf(o.rows, FairOf(o.rows), a) else 0
  }

  /** An address's on-chain amount where it is negative: no output can carry it. */
  function DroppedIn(o: Outcome, a: Address): int
    requires o.WellFormed()
  {
    if o.Settled? then ValueOf(o.rows, Negatives(o.pay), a) else 0
  }

  function Book(l: Table, r: Result): Table { WriteAll(l, r.balanceAfter) }

  /** For an address, fair share plus old balance is the sats of its proportional output plus its new balance. */
  ghost predicate EarnedIsAccounted(i: Input, weightOf: Address -> nat, l: Table, a: Address) {
    var o := Settle(i, weightOf);
    Bal(l, a) + EarnedIn(o, a) == PaidTo(Proportional(i, o), a) + Bal(Book(l, Distribution(i, weightOf)), a)
  }

  /**
   * Earned is paid plus owed, for every address, up to the negative amounts that no output can carry;
   * fallbacks and empty blocks change nothing.
   */
  lemma {:induction false} BlockIdentity(i: Input, weightOf: Address -> nat, l: Table, a: Address)
    requires Carries(i, l)
    ensures var o := Settle(i, weightOf);
            && Bal(l, a) + EarnedIn(o, a) ==
                 PaidTo(Proportional(i, o), a) + Bal(Book(l, Distribution(i, weightOf)), a) + DroppedIn(o, a)
            && DroppedIn(o, a) <= 0
    ensures !Settle(i, weightOf).Settled? ==> Book(l, Distribution(i, weightOf)) == l
  {
    var o := Settle(i, weightOf);
    if o.Settled? {
      SettledFacts(i, weightOf);
      CarriedRows(i, l);
      RowIdentity(i, o, l, a);
    }
  }

  ghost predicate NothingDropped(o: Outcome)
    requires o.WellFormed()
  {
    forall a :: DroppedIn(o, a) == 0
  }

  /** No amount of a block is negative exactly when its fee fits the reward or no miner output is built. */
  lemma {:induction false} NothingDroppedIff(i: Input, weightOf: Address -> nat, l: Table)
    requires Carries(i, l)
    ensures NothingDropped(Settle(i, weightOf)) <==>
              (i.FeeSats() <= i.blockRewardSats || !Settle(i, weightOf).Settled?)
  {
    var o := Settle(i, weightOf);
    if o.Settled? {
      SettledFacts(i, weightOf);
      CarriedRows(i, l);
      DroppingLosesNothing(i, weightOf);
      DroppedAmounts(o);
    }
  }

  lemma {:induction false} DroppedAmounts(o: Outcome)
    requires o.Settled? && o.WellFormed() && DistinctAddresses(o.rows)
    ensures NothingDropped(o) <==> AmountsNonNegative(o)
  {
    if AmountsNonNegative(o) {
      forall a
        ensures DroppedIn(o, a) == 0
      {
        if k: nat :| k < |o.rows| && o.rows[k].address == a {
          ValueAt(o.rows, Negatives(o.pay), k);
        } else {
          ValueNowhere(o.rows, Negatives(o.pay), a);
        }
      }
    } else {
      var k: nat :| k < |o.pay| && o.pay[k] < 0;
      ValueAt(o.rows, Negatives(o.pay), k);
      assert DroppedIn(o, o.rows[k].address) != 0;
    }
  }

  /** Every address's earnings are accounted for exactly when the fee fits the reward or a fallback is taken. */
  lemma {:induction false} BlockAccountsIff(i: Input, weightOf: Address -> nat, l: Table)
    requires Carries(i, l)
    ensures (forall a :: EarnedIsAccounted(i, weightOf, l, a)) <==>
              (i.FeeSats() <= i.blockRewardSats || !Settle(i, weightOf).Settled?)
  {
    var o := Settle(i, weightOf);
    NothingDroppedIff(i, weightOf, l);
    forall a
      ensures EarnedIsAccounted(i, weightOf, l, a) <==> DroppedIn(o, a) == 0
    {
      AccountedIff(i, weightOf, l, a);
    }
  }

  lemma {:induction false} AccountedIff(i: Input, weightOf: Address -> nat, l: Table, a: Address)
    requires Carries(i, l)
    ensures EarnedIsAccounted(i, weightOf, l, a) <==> DroppedIn(Settle(i, weightOf), a) == 0
  {
    BlockIdentity(i, weightOf, l, a);
  }

  /** Booking on another ledger than the one the block was built on writes the same absolute balances. */
  lemma {:induction false} WrittenElsewhere(l0: Table, l: Table, entries: Entries<int>, a: Address)
    ensures a in Keys(entries) ==> Bal(WriteAll(l, entries), a) == Bal(WriteAll(l0, entries), a)
    ensures a !in Keys(entries) ==> Bal(WriteAll(l, entries), a) == Bal(l, a)
  {
    if |entries| != 0 {
      var n := |entries| - 1;
      WrittenElsewhere(l0, l, entries[..n], a);
      assert a in Keys(entries) <==> a in Keys(entries[..n]) || entries[n].0 == a by {
        assert forall k :: 0 <= k < n ==> entries[..n][k] == entries[k];
      }
    }
  }

  /** What a booking wipes out of what happened to a balance after its block was built. */
  function Overwritten(builtOn: Table, l: Table, r: Result, a: Address): int {
    if a in Keys(r.balanceAfter) then Bal(l, a) - Bal(builtOn, a) else 0
  }

  /**
   * A block built on one ledger and booked on a later one: where no negative amount is dropped, earned
   * is paid plus owed for an address exactly when it is not written, or its balance is what it was when
   * the block was built.
   */
  lemma {:induction false} StaleBlockIdentity(i: Input, weightOf: Address -> nat, builtOn: Table, l: Table, a: Address)
    requires Carries(i, builtOn)
    ensures var o, r := Settle(i, weightOf), Distribution(i, weightOf);
            && Bal(l, a) + EarnedIn(o, a) == PaidTo(Proportional(i, o), a) + Bal(Book(l, r), a)
                 + Overwritten(builtOn, l, r, a) + DroppedIn(o, a)
            && (DroppedIn(o, a) == 0 ==>
                  (EarnedIsAccounted(i, weightOf, l, a) <==>
                     a !in Keys(r.balanceAfter) || Bal(l, a) == Bal(builtOn, a)))
  {
    BlockIdentity(i, weightOf, builtOn, a);
    WrittenElsewhere(builtOn, l, Distribution(i, weightOf).balanceAfter, a);
    WrittenElsewhere(l, builtOn, Distribution(i, weightOf).balanceAfter, a);
  }

  lemma {:induction false} RowIdentity(i: Input, o: Outcome, l: Table, a: Address)
    requires o.WellFormed() && o.Settled? && Distinct(o.trim.kept) && PaidFairly(o.rows, o.trim.kept, o.pay)
    requires DistinctAddresses(o.rows) && LedgerMatches(l, o.rows)
    ensures Bal(l, a) + EarnedIn(o, a) ==
              PaidTo(MinersOf(i, o), a) + Bal(WriteAll(l, BalanceAfter(o.rows, o.pay, |o.rows|)), a) + DroppedIn(o, a)
    ensures DroppedIn(o, a) <= 0
  {
    var order := EmissionOrder(o.trim.kept, o.pay);
    EmissionOrderMembers(o.trim.kept, o.pay);
    BalancesWritten(l, o.rows, o.pay, |o.rows|, a);
    if k: nat :| k < |o.rows| && o.rows[k].address == a {
      ValueAt(o.rows, FairOf(o.rows), k);
      ValueAt(o.rows, Negatives(o.pay), k);
      PaidToRow(o.rows, o.pay, order, i.blockRewardSats, k);
      assert o.rows[k].balanceOld == Bal(l, a);
    } else {
      ValueNowhere(o.rows, FairOf(o.rows), a);
      ValueNowhere(o.rows, Negatives(o.pay), a);
      PaidToNobody(o.rows, o.pay, order, i.blockRewardSats, a);
    }
  }

  /** The ledger total moves by the fair shares less the miners' payments, on every settled block. */
  lemma {:induction false} BlockTotal(i: Input, weightOf: Address -> nat, l: Table)
    requires Carries(i, l) && Settle(i, weightOf).Settled?
    ensures var o := Settle(i, weightOf);
            Total(Book(l, Distribution(i, weightOf))) == Total(l) + Sum(FairOf(o.rows)) - Sum(o.pay)
  {
    var o := Settle(i, weightOf);
    SettledFacts(i, weightOf);
    CarriedRows(i, l);
    AllWritten(l, o.rows, o.pay);
  }

  lemma {:induction false} AllWritten(l: Table, rows: seq<Row>, pay: seq<int>)
    requires |pay| == |rows| && DistinctAddresses(rows) && LedgerMatches(l, rows)
    ensures Total(WriteAll(l, BalanceAfter(rows, pay, |rows|))) == Total(l) + Sum(FairOf(rows)) - Sum(pay)
  {
    TotalWritten(l, rows, pay, |rows|);
    assert FairOf(rows)[..|rows|] == FairOf(rows) && pay[..|rows|] == pay;
  }

  /** A block that falls back, or settles with matching debits on a kept miner who worked. */
  ghost predicate Regular(i: Input, o: Outcome) {
    o.Settled? ==> !i.suppressMatchingDebits && KeptWorker(o.rows, o.trim.kept)
  }

  /** A regular block, or one whose kept targets come to at least all the fair shares. */
  ghost predicate NoGrowth(i: Input, o: Outcome)
    requires o.WellFormed()
  {
    Regular(i, o) || Sum(FairOf(o.rows)) <= Sum(Pick(Targets(o.rows), o.trim.kept))
  }

  /** Where no kept miner takes the residuum, the kept targets are paid, as far as the reward goes. */
  lemma {:induction false} IrregularPay(i: Input, rows: seq<Row>, t: Trim)
    requires WellFormedTrim(rows, t) && SettleRows(i, rows, t).Settled?
    requires i.suppressMatchingDebits || !KeptWorker(rows, t.kept)
    ensures var targets, reward := Sum(Pick(Targets(rows), t.kept)), i.RewardForMiners();
            Sum(SettleRows(i, rows, t).pay) == if targets < reward then targets else reward
  {
    var topped, reward := ToppedUp(i, rows, t), i.RewardForMiners();
    ToppedUpFacts(i, rows, t);
    SolvencyCapFacts(rows, t.kept, topped, reward);
    var capped := SolvencyCap(rows, t.kept, topped, reward).pay;
    NoResiduumPaid(i.suppressMatchingDebits, reward, TrimToFee(i, rows, t), rows, t, capped);
  }

  lemma {:induction false} NoResiduumPaid(suppress: bool, reward: int, toFee: int, rows: seq<Row>, t: Trim,
                                          pay: seq<int>)
    requires WellFormedTrim(rows, t) && |pay| == |rows| && (suppress || !KeptWorker(rows, t.kept))
    requires Finish(suppress, reward, toFee, rows, t, pay).Settled?
    ensures Sum(Finish(suppress, reward, toFee, rows, t, pay).pay) == Sum(pay)
  {
    if !suppress {
      HandOutFacts(rows, t.kept, pay, reward - Sum(pay) - toFee);
    }
  }

  /** What a settled block pays its miners in all. */
  lemma {:induction false} SettledPayTotal(i: Input, weightOf: Address -> nat)
    requires Settle(i, weightOf).Settled?
    ensures var o := Settle(i, weightOf);
            var targets, reward := Sum(Pick(Targets(o.rows), o.trim.kept)), i.RewardForMiners();
            Sum(o.pay) == if Regular(i, o) || targets >= reward then reward else targets
  {
    SettledFacts(i, weightOf);
    if !Regular(i, Settle(i, weightOf)) {
      IrregularPay(i, Rows(i), Trimming(i, Rows(i), weightOf));
    }
  }

  /** A regular block, or one whose kept targets fall short of the fair shares by at most one sat a miner. */
  ghost predicate WithinDrift(i: Input, o: Outcome)
    requires o.WellFormed()
  {
    Regular(i, o) || Sum(FairOf(o.rows)) - Sum(Pick(Targets(o.rows), o.trim.kept)) <= |i.addressShares|
  }

  /**
   * A block moves the sum of all balances by at most the number of active miners, up or down, exactly
   * when it is regular or its kept targets fall short of the fair shares by at most that number.
   */
  lemma {:induction false} DriftWithinMiners(i: Input, weightOf: Address -> nat, l: Table)
    requires Carries(i, l)
    ensures var o, drift := Settle(i, weightOf), Total(Book(l, Distribution(i, weightOf))) - Total(l);
            -|i.addressShares| <= drift <= |i.addressShares| <==> WithinDrift(i, o)
  {
    if Settle(i, weightOf).Settled? {
      SettledFacts(i, weightOf);
      FairSharesFacts(i);
      SettledPayTotal(i, weightOf);
      BlockTotal(i, weightOf, l);
    } else {
      BlockIdentity(i, weightOf, l, "");
    }
  }

  /**
   * A settled block moves the sum of all balances by more than minus the number of active miners; it
   * moves it upwards exactly when no kept miner who worked takes the residuum and the kept targets
   * come to less than the fair shares, and then by what they fall short.
   */
  lemma {:induction false} BlockDrift(i: Input, weightOf: Address -> nat, l: Table)
    requires Carries(i, l) && Settle(i, weightOf).Settled?
    ensures var o, after := Settle(i, weightOf), Total(Book(l, Distribution(i, weightOf)));
            var targets, reward := Sum(Pick(Targets(o.rows), o.trim.kept)), i.RewardForMiners();
            && after - Total(l) == Sum(FairOf(o.rows))
              - (if Regular(i, o) || targets >= reward then reward else targets)
            && Total(l) - |i.addressShares| < after
            && (after <= Total(l) <==> NoGrowth(i, o))
  {
    SettledFacts(i, weightOf);
    FairSharesFacts(i);
    SettledPayTotal(i, weightOf);
    BlockTotal(i, weightOf, l);
  }

  /**
   * With nobody kept, every fair share becomes a balance: the sum grows by nearly the whole reward, as
   * long as the fee does not exceed it; a larger fee falls back.
   */
  lemma {:induction false} NobodyKeptGrows(i: Input, weightOf: Address -> nat, l: Table)
    requires Carries(i, l) && i.TotalShares() > 0 && !i.suppressMatchingDebits
    requires Trimming(i, Rows(i), weightOf).kept == []
    ensures var after := Book(l, Distribution(i, weightOf));
            if i.FeeSats() <= i.blockRewardSats
            then Total(after) == Total(l) + Sum(FairOf(Rows(i)))
                 && Total(after) > Total(l) + i.RewardForMiners() - |i.addressShares|
            else after == l
  {
    TrimmingIsWellFormed(i, Rows(i), weightOf);
    RewardForMinersSign(i);
    NobodyKeptSettles(i, Rows(i), Trimming(i, Rows(i), weightOf));
    if i.FeeSats() <= i.blockRewardSats {
      FairSharesFacts(i);
      BlockTotal(i, weightOf, l);
    } else {
      BlockIdentity(i, weightOf, l, "");
    }
  }

  lemma {:induction false} NobodyKeptSettles(i: Input, rows: seq<Row>, t: Trim)
    requires WellFormedTrim(rows, t) && t.kept == [] && !i.suppressMatchingDebits
    ensures SettleRows(i, rows, t).Settled? <==> i.RewardForMiners() >= 0
    ensures i.RewardForMiners() >= 0 ==>
              SettleRows(i, rows, t).rows == rows && Sum(SettleRows(i, rows, t).pay) == 0
  {
    var topped := ToppedUp(i, rows, t);
    ToppedUpFacts(i, rows, t);
    assert Pick(Targets(rows), t.kept) == [];
    if i.RewardForMiners() >= 0 {
      assert SolvencyCap(rows, t.kept, topped, i.RewardForMiners()) == Solvent(topped);
      HandOutFacts(rows, t.kept, topped, i.RewardForMiners() - Sum(topped));
    } else {
      ClaimersFacts(rows, t.kept);
      assert InCredit(rows, t.kept) == [];
    }
  }

  // ----- Runs -----

  datatype Step =
    | Block(input: Input, builtOn: Table) // built on the ledger as it was then, booked now
    | Sweep(order: seq<Address>, fails: nat -> bool)

  ghost predicate Enabled(l: Table, s: Step) {
    match s
    case Block(i, builtOn) => Carries(i, builtOn)
    case Sweep(order, _) => Distinct(order)
  }

  /** The pairs a sweep commits on this ledger. */
  ghost function SweptPairs(l: Table, order: seq<Address>, fails: nat -> bool): seq<Pair>
    requires Distinct(order)
  {
    DustSweep.SidesMirror(l, order);
    PairSweep.Committed(PairSweep.Attempts(DustSweep.CreditSide(l, order), DustSweep.DebitSide(l, order), fails, 0))
  }

  ghost function Next(l: Table, s: Step, weightOf: Address -> nat): Table
    requires Enabled(l, s)
  {
    match s
    case Block(i, _) => Book(l, Distribution(i, weightOf))
    case Sweep(order, fails) => CancelAll(l, SweptPairs(l, order, fails))
  }

  ghost predicate IsRun(l: Table, steps: seq<Step>, weightOf: Address -> nat)
    decreases |steps|
  {
    steps != [] ==> Enabled(l, steps[0]) && IsRun(Next(l, steps[0], weightOf), steps[1..], weightOf)
  }

  ghost function Final(l: Table, steps: seq<Step>, weightOf: Address -> nat): Table
    requires IsRun(l, steps, weightOf)
    decreases |steps|
  {
    if steps == [] then l else Final(Next(l, steps[0], weightOf), steps[1..], weightOf)
  }

  /**
   * What one step earned an address, paid it on chain, cancelled from its balance, overwrote of it, and
   * computed as a negative amount that no output carries.
   */
  datatype Movement = Movement(earned: int, paid: int, cancelled: int, overwritten: int, dropped: int)

  ghost function Moved(l: Table, s: Step, weightOf: Address -> nat, a: Address): Movement
    requires Enabled(l, s)
  {
    match s
    case Block(i, builtOn) =>
      var o := Settle(i, weightOf);
      Movement(EarnedIn(o, a), PaidTo(Proportional(i, o), a), 0,
               Overwritten(builtOn, l, Distribution(i, weightOf), a), DroppedIn(o, a))
    case Sweep(order, fails) => Movement(0, 0, NetCancelled(SweptPairs(l, order, fails), a), 0, 0)
  }

  ghost function AllMoved(l: Table, steps: seq<Step>, weightOf: Address -> nat, a: Address): Movement
    requires IsRun(l, steps, weightOf)
    decreases |steps|
  {
    if steps == [] then Movement(0, 0, 0, 0, 0)
    else
      var m := Moved(l, steps[0], weightOf, a);
      var rest := AllMoved(Next(l, steps[0], weightOf), steps[1..], weightOf, a);
      Movement(m.earned + rest.earned, m.paid + rest.paid, m.cancelled + rest.cancelled,
               m.overwritten + rest.overwritten, m.dropped + rest.dropped)
  }

  /** Whatever transactions of a sweep fail, every address's balance only shrinks towards zero. */
  lemma {:induction false} SweepEffect(l: Table, order: seq<Address>, fails: nat -> bool, a: Address)
    requires Distinct(order)
    ensures var pairs := SweptPairs(l, order, fails);
            var after := CancelAll(l, pairs);
            && Total(after) == Total(l)
            && Bal(after, a) == Bal(l, a) - NetCancelled(pairs, a)
            && (Bal(l, a) >= 0 ==> 0 <= Bal(after, a) <= Bal(l, a))
            && (Bal(l, a) <= 0 ==> Bal(l, a) <= Bal(after, a) <= 0)
            && Audited(pairs, a) == Abs(Bal(l, a)) - Abs(Bal(after, a))
  {
    var credits, debits := DustSweep.CreditSide(l, order), DustSweep.DebitSide(l, order);
    DustSweep.SidesMirror(l, order);
    PairSweep.SweepOnlyCancels(l, credits, debits, fails, 0);
    CancelAllEffect(l, SweptPairs(l, order, fails), a);
  }

  lemma {:induction false} StepIdentity(l: Table, s: Step, weightOf: Address -> nat, a: Address)
    requires Enabled(l, s)
    ensures var m := Moved(l, s, weightOf, a);
            Bal(l, a) + m.earned ==
              m.paid + Bal(Next(l, s, weightOf), a) + m.cancelled + m.overwritten + m.dropped
  {
    match s
    case Block(i, builtOn) => StaleBlockIdentity(i, weightOf, builtOn, l, a);
    case Sweep(order, fails) => SweepEffect(l, order, fails, a);
  }

  /**
   * Over any interleaving of blocks and sweeps, with blocks booked on whatever ledger came after they
   * were built, for every address: what it started with plus all it earned equals all it was paid,
   * plus what it still holds, plus what was pair-cancelled, plus what stale bookings overwrote, plus
   * the negative amounts that no output carried.
   */
  lemma {:induction false} StaleLedgerIdentity(l: Table, steps: seq<Step>, weightOf: Address -> nat, a: Address)
    requires IsRun(l, steps, weightOf)
    ensures var m := AllMoved(l, steps, weightOf, a);
            Bal(l, a) + m.earned ==
              m.paid + Bal(Final(l, steps, weightOf), a) + m.cancelled + m.overwritten + m.dropped
    decreases |steps|
  {
    if steps != [] {
      StepIdentity(l, steps[0], weightOf, a);
      StaleLedgerIdentity(Next(l, steps[0], weightOf), steps[1..], weightOf, a);
    }
  }

  /** At every booking that writes it, this address has the balance it had when the block was built. */
  ghost predicate FreshFor(l: Table, steps: seq<Step>, weightOf: Address -> nat, a: Address)
    requires IsRun(l, steps, weightOf)
    decreases |steps|
  {
    steps != [] ==>
      && (steps[0].Block? && a in Keys(Distribution(steps[0].input, weightOf).balanceAfter) ==>
            Bal(l, a) == Bal(steps[0].builtOn, a))
      && FreshFor(Next(l, steps[0], weightOf), steps[1..], weightOf, a)
  }

  ghost predicate DropsNothing(s: Step, weightOf: Address -> nat, a: Address) {
    s.Block? ==> DroppedIn(Settle(s.input, weightOf), a) == 0
  }

  /**
   * Over a whole run, for an address whose bookings are not stale: earned is paid plus owed exactly
   * when no block computes a negative amount for it.
   */
  lemma {:induction false} LedgerIdentity(l: Table, steps: seq<Step>, weightOf: Address -> nat, a: Address)
    requires IsRun(l, steps, weightOf) && FreshFor(l, steps, weightOf, a)
    ensures var m := AllMoved(l, steps, weightOf, a);
            Bal(l, a) + m.earned == m.paid + Bal(Final(l, steps, weightOf), a) + m.cancelled <==>
              forall s :: s in steps ==> DropsNothing(s, weightOf, a)
  {
    StaleLedgerIdentity(l, steps, weightOf, a);
    NothingOverwritten(l, steps, weightOf, a);
    AllDropped(l, steps, weightOf, a);
  }

  lemma {:induction false} AllDropped(l: Table, steps: seq<Step>, weightOf: Address -> nat, a: Address)
    requires IsRun(l, steps, weightOf)
    ensures var dropped := AllMoved(l, steps, weightOf, a).dropped;
            dropped <= 0 && (dropped == 0 <==> forall s :: s in steps ==> DropsNothing(s, weightOf, a))
    decreases |steps|
  {
    if steps != [] {
      var first, rest := steps[0], steps[1..];
      AllDropped(Next(l, first, weightOf), rest, weightOf, a);
      DroppedByStep(l, first, weightOf, a);
      assert forall s :: s in steps <==> s == first || s in rest;
    }
  }

  lemma {:induction false} DroppedByStep(l: Table, s: Step, weightOf: Address -> nat, a: Address)
    requires Enabled(l, s)
    ensures Moved(l, s, weightOf, a).dropped <= 0
    ensures Moved(l, s, weightOf, a).dropped == 0 <==> DropsNothing(s, weightOf, a)
  {
    if s.Block? {
      BlockIdentity(s.input, weightOf, s.builtOn, a);
    }
  }

  /** With every fee within its reward, no block of a run drops anything. */
  lemma {:induction false} FeesWithinRewards(l: Table, steps: seq<Step>, weightOf: Address -> nat, a: Address)
    requires IsRun(l, steps, weightOf)
    requires forall s :: s in steps && s.Block? ==> s.input.FeeSats() <= s.input.blockRewardSats
    ensures forall s :: s in steps ==> DropsNothing(s, weightOf, a)
    decreases |steps|
  {
    if steps != [] {
      var first, rest := steps[0], steps[1..];
      FeesWithinRewards(Next(l, first, weightOf), rest, weightOf, a);
      assert forall s :: s in steps <==> s == first || s in rest;
      if first.Block? {
        NothingDroppedIff(first.input, weightOf, first.builtOn);
      }
    }
  }

  lemma {:induction false} NothingOverwritten(l: Table, steps: seq<Step>, weightOf: Address -> nat, a: Address)
    requires IsRun(l, steps, weightOf) && FreshFor(l, steps, weightOf, a)
    ensures AllMoved(l, steps, weightOf, a).overwritten == 0
    decreases |steps|
  {
    if steps != [] {
      NothingOverwritten(Next(l, steps[0], weightOf), steps[1..], weightOf, a);
    }
  }

  /** Every block is booked on the ledger it was built on. */
  ghost predicate FreshRun(l: Table, steps: seq<Step>, weightOf: Address -> nat)
    requires IsRun(l, steps, weightOf)
    decreases |steps|
  {
    steps != [] ==>
      (steps[0].Block? ==> steps[0].builtOn == l) && FreshRun(Next(l, steps[0], weightOf), steps[1..], weightOf)
  }

  ghost predicate StepWithinDrift(s: Step, weightOf: Address -> nat) {
    s.Block? ==> WithinDrift(s.input, Settle(s.input, weightOf))
  }

  /** One sat for every active miner of every block. */
  function MinersOfRun(steps: seq<Step>): int {
    if steps == [] then 0
    else MinersOfRun(steps[1..]) + if steps[0].Block? then |steps[0].input.addressShares| else 0
  }

  /** Over any run of such blocks and sweeps the sum of all balances drifts by at most one sat a miner and block. */
  lemma {:induction false} RunDrift(l: Table, steps: seq<Step>, weightOf: Address -> nat)
    requires IsRun(l, steps, weightOf) && FreshRun(l, steps, weightOf)
    requires forall s :: s in steps ==> StepWithinDrift(s, weightOf)
    ensures -MinersOfRun(steps) <= Total(Final(l, steps, weightOf)) - Total(l) <= MinersOfRun(steps)
    decreases |steps|
  {
    if steps != [] {
      assert StepWithinDrift(steps[0], weightOf);
      match steps[0] {
        case Block(i, _) => DriftWithinMiners(i, weightOf, l);
        case Sweep(order, fails) => SweepEffect(l, order, fails, "");
      }
      RunDrift(Next(l, steps[0], weightOf), steps[1..], weightOf);
    }
  }

  /** Every block is booked on the ledger it was built on, and none makes the balances grow. */
  ghost predicate SteadyRun(l: Table, steps: seq<Step>, weightOf: Address -> nat)
    requires IsRun(l, steps, weightOf)
    decreases |steps|
  {
    steps != [] ==>
      && (steps[0].Block? ==> steps[0].builtOn == l && NoGrowth(steps[0].input, Settle(steps[0].input, weightOf)))
      && SteadyRun(Next(l, steps[0], weightOf), steps[1..], weightOf)
  }

  /** The rounding a run may lose: one sat less than the active miners of each settled block. */
  function RoundingBound(steps: seq<Step>, weightOf: Address -> nat): nat {
    if steps == [] then 0
    else
      RoundingBound(steps[1..], weightOf) +
      (if steps[0].Block? && Settle(steps[0].input, weightOf).Settled? && |steps[0].input.addressShares| > 0
       then |steps[0].input.addressShares| - 1 else 0)
  }

  lemma {:induction false} StepDrift(l: Table, s: Step, weightOf: Address -> nat)
    requires Enabled(l, s) && (s.Block? ==> s.builtOn == l && NoGrowth(s.input, Settle(s.input, weightOf)))
    ensures Total(l) - RoundingBound([s], weightOf) <= Total(Next(l, s, weightOf)) <= Total(l)
  {
    match s
    case Block(i, _) =>
      if !Settle(i, weightOf).Settled? {
        BlockIdentity(i, weightOf, l, "");
      } else {
        BlockDrift(i, weightOf, l);
      }
    case Sweep(order, fails) => SweepEffect(l, order, fails, "");
  }

  /** The sum of all balances never grows, and shrinks by no more than the accumulated rounding. */
  lemma {:induction false} BoundedDrift(l: Table, steps: seq<Step>, weightOf: Address -> nat)
    requires IsRun(l, steps, weightOf) && SteadyRun(l, steps, weightOf)
    ensures Total(l) - RoundingBound(steps, weightOf) <= Total(Final(l, steps, weightOf)) <= Total(l)
    decreases |steps|
  {
    if steps != [] {
      StepDrift(l, steps[0], weightOf);
      BoundedDrift(Next(l, steps[0], weightOf), steps[1..], weightOf);
    }
  }
}

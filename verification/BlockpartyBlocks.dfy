/**
 * The percentages of a party over its lifecycle, and what its blocks pay with them. No operation but
 * `transitionToConfirming` looks at their sum.
 */
module BlockpartyBlocks {
  import opened Sums
  import opened Apportionment
  import opened ByteStrings
  import opened CoinbaseSplit
  import opened CoinbaseOutputs
  import opened BlockpartyTables
  import opened BlockpartyEdits
  import P = BlockpartyPayout

  // ----- What each edit does to the sum of a party's percentages -----

  lemma SplitsAdded(members: Members, a: Address, m: Member, id: GroupId)
    requires a !in members
    ensures Splits(members[a := m], id) ==
              if m.groupId == id then Splits(members, id)[a := m.percentBp] else Splits(members, id)
  {
  }

  lemma {:induction false} TotalInserted(splits: map<Address, int>, a: Address, bp: int)
    requires a !in splits
    ensures MapTotal(splits[a := bp]) == MapTotal(splits) + bp
  {
    MapTotalWithout(splits[a := bp], a);
    assert splits[a := bp] - {a} == splits;
  }

  /** A new member adds its percentage to its own party's sum and to no other. */
  lemma {:induction false} AddedTotal(members: Members, a: Address, m: Member, id: GroupId)
    requires a !in members
    ensures MapTotal(Splits(members[a := m], id)) ==
              MapTotal(Splits(members, id)) + (if m.groupId == id then m.percentBp else 0)
  {
    SplitsAdded(members, a, m, id);
    TotalInserted(Splits(members, id), a, m.percentBp);
  }

  /** A removed member takes its percentage with it. */
  lemma {:induction false} RemovedTotal(members: Members, a: Address, id: GroupId)
    requires a in members
    ensures MapTotal(Splits(members - {a}, id)) ==
              MapTotal(Splits(members, id)) - (if members[a].groupId == id then members[a].percentBp else 0)
  {
    AddedTotal(members - {a}, a, members[a], id);
    assert (members - {a})[a := members[a]] == members;
  }

  /** What an edit adds to each percentage. */
  function Changes(splits: map<Address, int>, edits: map<Address, int>): map<Address, int> {
    map a | a in splits && a in edits :: edits[a] - splits[a]
  }

  function Edited(splits: map<Address, int>, edits: map<Address, int>): map<Address, int> {
    map a | a in splits :: if a in edits then edits[a] else splits[a]
  }

  lemma {:induction false} EditedTotal(splits: map<Address, int>, edits: map<Address, int>)
    ensures MapTotal(Edited(splits, edits)) == MapTotal(splits) + MapTotal(Changes(splits, edits))
    decreases |splits|
  {
    if splits == map[] {
      assert Edited(splits, edits) == map[] && Changes(splits, edits) == map[];
    } else {
      var a :| a in splits;
      EditedTotal(splits - {a}, edits);
      MapTotalWithout(splits, a);
      EditedWithout(splits, edits, a);
    }
  }

  lemma {:induction false} EditedWithout(splits: map<Address, int>, edits: map<Address, int>, a: Address)
    requires a in splits
    ensures MapTotal(Edited(splits, edits)) ==
              (if a in edits then edits[a] else splits[a]) + MapTotal(Edited(splits - {a}, edits))
    ensures MapTotal(Changes(splits, edits)) ==
              (if a in edits then edits[a] - splits[a] else 0) + MapTotal(Changes(splits - {a}, edits))
  {
    MapTotalWithout(Edited(splits, edits), a);
    assert Edited(splits, edits) - {a} == Edited(splits - {a}, edits);
    if a in edits {
      MapTotalWithout(Changes(splits, edits), a);
      assert Changes(splits, edits) - {a} == Changes(splits - {a}, edits);
    } else {
      assert Changes(splits, edits) == Changes(splits - {a}, edits);
    }
  }

  /** New splits change the sum by what the edits add, and leave the other parties alone. */
  lemma {:induction false} ResplitTotal(members: Members, members': Members, id: GroupId, edits: map<Address, int>,
                                        admin: Address, now: int, party: GroupId)
    requires ResplitDone(members, members', id, edits, admin, now)
    ensures MapTotal(Splits(members', party)) ==
              MapTotal(Splits(members, party))
                + (if party == id then MapTotal(Changes(Splits(members, id), edits)) else 0)
  {
    forall a
      ensures a in Splits(members', party) <==> a in Splits(members, party)
      ensures a in Splits(members, party) ==>
                Splits(members', party)[a] == if party == id && a in edits then edits[a] else Splits(members, party)[a]
    {
      assert ResplitAt(members, members', id, edits, admin, now, a);
    }
    if party == id {
      assert Splits(members', id) == Edited(Splits(members, id), edits);
      EditedTotal(Splits(members, id), edits);
    } else {
      assert Splits(members', party) == Splits(members, party);
    }
  }

  // ----- The block of a party -----

  /** The member rows of a party, in whatever order they are listed. */
  ghost predicate Lists(splits: map<Address, int>, order: seq<Address>) {
    Distinct(order) && (forall k :: 0 <= k < |order| ==> order[k] in splits) && forall a :: a in splits ==> a in order
  }

  function Listed(splits: map<Address, int>, order: seq<Address>): (r: seq<P.Member>)
    requires forall k :: 0 <= k < |order| ==> order[k] in splits
    ensures |r| == |order|
  {
    seq(|order|, k requires 0 <= k < |order| => P.Member(order[k], splits[order[k]]))
  }

  /** The percentages the distribution is given add up to the party's. */
  lemma {:induction false} ListedTotal(splits: map<Address, int>, order: seq<Address>)
    requires Lists(splits, order)
    ensures Sum(P.Bps(Listed(splits, order))) == MapTotal(splits)
    decreases |order|
  {
    if |order| == 0 {
      assert splits == map[];
    } else {
      var init, last := order[..|order| - 1], order[|order| - 1];
      var rest := splits - {last};
      assert order == init + [last];
      MapTotalWithout(splits, last);
      ListsRest(splits, init, last);
      ListedTotal(rest, init);
      ListedSnoc(splits, init, last);
    }
  }

  lemma ListsRest(splits: map<Address, int>, init: seq<Address>, last: Address)
    requires Lists(splits, init + [last])
    ensures Lists(splits - {last}, init)
  {
    var order := init + [last];
    assert order[|init|] == last;
    forall j, k | 0 <= j < k < |init| ensures init[j] != init[k] { assert order[j] == init[j] && order[k] == init[k]; }
    forall k | 0 <= k < |init| ensures init[k] in splits - {last} { assert order[k] == init[k]; }
    forall a | a in splits - {last} ensures a in init { assert a in order; assert a in init || a == last; }
  }

  lemma {:induction false} ListedSnoc(splits: map<Address, int>, init: seq<Address>, last: Address)
    requires last in splits && forall k :: 0 <= k < |init| ==> init[k] in splits - {last}
    ensures Sum(P.Bps(Listed(splits, init + [last]))) == Sum(P.Bps(Listed(splits - {last}, init))) + splits[last]
  {
    assert P.Bps(Listed(splits, init + [last])) == P.Bps(Listed(splits - {last}, init)) + [splits[last]];
    SumConcat(P.Bps(Listed(splits - {last}, init)), [splits[last]]);
    SumOne(splits[last]);
  }

  /** The percentages of a party are those the services accept. */
  ghost predicate InRange(splits: map<Address, int>) {
    forall a :: a in splits ==> splits[a] >= 0
  }

  /**
   * What the blocks of a party pay: with splits of at most 10000 the pool gets at least its fee, the
   * coinbase pays every payout, and every member's own percentage, in whatever order the rows come.
   */
  lemma {:induction false} ValidatedPartyBlock(splits: map<Address, int>, order: seq<Address>, i: P.PartyInput,
                                               payTo: Address -> Bytes)
    requires Lists(splits, order) && i.members == Listed(splits, order) && |order| > 0 && InRange(splits)
    requires i.blockRewardSats > 0 && 0.0 <= i.poolFeePercent <= 100.0 && i.poolFeeAddress != ""
    requires MapTotal(splits) <= TOTAL_PERCENT_BP
    ensures var p := P.PartyDistribution(i).payouts;
            var outs := OutputsFor(RecipientsOf(p), i.blockRewardSats, payTo);
            && TotalPaid(p) == i.blockRewardSats && |p| > 0
            && (forall k :: 0 <= k < |p| ==> outs[k] == Output(payTo(p[k].address), p[k].sats))
            && forall a :: a in splits ==>
                 var due := P.MemberDue(i.MinerCut(), i.minPayoutSats, splits[a]);
                 && (due > 0 ==> P.OwnOutput(outs, payTo, a, due))
                 && (a != i.poolFeeAddress ==> PaidTo(p, a) == due)
  {
    ListedTotal(splits, order);
    P.PoolFeeNeverBelowBase(i);
    P.PartyBecomesCoinbase(i, payTo);
    forall a | a in splits
      ensures var due := P.MemberDue(i.MinerCut(), i.minPayoutSats, splits[a]);
              && (due > 0 ==> P.OwnOutput(OutputsFor(RecipientsOf(P.PartyDistribution(i).payouts), i.blockRewardSats,
                                                     payTo), payTo, a, due))
              && (a != i.poolFeeAddress ==> PaidTo(P.PartyDistribution(i).payouts, a) == due)
    {
      var k :| 0 <= k < |order| && order[k] == a;
      assert i.members[k] == P.Member(a, splits[a]);
      P.PartyPaysWhatIsDue(i, a);
      P.DueToOne(i.members, i.MinerCut(), i.minPayoutSats, k);
    }
  }

  /** Nobody's share is below the dust threshold. */
  ghost predicate NobodyTrimmed(i: P.PartyInput) {
    forall k :: 0 <= k < |i.members| ==> P.Nominal(i.MinerCut(), i.members[k].percentBp) >= i.Dust()
  }

  /** With nobody trimmed, splits whose cut exceeds the reward by a sat per member over-emit, whoever they belong to. */
  lemma {:induction false} OverfullPartyBlock(splits: map<Address, int>, order: seq<Address>, i: P.PartyInput,
                                              payTo: Address -> Bytes)
    requires Lists(splits, order) && i.members == Listed(splits, order) && |order| > 0 && i.blockRewardSats > 0
    requires NobodyTrimmed(i) && i.MinerCut() * MapTotal(splits) >= TOTAL_PERCENT_BP * (i.blockRewardSats + |order|)
    ensures OverEmits(i, payTo)
  {
    ListedTotal(splits, order);
    NobodyTrimmedBps(i);
    P.PercentagesDecideOwed(i);
    P.OverfullParty(i, payTo);
  }

  lemma NobodyTrimmedBps(i: P.PartyInput)
    requires NobodyTrimmed(i)
    ensures P.UntrimmedBps(i) == P.Bps(i.members)
  {
  }

  /**
   * The payouts exceed the reward and have no pool fee among them; the coinbase claims the reward
   * alone, its first output short by all of the excess.
   */
  ghost predicate OverEmits(i: P.PartyInput, payTo: Address -> Bytes) {
    var p := P.PartyDistribution(i).payouts;
    var outs := OutputsFor(RecipientsOf(p), i.blockRewardSats, payTo);
    && i.blockRewardSats > 0 && TotalPaid(p) > i.blockRewardSats && p == P.PaidShares(P.Shares(i), i.blockRewardSats)
    && |p| > 0 && |outs| == |p| && Sum(Values(outs)) == i.blockRewardSats
    && outs[0] == Output(payTo(p[0].address), p[0].sats - (TotalPaid(p) - i.blockRewardSats))
    && forall k :: 0 < k < |p| ==> outs[k] == Output(payTo(p[k].address), p[k].sats)
  }

  // ----- A party of 140 % -----

  /** 140 % over-emit under a pool fee of at most 20 %, when the reward leaves nobody trimmed. */
  lemma {:induction false} FortyPercentTooMuch(i: P.PartyInput, splits: map<Address, int>, order: seq<Address>,
                                               payTo: Address -> Bytes)
    requires Lists(splits, order) && |order| == 2 && i.members == Listed(splits, order)
    requires MapTotal(splits) == 14000 && forall a :: a in splits ==> splits[a] >= 5000
    requires 0.0 <= i.poolFeePercent <= 20.0 && 2 * i.blockRewardSats >= 5 * i.Dust()
    ensures OverEmits(i, payTo)
  {
    FeeOfAFifth(i);
    assert 5 * i.MinerCut() >= 4 * i.blockRewardSats;
    forall k | 0 <= k < |i.members| ensures P.Nominal(i.MinerCut(), i.members[k].percentBp) >= i.Dust() {
      HalfIsEnough(i.MinerCut(), i.Dust(), i.members[k].percentBp);
    }
    OverfullPartyBlock(splits, order, i, payTo);
  }

  lemma FeeOfAFifth(i: P.PartyInput)
    requires 0.0 <= i.poolFeePercent <= 20.0 && i.blockRewardSats >= 0
    ensures 0 <= 5 * i.BaseFee() <= i.blockRewardSats
  {
    var reward := i.blockRewardSats as real;
    var scaled := reward * i.poolFeePercent;
    assert 0.0 <= scaled <= reward * 20.0;
    assert 0.0 <= scaled / 100.0 <= reward / 5.0;
  }

  lemma HalfIsEnough(cut: int, dust: int, bp: int)
    requires bp >= 5000 && dust >= 0 && cut >= 2 * dust
    ensures P.Nominal(cut, bp) >= dust
  {
    ScaledMonotone(cut, 5000, bp);
    assert cut * 5000 >= 10000 * dust;
    FloorBounds(cut * bp, P.FULL_BP);
  }
}

/** Whole runs of Blockparty operations. */
module BlockpartyRuns {
  import opened Options
  import opened Sums
  import opened CoinbaseSplit
  import opened BlockpartyTables
  import opened BlockpartyEdits
  import opened BlockpartyService
  import opened BlockpartyBlocks
  import opened ByteStrings

  datatype Op =
    | Create(id: GroupId, name: string, address: Address, emailOk: bool, percentBp: int, inPplnsGroup: bool,
             token: string)
    | Add(id: GroupId, address: Address, percentBp: int, inPplnsGroup: bool, emailVerified: bool, token: string)
    | Remove(id: GroupId, address: Address, token: string)
    | Split(id: GroupId, updates: seq<(Address, int)>, token: string)
    | Reset(id: GroupId, address: Address)
    | Accept(id: GroupId, address: Address, freshToken: string)
    | Reconfirm(id: GroupId, address: Address, token: string)
    | Transition(id: GroupId, token: string)
    | Dissolve(id: GroupId, token: string)
    | Share(address: Address)
    | Restart

  /** What an accepted operation adds to the sum of a party's percentages. */
  ghost function Added(members: Members, op: Op, id: GroupId): int {
    match op
    case Create(g, _, _, _, bp, _, _) => if g == id then bp else 0
    case Add(g, _, bp, _, _, _) => if g == id then bp else 0
    case Remove(g, a, _) => if g == id && InGroup(members, a, g) then -members[a].percentBp else 0
    case Split(g, updates, _) => if g == id then MapTotal(Changes(Splits(members, g), EditsOf(updates))) else 0
    case _ => 0
  }

  /** An operation is refused and leaves all members alone, or adds exactly that. */
  ghost predicate TotalMoves(members: Members, members': Members, op: Op, id: GroupId) {
    members' == members || MapTotal(Splits(members', id)) == MapTotal(Splits(members, id)) + Added(members, op, id)
  }

  lemma {:induction false} NewMemberMoves(members: Members, members': Members, op: Op, a: Address, m: Member)
    requires members' == members || (a !in members && members' == members[a := m])
    requires op.Create? || op.Add?
    requires m.groupId == op.id && m.percentBp == op.percentBp
    ensures forall id :: TotalMoves(members, members', op, id)
  {
    forall id ensures TotalMoves(members, members', op, id) {
      if members' != members { AddedTotal(members, a, m, id); }
    }
  }

  lemma {:induction false} RemovalMoves(members: Members, members': Members, op: Op)
    requires op.Remove? && (members' == members
                            || (InGroup(members, op.address, op.id) && members' == members - {op.address}))
    ensures forall id :: TotalMoves(members, members', op, id)
  {
    forall id ensures TotalMoves(members, members', op, id) {
      if members' != members { RemovedTotal(members, op.address, id); }
    }
  }

  lemma {:induction false} ResplitMoves(members: Members, members': Members, op: Op, admin: Address, now: int)
    requires op.Split? && (members' == members
                           || ResplitDone(members, members', op.id, EditsOf(op.updates), admin, now))
    ensures forall id :: TotalMoves(members, members', op, id)
  {
    forall id ensures TotalMoves(members, members', op, id) {
      if members' != members { ResplitTotal(members, members', op.id, EditsOf(op.updates), admin, now, id); }
    }
  }

  lemma {:induction false} DealMoves(members: Members, members': Members, op: Op, a: Address)
    requires members' == members
               || (a in members && a in members' && members' == members[a := members'[a]]
                   && SameDeal(members[a], members'[a]))
    requires !op.Create? && !op.Add? && !op.Remove? && !op.Split?
    ensures forall id :: TotalMoves(members, members', op, id)
  {
    forall id ensures TotalMoves(members, members', op, id) {
      if members' != members { SameDealsSameSplits(members, members', a, id); }
    }
  }

  /** One operation; the sums of percentages move by what it adds, confirmations and shares add nothing. */
  method Apply(s: BlockpartyService, op: Op, now: int)
    requires s.Valid()
    modifies s
    ensures s.Valid() && Onward(old(s.groups), old(s.frozen), s.groups, s.frozen)
    ensures forall id :: TotalMoves(old(s.members), s.members, op, id)
  {
    OnwardReflexive(s.groups, s.frozen);
    if op.Create? || op.Add? || op.Remove? || op.Split? {
      EditMembers(s, op, now);
    } else {
      Progress(s, op, now);
    }
  }

  /** The operations that change who is in a party, or at what percentage. */
  method EditMembers(s: BlockpartyService, op: Op, now: int)
    requires s.Valid() && (op.Create? || op.Add? || op.Remove? || op.Split?)
    modifies s
    ensures s.Valid() && Onward(old(s.groups), old(s.frozen), s.groups, s.frozen)
    ensures forall id :: TotalMoves(old(s.members), s.members, op, id)
  {
    OnwardReflexive(s.groups, s.frozen);
    ghost var members, groups := s.members, s.groups;
    var r;
    match op {
      case Create(id, name, address, emailOk, percentBp, inPplnsGroup, token) =>
        if id !in s.groups { r := s.CreateGroup(id, name, address, emailOk, percentBp, inPplnsGroup, token, now); }
        NewMemberMoves(members, s.members, op, address, Member(id, percentBp, true, None, Some(now)));
      case Add(id, address, percentBp, inPplnsGroup, emailVerified, token) =>
        r := s.AddMember(id, address, percentBp, inPplnsGroup, emailVerified, token);
        NewMemberMoves(members, s.members, op, address, Member(id, percentBp, false, None, None));
      case Remove(id, address, token) =>
        r := s.RemoveMember(id, address, token);
        RemovalMoves(members, s.members, op);
      case Split(id, updates, token) =>
        r := s.UpdateSplits(id, updates, token, now);
        ResplitMoves(members, s.members, op, if id in groups then groups[id].adminAddress else "", now);
    }
  }

  /** The operations that leave all deals alone. */
  method Progress(s: BlockpartyService, op: Op, now: int)
    requires s.Valid() && !op.Create? && !op.Add? && !op.Remove? && !op.Split?
    modifies s
    ensures s.Valid() && Onward(old(s.groups), old(s.frozen), s.groups, s.frozen)
    ensures forall id :: TotalMoves(old(s.members), s.members, op, id)
  {
    OnwardReflexive(s.groups, s.frozen);
    ghost var members := s.members;
    ghost var a := "";
    var r, t;
    match op {
      case Reset(id, address) => a := address; r := s.ResetMemberOnboarding(id, address, now);
      case Accept(id, address, freshToken) => a := address; r, t := s.MarkMemberConfirmed(id, address, freshToken, now);
      case Reconfirm(id, address, token) => a := address; r := s.ConfirmAsMember(id, address, token, now);
      case Transition(id, token) => r := s.TransitionToConfirming(id, token);
      case Dissolve(id, token) => r := s.DissolveGroup(id, token, now);
      case Share(address) => s.OnShareAccepted(address, now);
      case Restart => s.RebuildCache();
    }
    DealMoves(members, s.members, op, a);
  }

  /** The splits a party went active with are its splits, and were agreed to by everyone else in it. */
  ghost predicate FrozenForGood(s: BlockpartyService, frozen: Frozen, id: GroupId)
    reads s
  {
    id in frozen ==>
      && id in s.frozen && s.frozen[id] == frozen[id]
      && id in s.groups && FreezeHolds(s.groups[id], Splits(s.members, id), frozen[id])
  }

  /**
   * Over any run, under any clock: routing answers what the tables say, no frozen party's membership
   * or percentages ever change again, and a party dissolved from active had a week of silence.
   */
  method Run(s: BlockpartyService, ops: seq<Op>, clock: nat -> int)
    requires s.Valid()
    modifies s
    ensures s.Valid() && Onward(old(s.groups), old(s.frozen), s.groups, s.frozen)
    ensures forall id :: FrozenForGood(s, old(s.frozen), id)
  {
    var n := 0;
    OnwardReflexive(s.groups, s.frozen);
    while n < |ops|
      invariant n <= |ops| && s.Valid()
      invariant Onward(old(s.groups), old(s.frozen), s.groups, s.frozen)
    {
      ghost var groups, frozen := s.groups, s.frozen;
      Apply(s, ops[n], clock(n));
      OnwardTransitive(old(s.groups), old(s.frozen), groups, frozen, s.groups, s.frozen);
      n := n + 1;
    }
    forall id ensures FrozenForGood(s, old(s.frozen), id) {
      assert OnwardAt(old(s.groups), old(s.frozen), s.groups, s.frozen, id);
      assert FreezeFits(s.groups, s.members, s.frozen, id);
    }
  }

  /** What the invariant says about one party, by status. */
  lemma PartyInvariant(s: BlockpartyService, id: GroupId)
    requires s.Valid() && id in s.groups
    ensures s.groups[id].status.Confirming? ==>
              exists a :: InGroup(s.members, a, id) && a in s.members && s.members[a].confirmedAt.None?
    ensures s.groups[id].status.Ready? ==>
              forall a :: InGroup(s.members, a, id) ==>
                s.members[a].confirmedAt.Some? &&
                (a != s.groups[id].adminAddress ==> a in s.consent && s.consent[a] == s.members[a].percentBp)
    ensures s.groups[id].status.Active? ==> id in s.frozen && s.frozen[id].splits == Splits(s.members, id)
  {
    assert PartyFits(s.groups, s.members, id) && FreezeFits(s.groups, s.members, s.frozen, id);
    assert HasAdmin(s.groups, s.members, id);
    if s.groups[id].status.Ready? {
      forall a | InGroup(s.members, a, id)
        ensures s.members[a].confirmedAt.Some?
        ensures a != s.groups[id].adminAddress ==> a in s.consent && s.consent[a] == s.members[a].percentBp
      {
        assert MemberFits(s.groups, s.members, a) && ConsentFits(s.members, s.consent, a);
      }
    }
  }

  /** Only the last confirmation makes a confirming party ready, whatever its percentages add up to. */
  method LastConfirmation(s: BlockpartyService, id: GroupId, address: Address, freshToken: string, now: int)
    requires s.Valid() && id in s.groups && s.groups[id].status.Confirming? && address != ""
               && InGroup(s.members, address, id)
    modifies s
    ensures s.Valid() && id in s.groups && Splits(s.members, id) == old(Splits(s.members, id))
    ensures s.groups[id].adminAddress == old(s.groups[id].adminAddress)
    ensures s.groups[id].status.Ready? <==>
              forall a :: a in old(s.members) && InGroup(old(s.members), a, id) && a != address ==>
                old(s.members)[a].confirmedAt.Some?
  {
    ghost var members := s.members;
    var r, t := s.MarkMemberConfirmed(id, address, freshToken, now);
    SameDealsSameSplits(members, s.members, address, id);
    OneMoreConfirmed(members, s.members, id, address);
  }

  lemma OneMoreConfirmed(members: Members, members': Members, id: GroupId, address: Address)
    requires InGroup(members, address, id) && InGroup(members', address, id)
               && members' == members[address := members'[address]]
    requires members'[address].confirmedAt.Some?
    ensures AllConfirmed(members', id) <==>
              forall a :: a in members && InGroup(members, a, id) && a != address ==> members[a].confirmedAt.Some?
  {
    if AllConfirmed(members', id) {
      forall a | a in members && InGroup(members, a, id) && a != address ensures members[a].confirmedAt.Some? {
        assert a in members' && InGroup(members', a, id);
      }
    } else {
      var a :| a in members' && InGroup(members', a, id) && members'[a].confirmedAt.None?;
      assert a in members && InGroup(members, a, id) && a != address;
    }
  }

  /**
   * Ready does not mean the splits add up: for any two accepted percentages, an admin and one invited
   * member get there with them, and no operation on the way looks at their sum.
   */
  method ReadyWithoutFullSum(hash: string -> string, adminBp: int, memberBp: int) returns (s: BlockpartyService)
    requires PercentInRange(adminBp) && PercentInRange(memberBp)
    ensures s.Valid() && "g" in s.groups && s.groups["g"].status.Ready? && s.groups["g"].adminAddress == "a"
    ensures Splits(s.members, "g") == map["a" := adminBp, "b" := memberBp]
    ensures MapTotal(Splits(s.members, "g")) == adminBp + memberBp
  {
    s := TwoMembers(hash, adminBp, memberBp);
    var admin, member := Member("g", adminBp, true, None, Some(1)), Member("g", memberBp, false, None, None);
    TwoMembersFacts(s.members, "g", "a", "b", admin, member);
    LastConfirmation(s, "g", "b", "u", 2);
    TotalOfTwo(Splits(s.members, "g"), adminBp, memberBp);
  }

  lemma TwoMembersFacts(members: Members, id: GroupId, a: Address, b: Address, admin: Member, member: Member)
    requires a != b && members == map[a := admin, b := member] && admin.groupId == member.groupId == id
    requires admin.confirmedAt.Some?
    ensures Splits(members, id) == map[a := admin.percentBp, b := member.percentBp]
    ensures InGroup(members, b, id)
    ensures forall x :: x in members && InGroup(members, x, id) && x != b ==> members[x].confirmedAt.Some?
  {
  }

  /** The party before the invited member confirms. */
  method TwoMembers(hash: string -> string, adminBp: int, memberBp: int) returns (s: BlockpartyService)
    requires PercentInRange(adminBp) && PercentInRange(memberBp)
    ensures fresh(s) && s.Valid() && "g" in s.groups && s.groups["g"].status.Confirming?
              && s.groups["g"].adminAddress == "a"
    ensures s.members == map["a" := Member("g", adminBp, true, None, Some(1)),
                             "b" := Member("g", memberBp, false, None, None)]
  {
    s := new BlockpartyService("fee", hash);
    var r := s.CreateGroup("g", "party", "a", true, adminBp, false, "t", 1);
    assert s.hashToken("t") == s.groups["g"].adminTokenHash;
    r := s.AddMember("g", "b", memberBp, false, true, "t");
  }

  lemma {:induction false} TotalOfTwo(splits: map<Address, int>, p: int, q: int)
    requires splits == map["a" := p, "b" := q]
    ensures MapTotal(splits) == p + q
  {
    MapTotalWithout(splits, "a");
    MapTotalWithout(splits - {"a"}, "b");
    assert splits - {"a"} - {"b"} == map[];
  }

  /**
   * A party of 50 % and 90 % gets routed, and with a pool fee of at most 20 % its blocks over-emit:
   * no fee output, and the first output of the coinbase short by the excess.
   */
  method OverfullPartyIsRouted(hash: string -> string, order: seq<Address>, i: P.PartyInput, payTo: Address -> Bytes)
      returns (s: BlockpartyService, block: P.PartyInput)
    requires 0.0 <= i.poolFeePercent <= 20.0 && 2 * i.blockRewardSats >= 5 * i.Dust()
    requires order == ["a", "b"] || order == ["b", "a"]
    ensures s.Valid() && s.GetRoutableGroupIdForAdmin("a") == Some("g")
    ensures Lists(Splits(s.members, "g"), order) && block == i.(members := Listed(Splits(s.members, "g"), order))
    ensures OverEmits(block, payTo)
  {
    s := ReadyWithoutFullSum(hash, 5000, 9000);
    assert s.groups["g"].adminAddress == "a" && Routable(s.groups["g"].status);
    assert Apart(s.groups, s.GetRoutableGroupIdForAdmin("a").value, "g");
    block := i.(members := Listed(Splits(s.members, "g"), order));
    FortyPercentTooMuch(block, Splits(s.members, "g"), order, payTo);
  }

  /** A reset after the first share leaves an active party with an unconfirmed member. */
  method ActiveWithUnconfirmed(s: BlockpartyService, id: GroupId, address: Address, now: int) returns (r: Reply)
    requires s.Valid() && id in s.groups && s.groups[id].status.Active? && address != ""
               && InGroup(s.members, address, id)
    modifies s
    ensures s.Valid() && id in s.groups && s.groups[id].status.Active? && InGroup(s.members, address, id)
    ensures s.members[address].confirmedAt.None? && !AllConfirmed(s.members, id)
    ensures Splits(s.members, id) == old(Splits(s.members, id))
  {
    assert FreezeFits(s.groups, s.members, s.frozen, id);
    r := s.ResetMemberOnboarding(id, address, now);
    assert FreezeFits(s.groups, s.members, s.frozen, id);
  }
}

/** What each kind of Blockparty edit does to the tables and caches. */
module BlockpartyEdits {
  import opened Options
  import opened CoinbaseSplit
  import opened BlockpartyTables

  type Frozen = map<GroupId, Freeze>

  type Consent = map<Address, int>

  /** The tables fit except that one party's status is due for recomputing. */
  ghost predicate Due(groups: Groups, members: Members, consent: Consent, frozen: Frozen, id: GroupId) {
    && id in groups && UniqueGroups(groups) && Rooted(groups, members)
    && StatusesFitBut(groups, members, id) && (Computed(groups, id) || PartyFits(groups, members, id))
    && Consented(members, consent) && FrozenHold(groups, members, frozen)
  }

  lemma RecomputeFits(groups: Groups, members: Members, consent: Consent, frozen: Frozen, id: GroupId)
    requires Due(groups, members, consent, frozen, id)
    ensures TablesFit(Recomputed(groups, members, id), members, consent, frozen)
    ensures Onward(groups, frozen, Recomputed(groups, members, id), frozen)
  {
    if Computed(groups, id) {
      var g := groups[id].(status := Target(members, id));
      SetGroupKeepsRoots(groups, members, id, g);
      SetGroupKeepsStatuses(groups, members, id, g);
      SetEditableKeepsFreezes(groups, members, frozen, id, g);
      SetGroupOnward(groups, id, g, frozen);
    } else {
      forall i ensures PartyFits(groups, members, i) {}
      OnwardReflexive(groups, frozen);
    }
  }

  lemma RecomputeCaches(groups: Groups, members: Members, id: GroupId, cache: AdminCache,
                        addresses: map<Address, GroupId>)
    requires UniqueGroups(groups) && RoutingAgrees(groups, cache) && AddressesAgree(groups, members, addresses)
    ensures RoutingAgrees(Recomputed(groups, members, id), CacheRecomputed(groups, members, id, cache))
    ensures AddressesAgree(Recomputed(groups, members, id), members, addresses)
  {
    if Computed(groups, id) {
      var g := groups[id].(status := Target(members, id));
      SetGroupRoutes(groups, id, g, cache);
      SetGroupAddresses(groups, id, g, members, addresses);
    }
  }

  // ----- New rows -----

  lemma NewRowLeavesOthers(members: Members, a: Address, m: Member)
    requires a !in members
    ensures OnlyPartyChanged(members, members[a := m], m.groupId)
  {
    var members' := members[a := m];
    forall x ensures OnlyParty(members, members', m.groupId, x) {}
  }

  lemma NewGroupRoots(groups: Groups, members: Members, id: GroupId, g: Group, admin: Member)
    requires UniqueGroups(groups) && Rooted(groups, members) && id !in groups && g.adminAddress !in members
    requires forall i :: i in groups ==> groups[i].name != g.name && groups[i].adminAddress != g.adminAddress
    requires admin.groupId == id && admin.admin && MIN_PERCENT_BP <= admin.percentBp <= MAX_PERCENT_BP
    ensures UniqueGroups(groups[id := g]) && Rooted(groups[id := g], members[g.adminAddress := admin])
  {
    var groups', members' := groups[id := g], members[g.adminAddress := admin];
    forall i, j ensures Apart(groups', i, j) { assert Apart(groups, i, j); }
    forall i ensures HasAdmin(groups', members', i) { assert HasAdmin(groups, members, i); }
    forall a ensures MemberFits(groups', members', a) { assert MemberFits(groups, members, a); }
  }

  lemma NewGroupFits(groups: Groups, members: Members, consent: Consent, frozen: Frozen, id: GroupId, g: Group,
                     admin: Member)
    requires TablesFit(groups, members, consent, frozen) && id !in groups && g.adminAddress !in members
    requires forall i :: i in groups ==> groups[i].name != g.name && groups[i].adminAddress != g.adminAddress
    requires g.status.Draft? && admin.groupId == id && admin.admin
    requires MIN_PERCENT_BP <= admin.percentBp <= MAX_PERCENT_BP
    ensures TablesFit(groups[id := g], members[g.adminAddress := admin], consent, frozen)
    ensures Onward(groups, frozen, groups[id := g], frozen)
  {
    var groups', members' := groups[id := g], members[g.adminAddress := admin];
    NewGroupRoots(groups, members, id, g, admin);
    NewRowLeavesOthers(members, g.adminAddress, admin);
    OnePartyStatuses(groups, members, members', id);
    assert FreezeFits(groups, members, frozen, id);
    OnePartyFreezes(groups, members, members', frozen, id);
    assert PartyFits(groups', members', id) by {
      forall a | a in members' && InGroup(members', a, id) ensures members'[a].admin {
        assert MemberFits(groups, members, a);
      }
    }
    forall i ensures PartyFits(groups', members', i) { assert i != id ==> PartyFits(groups, members', i); }
    forall i ensures FreezeFits(groups', members', frozen, i) { assert FreezeFits(groups, members', frozen, i); }
    forall a ensures ConsentFits(members', consent, a) { assert ConsentFits(members, consent, a); }
    forall i ensures OnwardAt(groups, frozen, groups', frozen, i) { assert FreezeFits(groups, members, frozen, i); }
  }

  lemma PromotionFits(groups: Groups, members: Members, consent: Consent, frozen: Frozen, id: GroupId, address: Address,
                      m: Member)
    requires TablesFit(groups, members, consent, frozen) && id in groups && Editable(groups[id].status)
    requires address !in members && m.groupId == id && !m.admin && m.confirmedAt.None?
    requires MIN_PERCENT_BP <= m.percentBp <= MAX_PERCENT_BP && groups[id].adminAddress != address
    ensures var g := groups[id].(status := if groups[id].status.Draft? then Confirming else groups[id].status);
            && Due(groups[id := g], members[address := m], consent, frozen, id)
            && Onward(groups, frozen, groups[id := g], frozen)
            && !AllConfirmed(members[address := m], id)
  {
    var members' := members[address := m];
    var g := groups[id].(status := if groups[id].status.Draft? then Confirming else groups[id].status);
    forall i ensures HasAdmin(groups, members', i) { assert HasAdmin(groups, members, i); }
    forall a ensures MemberFits(groups, members', a) { assert MemberFits(groups, members, a); }
    forall a ensures ConsentFits(members', consent, a) { assert ConsentFits(members, consent, a); }
    NewRowLeavesOthers(members, address, m);
    EditableIsNotFrozen(groups, members, frozen, id);
    OnePartyStatuses(groups, members, members', id);
    OnePartyFreezes(groups, members, members', frozen, id);
    SetGroupKeepsRoots(groups, members', id, g);
    SetGroupKeepsStatuses(groups, members', id, g);
    SetEditableKeepsFreezes(groups, members', frozen, id, g);
    SetGroupOnward(groups, id, g, frozen);
    assert InGroup(members', address, id);
  }

  lemma RemovalFits(groups: Groups, members: Members, consent: Consent, frozen: Frozen, id: GroupId, address: Address)
    requires TablesFit(groups, members, consent, frozen) && id in groups && Editable(groups[id].status)
    requires InGroup(members, address, id) && !members[address].admin
    ensures Due(groups, members - {address}, consent, frozen, id)
  {
    var members' := members - {address};
    assert MemberFits(groups, members, address);
    forall i ensures HasAdmin(groups, members', i) {
      assert HasAdmin(groups, members, i) && MemberFits(groups, members, address);
    }
    forall a ensures MemberFits(groups, members', a) { assert MemberFits(groups, members, a); }
    forall a ensures ConsentFits(members', consent, a) { assert ConsentFits(members, consent, a); }
    forall x ensures OnlyParty(members, members', id, x) {}
    EditableIsNotFrozen(groups, members, frozen, id);
    OnePartyStatuses(groups, members, members', id);
    OnePartyFreezes(groups, members, members', frozen, id);
    assert PartyFits(groups, members, id);
  }

  // ----- Confirmations -----

  /** Only confirmation and token change about a member, not the deal. */
  ghost predicate SameDeal(m: Member, m': Member) {
    m'.groupId == m.groupId && m'.percentBp == m.percentBp && m'.admin == m.admin
  }

  lemma ConfirmationFits(groups: Groups, members: Members, consent: Consent, frozen: Frozen, address: Address,
                         m: Member, consent': Consent)
    requires TablesFit(groups, members, consent, frozen) && address in members && SameDeal(members[address], m)
    requires consent' == consent || consent' == consent[address := m.percentBp]
    requires m.confirmedAt.Some? ==> members[address].confirmedAt.Some? || consent' == consent[address := m.percentBp]
    ensures Due(groups, members[address := m], consent', frozen, m.groupId)
  {
    var members', id := members[address := m], m.groupId;
    assert MemberFits(groups, members, address);
    forall i ensures HasAdmin(groups, members', i) { assert HasAdmin(groups, members, i); }
    forall a ensures MemberFits(groups, members', a) { assert MemberFits(groups, members, a); }
    forall a ensures ConsentFits(members', consent', a) { assert ConsentFits(members, consent, a); }
    forall x ensures OnlyParty(members, members', id, x) {}
    OnePartyStatuses(groups, members, members', id);
    SameDealsSameSplits(members, members', address, id);
    OnePartyFreezes(groups, members, members', frozen, id);
    assert PartyFits(groups, members, id);
    if !Computed(groups, id) {
      assert PartyFits(groups, members', id);
    }
  }

  lemma SameDealsSameSplits(members: Members, members': Members, address: Address, id: GroupId)
    requires address in members && address in members' && members' == members[address := members'[address]]
    requires SameDeal(members[address], members'[address])
    ensures Splits(members', id) == Splits(members, id)
  {
  }

  // ----- New splits -----

  /** A row after the edit: the admin's confirmation is renewed, everyone else's is reset. */
  function Resplit(m: Member, a: Address, edits: map<Address, int>, admin: Address, now: int): Member {
    m.(percentBp := if a in edits then edits[a] else m.percentBp,
       confirmedAt := if a == admin then Some(now) else None)
  }

  ghost predicate ResplitAt(members: Members, members': Members, id: GroupId, edits: map<Address, int>, admin: Address,
                            now: int, a: Address)
  {
    && (a in members <==> a in members')
    && (a in members ==>
          members'[a] == if InGroup(members, a, id) then Resplit(members[a], a, edits, admin, now) else members[a])
  }

  ghost predicate ResplitDone(members: Members, members': Members, id: GroupId, edits: map<Address, int>,
                              admin: Address, now: int)
  {
    forall a :: ResplitAt(members, members', id, edits, admin, now, a)
  }

  ghost predicate InPercentRange(edits: map<Address, int>) {
    forall a :: a in edits ==> MIN_PERCENT_BP <= edits[a] <= MAX_PERCENT_BP
  }

  lemma ResplitFits(groups: Groups, members: Members, consent: Consent, frozen: Frozen, id: GroupId,
                    edits: map<Address, int>, now: int, members': Members)
    requires TablesFit(groups, members, consent, frozen) && id in groups && Editable(groups[id].status)
    requires InPercentRange(edits) && ResplitDone(members, members', id, edits, groups[id].adminAddress, now)
    ensures Due(groups, members', consent, frozen, id)
    ensures forall a :: a in members <==> a in members'
    ensures forall a :: a in members ==> members'[a].groupId == members[a].groupId
  {
    var admin := groups[id].adminAddress;
    forall i ensures HasAdmin(groups, members', i) {
      assert HasAdmin(groups, members, i);
      assert i in groups ==> ResplitAt(members, members', id, edits, admin, now, groups[i].adminAddress);
    }
    forall a ensures MemberFits(groups, members', a) && OnlyParty(members, members', id, a)
      && ConsentFits(members', consent, a) {
      assert ResplitAt(members, members', id, edits, admin, now, a);
      assert MemberFits(groups, members, a) && ConsentFits(members, consent, a);
    }
    forall a
      ensures a in members <==> a in members'
      ensures a in members ==> members'[a].groupId == members[a].groupId
    {
      assert ResplitAt(members, members', id, edits, admin, now, a);
    }
    EditableIsNotFrozen(groups, members, frozen, id);
    OnePartyStatuses(groups, members, members', id);
    OnePartyFreezes(groups, members, members', frozen, id);
    if groups[id].status.Draft? {
      assert PartyFits(groups, members, id);
      forall a | a in members' && InGroup(members', a, id) ensures members'[a].admin {
        assert ResplitAt(members, members', id, edits, admin, now, a);
      }
      assert PartyFits(groups, members', id);
    }
  }

  lemma SameKeysSameAddresses(groups: Groups, members: Members, members': Members, addresses: map<Address, GroupId>)
    requires AddressesAgree(groups, members, addresses)
    requires forall a :: a in members <==> a in members'
    requires forall a :: a in members ==> members'[a].groupId == members[a].groupId
    ensures AddressesAgree(groups, members', addresses)
  {
    forall a ensures AddressFits(groups, members', addresses, a) { assert AddressFits(groups, members, addresses, a); }
  }

  // ----- Shares and dissolution -----

  /** The party as its first share finds it. */
  function Activated(g: Group, now: int): Group {
    g.(lastShareAt := Some(now), status := if g.status.Ready? then Active else g.status)
  }

  /** The splits are frozen when a ready party turns active. */
  ghost function FrozenAfter(frozen: Frozen, members: Members, consent: Consent, id: GroupId, g: Group): Frozen {
    if g.status.Ready? then frozen[id := Freeze(Splits(members, id), consent)] else frozen
  }

  lemma ReadyIsAgreed(groups: Groups, members: Members, consent: Consent, frozen: Frozen, id: GroupId)
    requires TablesFit(groups, members, consent, frozen) && id in groups && groups[id].status.Ready?
    ensures forall a :: AgreedAt(Freeze(Splits(members, id), consent), groups[id].adminAddress, a)
  {
    assert PartyFits(groups, members, id);
    var f, admin := Freeze(Splits(members, id), consent), groups[id].adminAddress;
    forall a ensures AgreedAt(f, admin, a) {
      assert MemberFits(groups, members, a) && ConsentFits(members, consent, a);
      assert a in f.splits ==> a in members && InGroup(members, a, id);
    }
  }

  lemma ShareFits(groups: Groups, members: Members, consent: Consent, frozen: Frozen, id: GroupId, now: int)
    requires TablesFit(groups, members, consent, frozen) && id in groups && !groups[id].status.Dissolved?
    ensures var g, frozen' := Activated(groups[id], now), FrozenAfter(frozen, members, consent, id, groups[id]);
            && TablesFit(groups[id := g], members, consent, frozen')
            && Onward(groups, frozen, groups[id := g], frozen')
  {
    var g, frozen' := Activated(groups[id], now), FrozenAfter(frozen, members, consent, id, groups[id]);
    var groups' := groups[id := g];
    SetGroupKeepsRoots(groups, members, id, g);
    assert PartyFits(groups, members, id);
    SetGroupKeepsStatuses(groups, members, id, g);
    if groups[id].status.Ready? {
      ReadyIsAgreed(groups, members, consent, frozen, id);
    }
    forall i ensures FreezeFits(groups', members, frozen', i) { assert FreezeFits(groups, members, frozen, i); }
    forall i ensures OnwardAt(groups, frozen, groups', frozen', i) { assert FreezeFits(groups, members, frozen, i); }
  }

  lemma DissolveFits(groups: Groups, members: Members, consent: Consent, frozen: Frozen, id: GroupId, now: int)
    requires TablesFit(groups, members, consent, frozen) && id in groups && !groups[id].status.Dissolved?
    requires groups[id].status.Active? ==> groups[id].lastShareAt.Some? ==>
               now - groups[id].lastShareAt.value >= DISSOLVE_COOLDOWN_MS
    ensures var g := groups[id].(status := Dissolved, dissolvedAt := Some(now));
            TablesFit(groups[id := g], members, consent, frozen) && Onward(groups, frozen, groups[id := g], frozen)
  {
    var g := groups[id].(status := Dissolved, dissolvedAt := Some(now));
    var groups' := groups[id := g];
    SetGroupKeepsRoots(groups, members, id, g);
    SetGroupKeepsStatuses(groups, members, id, g);
    forall i ensures FreezeFits(groups', members, frozen, i) { assert FreezeFits(groups, members, frozen, i); }
    SetGroupOnward(groups, id, g, frozen);
  }

  // ----- Rebuilding the caches -----

  ghost predicate AddressDone(groups: Groups, members: Members, cache: map<Address, GroupId>, todo: set<Address>,
                              a: Address)
  {
    if a in todo then a !in cache else AddressFits(groups, members, cache, a)
  }

  ghost predicate LiveDone(groups: Groups, cache: AdminCache, todo: set<GroupId>, id: GroupId) {
    id !in todo ==> LiveIsCached(groups, cache, id)
  }

  ghost predicate CachedDone(groups: Groups, cache: AdminCache, todo: set<GroupId>, a: Address) {
    CachedIsLive(groups, cache, a) && (a in cache ==> cache[a].groupId !in todo)
  }

  lemma AddressNext(groups: Groups, members: Members, cache: map<Address, GroupId>, todo: set<Address>, a: Address,
                    cache': map<Address, GroupId>)
    requires a in todo && a in members && MemberFits(groups, members, a)
    requires forall x :: AddressDone(groups, members, cache, todo, x)
    requires cache' == if groups[members[a].groupId].status.Dissolved? then cache else cache[a := members[a].groupId]
    ensures forall x :: AddressDone(groups, members, cache', todo - {a}, x)
  {
    var todo' := todo - {a};
    forall x ensures AddressDone(groups, members, cache', todo', x) {
      assert AddressDone(groups, members, cache, todo, x);
    }
  }

  lemma RouteNext(groups: Groups, cache: AdminCache, todo: set<GroupId>, id: GroupId, cache': AdminCache)
    requires id in todo && id in groups && UniqueGroups(groups)
    requires forall i :: LiveDone(groups, cache, todo, i)
    requires forall a :: CachedDone(groups, cache, todo, a)
    requires cache' == if groups[id].status.Dissolved? then cache
                       else cache[groups[id].adminAddress := CacheEntry(id, groups[id].status)]
    ensures forall i :: LiveDone(groups, cache', todo - {id}, i)
    ensures forall a :: CachedDone(groups, cache', todo - {id}, a)
  {
    var todo' := todo - {id};
    forall i ensures LiveDone(groups, cache', todo', i) {
      assert LiveDone(groups, cache, todo, i) && Apart(groups, i, id);
    }
    forall a ensures CachedDone(groups, cache', todo', a) { assert CachedDone(groups, cache, todo, a); }
  }
}

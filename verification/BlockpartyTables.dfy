/** The group and member tables of Blockparty, and what every operation keeps about them. */
module BlockpartyTables {
  import opened Options
  import opened CoinbaseSplit

  type GroupId = string

  const MIN_PERCENT_BP: int := 100
  const MAX_PERCENT_BP: int := 10000
  const TOTAL_PERCENT_BP: int := 10000
  const DISSOLVE_COOLDOWN_MS: int := 7 * 24 * 60 * 60 * 1000

  datatype Status = Draft | Confirming | Ready | Active | Dissolved

  datatype Group = Group(
    name: string, adminAddress: Address, adminTokenHash: string, status: Status,
    lastShareAt: Option<int>, dissolvedAt: Option<int>)

  /** A member row; the member's address is its key and unique over all parties. */
  datatype Member = Member(
    groupId: GroupId, percentBp: int, admin: bool, memberTokenHash: Option<string>, confirmedAt: Option<int>)

  type Groups = map<GroupId, Group>

  type Members = map<Address, Member>

  datatype CacheEntry = CacheEntry(groupId: GroupId, status: Status)

  type AdminCache = map<Address, CacheEntry>

  predicate Editable(s: Status) { s.Draft? || s.Confirming? || s.Ready? }

  predicate Routable(s: Status) { s.Ready? || s.Active? }

  predicate Pending(s: Status) { s.Draft? || s.Confirming? }

  /** Statuses the Stratum layer cannot tell apart. */
  predicate SameRoute(a: Status, b: Status) { a == b || (Pending(a) && Pending(b)) }

  predicate InGroup(members: Members, a: Address, id: GroupId) {
    a in members && members[a].groupId == id
  }

  predicate AllConfirmed(members: Members, id: GroupId) {
    && (exists a :: a in members && InGroup(members, a, id))
    && (forall a :: a in members && InGroup(members, a, id) ==> members[a].confirmedAt.Some?)
  }

  /** Who gets how much. */
  function Splits(members: Members, id: GroupId): map<Address, int> {
    map a | a in members && InGroup(members, a, id) :: members[a].percentBp
  }

  // ----- The invariant, row by row -----

  ghost predicate Apart(groups: Groups, i: GroupId, j: GroupId) {
    i in groups && j in groups && i != j ==>
      groups[i].adminAddress != groups[j].adminAddress && groups[i].name != groups[j].name
  }

  /** Names and admin addresses are unique over all parties, dissolved ones included. */
  ghost predicate UniqueGroups(groups: Groups) {
    forall i, j :: Apart(groups, i, j)
  }

  ghost predicate HasAdmin(groups: Groups, members: Members, id: GroupId) {
    id in groups ==> InGroup(members, groups[id].adminAddress, id)
  }

  ghost predicate MemberFits(groups: Groups, members: Members, a: Address) {
    a in members ==>
      var m := members[a];
      && m.groupId in groups && MIN_PERCENT_BP <= m.percentBp <= MAX_PERCENT_BP
      && (m.admin <==> groups[m.groupId].adminAddress == a)
  }

  /** Every party has its admin as a member, every member a party; percentages are in range. */
  ghost predicate Rooted(groups: Groups, members: Members) {
    (forall id :: HasAdmin(groups, members, id)) && (forall a :: MemberFits(groups, members, a))
  }

  /** A draft has only its admin, a confirming party someone unconfirmed, a ready one no one. */
  ghost predicate StatusFits(members: Members, id: GroupId, s: Status) {
    match s
    case Draft => forall a :: a in members && InGroup(members, a, id) ==> members[a].admin
    case Confirming => !AllConfirmed(members, id)
    case Ready => AllConfirmed(members, id)
    case _ => true
  }

  ghost predicate PartyFits(groups: Groups, members: Members, id: GroupId) {
    id in groups ==> StatusFits(members, id, groups[id].status)
  }

  ghost predicate StatusesFit(groups: Groups, members: Members) {
    forall id :: PartyFits(groups, members, id)
  }

  /** All parties fit but possibly one, whose status is about to be recomputed. */
  ghost predicate StatusesFitBut(groups: Groups, members: Members, but: GroupId) {
    forall id :: id != but ==> PartyFits(groups, members, id)
  }

  ghost predicate ConsentFits(members: Members, consent: map<Address, int>, a: Address) {
    a in members && !members[a].admin && members[a].confirmedAt.Some? ==>
      a in consent && consent[a] == members[a].percentBp
  }

  /** Who confirmed did so at the percentage that stands now. */
  ghost predicate Consented(members: Members, consent: map<Address, int>) {
    forall a :: ConsentFits(members, consent, a)
  }

  /** The splits a party went active with, and what every member had agreed to then. */
  datatype Freeze = Freeze(splits: map<Address, int>, consents: map<Address, int>)

  ghost predicate AgreedAt(f: Freeze, admin: Address, a: Address) {
    a in f.splits && a != admin ==> a in f.consents && f.consents[a] == f.splits[a]
  }

  ghost predicate FreezeHolds(g: Group, splits: map<Address, int>, f: Freeze) {
    && (g.status.Active? || g.status.Dissolved?) && splits == f.splits && g.lastShareAt.Some?
    && (forall a :: AgreedAt(f, g.adminAddress, a))
    && (g.status.Dissolved? ==>
        g.dissolvedAt.Some? && g.dissolvedAt.value >= g.lastShareAt.value + DISSOLVE_COOLDOWN_MS)
  }

  ghost predicate FreezeFits(groups: Groups, members: Members, frozen: map<GroupId, Freeze>, id: GroupId) {
    && (id in frozen ==> id in groups && FreezeHolds(groups[id], Splits(members, id), frozen[id]))
    && (id in groups && groups[id].status.Active? ==> id in frozen)
  }

  ghost predicate FrozenHold(groups: Groups, members: Members, frozen: map<GroupId, Freeze>) {
    forall id :: FreezeFits(groups, members, frozen, id)
  }

  ghost predicate TablesFit(groups: Groups, members: Members, consent: map<Address, int>, frozen: map<GroupId, Freeze>)
  {
    && UniqueGroups(groups) && Rooted(groups, members) && StatusesFit(groups, members)
    && Consented(members, consent) && FrozenHold(groups, members, frozen)
  }

  ghost predicate LiveIsCached(groups: Groups, cache: AdminCache, id: GroupId) {
    id in groups && !groups[id].status.Dissolved? ==>
      var a := groups[id].adminAddress;
      a in cache && cache[a].groupId == id && SameRoute(cache[a].status, groups[id].status)
  }

  ghost predicate CachedIsLive(groups: Groups, cache: AdminCache, a: Address) {
    a in cache ==>
      var id := cache[a].groupId;
      id in groups && groups[id].adminAddress == a && !groups[id].status.Dissolved?
  }

  /** The routing cache has exactly the admins of the live parties, with statuses that route alike. */
  ghost predicate RoutingAgrees(groups: Groups, cache: AdminCache) {
    (forall id :: LiveIsCached(groups, cache, id)) && (forall a :: CachedIsLive(groups, cache, a))
  }

  ghost predicate AddressFits(groups: Groups, members: Members, cache: map<Address, GroupId>, a: Address) {
    && (a in cache <==> a in members && members[a].groupId in groups && !groups[members[a].groupId].status.Dissolved?)
    && (a in cache && a in members ==> cache[a] == members[a].groupId)
  }

  /** The address cache has exactly the members of live parties. */
  ghost predicate AddressesAgree(groups: Groups, members: Members, cache: map<Address, GroupId>) {
    forall a :: AddressFits(groups, members, cache, a)
  }

  // ----- What may ever change -----

  ghost predicate OnwardGroup(g: Group, g': Group) {
    && g'.name == g.name && g'.adminAddress == g.adminAddress && g'.adminTokenHash == g.adminTokenHash
    && (g.status.Dissolved? ==> g' == g)
    && (g.status.Active? ==> g'.status.Active? || g'.status.Dissolved?)
    && (!g.status.Draft? ==> !g'.status.Draft?)
  }

  ghost predicate OnwardAt(groups: Groups, frozen: map<GroupId, Freeze>, groups': Groups, frozen': map<GroupId, Freeze>,
                           id: GroupId)
  {
    && (id in groups ==> id in groups' && OnwardGroup(groups[id], groups'[id]))
    && (id in frozen ==> id in frozen' && frozen'[id] == frozen[id])
  }

  /** Dissolved parties never change, active ones only their last share and to dissolved; freezes stay. */
  ghost predicate Onward(groups: Groups, frozen: map<GroupId, Freeze>, groups': Groups, frozen': map<GroupId, Freeze>) {
    forall id :: OnwardAt(groups, frozen, groups', frozen', id)
  }

  lemma OnwardTransitive(g0: Groups, f0: map<GroupId, Freeze>, g1: Groups, f1: map<GroupId, Freeze>, g2: Groups,
                         f2: map<GroupId, Freeze>)
    requires Onward(g0, f0, g1, f1) && Onward(g1, f1, g2, f2)
    ensures Onward(g0, f0, g2, f2)
  {
    forall id ensures OnwardAt(g0, f0, g2, f2, id) {
      assert OnwardAt(g0, f0, g1, f1, id) && OnwardAt(g1, f1, g2, f2, id);
    }
  }

  lemma OnwardReflexive(g: Groups, f: map<GroupId, Freeze>)
    ensures Onward(g, f, g, f)
  {
    forall id ensures OnwardAt(g, f, g, f, id) {}
  }

  // ----- recomputeStatus -----

  function Target(members: Members, id: GroupId): Status {
    if AllConfirmed(members, id) then Ready else Confirming
  }

  predicate Computed(groups: Groups, id: GroupId) {
    id in groups && (groups[id].status.Confirming? || groups[id].status.Ready?)
  }

  function Recomputed(groups: Groups, members: Members, id: GroupId): Groups {
    if Computed(groups, id) then groups[id := groups[id].(status := Target(members, id))] else groups
  }

  /** The cache is written only when the status changes. */
  function CacheRecomputed(groups: Groups, members: Members, id: GroupId, cache: AdminCache): AdminCache {
    if Computed(groups, id) && groups[id].status != Target(members, id)
    then cache[groups[id].adminAddress := CacheEntry(id, Target(members, id))]
    else cache
  }

  // ----- Changing one party's row -----

  /** The party stays the same one, under another status or with another last share. */
  ghost predicate SameParty(g: Group, g': Group) {
    g'.name == g.name && g'.adminAddress == g.adminAddress && g'.adminTokenHash == g.adminTokenHash
  }

  lemma SetGroupKeepsRoots(groups: Groups, members: Members, id: GroupId, g: Group)
    requires id in groups && SameParty(groups[id], g) && UniqueGroups(groups) && Rooted(groups, members)
    ensures UniqueGroups(groups[id := g]) && Rooted(groups[id := g], members)
  {
    var groups' := groups[id := g];
    forall i, j ensures Apart(groups', i, j) { assert Apart(groups, i, j); }
    forall i ensures HasAdmin(groups', members, i) { assert HasAdmin(groups, members, i); }
    forall a ensures MemberFits(groups', members, a) { assert MemberFits(groups, members, a); }
  }

  lemma SetGroupKeepsStatuses(groups: Groups, members: Members, id: GroupId, g: Group)
    requires id in groups && StatusesFitBut(groups, members, id)
    ensures StatusesFitBut(groups[id := g], members, id)
    ensures StatusFits(members, id, g.status) ==> StatusesFit(groups[id := g], members)
  {
    var groups' := groups[id := g];
    forall i | i != id ensures PartyFits(groups', members, i) { assert PartyFits(groups, members, i); }
    if StatusFits(members, id, g.status) {
      forall i ensures PartyFits(groups', members, i) {}
    }
  }

  lemma SetEditableKeepsFreezes(groups: Groups, members: Members, frozen: map<GroupId, Freeze>, id: GroupId, g: Group)
    requires id in groups && Editable(groups[id].status) && !g.status.Active? && FrozenHold(groups, members, frozen)
    ensures id !in frozen && FrozenHold(groups[id := g], members, frozen)
  {
    EditableIsNotFrozen(groups, members, frozen, id);
    var groups' := groups[id := g];
    forall i ensures FreezeFits(groups', members, frozen, i) { assert FreezeFits(groups, members, frozen, i); }
  }

  lemma EditableIsNotFrozen(groups: Groups, members: Members, frozen: map<GroupId, Freeze>, id: GroupId)
    requires FrozenHold(groups, members, frozen) && id in groups && Editable(groups[id].status)
    ensures id !in frozen
  {
    assert FreezeFits(groups, members, frozen, id);
  }

  /** A cache entry for a live party, written when its row is. */
  lemma SetGroupRoutes(groups: Groups, id: GroupId, g: Group, cache: AdminCache)
    requires id in groups && SameParty(groups[id], g) && UniqueGroups(groups) && RoutingAgrees(groups, cache)
    requires !groups[id].status.Dissolved? && !g.status.Dissolved?
    ensures SameRoute(groups[id].status, g.status) ==> RoutingAgrees(groups[id := g], cache)
    ensures RoutingAgrees(groups[id := g], cache[g.adminAddress := CacheEntry(id, g.status)])
  {
    var groups', cache' := groups[id := g], cache[g.adminAddress := CacheEntry(id, g.status)];
    forall i ensures LiveIsCached(groups', cache', i) {
      assert LiveIsCached(groups, cache, i) && Apart(groups, i, id);
    }
    forall a ensures CachedIsLive(groups', cache', a) { assert CachedIsLive(groups, cache, a); }
    if SameRoute(groups[id].status, g.status) {
      forall i ensures LiveIsCached(groups', cache, i) { assert LiveIsCached(groups, cache, i); }
      forall a ensures CachedIsLive(groups', cache, a) { assert CachedIsLive(groups, cache, a); }
    }
  }

  lemma SetGroupAddresses(groups: Groups, id: GroupId, g: Group, members: Members, cache: map<Address, GroupId>)
    requires id in groups && AddressesAgree(groups, members, cache)
    requires !groups[id].status.Dissolved? && !g.status.Dissolved?
    ensures AddressesAgree(groups[id := g], members, cache)
  {
    var groups' := groups[id := g];
    forall a ensures AddressFits(groups', members, cache, a) { assert AddressFits(groups, members, cache, a); }
  }

  lemma SetGroupOnward(groups: Groups, id: GroupId, g: Group, frozen: map<GroupId, Freeze>)
    requires id in groups && OnwardGroup(groups[id], g)
    ensures Onward(groups, frozen, groups[id := g], frozen)
  {
    var groups' := groups[id := g];
    forall i ensures OnwardAt(groups, frozen, groups', frozen, i) {}
  }

  // ----- Changing member rows -----

  /** Rows of one party change; the others are as they were. */
  ghost predicate OnlyParty(members: Members, members': Members, id: GroupId, a: Address) {
    && (a in members && members[a].groupId != id ==> a in members' && members'[a] == members[a])
    && (a in members' && members'[a].groupId != id ==> a in members && members[a] == members'[a])
  }

  ghost predicate OnlyPartyChanged(members: Members, members': Members, id: GroupId) {
    forall a :: OnlyParty(members, members', id, a)
  }

  lemma OthersStayAlike(members: Members, members': Members, id: GroupId, other: GroupId)
    requires OnlyPartyChanged(members, members', id) && other != id
    ensures AllConfirmed(members', other) <==> AllConfirmed(members, other)
    ensures forall s :: StatusFits(members, other, s) ==> StatusFits(members', other, s)
    ensures Splits(members', other) == Splits(members, other)
  {
    forall a
      ensures InGroup(members, a, other) <==> InGroup(members', a, other)
      ensures InGroup(members, a, other) ==> members'[a] == members[a]
    {
      assert OnlyParty(members, members', id, a);
    }
    if AllConfirmed(members, other) {
      var a :| a in members && InGroup(members, a, other);
      assert a in members' && InGroup(members', a, other);
    }
    if AllConfirmed(members', other) {
      var a :| a in members' && InGroup(members', a, other);
      assert a in members && InGroup(members, a, other);
    }
  }

  lemma OnePartyStatuses(groups: Groups, members: Members, members': Members, id: GroupId)
    requires StatusesFit(groups, members) && OnlyPartyChanged(members, members', id)
    ensures StatusesFitBut(groups, members', id)
  {
    forall other | other != id ensures PartyFits(groups, members', other) {
      assert PartyFits(groups, members, other);
      OthersStayAlike(members, members', id, other);
    }
  }

  lemma OnePartyFreezes(groups: Groups, members: Members, members': Members, frozen: map<GroupId, Freeze>, id: GroupId)
    requires FrozenHold(groups, members, frozen) && OnlyPartyChanged(members, members', id)
    requires id !in frozen || Splits(members', id) == Splits(members, id)
    ensures FrozenHold(groups, members', frozen)
  {
    forall other ensures FreezeFits(groups, members', frozen, other) {
      assert FreezeFits(groups, members, frozen, other);
      if other != id {
        OthersStayAlike(members, members', id, other);
      }
    }
  }
}

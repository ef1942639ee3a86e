/**
 * The lifecycle of Blockparty groups. Every public method is one step on the tables and caches; the
 * clock, generated ids and tokens, and what other services answer are parameters. Addresses are
 * already normalised, "" standing for an invalid one.
 */
module BlockpartyService {
  import opened Options
  import opened Sums
  import opened CoinbaseSplit
  import opened BlockpartyTables
  import opened BlockpartyEdits

  datatype Reply = Done | Refused(code: string)

  const NAME_MIN_LEN: int := 3
  const NAME_MAX_LEN: int := 64

  predicate PercentInRange(percentBp: int) { MIN_PERCENT_BP <= percentBp <= MAX_PERCENT_BP }

  /** `new Map(updates)`: of repeated addresses the last one counts. */
  function EditsOf(updates: seq<(Address, int)>): map<Address, int> {
    if |updates| == 0 then map[]
    else
      var n := |updates| - 1;
      EditsOf(updates[..n])[updates[n].0 := updates[n].1]
  }

  ghost predicate Named(updates: seq<(Address, int)>, a: Address) {
    exists k :: 0 <= k < |updates| && updates[k].0 == a
  }

  /** No later update names the same address. */
  ghost predicate LastNaming(updates: seq<(Address, int)>, k: nat) {
    k < |updates| && forall j :: k < j < |updates| ==> updates[j].0 != updates[k].0
  }

  /** The edits are those of the named addresses, each by the last update that names it. */
  lemma {:induction false} EditsAreLast(updates: seq<(Address, int)>, a: Address, k: nat)
    ensures a in EditsOf(updates) <==> Named(updates, a)
    ensures LastNaming(updates, k) ==>
              updates[k].0 in EditsOf(updates) && EditsOf(updates)[updates[k].0] == updates[k].1
  {
    if |updates| != 0 {
      var n := |updates| - 1;
      var init := updates[..n];
      EditsAreLast(init, a, k);
      if Named(updates, a) && updates[n].0 != a {
        var j :| 0 <= j < |updates| && updates[j].0 == a;
        assert init[j].0 == a;
      }
      if k < n && LastNaming(updates, k) {
        forall j | k < j < |init| ensures init[j].0 != init[k].0 { assert updates[j].0 != updates[k].0; }
      }
    }
  }

  ghost predicate WellFormed(updates: seq<(Address, int)>) {
    forall k :: 0 <= k < |updates| ==> updates[k].0 != "" && 100 <= updates[k].1 <= 10000
  }

  /** The first update that is malformed. */
  function UpdateRefusal(updates: seq<(Address, int)>): Option<string> {
    if |updates| == 0 then None
    else if updates[0].0 == "" then Some("invalid-address")
    else if !PercentInRange(updates[0].1) then Some("invalid-percent")
    else UpdateRefusal(updates[1..])
  }

  lemma {:induction false} AcceptedUpdatesInRange(updates: seq<(Address, int)>)
    ensures UpdateRefusal(updates) == None <==> WellFormed(updates)
    ensures UpdateRefusal(updates) != Some("not-member")
  {
    if |updates| != 0 {
      AcceptedUpdatesInRange(updates[1..]);
      assert forall k :: 0 < k < |updates| ==> updates[k] == updates[1..][k - 1];
    }
  }

  /** The members after a party's splits were updated, by the updates themselves. */
  ghost predicate SplitsUpdated(members: Members, members': Members, id: GroupId, updates: seq<(Address, int)>,
                                admin: Address, now: int)
  {
    && members'.Keys == members.Keys
    && (forall k: nat :: UpdateHolds(members', updates, k))
    && (forall a :: RowUpdated(members, members', id, updates, admin, now, a))
  }

  ghost predicate UpdateHolds(members': Members, updates: seq<(Address, int)>, k: nat) {
    LastNaming(updates, k) ==> updates[k].0 in members' && members'[updates[k].0].percentBp == updates[k].1
  }

  /** Other parties' rows stay; in this one the unnamed keep their percentage, and all but the admin start anew. */
  ghost predicate RowUpdated(members: Members, members': Members, id: GroupId, updates: seq<(Address, int)>,
                             admin: Address, now: int, a: Address)
  {
    a in members && a in members' ==>
      && (members[a].groupId != id ==> members'[a] == members[a])
      && (members[a].groupId == id ==>
          && members'[a].groupId == id && members'[a].admin == members[a].admin
          && members'[a].memberTokenHash == members[a].memberTokenHash
          && (!Named(updates, a) ==> members'[a].percentBp == members[a].percentBp)
          && members'[a].confirmedAt == if a == admin then Some(now) else None)
  }

  lemma {:induction false} ResplitIsUpdate(members: Members, members': Members, id: GroupId,
                                           updates: seq<(Address, int)>, admin: Address, now: int)
    requires ResplitDone(members, members', id, EditsOf(updates), admin, now)
    requires forall k :: 0 <= k < |updates| ==> InGroup(members, updates[k].0, id)
    ensures SplitsUpdated(members, members', id, updates, admin, now)
  {
    var edits := EditsOf(updates);
    forall a
      ensures a in members <==> a in members'
      ensures RowUpdated(members, members', id, updates, admin, now, a)
    {
      assert ResplitAt(members, members', id, edits, admin, now, a);
      EditsAreLast(updates, a, 0);
    }
    forall k: nat
      ensures UpdateHolds(members', updates, k)
    {
      EditsAreLast(updates, "", k);
      if k < |updates| { assert ResplitAt(members, members', id, edits, admin, now, updates[k].0); }
    }
  }

  lemma {:induction false} NamedAreMembers(members: Members, id: GroupId, updates: seq<(Address, int)>)
    ensures (exists a :: a in EditsOf(updates) && !InGroup(members, a, id))
            <==> (exists k :: 0 <= k < |updates| && !InGroup(members, updates[k].0, id))
  {
    if a :| a in EditsOf(updates) && !InGroup(members, a, id) {
      EditsAreLast(updates, a, 0);
      var k :| 0 <= k < |updates| && updates[k].0 == a;
      assert !InGroup(members, updates[k].0, id);
    }
    if k :| 0 <= k < |updates| && !InGroup(members, updates[k].0, id) {
      EditsAreLast(updates, updates[k].0, 0);
      assert Named(updates, updates[k].0);
    }
  }

  lemma {:induction false} EditsInRange(updates: seq<(Address, int)>)
    requires forall k :: 0 <= k < |updates| ==> PercentInRange(updates[k].1)
    ensures InPercentRange(EditsOf(updates))
  {
    if |updates| != 0 {
      EditsInRange(updates[..|updates| - 1]);
    }
  }

  function ReplyOf(refusal: Option<string>): Reply {
    if refusal.Some? then Refused(refusal.value) else Done
  }

  predicate NameAccepted(name: string) {
    NAME_MIN_LEN <= |name| <= NAME_MAX_LEN && forall k :: 0 <= k < |name| ==> name[k] >= ' ' && name[k] != '\U{7f}'
  }

  /** Less than seven days since the last share of an active party. */
  predicate CoolingDown(g: Group, now: int) {
    g.status.Active? && now - (if g.lastShareAt.Some? then g.lastShareAt.value else 0) < DISSOLVE_COOLDOWN_MS
  }

  class BlockpartyService {
    const feeAddress: Address
    const hashToken: string -> string
    var groups: Groups
    var members: Members
    var addressCache: map<Address, GroupId>
    var adminAddressCache: AdminCache
    ghost var consent: Consent // the percentage each member last confirmed
    ghost var frozen: Frozen   // the splits each party went active with

    ghost predicate Valid()
      reads this
    {
      && TablesFit(groups, members, consent, frozen)
      && RoutingAgrees(groups, adminAddressCache) && AddressesAgree(groups, members, addressCache)
    }

    constructor (feeAddress: Address, hashToken: string -> string)
      ensures Valid() && groups == map[] && members == map[] && frozen == map[]
      ensures this.feeAddress == feeAddress && this.hashToken == hashToken
    {
      this.feeAddress, this.hashToken := feeAddress, hashToken;
      groups, members, addressCache, adminAddressCache := map[], map[], map[], map[];
      consent, frozen := map[], map[];
    }

    // ----- Reading the caches -----

    /** The routable party of an admin is what the tables say. */
    function GetRoutableGroupIdForAdmin(address: Address): (r: Option<GroupId>)
      requires Valid()
      reads this
      ensures r.Some? ==>
                r.value in groups && groups[r.value].adminAddress == address && Routable(groups[r.value].status)
      ensures r.None? ==>
                forall id :: id in groups && groups[id].adminAddress == address ==> !Routable(groups[id].status)
    {
      assert forall id :: id in groups ==> LiveIsCached(groups, adminAddressCache, id);
      assert CachedIsLive(groups, adminAddressCache, address);
      if address !in adminAddressCache then None
      else
        var entry := adminAddressCache[address];
        assert LiveIsCached(groups, adminAddressCache, entry.groupId);
        if Routable(entry.status) then Some(entry.groupId) else None
    }

    /** The pool-fee override applies exactly to admins of parties still pending in the tables. */
    function GetPendingPartyFeeRoute(address: Address): (r: Option<Address>)
      requires Valid()
      reads this
      ensures r.Some? ==> r.value == feeAddress
      ensures r.Some? <==> (address != "" && feeAddress != "" &&
                            exists id :: id in groups && groups[id].adminAddress == address
                              && Pending(groups[id].status))
    {
      assert forall id :: id in groups ==> LiveIsCached(groups, adminAddressCache, id);
      assert CachedIsLive(groups, adminAddressCache, address);
      if address == "" || feeAddress == "" || address !in adminAddressCache then None
      else if Pending(adminAddressCache[address].status) then
        assert LiveIsCached(groups, adminAddressCache, adminAddressCache[address].groupId);
        Some(feeAddress)
      else None
    }

    /** The party of a member of a live party. */
    function GetGroupIdForAddress(address: Address): (r: Option<GroupId>)
      requires Valid()
      reads this
      ensures r.Some? <==> address in members && members[address].groupId in groups
                           && !groups[members[address].groupId].status.Dissolved?
      ensures r.Some? ==> r.value == members[address].groupId
    {
      assert AddressFits(groups, members, addressCache, address);
      if address in addressCache then Some(addressCache[address]) else None
    }

    // ----- Helpers -----

    /** Why an admin token is refused, if it is. */
    function AdminRefusal(id: GroupId, token: string): Option<string>
      reads this
    {
      if token == "" then Some("missing-token")
      else if id !in groups then Some("not-found")
      else if hashToken(token) != groups[id].adminTokenHash then Some("invalid-token")
      else None
    }

    function EditRefusal(id: GroupId, token: string): Option<string>
      reads this
    {
      if AdminRefusal(id, token).Some? then AdminRefusal(id, token)
      else if !Editable(groups[id].status) then Some("not-editable")
      else None
    }

    function MemberRefusal(id: GroupId, address: Address, token: string): Option<string>
      reads this
    {
      if token == "" then Some("missing-member-token")
      else if !InGroup(members, address, id) then Some("not-member")
      else if members[address].memberTokenHash.None? then Some("member-not-confirmed")
      else if hashToken(token) != members[address].memberTokenHash.value then Some("invalid-member-token")
      else None
    }

    function CreateRefusal(name: string, adminAddress: Address, emailOk: bool, percentBp: int,
                           inPplnsGroup: bool): Option<string>
      reads this
    {
      if !NameAccepted(name) then Some("invalid-name")
      else if adminAddress == "" then Some("invalid-address")
      else if !emailOk then Some("invalid-email")
      else if !PercentInRange(percentBp) then Some("invalid-percent")
      else if exists i :: i in groups && groups[i].name == name then Some("name-taken")
      else if exists i :: i in groups && groups[i].adminAddress == adminAddress then Some("admin-address-taken")
      else if adminAddress in members then Some("address-in-blockparty")
      else if inPplnsGroup then Some("address-in-pplns-group")
      else None
    }

    function AddRefusal(id: GroupId, address: Address, percentBp: int, inPplnsGroup: bool, emailVerified: bool,
                        token: string): Option<string>
      reads this
    {
      if EditRefusal(id, token).Some? then EditRefusal(id, token)
      else if address == "" then Some("invalid-address")
      else if address == groups[id].adminAddress then Some("admin-cannot-rejoin")
      else if !PercentInRange(percentBp) then Some("invalid-percent")
      else if address in members then Some("address-in-blockparty")
      else if inPplnsGroup then Some("address-in-pplns-group")
      else if !emailVerified then Some("email-not-verified")
      else None
    }

    function RemoveRefusal(id: GroupId, address: Address, token: string): Option<string>
      reads this
    {
      if EditRefusal(id, token).Some? then EditRefusal(id, token)
      else if address == "" then Some("invalid-address")
      else if !InGroup(members, address, id) then Some("not-member")
      else if members[address].admin then Some("admin-cannot-be-removed")
      else None
    }

    function SplitRefusal(id: GroupId, updates: seq<(Address, int)>, token: string): Option<string>
      reads this
    {
      if EditRefusal(id, token).Some? then EditRefusal(id, token)
      else if UpdateRefusal(updates).Some? then UpdateRefusal(updates)
      else if exists a :: a in EditsOf(updates) && !InGroup(members, a, id) then Some("not-member")
      else None
    }

    /** A token whose hash is the party's, which can still be edited. */
    ghost predicate MayEdit(id: GroupId, token: string)
      reads this
    {
      && token != "" && id in groups && hashToken(token) == groups[id].adminTokenHash
      && !groups[id].status.Active? && !groups[id].status.Dissolved?
    }

    ghost function TransitionRefusal(id: GroupId, token: string): Option<string>
      reads this
    {
      if AdminRefusal(id, token).Some? then AdminRefusal(id, token)
      else if !Editable(groups[id].status) then Some("invalid-state")
      else if MapTotal(Splits(members, id)) != TOTAL_PERCENT_BP then Some("invalid-splits-sum")
      else None
    }

    function DissolveRefusal(id: GroupId, token: string, now: int): Option<string>
      reads this
    {
      if AdminRefusal(id, token).Some? then AdminRefusal(id, token)
      else if CoolingDown(groups[id], now) then Some("dissolve-cooldown")
      else None
    }

    method RebuildCache()
      requires UniqueGroups(groups) && Rooted(groups, members)
      modifies this`addressCache, this`adminAddressCache
      ensures RoutingAgrees(groups, adminAddressCache) && AddressesAgree(groups, members, addressCache)
    {
      RebuildAddresses();
      RebuildAdmins();
    }

    method RebuildAddresses()
      requires Rooted(groups, members)
      modifies this`addressCache
      ensures AddressesAgree(groups, members, addressCache)
    {
      var addrCache: map<Address, GroupId> := map[];
      var todo := members.Keys;
      while todo != {}
        invariant todo <= members.Keys
        invariant forall x :: AddressDone(groups, members, addrCache, todo, x)
      {
        var a :| a in todo;
        assert MemberFits(groups, members, a);
        ghost var before := addrCache;
        if groups[members[a].groupId].status != Dissolved {
          addrCache := addrCache[a := members[a].groupId];
        }
        AddressNext(groups, members, before, todo, a, addrCache);
        todo := todo - {a};
      }
      forall x ensures AddressFits(groups, members, addrCache, x) {
        assert AddressDone(groups, members, addrCache, todo, x);
      }
      addressCache := addrCache;
    }

    method RebuildAdmins()
      requires UniqueGroups(groups)
      modifies this`adminAddressCache
      ensures RoutingAgrees(groups, adminAddressCache)
    {
      var adminCache: AdminCache := map[];
      var todo := groups.Keys;
      while todo != {}
        invariant todo <= groups.Keys
        invariant forall i :: LiveDone(groups, adminCache, todo, i)
        invariant forall a :: CachedDone(groups, adminCache, todo, a)
      {
        var id :| id in todo;
        ghost var before := adminCache;
        if groups[id].status != Dissolved {
          adminCache := adminCache[groups[id].adminAddress := CacheEntry(id, groups[id].status)];
        }
        RouteNext(groups, before, todo, id, adminCache);
        todo := todo - {id};
      }
      forall i ensures LiveIsCached(groups, adminCache, i) { assert LiveDone(groups, adminCache, todo, i); }
      forall a ensures CachedIsLive(groups, adminCache, a) { assert CachedDone(groups, adminCache, todo, a); }
      adminAddressCache := adminCache;
    }

    /** CONFIRMING or READY is computed from the members. */
    method RecomputeStatus(id: GroupId)
      requires Due(groups, members, consent, frozen, id)
      modifies this`groups, this`adminAddressCache
      ensures groups == Recomputed(old(groups), members, id)
      ensures adminAddressCache == CacheRecomputed(old(groups), members, id, old(adminAddressCache))
      ensures TablesFit(groups, members, consent, frozen) && Onward(old(groups), frozen, groups, frozen)
    {
      RecomputeFits(groups, members, consent, frozen, id);
      var group := groups[id];
      if group.status != Confirming && group.status != Ready { return; }
      var target := if AllConfirmed(members, id) then Ready else Confirming;
      if group.status != target {
        groups := groups[id := group.(status := target)];
        adminAddressCache := adminAddressCache[group.adminAddress := CacheEntry(id, target)];
      } else {
        assert groups[id := group.(status := target)] == groups;
      }
    }

    /** As above, for callers that leave the caches alone. */
    method RecomputeRouted(id: GroupId)
      requires Due(groups, members, consent, frozen, id)
      requires RoutingAgrees(groups, adminAddressCache) && AddressesAgree(groups, members, addressCache)
      modifies this`groups, this`adminAddressCache
      ensures groups == Recomputed(old(groups), members, id)
      ensures Valid() && Onward(old(groups), frozen, groups, frozen)
    {
      RecomputeCaches(groups, members, id, adminAddressCache, addressCache);
      RecomputeStatus(id);
    }

    // ----- Building a party -----

    method CreateGroup(id: GroupId, name: string, adminAddress: Address, emailOk: bool, adminPercentBp: int,
                       inPplnsGroup: bool, adminToken: string, now: int)
        returns (r: Reply)
      requires Valid()
      requires id !in groups // a fresh UUID
      modifies this
      ensures Valid() && Onward(old(groups), old(frozen), groups, frozen)
      ensures consent == old(consent) && frozen == old(frozen)
      ensures r.Refused? ==> groups == old(groups) && members == old(members)
                             && addressCache == old(addressCache) && adminAddressCache == old(adminAddressCache)
      ensures r.Done? ==>
                && groups == old(groups)[id := Group(name, adminAddress, hashToken(adminToken), Draft, None, None)]
                && members == old(members)[adminAddress := Member(id, adminPercentBp, true, None, Some(now))]
                && adminAddress !in old(members)
      ensures r == ReplyOf(old(CreateRefusal(name, adminAddress, emailOk, adminPercentBp, inPplnsGroup)))
    {
      OnwardReflexive(groups, frozen);
      if !NameAccepted(name) { return Refused("invalid-name"); }
      if adminAddress == "" { return Refused("invalid-address"); }
      if !emailOk { return Refused("invalid-email"); }
      if !PercentInRange(adminPercentBp) { return Refused("invalid-percent"); }
      if exists i :: i in groups && groups[i].name == name { return Refused("name-taken"); }
      if exists i :: i in groups && groups[i].adminAddress == adminAddress { return Refused("admin-address-taken"); }
      if adminAddress in members { return Refused("address-in-blockparty"); }
      if inPplnsGroup { return Refused("address-in-pplns-group"); }
      var group := Group(name, adminAddress, hashToken(adminToken), Draft, None, None);
      var admin := Member(id, adminPercentBp, true, None, Some(now));
      NewGroupFits(groups, members, consent, frozen, id, group, admin);
      groups := groups[id := group];
      members := members[adminAddress := admin];
      RebuildCache();
      r := Done;
    }

    /** A new member promotes a draft, and leaves the party confirming. */
    method AddMember(id: GroupId, address: Address, percentBp: int, inPplnsGroup: bool, emailVerified: bool,
                     token: string)
        returns (r: Reply)
      requires Valid()
      modifies this
      ensures Valid() && Onward(old(groups), old(frozen), groups, frozen)
      ensures consent == old(consent) && frozen == old(frozen)
      ensures r.Refused? ==> groups == old(groups) && members == old(members)
                             && addressCache == old(addressCache) && adminAddressCache == old(adminAddressCache)
      ensures r.Done? ==>
                && address !in old(members) && id in old(groups)
                && members == old(members)[address := Member(id, percentBp, false, None, None)]
                && groups == old(groups)[id := old(groups)[id].(status := Confirming)]
      ensures r == ReplyOf(old(AddRefusal(id, address, percentBp, inPplnsGroup, emailVerified, token)))
    {
      OnwardReflexive(groups, frozen);
      if EditRefusal(id, token).Some? { return Refused(EditRefusal(id, token).value); }
      if address == "" { return Refused("invalid-address"); }
      if address == groups[id].adminAddress { return Refused("admin-cannot-rejoin"); }
      if !PercentInRange(percentBp) { return Refused("invalid-percent"); }
      if address in members { return Refused("address-in-blockparty"); }
      if inPplnsGroup { return Refused("address-in-pplns-group"); }
      if !emailVerified { return Refused("email-not-verified"); }
      var member := Member(id, percentBp, false, None, None);
      PromotionFits(groups, members, consent, frozen, id, address, member);
      ghost var groups0, g0 := groups, groups[id];
      members := members[address := member];
      if groups[id].status == Draft {
        groups := groups[id := groups[id].(status := Confirming)];
      } else {
        assert groups[id := groups[id].(status := groups[id].status)] == groups;
      }
      ghost var groups1 := groups;
      RecomputeStatus(id);
      OnwardTransitive(groups0, frozen, groups1, frozen, groups, frozen);
      assert groups == groups0[id := g0.(status := Confirming)];
      RebuildCache();
      r := Done;
    }

    method RemoveMember(id: GroupId, address: Address, token: string) returns (r: Reply)
      requires Valid()
      modifies this
      ensures Valid() && Onward(old(groups), old(frozen), groups, frozen)
      ensures consent == old(consent) && frozen == old(frozen)
      ensures r.Refused? ==> groups == old(groups) && members == old(members)
                             && addressCache == old(addressCache) && adminAddressCache == old(adminAddressCache)
      ensures r.Done? ==>
                members == old(members) - {address} && groups == Recomputed(old(groups), members, id)
      ensures r == ReplyOf(old(RemoveRefusal(id, address, token)))
    {
      OnwardReflexive(groups, frozen);
      if EditRefusal(id, token).Some? { return Refused(EditRefusal(id, token).value); }
      if address == "" { return Refused("invalid-address"); }
      if !InGroup(members, address, id) { return Refused("not-member"); }
      if members[address].admin { return Refused("admin-cannot-be-removed"); }
      RemovalFits(groups, members, consent, frozen, id, address);
      members := members - {address};
      RecomputeStatus(id);
      RebuildCache();
      r := Done;
    }

    /** New percentages; everyone but the admin has to confirm again. */
    method UpdateSplits(id: GroupId, updates: seq<(Address, int)>, token: string, now: int) returns (r: Reply)
      requires Valid()
      modifies this`groups, this`members, this`adminAddressCache
      ensures Valid() && Onward(old(groups), old(frozen), groups, frozen)
      ensures r.Refused? ==>
                groups == old(groups) && members == old(members) && adminAddressCache == old(adminAddressCache)
      ensures r.Done? ==>
                && id in old(groups)
                && ResplitDone(old(members), members, id, EditsOf(updates), old(groups)[id].adminAddress, now)
                && groups == Recomputed(old(groups), members, id)
                && SplitsUpdated(old(members), members, id, updates, old(groups)[id].adminAddress, now)
      ensures r.Done? <==>
                && old(MayEdit(id, token)) && WellFormed(updates)
                && forall k :: 0 <= k < |updates| ==> InGroup(old(members), updates[k].0, id)
      ensures r == Refused("not-member") <==>
                && old(MayEdit(id, token)) && WellFormed(updates)
                && exists k :: 0 <= k < |updates| && !InGroup(old(members), updates[k].0, id)
      ensures r == ReplyOf(old(SplitRefusal(id, updates, token)))
    {
      AcceptedUpdatesInRange(updates);
      NamedAreMembers(members, id, updates);
      OnwardReflexive(groups, frozen);
      if EditRefusal(id, token).Some? { return Refused(EditRefusal(id, token).value); }
      if UpdateRefusal(updates).Some? { return Refused(UpdateRefusal(updates).value); }
      var editByAddress := EditsOf(updates);
      if exists a :: a in editByAddress && !InGroup(members, a, id) { return Refused("not-member"); }
      EditsInRange(updates);
      ghost var members0 := members;
      ResplitRows(id, editByAddress, groups[id].adminAddress, now);
      ResplitIsUpdate(members0, members, id, updates, groups[id].adminAddress, now);
      ResplitFits(groups, members0, consent, frozen, id, editByAddress, now, members);
      SameKeysSameAddresses(groups, members0, members, addressCache);
      RecomputeRouted(id);
      r := Done;
    }

    /** One row update per member of the party. */
    method ResplitRows(id: GroupId, edits: map<Address, int>, admin: Address, now: int)
      modifies this`members
      ensures ResplitDone(old(members), members, id, edits, admin, now)
    {
      ghost var members0 := members;
      var todo := set a | a in members && InGroup(members, a, id);
      while todo != {}
        invariant forall a :: a in todo ==> InGroup(members0, a, id)
        invariant forall a :: ResplitSoFar(members0, members, todo, id, edits, admin, now, a)
      {
        var a :| a in todo;
        assert ResplitSoFar(members0, members, todo, id, edits, admin, now, a);
        ghost var before, left := members, todo;
        members := members[a := Resplit(members[a], a, edits, admin, now)];
        todo := todo - {a};
        forall x ensures ResplitSoFar(members0, members, todo, id, edits, admin, now, x) {
          assert ResplitSoFar(members0, before, left, id, edits, admin, now, x);
        }
      }
      forall x ensures ResplitAt(members0, members, id, edits, admin, now, x) {
        assert ResplitSoFar(members0, members, todo, id, edits, admin, now, x);
      }
    }

    // ----- Confirmations -----

    /** Forgets a member's confirmation and token, whatever state the party is in. */
    method ResetMemberOnboarding(id: GroupId, address: Address, now: int) returns (r: Reply)
      requires Valid()
      modifies this`groups, this`members, this`adminAddressCache
      ensures Valid() && Onward(old(groups), old(frozen), groups, frozen)
      ensures r == if address == "" then Refused("invalid-address") else Done
      ensures if address != "" && InGroup(old(members), address, id)
              then members ==
                     old(members)[address := old(members)[address].(memberTokenHash := None, confirmedAt := None)]
                   && groups == Recomputed(old(groups), members, id)
              else groups == old(groups) && members == old(members)
    {
      OnwardReflexive(groups, frozen);
      if address == "" { return Refused("invalid-address"); }
      if !InGroup(members, address, id) { return Done; }
      var member := members[address];
      if member.memberTokenHash == None && member.confirmedAt == None {
        assert member == member.(memberTokenHash := None, confirmedAt := None);
        assert members[address := member] == members;
        UnchangedIsRecomputed(groups, members, id);
        return Done;
      }
      ghost var members0 := members;
      var member' := member.(memberTokenHash := None, confirmedAt := None);
      ConfirmationFits(groups, members, consent, frozen, address, member', consent);
      members := members[address := member'];
      SameKeysSameAddresses(groups, members0, members, addressCache);
      RecomputeRouted(id);
      r := Done;
    }

    /** Accepting an invitation: mints a member token when there is none, and confirms. */
    method MarkMemberConfirmed(id: GroupId, address: Address, freshToken: string, now: int)
        returns (r: Reply, memberToken: Option<string>)
      requires Valid()
      modifies this`groups, this`members, this`adminAddressCache, this`consent
      ensures Valid() && Onward(old(groups), old(frozen), groups, frozen)
      ensures r == if address == "" then Refused("invalid-address")
                   else if !InGroup(old(members), address, id) then Refused("not-member") else Done
      ensures r.Refused? ==> groups == old(groups) && members == old(members) && consent == old(consent)
      ensures r.Done? ==>
                var m := old(members)[address];
                var tokenHash := if m.memberTokenHash.None? then Some(hashToken(freshToken)) else m.memberTokenHash;
                && memberToken == (if m.memberTokenHash.None? then Some(freshToken) else None)
                && members == old(members)[address := m.(memberTokenHash := tokenHash,
                        confirmedAt := if m.confirmedAt.None? then Some(now) else m.confirmedAt)]
                && groups == Recomputed(old(groups), members, id)
                && consent == if m.confirmedAt.None? then old(consent)[address := m.percentBp] else old(consent)
    {
      memberToken := None;
      OnwardReflexive(groups, frozen);
      if address == "" { return Refused("invalid-address"), None; }
      if !InGroup(members, address, id) { return Refused("not-member"), None; }
      var member := members[address];
      if member.memberTokenHash == None {
        memberToken := Some(freshToken);
        member := member.(memberTokenHash := Some(hashToken(freshToken)));
      }
      ghost var consent' := if member.confirmedAt.None? then consent[address := member.percentBp] else consent;
      if member.confirmedAt == None {
        member := member.(confirmedAt := Some(now));
      }
      ghost var members0 := members;
      ConfirmationFits(groups, members, consent, frozen, address, member, consent');
      consent := consent';
      members := members[address := member];
      SameKeysSameAddresses(groups, members0, members, addressCache);
      RecomputeRouted(id);
      r := Done;
    }

    method ConfirmAsMember(id: GroupId, address: Address, token: string, now: int) returns (r: Reply)
      requires Valid()
      modifies this`groups, this`members, this`adminAddressCache, this`consent
      ensures Valid() && Onward(old(groups), old(frozen), groups, frozen)
      ensures r == ReplyOf(old(MemberRefusal(id, address, token)))
      ensures r.Refused? || old(members)[address].confirmedAt.Some? ==>
                groups == old(groups) && members == old(members) && consent == old(consent)
      ensures r.Done? && old(members)[address].confirmedAt.None? ==>
                var m := old(members)[address];
                && members == old(members)[address := m.(confirmedAt := Some(now))]
                && groups == Recomputed(old(groups), members, id)
                && consent == old(consent)[address := m.percentBp]
    {
      OnwardReflexive(groups, frozen);
      if MemberRefusal(id, address, token).Some? { return Refused(MemberRefusal(id, address, token).value); }
      var member := members[address];
      if member.confirmedAt != None { return Done; }
      var member' := member.(confirmedAt := Some(now));
      ghost var members0 := members;
      ConfirmationFits(groups, members, consent, frozen, address, member', consent[address := member.percentBp]);
      consent := consent[address := member.percentBp];
      members := members[address := member'];
      SameKeysSameAddresses(groups, members0, members, addressCache);
      RecomputeRouted(id);
      r := Done;
    }

    /** The sum of a party's percentages. */
    method SumSplits(id: GroupId) returns (actual: int)
      ensures actual == MapTotal(Splits(members, id))
    {
      actual := 0;
      var splits := Splits(members, id);
      var left := splits;
      while left != map[]
        invariant actual + MapTotal(left) == MapTotal(splits)
        decreases |left|
      {
        var a :| a in left;
        MapTotalWithout(left, a);
        actual := actual + left[a];
        left := left - {a};
      }
    }

    method TransitionToConfirming(id: GroupId, token: string) returns (r: Reply)
      requires Valid()
      modifies this`groups, this`adminAddressCache
      ensures Valid() && Onward(old(groups), old(frozen), groups, frozen)
      ensures r.Refused? ==> groups == old(groups) && adminAddressCache == old(adminAddressCache)
      ensures r.Done? ==>
                && id in old(groups)
                && var all := forall a :: a in members && members[a].groupId == id ==> members[a].confirmedAt != None;
                groups == if old(groups)[id].status.Draft?
                          then old(groups)[id := old(groups)[id].(status := if all then Ready else Confirming)]
                          else old(groups)
      ensures r == ReplyOf(old(TransitionRefusal(id, token)))
    {
      OnwardReflexive(groups, frozen);
      if AdminRefusal(id, token).Some? { return Refused(AdminRefusal(id, token).value); }
      var group := groups[id];
      if group.status == Active || group.status == Dissolved { return Refused("invalid-state"); }
      var actual := SumSplits(id);
      if actual != TOTAL_PERCENT_BP { return Refused("invalid-splits-sum"); }
      if group.status == Confirming || group.status == Ready { return Done; }
      var group' := group.(status := Confirming);
      TargetIs(groups, members, id);
      ghost var groups0 := groups;
      StartConfirming(groups, members, consent, frozen, id, group');
      SetGroupRoutes(groups, id, group', adminAddressCache);
      SetGroupAddresses(groups, id, group', members, addressCache);
      groups := groups[id := group'];
      ghost var groups1 := groups;
      RecomputeRouted(id);
      OnwardTransitive(groups0, frozen, groups1, frozen, groups, frozen);
      r := Done;
    }

    // ----- Work and dissolution -----

    /** An active party can be dissolved only after seven days without a share. */
    method DissolveGroup(id: GroupId, token: string, now: int) returns (r: Reply)
      requires Valid()
      modifies this`groups, this`addressCache, this`adminAddressCache
      ensures Valid() && Onward(old(groups), old(frozen), groups, frozen)
      ensures r.Refused? ==>
                && groups == old(groups)
                && addressCache == old(addressCache) && adminAddressCache == old(adminAddressCache)
      ensures r == ReplyOf(old(DissolveRefusal(id, token, now)))
      ensures r.Done? ==>
                && id in old(groups)
                && groups == if old(groups)[id].status.Dissolved? then old(groups)
                             else old(groups)[id := old(groups)[id].(status := Dissolved, dissolvedAt := Some(now))]
    {
      OnwardReflexive(groups, frozen);
      if AdminRefusal(id, token).Some? { return Refused(AdminRefusal(id, token).value); }
      var group := groups[id];
      if group.status == Dissolved { return Done; }
      assert FreezeFits(groups, members, frozen, id);
      if group.status == Active {
        var last := if group.lastShareAt.Some? then group.lastShareAt.value else 0;
        var elapsed := now - last;
        if elapsed < DISSOLVE_COOLDOWN_MS { return Refused("dissolve-cooldown"); }
      }
      DissolveFits(groups, members, consent, frozen, id, now);
      groups := groups[id := group.(status := Dissolved, dissolvedAt := Some(now))];
      RebuildCache();
      r := Done;
    }

    /** A share of an admin: the first one on a ready party makes it active. */
    method OnShareAccepted(adminAddress: Address, now: int)
      requires Valid()
      modifies this`groups, this`adminAddressCache, this`frozen
      ensures Valid() && Onward(old(groups), old(frozen), groups, frozen)
      ensures forall id :: (adminAddress != "" && LiveAdmin(old(groups), id, adminAddress)) ==>
                && groups == old(groups)[id := Activated(old(groups)[id], now)]
                && frozen == FrozenAfter(old(frozen), members, consent, id, old(groups)[id])
      ensures (adminAddress == "" || forall id :: !LiveAdmin(old(groups), id, adminAddress)) ==>
                groups == old(groups) && frozen == old(frozen) && adminAddressCache == old(adminAddressCache)
    {
      OnwardReflexive(groups, frozen);
      LiveAdminIsCached(groups, adminAddressCache, adminAddress);
      if adminAddress == "" || adminAddress !in adminAddressCache { return; }
      var id := adminAddressCache[adminAddress].groupId;
      if id !in groups || groups[id].status == Dissolved { return; }
      var group := groups[id];
      var shouldActivate := group.status == Ready;
      var group' := group.(lastShareAt := Some(now));
      if shouldActivate {
        group' := group'.(status := Active);
      }
      assert group' == Activated(group, now);
      ShareFits(groups, members, consent, frozen, id, now);
      SetGroupRoutes(groups, id, group', adminAddressCache);
      SetGroupAddresses(groups, id, group', members, addressCache);
      frozen := FrozenAfter(frozen, members, consent, id, group);
      groups := groups[id := group'];
      adminAddressCache := adminAddressCache[adminAddress := CacheEntry(id, group'.status)];
    }
  }

  ghost predicate LiveAdmin(groups: Groups, id: GroupId, a: Address) {
    id in groups && groups[id].adminAddress == a && !groups[id].status.Dissolved?
  }

  lemma LiveAdminIsCached(groups: Groups, cache: AdminCache, a: Address)
    requires RoutingAgrees(groups, cache)
    ensures a in cache ==> LiveAdmin(groups, cache[a].groupId, a)
    ensures forall id :: LiveAdmin(groups, id, a) ==> a in cache && cache[a].groupId == id
  {
    assert CachedIsLive(groups, cache, a);
    forall id | LiveAdmin(groups, id, a) ensures a in cache && cache[a].groupId == id {
      assert LiveIsCached(groups, cache, id);
    }
  }

  ghost predicate ResplitSoFar(members: Members, members': Members, todo: set<Address>, id: GroupId,
                               edits: map<Address, int>, admin: Address, now: int, a: Address)
  {
    if a in todo then a in members && a in members' && members'[a] == members[a]
    else ResplitAt(members, members', id, edits, admin, now, a)
  }

  /** Nothing to recompute where nothing changed. */
  lemma UnchangedIsRecomputed(groups: Groups, members: Members, id: GroupId)
    requires StatusesFit(groups, members)
    ensures Recomputed(groups, members, id) == groups
  {
    assert PartyFits(groups, members, id);
    if Computed(groups, id) {
      assert groups[id].(status := Target(members, id)) == groups[id];
    }
  }

  lemma TargetIs(groups: Groups, members: Members, id: GroupId)
    requires Rooted(groups, members) && id in groups
    ensures Target(members, id) ==
              if forall a :: a in members && members[a].groupId == id ==> members[a].confirmedAt != None
              then Ready else Confirming
  {
    assert HasAdmin(groups, members, id);
  }

  lemma StartConfirming(groups: Groups, members: Members, consent: Consent, frozen: Frozen, id: GroupId, g: Group)
    requires TablesFit(groups, members, consent, frozen) && id in groups && groups[id].status.Draft?
    requires g == groups[id].(status := Confirming)
    ensures Due(groups[id := g], members, consent, frozen, id) && Onward(groups, frozen, groups[id := g], frozen)
  {
    SetGroupKeepsRoots(groups, members, id, g);
    SetGroupKeepsStatuses(groups, members, id, g);
    SetEditableKeepsFreezes(groups, members, frozen, id, g);
    SetGroupOnward(groups, id, g, frozen);
  }
}

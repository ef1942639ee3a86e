/** When each Blockparty operation is accepted, and what statuses mean, from arguments and tables alone. */
module BlockpartyRules {
  import opened Options
  import opened Sums
  import opened CoinbaseSplit
  import opened BlockpartyTables
  import opened BlockpartyEdits
  import opened BlockpartyService

  /** The token is the party's admin token. */
  ghost predicate OwnsToken(s: BlockpartyService, id: GroupId, token: string)
    reads s
  {
    token != "" && id in s.groups && s.hashToken(token) == s.groups[id].adminTokenHash
  }

  lemma AdminTokenNeeded(s: BlockpartyService, id: GroupId, token: string)
    ensures s.AdminRefusal(id, token) == None <==> OwnsToken(s, id, token)
    ensures s.EditRefusal(id, token) == None <==>
              OwnsToken(s, id, token) && s.groups[id].status != Active && s.groups[id].status != Dissolved
  {
  }

  /** A party can be edited until it is active, routed from ready to dissolved, and pays the pool before. */
  lemma StatusKinds(s: Status)
    ensures Editable(s) <==> s == Draft || s == Confirming || s == Ready
    ensures Routable(s) <==> s == Ready || s == Active
    ensures Pending(s) <==> s == Draft || s == Confirming
  {
  }

  lemma NameRule(name: string)
    ensures NameAccepted(name) <==>
              3 <= |name| <= 64 && forall k :: 0 <= k < |name| ==> ' ' <= name[k] && name[k] != '\U{7f}'
  {
  }

  /** A party is created exactly for a good name, address, mail and share, none of them taken. */
  lemma CreatedWhen(s: BlockpartyService, name: string, admin: Address, emailOk: bool, bp: int, inPplnsGroup: bool)
    ensures s.CreateRefusal(name, admin, emailOk, bp, inPplnsGroup) == None <==>
              && NameAccepted(name) && admin != "" && emailOk && 100 <= bp <= 10000
              && (forall i :: i in s.groups ==> s.groups[i].name != name && s.groups[i].adminAddress != admin)
              && admin !in s.members && !inPplnsGroup
  {
  }

  /** A member is added exactly by the admin of an editable party, with a free address and a verified mail. */
  lemma AddedWhen(s: BlockpartyService, id: GroupId, a: Address, bp: int, inPplnsGroup: bool, verified: bool,
                  token: string)
    ensures s.AddRefusal(id, a, bp, inPplnsGroup, verified, token) == None <==>
              && OwnsToken(s, id, token) && s.groups[id].status != Active && s.groups[id].status != Dissolved
              && a != "" && a != s.groups[id].adminAddress && 100 <= bp <= 10000
              && a !in s.members && !inPplnsGroup && verified
  {
  }

  /** Why a member is refused who passes the checks before: the admin's address first, then one already placed. */
  lemma AddRefusedWhy(s: BlockpartyService, id: GroupId, a: Address, bp: int, inPplnsGroup: bool, verified: bool,
                      token: string)
    ensures var may := OwnsToken(s, id, token) && s.groups[id].status != Active && s.groups[id].status != Dissolved
              && a != "";
            var r := s.AddRefusal(id, a, bp, inPplnsGroup, verified, token);
            var admin := may && a == s.groups[id].adminAddress;
            var good := may && !admin && 100 <= bp <= 10000;
            && (r == Some("admin-cannot-rejoin") <==> admin)
            && (r == Some("invalid-percent") <==> may && !admin && !good)
            && (r == Some("address-in-blockparty") <==> good && a in s.members)
            && (r == Some("address-in-pplns-group") <==> good && a !in s.members && inPplnsGroup)
            && (r == Some("email-not-verified") <==> good && a !in s.members && !inPplnsGroup && !verified)
  {
  }

  /** A member is removed exactly by the admin of an editable party, and never the admin. */
  lemma RemovedWhen(s: BlockpartyService, id: GroupId, a: Address, token: string)
    ensures s.RemoveRefusal(id, a, token) == None <==>
              && OwnsToken(s, id, token) && s.groups[id].status != Active && s.groups[id].status != Dissolved
              && a != "" && a in s.members && s.members[a].groupId == id && !s.members[a].admin
  {
  }

  /** A member confirms exactly with the token that was minted for that member. */
  lemma ConfirmedWhen(s: BlockpartyService, id: GroupId, a: Address, token: string)
    ensures s.MemberRefusal(id, a, token) == None <==>
              && token != "" && a in s.members && s.members[a].groupId == id
              && s.members[a].memberTokenHash == Some(s.hashToken(token))
  {
  }

  /** The transition needs the admin, a party that is neither active nor dissolved, and splits of exactly 100 %. */
  lemma TransitionedWhen(s: BlockpartyService, id: GroupId, token: string)
    ensures s.TransitionRefusal(id, token) == None <==>
              && OwnsToken(s, id, token) && s.groups[id].status != Active && s.groups[id].status != Dissolved
              && MapTotal(Splits(s.members, id)) == 10000
  {
  }

  /** A party is dissolved exactly by its admin, and an active one not within seven days of its last share. */
  lemma DissolvedWhen(s: BlockpartyService, id: GroupId, token: string, now: int)
    ensures s.DissolveRefusal(id, token, now) == None <==>
              && OwnsToken(s, id, token)
              && (s.groups[id].status == Active ==>
                  now >= 604800000 + if s.groups[id].lastShareAt.Some? then s.groups[id].lastShareAt.value else 0)
  {
  }

  /** The splits are the percentages of exactly the party's members. */
  lemma SplitsAreShares(members: Members, id: GroupId, a: Address)
    ensures a in Splits(members, id) <==> a in members && members[a].groupId == id
    ensures a in Splits(members, id) ==> Splits(members, id)[a] == members[a].percentBp
  {
  }

  /** Recomputing turns a confirming or ready party ready exactly if everyone confirmed, and changes nothing else. */
  lemma RecomputedStatus(groups: Groups, members: Members, id: GroupId, i: GroupId)
    requires i in groups && HasAdmin(groups, members, i)
    ensures i in Recomputed(groups, members, id)
    ensures var g, g' := groups[i], Recomputed(groups, members, id)[i];
            && g' == g.(status := g'.status)
            && (i != id || g.status == Draft || g.status == Active || g.status == Dissolved ==> g'.status == g.status)
            && (i == id && (g.status == Confirming || g.status == Ready) ==>
                  (g'.status == Ready || g'.status == Confirming)
                  && (g'.status == Ready <==>
                        forall a :: a in members && members[a].groupId == id ==> members[a].confirmedAt != None))
  {
    assert InGroup(members, groups[i].adminAddress, i);
  }

  /** A share dates the party, and makes a ready one active with its splits and consents on record. */
  lemma ActivatedByShare(frozen: Frozen, members: Members, consent: Consent, id: GroupId, g: Group, now: int)
    ensures var g', frozen' := Activated(g, now), FrozenAfter(frozen, members, consent, id, g);
            && g'.lastShareAt == Some(now)
            && g'.(lastShareAt := g.lastShareAt, status := g.status) == g
            && g'.status == (if g.status == Ready then Active else g.status)
            && (g.status == Ready ==> id in frozen' && frozen'[id] == Freeze(Splits(members, id), consent))
            && (forall i :: (i in frozen' <==> i in frozen || (i == id && g.status == Ready))
                            && (i in frozen && !(i == id && g.status == Ready) ==> frozen'[i] == frozen[i]))
  {
  }
}

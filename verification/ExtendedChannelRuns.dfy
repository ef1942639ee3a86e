/**
 * Runs on one SV2 channel, with the pool's jobs and clients' own jobs under ids of two counters that
 * both start at 1.
 */
module ExtendedChannelRuns {
  import opened Options
  import opened ExtendedJobs
  import opened ExtendedChannel

  const MAX_CUSTOM_JOB_ID: int := 0xFFFF_FFFF

  /** How many ids others draw from the counter before. */
  datatype Op =
    | Retarget(difficulty: real)
    | Send(skipped: nat)
    | Custom(skipped: nat)
    | Clear(clearExtendedJobs: bool)
    | Cleanup

  /** `nextCustomJobId` after one draw. */
  function NextCustomId(id: int): int { if id >= MAX_CUSTOM_JOB_ID then 1 else id + 1 }

  function AfterDraws(id: int, n: nat): int {
    if n == 0 then id else NextCustomId(AfterDraws(id, n - 1))
  }

  lemma {:induction false} AfterDrawsCounts(id: int, n: nat)
    requires id + n <= MAX_CUSTOM_JOB_ID
    ensures AfterDraws(id, n) == id + n
  {
    if n != 0 {
      AfterDrawsCounts(id, n - 1);
    }
  }

  /** The counter runs from 1 to 0xFFFFFFFF and around. */
  lemma {:induction false} AfterDrawsWraps(id: int, n: nat)
    requires 1 <= id <= 0xFFFF_FFFF
    ensures AfterDraws(id, n) == (id - 1 + n) % 0xFFFF_FFFF + 1
  {
    if n != 0 {
      AfterDrawsWraps(id, n - 1);
    }
  }

  /** What a job was sent at is never rewritten. */
  ghost predicate SentKept(before: map<int, Sent>, after: map<int, Sent>) {
    forall id :: id in before ==> id in after && after[id] == before[id]
  }

  /** A channel's jobs at one time: the pool's ids, the clients' ids, and the table. */
  datatype Moment = Moment(pool: set<int>, customs: set<int>, entries: seq<Entry>, at: int)

  function ClassIn(l: Limits, m: Moment, id: int): Class { ClassOf(l, m.entries, id, m.at) }

  /** Nobody is promoted: what an id's job is at a later time is no earlier stage of its life. */
  ghost predicate Aged(l: Limits, before: Moment, after: Moment, id: int) {
    id in before.pool + before.customs ==> Rank(ClassIn(l, before, id)) <= Rank(ClassIn(l, after, id))
  }

  /** The id is drawn while a job known under it is no longer active. */
  ghost predicate Revives(l: Limits, before: Moment, drawn: Option<int>, id: int) {
    drawn == Some(id) && id in before.pool + before.customs && ClassIn(l, before, id) != Active
  }

  /** Ids go back exactly when they are revived. */
  ghost predicate BackIffRevived(l: Limits, before: Moment, drawn: Option<int>, after: Moment, id: int) {
    !Aged(l, before, after, id) <==> Revives(l, before, drawn, id)
  }

  ghost predicate IdsBelow(ids: set<int>, nextId: int) {
    forall id :: id in ids ==> id < nextId
  }

  lemma {:induction false} BackByTime(l: Limits, before: Moment, after: Moment)
    requires before.at <= after.at && after.entries == before.entries
    ensures forall id :: BackIffRevived(l, before, None, after, id)
  {
    forall id ensures BackIffRevived(l, before, None, after, id) {}
  }

  lemma {:induction false} BackByWriting(l: Limits, before: Moment, id: int, after: Moment)
    requires before.at <= after.at && after.entries == Put(before.entries, Entry(id, after.at, None))
    ensures forall i :: BackIffRevived(l, before, Some(id), after, i)
  {
    var drawn := Some(id);
    forall i ensures BackIffRevived(l, before, drawn, after, i) {
      FindPut(before.entries, Entry(id, after.at, None), i);
    }
  }

  lemma {:induction false} BackByRetiring(l: Limits, before: Moment, after: Moment)
    requires before.at <= after.at && after.entries == RetiredAll(before.entries, after.at)
    ensures forall id :: BackIffRevived(l, before, None, after, id)
  {
    forall id ensures BackIffRevived(l, before, None, after, id) { FindRetired(before.entries, id, after.at); }
  }

  lemma {:induction false} BackByCleaning(l: Limits, before: Moment, after: Moment)
    requires before.at <= after.at && after.entries == Cleaned(l, before.entries, after.at)
    ensures forall id :: BackIffRevived(l, before, None, after, id)
  {
    forall id ensures BackIffRevived(l, before, None, after, id) {
      FindWithout(before.entries, Doomed(l, Candidates(before.entries), after.at), id);
    }
  }

  ghost function MomentOf(c: Channel): Moment
    reads c
  {
    Moment(c.sent.Keys, c.customs, c.extendedJobs, c.clock)
  }

  /** Which counter an operation draws from, and what it draws. */
  function DrawnBy(op: Op, nextId: int, nextCustom: int): Option<int> {
    match op
    case Send(skipped) => Some(nextId + skipped)
    case Custom(skipped) => Some(AfterDraws(nextCustom, skipped))
    case _ => None
  }

  /** An id is in a set after a step as before, but for the drawn one. */
  ghost predicate IdsGrow(before: Moment, op: Op, drawn: Option<int>, after: Moment) {
    && after.pool == before.pool + (if op.Send? && drawn.Some? then {drawn.value} else {})
    && after.customs == before.customs + (if op.Custom? && drawn.Some? then {drawn.value} else {})
  }

  /** One event at time `now`; other sessions and channels may have drawn ids from the counters before. */
  method Apply(c: Channel, op: Op, now: int, nextId: int, nextCustom: int)
      returns (nextId': int, nextCustom': int, ghost drawn: Option<int>)
    requires c.Valid() && c.clock <= now && IdsBelow(c.sent.Keys, nextId)
    modifies c
    ensures c.Valid() && c.clock == now
    ensures drawn == DrawnBy(op, nextId, nextCustom) && IdsGrow(old(MomentOf(c)), op, drawn, MomentOf(c))
    ensures forall id :: BackIffRevived(c.limits, old(MomentOf(c)), drawn, MomentOf(c), id)
    ensures SentKept(old(c.sent), c.sent) && c.clears == old(c.clears) + (if op.Clear? then 1 else 0)
    ensures IdsBelow(c.sent.Keys, nextId') && nextId' == if op.Send? then drawn.value + 1 else nextId
    ensures nextCustom' == if op.Custom? then NextCustomId(drawn.value) else nextCustom
  {
    nextId', nextCustom', drawn := nextId, nextCustom, None;
    ghost var before := MomentOf(c);
    match op {
      case Retarget(d) =>
        c.SetSessionDifficulty(d);
        c.Tick(now);
        BackByTime(c.limits, before, MomentOf(c));
      case Send(skipped) =>
        var id := nextId + skipped;
        c.SendNewExtendedJob(id, now);
        drawn, nextId' := Some(id), id + 1;
        BackByWriting(c.limits, before, id, MomentOf(c));
      case Custom(skipped) =>
        var id := AfterDraws(nextCustom, skipped);
        c.HandleSetCustomMiningJob(id, now);
        drawn, nextCustom' := Some(id), NextCustomId(id);
        BackByWriting(c.limits, before, id, MomentOf(c));
      case Clear(all) =>
        c.ClearJobs(all, now);
        if all {
          BackByRetiring(c.limits, before, MomentOf(c));
        } else {
          BackByTime(c.limits, before, MomentOf(c));
        }
      case Cleanup =>
        c.CleanupRetiredExtendedJobs(now);
        BackByCleaning(c.limits, before, MomentOf(c));
    }
  }

  ghost predicate NonDecreasing(from: int, clock: seq<int>) {
    (|clock| > 0 ==> from <= clock[0]) && forall i :: 0 < i < |clock| ==> clock[i - 1] <= clock[i]
  }

  /** The block changes in a run. */
  function Clears(ops: seq<Op>): nat {
    if |ops| == 0 then 0 else Clears(ops[..|ops| - 1]) + (if ops[|ops| - 1].Clear? then 1 else 0)
  }

  /** What a run went through: the state before each operation and at the end, and the ids drawn. */
  datatype Trace = Trace(moments: seq<Moment>, drawn: seq<Option<int>>)

  ghost predicate StepAt(l: Limits, t: Trace, n: nat, id: int) {
    n < |t.drawn| && n + 1 < |t.moments| ==> BackIffRevived(l, t.moments[n], t.drawn[n], t.moments[n + 1], id)
  }

  ghost predicate GrowsAt(t: Trace, ops: seq<Op>, n: nat) {
    n < |t.drawn| && n + 1 < |t.moments| && n < |ops| ==> IdsGrow(t.moments[n], ops[n], t.drawn[n], t.moments[n + 1])
  }

  /** Below the wrap of the clients' counter, an id is drawn from each counter once. */
  ghost predicate NewToItsCounter(before: Moment, op: Op, drawn: Option<int>, wraps: bool) {
    && (op.Send? ==> drawn.Some? && drawn.value !in before.pool)
    && (op.Custom? && !wraps ==> drawn.Some? && drawn.value !in before.customs)
  }

  ghost predicate NewAt(t: Trace, ops: seq<Op>, wraps: bool, n: nat) {
    n < |t.drawn| && n < |t.moments| && n < |ops| ==> NewToItsCounter(t.moments[n], ops[n], t.drawn[n], wraps)
  }

  ghost predicate AllNew(t: Trace, ops: seq<Op>, wraps: bool) {
    forall n: nat :: NewAt(t, ops, wraps, n)
  }

  ghost predicate RevivedAt(l: Limits, t: Trace, n: nat, id: int) {
    n < |t.drawn| && n < |t.moments| && Revives(l, t.moments[n], t.drawn[n], id)
  }

  ghost predicate NeverRevived(l: Limits, t: Trace, n: nat, id: int) {
    forall m: nat :: m < n ==> !RevivedAt(l, t, m, id)
  }

  /** An id that is never revived only goes from active to creditable, rejected, unknown. */
  lemma {:induction false} AgedUnlessRevived(l: Limits, t: Trace, ops: seq<Op>, n: nat, id: int)
    requires n < |t.moments| == |t.drawn| + 1 && |t.drawn| == |ops|
    requires (forall m: nat, i :: StepAt(l, t, m, i)) && (forall m: nat :: GrowsAt(t, ops, m))
    requires NeverRevived(l, t, n, id)
    ensures Aged(l, t.moments[0], t.moments[n], id)
    ensures id in t.moments[0].pool + t.moments[0].customs ==> id in t.moments[n].pool + t.moments[n].customs
  {
    if n != 0 {
      AgedUnlessRevived(l, t, ops, n - 1, id);
      assert StepAt(l, t, n - 1, id) && GrowsAt(t, ops, n - 1) && !RevivedAt(l, t, n - 1, id);
    }
  }

  lemma {:induction false} OthersAged(l: Limits, t: Trace, ops: seq<Op>, n: nat)
    requires n < |t.moments| == |t.drawn| + 1 && |t.drawn| == |ops|
    requires (forall m: nat, i :: StepAt(l, t, m, i)) && (forall m: nat :: GrowsAt(t, ops, m))
    ensures forall id :: NeverRevived(l, t, n, id) ==> Aged(l, t.moments[0], t.moments[n], id)
  {
    forall id | NeverRevived(l, t, n, id) ensures Aged(l, t.moments[0], t.moments[n], id) {
      AgedUnlessRevived(l, t, ops, n, id);
    }
  }

  /** A pool id goes back only on a client's draw, a client's id only on the pool's, until the counter wraps. */
  lemma {:induction false} RevivedByTheOther(l: Limits, t: Trace, ops: seq<Op>, wraps: bool, n: nat, id: int)
    requires |t.moments| == |t.drawn| + 1 && |t.drawn| == |ops| && AllNew(t, ops, wraps) && RevivedAt(l, t, n, id)
    ensures ops[n].Send? ==> id in t.moments[n].customs && id !in t.moments[n].pool
    ensures ops[n].Custom? && !wraps ==> id in t.moments[n].pool && id !in t.moments[n].customs
  {
    assert NewAt(t, ops, wraps, n);
  }

  /** The ids drawn from the clients' counter. */
  function CustomDraws(ops: seq<Op>): nat {
    if |ops| == 0 then 0
    else
      var last := ops[|ops| - 1];
      CustomDraws(ops[..|ops| - 1]) + (if last.Custom? then last.skipped + 1 else 0)
  }

  lemma {:induction false} CustomDrawsPrefix(ops: seq<Op>, n: nat)
    requires n <= |ops|
    ensures CustomDraws(ops[..n]) <= CustomDraws(ops)
    decreases |ops|
  {
    if n < |ops| {
      var init := ops[..|ops| - 1];
      CustomDrawsPrefix(init, n);
      assert init[..n] == ops[..n];
    } else {
      assert ops[..n] == ops;
    }
  }

  /** The clients' counter has wrapped before the run, or may do so in it. */
  ghost predicate Wraps(customs: set<int>, ops: seq<Op>, firstCustom: int) {
    !IdsBelow(customs, firstCustom) || firstCustom + CustomDraws(ops) > MAX_CUSTOM_JOB_ID
  }

  /** The state of the clients' counter, as long as it does not wrap. */
  ghost predicate CustomCounter(customs: set<int>, first: int, drawn: nat, next: int) {
    next == first + drawn && IdsBelow(customs, next)
  }

  lemma {:induction false} CustomCounterNext(before: Moment, op: Op, drawn: Option<int>, after: Moment,
                                             first: int, n: nat, next: int, next': int)
    requires CustomCounter(before.customs, first, n, next) && IdsGrow(before, op, drawn, after)
    requires op.Custom? ==> drawn == Some(AfterDraws(next, op.skipped)) && next' == NextCustomId(drawn.value)
    requires !op.Custom? ==> next' == next
    requires op.Custom? ==> first + n + op.skipped + 1 <= MAX_CUSTOM_JOB_ID
    ensures CustomCounter(after.customs, first, n + (if op.Custom? then op.skipped + 1 else 0), next')
    ensures op.Custom? ==> drawn.value !in before.customs
  {
    if op.Custom? {
      AfterDrawsCounts(next, op.skipped);
    }
  }

  lemma {:induction false} TraceGrows(l: Limits, t: Trace, ops: seq<Op>, wraps: bool, d: Option<int>, after: Moment)
    requires |t.moments| == |t.drawn| + 1 && |t.drawn| < |ops|
    requires forall m: nat, i :: StepAt(l, t, m, i)
    requires forall m: nat :: GrowsAt(t, ops, m) && NewAt(t, ops, wraps, m)
    requires var n := |t.drawn|;
             && (forall i :: BackIffRevived(l, t.moments[n], d, after, i))
             && IdsGrow(t.moments[n], ops[n], d, after) && NewToItsCounter(t.moments[n], ops[n], d, wraps)
    ensures var t' := Trace(t.moments + [after], t.drawn + [d]);
            && (forall m: nat, i :: StepAt(l, t', m, i))
            && (forall m: nat :: GrowsAt(t', ops, m) && NewAt(t', ops, wraps, m))
  {
    var n, t' := |t.drawn|, Trace(t.moments + [after], t.drawn + [d]);
    forall m: nat, i ensures StepAt(l, t', m, i) {
      assert StepAt(l, t, m, i) && BackIffRevived(l, t.moments[n], d, after, i);
    }
    forall m: nat ensures GrowsAt(t', ops, m) && NewAt(t', ops, wraps, m) {
      assert GrowsAt(t, ops, m) && NewAt(t, ops, wraps, m);
    }
  }

  /**
   * Over any run with a clock that never goes back: an id's job goes back to active in exactly the
   * steps that revive it, which are draws of the other counter's id until the clients' counter wraps;
   * every other id's jobs go active, creditable, rejected, unknown.
   */
  method Run(c: Channel, ops: seq<Op>, clock: seq<int>, firstId: int, firstCustom: int)
      returns (ghost t: Trace)
    requires c.Valid() && |clock| == |ops| && NonDecreasing(c.clock, clock)
    requires IdsBelow(c.sent.Keys, firstId)
    modifies c
    ensures c.Valid() && c.clock == (if |clock| == 0 then old(c.clock) else clock[|clock| - 1])
    ensures SentKept(old(c.sent), c.sent) && c.clears == old(c.clears) + Clears(ops)
    ensures |t.moments| == |ops| + 1 && |t.drawn| == |ops|
    ensures t.moments[0] == old(MomentOf(c)) && t.moments[|ops|] == MomentOf(c)
    ensures forall n: nat, id :: StepAt(c.limits, t, n, id)
    ensures AllNew(t, ops, Wraps(old(c.customs), ops, firstCustom))
    ensures forall id :: NeverRevived(c.limits, t, |ops|, id) ==> Aged(c.limits, old(MomentOf(c)), MomentOf(c), id)
  {
    t := Trace([MomentOf(c)], []);
    var n, nextId, nextCustom := 0, firstId, firstCustom;
    ghost var wraps := Wraps(c.customs, ops, firstCustom);
    while n < |ops|
      invariant n <= |ops| && c.Valid() && c.clock == (if n == 0 then old(c.clock) else clock[n - 1])
      invariant SentKept(old(c.sent), c.sent) && c.clears == old(c.clears) + Clears(ops[..n])
      invariant IdsBelow(c.sent.Keys, nextId)
      invariant wraps || CustomCounter(c.customs, firstCustom, CustomDraws(ops[..n]), nextCustom)
      invariant |t.moments| == n + 1 && |t.drawn| == n
      invariant t.moments[0] == old(MomentOf(c)) && t.moments[n] == MomentOf(c)
      invariant forall m: nat, id :: StepAt(c.limits, t, m, id)
      invariant forall m: nat :: GrowsAt(t, ops, m) && NewAt(t, ops, wraps, m)
    {
      ghost var before, next := MomentOf(c), nextCustom;
      ghost var drawn;
      nextId, nextCustom, drawn := Apply(c, ops[n], clock[n], nextId, nextCustom);
      assert ops[..n + 1][..n] == ops[..n];
      if !wraps {
        CustomDrawsPrefix(ops, n + 1);
        CustomCounterNext(before, ops[n], drawn, MomentOf(c), firstCustom, CustomDraws(ops[..n]), next, nextCustom);
      }
      TraceGrows(c.limits, t, ops, wraps, drawn, MomentOf(c));
      t := Trace(t.moments + [MomentOf(c)], t.drawn + [drawn]);
      n := n + 1;
    }
    assert ops[..n] == ops;
    OthersAged(c.limits, t, ops, n);
  }

  // ----- Colliding ids -----

  /** The pool's first job, rejected after a block change, is active again once the client draws its first id. */
  method RejectedJobIsActiveAgain(limits: Limits) returns (c: Channel, was: Class)
    requires limits.graceMs >= 0
    ensures c.Valid() && c.limits == limits && was == StaleRejected
    ensures 1 in c.sent && 1 in c.customs && c.ClassAt(1, c.clock) == Active
  {
    c := new Channel(limits, 1000.0, 0);
    c.SendNewExtendedJob(1, 0);
    FindPut([], Entry(1, 0, None), 1);
    FindRetired(c.extendedJobs, 1, 1);
    c.ClearJobs(true, 1);
    var later := limits.graceMs + 2;
    was := c.ClassAt(1, later);
    FindPut(c.extendedJobs, Entry(1, later, None), 1);
    c.HandleSetCustomMiningJob(1, later);
  }

  /** A client's job under the id of a pool job of the same block is checked at that job's difficulty. */
  method CustomJobAtPoolDifficulty(limits: Limits) returns (c: Channel)
    ensures c.Valid() && 1 in c.customs && c.sessionDifficulty == 8000.0 && c.DifficultyFor(1) == 1000.0
  {
    c := new Channel(limits, 1000.0, 0);
    c.SendNewExtendedJob(1, 0);
    c.SetSessionDifficulty(8000.0);
    c.HandleSetCustomMiningJob(1, 5);
    c.CheckedAtSendDifficulty(1);
  }
}

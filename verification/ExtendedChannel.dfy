/** One SV2 channel: its session difficulty, the difficulties jobs were sent at, and its extended jobs. */
module ExtendedChannel {
  import opened Options
  import opened ExtendedJobs

  /** A job's send-time difficulty, and how many block changes had been seen by then. */
  datatype Sent = Sent(difficulty: real, clears: nat)

  /** The table has the jobs sent since the last block change, at the difficulties they were sent at. */
  ghost predicate DifficultyFits(table: map<int, real>, sent: map<int, Sent>, clears: nat, id: int) {
    && (id in sent ==> sent[id].clears <= clears)
    && (id in table <==> id in sent && sent[id].clears == clears)
    && (id in table && id in sent ==> table[id] == sent[id].difficulty)
  }

  ghost predicate DifficultiesFit(table: map<int, real>, sent: map<int, Sent>, clears: nat) {
    forall id :: DifficultyFits(table, sent, clears, id)
  }

  lemma DifficultySent(table: map<int, real>, sent: map<int, Sent>, clears: nat, id: int, d: real)
    requires DifficultiesFit(table, sent, clears)
    ensures DifficultiesFit(table[id := d], sent[id := Sent(d, clears)], clears)
  {
    var table', sent' := table[id := d], sent[id := Sent(d, clears)];
    forall i ensures DifficultyFits(table', sent', clears, i) { assert DifficultyFits(table, sent, clears, i); }
  }

  lemma DifficultiesCleared(table: map<int, real>, sent: map<int, Sent>, clears: nat)
    requires DifficultiesFit(table, sent, clears)
    ensures DifficultiesFit(map[], sent, clears + 1)
  {
    var empty: map<int, real>, next := map[], clears + 1;
    forall i ensures DifficultyFits(empty, sent, next, i) { assert DifficultyFits(table, sent, clears, i); }
  }

  lemma CleanedUnique(l: Limits, entries: seq<Entry>, now: int)
    requires UniqueIds(entries)
    ensures UniqueIds(Cleaned(l, entries, now))
  {
    WithoutUnique(entries, Doomed(l, Candidates(entries), now));
  }

  lemma KeptOrExpired(l: Limits, entries: seq<Entry>, now: int, id: int)
    requires UniqueIds(entries)
    ensures Find(Cleaned(l, entries, now), id) == Find(entries, id)
         || (Find(Cleaned(l, entries, now), id) == None && Find(entries, id).Some?
             && Expired(l, Find(entries, id).value, now))
  {
    FindSound(entries, id);
    if Find(entries, id).Some? && !Expired(l, Find(entries, id).value, now) {
      OnlyExpiredAreDeleted(l, entries, now, Find(entries, id).value);
    } else {
      FindWithout(entries, Doomed(l, Candidates(entries), now), id);
    }
  }

  class Channel {
    const limits: Limits
    var sessionDifficulty: real
    var jobIdToDifficulty: map<int, real>
    var extendedJobs: seq<Entry>          // a Map in insertion order
    ghost var sent: map<int, Sent>
    ghost var customs: set<int>           // ids drawn for clients' own jobs
    ghost var clears: nat                 // block changes so far
    ghost var history: map<int, Entry>    // every job ever sent, with its timestamps
    ghost var clock: int                  // the latest time seen

    /** A job is either in the table as history has it, or was old enough to be deleted. */
    ghost predicate JobFits(id: int)
      reads this
    {
      var f := Find(extendedJobs, id);
      && (f.Some? ==> id in history && history[id] == f.value)
      && (id in history && f.None? ==> Expired(limits, history[id], clock))
      && (id in history ==>
            history[id].jobId == id && (history[id].retiredAt.Some? ==> history[id].retiredAt.value <= clock))
    }

    ghost predicate Valid()
      reads this
    {
      UniqueIds(extendedJobs) && history.Keys == sent.Keys + customs && DifficultiesFit(jobIdToDifficulty, sent, clears)
        && forall id :: JobFits(id)
    }

    function ClassAt(id: int, now: int): Class
      reads this
    {
      ClassOf(limits, extendedJobs, id, now)
    }

    function DifficultyFor(id: int): real
      reads this
    {
      if id in jobIdToDifficulty then jobIdToDifficulty[id] else sessionDifficulty
    }

    constructor (limits: Limits, sessionDifficulty: real, now: int)
      ensures Valid() && this.limits == limits && this.sessionDifficulty == sessionDifficulty
      ensures history == map[] && clock == now && extendedJobs == [] && clears == 0 && sent == map[] && customs == {}
    {
      this.limits, this.sessionDifficulty := limits, sessionDifficulty;
      jobIdToDifficulty, extendedJobs := map[], [];
      sent, customs, clears, history, clock := map[], {}, 0, map[], now;
    }

    /** A retarget leaves the difficulties of jobs already sent alone. */
    method SetSessionDifficulty(difficulty: real)
      requires Valid()
      modifies this`sessionDifficulty
      ensures Valid() && sessionDifficulty == difficulty
    {
      sessionDifficulty := difficulty;
      forall i ensures JobFits(i) { assert old(JobFits(i)); }
    }

    /** Time passes. */
    ghost method Tick(now: int)
      requires Valid() && clock <= now
      modifies this`clock
      ensures Valid() && clock == now
    {
      clock := now;
      forall i ensures JobFits(i) { assert old(JobFits(i)); }
    }

    /** `extendedJobs.set`: a fresh entry, not retired, whatever stood under its id. */
    method WriteEntry(id: int, now: int)
      requires Valid() && clock <= now
      modifies this`extendedJobs, this`history, this`clock
      ensures UniqueIds(extendedJobs) && (forall i :: JobFits(i)) && clock == now
      ensures extendedJobs == Put(old(extendedJobs), Entry(id, now, None))
      ensures history == old(history)[id := Entry(id, now, None)]
    {
      PutUnique(extendedJobs, Entry(id, now, None));
      extendedJobs := Put(extendedJobs, Entry(id, now, None));
      history := history[id := Entry(id, now, None)];
      clock := now;
      forall i ensures JobFits(i) {
        assert old(JobFits(i));
        FindPut(old(extendedJobs), Entry(id, now, None), i);
      }
    }

    /** Sends a pool job under an id drawn from the counter all sessions share. */
    method SendNewExtendedJob(id: int, now: int)
      requires Valid() && clock <= now
      modifies this
      ensures Valid() && clock == now && sessionDifficulty == old(sessionDifficulty)
      ensures jobIdToDifficulty == old(jobIdToDifficulty)[id := sessionDifficulty]
      ensures sent == old(sent)[id := Sent(sessionDifficulty, clears)] && clears == old(clears)
      ensures extendedJobs == Put(old(extendedJobs), Entry(id, now, None)) && customs == old(customs)
      ensures history == old(history)[id := Entry(id, now, None)]
    {
      WriteEntry(id, now);
      label written:
      DifficultySent(jobIdToDifficulty, sent, clears, id, sessionDifficulty);
      jobIdToDifficulty := jobIdToDifficulty[id := sessionDifficulty];
      sent := sent[id := Sent(sessionDifficulty, clears)];
      forall i ensures JobFits(i) { assert old@written(JobFits(i)); }
    }

    /** Stores a client's own job, under an id from the connection's own counter; no difficulty is recorded. */
    method HandleSetCustomMiningJob(id: int, now: int)
      requires Valid() && clock <= now
      modifies this`extendedJobs, this`history, this`clock, this`customs
      ensures Valid() && clock == now
      ensures extendedJobs == Put(old(extendedJobs), Entry(id, now, None)) && customs == old(customs) + {id}
      ensures history == old(history)[id := Entry(id, now, None)]
    {
      WriteEntry(id, now);
      label written:
      customs := customs + {id};
      forall i ensures JobFits(i) { assert old@written(JobFits(i)); }
    }

    /** A block change: every job is stamped, every sent difficulty forgotten. */
    method ClearJobs(clearExtendedJobs: bool, now: int)
      requires Valid() && clock <= now
      modifies this
      ensures Valid() && clock == now && sessionDifficulty == old(sessionDifficulty)
      ensures jobIdToDifficulty == map[] && sent == old(sent) && clears == old(clears) + 1 && customs == old(customs)
      ensures extendedJobs == if clearExtendedJobs then RetiredAll(old(extendedJobs), now) else old(extendedJobs)
      ensures history.Keys == old(history).Keys
      ensures forall i :: i in history ==>
                var was := old(history)[i];
                history[i] == if clearExtendedJobs && Find(old(extendedJobs), i).Some? && was.retiredAt.None?
                              then was.(retiredAt := Some(now)) else was
    {
      if clearExtendedJobs {
        history := map i | i in history :: if Find(extendedJobs, i).Some? then Retired(history[i], now) else history[i];
        RetireJobs(now);
      }
      DifficultiesCleared(jobIdToDifficulty, sent, clears);
      jobIdToDifficulty, clears, clock := map[], clears + 1, now;
      forall i ensures JobFits(i) {
        assert old(JobFits(i));
        FindRetired(old(extendedJobs), i, now);
      }
    }

    /** `if (ej.retiredAt === undefined) ej.retiredAt = retireAt` for every job. */
    method RetireJobs(now: int)
      modifies this`extendedJobs
      ensures extendedJobs == RetiredAll(old(extendedJobs), now)
    {
      var n := 0;
      ghost var before := extendedJobs;
      while n < |extendedJobs|
        invariant n <= |extendedJobs| == |before|
        invariant forall k :: 0 <= k < n ==> extendedJobs[k] == Retired(before[k], now)
        invariant forall k :: n <= k < |before| ==> extendedJobs[k] == before[k]
        modifies this`extendedJobs
      {
        if extendedJobs[n].retiredAt == None {
          extendedJobs := extendedJobs[n := extendedJobs[n].(retiredAt := Some(now))];
        }
        n := n + 1;
      }
      assert extendedJobs == RetiredAll(before, now);
    }

    method CleanupRetiredExtendedJobs(now: int)
      requires Valid() && clock <= now
      modifies this
      ensures Valid() && clock == now && sessionDifficulty == old(sessionDifficulty)
      ensures extendedJobs == Cleaned(limits, old(extendedJobs), now)
      ensures history == old(history) && jobIdToDifficulty == old(jobIdToDifficulty) && sent == old(sent)
                && clears == old(clears) && customs == old(customs)
    {
      DeleteExpired(now);
      clock := now;
      CleanedUnique(limits, old(extendedJobs), now);
      forall i ensures JobFits(i) {
        assert old(JobFits(i));
        KeptOrExpired(limits, old(extendedJobs), now, i);
      }
    }

    /** The loop over the candidates, deleting from the Map. */
    method DeleteExpired(now: int)
      modifies this`extendedJobs
      ensures extendedJobs == Cleaned(limits, old(extendedJobs), now)
    {
      WithoutNothing(extendedJobs);
      if |extendedJobs| <= MIN_RETAINED { return; }
      CandidatesAreEntries(extendedJobs);
      ghost var before := extendedJobs;
      var candidates := NewestFirst(extendedJobs)[MIN_RETAINED..];
      var n := 0;
      while n < |candidates|
        invariant n <= |candidates|
        invariant extendedJobs == Without(before, Doomed(limits, candidates[..n], now))
      {
        DoomedNext(limits, candidates, n, now);
        WithoutMore(before, Doomed(limits, candidates[..n], now), candidates[n].jobId);
        if Expired(limits, candidates[n], now) {
          extendedJobs := Without(extendedJobs, {candidates[n].jobId});
        }
        n := n + 1;
      }
      assert candidates[..n] == candidates;
    }

    /**
     * A share on an id is checked at the difficulty the pool's job of that id was sent at, if that was
     * since the last block change, and at the session's otherwise: whosever job the id now names.
     */
    lemma CheckedAtSendDifficulty(id: int)
      requires Valid()
      ensures DifficultyFor(id) ==
                if id in sent && sent[id].clears == clears then sent[id].difficulty else sessionDifficulty
      ensures id in customs && id !in sent ==> DifficultyFor(id) == sessionDifficulty
    {
      assert DifficultyFits(jobIdToDifficulty, sent, clears, id);
    }

    /** Younger than twice the retention and still within the grace window, a job is never unknown. */
    lemma NeverUnknownWithinGrace(id: int, now: int)
      requires Valid() && id in history && clock <= now && limits.graceMs <= limits.retentionMs
      requires now - history[id].creation <= 2 * limits.retentionMs
      requires history[id].retiredAt.Some? ==> now - history[id].retiredAt.value <= limits.graceMs
      ensures ClassAt(id, now) == if history[id].retiredAt.Some? then StaleCreditable else Active
    {
      assert JobFits(id);
    }

    /** A retired job, while it is known, is creditable for exactly the grace window. */
    lemma CreditableExactlyWithinGrace(id: int, now: int)
      requires Valid() && ClassAt(id, now) != Unknown
      ensures id in history
      ensures ClassAt(id, now) == StaleCreditable <==>
                history[id].retiredAt.Some? && now <= history[id].retiredAt.value + limits.graceMs
      ensures ClassAt(id, now) == Active <==> history[id].retiredAt.None?
    {
      assert JobFits(id);
    }
  }
}

/** SV1 sessions: at which difficulty a share is checked and credited while the session's difficulty moves. */
module SessionDifficulty {
  import opened Options

  /** A session's difficulty changes are numbered; a job remembers the change it was issued under. */
  datatype Issue = Issue(difficulty: real, change: nat)

  /** `jobId` is None when it does not parse as a number. */
  function EffectiveJobDifficulty(jobId: Option<int>, currentDiff: real, oldDiff: real,
                                  diffChangeJobId: Option<int>): real
  {
    if diffChangeJobId.None? || jobId.None? then currentDiff
    else if jobId.value < diffChangeJobId.value then (if currentDiff < oldDiff then currentDiff else oldDiff)
    else currentDiff
  }

  /** The counter all sessions draw their job ids from. */
  class StratumV1Jobs {
    var latestJobId: int

    constructor ()
      ensures latestJobId == 1
    {
      latestJobId := 1;
    }

    function GetNextId(): int
      reads this
    {
      latestJobId
    }

    method AddJob()
      modifies this
      ensures latestJobId == old(latestJobId) + 1
    {
      latestJobId := latestJobId + 1;
    }
  }

  class Session {
    const jobs: StratumV1Jobs
    const minimumDifficulty: real
    var sessionDifficulty: real
    var oldSessionDifficulty: real
    var diffChangeJobId: Option<int>
    var usedSuggestedDifficulty: bool
    ghost var issued: map<int, Issue>
    ghost var changes: nat

    /** What is known of a job by the number of difficulty changes since it was issued. */
    ghost predicate JobFits(id: int)
      reads this, jobs
    {
      id in issued ==>
        && id < jobs.latestJobId && issued[id].change <= changes
        && (issued[id].change == changes ==>
              issued[id].difficulty == sessionDifficulty && (diffChangeJobId.Some? ==> diffChangeJobId.value <= id))
        && (issued[id].change < changes ==> diffChangeJobId.Some? && id < diffChangeJobId.value)
        && (issued[id].change + 1 == changes ==> issued[id].difficulty == oldSessionDifficulty)
    }

    ghost predicate Valid()
      reads this, jobs
    {
      (diffChangeJobId.Some? ==> diffChangeJobId.value <= jobs.latestJobId) && forall id :: JobFits(id)
    }

    constructor (jobs: StratumV1Jobs, initialDifficulty: real, minimumDifficulty: real)
      ensures Valid() && this.jobs == jobs && issued == map[] && changes == 0 && diffChangeJobId == None
      ensures sessionDifficulty == initialDifficulty && oldSessionDifficulty == initialDifficulty
      ensures this.minimumDifficulty == minimumDifficulty && !usedSuggestedDifficulty
    {
      this.jobs, this.minimumDifficulty := jobs, minimumDifficulty;
      sessionDifficulty, oldSessionDifficulty := initialDifficulty, initialDifficulty;
      diffChangeJobId, usedSuggestedDifficulty := None, false;
      issued, changes := map[], 0;
    }

    /** `cpuminer` starts at 0.1; this happens before the first job. */
    method StartCpuminer()
      requires Valid() && issued == map[]
      modifies this`sessionDifficulty
      ensures Valid() && sessionDifficulty == 0.1
    {
      sessionDifficulty := 0.1;
      forall id ensures JobFits(id) {}
    }

    method SendNewMiningJob() returns (id: int)
      requires Valid()
      modifies this`issued, jobs
      ensures Valid() && id == old(jobs.latestJobId) && jobs.latestJobId == id + 1 && id !in old(issued)
      ensures issued == old(issued)[id := Issue(sessionDifficulty, changes)]
    {
      id := jobs.GetNextId();
      forall i ensures i in issued ==> i < id { assert JobFits(i); }
      jobs.AddJob();
      issued := issued[id := Issue(sessionDifficulty, changes)];
      forall i ensures JobFits(i) {
        assert old(JobFits(i));
      }
    }

    /** Another session's job. */
    method OtherSessionsJob()
      requires Valid()
      modifies jobs
      ensures Valid() && jobs.latestJobId == old(jobs.latestJobId) + 1
    {
      jobs.AddJob();
      forall i ensures JobFits(i) { assert old(JobFits(i)); }
    }

    /** Moves the boundary to the next job id. */
    method ChangeDifficulty(newDiff: real)
      requires Valid()
      modifies this`sessionDifficulty, this`oldSessionDifficulty, this`diffChangeJobId, this`changes
      ensures Valid() && sessionDifficulty == newDiff
      ensures if newDiff == old(sessionDifficulty) then changes == old(changes)
                && diffChangeJobId == old(diffChangeJobId)
                && oldSessionDifficulty == old(oldSessionDifficulty)
              else changes == old(changes) + 1 && oldSessionDifficulty == old(sessionDifficulty)
                   && diffChangeJobId == Some(jobs.latestJobId)
    {
      if newDiff != sessionDifficulty {
        oldSessionDifficulty := sessionDifficulty;
        diffChangeJobId := Some(jobs.GetNextId());
        changes := changes + 1;
      }
      sessionDifficulty := newDiff;
      forall i ensures JobFits(i) { assert old(JobFits(i)); }
    }

    /** `mining.suggest_difficulty`, honoured once per session and never below the port's floor. */
    method SuggestDifficulty(suggested: real)
      requires Valid()
      modifies this`sessionDifficulty, this`oldSessionDifficulty, this`diffChangeJobId, this`changes,
        this`usedSuggestedDifficulty
      ensures Valid() && usedSuggestedDifficulty
      ensures old(usedSuggestedDifficulty) ==> sessionDifficulty == old(sessionDifficulty) && changes == old(changes)
      ensures !old(usedSuggestedDifficulty) ==>
                sessionDifficulty ==
                  if minimumDifficulty > 0.0 && suggested < minimumDifficulty then minimumDifficulty else suggested
      ensures changes == old(changes) + if sessionDifficulty == old(sessionDifficulty) then 0 else 1
    {
      if usedSuggestedDifficulty { return; }
      var newDiff := if minimumDifficulty > 0.0 && suggested < minimumDifficulty then minimumDifficulty else suggested;
      ChangeDifficulty(newDiff);
      label changed:
      assert Valid();
      usedSuggestedDifficulty := true;
      forall i ensures JobFits(i) { assert old@changed(JobFits(i)); }
    }

    /** A vardiff retarget, followed by a job; `target` is None when there is nothing to suggest. */
    method CheckDifficulty(target: Option<real>)
      requires Valid()
      modifies this`sessionDifficulty, this`oldSessionDifficulty, this`diffChangeJobId, this`changes, this`issued, jobs
      ensures Valid()
      ensures sessionDifficulty == if target.Some? then target.value else old(sessionDifficulty)
      ensures changes == old(changes) + if sessionDifficulty == old(sessionDifficulty) then 0 else 1
      ensures sessionDifficulty == old(sessionDifficulty) ==> issued == old(issued)
      ensures sessionDifficulty != old(sessionDifficulty) ==>
                var id := old(jobs.latestJobId);
                id !in old(issued) && issued == old(issued)[id := Issue(sessionDifficulty, changes)]
    {
      if target == None { return; }
      if target.value != sessionDifficulty {
        forall i ensures i in issued ==> i < jobs.latestJobId { assert JobFits(i); }
        ChangeDifficulty(target.value);
        var id := SendNewMiningJob();
      }
    }

    function CheckedAt(jobId: Option<int>): real
      reads this
    {
      EffectiveJobDifficulty(jobId, sessionDifficulty, oldSessionDifficulty, diffChangeJobId)
    }

    /** One of the last two difficulties is no more than the job's own, or at most one change came since. */
    ghost predicate WithinIssue(id: int)
      requires id in issued
      reads this
    {
      || issued[id].change + 1 >= changes
      || sessionDifficulty <= issued[id].difficulty || oldSessionDifficulty <= issued[id].difficulty
    }

    /**
     * A job is checked at exactly its issue difficulty when nothing changed since, at the lower of the
     * two when one change came since, and at no more than its issue difficulty exactly under `WithinIssue`.
     */
    ghost predicate CheckFits(id: int)
      reads this
    {
      id in issued ==>
        var checked, own := CheckedAt(Some(id)), issued[id].difficulty;
        && (issued[id].change == changes ==> checked == own)
        && (issued[id].change + 1 == changes ==> checked == if sessionDifficulty < own then sessionDifficulty else own)
        && (checked <= own <==> WithinIssue(id))
    }

    lemma CheckedAtMostIssueDifficulty(id: int)
      requires Valid() && id in issued
      ensures CheckFits(id)
      ensures CheckedAt(Some(id)) <= issued[id].difficulty <==>
                || issued[id].change + 1 >= changes
                || sessionDifficulty <= issued[id].difficulty || oldSessionDifficulty <= issued[id].difficulty
    {
      assert JobFits(id);
    }

    /**
     * A share is checked and credited at one and the same difficulty: on a job of this session never
     * more than the job was issued at, exactly under the same condition.
     */
    method HandleSubmission(jobId: Option<int>, meetsTarget: real -> bool) returns (accepted: bool, credited: real)
      requires Valid()
      ensures accepted <==> meetsTarget(CheckedAt(jobId))
      ensures credited == if accepted then CheckedAt(jobId) else 0.0
      ensures accepted ==>
                || credited == sessionDifficulty
                || (credited == oldSessionDifficulty < sessionDifficulty && jobId.Some? && diffChangeJobId.Some?
                    && jobId.value < diffChangeJobId.value)
      ensures accepted && jobId.Some? && diffChangeJobId.Some? && jobId.value < diffChangeJobId.value ==>
                credited <= oldSessionDifficulty
      ensures accepted && jobId.Some? && jobId.value in issued ==>
                var own := issued[jobId.value];
                && (own.change == changes ==> credited == own.difficulty)
                && (own.change + 1 == changes ==> credited <= own.difficulty)
                && (credited <= own.difficulty <==> WithinIssue(jobId.value))
    {
      var effectiveDiff := EffectiveJobDifficulty(jobId, sessionDifficulty, oldSessionDifficulty, diffChangeJobId);
      if jobId.Some? && jobId.value in issued {
        CheckedAtMostIssueDifficulty(jobId.value);
      }
      if !meetsTarget(effectiveDiff) { return false, 0.0; }
      accepted, credited := true, effectiveDiff;
    }
  }

  datatype Op = Job | OtherJob | Suggest(difficulty: real) | Retarget(target: Option<real>)

  /** A job issued during a run, and what it was issued under. */
  datatype Drawn = Drawn(id: int, issue: Issue)

  ghost predicate StillIssued(issued: map<int, Issue>, d: Option<Drawn>) {
    d.Some? ==> d.value.id in issued && issued[d.value.id] == d.value.issue
  }

  ghost predicate KeepsIssued(before: map<int, Issue>, after: map<int, Issue>) {
    forall id :: id in before ==> id in after && after[id] == before[id]
  }

  /** The jobs on record are those of before and the ones drawn. */
  ghost predicate OnlyDrawn(before: map<int, Issue>, after: map<int, Issue>, drawn: seq<Option<Drawn>>) {
    forall id :: id in after ==> id in before || Some(Drawn(id, after[id])) in drawn
  }

  /**
   * Any run on a session, with other sessions drawing ids in between: every job issued before or during
   * the run stays on record as it was issued, and is checked as `CheckFits` says.
   */
  method Run(s: Session, ops: seq<Op>) returns (ghost drawn: seq<Option<Drawn>>)
    requires s.Valid()
    modifies s, s.jobs
    ensures s.Valid()
    ensures forall id :: s.CheckFits(id)
    ensures KeepsIssued(old(s.issued), s.issued) && OnlyDrawn(old(s.issued), s.issued, drawn)
    ensures |drawn| == |ops| && forall k :: 0 <= k < |ops| ==> StillIssued(s.issued, drawn[k])
    ensures forall k :: 0 <= k < |ops| && ops[k].Job? ==> drawn[k].Some?
  {
    var n := 0;
    drawn := [];
    while n < |ops|
      invariant n <= |ops| && s.Valid()
      invariant KeepsIssued(old(s.issued), s.issued) && OnlyDrawn(old(s.issued), s.issued, drawn)
      invariant |drawn| == n && forall k :: 0 <= k < n ==> StillIssued(s.issued, drawn[k])
      invariant forall k :: 0 <= k < n && ops[k].Job? ==> drawn[k].Some?
    {
      ghost var before, id := s.issued, s.jobs.latestJobId;
      match ops[n] {
        case Job => var _ := s.SendNewMiningJob();
        case OtherJob => s.OtherSessionsJob();
        case Suggest(d) => s.SuggestDifficulty(d);
        case Retarget(t) => s.CheckDifficulty(t);
      }
      ghost var d := if s.issued == before then None else Some(Drawn(id, s.issued[id]));
      Records(old(s.issued), before, s.issued, drawn, d);
      drawn := drawn + [d];
      n := n + 1;
    }
    forall id ensures s.CheckFits(id) {
      if id in s.issued { s.CheckedAtMostIssueDifficulty(id); }
    }
  }

  lemma Records(first: map<int, Issue>, before: map<int, Issue>, after: map<int, Issue>, drawn: seq<Option<Drawn>>,
                d: Option<Drawn>)
    requires KeepsIssued(first, before) && OnlyDrawn(first, before, drawn)
    requires forall k :: 0 <= k < |drawn| ==> StillIssued(before, drawn[k])
    requires if d.Some? then d.value.id !in before && after == before[d.value.id := d.value.issue] else after == before
    ensures KeepsIssued(first, after) && OnlyDrawn(first, after, drawn + [d])
    ensures forall k :: 0 <= k <= |drawn| ==> StillIssued(after, (drawn + [d])[k])
  {
    forall id | id in after
      ensures id in first || Some(Drawn(id, after[id])) in drawn + [d]
    {
      if id !in before {
        assert (drawn + [d])[|drawn|] == Some(Drawn(id, after[id]));
      }
    }
  }

  /** Two changes later `WithinIssue` can fail: a job issued at 1000 is checked at 4000. */
  method TwoChangesLater() returns (s: Session, id: int)
    ensures s.Valid() && id in s.issued && s.issued[id].difficulty == 1000.0 && s.issued[id].change + 2 == s.changes
    ensures s.CheckedAt(Some(id)) == 4000.0
  {
    var jobs := new StratumV1Jobs();
    s := new Session(jobs, 1000.0, 0.0);
    id := s.SendNewMiningJob();
    s.CheckDifficulty(Some(4000.0));
    s.ChangeDifficulty(8000.0);
    assert s.JobFits(id);
  }
}

/** SV2 channels: the difficulty a job was sent at, and the life of extended jobs. */
module ExtendedJobs {
  import opened Options
  import opened Sums
  import opened StableSorting

  const MIN_RETAINED: int := 3

  /** A job's timestamps, in milliseconds. */
  datatype Entry = Entry(jobId: int, creation: int, retiredAt: Option<int>)

  datatype Class = Active | StaleCreditable | StaleRejected | Unknown

  /** The environment's settings; both have defaults of 5000 and 600000. */
  datatype Limits = Limits(graceMs: int, retentionMs: int)

  function ClassifyExtendedJobForShare(l: Limits, e: Entry, now: int): Class {
    if e.retiredAt.None? then Active
    else if now - e.retiredAt.value <= l.graceMs then StaleCreditable
    else StaleRejected
  }

  /** Old enough to be deleted, unless among the newest. */
  predicate Expired(l: Limits, e: Entry, now: int) {
    (e.retiredAt.Some? && now - e.retiredAt.value > l.retentionMs) || now - e.creation > l.retentionMs * 2
  }

  function Find(entries: seq<Entry>, jobId: int): Option<Entry> {
    if |entries| == 0 then None
    else if entries[|entries| - 1].jobId == jobId then Some(entries[|entries| - 1])
    else Find(entries[..|entries| - 1], jobId)
  }

  function ClassOf(l: Limits, entries: seq<Entry>, jobId: int, now: int): Class {
    match Find(entries, jobId)
    case None => Unknown
    case Some(e) => ClassifyExtendedJobForShare(l, e, now)
  }

  function Rank(c: Class): nat {
    match c
    case Active => 0
    case StaleCreditable => 1
    case StaleRejected => 2
    case Unknown => 3
  }

  ghost predicate UniqueIds(entries: seq<Entry>) {
    forall i, j :: 0 <= i < j < |entries| ==> entries[i].jobId != entries[j].jobId
  }

  lemma {:induction false} FindAt(entries: seq<Entry>, k: nat)
    requires UniqueIds(entries) && k < |entries|
    ensures Find(entries, entries[k].jobId) == Some(entries[k])
  {
    var n := |entries| - 1;
    if k < n {
      FindAt(entries[..n], k);
    }
  }

  lemma {:induction false} FindSound(entries: seq<Entry>, jobId: int)
    ensures var f := Find(entries, jobId);
            if f.Some? then f.value in entries && f.value.jobId == jobId
            else forall e :: e in entries ==> e.jobId != jobId
  {
    if |entries| != 0 {
      FindSound(entries[..|entries| - 1], jobId);
    }
  }

  /** `if (ej.retiredAt === undefined) ej.retiredAt = retireAt` */
  function Retired(e: Entry, now: int): Entry {
    if e.retiredAt.None? then e.(retiredAt := Some(now)) else e
  }

  function RetiredAll(entries: seq<Entry>, now: int): (r: seq<Entry>)
    ensures |r| == |entries| && forall k :: 0 <= k < |r| ==> r[k] == Retired(entries[k], now)
  {
    seq(|entries|, k requires 0 <= k < |entries| => Retired(entries[k], now))
  }

  lemma {:induction false} FindRetired(entries: seq<Entry>, jobId: int, now: int)
    ensures var f := Find(entries, jobId);
            Find(RetiredAll(entries, now), jobId) == if f.Some? then Some(Retired(f.value, now)) else None
  {
    if |entries| != 0 {
      var n := |entries| - 1;
      FindRetired(entries[..n], jobId, now);
      assert RetiredAll(entries, now)[..n] == RetiredAll(entries[..n], now);
    }
  }

  /** Without the jobs of these ids. */
  function Without(entries: seq<Entry>, doomed: set<int>): seq<Entry> {
    if |entries| == 0 then []
    else
      var last := entries[|entries| - 1];
      Without(entries[..|entries| - 1], doomed) + (if last.jobId in doomed then [] else [last])
  }

  lemma {:induction false} AppendUnique(entries: seq<Entry>, e: Entry)
    requires UniqueIds(entries) && Find(entries, e.jobId) == None
    ensures UniqueIds(entries + [e])
  {
    FindSound(entries, e.jobId);
    forall i | 0 <= i < |entries| ensures entries[i].jobId != e.jobId {
      assert entries[i] in entries;
    }
  }

  lemma {:induction false} FindSnoc(before: seq<Entry>, e: Entry, jobId: int)
    ensures Find(before + [e], jobId) == if e.jobId == jobId then Some(e) else Find(before, jobId)
  {
    assert (before + [e])[..|before|] == before;
  }

  /** The list with e in the place of the entry of the same id. */
  function Replaced(entries: seq<Entry>, e: Entry): (r: seq<Entry>)
    ensures |r| == |entries|
    ensures forall k :: 0 <= k < |r| ==> r[k] == if entries[k].jobId == e.jobId then e else entries[k]
  {
    seq(|entries|, k requires 0 <= k < |entries| => if entries[k].jobId == e.jobId then e else entries[k])
  }

  /** `Map.set`: an entry of the same id is replaced where it stands, a new one comes last. */
  function Put(entries: seq<Entry>, e: Entry): seq<Entry> {
    if Find(entries, e.jobId).Some? then Replaced(entries, e) else entries + [e]
  }

  lemma {:induction false} FindReplaced(entries: seq<Entry>, e: Entry, jobId: int)
    ensures Find(Replaced(entries, e), jobId) ==
              if e.jobId == jobId && Find(entries, jobId).Some? then Some(e) else Find(entries, jobId)
  {
    if |entries| != 0 {
      var n := |entries| - 1;
      FindReplaced(entries[..n], e, jobId);
      assert Replaced(entries, e)[..n] == Replaced(entries[..n], e);
    }
  }

  lemma {:induction false} FindPut(entries: seq<Entry>, e: Entry, jobId: int)
    ensures Find(Put(entries, e), jobId) == if e.jobId == jobId then Some(e) else Find(entries, jobId)
  {
    FindReplaced(entries, e, jobId);
    FindSnoc(entries, e, jobId);
  }

  lemma {:induction false} PutUnique(entries: seq<Entry>, e: Entry)
    requires UniqueIds(entries)
    ensures UniqueIds(Put(entries, e))
  {
    if Find(entries, e.jobId).Some? {
      assert forall k :: 0 <= k < |entries| ==> Replaced(entries, e)[k].jobId == entries[k].jobId;
    } else {
      AppendUnique(entries, e);
    }
  }

  lemma {:induction false} FindWithout(entries: seq<Entry>, doomed: set<int>, jobId: int)
    ensures Find(Without(entries, doomed), jobId) == if jobId in doomed then None else Find(entries, jobId)
  {
    if |entries| != 0 {
      var n := |entries| - 1;
      FindWithout(entries[..n], doomed, jobId);
      var before := Without(entries[..n], doomed);
      FindSnoc(before, entries[n], jobId);
      assert before + [] == before;
    }
  }

  lemma {:induction false} WithoutMore(entries: seq<Entry>, doomed: set<int>, more: int)
    ensures Without(Without(entries, doomed), {more}) == Without(entries, doomed + {more})
  {
    if |entries| != 0 {
      var n := |entries| - 1;
      WithoutMore(entries[..n], doomed, more);
      var before := Without(entries[..n], doomed);
      assert (before + [entries[n]])[..|before|] == before;
      assert before + [] == before;
    }
  }

  lemma {:induction false} WithoutNothing(entries: seq<Entry>)
    ensures Without(entries, {}) == entries
  {
    if |entries| != 0 {
      WithoutNothing(entries[..|entries| - 1]);
    }
  }

  lemma {:induction false} WithoutUnique(entries: seq<Entry>, doomed: set<int>)
    requires UniqueIds(entries)
    ensures UniqueIds(Without(entries, doomed))
    ensures forall e :: e in Without(entries, doomed) <==> e in entries && e.jobId !in doomed
  {
    if |entries| != 0 {
      var n := |entries| - 1;
      WithoutUnique(entries[..n], doomed);
      assert entries == entries[..n] + [entries[n]];
      var before := Without(entries[..n], doomed);
      forall i | 0 <= i < |before|
        ensures before[i].jobId != entries[n].jobId
      {
        assert before[i] in entries[..n];
      }
    }
  }

  // ----- Aging -----

  function Creations(entries: seq<Entry>): (r: seq<int>)
    ensures |r| == |entries|
  {
    seq(|entries|, k requires 0 <= k < |entries| => entries[k].creation)
  }

  /** All entries, newest first, as a stable sort leaves them. */
  function NewestFirst(entries: seq<Entry>): seq<Entry> {
    Pick(entries, SortPositions(Negated(Creations(entries))))
  }

  /** The ids of the first n candidates that are old enough. */
  function Doomed(l: Limits, candidates: seq<Entry>, now: int): set<int> {
    if |candidates| == 0 then {}
    else
      var last := candidates[|candidates| - 1];
      Doomed(l, candidates[..|candidates| - 1], now) + (if Expired(l, last, now) then {last.jobId} else {})
  }

  lemma {:induction false} DoomedNext(l: Limits, candidates: seq<Entry>, n: nat, now: int)
    requires n < |candidates|
    ensures Doomed(l, candidates[..n + 1], now) ==
              if Expired(l, candidates[n], now) then Doomed(l, candidates[..n], now) + {candidates[n].jobId}
              else Doomed(l, candidates[..n], now)
  {
    assert candidates[..n + 1][..n] == candidates[..n];
    assert Doomed(l, candidates[..n], now) + {} == Doomed(l, candidates[..n], now);
  }

  function Candidates(entries: seq<Entry>): seq<Entry> {
    if |entries| <= MIN_RETAINED then [] else NewestFirst(entries)[MIN_RETAINED..]
  }

  function Cleaned(l: Limits, entries: seq<Entry>, now: int): seq<Entry> {
    Without(entries, Doomed(l, Candidates(entries), now))
  }

  lemma {:induction false} DoomedAreExpired(l: Limits, candidates: seq<Entry>, now: int, jobId: int)
    ensures jobId in Doomed(l, candidates, now) <==>
              exists k :: 0 <= k < |candidates| && candidates[k].jobId == jobId && Expired(l, candidates[k], now)
  {
    if |candidates| != 0 {
      DoomedAreExpired(l, candidates[..|candidates| - 1], now, jobId);
    }
  }

  lemma {:induction false} CandidatesAreEntries(entries: seq<Entry>)
    ensures |NewestFirst(entries)| == |entries|
    ensures forall k :: 0 <= k < |NewestFirst(entries)| ==> NewestFirst(entries)[k] in entries
    ensures forall j, k :: 0 <= j < k < |NewestFirst(entries)| ==>
              NewestFirst(entries)[j].creation >= NewestFirst(entries)[k].creation
  {
    var keys := Negated(Creations(entries));
    var p := SortPositions(keys);
    SortIsStableSort(keys);
    forall j, k | 0 <= j < k < |p|
      ensures entries[p[j]].creation >= entries[p[k]].creation
    {
      assert Before(keys, p[j], p[k]);
    }
  }

  /** Only expired jobs are deleted. */
  lemma {:induction false} OnlyExpiredAreDeleted(l: Limits, entries: seq<Entry>, now: int, e: Entry)
    requires UniqueIds(entries) && e in entries && !Expired(l, e, now)
    ensures Find(Cleaned(l, entries, now), e.jobId) == Some(e)
  {
    var c := Candidates(entries);
    var k :| 0 <= k < |entries| && entries[k] == e;
    FindAt(entries, k);
    CandidatesAreEntries(entries);
    DoomedAreExpired(l, c, now, e.jobId);
    forall i | 0 <= i < |c| && c[i].jobId == e.jobId
      ensures c[i] == e
    {
      assert c[i] in entries;
      var j :| 0 <= j < |entries| && entries[j] == c[i];
      assert j == k;
    }
    FindWithout(entries, Doomed(l, c, now), e.jobId);
  }

  /** The three newest always stay. */
  lemma {:induction false} NewestAreKept(l: Limits, entries: seq<Entry>, now: int, i: nat)
    requires UniqueIds(entries) && i < MIN_RETAINED && i < |entries|
    ensures i < |NewestFirst(entries)|
    ensures Find(Cleaned(l, entries, now), NewestFirst(entries)[i].jobId) == Some(NewestFirst(entries)[i])
  {
    var sorted, c := NewestFirst(entries), Candidates(entries);
    CandidatesAreEntries(entries);
    NewestFirstUnique(entries);
    DoomedAreExpired(l, c, now, sorted[i].jobId);
    assert forall k :: 0 <= k < |c| ==> c[k] == sorted[MIN_RETAINED + k];
    var j :| 0 <= j < |entries| && entries[j] == sorted[i];
    FindAt(entries, j);
    FindWithout(entries, Doomed(l, c, now), sorted[i].jobId);
  }

  lemma {:induction false} NewestFirstUnique(entries: seq<Entry>)
    requires UniqueIds(entries)
    ensures UniqueIds(NewestFirst(entries))
  {
    var keys := Negated(Creations(entries));
    var p := SortPositions(keys);
    SortIsStableSort(keys);
    forall i, j | 0 <= i < j < |p|
      ensures entries[p[i]].jobId != entries[p[j]].jobId
    {
      assert p[i] < p[j] || p[j] < p[i];
    }
  }

  /** Entry j is newer than entry k, or as new and further in front. */
  ghost predicate Ahead(entries: seq<Entry>, j: nat, k: nat) {
    j < |entries| && k < |entries| &&
    (entries[j].creation > entries[k].creation || (entries[j].creation == entries[k].creation && j < k))
  }

  ghost function AheadOf(entries: seq<Entry>, k: nat): set<nat> {
    set j: nat | j < |entries| && Ahead(entries, j, k)
  }

  lemma {:induction false} PrefixSize(p: seq<nat>, i: nat) returns (s: set<nat>)
    requires Distinct(p) && i <= |p|
    ensures |s| == i && forall x :: x in s <==> exists a :: 0 <= a < i && p[a] == x
  {
    if i == 0 {
      s := {};
    } else {
      var before := PrefixSize(p, i - 1);
      assert p[i - 1] !in before;
      s := before + {p[i - 1]};
    }
  }

  /** In the order newest first an entry comes right behind those that are ahead of it. */
  lemma {:induction false} PlaceByAge(entries: seq<Entry>, k: nat, i: nat)
    requires k < |entries| && i < |entries|
    requires |SortPositions(Negated(Creations(entries)))| == |entries|
    requires SortPositions(Negated(Creations(entries)))[i] == k
    ensures |AheadOf(entries, k)| == i
  {
    var keys := Negated(Creations(entries));
    var p := SortPositions(keys);
    SortIsStableSort(keys);
    var s := PrefixSize(p, i);
    forall x
      ensures x in s <==> x in AheadOf(entries, k)
    {
      if x in s {
        var a :| 0 <= a < i && p[a] == x;
        assert Before(keys, p[a], p[i]);
      }
      if x in AheadOf(entries, k) {
        assert x in p;
        var a :| 0 <= a < |p| && p[a] == x;
        assert a > i ==> Before(keys, p[i], p[a]);
      }
    }
    assert s == AheadOf(entries, k);
  }

  /**
   * A job is deleted exactly when it is past the retention, or twice that without being retired, and at
   * least three jobs are ahead of it.
   */
  lemma {:induction false} DeletedIff(l: Limits, entries: seq<Entry>, now: int, k: nat)
    requires UniqueIds(entries) && k < |entries|
    ensures var e := entries[k];
            Find(Cleaned(l, entries, now), e.jobId) == None <==>
              && |AheadOf(entries, k)| >= 3
              && ((e.retiredAt.Some? && now > e.retiredAt.value + l.retentionMs)
                  || now > e.creation + 2 * l.retentionMs)
  {
    var e, c, sorted := entries[k], Candidates(entries), NewestFirst(entries);
    var keys := Negated(Creations(entries));
    var p := SortPositions(keys);
    SortIsStableSort(keys);
    assert k in p;
    var i: nat :| i < |p| && p[i] == k;
    PlaceByAge(entries, k, i);
    FindAt(entries, k);
    FindWithout(entries, Doomed(l, c, now), e.jobId);
    DoomedAreExpired(l, c, now, e.jobId);
    NewestFirstUnique(entries);
    assert sorted[i] == e;
    if i >= 3 {
      assert c[i - 3] == e;
      forall j | 0 <= j < |c| && c[j].jobId == e.jobId ensures c[j] == e { assert c[j] == sorted[j + 3]; }
    } else {
      forall j | 0 <= j < |c| ensures c[j].jobId != e.jobId { assert c[j] == sorted[j + 3]; }
    }
  }

  /** Of two jobs the cleanup tells apart, it deletes the older. */
  lemma {:induction false} OlderGoFirst(l: Limits, entries: seq<Entry>, now: int, e: Entry)
    requires UniqueIds(entries) && e in entries && Find(Cleaned(l, entries, now), e.jobId) == None
    ensures Expired(l, e, now) && |entries| > MIN_RETAINED
    ensures forall i :: 0 <= i < MIN_RETAINED ==>
              i < |NewestFirst(entries)| && NewestFirst(entries)[i].creation >= e.creation
  {
    var sorted, c := NewestFirst(entries), Candidates(entries);
    CandidatesAreEntries(entries);
    var k :| 0 <= k < |entries| && entries[k] == e;
    FindAt(entries, k);
    FindWithout(entries, Doomed(l, c, now), e.jobId);
    DoomedAreExpired(l, c, now, e.jobId);
    var i :| 0 <= i < |c| && c[i].jobId == e.jobId && Expired(l, c[i], now);
    assert c[i] == sorted[MIN_RETAINED + i] && c[i] in entries;
    var j :| 0 <= j < |entries| && entries[j] == c[i];
    assert j == k;
  }
}

/** The vardiff window and the difficulty it suggests, over exact reals. */
module Vardiff {
  import opened Options

  const CACHE_SIZE: int := 30
  const CACHE_WINDOW_MS: int := 300 * 1000
  const DEFAULT_MIN_DIFF: real := 0.00001

  // ----- Steps -----

  function Pow2(e: int): (r: real)
    ensures r > 0.0
    decreases if e < 0 then -e else e
  {
    if e == 0 then 1.0 else if e > 0 then 2.0 * Pow2(e - 1) else Pow2(e + 1) / 2.0
  }

  /** `Math.floor(Math.log2(val))` */
  function FloorLog2(val: real): int
    requires val > 0.0
    decreases if val < 1.0 then 1 else 0, if val < 1.0 then (1.0 / val).Floor else val.Floor
  {
    if val >= 2.0 then 1 + FloorLog2(val / 2.0)
    else if val < 1.0 then
      HalvingInverse(val);
      FloorLog2(val * 2.0) - 1
    else 0
  }

  lemma HalvingInverse(val: real)
    requires 0.0 < val < 1.0
    ensures val * 2.0 < 1.0 ==> (1.0 / (val * 2.0)).Floor < (1.0 / val).Floor
  {
    var x := 1.0 / val;
    assert x * val == 1.0;
    assert 1.0 / (val * 2.0) == x / 2.0;
    assert x > 0.0;
    assert x - 1.0 == x * (1.0 - val);
  }

  lemma {:induction false} FloorLog2Brackets(val: real)
    requires val > 0.0
    ensures Pow2(FloorLog2(val)) <= val < 2.0 * Pow2(FloorLog2(val))
    decreases if val < 1.0 then 1 else 0, if val < 1.0 then (1.0 / val).Floor else val.Floor
  {
    if val >= 2.0 {
      FloorLog2Brackets(val / 2.0);
      Pow2Next(FloorLog2(val / 2.0));
    } else if val < 1.0 {
      HalvingInverse(val);
      FloorLog2Brackets(val * 2.0);
      Pow2Next(FloorLog2(val * 2.0) - 1);
    }
  }

  lemma Pow2Next(e: int)
    ensures Pow2(e + 1) == 2.0 * Pow2(e) && Pow2(0) == 1.0
  {
  }

  lemma {:induction false} Pow2Grows(a: int, b: int)
    requires a <= b
    ensures Pow2(a) <= Pow2(b)
    decreases b - a
  {
    if a < b {
      Pow2Grows(a, b - 1);
      Pow2Next(b - 1);
    }
  }

  function RealAbs(x: real): real { if x < 0.0 then -x else x }

  /** The nearest of 2^k, 1.5 * 2^k and 2^(k+1); on a tie the stable sort leaves the lower one in front. */
  function NearestOf(lower: real, val: real): real {
    var middle, upper := lower + lower / 2.0, lower * 2.0;
    if RealAbs(val - lower) <= RealAbs(val - middle) && RealAbs(val - lower) <= RealAbs(val - upper) then lower
    else if RealAbs(val - middle) <= RealAbs(val - upper) then middle
    else upper
  }

  function NearestDifficultyStep(val: real, minDifficulty: real): Option<real>
    requires minDifficulty > 0.0
  {
    if val == 0.0 then None
    else if val < minDifficulty then Some(minDifficulty)
    else Some(NearestOf(Pow2(FloorLog2(val)), val))
  }

  /** A step is one of 2^k and 1.5 * 2^k. */
  ghost predicate IsStep(d: real) {
    exists k :: d == Pow2(k) || d == Pow2(k) + Pow2(k) / 2.0
  }

  /** At or above the floor the step is within a quarter of the target, and no step is nearer. */
  lemma {:induction false} StepWithinAQuarter(val: real, minDifficulty: real)
    requires 0.0 < minDifficulty <= val
    ensures var s := NearestDifficultyStep(val, minDifficulty);
            s.Some? && IsStep(s.value) && RealAbs(s.value - val) <= val / 4.0
  {
    FloorLog2Brackets(val);
    var e := FloorLog2(val);
    Pow2Next(e);
    assert Pow2(e + 1) == Pow2(e) * 2.0;
  }

  lemma {:induction false} NoStepIsNearer(val: real, minDifficulty: real, k: int)
    requires 0.0 < minDifficulty <= val
    ensures var s := NearestDifficultyStep(val, minDifficulty);
            && s.Some? && RealAbs(s.value - val) <= RealAbs(Pow2(k) - val)
            && RealAbs(s.value - val) <= RealAbs(Pow2(k) + Pow2(k) / 2.0 - val)
            // of two steps equally near, the lower
            && (RealAbs(s.value - val) == RealAbs(Pow2(k) - val) ==> s.value <= Pow2(k))
            && (RealAbs(s.value - val) == RealAbs(Pow2(k) + Pow2(k) / 2.0 - val) ==>
                  s.value <= Pow2(k) + Pow2(k) / 2.0)
  {
    FloorLog2Brackets(val);
    var e := FloorLog2(val);
    Pow2Next(e);
    Pow2Next(k);
    if k < e {
      Pow2Grows(k + 1, e);
    } else if k > e {
      Pow2Grows(e + 1, k);
    }
  }

  /** Below the floor it is the floor; there is no step only for no target at all. */
  lemma FloorBelow(val: real, minDifficulty: real)
    requires minDifficulty > 0.0
    ensures NearestDifficultyStep(val, minDifficulty).None? <==> val == 0.0
    ensures val != 0.0 && val < minDifficulty ==> NearestDifficultyStep(val, minDifficulty) == Some(minDifficulty)
  {
  }

  /** Where the floor lies between the steps, so that rounding cannot go below it. */
  predicate FloorIsSafe(minDifficulty: real)
    requires minDifficulty > 0.0
  {
    var lower := Pow2(FloorLog2(minDifficulty));
    || minDifficulty == lower
    || 1.25 * lower < minDifficulty <= 1.5 * lower
    || 1.75 * lower < minDifficulty
  }

  lemma {:induction false} StepsAreMonotone(a: real, b: real)
    requires 0.0 < a <= b
    ensures NearestOf(Pow2(FloorLog2(a)), a) <= NearestOf(Pow2(FloorLog2(b)), b)
  {
    FloorLog2Brackets(a);
    FloorLog2Brackets(b);
    var ea, eb := FloorLog2(a), FloorLog2(b);
    if eb < ea {
      Pow2Grows(eb + 1, ea);
      Pow2Next(eb);
    } else if ea < eb {
      Pow2Grows(ea + 1, eb);
      Pow2Next(ea);
    }
  }

  /** No suggestion ever falls below the floor exactly when the floor lies safely; a power of two does. */
  lemma {:induction false} NeverBelowFloorIff(minDifficulty: real)
    requires minDifficulty > 0.0
    ensures FloorIsSafe(minDifficulty) <==>
              forall val :: NearestDifficultyStep(val, minDifficulty).Some? ==>
                NearestDifficultyStep(val, minDifficulty).value >= minDifficulty
  {
    FloorLog2Brackets(minDifficulty);
    var atFloor := NearestDifficultyStep(minDifficulty, minDifficulty);
    assert FloorIsSafe(minDifficulty) <==> atFloor.value >= minDifficulty;
    if FloorIsSafe(minDifficulty) {
      forall val | NearestDifficultyStep(val, minDifficulty).Some?
        ensures NearestDifficultyStep(val, minDifficulty).value >= minDifficulty
      {
        if val >= minDifficulty {
          StepsAreMonotone(minDifficulty, val);
        }
      }
    }
  }

  lemma {:induction false} StepsAreSafeFloors(k: int)
    ensures FloorIsSafe(Pow2(k)) && FloorIsSafe(Pow2(k) + Pow2(k) / 2.0)
  {
    FloorLog2OfStep(k, Pow2(k));
    FloorLog2OfStep(k, Pow2(k) + Pow2(k) / 2.0);
  }

  lemma {:induction false} FloorLog2OfStep(k: int, d: real)
    requires Pow2(k) <= d < 2.0 * Pow2(k)
    ensures FloorLog2(d) == k
  {
    FloorLog2Brackets(d);
    var e := FloorLog2(d);
    Pow2Next(k);
    Pow2Next(e);
    if e < k {
      Pow2Grows(e + 1, k);
    } else if k < e {
      Pow2Grows(k + 1, e);
    }
  }

  // ----- The window -----

  datatype Submission = Submission(time: int, difficulty: real)

  function WithoutOld(cache: seq<Submission>, now: int): seq<Submission> {
    if |cache| > 0 && now - cache[0].time > CACHE_WINDOW_MS then WithoutOld(cache[1..], now) else cache
  }

  /** The window after a submission. */
  function Pushed(cache: seq<Submission>, now: int, difficulty: real): seq<Submission> {
    var recent := WithoutOld(cache, now);
    (if |recent| >= CACHE_SIZE then recent[1..] else recent) + [Submission(now, difficulty)]
  }

  function DifficultySum(cache: seq<Submission>): real {
    if |cache| == 0 then 0.0 else DifficultySum(cache[..|cache| - 1]) + cache[|cache| - 1].difficulty
  }

  /** Submissions of one difficulty add up to that many times it. */
  lemma {:induction false} UniformSum(cache: seq<Submission>, d: real)
    requires forall i :: 0 <= i < |cache| ==> cache[i].difficulty == d
    ensures DifficultySum(cache) == |cache| as real * d
  {
    if |cache| != 0 {
      UniformSum(cache[..|cache| - 1], d);
    }
  }

  lemma {:induction false} SumOfParts(a: seq<Submission>, b: seq<Submission>)
    ensures DifficultySum(a + b) == DifficultySum(a) + DifficultySum(b)
  {
    if |b| == 0 {
      assert a + b == a;
    } else {
      assert (a + b)[..|a + b| - 1] == a + b[..|b| - 1];
      SumOfParts(a, b[..|b| - 1]);
    }
  }

  lemma WorkBalances(sum: real, seconds: real, perMinute: real, target: real)
    requires seconds > 0.0 && perMinute > 0.0 && target == sum / seconds * (60.0 / perMinute)
    ensures target * (perMinute * (seconds / 60.0)) == sum
  {
    var rate := sum / seconds;
    var per := 60.0 / perMinute;
    assert per * perMinute == 60.0 && rate * seconds == sum;
    assert target * perMinute == rate * (per * perMinute) == rate * 60.0;
    assert target * (perMinute * (seconds / 60.0)) == (target * perMinute) * (seconds / 60.0);
    assert rate * 60.0 * (seconds / 60.0) == rate * seconds;
  }

  ghost predicate InOrder(cache: seq<Submission>) {
    forall i, j :: 0 <= i <= j < |cache| ==> cache[i].time <= cache[j].time
  }

  ghost predicate Windowed(cache: seq<Submission>) {
    && |cache| <= CACHE_SIZE && InOrder(cache)
    && forall i :: 0 <= i < |cache| ==> cache[|cache| - 1].time - cache[i].time <= CACHE_WINDOW_MS
  }

  lemma {:induction false} WithoutOldIsSuffix(cache: seq<Submission>, now: int) returns (n: nat)
    ensures n <= |cache| && WithoutOld(cache, now) == cache[n..]
    ensures forall i :: 0 <= i < n ==> now - cache[i].time > CACHE_WINDOW_MS
    ensures n < |cache| ==> now - cache[n].time <= CACHE_WINDOW_MS
    decreases |cache|
  {
    if |cache| > 0 && now - cache[0].time > CACHE_WINDOW_MS {
      var m := WithoutOldIsSuffix(cache[1..], now);
      n := m + 1;
      assert cache[1..][m..] == cache[n..];
      assert forall i :: 0 < i < n ==> cache[i] == cache[1..][i - 1];
    } else {
      n := 0;
    }
  }

  /** The window drops all leading entries of over 300 s ago, one more if 30 are left, and adds the new one. */
  lemma {:induction false} PushedIsSuffix(cache: seq<Submission>, now: int, difficulty: real) returns (gone: nat)
    ensures gone <= |cache| && (forall i :: 0 <= i < gone ==> now - cache[i].time > 300000)
    ensures gone < |cache| ==> now - cache[gone].time <= 300000
    ensures var kept := if |cache| - gone >= 30 then cache[gone + 1..] else cache[gone..];
            Pushed(cache, now, difficulty) == kept + [Submission(now, difficulty)]
  {
    gone := WithoutOldIsSuffix(cache, now);
    if |cache| - gone >= CACHE_SIZE {
      assert cache[gone..][1..] == cache[gone + 1..];
    }
  }

  /** With a clock that never goes back the window holds at most 30 entries, none older than 300 s. */
  lemma {:induction false} PushedIsWindowed(cache: seq<Submission>, now: int, difficulty: real)
    requires Windowed(cache) && (|cache| > 0 ==> cache[|cache| - 1].time <= now)
    ensures Windowed(Pushed(cache, now, difficulty))
  {
    var n := WithoutOldIsSuffix(cache, now);
  }

  /** A submission of the last 300 s is dropped only from a full window, and then only the oldest. */
  lemma {:induction false} RecentIsKept(cache: seq<Submission>, now: int, difficulty: real, i: nat)
    requires Windowed(cache) && (|cache| > 0 ==> cache[|cache| - 1].time <= now)
    requires i < |cache| && now - cache[i].time <= CACHE_WINDOW_MS && (i > 0 || |cache| < CACHE_SIZE)
    ensures cache[i] in Pushed(cache, now, difficulty)
  {
    var n := WithoutOldIsSuffix(cache, now);
    var recent := WithoutOld(cache, now);
    assert n <= i && recent[i - n] == cache[i];
    if |recent| >= CACHE_SIZE {
      assert n == 0 && recent[1..][i - 1] == cache[i];
      assert Pushed(cache, now, difficulty)[i - 1] == cache[i];
    } else {
      assert Pushed(cache, now, difficulty)[i - n] == cache[i];
    }
  }

  class Statistics {
    const targetSharesPerMinute: real
    const targetSubmissionPerSecond: real
    const minDifficulty: real
    const submissionCacheStart: int
    var submissionCache: seq<Submission>

    ghost predicate Valid()
      reads this
    {
      Windowed(submissionCache) && Configured()
    }

    ghost predicate Configured() {
      minDifficulty > 0.0 && targetSharesPerMinute > 0.0 && targetSubmissionPerSecond == 60.0 / targetSharesPerMinute
    }

    constructor (targetSharesPerMinute: real, minDifficulty: real, now: int)
      ensures Valid() && submissionCache == [] && submissionCacheStart == now
      ensures this.targetSharesPerMinute == if targetSharesPerMinute > 0.0 then targetSharesPerMinute else 6.0
      ensures this.minDifficulty == if minDifficulty > 0.0 then minDifficulty else DEFAULT_MIN_DIFF
    {
      var target := if targetSharesPerMinute > 0.0 then targetSharesPerMinute else 6.0;
      this.targetSharesPerMinute := target;
      targetSubmissionPerSecond := 60.0 / target;
      this.minDifficulty := if minDifficulty > 0.0 then minDifficulty else DEFAULT_MIN_DIFF;
      submissionCacheStart := now;
      submissionCache := [];
    }

    method UpdateSubmissionCache(now: int, difficulty: real)
      modifies this`submissionCache
      ensures submissionCache == Pushed(old(submissionCache), now, difficulty)
      ensures old(Windowed(submissionCache))
                && (old(|submissionCache|) > 0 ==> old(submissionCache[|submissionCache| - 1].time) <= now) ==>
                Windowed(submissionCache)
    {
      if Windowed(submissionCache) && (|submissionCache| > 0 ==> submissionCache[|submissionCache| - 1].time <= now) {
        PushedIsWindowed(submissionCache, now, difficulty);
      }
      while |submissionCache| > 0 && now - submissionCache[0].time > CACHE_WINDOW_MS
        invariant WithoutOld(submissionCache, now) == WithoutOld(old(submissionCache), now)
        decreases |submissionCache|
      {
        submissionCache := submissionCache[1..];
      }
      if |submissionCache| >= CACHE_SIZE {
        submissionCache := submissionCache[1..];
      }
      submissionCache := submissionCache + [Submission(now, difficulty)];
    }

    /** Only shares at the current difficulty enter the window. */
    method UpdateHashRate(now: int, targetDifficulty: real, isCurrentDiff: bool)
      modifies this`submissionCache
      ensures submissionCache ==
                if isCurrentDiff then Pushed(old(submissionCache), now, targetDifficulty) else old(submissionCache)
    {
      if isCurrentDiff {
        UpdateSubmissionCache(now, targetDifficulty);
      }
    }

    /** What the window measures: the difficulty that would give the targeted share rate. */
    function TargetDifficulty(): Option<real>
      reads this
    {
      if |submissionCache| < 5 then None
      else
        var diffSeconds := (submissionCache[|submissionCache| - 1].time - submissionCache[0].time) as real / 1000.0;
        if diffSeconds <= 0.0 then None
          else Some(DifficultySum(submissionCache) / diffSeconds * targetSubmissionPerSecond)
    }

    function GetSuggestedDifficulty(clientDifficulty: real, now: int): Option<real>
      requires Configured()
      reads this
    {
      if |submissionCache| < 5 then
        if (now - submissionCacheStart) as real / 1000.0 > 60.0
        then NearestDifficultyStep(clientDifficulty / targetSharesPerMinute, minDifficulty)
        else None
      else
        match TargetDifficulty()
        case None => None
        case Some(target) =>
          if clientDifficulty * 2.0 < target || clientDifficulty / 2.0 > target
          then NearestDifficultyStep(target, minDifficulty)
          else None
    }

    /**
     * What is measured: as many shares of that difficulty as are wanted over the window make up the work
     * done in it. Nothing is measured before five submissions, or when no time passed between them.
     */
    lemma TargetMatchesWork()
      requires Configured()
      ensures TargetDifficulty().None? <==>
                |submissionCache| < 5 || submissionCache[|submissionCache| - 1].time <= submissionCache[0].time
      ensures TargetDifficulty().Some? ==>
                var elapsedMs := submissionCache[|submissionCache| - 1].time - submissionCache[0].time;
                var wanted := targetSharesPerMinute * (elapsedMs as real / 60000.0);
                TargetDifficulty().value * wanted == DifficultySum(submissionCache)
    {
      if TargetDifficulty().Some? {
        var seconds := (submissionCache[|submissionCache| - 1].time - submissionCache[0].time) as real / 1000.0;
        WorkBalances(DifficultySum(submissionCache), seconds, targetSharesPerMinute, TargetDifficulty().value);
      }
    }

    /** With few submissions a suggestion is made after a minute, else when off by more than a factor of 2. */
    lemma SuggestedWhen(clientDifficulty: real, now: int)
      requires Configured()
      ensures |submissionCache| < 5 ==>
                GetSuggestedDifficulty(clientDifficulty, now) ==
                  if now - submissionCacheStart > 60000
                  then NearestDifficultyStep(clientDifficulty / targetSharesPerMinute, minDifficulty) else None
      ensures |submissionCache| >= 5 && TargetDifficulty().None? ==> GetSuggestedDifficulty(clientDifficulty, now).None?
      ensures |submissionCache| >= 5 && TargetDifficulty().Some? ==>
                var target := TargetDifficulty().value;
                GetSuggestedDifficulty(clientDifficulty, now) ==
                  if 2.0 * clientDifficulty < target || clientDifficulty > 2.0 * target
                  then NearestDifficultyStep(target, minDifficulty) else None
    {
    }

    /** Once a measured suggestion is applied, the same measurement suggests no other difficulty. */
    lemma {:induction false} SuggestionIsStable(clientDifficulty: real, now: int, later: int)
      requires Configured() && |submissionCache| >= 5
      requires GetSuggestedDifficulty(clientDifficulty, now).Some?
      ensures var applied := GetSuggestedDifficulty(clientDifficulty, now).value;
              var next := GetSuggestedDifficulty(applied, later);
              next.None? || next.value == applied
    {
      var target := TargetDifficulty().value;
      if target >= minDifficulty {
        StepWithinAQuarter(target, minDifficulty);
      }
    }

    /** A measured suggestion lands within a quarter of the measured target, or on the floor below which it lies. */
    lemma {:induction false} SuggestionFollowsTarget(clientDifficulty: real, now: int)
      requires Configured() && |submissionCache| >= 5
      requires GetSuggestedDifficulty(clientDifficulty, now).Some?
      ensures TargetDifficulty().Some?
      ensures var s, target := GetSuggestedDifficulty(clientDifficulty, now).value, TargetDifficulty().value;
              if target < minDifficulty then s == minDifficulty else RealAbs(s - target) <= target / 4.0
    {
      var target := TargetDifficulty().value;
      if target >= minDifficulty {
        StepWithinAQuarter(target, minDifficulty);
      }
    }
  }
}

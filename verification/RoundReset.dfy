/** Scheduled round resets: which tick fires, and which one the group page announces. */
module RoundReset {
  import opened Options

  const DAY_MS: int := 24 * 60 * 60 * 1000
  const SHORTEST_DAY_MS: int := 23 * 60 * 60 * 1000
  const DST_TOLERANCE_MS: int := 12 * 60 * 60 * 1000

  datatype Preset = Daily | Weekly | Monthly | Custom

  /** `lastRoundResetAt` None also stands for 0, which the code treats alike. */
  datatype Group = Group(
    dissolved: bool, preset: Option<Preset>, timezone: string, intervalDays: Option<int>, lastRoundResetAt: Option<int>)

  function CronExprForPreset(p: Preset): string {
    match p
    case Daily => "0 0 0 * * *"
    case Weekly => "0 0 0 * * 1"
    case Monthly => "0 0 0 1 * *"
    case Custom => "0 0 0 * * *"
  }

  // ----- When an expression fires -----

  /** Fields of a cron expression, parted by single spaces. */
  function Fields(expr: string): (r: seq<string>)
    ensures |r| > 0
  {
    if |expr| == 0 then [""]
    else
      var rest := Fields(expr[1..]);
      if expr[0] == ' ' then [""] + rest else [[expr[0]] + rest[0]] + rest[1..]
  }

  /** A wall-clock time in the group's time zone; Sunday is day 0 of the week. */
  datatype WallTime = WallTime(second: nat, minute: nat, hour: nat, dayOfMonth: nat, month: nat, dayOfWeek: nat)

  predicate Matches(field: string, value: nat) { field == "*" || (value < 10 && field == ['0' + value as char]) }

  /** The cron library's reading of six fields: second, minute, hour, day of month, month, day of week. */
  predicate Fires(expr: string, t: WallTime) { AllMatch(Fields(expr), t) }

  predicate AllMatch(f: seq<string>, t: WallTime) {
    && |f| == 6 && Matches(f[0], t.second) && Matches(f[1], t.minute) && Matches(f[2], t.hour)
    && Matches(f[3], t.dayOfMonth) && Matches(f[4], t.month) && Matches(f[5], t.dayOfWeek)
  }

  lemma {:induction false} FirstField(c: char, rest: string, expr: string)
    requires c != ' ' && expr == [c, ' '] + rest
    ensures Fields(expr) == [[c]] + Fields(rest)
  {
    var tail := expr[1..];
    assert tail[0] == ' ' && tail[1..] == rest;
    var behind := Fields(tail);
    assert behind == [""] + Fields(rest) && behind[1..] == Fields(rest);
    assert [c] + behind[0] == [c];
  }

  lemma {:induction false} LastField(c: char)
    requires c != ' '
    ensures Fields([c]) == [[c]]
  {
    assert [c][1..] == [];
    assert Fields([c][1..]) == [""];
    assert [c] + "" == [c];
  }

  /** Two more fields in front. */
  lemma {:induction false} TwoFields(c: char, d: char, rest: string, expr: string)
    requires c != ' ' && d != ' ' && expr == [c, ' ', d, ' '] + rest
    ensures Fields(expr) == [[c], [d]] + Fields(rest)
  {
    var tail := [d, ' '] + rest;
    assert expr == [c, ' '] + tail;
    FirstField(c, tail, expr);
    FirstField(d, rest, tail);
  }

  lemma {:induction false} SixFields(s: char, m: char, h: char, d: char, o: char, w: char, expr: string)
    requires s != ' ' && m != ' ' && h != ' ' && d != ' ' && o != ' ' && w != ' '
    requires expr == [s, ' ', m, ' ', h, ' ', d, ' ', o, ' ', w]
    ensures Fields(expr) == [[s], [m], [h], [d], [o], [w]]
  {
    var last: string := [w];
    var one, two := [o, ' '] + last, expr[4..];
    assert two == [h, ' ', d, ' '] + one && expr == [s, ' ', m, ' '] + two;
    LastField(w);
    FirstField(o, last, one);
    TwoFields(h, d, one, two);
    TwoFields(s, m, two, expr);
  }

  /** Every preset fires at midnight: daily and custom ones every day, weekly on Mondays, monthly on the first. */
  lemma {:induction false} PresetFires(p: Preset, t: WallTime)
    ensures Fires(CronExprForPreset(p), t) <==>
              && t.hour == 0 && t.minute == 0 && t.second == 0
              && (p == Weekly ==> t.dayOfWeek == 1) && (p == Monthly ==> t.dayOfMonth == 1)
  {
    var expr := CronExprForPreset(p);
    match p {
      case Weekly => FiresAt('0', '0', '0', '*', '*', '1', expr, t);
      case Monthly => FiresAt('0', '0', '0', '1', '*', '*', expr, t);
      case _ => FiresAt('0', '0', '0', '*', '*', '*', expr, t);
    }
  }

  predicate MatchesChar(c: char, v: nat) { c == '*' || (c == '0' && v == 0) || (c == '1' && v == 1) }

  ghost predicate Known(c: char) { c == '*' || c == '0' || c == '1' }

  lemma {:induction false} FiresAt(s: char, m: char, h: char, d: char, o: char, w: char, expr: string, t: WallTime)
    requires Known(s) && Known(m) && Known(h) && Known(d) && Known(o) && Known(w)
    requires expr == [s, ' ', m, ' ', h, ' ', d, ' ', o, ' ', w]
    ensures Fires(expr, t) <==>
              && MatchesChar(s, t.second) && MatchesChar(m, t.minute) && MatchesChar(h, t.hour)
              && MatchesChar(d, t.dayOfMonth) && MatchesChar(o, t.month) && MatchesChar(w, t.dayOfWeek)
  {
    SixFields(s, m, h, d, o, w, expr);
    FieldsMatch(s, m, h, d, o, w, t, Fields(expr));
  }

  lemma FieldsMatch(s: char, m: char, h: char, d: char, o: char, w: char, t: WallTime, f: seq<string>)
    requires Known(s) && Known(m) && Known(h) && Known(d) && Known(o) && Known(w)
    requires f == [[s], [m], [h], [d], [o], [w]]
    ensures AllMatch(f, t) <==>
              && MatchesChar(s, t.second) && MatchesChar(m, t.minute) && MatchesChar(h, t.hour)
              && MatchesChar(d, t.dayOfMonth) && MatchesChar(o, t.month) && MatchesChar(w, t.dayOfWeek)
  {
    FieldMatches(s, t.second);
    FieldMatches(m, t.minute);
    FieldMatches(h, t.hour);
    FieldMatches(d, t.dayOfMonth);
    FieldMatches(o, t.month);
    FieldMatches(w, t.dayOfWeek);
  }

  lemma FieldMatches(c: char, v: nat)
    requires Known(c)
    ensures Matches([c], v) <==> MatchesChar(c, v)
  {
    assert [c] == "*" <==> c == '*' by { assert [c][0] == c && "*"[0] == '*'; }
    if v < 10 {
      var digit := '0' + v as char;
      assert [c] == [digit] <==> c == digit by { assert [c][0] == c && [digit][0] == digit; }
      assert digit as int == 48 + v;
    }
  }

  predicate BadInterval(g: Group) {
    g.preset == Some(Custom) && (g.intervalDays.None? || g.intervalDays.value < 1)
  }

  /** Does a tick at this time reset the round? */
  predicate Due(g: Group, at: int) {
    && !g.dissolved && g.preset.Some? && !BadInterval(g)
    && (g.preset.value.Custom? && g.lastRoundResetAt.Some? ==>
          at - g.lastRoundResetAt.value >= g.intervalDays.value * DAY_MS - DST_TOLERANCE_MS)
  }

  /**
   * A tick of a group that still has its schedule resets the round: a calendar preset's always, a custom
   * one's from half a day before its interval of 24-hour days is over, or at once when it never reset.
   */
  lemma DueWhen(g: Group, at: int)
    ensures Due(g, at) <==>
              && !g.dissolved && g.preset != None
              && (g.preset == Some(Custom) ==>
                    && g.intervalDays.Some? && g.intervalDays.value >= 1
                    && (g.lastRoundResetAt == None ||
                        at + 43200000 >= g.lastRoundResetAt.value + g.intervalDays.value * 86400000))
  {
  }

  /** A schedule is complete with a preset, a time zone and, for custom ones, an interval of a day or more. */
  lemma ScheduledWhen(g: Group)
    ensures Scheduled(g) <==>
              && !g.dissolved && g.preset != None && g.timezone != ""
              && (g.preset == Some(Custom) ==> g.intervalDays.Some? && g.intervalDays.value >= 1)
    ensures BadInterval(g) <==> g.preset == Some(Custom) && (g.intervalDays.Some? ==> g.intervalDays.value <= 0)
  {
  }

  predicate Scheduled(g: Group) {
    !g.dissolved && g.preset.Some? && g.timezone != "" && !BadInterval(g)
  }

  class Scheduler {
    var groups: map<string, Group>
    var jobs: map<string, string> // group id to cron expression

    constructor (groups: map<string, Group>)
      ensures this.groups == groups && jobs == map[]
    {
      this.groups := groups;
      jobs := map[];
    }

    method Unschedule(id: string)
      modifies this`jobs
      ensures jobs == old(jobs) - {id}
    {
      jobs := jobs - {id};
    }

    /** Replaces whatever was armed; nothing is armed for a group without a complete schedule. */
    method ApplyConfig(id: string, g: Group)
      modifies this`jobs
      ensures Scheduled(g) ==> jobs == old(jobs)[id := CronExprForPreset(g.preset.value)]
      ensures !Scheduled(g) ==> jobs == old(jobs) - {id}
    {
      Unschedule(id);
      if g.dissolved { return; }
      if g.preset == None { return; }
      if g.timezone == "" { return; }
      if g.preset.value == Custom {
        if g.intervalDays == None || g.intervalDays.value < 1 { return; }
      }
      jobs := jobs[id := CronExprForPreset(g.preset.value)];
    }

    /** A tick: resets the round when due, and disarms itself when the schedule is gone. */
    method FireIfDue(id: string, now: int) returns (reset: bool)
      modifies this`jobs
      ensures reset <==> id in groups && Due(groups[id], now)
      ensures (id !in groups || groups[id].dissolved || groups[id].preset.None? || BadInterval(groups[id])) ==>
                jobs == old(jobs) - {id}
      ensures !(id !in groups || groups[id].dissolved || groups[id].preset.None? || BadInterval(groups[id])) ==>
                jobs == old(jobs)
    {
      reset := false;
      if id !in groups || groups[id].dissolved { Unschedule(id); return; }
      var group := groups[id];
      if group.preset == None { Unschedule(id); return; }
      if group.preset.value == Custom {
        var intervalDays := if group.intervalDays.Some? then group.intervalDays.value else 0;
        if intervalDays < 1 { Unschedule(id); return; }
        var dueThreshold := intervalDays * DAY_MS - DST_TOLERANCE_MS;
        if group.lastRoundResetAt != None && now - group.lastRoundResetAt.value < dueThreshold { return; }
      }
      reset := true;
    }
  }

  // ----- The announced reset -----

  ghost predicate TickApart(ticks: nat -> int, k: nat) {
    ticks(k) + SHORTEST_DAY_MS <= ticks(k + 1)
  }

  /** The cron's ticks after `now`, in order; consecutive midnights are at least 23 hours apart. */
  ghost predicate Ticks(ticks: nat -> int, now: int) {
    now < ticks(0) && forall k: nat :: TickApart(ticks, k)
  }

  lemma {:induction false} TicksSpread(ticks: nat -> int, now: int, k: nat)
    requires Ticks(ticks, now)
    ensures now + SHORTEST_DAY_MS * k < ticks(k)
  {
    if k != 0 {
      TicksSpread(ticks, now, k - 1);
      assert TickApart(ticks, k - 1);
    }
  }

  function Earliest(g: Group, now: int): int
    requires g.intervalDays.Some?
  {
    if g.lastRoundResetAt.Some? then g.lastRoundResetAt.value + g.intervalDays.value * DAY_MS - DST_TOLERANCE_MS
      else now
  }

  /** The first of the first n ticks at or after `from`, or else the last of them. */
  ghost predicate FirstOrLast(ticks: nat -> int, n: nat, from: int, k: nat) {
    && k < n && (forall j: nat :: j < k ==> ticks(j) < from)
    && (ticks(k) >= from || k == n - 1)
  }

  /** Which tick the group page announces. */
  method ComputeNextResetAt(g: Group, ticks: nat -> int, now: int) returns (r: Option<int>, ghost k: nat)
    ensures r.Some? <==> Scheduled(g)
    ensures r.Some? ==> r.value == ticks(k)
    ensures r.Some? && !g.preset.value.Custom? ==> k == 0
    ensures r.Some? && g.preset.value.Custom? ==> FirstOrLast(ticks, g.intervalDays.value + 2, Earliest(g, now), k)
  {
    k := 0;
    if g.preset == None || g.timezone == "" || g.dissolved { return None, 0; }
    if g.preset.value == Custom {
      if g.intervalDays == None || g.intervalDays.value < 1 { return None, 0; }
    }
    if g.preset.value != Custom { return Some(ticks(0)), 0; }
    var earliestMs := Earliest(g, now);
    var lookaheadDays := g.intervalDays.value + 2;
    var n := 0;
    while n < lookaheadDays
      invariant 0 <= n <= lookaheadDays && forall j: nat :: j < n ==> ticks(j) < earliestMs
    {
      if ticks(n) >= earliestMs { return Some(ticks(n)), n; }
      n := n + 1;
    }
    r, k := Some(ticks(lookaheadDays - 1)), lookaheadDays - 1;
  }

  /** Tick k resets the round, and no earlier one does. */
  ghost predicate FirstDue(g: Group, ticks: nat -> int, k: nat) {
    Due(g, ticks(k)) && forall j: nat :: j < k ==> !Due(g, ticks(j))
  }

  /** Days of 24 hours, give or take the changes of the clock, which never add up to half a day. */
  ghost predicate TickOnDay(ticks: nat -> int, k: nat) {
    ticks(k) >= ticks(0) + k * DAY_MS - DST_TOLERANCE_MS
  }

  ghost predicate Midnights(ticks: nat -> int, now: int) {
    now < ticks(0) && forall k: nat :: TickOnDay(ticks, k)
  }

  /** The announced tick fires first exactly when the look-ahead reaches the due time. */
  lemma {:induction false} AnnouncedIsFirstDueIff(g: Group, ticks: nat -> int, now: int, k: nat)
    requires Scheduled(g) && g.preset.value.Custom? && now < ticks(0)
    requires FirstOrLast(ticks, g.intervalDays.value + 2, Earliest(g, now), k)
    ensures FirstDue(g, ticks, k) <==>
              exists j: nat :: j < g.intervalDays.value + 2 && ticks(j) >= Earliest(g, now)
  {
    if g.lastRoundResetAt.None? {
      assert ticks(0) >= Earliest(g, now);
      assert k == 0;
    } else if ticks(k) >= Earliest(g, now) {
      assert Due(g, ticks(k));
    }
  }

  /** For every interval: on the midnights of a calendar the announced reset is the first tick that fires. */
  lemma {:induction false} AnnouncedIsFirstDue(g: Group, ticks: nat -> int, now: int, k: nat)
    requires Scheduled(g) && g.preset.value.Custom? && Midnights(ticks, now)
    requires g.lastRoundResetAt.Some? ==> g.lastRoundResetAt.value <= now
    requires FirstOrLast(ticks, g.intervalDays.value + 2, Earliest(g, now), k)
    ensures FirstDue(g, ticks, k)
  {
    var last := g.intervalDays.value + 1;
    assert TickOnDay(ticks, last);
    assert ticks(last) >= Earliest(g, now);
    AnnouncedIsFirstDueIff(g, ticks, now, k);
  }

  /** The same when all that is known of the ticks is a gap of 23 hours, for intervals of at most 35 days. */
  lemma {:induction false} AnnouncedIsDueUpTo35(g: Group, ticks: nat -> int, now: int, k: nat)
    requires Scheduled(g) && g.preset.value.Custom? && Ticks(ticks, now)
    requires g.lastRoundResetAt.Some? ==> g.lastRoundResetAt.value <= now
    requires FirstOrLast(ticks, g.intervalDays.value + 2, Earliest(g, now), k)
    requires g.intervalDays.value <= 35
    ensures FirstDue(g, ticks, k)
  {
    var n := g.intervalDays.value;
    TicksSpread(ticks, now, n + 1);
    assert SHORTEST_DAY_MS * (n + 1) >= n * DAY_MS - DST_TOLERANCE_MS;
    TicksSpread(ticks, now, 0);
    assert g.lastRoundResetAt.None? ==> ticks(0) >= Earliest(g, now) && k == 0;
  }

  /** Ticks 23 hours apart for more than 35 days, which no calendar has, would be announced too early. */
  lemma {:induction false} AnnouncedIsEarlyFrom36(g: Group, ticks: nat -> int, k: nat)
    requires Scheduled(g) && g.preset.value.Custom? && g.intervalDays.value > 35 && g.lastRoundResetAt == Some(1)
    requires forall j: nat :: ticks(j) == 2 + SHORTEST_DAY_MS * j
    requires FirstOrLast(ticks, g.intervalDays.value + 2, Earliest(g, 1), k)
    ensures Ticks(ticks, 1) && !Due(g, ticks(k))
  {
    var n := g.intervalDays.value;
    assert 2 + SHORTEST_DAY_MS * (n + 1) < 1 + n * DAY_MS - DST_TOLERANCE_MS;
    forall j: nat ensures TickApart(ticks, j) {}
  }

  /** The announced tick of a custom schedule of n days, on any ticks 23 hours apart. */
  ghost predicate AgreesAt(n: int, g: Group, ticks: nat -> int, now: int, k: nat) {
    && Scheduled(g) && g.preset == Some(Custom) && g.intervalDays == Some(n)
    && Ticks(ticks, now) && (g.lastRoundResetAt.Some? ==> g.lastRoundResetAt.value <= now)
    && n >= 1 && FirstOrLast(ticks, n + 2, Earliest(g, now), k)
    ==> FirstDue(g, ticks, k)
  }

  /** A gap of 23 hours between ticks is enough for an interval of n days exactly when n is at most 35. */
  lemma {:induction false} ShortGapsSufficeIff(n: int)
    requires n >= 1
    ensures n <= 35 <==> forall g, ticks, now, k :: AgreesAt(n, g, ticks, now, k)
  {
    if n <= 35 {
      forall g, ticks, now, k ensures AgreesAt(n, g, ticks, now, k) {
        if Scheduled(g) && g.preset == Some(Custom) && g.intervalDays == Some(n) && Ticks(ticks, now)
           && (g.lastRoundResetAt.Some? ==> g.lastRoundResetAt.value <= now)
             && FirstOrLast(ticks, n + 2, Earliest(g, now), k) {
          AnnouncedIsDueUpTo35(g, ticks, now, k);
        }
      }
    } else {
      var g := Group(false, Some(Custom), "UTC", Some(n), Some(1));
      var ticks: nat -> int := j => 2 + SHORTEST_DAY_MS * j;
      var k: nat := n + 1;
      forall j: nat | j < k ensures ticks(j) < Earliest(g, 1) {
        assert SHORTEST_DAY_MS * j <= SHORTEST_DAY_MS * n;
      }
      AnnouncedIsEarlyFrom36(g, ticks, k);
      assert !AgreesAt(n, g, ticks, 1, k);
    }
  }
}

/**
 * The daily pair sweep: dormant credits against dormant debits, largest against largest. Whether
 * the n-th pair's transaction fails is a parameter, as is the wall clock.
 */
module PairSweep {
  import opened Sums
  import opened CoinbaseSplit
  import opened Ledger
  import opened Options

  type Side = seq<(Address, int)>

  datatype Attempt = Attempt(pair: Pair, committed: bool)

  /** What is left of a side after `amount` was taken from (or given to) its first row. */
  function Advance(side: Side, change: int): Side
    requires |side| > 0
  {
    var (a, b) := side[0];
    if b + change == 0 then side[1..] else [(a, b + change)] + side[1..]
  }

  ghost predicate Open(credits: Side, debits: Side) {
    (forall i :: 0 <= i < |credits| ==> credits[i].1 > 0) && (forall j :: 0 <= j < |debits| ==> debits[j].1 < 0)
  }

  function NextPair(credits: Side, debits: Side): Pair
    requires |credits| > 0 && |debits| > 0
  {
    var (c, d) := (credits[0].1, -debits[0].1);
    Pair(credits[0].0, debits[0].0, if c < d then c else d)
  }

  /** All attempts from the given rows on; a failed pair is skipped on both sides. */
  function Attempts(credits: Side, debits: Side, fails: nat -> bool, n: nat): seq<Attempt>
    requires Open(credits, debits)
    decreases |credits| + |debits|
  {
    if |credits| == 0 || |debits| == 0 then []
    else
      var p := NextPair(credits, debits);
      if fails(n) then [Attempt(p, false)] + Attempts(credits[1..], debits[1..], fails, n + 1)
      else [Attempt(p, true)] + Attempts(Advance(credits, -p.amount), Advance(debits, p.amount), fails, n + 1)
  }

  function Committed(attempts: seq<Attempt>): seq<Pair> {
    if |attempts| == 0 then []
    else
      var last := attempts[|attempts| - 1];
      Committed(attempts[..|attempts| - 1]) + (if last.committed then [last.pair] else [])
  }

  ghost predicate DistinctRows(side: Side) {
    forall i, j :: 0 <= i < j < |side| ==> side[i].0 != side[j].0
  }

  /** The rows of a side agree with the table, and every address has one row. */
  ghost predicate Mirrored(l: Table, side: Side) {
    DistinctRows(side) && forall i :: 0 <= i < |side| ==> side[i].1 == Bal(l, side[i].0)
  }

  ghost predicate Mirrors(l: Table, credits: Side, debits: Side) {
    Mirrored(l, credits) && Mirrored(l, debits)
  }

  lemma {:induction false} NextPairCancels(l: Table, credits: Side, debits: Side)
    requires |credits| > 0 && |debits| > 0 && Open(credits, debits) && Mirrors(l, credits, debits)
    ensures var p := NextPair(credits, debits);
            && Cancels(l, p) && p.credit == credits[0].0 && p.debit == debits[0].0
            && credits[0].1 == Bal(l, p.credit) && debits[0].1 == Bal(l, p.debit)
  {
  }

  lemma {:induction false} AdvanceKeepsOpen(credits: Side, debits: Side)
    requires |credits| > 0 && |debits| > 0 && Open(credits, debits)
    ensures var p := NextPair(credits, debits);
            p.amount > 0 && Open(Advance(credits, -p.amount), Advance(debits, p.amount))
  {
  }

  /** A side keeps mirroring the table when its first address changes by `change` and the others stay. */
  lemma {:induction false} AdvanceMirrors(l: Table, after: Table, side: Side, change: int)
    requires |side| > 0 && Mirrored(l, side) && Bal(after, side[0].0) == side[0].1 + change
    requires forall i :: 0 < i < |side| ==> Bal(after, side[i].0) == Bal(l, side[i].0)
    ensures Mirrored(after, Advance(side, change))
  {
  }

  lemma {:induction false} OtherRowsStay(l: Table, p: Pair, side: Side, other: Address)
    requires Cancels(l, p) && |side| > 0 && Mirrored(l, side)
    requires {side[0].0, other} == {p.credit, p.debit}
    requires forall i :: 0 <= i < |side| ==> side[i].0 != other
    ensures forall i :: 0 < i < |side| ==> Bal(Cancel(l, p), side[i].0) == Bal(l, side[i].0)
  {
    CancelEffect(l, p);
    forall i | 0 < i < |side|
      ensures side[i].0 != p.credit && side[i].0 != p.debit
    {
      assert side[0].0 != side[i].0;
      assert p.credit in {side[0].0, other} && p.debit in {side[0].0, other};
    }
  }

  /** No address is on both sides. */
  lemma {:induction false} SidesApart(l: Table, credits: Side, debits: Side, i: nat, j: nat)
    requires Open(credits, debits) && Mirrors(l, credits, debits) && i < |credits| && j < |debits|
    ensures credits[i].0 != debits[j].0
  {
    assert credits[i].1 == Bal(l, credits[i].0) > 0 && debits[j].1 == Bal(l, debits[j].0) < 0;
  }

  lemma {:induction false} MirrorsAfterCommit(l: Table, credits: Side, debits: Side)
    requires |credits| > 0 && |debits| > 0 && Open(credits, debits) && Mirrors(l, credits, debits)
    ensures var p := NextPair(credits, debits);
            && Cancels(l, p)
            && Open(Advance(credits, -p.amount), Advance(debits, p.amount))
            && Mirrors(Cancel(l, p), Advance(credits, -p.amount), Advance(debits, p.amount))
  {
    var p := NextPair(credits, debits);
    NextPairCancels(l, credits, debits);
    AdvanceKeepsOpen(credits, debits);
    forall i | 0 <= i < |credits| ensures credits[i].0 != p.debit { SidesApart(l, credits, debits, i, 0); }
    forall j | 0 <= j < |debits| ensures debits[j].0 != p.credit { SidesApart(l, credits, debits, 0, j); }
    OtherRowsStay(l, p, credits, p.debit);
    OtherRowsStay(l, p, debits, p.credit);
    CancelEffect(l, p);
    AdvanceMirrors(l, Cancel(l, p), credits, -p.amount);
    AdvanceMirrors(l, Cancel(l, p), debits, p.amount);
  }

  lemma {:induction false} CommittedSplit(first: Attempt, rest: seq<Attempt>)
    ensures Committed([first] + rest) == (if first.committed then [first.pair] else []) + Committed(rest)
  {
    if |rest| == 0 {
      assert [first] + rest == [first];
      assert [first][..0] == [];
    } else {
      assert ([first] + rest)[..|rest|] == [first] + rest[..|rest| - 1];
      CommittedSplit(first, rest[..|rest| - 1]);
    }
  }

  lemma {:induction false} CancelFirst(l: Table, p: Pair, rest: seq<Pair>)
    ensures CancelAll(l, [p] + rest) == CancelAll(Cancel(l, p), rest)
  {
    if |rest| == 0 {
      assert [p] + rest == [p];
      CancelOne(l, p);
    } else {
      var n := |rest| - 1;
      var all := [p] + rest;
      assert all[..n + 1] == [p] + rest[..n] && all[n + 1] == rest[n];
      CancelFirst(l, p, rest[..n]);
      CancelLast(l, all);
      CancelLast(Cancel(l, p), rest);
    }
  }

  lemma CancelOne(l: Table, p: Pair)
    ensures CancelAll(l, [p]) == Cancel(l, p)
  {
    var one := [p];
    assert one[..0] == [];
    assert CancelAll(l, one[..0]) == l;
  }

  lemma CancelLast(l: Table, pairs: seq<Pair>)
    requires |pairs| > 0
    ensures CancelAll(l, pairs) == Cancel(CancelAll(l, pairs[..|pairs| - 1]), pairs[|pairs| - 1])
  {
  }

  lemma {:induction false} AllCancelFirst(l: Table, p: Pair, rest: seq<Pair>)
    requires Cancels(l, p) && AllCancel(Cancel(l, p), rest)
    ensures AllCancel(l, [p] + rest)
  {
    var all := [p] + rest;
    forall n | 0 <= n < |all|
      ensures Cancels(CancelAll(l, all[..n]), all[n])
    {
      if n > 0 {
        assert all[..n] == [p] + rest[..n - 1];
        CancelFirst(l, p, rest[..n - 1]);
        assert Cancels(CancelAll(Cancel(l, p), rest[..n - 1]), rest[n - 1]);
      }
    }
  }

  lemma {:induction false} SkipKeepsMirrors(l: Table, credits: Side, debits: Side)
    requires |credits| > 0 && |debits| > 0 && Open(credits, debits) && Mirrors(l, credits, debits)
    ensures Open(credits[1..], debits[1..]) && Mirrors(l, credits[1..], debits[1..])
  {
  }

  lemma TailsStayOpen(credits: Side, debits: Side)
    requires Open(credits, debits) && |credits| > 0 && |debits| > 0
    ensures Open(credits[1..], debits[1..])
  {
  }

  lemma {:induction false} FirstAttempt(credits: Side, debits: Side, fails: nat -> bool, n: nat)
      returns (rest: seq<Attempt>)
    requires Open(credits, debits) && |credits| > 0 && |debits| > 0
    ensures var p := NextPair(credits, debits);
            && Open(credits[1..], debits[1..]) && Open(Advance(credits, -p.amount), Advance(debits, p.amount))
            && rest == (if fails(n) then Attempts(credits[1..], debits[1..], fails, n + 1)
                        else Attempts(Advance(credits, -p.amount), Advance(debits, p.amount), fails, n + 1))
    ensures Attempts(credits, debits, fails, n) == [Attempt(NextPair(credits, debits), !fails(n))] + rest
  {
    AdvanceKeepsOpen(credits, debits);
    TailsStayOpen(credits, debits);
    var p := NextPair(credits, debits);
    rest := if fails(n) then Attempts(credits[1..], debits[1..], fails, n + 1)
            else Attempts(Advance(credits, -p.amount), Advance(debits, p.amount), fails, n + 1);
  }

  lemma {:induction false} AttemptsAfterSkip(credits: Side, debits: Side, fails: nat -> bool, n: nat)
    requires Open(credits, debits) && |credits| > 0 && |debits| > 0 && fails(n)
    ensures Open(credits[1..], debits[1..])
    ensures Committed(Attempts(credits, debits, fails, n)) ==
              Committed(Attempts(credits[1..], debits[1..], fails, n + 1))
  {
    var rest := FirstAttempt(credits, debits, fails, n);
    CommittedSplit(Attempt(NextPair(credits, debits), false), rest);
  }

  /** A first pair that is committed, and what is left to pair. */
  lemma {:induction false} AttemptsAfterPair(credits: Side, debits: Side, fails: nat -> bool, n: nat)
      returns (p: Pair, c: Side, d: Side, rest: seq<Attempt>)
    requires Open(credits, debits) && |credits| > 0 && |debits| > 0 && !fails(n)
    ensures p == NextPair(credits, debits) && c == Advance(credits, -p.amount) && d == Advance(debits, p.amount)
    ensures Open(c, d) && |c| + |d| < |credits| + |debits| && rest == Attempts(c, d, fails, n + 1)
    ensures Attempts(credits, debits, fails, n) == [Attempt(p, true)] + rest
    ensures Committed(Attempts(credits, debits, fails, n)) == [p] + Committed(rest)
  {
    rest := FirstAttempt(credits, debits, fails, n);
    p := NextPair(credits, debits);
    c, d := Advance(credits, -p.amount), Advance(debits, p.amount);
    CommittedSplit(Attempt(p, true), rest);
  }

  /** Whatever transactions fail, every committed pair cancels real credit against real debit. */
  lemma {:induction false} SweepOnlyCancels(l: Table, credits: Side, debits: Side, fails: nat -> bool, n: nat)
    requires Open(credits, debits) && Mirrors(l, credits, debits)
    ensures AllCancel(l, Committed(Attempts(credits, debits, fails, n)))
    decreases |credits| + |debits|
  {
    if |credits| == 0 || |debits| == 0 {
      assert Attempts(credits, debits, fails, n) == [];
    } else if fails(n) {
      AttemptsAfterSkip(credits, debits, fails, n);
      SkipKeepsMirrors(l, credits, debits);
      SweepOnlyCancels(l, credits[1..], debits[1..], fails, n + 1);
    } else {
      MirrorsAfterCommit(l, credits, debits);
      var p, c, d, rest := AttemptsAfterPair(credits, debits, fails, n);
      SweepOnlyCancels(Cancel(l, p), c, d, fails, n + 1);
      AllCancelFirst(l, p, Committed(rest));
    }
  }

  function Sats(side: Side): (r: seq<int>)
    ensures |r| == |side|
  {
    seq(|side|, k requires 0 <= k < |side| => side[k].1)
  }

  function SatsPaired(pairs: seq<Pair>): int {
    if |pairs| == 0 then 0 else SatsPaired(pairs[..|pairs| - 1]) + pairs[|pairs| - 1].amount
  }

  lemma {:induction false} SatsPairedFirst(p: Pair, rest: seq<Pair>)
    ensures SatsPaired([p] + rest) == p.amount + SatsPaired(rest)
  {
    if |rest| == 0 {
      assert [p] + rest == [p];
      assert [p][..0] == [];
    } else {
      assert ([p] + rest)[..|rest|] == [p] + rest[..|rest| - 1];
      SatsPairedFirst(p, rest[..|rest| - 1]);
    }
  }

  lemma {:induction false} AdvanceSum(side: Side, change: int)
    requires |side| > 0
    ensures Sum(Sats(Advance(side, change))) == Sum(Sats(side)) + change
  {
    var tail := side[1..];
    SumOne(side[0].1);
    SumOne(side[0].1 + change);
    assert Sats(side) == [side[0].1] + Sats(tail);
    SumConcat([side[0].1], Sats(tail));
    assert Sats([(side[0].0, side[0].1 + change)] + tail) == [side[0].1 + change] + Sats(tail);
    SumConcat([side[0].1 + change], Sats(tail));
  }

  lemma OpenSums(credits: Side, debits: Side)
    requires Open(credits, debits)
    ensures Sum(Sats(credits)) >= 0 >= Sum(Sats(debits))
    ensures |credits| == 0 ==> Sum(Sats(credits)) == 0
    ensures |debits| == 0 ==> Sum(Sats(debits)) == 0
  {
    SumNonNegative(Sats(credits));
    SumNegated(Sats(debits));
    SumNonNegative(Negated(Sats(debits)));
  }

  ghost predicate NeverFails(fails: nat -> bool) {
    forall n :: !fails(n)
  }

  /** x is the smaller of a and b. */
  ghost predicate IsMin(x: int, a: int, b: int) {
    x <= a && x <= b && (x == a || x == b)
  }

  lemma MinShifted(x: int, a: int, b: int, shift: int, total: int, owed: int, due: int)
    requires IsMin(x, a, b) && total == x + shift && owed == a + shift && due == b + shift
    ensures IsMin(total, owed, due)
  {
  }

  lemma {:induction false} OneSideEmpty(credits: Side, debits: Side, fails: nat -> bool, n: nat)
    requires Open(credits, debits) && (|credits| == 0 || |debits| == 0)
    ensures IsMin(SatsPaired(Committed(Attempts(credits, debits, fails, n))), Sum(Sats(credits)), -Sum(Sats(debits)))
  {
    OpenSums(credits, debits);
    assert Attempts(credits, debits, fails, n) == [];
  }

  /** Without failures the sweep cancels all of the smaller side. */
  lemma {:induction false} SweepExhaustsOneSide(credits: Side, debits: Side, fails: nat -> bool, n: nat)
    requires Open(credits, debits) && NeverFails(fails)
    ensures IsMin(SatsPaired(Committed(Attempts(credits, debits, fails, n))), Sum(Sats(credits)), -Sum(Sats(debits)))
    decreases |credits| + |debits|
  {
    if |credits| == 0 || |debits| == 0 {
      OneSideEmpty(credits, debits, fails, n);
    } else {
      var p, c, d, rest := AttemptsAfterPair(credits, debits, fails, n);
      SatsPairedFirst(p, Committed(rest));
      AdvanceSum(credits, -p.amount);
      AdvanceSum(debits, p.amount);
      SweepExhaustsOneSide(c, d, fails, n + 1);
      MinShifted(SatsPaired(Committed(Attempts(c, d, fails, n + 1))), Sum(Sats(c)), -Sum(Sats(d)), p.amount,
                 SatsPaired(Committed(Attempts(credits, debits, fails, n))), Sum(Sats(credits)), -Sum(Sats(debits)));
    }
  }

  // ----- Which pairs are tried -----

  /** From one attempt to the next: a failed pair is left behind on both sides, a committed one on at least one. */
  ghost predicate MovesOn(committed: bool, i: nat, j: nat, i': nat, j': nat) {
    i <= i' <= i + 1 && j <= j' <= j + 1 && (if committed then i' + j' > i + j else i' + j' == i + j + 2)
  }

  ghost predicate TriedAt(credits: Side, debits: Side, attempts: seq<Attempt>, ci: seq<nat>, di: seq<nat>, m: nat) {
    |ci| == |di| == |attempts| && (m < |attempts| ==>
      && ci[m] < |credits| && di[m] < |debits|
      && attempts[m].pair.credit == credits[ci[m]].0 && attempts[m].pair.debit == debits[di[m]].0
      && (m == 0 ==> ci[m] == di[m] == 0)
      && (m + 1 < |attempts| ==> MovesOn(attempts[m].committed, ci[m], di[m], ci[m + 1], di[m + 1])))
  }

  ghost predicate TriedInOrder(credits: Side, debits: Side, attempts: seq<Attempt>, ci: seq<nat>, di: seq<nat>) {
    forall m: nat :: TriedAt(credits, debits, attempts, ci, di, m)
  }

  /** The pairs tried go through both sides from the front, in order, and fail as they are said to. */
  lemma {:induction false} TriesInOrder(credits: Side, debits: Side, fails: nat -> bool, n: nat)
      returns (ci: seq<nat>, di: seq<nat>)
    requires Open(credits, debits)
    ensures TriedInOrder(credits, debits, Attempts(credits, debits, fails, n), ci, di)
    decreases |credits| + |debits|
  {
    if |credits| == 0 || |debits| == 0 {
      ci, di := [], [];
    } else if fails(n) {
      var rest := FirstAttempt(credits, debits, fails, n);
      var cs, ds := TriesInOrder(credits[1..], debits[1..], fails, n + 1);
      ci, di := TriedAfterSkip(credits, debits, NextPair(credits, debits), rest, cs, ds);
    } else {
      var p, c, d, rest := AttemptsAfterPair(credits, debits, fails, n);
      var cs, ds := TriesInOrder(c, d, fails, n + 1);
      ci, di := TriedAfterPair(credits, debits, p, c, d, rest, cs, ds);
    }
  }

  lemma {:induction false} TriedAfterSkip(credits: Side, debits: Side, p: Pair, rest: seq<Attempt>, cs: seq<nat>,
                                          ds: seq<nat>)
      returns (ci: seq<nat>, di: seq<nat>)
    requires |credits| > 0 && |debits| > 0 && p == NextPair(credits, debits)
    requires TriedInOrder(credits[1..], debits[1..], rest, cs, ds)
    ensures TriedInOrder(credits, debits, [Attempt(p, false)] + rest, ci, di)
  {
    ci, di := OrderedFrom(credits, debits, credits[1..], debits[1..], Attempt(p, false), rest, cs, ds, 1, 1);
  }

  lemma {:induction false} TriedAfterPair(credits: Side, debits: Side, p: Pair, c: Side, d: Side, rest: seq<Attempt>,
                                          cs: seq<nat>, ds: seq<nat>)
      returns (ci: seq<nat>, di: seq<nat>)
    requires |credits| > 0 && |debits| > 0 && p == NextPair(credits, debits)
    requires c == Advance(credits, -p.amount) && d == Advance(debits, p.amount) && TriedInOrder(c, d, rest, cs, ds)
    ensures TriedInOrder(credits, debits, [Attempt(p, true)] + rest, ci, di)
  {
    AdvanceBehind(credits, -p.amount);
    AdvanceBehind(debits, p.amount);
    ci, di := OrderedFrom(credits, debits, c, d, Attempt(p, true), rest, cs, ds, |credits| - |c|, |debits| - |d|);
  }

  function Shifted(idx: seq<nat>, past: nat): (r: seq<nat>)
    ensures |r| == |idx|
  {
    seq<nat>(|idx|, k requires 0 <= k < |idx| => idx[k] + past)
  }

  /** The rest of a side are its rows from `past` on; only the first may have another balance. */
  ghost predicate Behind(side: Side, rest: Side, past: nat) {
    past <= 1 && |rest| + past == |side| && forall k :: 0 <= k < |rest| ==> rest[k].0 == side[k + past].0
  }

  lemma AdvanceBehind(side: Side, change: int)
    requires |side| > 0
    ensures |Advance(side, change)| <= |side|
    ensures Behind(side, Advance(side, change), |side| - |Advance(side, change)|)
    ensures |Advance(side, change)| < |side| <==> side[0].1 + change == 0
  {
    var rest := Advance(side, change);
    if side[0].1 + change == 0 {
      assert rest == side[1..];
    } else {
      assert rest == [(side[0].0, side[0].1 + change)] + side[1..];
    }
  }

  lemma {:induction false} OrderedFrom(credits: Side, debits: Side, c: Side, d: Side, first: Attempt,
                                       rest: seq<Attempt>, cs: seq<nat>, ds: seq<nat>, past: nat, passed: nat)
      returns (ci: seq<nat>, di: seq<nat>)
    requires |credits| > 0 && |debits| > 0 && Behind(credits, c, past) && Behind(debits, d, passed)
    requires first.pair.credit == credits[0].0 && first.pair.debit == debits[0].0
    requires MovesOn(first.committed, 0, 0, past, passed) && TriedInOrder(c, d, rest, cs, ds)
    ensures TriedInOrder(credits, debits, [first] + rest, ci, di)
  {
    ci, di := [0] + Shifted(cs, past), [0] + Shifted(ds, passed);
    assert TriedAt(c, d, rest, cs, ds, 0);
    forall m: nat
      ensures TriedAt(credits, debits, [first] + rest, ci, di, m)
    {
      if 0 < m <= |rest| {
        var before := m - 1;
        assert TriedAt(c, d, rest, cs, ds, before);
      }
    }
  }

  ghost predicate FailsAsSaid(attempts: seq<Attempt>, fails: nat -> bool, n: nat, m: nat) {
    m < |attempts| ==> attempts[m].committed == !fails(n + m)
  }

  /** An attempt is committed exactly when its transaction does not fail. */
  lemma {:induction false} CommittedUnlessFailed(credits: Side, debits: Side, fails: nat -> bool, n: nat, m: nat)
    requires Open(credits, debits)
    ensures FailsAsSaid(Attempts(credits, debits, fails, n), fails, n, m)
    decreases |credits| + |debits|
  {
    if |credits| == 0 || |debits| == 0 {
      assert Attempts(credits, debits, fails, n) == [];
    } else if fails(n) {
      var rest := FirstAttempt(credits, debits, fails, n);
      if m > 0 { CommittedUnlessFailed(credits[1..], debits[1..], fails, n + 1, m - 1); }
      FailsBehind(Attempt(NextPair(credits, debits), false), rest, fails, n, m, Attempts(credits, debits, fails, n));
    } else {
      var p, c, d, rest := AttemptsAfterPair(credits, debits, fails, n);
      if m > 0 { CommittedUnlessFailed(c, d, fails, n + 1, m - 1); }
      FailsBehind(Attempt(p, true), rest, fails, n, m, Attempts(credits, debits, fails, n));
    }
  }

  lemma FailsBehind(first: Attempt, rest: seq<Attempt>, fails: nat -> bool, n: nat, m: nat, all: seq<Attempt>)
    requires first.committed == !fails(n) && all == [first] + rest
    ensures (m > 0 ==> FailsAsSaid(rest, fails, n + 1, m - 1)) ==> FailsAsSaid(all, fails, n, m)
  {
    assert m > 0 ==> n + 1 + (m - 1) == n + m;
  }

  ghost predicate FailedAt(attempts: seq<Attempt>, a: Address, credit: bool, m: nat) {
    m < |attempts| && !attempts[m].committed
    && a == (if credit then attempts[m].pair.credit else attempts[m].pair.debit)
  }

  /** A row that is closed, or was on that side of a pair that failed. */
  ghost predicate RowDone(after: Table, attempts: seq<Attempt>, side: Side, credit: bool, k: nat) {
    k < |side| ==> Bal(after, side[k].0) == 0 || exists m: nat :: FailedAt(attempts, side[k].0, credit, m)
  }

  ghost predicate SideDone(after: Table, attempts: seq<Attempt>, side: Side, credit: bool) {
    forall k: nat :: RowDone(after, attempts, side, credit, k)
  }

  lemma {:induction false} DoneBehind(after: Table, side: Side, rest: Side, past: nat, first: Attempt,
                                         attempts: seq<Attempt>, credit: bool)
    requires |side| > 0 && Behind(side, rest, past)
    requires past == 1 ==> Bal(after, side[0].0) == 0 || FailedAt([first] + attempts, side[0].0, credit, 0)
    ensures SideDone(after, attempts, rest, credit) ==> SideDone(after, [first] + attempts, side, credit)
  {
    if SideDone(after, attempts, rest, credit) {
      forall k: nat
        ensures RowDone(after, [first] + attempts, side, credit, k)
      {
        if past <= k < |side| {
          var j: nat := k - past;
          assert RowDone(after, attempts, rest, credit, j);
          if m: nat :| FailedAt(attempts, rest[j].0, credit, m) {
            assert FailedAt([first] + attempts, rest[j].0, credit, m + 1);
          }
        }
      }
    }
  }

  ghost predicate OneDone(after: Table, attempts: seq<Attempt>, credits: Side, debits: Side) {
    SideDone(after, attempts, credits, true) || SideDone(after, attempts, debits, false)
  }

  /** Whatever fails, in the end one side is closed but for rows of failed pairs. */
  lemma {:induction false} OneSideDone(l: Table, credits: Side, debits: Side, fails: nat -> bool, n: nat)
    requires Open(credits, debits) && Mirrors(l, credits, debits)
    ensures var attempts := Attempts(credits, debits, fails, n);
            OneDone(CancelAll(l, Committed(attempts)), attempts, credits, debits)
    decreases |credits| + |debits|
  {
    if |credits| == 0 || |debits| == 0 {
      var attempts := Attempts(credits, debits, fails, n);
      var after := CancelAll(l, Committed(attempts));
      if |credits| == 0 {
        forall k: nat ensures RowDone(after, attempts, credits, true, k) {}
      } else {
        forall k: nat ensures RowDone(after, attempts, debits, false, k) {}
      }
    } else if fails(n) {
      DoneAfterSkip(l, credits, debits, fails, n);
    } else {
      DoneAfterCommit(l, credits, debits, fails, n);
    }
  }

  lemma {:induction false} DoneAfterSkip(l: Table, credits: Side, debits: Side, fails: nat -> bool, n: nat)
    requires Open(credits, debits) && Mirrors(l, credits, debits) && |credits| > 0 && |debits| > 0 && fails(n)
    ensures var attempts := Attempts(credits, debits, fails, n);
            OneDone(CancelAll(l, Committed(attempts)), attempts, credits, debits)
    decreases |credits| + |debits|, 0
  {
    var first := Attempt(NextPair(credits, debits), false);
    var rest := FirstAttempt(credits, debits, fails, n);
    SkipKeepsMirrors(l, credits, debits);
    OneSideDone(l, credits[1..], debits[1..], fails, n + 1);
    CommittedSplit(first, rest);
    assert [] + Committed(rest) == Committed(rest);
    OneDoneBehind(CancelAll(l, Committed(rest)), credits, credits[1..], 1, debits, debits[1..], 1, first, rest);
  }

  lemma {:induction false} OneDoneBehind(after: Table, credits: Side, c: Side, past: nat, debits: Side, d: Side,
                                            passed: nat, first: Attempt, rest: seq<Attempt>)
    requires |credits| > 0 && Behind(credits, c, past) && |debits| > 0 && Behind(debits, d, passed)
    requires first.pair.credit == credits[0].0 && first.pair.debit == debits[0].0
    requires past == 1 ==> !first.committed || Bal(after, credits[0].0) == 0
    requires passed == 1 ==> !first.committed || Bal(after, debits[0].0) == 0
    ensures OneDone(after, rest, c, d) ==> OneDone(after, [first] + rest, credits, debits)
  {
    assert ([first] + rest)[0] == first;
    DoneBehind(after, credits, c, past, first, rest, true);
    DoneBehind(after, debits, d, passed, first, rest, false);
  }

  lemma {:induction false} DoneAfterCommit(l: Table, credits: Side, debits: Side, fails: nat -> bool, n: nat)
    requires Open(credits, debits) && Mirrors(l, credits, debits) && |credits| > 0 && |debits| > 0 && !fails(n)
    ensures var attempts := Attempts(credits, debits, fails, n);
            OneDone(CancelAll(l, Committed(attempts)), attempts, credits, debits)
    decreases |credits| + |debits|, 0
  {
    MirrorsAfterCommit(l, credits, debits);
    var p, c, d, rest := AttemptsAfterPair(credits, debits, fails, n);
    OneSideDone(Cancel(l, p), c, d, fails, n + 1);
    CancelFirst(l, p, Committed(rest));
    SweepOnlyCancels(Cancel(l, p), c, d, fails, n + 1);
    ClosedBehind(l, credits, debits, p, c, d, rest);
  }

  lemma {:induction false} ClosedBehind(l: Table, credits: Side, debits: Side, p: Pair, c: Side, d: Side,
                                        rest: seq<Attempt>)
    requires Open(credits, debits) && Mirrors(l, credits, debits) && |credits| > 0 && |debits| > 0
    requires p == NextPair(credits, debits) && c == Advance(credits, -p.amount) && d == Advance(debits, p.amount)
    requires AllCancel(Cancel(l, p), Committed(rest))
    ensures var after := CancelAll(Cancel(l, p), Committed(rest));
            OneDone(after, rest, c, d) ==> OneDone(after, [Attempt(p, true)] + rest, credits, debits)
  {
    AdvanceBehind(credits, -p.amount);
    AdvanceBehind(debits, p.amount);
    ClosedStays(l, credits, debits, Committed(rest));
    OneDoneBehind(CancelAll(Cancel(l, p), Committed(rest)), credits, c, |credits| - |c|, debits, d,
                     |debits| - |d|, Attempt(p, true), rest);
  }

  /** A first row closed by its pair stays closed. */
  lemma {:induction false} ClosedStays(l: Table, credits: Side, debits: Side, pairs: seq<Pair>)
    requires Open(credits, debits) && Mirrors(l, credits, debits) && |credits| > 0 && |debits| > 0
    requires AllCancel(Cancel(l, NextPair(credits, debits)), pairs)
    ensures var p := NextPair(credits, debits);
            var after := CancelAll(Cancel(l, p), pairs);
            && (credits[0].1 - p.amount == 0 ==> Bal(after, credits[0].0) == 0)
            && (debits[0].1 + p.amount == 0 ==> Bal(after, debits[0].0) == 0)
  {
    var p := NextPair(credits, debits);
    NextPairCancels(l, credits, debits);
    CancelEffect(l, p);
    SidesApart(l, credits, debits, 0, 0);
    CancelAllEffect(Cancel(l, p), pairs, credits[0].0);
    CancelAllEffect(Cancel(l, p), pairs, debits[0].0);
  }

  /** Every committed pair closes one of its two rows: it cancels all that the smaller of them has. */
  ghost predicate ClosesOne(l: Table, pairs: seq<Pair>, n: nat) {
    n < |pairs| ==>
      var (p, before) := (pairs[n], CancelAll(l, pairs[..n]));
      IsMin(p.amount, Bal(before, p.credit), -Bal(before, p.debit))
  }

  lemma {:induction false} EachPairClosesOne(l: Table, credits: Side, debits: Side, fails: nat -> bool, n: nat, m: nat)
    requires Open(credits, debits) && Mirrors(l, credits, debits)
    ensures ClosesOne(l, Committed(Attempts(credits, debits, fails, n)), m)
    decreases |credits| + |debits|, 1
  {
    if |credits| == 0 || |debits| == 0 {
      assert Attempts(credits, debits, fails, n) == [];
    } else if fails(n) {
      AttemptsAfterSkip(credits, debits, fails, n);
      SkipKeepsMirrors(l, credits, debits);
      EachPairClosesOne(l, credits[1..], debits[1..], fails, n + 1, m);
    } else {
      ClosesAfterCommit(l, credits, debits, fails, n, m);
    }
  }

  lemma {:induction false} ClosesAfterCommit(l: Table, credits: Side, debits: Side, fails: nat -> bool, n: nat, m: nat)
    requires Open(credits, debits) && Mirrors(l, credits, debits) && |credits| > 0 && |debits| > 0 && !fails(n)
    ensures ClosesOne(l, Committed(Attempts(credits, debits, fails, n)), m)
    decreases |credits| + |debits|, 0
  {
    MirrorsAfterCommit(l, credits, debits);
    var p, c, d, rest := AttemptsAfterPair(credits, debits, fails, n);
    if m > 0 {
      EachPairClosesOne(Cancel(l, p), c, d, fails, n + 1, m - 1);
    }
    FirstIsMin(l, credits, debits);
    ClosesBehind(l, p, Committed(rest), m, Committed(Attempts(credits, debits, fails, n)));
  }

  lemma {:induction false} FirstIsMin(l: Table, credits: Side, debits: Side)
    requires Open(credits, debits) && Mirrors(l, credits, debits) && |credits| > 0 && |debits| > 0
    ensures var p := NextPair(credits, debits); IsMin(p.amount, Bal(l, p.credit), -Bal(l, p.debit))
  {
  }

  lemma {:induction false} ClosesBehind(l: Table, p: Pair, rest: seq<Pair>, m: nat, all: seq<Pair>)
    requires all == [p] + rest && IsMin(p.amount, Bal(l, p.credit), -Bal(l, p.debit))
    ensures (m > 0 ==> ClosesOne(Cancel(l, p), rest, m - 1)) ==> ClosesOne(l, all, m)
  {
    if m == 0 {
      assert all[..0] == [];
    } else if m <= |rest| {
      assert all[..m] == [p] + rest[..m - 1];
      CancelFirst(l, p, rest[..m - 1]);
    }
  }

  // ----- Audit heights -----

  /** `sweepBlockHeight`: negative Unix seconds, stepped back when the clock has not advanced. */
  function NextHeight(last: Option<int>, nowMs: int): int {
    var now := -(nowMs / 1000);
    if last.Some? && now >= last.value then last.value - 1 else now
  }

  /** The heights drawn at the given clock readings. */
  function Heights(last: Option<int>, readings: seq<int>): (h: seq<int>)
    ensures |h| == |readings|
  {
    if |readings| == 0 then []
    else
      var n := |readings| - 1;
      var before := Heights(last, readings[..n]);
      before + [NextHeight(if n == 0 then last else Some(before[n - 1]), readings[n])]
  }

  ghost predicate Decreasing(h: seq<int>) {
    forall i, j :: 0 <= i < j < |h| ==> h[i] > h[j]
  }

  ghost predicate AllBelow(h: seq<int>, last: Option<int>) {
    last.Some? ==> forall i :: 0 <= i < |h| ==> h[i] < last.value
  }

  /** Whatever the clock does, every height is below all earlier ones, so no two sweeps collide. */
  lemma {:induction false} HeightsDecrease(last: Option<int>, readings: seq<int>)
    ensures Decreasing(Heights(last, readings)) && AllBelow(Heights(last, readings), last)
  {
    if |readings| != 0 {
      var n := |readings| - 1;
      HeightsDecrease(last, readings[..n]);
      var before := Heights(last, readings[..n]);
      var h := Heights(last, readings);
      forall i | 0 <= i < n
        ensures h[i] == before[i] && h[n] < before[i]
      {
        assert n > 0 ==> h[n] < before[n - 1];
        assert i < n - 1 ==> before[i] > before[n - 1];
      }
    }
  }
}

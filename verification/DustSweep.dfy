/** The sweep service: its tables, its height counter and the two-pointer loop over dormant rows. */
module DustSweep {
  import opened Sums
  import opened StableSorting
  import opened CoinbaseSplit
  import opened Ledger
  import opened Options
  import opened PairSweep

  /** A `dust-sweep` row of pplns_payout_history. */
  datatype AuditRow = AuditRow(blockHeight: int, address: Address, paidSats: int)

  /** Two rows per committed pair, both at the height drawn for that attempt. */
  function AuditRows(attempts: seq<Attempt>, heights: seq<int>): seq<AuditRow>
    requires |attempts| == |heights|
  {
    if |attempts| == 0 then []
    else
      var n := |attempts| - 1;
      var p := attempts[n].pair;
      AuditRows(attempts[..n], heights[..n]) +
      (if attempts[n].committed
       then [AuditRow(heights[n], p.credit, p.amount), AuditRow(heights[n], p.debit, p.amount)]
       else [])
  }

  function RowsOf(l: Table, order: seq<Address>, positive: bool): (side: Side)
    ensures forall k :: 0 <= k < |side| ==>
              side[k].0 in order && side[k].1 == Bal(l, side[k].0)
                && (if positive then side[k].1 > 0 else side[k].1 < 0)
  {
    if |order| == 0 then []
    else
      var n := |order| - 1;
      var b := Bal(l, order[n]);
      RowsOf(l, order[..n], positive) + (if (positive && b > 0) || (!positive && b < 0) then [(order[n], b)] else [])
  }

  /** Largest credit first. */
  function CreditSide(l: Table, order: seq<Address>): Side {
    var found := RowsOf(l, order, true);
    Pick(found, SortPositions(Negated(Sats(found))))
  }

  /** Most negative debit first. */
  function DebitSide(l: Table, order: seq<Address>): Side {
    var found := RowsOf(l, order, false);
    Pick(found, SortPositions(Sats(found)))
  }

  lemma {:induction false} RowsOfDistinct(l: Table, order: seq<Address>, positive: bool)
    requires Distinct(order)
    ensures DistinctRows(RowsOf(l, order, positive))
  {
    if |order| != 0 {
      var n := |order| - 1;
      RowsOfDistinct(l, order[..n], positive);
      var before := RowsOf(l, order[..n], positive);
      forall i | 0 <= i < |before|
        ensures before[i].0 != order[n]
      {
        assert before[i].0 in order[..n];
      }
    }
  }

  lemma {:induction false} PickSideFacts(s: Side, keys: seq<int>)
    requires |keys| == |s|
    requires DistinctRows(s)
    ensures DistinctRows(Pick(s, SortPositions(keys)))
    ensures forall x :: x in Pick(s, SortPositions(keys)) ==> x in s
  {
    var p := SortPositions(keys);
    SortIsStableSort(keys);
    forall i, j | 0 <= i < j < |p|
      ensures s[p[i]].0 != s[p[j]].0
    {
      assert p[i] < p[j] || p[j] < p[i];
    }
  }

  /** The loaded rows, split and sorted, mirror the table. */
  lemma {:induction false} SidesMirror(l: Table, order: seq<Address>)
    requires Distinct(order)
    ensures Open(CreditSide(l, order), DebitSide(l, order))
    ensures Mirrors(l, CreditSide(l, order), DebitSide(l, order))
  {
    RowsOfDistinct(l, order, true);
    RowsOfDistinct(l, order, false);
    PickSideFacts(RowsOf(l, order, true), Negated(Sats(RowsOf(l, order, true))));
    PickSideFacts(RowsOf(l, order, false), Sats(RowsOf(l, order, false)));
  }

  // ----- What the sides hold -----

  /** A row of a dormant address with a balance of that sign. */
  ghost predicate OnSide(l: Table, order: seq<Address>, positive: bool, r: (Address, int)) {
    r.0 in order && r.1 == Bal(l, r.0) && (if positive then r.1 > 0 else r.1 < 0)
  }

  ghost predicate Falling(side: Side) {
    forall j, k :: 0 <= j < k < |side| ==> Abs(side[j].1) >= Abs(side[k].1)
  }

  lemma {:induction false} RowsOfHolds(l: Table, order: seq<Address>, positive: bool, r: (Address, int))
    ensures r in RowsOf(l, order, positive) <==> OnSide(l, order, positive, r)
  {
    if |order| != 0 {
      var n := |order| - 1;
      RowsOfHolds(l, order[..n], positive, r);
      assert r.0 in order <==> r.0 in order[..n] || r.0 == order[n];
    }
  }

  lemma {:induction false} PickedSide(s: Side, keys: seq<int>, r: (Address, int))
    requires |keys| == |s|
    ensures r in Pick(s, SortPositions(keys)) <==> r in s
    ensures Sum(Sats(Pick(s, SortPositions(keys)))) == Sum(Sats(s))
  {
    var p := SortPositions(keys);
    SortIsStableSort(keys);
    if k :| 0 <= k < |s| && s[k] == r {
      assert k in p;
      var j :| 0 <= j < |p| && p[j] == k;
      assert Pick(s, p)[j] == r;
    }
    assert Pick(Sats(s), p) == Sats(Pick(s, p));
    SumPickPlaced(Sats(s), p);
  }

  lemma {:induction false} SortedFalls(s: Side, keys: seq<int>)
    requires |keys| == |s| && forall k :: 0 <= k < |s| ==> keys[k] == -Abs(s[k].1)
    ensures Falling(Pick(s, SortPositions(keys)))
  {
    var p := SortPositions(keys);
    SortIsStableSort(keys);
    forall j, k | 0 <= j < k < |p|
      ensures Abs(s[p[j]].1) >= Abs(s[p[k]].1)
    {
      assert Before(keys, p[j], p[k]);
    }
  }

  /** The credit side holds exactly the dormant addresses with a positive balance, largest first. */
  lemma {:induction false} CreditSideHolds(l: Table, order: seq<Address>, r: (Address, int))
    ensures r in CreditSide(l, order) <==> OnSide(l, order, true, r)
    ensures Falling(CreditSide(l, order))
  {
    var found := RowsOf(l, order, true);
    RowsOfHolds(l, order, true, r);
    PickedSide(found, Negated(Sats(found)), r);
    SortedFalls(found, Negated(Sats(found)));
  }

  /** The debit side holds exactly the dormant addresses with a negative balance, most negative first. */
  lemma {:induction false} DebitSideHolds(l: Table, order: seq<Address>, r: (Address, int))
    ensures r in DebitSide(l, order) <==> OnSide(l, order, false, r)
    ensures Falling(DebitSide(l, order))
  {
    var found := RowsOf(l, order, false);
    RowsOfHolds(l, order, false, r);
    PickedSide(found, Sats(found), r);
    SortedFalls(found, Sats(found));
  }

  /** What these addresses are owed together. */
  function OwedTo(l: Table, order: seq<Address>): int {
    if |order| == 0 then 0
    else
      var b := Bal(l, order[|order| - 1]);
      OwedTo(l, order[..|order| - 1]) + if b > 0 then b else 0
  }

  /** What these addresses owe together. */
  function OwedBy(l: Table, order: seq<Address>): int {
    if |order| == 0 then 0
    else
      var b := Bal(l, order[|order| - 1]);
      OwedBy(l, order[..|order| - 1]) + if b < 0 then -b else 0
  }

  lemma SatsSnoc(side: Side, r: (Address, int))
    ensures Sum(Sats(side + [r])) == Sum(Sats(side)) + r.1 && Sum(Sats(side + [])) == Sum(Sats(side))
  {
    assert Sats(side + [r])[..|side|] == Sats(side);
    assert side + [] == side;
  }

  lemma {:induction false} RowsOfTotal(l: Table, order: seq<Address>, positive: bool)
    ensures Sum(Sats(RowsOf(l, order, positive))) == if positive then OwedTo(l, order) else -OwedBy(l, order)
  {
    if |order| != 0 {
      var n := |order| - 1;
      RowsOfTotal(l, order[..n], positive);
      SatsSnoc(RowsOf(l, order[..n], positive), (order[n], Bal(l, order[n])));
    }
  }

  lemma {:induction false} SideTotals(l: Table, order: seq<Address>)
    ensures Sum(Sats(CreditSide(l, order))) == OwedTo(l, order) && Sum(Sats(DebitSide(l, order))) == -OwedBy(l, order)
  {
    var credits, debits := RowsOf(l, order, true), RowsOf(l, order, false);
    RowsOfTotal(l, order, true);
    RowsOfTotal(l, order, false);
    PickedSide(credits, Negated(Sats(credits)), ("", 0));
    PickedSide(debits, Sats(debits), ("", 0));
  }

  /** An address of a pair that failed. */
  ghost predicate InFailedPair(attempts: seq<Attempt>, a: Address, m: nat) {
    m < |attempts| && !attempts[m].committed && (a == attempts[m].pair.credit || a == attempts[m].pair.debit)
  }

  ghost predicate ClosedOrFailed(after: Table, attempts: seq<Attempt>, a: Address) {
    Bal(after, a) == 0 || exists m: nat :: InFailedPair(attempts, a, m)
  }

  /** Every one of these addresses with a balance of that sign is closed, or was in a pair that failed. */
  ghost predicate AllClosed(l: Table, order: seq<Address>, positive: bool, after: Table, attempts: seq<Attempt>) {
    forall a :: a in order && (if positive then Bal(l, a) > 0 else Bal(l, a) < 0) ==> ClosedOrFailed(after, attempts, a)
  }

  /** Whatever fails, a sweep closes all dormant credits, or all dormant debits, but for those in failed pairs. */
  lemma {:induction false} SweepClosesASide(l: Table, order: seq<Address>, fails: nat -> bool, attempts: seq<Attempt>)
    requires Distinct(order) && Open(CreditSide(l, order), DebitSide(l, order))
    requires attempts == Attempts(CreditSide(l, order), DebitSide(l, order), fails, 0)
    ensures var after := CancelAll(l, Committed(attempts));
            AllClosed(l, order, true, after, attempts) || AllClosed(l, order, false, after, attempts)
  {
    var credits, debits := CreditSide(l, order), DebitSide(l, order);
    var after := CancelAll(l, Committed(attempts));
    SidesMirror(l, order);
    OneSideDone(l, credits, debits, fails, 0);
    if SideDone(after, attempts, credits, true) {
      forall a | a in order && Bal(l, a) > 0
        ensures ClosedOrFailed(after, attempts, a)
      {
        CreditSideHolds(l, order, (a, Bal(l, a)));
        var k: nat :| k < |credits| && credits[k] == (a, Bal(l, a));
        DoneIsClosed(after, attempts, credits, true, k);
      }
    } else {
      forall a | a in order && Bal(l, a) < 0
        ensures ClosedOrFailed(after, attempts, a)
      {
        DebitSideHolds(l, order, (a, Bal(l, a)));
        var k: nat :| k < |debits| && debits[k] == (a, Bal(l, a));
        DoneIsClosed(after, attempts, debits, false, k);
      }
    }
  }

  lemma DoneIsClosed(after: Table, attempts: seq<Attempt>, side: Side, credit: bool, k: nat)
    requires k < |side| && RowDone(after, attempts, side, credit, k)
    ensures ClosedOrFailed(after, attempts, side[k].0)
  {
    if m: nat :| FailedAt(attempts, side[k].0, credit, m) {
      assert InFailedPair(attempts, side[k].0, m);
    }
  }

  /** The rows from position i on, with their current in-memory balances. */
  function Remaining(side: Side, sats: seq<int>, i: nat): (r: Side)
    requires i <= |side| == |sats|
    ensures |r| == |side| - i
  {
    seq(|side| - i, k requires 0 <= k < |side| - i => (side[i + k].0, sats[i + k]))
  }

  lemma {:induction false} NextPairOf(side: Side, cs: seq<int>, i: nat, other: Side, ds: seq<int>, j: nat)
    requires i < |side| == |cs| && j < |other| == |ds|
    ensures NextPair(Remaining(side, cs, i), Remaining(other, ds, j)) ==
              Pair(side[i].0, other[j].0, if cs[i] < -ds[j] then cs[i] else -ds[j])
  {
  }

  lemma {:induction false} RemainingAdvance(side: Side, sats: seq<int>, i: nat, change: int, left: int)
    requires i < |side| == |sats| && left == sats[i] + change
    ensures Advance(Remaining(side, sats, i), change) ==
              Remaining(side, sats[i := left], if left == 0 then i + 1 else i)
  {
    var r := Remaining(side, sats, i);
    assert r == [(side[i].0, sats[i])] + Remaining(side, sats, i + 1);
    assert Remaining(side, sats[i := left], i + 1) == Remaining(side, sats, i + 1) == r[1..];
    if left != 0 {
      assert Remaining(side, sats[i := left], i) == [(side[i].0, left)] + r[1..];
    }
  }

  lemma {:induction false} RemainingSkip(side: Side, sats: seq<int>, i: nat)
    requires i < |side| == |sats|
    ensures Remaining(side, sats, i)[1..] == Remaining(side, sats, i + 1)
  {
  }

  lemma {:induction false} CommittedSnoc(done: seq<Attempt>, a: Attempt)
    ensures Committed(done + [a]) == Committed(done) + (if a.committed then [a.pair] else [])
  {
    assert (done + [a])[..|done|] == done;
  }

  lemma {:induction false} AuditRowsSnoc(done: seq<Attempt>, heights: seq<int>, a: Attempt, h: int)
    requires |done| == |heights|
    ensures AuditRows(done + [a], heights + [h]) ==
              AuditRows(done, heights) +
              (if a.committed then [AuditRow(h, a.pair.credit, a.pair.amount), AuditRow(h, a.pair.debit, a.pair.amount)]
               else [])
  {
    assert (done + [a])[..|done|] == done && (heights + [h])[..|heights|] == heights;
  }

  /** The sats these rows show for an address. */
  function SatsIn(rows: seq<AuditRow>, a: Address): int {
    if |rows| == 0 then 0
    else SatsIn(rows[..|rows| - 1], a) + if rows[|rows| - 1].address == a then rows[|rows| - 1].paidSats else 0
  }

  lemma {:induction false} SatsInSnoc(rows: seq<AuditRow>, r: AuditRow, a: Address)
    ensures SatsIn(rows + [r], a) == SatsIn(rows, a) + if r.address == a then r.paidSats else 0
  {
    assert (rows + [r])[..|rows|] == rows;
  }

  lemma {:induction false} SatsInTwo(rows: seq<AuditRow>, x: AuditRow, y: AuditRow, a: Address)
    ensures SatsIn(rows + [x, y], a) ==
              SatsIn(rows, a) + (if x.address == a then x.paidSats else 0) + if y.address == a then y.paidSats else 0
  {
    assert rows + [x, y] == (rows + [x]) + [y];
    SatsInSnoc(rows, x, a);
    SatsInSnoc(rows + [x], y, a);
  }

  /** The two rows of the m-th committed pair: its amount on either side, at one height. */
  ghost predicate RowsOfPair(rows: seq<AuditRow>, pairs: seq<Pair>, m: nat) {
    m < |pairs| ==>
      && 2 * m + 1 < |rows|
      && var height := rows[2 * m].blockHeight;
      && rows[2 * m] == AuditRow(height, pairs[m].credit, pairs[m].amount)
      && rows[2 * m + 1] == AuditRow(height, pairs[m].debit, pairs[m].amount)
  }

  lemma OneMorePair(rows: seq<AuditRow>, pairs: seq<Pair>, p: Pair, height: int, m: nat)
    requires |rows| == 2 * |pairs|
    ensures RowsOfPair(rows, pairs, m) ==>
              RowsOfPair(rows + [AuditRow(height, p.credit, p.amount), AuditRow(height, p.debit, p.amount)],
                         pairs + [p], m)
  {
    var all := rows + [AuditRow(height, p.credit, p.amount), AuditRow(height, p.debit, p.amount)];
    if RowsOfPair(rows, pairs, m) && m < |pairs| {
      assert all[2 * m] == rows[2 * m] && all[2 * m + 1] == rows[2 * m + 1];
    } else if m == |pairs| {
      assert all[2 * m] == AuditRow(height, p.credit, p.amount);
      assert all[2 * m + 1] == AuditRow(height, p.debit, p.amount);
    }
  }

  /** Two rows for every committed pair and none besides; for every address they show what was cancelled. */
  lemma {:induction false} RowsAudit(attempts: seq<Attempt>, heights: seq<int>, a: Address, m: nat)
    requires |attempts| == |heights|
    ensures |AuditRows(attempts, heights)| == 2 * |Committed(attempts)|
    ensures RowsOfPair(AuditRows(attempts, heights), Committed(attempts), m)
    ensures SatsIn(AuditRows(attempts, heights), a) == Audited(Committed(attempts), a)
  {
    if |attempts| != 0 {
      var n := |attempts| - 1;
      var before, pairs := AuditRows(attempts[..n], heights[..n]), Committed(attempts[..n]);
      var p := attempts[n].pair;
      RowsAudit(attempts[..n], heights[..n], a, m);
      SatsInTwo(before, AuditRow(heights[n], p.credit, p.amount), AuditRow(heights[n], p.debit, p.amount), a);
      OneMorePair(before, pairs, p, heights[n], m);
      assert before + [] == before && pairs + [] == pairs;
      assert (pairs + [p])[..|pairs|] == pairs;
    }
  }

  /** The rows added since `earlier` show, for an address, exactly what its balance shrank by. */
  ghost predicate ShowsChange(before: Table, after: Table, earlier: seq<AuditRow>, history: seq<AuditRow>, a: Address) {
    earlier <= history && SatsIn(history[|earlier|..], a) == Abs(Bal(before, a)) - Abs(Bal(after, a))
  }

  /** The rows added since `earlier` are the two of every pair, and none besides. */
  ghost predicate ShowsPairs(earlier: seq<AuditRow>, history: seq<AuditRow>, pairs: seq<Pair>) {
    && |history| == |earlier| + 2 * |pairs| && earlier <= history
    && forall m: nat :: RowsOfPair(history[|earlier|..], pairs, m)
  }

  lemma {:induction false} SweepAudited(s: Start, clock: nat -> int, attempts: seq<Attempt>, history: seq<AuditRow>,
                                        last: Option<int>)
    requires Trail(s, clock, attempts, history, last) && AllCancel(s.balances, Committed(attempts))
    ensures ShowsPairs(s.history, history, Committed(attempts))
    ensures var after := CancelAll(s.balances, Committed(attempts));
            Total(after) == Total(s.balances) && forall a :: ShowsChange(s.balances, after, s.history, history, a)
  {
    var heights := Heights(s.last, Readings(clock, |attempts|));
    var rows, after := AuditRows(attempts, heights), CancelAll(s.balances, Committed(attempts));
    assert history[|s.history|..] == rows;
    RowsAudit(attempts, heights, "", 0);
    CancelAllEffect(s.balances, Committed(attempts), "");
    forall m: nat ensures RowsOfPair(rows, Committed(attempts), m) { RowsAudit(attempts, heights, "", m); }
    forall a
      ensures ShowsChange(s.balances, after, s.history, history, a)
    {
      RowsAudit(attempts, heights, a, 0);
      CancelAllEffect(s.balances, Committed(attempts), a);
    }
  }

  ghost predicate UniqueRows(history: seq<AuditRow>) {
    forall i, j :: 0 <= i < j < |history| ==>
      history[i].blockHeight != history[j].blockHeight || history[i].address != history[j].address
  }

  /** Where the service stood when the sweep began, and the rows it loaded. */
  datatype Start = Start(balances: Table, last: Option<int>, history: seq<AuditRow>, credits: Side, debits: Side)

  function Readings(clock: nat -> int, n: nat): (r: seq<int>)
    ensures |r| == n
  {
    seq(n, m requires m >= 0 => clock(m))
  }

  function LastHeight(last: Option<int>, heights: seq<int>): Option<int> {
    if |heights| == 0 then last else Some(heights[|heights| - 1])
  }

  /** After the attempts `done`, with the rows c and d still to pair. */
  ghost predicate Pairing(s: Start, fails: nat -> bool, done: seq<Attempt>, c: Side, d: Side, balances: Table) {
    && Open(s.credits, s.debits) && Open(c, d) && Mirrors(balances, c, d)
    && Attempts(s.credits, s.debits, fails, 0) == done + Attempts(c, d, fails, |done|)
    && balances == CancelAll(s.balances, Committed(done))
  }

  ghost predicate Trail(s: Start, clock: nat -> int, done: seq<Attempt>, history: seq<AuditRow>, last: Option<int>) {
    var heights := Heights(s.last, Readings(clock, |done|));
    history == s.history + AuditRows(done, heights) && last == LastHeight(s.last, heights)
  }

  lemma {:induction false} HeightsNext(last: Option<int>, clock: nat -> int, n: nat)
    ensures var before := Heights(last, Readings(clock, n));
            Heights(last, Readings(clock, n + 1)) == before + [NextHeight(LastHeight(last, before), clock(n))]
  {
    assert Readings(clock, n + 1) == Readings(clock, n) + [clock(n)];
    HeightsSnoc(last, Readings(clock, n), clock(n));
  }

  /** The audit rows an attempt adds. */
  function RowsFor(a: Attempt, height: int): seq<AuditRow> {
    if a.committed
    then [AuditRow(height, a.pair.credit, a.pair.amount), AuditRow(height, a.pair.debit, a.pair.amount)]
    else []
  }

  lemma {:induction false} TrailNext(s: Start, clock: nat -> int, done: seq<Attempt>, history: seq<AuditRow>,
                                     last: Option<int>,
                                     a: Attempt)
    requires Trail(s, clock, done, history, last)
    ensures var h := NextHeight(last, clock(|done|));
            Trail(s, clock, done + [a], history + RowsFor(a, h), Some(h))
  {
    var heights := Heights(s.last, Readings(clock, |done|));
    var h := NextHeight(last, clock(|done|));
    HeightsNext(s.last, clock, |done|);
    AuditRowsSnoc(done, heights, a, h);
    assert history + RowsFor(a, h) == s.history + (AuditRows(done, heights) + RowsFor(a, h));
  }

  lemma {:induction false} MoveFirst(all: seq<Attempt>, done: seq<Attempt>, a: Attempt, rest: seq<Attempt>)
    requires all == done + ([a] + rest)
    ensures all == (done + [a]) + rest
  {
    assert done + ([a] + rest) == (done + [a]) + rest;
  }

  lemma {:induction false} SkipAttempt(all: seq<Attempt>, fails: nat -> bool, done: seq<Attempt>, c: Side, d: Side)
    requires Open(c, d) && |c| > 0 && |d| > 0 && fails(|done|)
    requires all == done + Attempts(c, d, fails, |done|)
    ensures Open(c[1..], d[1..])
    ensures all == (done + [Attempt(NextPair(c, d), false)]) + Attempts(c[1..], d[1..], fails, |done| + 1)
  {
    MoveFirst(all, done, Attempt(NextPair(c, d), false), Attempts(c[1..], d[1..], fails, |done| + 1));
  }

  lemma {:induction false} CommitAttempt(all: seq<Attempt>, fails: nat -> bool, done: seq<Attempt>, c: Side, d: Side)
    requires Open(c, d) && |c| > 0 && |d| > 0 && !fails(|done|)
    requires all == done + Attempts(c, d, fails, |done|)
    ensures var p := NextPair(c, d);
            var c', d' := Advance(c, -p.amount), Advance(d, p.amount);
            && Open(c', d')
            && all == (done + [Attempt(p, true)]) + Attempts(c', d', fails, |done| + 1)
  {
    var p := NextPair(c, d);
    var c', d' := Advance(c, -p.amount), Advance(d, p.amount);
    MoveFirst(all, done, Attempt(p, true), Attempts(c', d', fails, |done| + 1));
  }

  lemma {:induction false} SkipPairing(s: Start, fails: nat -> bool, done: seq<Attempt>, c: Side, d: Side,
                                       balances: Table)
    requires Pairing(s, fails, done, c, d, balances)
    requires |c| > 0 && |d| > 0 && fails(|done|)
    ensures Pairing(s, fails, done + [Attempt(NextPair(c, d), false)], c[1..], d[1..], balances)
  {
    SkipKeepsMirrors(balances, c, d);
    SkipAttempt(Attempts(s.credits, s.debits, fails, 0), fails, done, c, d);
    CommittedSnoc(done, Attempt(NextPair(c, d), false));
    assert Committed(done) + [] == Committed(done);
  }

  lemma {:induction false} CommitPairing(s: Start, fails: nat -> bool, done: seq<Attempt>, c: Side, d: Side,
                                         balances: Table)
    requires |c| > 0 && |d| > 0 && !fails(|done|)
    ensures var p := NextPair(c, d);
            Pairing(s, fails, done, c, d, balances) ==>
              Pairing(s, fails, done + [Attempt(p, true)], Advance(c, -p.amount), Advance(d, p.amount),
                      Cancel(balances, p))
  {
    if Pairing(s, fails, done, c, d, balances) {
      var p := NextPair(c, d);
      MirrorsAfterCommit(balances, c, d);
      CommitAttempt(Attempts(s.credits, s.debits, fails, 0), fails, done, c, d);
      CommittedSnoc(done, Attempt(p, true));
      CancelSnoc(s.balances, Committed(done), p);
    }
  }

  lemma {:induction false} CancelSnoc(l: Table, pairs: seq<Pair>, p: Pair)
    ensures CancelAll(l, pairs + [p]) == Cancel(CancelAll(l, pairs), p)
  {
    assert (pairs + [p])[..|pairs|] == pairs;
  }

  lemma {:induction false} SatsPairedSnoc(pairs: seq<Pair>, p: Pair)
    ensures SatsPaired(pairs + [p]) == SatsPaired(pairs) + p.amount
  {
    assert (pairs + [p])[..|pairs|] == pairs;
  }

  /** The in-memory balances of one side. */
  method LoadSats(side: Side) returns (sats: array<int>)
    ensures fresh(sats) && sats[..] == Sats(side)
  {
    sats := new int[|side|](k requires 0 <= k < |side| => side[k].1);
  }

  /** Reflects a committed cancellation in the in-memory rows. */
  method StoreBoth(a: array<int>, i: nat, x: int, b: array<int>, j: nat, y: int)
    requires i < a.Length && j < b.Length && a != b
    modifies a, b
    ensures a[..] == old(a[..])[i := x] && b[..] == old(b[..])[j := y]
  {
    a[i] := x;
    b[j] := y;
  }

  class DustSweepService {
    var lastSweepBlockHeight: Option<int>
    var balances: Table                                // pplns_balance: address to balanceSats
    var lastAcceptedShareAt: map<Address, Option<int>> // pplns_balance: address to its last share
    var history: seq<AuditRow>                         // audit rows written by this process

    /** No two audit rows collide on (blockHeight, address), and none ever will. */
    ghost predicate Valid()
      reads this
    {
      && UniqueRows(history)
      && (forall r :: r in history ==> lastSweepBlockHeight.Some? && r.blockHeight >= lastSweepBlockHeight.value)
    }

    /** `getMany` returns every dormant non-zero row once, in some order. */
    ghost predicate IsQueryResult(order: seq<Address>, cutoffMs: int)
      reads this
    {
      Distinct(order) &&
      forall a :: a in order <==>
        a in balances && balances[a] != 0 && a in lastAcceptedShareAt && lastAcceptedShareAt[a].Some?
        && lastAcceptedShareAt[a].value < cutoffMs
    }

    constructor ()
      ensures Valid() && history == [] && lastSweepBlockHeight == None && balances == map[]
    {
      lastSweepBlockHeight, balances, lastAcceptedShareAt, history := None, map[], map[], [];
    }

    method SweepBlockHeight(nowMs: int) returns (height: int)
      modifies this`lastSweepBlockHeight
      ensures height == NextHeight(old(lastSweepBlockHeight), nowMs)
      ensures lastSweepBlockHeight == Some(height)
      ensures -height >= nowMs / 1000 && (old(lastSweepBlockHeight).None? ==> -height == nowMs / 1000)
      ensures var last := old(lastSweepBlockHeight);
              last.Some? ==> height < last.value && (-height == nowMs / 1000 || height == last.value - 1)
    {
      var now := -(nowMs / 1000);
      if lastSweepBlockHeight != None && now >= lastSweepBlockHeight.value {
        lastSweepBlockHeight := Some(lastSweepBlockHeight.value - 1);
      } else {
        lastSweepBlockHeight := Some(now);
      }
      height := lastSweepBlockHeight.value;
    }

    /** One pair transaction: all four writes, or none. */
    method PairTransaction(height: int, p: Pair, newCredit: int, newDebit: int, fails: bool) returns (committed: bool)
      modifies this`balances, this`history
      ensures committed == !fails
      ensures !committed ==> balances == old(balances) && history == old(history)
      ensures committed ==> balances == SetRow(SetRow(old(balances), p.credit, newCredit), p.debit, newDebit)
      ensures committed ==> history == old(history) + RowsFor(Attempt(p, true), height)
    {
      if fails { return false; }
      history := history + [AuditRow(height, p.credit, p.amount), AuditRow(height, p.debit, p.amount)];
      balances := if newCredit == 0 then balances - {p.credit} else balances[p.credit := newCredit];
      balances := if newDebit == 0 then balances - {p.debit} else balances[p.debit := newDebit];
      committed := true;
    }

    /** Draws a height and tries the pair's transaction. */
    method TryPair(p: Pair, newCredit: int, newDebit: int, fails: bool, nowMs: int)
        returns (committed: bool, ghost height: int)
      modifies this`lastSweepBlockHeight, this`balances, this`history
      ensures committed == !fails
      ensures height == NextHeight(old(lastSweepBlockHeight), nowMs) && lastSweepBlockHeight == Some(height)
      ensures balances == if committed then SetRow(SetRow(old(balances), p.credit, newCredit), p.debit, newDebit)
                else old(balances)
      ensures history == old(history) + RowsFor(Attempt(p, committed), height)
    {
      var h := SweepBlockHeight(nowMs);
      committed := PairTransaction(h, p, newCredit, newDebit, fails);
      height := h;
    }

    /** One round of the loop: draw a height, try the pair, and move the pointers. */
    method PairStep(ghost s: Start, fails: nat -> bool, clock: nat -> int, ghost done: seq<Attempt>, n: nat,
                    credits: Side, creditSats: array<int>, i: nat, debits: Side, debitSats: array<int>, j: nat)
        returns (i': nat, j': nat, committed: bool, amount: int, ghost done': seq<Attempt>)
      requires creditSats != debitSats && n == |done| && credits == s.credits && debits == s.debits
      requires Running(s, fails, clock, done, creditSats[..], i, debitSats[..], j, balances, history,
                       lastSweepBlockHeight)
      requires i < |credits| && j < |debits|
      modifies this`lastSweepBlockHeight, this`balances, this`history, creditSats, debitSats
      ensures Running(s, fails, clock, done', creditSats[..], i', debitSats[..], j', balances, history,
                      lastSweepBlockHeight)
      ensures i <= i' && j <= j' && i + j < i' + j'
      ensures |done'| == n + 1 && Counted(done, done', if committed then 1 else 0, if committed then amount else 0)
    {
      ghost var cs, ds, l, h, last := creditSats[..], debitSats[..], balances, history, lastSweepBlockHeight;
      amount := if creditSats[i] < -debitSats[j] then creditSats[i] else -debitSats[j];
      var newCredit, newDebit := creditSats[i] - amount, debitSats[j] + amount;
      var p := Pair(credits[i].0, debits[j].0, amount);
      ghost var height;
      committed, height := TryPair(p, newCredit, newDebit, fails(n), clock(n));
      ghost var next := StepTaken(cs, i, ds, j, newCredit, newDebit, committed);
      done' := RunStep(s, fails, clock, done, cs, i, ds, j, l, h, last, p, height, committed, newCredit, newDebit,
                       next);
      if !committed { return i + 1, j + 1, committed, amount, done'; }
      StoreBoth(creditSats, i, newCredit, debitSats, j, newDebit);
      i', j' := if newCredit == 0 then i + 1 else i, if newDebit == 0 then j + 1 else j;
    }

    /** The two-pointer walk, until one side has no rows left. */
    method PairAll(ghost s: Start, fails: nat -> bool, clock: nat -> int,
                   credits: Side, creditSats: array<int>, debits: Side, debitSats: array<int>)
        returns (pairsClosed: nat, satsPaired: int, ghost attempts: seq<Attempt>, ghost i: nat, ghost j: nat)
      requires creditSats != debitSats && credits == s.credits && debits == s.debits
      requires Running(s, fails, clock, [], creditSats[..], 0, debitSats[..], 0, balances, history,
                       lastSweepBlockHeight)
      modifies this`lastSweepBlockHeight, this`balances, this`history, creditSats, debitSats
      ensures Running(s, fails, clock, attempts, creditSats[..], i, debitSats[..], j, balances, history,
                      lastSweepBlockHeight)
      ensures i == |credits| || j == |debits|
      ensures pairsClosed == 2 * |Committed(attempts)| && satsPaired == SatsPaired(Committed(attempts))
    {
      pairsClosed, satsPaired, attempts := 0, 0, [];
      var x, y, n := 0, 0, 0;
      while x < |credits| && y < |debits|
        invariant |attempts| == n
        invariant Running(s, fails, clock, attempts, creditSats[..], x, debitSats[..], y, balances, history,
                          lastSweepBlockHeight)
        invariant pairsClosed == 2 * |Committed(attempts)| && satsPaired == SatsPaired(Committed(attempts))
        decreases |credits| - x + |debits| - y
      {
        var amount, committed;
        x, y, committed, amount, attempts :=
          PairStep(s, fails, clock, attempts, n, credits, creditSats, x, debits, debitSats, y);
        if committed {
          pairsClosed, satsPaired := pairsClosed + 2, satsPaired + amount;
        }
        n := n + 1;
      }
      i, j := x, y;
    }

    /**
     * `order` is the order in which the query returns its rows, `fails(n)` whether the n-th pair's
     * transaction rolls back, `clock(n)` the time read for it.
     */
    method SweepPplnsPairs(cutoffMs: int, order: seq<Address>, fails: nat -> bool, clock: nat -> int)
        returns (pairsClosed: nat, satsPaired: int, ghost attempts: seq<Attempt>)
      requires Valid() && IsQueryResult(order, cutoffMs)
      modifies this`lastSweepBlockHeight, this`balances, this`history
      ensures Valid()
      ensures Open(CreditSide(old(balances), order), DebitSide(old(balances), order))
      ensures attempts == Attempts(CreditSide(old(balances), order), DebitSide(old(balances), order), fails, 0)
      ensures AllCancel(old(balances), Committed(attempts))
      ensures balances == CancelAll(old(balances), Committed(attempts))
      ensures Trail(Start(old(balances), old(lastSweepBlockHeight), old(history),
                          CreditSide(old(balances), order), DebitSide(old(balances), order)),
                    clock, attempts, history, lastSweepBlockHeight)
      ensures pairsClosed == 2 * |Committed(attempts)| && satsPaired == SatsPaired(Committed(attempts))
      ensures NeverFails(fails) ==> IsMin(satsPaired, OwedTo(old(balances), order), OwedBy(old(balances), order))
      ensures AllClosed(old(balances), order, true, balances, attempts)
           || AllClosed(old(balances), order, false, balances, attempts)
      ensures Total(balances) == Total(old(balances))
      ensures ShowsPairs(old(history), history, Committed(attempts))
      ensures forall a :: ShowsChange(old(balances), balances, old(history), history, a)
    {
      var credits, debits := CreditSide(balances, order), DebitSide(balances, order);
      SidesMirror(balances, order);
      SideTotals(balances, order);
      SweepClosesASide(balances, order, fails, Attempts(credits, debits, fails, 0));
      ghost var s := Start(balances, lastSweepBlockHeight, history, credits, debits);
      var creditSats := LoadSats(credits);
      var debitSats := LoadSats(debits);
      RunBegin(s, fails, clock);
      ghost var i, j;
      pairsClosed, satsPaired, attempts, i, j := PairAll(s, fails, clock, credits, creditSats, debits, debitSats);
      SweepFinished(s, fails, clock, attempts, Remaining(credits, creditSats[..], i),
                    Remaining(debits, debitSats[..], j),
                    balances, history, lastSweepBlockHeight);
      SweepAudited(s, clock, attempts, history, lastSweepBlockHeight);
      if NeverFails(fails) {
        SweepExhaustsOneSide(credits, debits, fails, 0);
      }
    }
  }

  /** The loop of the sweep, with in-memory balances cs and ds and pointers i and j. */
  ghost predicate Running(s: Start, fails: nat -> bool, clock: nat -> int, done: seq<Attempt>, cs: seq<int>, i: nat,
                          ds: seq<int>, j: nat,
                          balances: Table, history: seq<AuditRow>, last: Option<int>)
  {
    && i <= |s.credits| == |cs| && j <= |s.debits| == |ds|
    && Pairing(s, fails, done, Remaining(s.credits, cs, i), Remaining(s.debits, ds, j), balances)
    && Trail(s, clock, done, history, last)
  }

  /** The in-memory balances and pointers after a round. */
  datatype Pointers = Pointers(cs: seq<int>, i: nat, ds: seq<int>, j: nat)

  function StepTaken(cs: seq<int>, i: nat, ds: seq<int>, j: nat, newCredit: int, newDebit: int,
                     committed: bool): Pointers
    requires i < |cs| && j < |ds|
  {
    if committed
    then Pointers(cs[i := newCredit], if newCredit == 0 then i + 1 else i,
                  ds[j := newDebit], if newDebit == 0 then j + 1 else j)
    else Pointers(cs, i + 1, ds, j + 1)
  }

  ghost predicate Counted(done: seq<Attempt>, done': seq<Attempt>, pairs: int, sats: int) {
    && |Committed(done')| == |Committed(done)| + pairs
    && SatsPaired(Committed(done')) == SatsPaired(Committed(done)) + sats
  }

  lemma {:induction false} RunStep(s: Start, fails: nat -> bool, clock: nat -> int, done: seq<Attempt>, cs: seq<int>,
                                   i: nat, ds: seq<int>, j: nat, l: Table, h: seq<AuditRow>, last: Option<int>,
                                   p: Pair, height: int,
                                   committed: bool, newCredit: int, newDebit: int, next: Pointers)
      returns (done': seq<Attempt>)
    requires Running(s, fails, clock, done, cs, i, ds, j, l, h, last)
    requires i < |cs| && j < |ds| && committed == !fails(|done|)
    requires p == Pair(s.credits[i].0, s.debits[j].0, if cs[i] < -ds[j] then cs[i] else -ds[j])
    requires height == NextHeight(last, clock(|done|))
    requires newCredit == cs[i] - p.amount && newDebit == ds[j] + p.amount
    requires next == StepTaken(cs, i, ds, j, newCredit, newDebit, committed)
    ensures done' == done + [Attempt(p, committed)]
    ensures Running(s, fails, clock, done', next.cs, next.i, next.ds, next.j,
                    if committed then SetRow(SetRow(l, p.credit, newCredit), p.debit, newDebit) else l,
                    h + RowsFor(Attempt(p, committed), height), Some(height))
    ensures Counted(done, done', if committed then 1 else 0, if committed then p.amount else 0)
    ensures newCredit == 0 || newDebit == 0
  {
    done' := done + [Attempt(p, committed)];
    CommitCounts(done, p, committed);
    if committed {
      RunCommit(s, fails, clock, done, cs, i, ds, j, l, h, last, p, height, newCredit, newDebit);
    } else {
      RunSkip(s, fails, clock, done, cs, i, ds, j, l, h, last, p, height);
    }
  }

  lemma {:induction false} RunBegin(s: Start, fails: nat -> bool, clock: nat -> int)
    requires Open(s.credits, s.debits) && Mirrors(s.balances, s.credits, s.debits)
    ensures Running(s, fails, clock, [], Sats(s.credits), 0, Sats(s.debits), 0, s.balances, s.history, s.last)
  {
    assert Remaining(s.credits, Sats(s.credits), 0) == s.credits && Remaining(s.debits, Sats(s.debits), 0) == s.debits;
    var all := Attempts(s.credits, s.debits, fails, 0);
    assert [] + all == all;
    assert Heights(s.last, Readings(clock, 0)) == [] && s.history + [] == s.history;
  }

  lemma {:induction false} CommitRemaining(s: Start, fails: nat -> bool, done: seq<Attempt>, cs: seq<int>, i: nat,
                                           ds: seq<int>, j: nat,
                                           l: Table, p: Pair, newCredit: int, newDebit: int)
    requires i < |s.credits| == |cs| && j < |s.debits| == |ds| && !fails(|done|)
    requires Pairing(s, fails, done, Remaining(s.credits, cs, i), Remaining(s.debits, ds, j), l)
    requires p == Pair(s.credits[i].0, s.debits[j].0, if cs[i] < -ds[j] then cs[i] else -ds[j])
    requires newCredit == cs[i] - p.amount && newDebit == ds[j] + p.amount
    ensures Pairing(s, fails, done + [Attempt(p, true)],
                    Remaining(s.credits, cs[i := newCredit], if newCredit == 0 then i + 1 else i),
                    Remaining(s.debits, ds[j := newDebit], if newDebit == 0 then j + 1 else j),
                    SetRow(SetRow(l, p.credit, newCredit), p.debit, newDebit))
  {
    var c, d := Remaining(s.credits, cs, i), Remaining(s.debits, ds, j);
    var c', d' := AdvanceBoth(s, cs, i, ds, j, p, newCredit, newDebit);
    PairIsCancel(l, c, d, p, newCredit, newDebit);
    CommitPairing(s, fails, done, c, d, l);
  }

  /** Moving the pointers is taking the pair's amount off the first rows. */
  lemma {:induction false} AdvanceBoth(s: Start, cs: seq<int>, i: nat, ds: seq<int>, j: nat, p: Pair, newCredit: int,
                                       newDebit: int)
      returns (c': Side, d': Side)
    requires i < |s.credits| == |cs| && j < |s.debits| == |ds|
    requires p == Pair(s.credits[i].0, s.debits[j].0, if cs[i] < -ds[j] then cs[i] else -ds[j])
    requires newCredit == cs[i] - p.amount && newDebit == ds[j] + p.amount
    ensures p == NextPair(Remaining(s.credits, cs, i), Remaining(s.debits, ds, j))
    ensures Remaining(s.credits, cs, i)[0].1 == cs[i] && Remaining(s.debits, ds, j)[0].1 == ds[j]
    ensures c' == Advance(Remaining(s.credits, cs, i), -p.amount)
            == Remaining(s.credits, cs[i := newCredit], if newCredit == 0 then i + 1 else i)
    ensures d' == Advance(Remaining(s.debits, ds, j), p.amount)
            == Remaining(s.debits, ds[j := newDebit], if newDebit == 0 then j + 1 else j)
  {
    NextPairOf(s.credits, cs, i, s.debits, ds, j);
    RemainingAdvance(s.credits, cs, i, -p.amount, newCredit);
    RemainingAdvance(s.debits, ds, j, p.amount, newDebit);
    c', d' := Advance(Remaining(s.credits, cs, i), -p.amount), Advance(Remaining(s.debits, ds, j), p.amount);
  }

  lemma {:induction false} RunCommit(s: Start, fails: nat -> bool, clock: nat -> int, done: seq<Attempt>, cs: seq<int>,
                                     i: nat, ds: seq<int>, j: nat, l: Table, h: seq<AuditRow>, last: Option<int>,
                                     p: Pair, height: int, newCredit: int, newDebit: int)
    requires Running(s, fails, clock, done, cs, i, ds, j, l, h, last)
    requires i < |cs| && j < |ds| && !fails(|done|)
    requires p == Pair(s.credits[i].0, s.debits[j].0, if cs[i] < -ds[j] then cs[i] else -ds[j])
    requires height == NextHeight(last, clock(|done|))
    requires newCredit == cs[i] - p.amount && newDebit == ds[j] + p.amount
    ensures Running(s, fails, clock, done + [Attempt(p, true)],
                    cs[i := newCredit], if newCredit == 0 then i + 1 else i,
                    ds[j := newDebit], if newDebit == 0 then j + 1 else j,
                    SetRow(SetRow(l, p.credit, newCredit), p.debit, newDebit),
                    h + RowsFor(Attempt(p, true), height), Some(height))
  {
    CommitRemaining(s, fails, done, cs, i, ds, j, l, p, newCredit, newDebit);
    TrailNext(s, clock, done, h, last, Attempt(p, true));
  }

  lemma {:induction false} CommitCounts(done: seq<Attempt>, p: Pair, committed: bool)
    ensures |Committed(done + [Attempt(p, committed)])| == |Committed(done)| + (if committed then 1 else 0)
    ensures SatsPaired(Committed(done + [Attempt(p, committed)])) ==
              SatsPaired(Committed(done)) + (if committed then p.amount else 0)
  {
    CommittedSnoc(done, Attempt(p, committed));
    if committed {
      SatsPairedSnoc(Committed(done), p);
    } else {
      assert Committed(done) + [] == Committed(done);
    }
  }

  lemma {:induction false} RunSkip(s: Start, fails: nat -> bool, clock: nat -> int, done: seq<Attempt>, cs: seq<int>,
                                   i: nat, ds: seq<int>, j: nat,
                                   l: Table, h: seq<AuditRow>, last: Option<int>, p: Pair, height: int)
    requires Running(s, fails, clock, done, cs, i, ds, j, l, h, last)
    requires i < |cs| && j < |ds| && fails(|done|)
    requires p == Pair(s.credits[i].0, s.debits[j].0, if cs[i] < -ds[j] then cs[i] else -ds[j])
    requires height == NextHeight(last, clock(|done|))
    ensures Running(s, fails, clock, done + [Attempt(p, false)], cs, i + 1, ds, j + 1,
                    l, h + RowsFor(Attempt(p, false), height), Some(height))
  {
    var c, d := Remaining(s.credits, cs, i), Remaining(s.debits, ds, j);
    NextPairOf(s.credits, cs, i, s.debits, ds, j);
    SkipPairing(s, fails, done, c, d, l);
    TrailNext(s, clock, done, h, last, Attempt(p, false));
    RemainingSkip(s.credits, cs, i);
    RemainingSkip(s.debits, ds, j);
  }

  lemma {:induction false} SweepFinished(s: Start, fails: nat -> bool, clock: nat -> int, done: seq<Attempt>, c: Side,
                                         d: Side,
                                         balances: Table, history: seq<AuditRow>, last: Option<int>)
    requires Pairing(s, fails, done, c, d, balances) && Trail(s, clock, done, history, last)
    requires |c| == 0 || |d| == 0
    requires Mirrors(s.balances, s.credits, s.debits)
    requires UniqueRows(s.history) && forall r :: r in s.history ==> s.last.Some? && r.blockHeight >= s.last.value
    ensures done == Attempts(s.credits, s.debits, fails, 0)
    ensures AllCancel(s.balances, Committed(done))
    ensures var heights := Heights(s.last, Readings(clock, |done|)); Decreasing(heights) && AllBelow(heights, s.last)
    ensures UniqueRows(history) && forall r :: r in history ==> last.Some? && r.blockHeight >= last.value
  {
    var heights := Heights(s.last, Readings(clock, |done|));
    assert done + Attempts(c, d, fails, |done|) == done;
    SweepOnlyCancels(s.balances, s.credits, s.debits, fails, 0);
    HeightsDecrease(s.last, Readings(clock, |done|));
    AuditRowsUnique(s.balances, done, heights);
    UniqueAcrossSweeps(s.history, AuditRows(done, heights), s.last, heights);
  }

  lemma {:induction false} UniqueAcrossSweeps(earlier: seq<AuditRow>, rows: seq<AuditRow>, first: Option<int>,
                                              heights: seq<int>)
    requires UniqueRows(earlier) && UniqueRows(rows)
    requires forall r :: r in earlier ==> first.Some? && r.blockHeight >= first.value
    requires forall r :: r in rows ==> r.blockHeight in heights
    requires Decreasing(heights) && AllBelow(heights, first)
    ensures UniqueRows(earlier + rows)
    ensures forall r :: r in earlier + rows ==>
              LastHeight(first, heights).Some? && r.blockHeight >= LastHeight(first, heights).value
  {
    var all := earlier + rows;
    forall i, j | 0 <= i < j < |all|
      ensures all[i].blockHeight != all[j].blockHeight || all[i].address != all[j].address
    {
      if i < |earlier| <= j {
        assert all[i] in earlier && all[j] in rows;
      }
    }
  }

  lemma {:induction false} PairIsCancel(l: Table, c: Side, d: Side, p: Pair, newCredit: int, newDebit: int)
    requires |c| > 0 && |d| > 0 && Open(c, d) && Mirrors(l, c, d) && p == NextPair(c, d)
    requires newCredit == c[0].1 - p.amount && newDebit == d[0].1 + p.amount
    ensures SetRow(SetRow(l, p.credit, newCredit), p.debit, newDebit) == Cancel(l, p)
  {
    assert c[0].1 == Bal(l, c[0].0) && d[0].1 == Bal(l, d[0].0);
  }

  lemma {:induction false} HeightsSnoc(last: Option<int>, readings: seq<int>, now: int)
    ensures Heights(last, readings + [now]) ==
              Heights(last, readings) +
              [NextHeight(if |readings| == 0 then last else Some(Heights(last, readings)[|readings| - 1]), now)]
  {
    assert (readings + [now])[..|readings|] == readings;
  }

  /** Rows of one pair differ in address, rows of different pairs in height. */
  lemma {:induction false} AuditRowsUnique(l: Table, attempts: seq<Attempt>, heights: seq<int>)
    requires |attempts| == |heights| && Decreasing(heights)
    requires AllCancel(l, Committed(attempts))
    ensures UniqueRows(AuditRows(attempts, heights))
    ensures forall r :: r in AuditRows(attempts, heights) ==> r.blockHeight in heights
  {
    if |attempts| != 0 {
      var n := |attempts| - 1;
      var before, a := attempts[..n], attempts[n];
      assert attempts == before + [a] && heights == heights[..n] + [heights[n]];
      CommittedPrefix(l, before, a);
      AuditRowsUnique(l, before, heights[..n]);
      AuditRowsSnoc(before, heights[..n], a, heights[n]);
      if a.committed {
        LowerPairUnique(AuditRows(before, heights[..n]), heights, n, a.pair);
      }
    }
  }

  lemma {:induction false} CommittedPrefix(l: Table, before: seq<Attempt>, a: Attempt)
    requires AllCancel(l, Committed(before + [a]))
    ensures AllCancel(l, Committed(before))
    ensures a.committed ==> a.pair.credit != a.pair.debit
  {
    CommittedSnoc(before, a);
    var all, n := Committed(before + [a]), |Committed(before)|;
    assert all[..n] == Committed(before);
    AllCancelPrefix(l, all, n);
    if a.committed {
      CancelledSidesKeepSign(l, all, n);
    }
  }

  lemma {:induction false} LowerPairUnique(rows: seq<AuditRow>, heights: seq<int>, n: nat, p: Pair)
    requires n < |heights| && Decreasing(heights) && p.credit != p.debit
    requires UniqueRows(rows) && forall r :: r in rows ==> r.blockHeight in heights[..n]
    ensures UniqueRows(rows + [AuditRow(heights[n], p.credit, p.amount), AuditRow(heights[n], p.debit, p.amount)])
  {
    forall i | 0 <= i < |rows|
      ensures rows[i].blockHeight > heights[n]
    {
      assert rows[i] in rows;
      var k :| 0 <= k < n && heights[..n][k] == rows[i].blockHeight;
    }
  }
}

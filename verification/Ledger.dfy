/** The signed ledger as a table, its total, and the two ways it is written. */
module Ledger {
  import opened Sums
  import opened CoinbaseSplit

  type Table = map<Address, int>

  /** An address without a row has no open claim. */
  function Bal(l: Table, a: Address): int {
    if a in l then l[a] else 0
  }

  ghost function Total(l: Table): int { MapTotal(l) }

  lemma {:induction false} TotalWithout(l: Table, a: Address)
    ensures Total(l) == Bal(l, a) + Total(l - {a})
  {
    if a in l {
      MapTotalWithout(l, a);
    } else {
      assert l - {a} == l;
    }
  }

  lemma {:induction false} TotalAfterWrite(l: Table, a: Address, v: int)
    ensures Total(l[a := v]) == Total(l) - Bal(l, a) + v
  {
    TotalWithout(l, a);
    TotalWithout(l[a := v], a);
    assert l[a := v] - {a} == l - {a};
  }

  /** Writes absolute balances, one row after the other. */
  function WriteAll(l: Table, entries: Entries<int>): Table {
    if |entries| == 0 then l
    else
      var last := entries[|entries| - 1];
      WriteAll(l, entries[..|entries| - 1])[last.0 := last.1]
  }

  /** A zero balance is stored by deleting the row. */
  function SetRow(l: Table, a: Address, v: int): (r: Table)
    ensures Bal(r, a) == v && forall x :: x != a ==> Bal(r, x) == Bal(l, x)
  {
    if v == 0 then l - {a} else l[a := v]
  }

  lemma TotalAfterSetRow(l: Table, a: Address, v: int)
    ensures Total(SetRow(l, a, v)) == Total(l) - Bal(l, a) + v
  {
    if v == 0 {
      TotalWithout(l, a);
    } else {
      TotalAfterWrite(l, a, v);
    }
  }

  datatype Pair = Pair(credit: Address, debit: Address, amount: int)

  /** One committed pair transaction. */
  function Cancel(l: Table, p: Pair): Table {
    SetRow(SetRow(l, p.credit, Bal(l, p.credit) - p.amount), p.debit, Bal(l, p.debit) + p.amount)
  }

  function CancelAll(l: Table, pairs: seq<Pair>): Table {
    if |pairs| == 0 then l else Cancel(CancelAll(l, pairs[..|pairs| - 1]), pairs[|pairs| - 1])
  }

  /** The pair cancels an open credit against an open debit, neither beyond zero. */
  ghost predicate Cancels(l: Table, p: Pair) {
    0 < p.amount && p.amount <= Bal(l, p.credit) && p.amount <= -Bal(l, p.debit)
  }

  ghost predicate AllCancel(l: Table, pairs: seq<Pair>) {
    forall n :: 0 <= n < |pairs| ==> Cancels(CancelAll(l, pairs[..n]), pairs[n])
  }

  lemma {:induction false} CancelEffect(l: Table, p: Pair)
    requires Cancels(l, p)
    ensures Total(Cancel(l, p)) == Total(l)
    ensures forall a :: Bal(Cancel(l, p), a) ==
              Bal(l, a) - (if a == p.credit then p.amount else 0) + (if a == p.debit then p.amount else 0)
  {
    var half := SetRow(l, p.credit, Bal(l, p.credit) - p.amount);
    TotalAfterSetRow(l, p.credit, Bal(l, p.credit) - p.amount);
    TotalAfterSetRow(half, p.debit, Bal(l, p.debit) + p.amount);
  }

  /** What the cancelled pairs took from an address: positive for credits, negative for debits. */
  function NetCancelled(pairs: seq<Pair>, a: Address): int {
    if |pairs| == 0 then 0
    else
      var p := pairs[|pairs| - 1];
      NetCancelled(pairs[..|pairs| - 1], a)
        + (if p.credit == a then p.amount else 0) - (if p.debit == a then p.amount else 0)
  }

  /** The sats an address's audit rows show: one row per side of every committed pair. */
  function Audited(pairs: seq<Pair>, a: Address): int {
    if |pairs| == 0 then 0
    else
      var p := pairs[|pairs| - 1];
      Audited(pairs[..|pairs| - 1], a) + (if p.credit == a then p.amount else 0)
        + (if p.debit == a then p.amount else 0)
  }

  function Abs(x: int): int { if x < 0 then -x else x }

  lemma AllCancelPrefix(l: Table, pairs: seq<Pair>, n: nat)
    requires AllCancel(l, pairs) && n <= |pairs|
    ensures AllCancel(l, pairs[..n])
  {
    forall m | 0 <= m < n
      ensures Cancels(CancelAll(l, pairs[..n][..m]), pairs[..n][m])
    {
      assert pairs[..n][..m] == pairs[..m];
      assert Cancels(CancelAll(l, pairs[..m]), pairs[m]);
    }
  }

  /**
   * Cancelling preserves the sum of all balances, never flips a sign, never grows a balance, and
   * the audit rows of every address add up to exactly what its balance shrank by.
   */
  lemma {:induction false} CancelAllEffect(l: Table, pairs: seq<Pair>, a: Address)
    requires AllCancel(l, pairs)
    ensures var after := CancelAll(l, pairs);
            && Total(after) == Total(l)
            && Bal(after, a) == Bal(l, a) - NetCancelled(pairs, a)
            && (Bal(l, a) >= 0 ==> 0 <= Bal(after, a) <= Bal(l, a))
            && (Bal(l, a) <= 0 ==> Bal(l, a) <= Bal(after, a) <= 0)
            && Audited(pairs, a) == Abs(Bal(l, a)) - Abs(Bal(after, a))
  {
    if |pairs| != 0 {
      var n := |pairs| - 1;
      AllCancelPrefix(l, pairs, n);
      CancelAllEffect(l, pairs[..n], a);
      CancelEffect(CancelAll(l, pairs[..n]), pairs[n]);
      CancelledSidesKeepSign(l, pairs, n);
    }
  }

  lemma CancelledSidesKeepSign(l: Table, pairs: seq<Pair>, n: nat)
    requires AllCancel(l, pairs) && n < |pairs|
    ensures Cancels(CancelAll(l, pairs[..n]), pairs[n])
    ensures pairs[n].credit != pairs[n].debit
  {
  }
}

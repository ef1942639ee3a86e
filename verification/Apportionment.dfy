/**
 * The three ways the coinbase split divides an amount: proportional floors, proportional floors
 * with the rounding tail on the largest recipient, and the proportional cuts of the solvency cap.
 */
module Apportionment {
  import opened Sums
  import opened StableSorting

  /** floor(amount * weight / total) for every weight; Dafny's `/` floors for a positive divisor. */
  function Floors(amount: int, weights: seq<int>, total: int): (r: seq<int>)
    requires total > 0
    ensures |r| == |weights|
  {
    seq(|weights|, k requires 0 <= k < |weights| => amount * weights[k] / total)
  }

  /** Position of the first largest weight, as a stable descending sort puts it in front. */
  function Biggest(weights: seq<int>): (k: nat)
    requires |weights| > 0
    ensures k < |weights|
  {
    SortPositions(Negated(weights))[0]
  }

  /** The floors, with whatever they leave of the amount added to the biggest weight. */
  function WithTail(floors: seq<int>, amount: int, weights: seq<int>): (r: seq<int>)
    requires |floors| == |weights| > 0
    ensures |r| == |weights|
  {
    var rest := amount - Sum(floors);
    var k := Biggest(weights);
    if rest > 0 then floors[k := floors[k] + rest] else floors
  }

  function ShareOut(amount: int, weights: seq<int>): (r: seq<int>)
    requires Sum(weights) > 0 && |weights| > 0
    ensures |r| == |weights|
  {
    WithTail(Floors(amount, weights, Sum(weights)), amount, weights)
  }

  /** What the n-th claimer (counted from 1) is asked to give up, before the clamp. */
  function Asked(overshoot: int, credits: seq<int>, n: nat): int
    requires 0 < n <= |credits| && Sum(credits) > 0
    decreases n, 0
  {
    if n == |credits| then overshoot - Sum(Cuts(overshoot, credits, n - 1))
    else overshoot * credits[n - 1] / Sum(credits)
  }

  /** The cuts of the first n claimers: everyone pro rata, the last one the rest, all clamped. */
  function Cuts(overshoot: int, credits: seq<int>, n: nat): (r: seq<int>)
    requires n <= |credits| && Sum(credits) > 0
    ensures |r| == n
    decreases n
  {
    if n == 0 then []
    else
      var asked := Asked(overshoot, credits, n);
      Cuts(overshoot, credits, n - 1) + [if asked > credits[n - 1] then credits[n - 1] else asked]
  }

  lemma FloorBounds(x: int, d: int)
    requires d > 0
    ensures d * (x / d) <= x < d * (x / d) + d
  {
  }

  lemma {:induction false} FloorsScaled(amount: int, weights: seq<int>, total: int)
    requires total > 0
    ensures total * Sum(Floors(amount, weights, total)) <= amount * Sum(weights)
    ensures amount * Sum(weights) <= total * Sum(Floors(amount, weights, total)) + |weights| * (total - 1)
  {
    if |weights| == 0 {
    } else {
      var n := |weights| - 1;
      var f := Floors(amount, weights, total);
      assert f[..n] == Floors(amount, weights[..n], total);
      FloorsScaled(amount, weights[..n], total);
      ScaledStep(amount, total, Sum(weights[..n]), weights[n], Sum(f[..n]), f[n], n);
    }
  }

  lemma ScaledStep(amount: int, total: int, before: int, w: int, head: int, q: int, n: int)
    requires total > 0 && q == amount * w / total
    requires total * head <= amount * before <= total * head + n * (total - 1)
    ensures total * (head + q) <= amount * (before + w) <= total * (head + q) + (n + 1) * (total - 1)
  {
    FloorBounds(amount * w, total);
    assert total * (head + q) == total * head + total * q;
    assert amount * (before + w) == amount * before + amount * w;
    assert (n + 1) * (total - 1) == n * (total - 1) + (total - 1);
  }

  /** Proportional floors lose less than one sat per recipient, and never overpay. */
  lemma {:induction false} FloorsLoseLessThanOneEach(amount: int, weights: seq<int>)
    requires Sum(weights) > 0
    ensures |weights| > 0
    ensures Sum(Floors(amount, weights, Sum(weights))) <= amount
    ensures amount < Sum(Floors(amount, weights, Sum(weights))) + |weights|
  {
    var total, paid, n := Sum(weights), Sum(Floors(amount, weights, Sum(weights))), |weights|;
    FloorsScaled(amount, weights, total);
    Cancel(total, paid, amount);
    assert total * amount < total * (paid + n) by {
      assert total * (paid + n) == total * paid + total * n;
      assert n * (total - 1) == total * n - n;
    }
    CancelStrictly(total, amount, paid + n);
  }

  lemma Cancel(total: int, x: int, y: int)
    requires total > 0 && total * x <= total * y
    ensures x <= y
  {
    if x > y {
      ScaledMonotone(total, y + 1, x);
    }
  }

  lemma CancelStrictly(total: int, x: int, y: int)
    requires total > 0 && total * x < total * y
    ensures x < y
  {
    if x >= y {
      ScaledMonotone(total, y, x);
    }
  }

  lemma ScaledMonotone(total: int, x: int, y: int)
    requires total >= 0 && x <= y
    ensures total * x <= total * y
  {
    assert total * y == total * x + total * (y - x);
    assert 0 <= total * (y - x);
  }

  lemma FloorWithin(amount: int, w: int, total: int)
    requires total > 0 && amount >= 0 && w >= 0
    ensures 0 <= amount * w / total
    ensures amount <= total ==> amount * w / total <= w
  {
    ScaledMonotone(amount, 0, w);
    FloorBounds(amount * w, total);
    CancelStrictly(total, -1, amount * w / total);
    if amount <= total {
      ScaledMonotone(w, amount, total);
      Cancel(total, amount * w / total, w);
    }
  }

  lemma FloorsNonNegative(amount: int, weights: seq<int>, total: int)
    requires total > 0 && amount >= 0
    requires forall k :: 0 <= k < |weights| ==> 0 <= weights[k]
    ensures forall k :: 0 <= k < |weights| ==> 0 <= Floors(amount, weights, total)[k]
  {
    forall k | 0 <= k < |weights|
      ensures 0 <= Floors(amount, weights, total)[k]
    {
      FloorWithin(amount, weights[k], total);
    }
  }

  /** Nothing is lost: the shares add up to the amount, and every share is non-negative. */
  lemma {:induction false} ShareOutIsExact(amount: int, weights: seq<int>)
    requires amount >= 0 && Sum(weights) > 0 && |weights| > 0
    requires forall k :: 0 <= k < |weights| ==> 0 <= weights[k]
    ensures Sum(ShareOut(amount, weights)) == amount
    ensures forall k :: 0 <= k < |weights| ==> 0 <= ShareOut(amount, weights)[k]
  {
    var floors := Floors(amount, weights, Sum(weights));
    FloorsLoseLessThanOneEach(amount, weights);
    FloorsNonNegative(amount, weights, Sum(weights));
    var k := Biggest(weights);
    SumUpdate(floors, k, floors[k] + amount - Sum(floors));
  }

  /** The rounding tail lands on a largest weight, and is smaller than the number of recipients. */
  lemma {:induction false} ShareOutTail(amount: int, weights: seq<int>, k: nat)
    requires amount >= 0 && Sum(weights) > 0 && k < |weights|
    ensures var exactFloor := amount * weights[k] / Sum(weights);
            exactFloor <= ShareOut(amount, weights)[k] < exactFloor + |weights|
    ensures ShareOut(amount, weights)[k] != amount * weights[k] / Sum(weights) ==>
              forall j :: 0 <= j < |weights| ==> weights[j] <= weights[k]
  {
    FloorsLoseLessThanOneEach(amount, weights);
    var keys := Negated(weights);
    var p := SortPositions(keys);
    SortIsStableSort(keys);
    forall j | 0 <= j < |weights|
      ensures weights[j] <= weights[Biggest(weights)]
    {
      assert j in p;
      var i :| 0 <= i < |p| && p[i] == j;
      assert i > 0 ==> Before(keys, p[0], p[i]);
    }
  }

  ghost predicate Claims(overshoot: int, credits: seq<int>) {
    0 < overshoot <= Sum(credits) && |credits| > 0 && forall k :: 0 <= k < |credits| ==> 0 < credits[k]
  }

  lemma {:induction false} ProRataCuts(overshoot: int, credits: seq<int>, n: nat)
    requires Claims(overshoot, credits) && n < |credits|
    ensures Cuts(overshoot, credits, n) == Floors(overshoot, credits[..n], Sum(credits))
  {
    if n != 0 {
      ProRataCuts(overshoot, credits, n - 1);
      FloorWithin(overshoot, credits[n - 1], Sum(credits));
    }
  }

  lemma {:induction false} ProRataFloors(overshoot: int, credits: seq<int>, n: nat)
    requires Claims(overshoot, credits) && n <= |credits|
    ensures var floors := Floors(overshoot, credits[..n], Sum(credits));
            Sum(floors) <= overshoot && forall k :: 0 <= k < n ==> 0 <= floors[k] <= credits[k]
  {
    var total, head := Sum(credits), credits[..n];
    var floors := Floors(overshoot, head, total);
    forall k | 0 <= k < n
      ensures 0 <= floors[k] <= credits[k]
    {
      FloorWithin(overshoot, credits[k], total);
    }
    FloorsScaled(overshoot, head, total);
    PrefixSumAtMost(credits, n);
    ScaledMonotone(overshoot, Sum(head), total);
    assert total * Sum(floors) <= total * overshoot;
    Cancel(total, Sum(floors), overshoot);
  }

  lemma {:induction false} PrefixSumAtMost(s: seq<int>, n: nat)
    requires n <= |s| && forall k :: 0 <= k < |s| ==> 0 <= s[k]
    ensures Sum(s[..n]) <= Sum(s)
  {
    assert s == s[..n] + s[n..];
    SumConcat(s[..n], s[n..]);
    SumNonNegative(s[n..]);
  }

  /** Every cut lies between nothing and the claimer's own credit; together at most the overshoot. */
  lemma {:induction false} CutsWithinCredit(overshoot: int, credits: seq<int>)
    requires Claims(overshoot, credits)
    ensures forall k :: 0 <= k < |credits| ==> 0 <= Cuts(overshoot, credits, |credits|)[k] <= credits[k]
    ensures Sum(Cuts(overshoot, credits, |credits|)) <= overshoot
  {
    var n := |credits|;
    ProRataCuts(overshoot, credits, n - 1);
    ProRataFloors(overshoot, credits, n - 1);
    var cuts := Cuts(overshoot, credits, n);
    assert cuts[..n - 1] == Cuts(overshoot, credits, n - 1);
  }

  /** The other claimers' floors leave the last, largest claimer more to give up than its credit. */
  predicate LastCannotBear(overshoot: int, credits: seq<int>) {
    && 0 < overshoot <= Sum(credits) && |credits| > 0
    && overshoot - Sum(Floors(overshoot, credits[..|credits| - 1], Sum(credits))) > credits[|credits| - 1]
  }

  /** The cap closes the whole gap exactly when the last claimer can bear what is left for it. */
  lemma {:induction false} CapClosesGapIff(overshoot: int, credits: seq<int>)
    requires Claims(overshoot, credits)
    ensures Sum(Cuts(overshoot, credits, |credits|)) == overshoot <==> !LastCannotBear(overshoot, credits)
  {
    var n := |credits|;
    ProRataCuts(overshoot, credits, n - 1);
    var cuts := Cuts(overshoot, credits, n);
    assert cuts[..n - 1] == Cuts(overshoot, credits, n - 1);
  }

  /** Three conditions a reader can check without computing the cuts, each enough to close the gap. */
  lemma {:induction false} CapClosesGapWhen(overshoot: int, credits: seq<int>)
    requires Claims(overshoot, credits)
    requires var n, total := |credits|, Sum(credits);
             || n <= 2
             || credits[n - 1] * (total - overshoot) >= (n - 1) * total
             || overshoot == total
    ensures Sum(Cuts(overshoot, credits, |credits|)) == overshoot
  {
    var n, total := |credits|, Sum(credits);
    var last, rest := credits[n - 1], credits[..n - 1];
    CapClosesGapIff(overshoot, credits);
    if overshoot == total {
      FullCutsAreCredits(total, rest);
    } else {
      FloorsScaled(overshoot, rest, total);
      RestIsBearable(total, overshoot, last, Sum(rest), Sum(Floors(overshoot, rest, total)), n - 1);
    }
  }

  lemma RestIsBearable(total: int, overshoot: int, last: int, rest: int, others: int, m: nat)
    requires 0 < overshoot <= total && total == rest + last && last > 0
    requires overshoot * rest <= total * others + m * (total - 1)
    requires m <= 1 || last * (total - overshoot) >= m * total
    ensures overshoot - others <= last
  {
    assert overshoot * rest == overshoot * total - overshoot * last;
    assert total * (overshoot - others) <= overshoot * last + m * (total - 1);
    ScaledMonotone(last, overshoot, total);
    assert last * (total - overshoot) == last * total - last * overshoot;
    assert m * (total - 1) == m * total - m;
    assert m == 1 ==> m * total == total;
    assert total * (overshoot - others) < total * (last + 1) by {
      assert total * (last + 1) == total * last + total;
    }
    CancelStrictly(total, overshoot - others, last + 1);
  }

  lemma {:induction false} FullCutsAreCredits(total: int, s: seq<int>)
    requires total > 0
    ensures Floors(total, s, total) == s
  {
    forall k | 0 <= k < |s|
      ensures total * s[k] / total == s[k]
    {
      var q := total * s[k] / total;
      FloorBounds(total * s[k], total);
      Cancel(total, q, s[k]);
      assert total * (q + 1) == total * q + total;
      CancelStrictly(total, s[k], q + 1);
    }
  }

  /** Three credits of 10 against an overshoot of 29: floors 9 and 9, the last asked 11, given 10. */
  lemma ClampResidualWitness()
    ensures Claims(29, [10, 10, 10])
    ensures Cuts(29, [10, 10, 10], 3) == [9, 9, 10]
    ensures Sum(Cuts(29, [10, 10, 10], 3)) == 28 < 29
  {
    var c := [10, 10, 10];
    var one, ten := [10], [10, 10];
    assert c[..2] == ten && ten[..1] == one && one[..0] == [];
    assert Sum(one) == 10 && Sum(ten) == 20;
    assert Sum(c) == 30;
    assert Cuts(29, c, 1) == [9];
    assert Cuts(29, c, 2) == [9, 9];
    var two := [9, 9];
    assert two[..1] == [9];
    assert Sum(two) == 18;
    var all := [9, 9, 10];
    assert all[..2] == two;
  }
}

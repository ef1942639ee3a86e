/** Finite sums of sats, and selecting and updating sequences by lists of positions. */
module Sums {

  function Sum(s: seq<int>): int {
    if |s| == 0 then 0 else Sum(s[..|s| - 1]) + s[|s| - 1]
  }

  function Negated(s: seq<int>): (r: seq<int>)
    ensures |r| == |s|
  {
    seq(|s|, k requires 0 <= k < |s| => -s[k])
  }

  function Zeros(n: nat): (r: seq<int>)
    ensures |r| == n
  {
    seq(n, _ => 0)
  }

  ghost predicate Distinct<T>(s: seq<T>) {
    forall i, j :: 0 <= i < j < |s| ==> s[i] != s[j]
  }

  /** The elements of s at the given positions, in the order of the positions. */
  function Pick<T>(s: seq<T>, idx: seq<nat>): (r: seq<T>)
    requires forall i :: 0 <= i < |idx| ==> idx[i] < |s|
    ensures |r| == |idx|
  {
    seq(|idx|, i requires 0 <= i < |idx| => s[idx[i]])
  }

  /** Adds amounts[i] to the entry at position idx[i], for every i in turn. */
  function AddAll(s: seq<int>, idx: seq<nat>, amounts: seq<int>): (r: seq<int>)
    requires |idx| == |amounts|
    requires forall i :: 0 <= i < |idx| ==> idx[i] < |s|
    ensures |r| == |s|
  {
    if |idx| == 0 then s
    else
      var n := |idx| - 1;
      var before := AddAll(s, idx[..n], amounts[..n]);
      before[idx[n] := before[idx[n]] + amounts[n]]
  }

  lemma {:induction false} SumConcat(a: seq<int>, b: seq<int>)
    ensures Sum(a + b) == Sum(a) + Sum(b)
  {
    if |b| == 0 {
      assert a + b == a;
    } else {
      assert (a + b)[..|a + b| - 1] == a + b[..|b| - 1];
      SumConcat(a, b[..|b| - 1]);
    }
  }

  lemma SumOne(x: int)
    ensures Sum([x]) == x && Sum([]) == 0
  {
    var one := [x];
    assert one[..0] == [];
    assert Sum(one) == Sum(one[..0]) + one[0];
  }

  lemma {:induction false} SumUpdate(s: seq<int>, i: nat, v: int)
    requires i < |s|
    ensures Sum(s[i := v]) == Sum(s) - s[i] + v
  {
    var n := |s| - 1;
    if i == n {
      assert s[i := v][..n] == s[..n];
    } else {
      assert s[i := v][..n] == s[..n][i := v];
      SumUpdate(s[..n], i, v);
    }
  }

  lemma {:induction false} SumBounds(a: seq<int>, b: seq<int>)
    requires |a| == |b|
    requires forall i :: 0 <= i < |a| ==> a[i] <= b[i]
    ensures Sum(a) <= Sum(b)
  {
    if |a| != 0 {
      SumBounds(a[..|a| - 1], b[..|b| - 1]);
    }
  }

  lemma {:induction false} SumNonNegative(a: seq<int>)
    requires forall i :: 0 <= i < |a| ==> 0 <= a[i]
    ensures 0 <= Sum(a)
    ensures forall i :: 0 <= i < |a| ==> a[i] <= Sum(a)
  {
    if |a| != 0 {
      SumNonNegative(a[..|a| - 1]);
      assert forall i :: 0 <= i < |a| - 1 ==> a[..|a| - 1][i] == a[i];
    }
  }

  lemma {:induction false} SumNegated(a: seq<int>)
    ensures Sum(Negated(a)) == -Sum(a)
  {
    if |a| != 0 {
      assert Negated(a)[..|a| - 1] == Negated(a[..|a| - 1]);
      SumNegated(a[..|a| - 1]);
    }
  }

  lemma {:induction false} SumZeros(n: nat)
    ensures Sum(Zeros(n)) == 0
  {
    if n != 0 {
      assert Zeros(n)[..n - 1] == Zeros(n - 1);
      SumZeros(n - 1);
    }
  }

  lemma {:induction false} SumPointwise(a: seq<int>, b: seq<int>, c: seq<int>)
    requires |a| == |b| == |c|
    requires forall i :: 0 <= i < |a| ==> c[i] == a[i] + b[i]
    ensures Sum(c) == Sum(a) + Sum(b)
  {
    if |a| != 0 {
      var n := |a| - 1;
      SumPointwise(a[..n], b[..n], c[..n]);
    }
  }

  lemma {:induction false} SumAddAll(s: seq<int>, idx: seq<nat>, amounts: seq<int>)
    requires |idx| == |amounts|
    requires forall i :: 0 <= i < |idx| ==> idx[i] < |s|
    ensures Sum(AddAll(s, idx, amounts)) == Sum(s) + Sum(amounts)
  {
    if |idx| != 0 {
      var n := |idx| - 1;
      SumAddAll(s, idx[..n], amounts[..n]);
      var before := AddAll(s, idx[..n], amounts[..n]);
      SumUpdate(before, idx[n], before[idx[n]] + amounts[n]);
    }
  }

  lemma {:induction false} AddAllElsewhere(s: seq<int>, idx: seq<nat>, amounts: seq<int>, k: nat)
    requires |idx| == |amounts| && k < |s|
    requires forall i :: 0 <= i < |idx| ==> idx[i] < |s|
    requires k !in idx
    ensures AddAll(s, idx, amounts)[k] == s[k]
  {
    if |idx| != 0 {
      var n := |idx| - 1;
      assert idx[n] in idx;
      assert k !in idx[..n];
      AddAllElsewhere(s, idx[..n], amounts[..n], k);
    }
  }

  lemma {:induction false} AddAllAt(s: seq<int>, idx: seq<nat>, amounts: seq<int>, i: nat)
    requires |idx| == |amounts| && i < |idx|
    requires forall j :: 0 <= j < |idx| ==> idx[j] < |s|
    requires Distinct(idx)
    ensures AddAll(s, idx, amounts)[idx[i]] == s[idx[i]] + amounts[i]
  {
    var n := |idx| - 1;
    if i == n {
      assert idx[n] !in idx[..n];
      AddAllElsewhere(s, idx[..n], amounts[..n], idx[n]);
    } else {
      AddAllAt(s, idx[..n], amounts[..n], i);
    }
  }

  /** A sub-selection of non-negative entries never sums to more than all of them. */
  lemma {:induction false} SumPickAtMost(s: seq<int>, idx: seq<nat>)
    requires forall i :: 0 <= i < |s| ==> 0 <= s[i]
    requires forall i :: 0 <= i < |idx| ==> idx[i] < |s|
    requires Distinct(idx)
    ensures Sum(Pick(s, idx)) <= Sum(s)
  {
    var z := Zeros(|s|);
    var placed := AddAll(z, idx, Pick(s, idx));
    SumZeros(|s|);
    SumAddAll(z, idx, Pick(s, idx));
    forall k | 0 <= k < |s|
      ensures placed[k] <= s[k]
    {
      if k in idx {
        var i :| 0 <= i < |idx| && idx[i] == k;
        AddAllAt(z, idx, Pick(s, idx), i);
      } else {
        AddAllElsewhere(z, idx, Pick(s, idx), k);
      }
    }
    SumBounds(placed, s);
  }

  lemma {:induction false} SumPickPlaced(s: seq<int>, idx: seq<nat>)
    requires forall i :: 0 <= i < |idx| ==> idx[i] < |s|
    requires Distinct(idx)
    requires forall k :: 0 <= k < |s| && k !in idx ==> s[k] == 0
    ensures Sum(Pick(s, idx)) == Sum(s)
  {
    var z := Zeros(|s|);
    var placed := AddAll(z, idx, Pick(s, idx));
    SumZeros(|s|);
    SumAddAll(z, idx, Pick(s, idx));
    forall k | 0 <= k < |s|
      ensures placed[k] == s[k]
    {
      if k in idx {
        var i :| 0 <= i < |idx| && idx[i] == k;
        AddAllAt(z, idx, Pick(s, idx), i);
      } else {
        AddAllElsewhere(z, idx, Pick(s, idx), k);
      }
    }
    assert placed == s;
  }

  // ----- The values of a map -----

  ghost function MapTotal<K>(m: map<K, int>): int
    decreases |m|
  {
    if m == map[] then 0
    else
      var k :| k in m;
      m[k] + MapTotal(m - {k})
  }

  /** The total does not depend on the order of the keys. */
  lemma {:induction false} MapTotalWithout<K>(m: map<K, int>, k: K)
    requires k in m
    ensures MapTotal(m) == m[k] + MapTotal(m - {k})
    decreases |m|
  {
    var j :| j in m && MapTotal(m) == m[j] + MapTotal(m - {j});
    if k != j {
      MapTotalWithout(m - {j}, k);
      MapTotalWithout(m - {k}, j);
      assert m - {j} - {k} == m - {k} - {j};
    }
  }
}

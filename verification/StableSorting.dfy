/**
 * JavaScript's `Array.prototype.sort` with a numeric comparator: a stable sort. It is given as the
 * list of positions of the keys in sorted order, so that one definition serves any kind of list.
 */
module StableSorting {
  import opened Sums

  /** Positions 0..|keys| in ascending order of key; equal keys keep their order. */
  function SortPositions(keys: seq<int>): (p: seq<nat>)
    ensures |p| == |keys|
    ensures forall i :: 0 <= i < |p| ==> p[i] < |keys|
  {
    if |keys| == 0 then []
    else
      var n := |keys| - 1;
      InsertPosition(SortPositions(keys[..n]), keys, n)
  }

  function InsertPosition(p: seq<nat>, keys: seq<int>, x: nat): (q: seq<nat>)
    requires x < |keys|
    requires forall i :: 0 <= i < |p| ==> p[i] < |keys|
    ensures |q| == |p| + 1
    ensures forall i :: 0 <= i < |q| ==> q[i] < |keys|
  {
    if |p| == 0 then [x]
    else
      var n := |p| - 1;
      if keys[p[n]] <= keys[x] then p + [x]
      else InsertPosition(p[..n], keys, x) + [p[n]]
  }

  /** Position a comes before position b in a stable ascending order. */
  ghost predicate Before(keys: seq<int>, a: nat, b: nat) {
    a < |keys| && b < |keys| && (keys[a] < keys[b] || (keys[a] == keys[b] && a < b))
  }

  ghost predicate Ordered(p: seq<nat>, keys: seq<int>) {
    forall i, j :: 0 <= i < j < |p| ==> Before(keys, p[i], p[j])
  }

  lemma {:induction false} InsertKeepsOrder(p: seq<nat>, keys: seq<int>, x: nat)
    requires x < |keys|
    requires forall i :: 0 <= i < |p| ==> p[i] < x
    requires Ordered(p, keys)
    ensures Ordered(InsertPosition(p, keys, x), keys)
    ensures forall y :: y in InsertPosition(p, keys, x) <==> y in p || y == x
  {
    if |p| != 0 {
      var n := |p| - 1;
      assert p == p[..n] + [p[n]];
      if keys[p[n]] <= keys[x] {
        forall i | 0 <= i < |p|
          ensures Before(keys, p[i], x)
        {
          assert i < n ==> Before(keys, p[i], p[n]);
        }
      } else {
        InsertKeepsOrder(p[..n], keys, x);
        var q := InsertPosition(p[..n], keys, x);
        forall i | 0 <= i < |q|
          ensures Before(keys, q[i], p[n])
        {
          assert q[i] in q;
          if q[i] != x {
            var h :| 0 <= h < n && p[..n][h] == q[i];
            assert Before(keys, p[h], p[n]);
          }
        }
      }
    }
  }

  lemma {:induction false} OrderIgnoresTail(p: seq<nat>, keys: seq<int>, n: nat)
    requires n < |keys|
    requires Ordered(p, keys[..n])
    requires forall i :: 0 <= i < |p| ==> p[i] < n
    ensures Ordered(p, keys)
  {
    forall i, j | 0 <= i < j < |p|
      ensures Before(keys, p[i], p[j])
    {
      assert Before(keys[..n], p[i], p[j]);
    }
  }

  /** The sorted positions are ordered, distinct, and are exactly the positions of the keys. */
  lemma {:induction false} SortIsStableSort(keys: seq<int>)
    ensures Ordered(SortPositions(keys), keys)
    ensures Distinct(SortPositions(keys))
    ensures forall k :: 0 <= k < |keys| ==> k in SortPositions(keys)
  {
    if |keys| != 0 {
      var n := |keys| - 1;
      var before := SortPositions(keys[..n]);
      SortIsStableSort(keys[..n]);
      OrderIgnoresTail(before, keys, n);
      InsertKeepsOrder(before, keys, n);
      OrderedIsDistinct(SortPositions(keys), keys);
    }
  }

  lemma OrderedIsDistinct(p: seq<nat>, keys: seq<int>)
    requires Ordered(p, keys)
    ensures Distinct(p)
  {
    forall i, j | 0 <= i < j < |p|
      ensures p[i] != p[j]
    {
      assert Before(keys, p[i], p[j]);
    }
  }

  lemma {:induction false} PickDistinct(s: seq<nat>, p: seq<nat>)
    requires forall i :: 0 <= i < |p| ==> p[i] < |s|
    requires Distinct(s) && Distinct(p)
    ensures Distinct(Pick(s, p))
  {
    forall i, j | 0 <= i < j < |p|
      ensures Pick(s, p)[i] != Pick(s, p)[j]
    {
      var a, b := p[i], p[j];
      assert a < b || b < a;
    }
  }
}

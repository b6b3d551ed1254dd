/** The report's percentile: linear interpolation between sorted samples, over exact reals. */
module Percentile {
  import opened Words

  ghost predicate IsSorted(xs: seq<real>) {
    forall i, j :: 0 <= i < j < |xs| ==> xs[i] <= xs[j]
  }

  function Insert(x: real, xs: seq<real>): seq<real> {
    if xs == [] || x <= xs[0] then [x] + xs else [xs[0]] + Insert(x, xs[1..])
  }

  function Sort(xs: seq<real>): seq<real> {
    if xs == [] then [] else Insert(xs[0], Sort(xs[1..]))
  }

  lemma {:induction false} InsertAdds(x: real, xs: seq<real>)
    ensures multiset(Insert(x, xs)) == multiset(xs) + multiset{x}
  {
    if xs != [] && x > xs[0] {
      InsertAdds(x, xs[1..]);
      assert xs == [xs[0]] + xs[1..];
    }
  }

  lemma {:induction false} InsertSorts(x: real, xs: seq<real>)
    requires IsSorted(xs)
    ensures IsSorted(Insert(x, xs))
  {
    if xs != [] && x > xs[0] {
      InsertSorts(x, xs[1..]);
      InsertAdds(x, xs[1..]);
      var r := Insert(x, xs[1..]);
      forall i | 0 <= i < |r|
        ensures xs[0] <= r[i]
      {
        assert r[i] in multiset(r);
        if r[i] != x {
          assert r[i] in xs[1..];
        }
      }
    }
  }

  lemma {:induction false} SortSorts(xs: seq<real>)
    ensures IsSorted(Sort(xs)) && multiset(Sort(xs)) == multiset(xs) && |Sort(xs)| == |xs|
  {
    if xs != [] {
      SortSorts(xs[1..]);
      InsertSorts(xs[0], Sort(xs[1..]));
      InsertAdds(xs[0], Sort(xs[1..]));
      assert xs == [xs[0]] + xs[1..];
    }
    assert |multiset(Sort(xs))| == |multiset(xs)|;
  }

  /** There is only one sorted list of given samples. */
  lemma {:induction false} SortedIsUnique(a: seq<real>, b: seq<real>)
    requires IsSorted(a) && IsSorted(b) && multiset(a) == multiset(b)
    ensures a == b
  {
    assert |multiset(a)| == |a| && |multiset(b)| == |b|;
    if a != [] {
      assert a[0] in multiset(b) && b != [];
      assert b[0] in multiset(a);
      assert a[0] == b[0];
      assert a == [a[0]] + a[1..] && b == [b[0]] + b[1..];
      assert multiset(a[1..]) == multiset(a) - multiset{a[0]};
      assert multiset(b[1..]) == multiset(b) - multiset{b[0]};
      SortedIsUnique(a[1..], b[1..]);
    }
  }

  function Scaled(a: real, b: real): real {
    a * b
  }

  /** Position of the p-th percentile among `n` samples. */
  function Position(n: nat, p: real): real {
    Scaled(n as real - 1.0, p / 100.0)
  }

  /** The part after the sort. */
  function OfSorted(xs2: seq<real>, p: real): real
    requires xs2 != []
  {
    var n := |xs2|;
    if p <= 0.0 then xs2[0]
    else if p >= 100.0 then xs2[n - 1]
    else
      var k := Position(n, p);
      PositionInRange(n, p);
      var f := k.Floor;
      var c := Min(f + 1, n - 1);
      if f == c then xs2[f]
      else xs2[f] * (c as real - k) + xs2[c] * (k - f as real)
  }

  function PercentileOf(xs: seq<real>, p: real): Option<real> {
    if xs == [] then None
    else
      SortSorts(xs);
      Some(OfSorted(Sort(xs), p))
  }

  lemma PositionInRange(n: nat, p: real)
    requires n > 0 && 0.0 < p < 100.0
    ensures 0 <= Position(n, p).Floor < n && Position(n, p) >= 0.0
    ensures n > 1 ==> Position(n, p) < n as real - 1.0
  {
    hide Position;
    PositionBelow(n, p);
    FloorInRange(Position(n, p), n);
  }

  lemma PositionBelow(n: nat, p: real)
    requires n > 0 && 0.0 < p < 100.0
    ensures 0.0 <= Position(n, p) < n as real
    ensures n > 1 ==> Position(n, p) < n as real - 1.0
  {
    hide Scaled;
    Fraction(n as real - 1.0, p / 100.0);
  }

  lemma FloorInRange(k: real, n: nat)
    requires 0.0 <= k && k < n as real
    ensures 0 <= k.Floor < n
  {
  }

  lemma Fraction(m: real, q: real)
    requires m >= 0.0 && 0.0 < q < 1.0
    ensures 0.0 <= Scaled(m, q) && (m > 0.0 ==> Scaled(m, q) < m) && (m == 0.0 ==> Scaled(m, q) == 0.0)
  {
    Product(m, q);
    if m > 0.0 {
      StrictProduct(m, 1.0 - q);
      Distribute(m, 1.0, q);
    }
  }

  lemma Product(a: real, b: real)
    requires a >= 0.0 && b >= 0.0
    ensures a * b >= 0.0
  {
  }

  lemma StrictProduct(a: real, b: real)
    requires a > 0.0 && b > 0.0
    ensures a * b > 0.0
  {
  }

  lemma Distribute(a: real, b: real, c: real)
    ensures a * (b - c) == a * b - a * c
  {
  }

  // A weighted mean of two ordered values lies between them, and grows with the weight.
  lemma Interpolate(a: real, b: real, t: real)
    requires a <= b && 0.0 <= t <= 1.0
    ensures a * (1.0 - t) + b * t == a + (b - a) * t
    ensures a <= a + (b - a) * t <= b
  {
    Distribute(a, 1.0, t);
    Distribute(t, b, a);
    Product(b - a, t);
    Product(b - a, 1.0 - t);
    Distribute(b - a, 1.0, t);
  }

  // The value just below position k, and how far k is beyond it.
  lemma OfSortedAt(xs2: seq<real>, p: real) returns (f: nat, t: real)
    requires |xs2| > 1 && IsSorted(xs2) && 0.0 < p < 100.0
    ensures f < |xs2| - 1 && 0.0 <= t < 1.0 && f as real + t == Position(|xs2|, p)
    ensures OfSorted(xs2, p) == xs2[f] + Scaled(xs2[f + 1] - xs2[f], t)
    ensures xs2[f] <= OfSorted(xs2, p) <= xs2[f + 1]
  {
    var k := Position(|xs2|, p);
    PositionInRange(|xs2|, p);
    f := k.Floor;
    t := k - f as real;
    assert f < |xs2| - 1;
    Interpolate(xs2[f], xs2[f + 1], t);
    assert (f + 1) as real - k == 1.0 - t;
  }

  /** Between the two samples next to its position; at the ends, the least and the greatest sample. */
  lemma BetweenNeighbours(xs: seq<real>, p: real)
    requires xs != []
    ensures
      var xs2, r := Sort(xs), PercentileOf(xs, p).value;
      && |xs2| == |xs| && IsSorted(xs2) && multiset(xs2) == multiset(xs)
      && (p <= 0.0 || |xs| == 1 ==> r == xs2[0])
      && (p >= 100.0 || |xs| == 1 ==> r == xs2[|xs| - 1])
      && (0.0 < p < 100.0 && |xs| > 1 ==>
            var f := Position(|xs|, p).Floor;
            0 <= f < |xs| - 1 && xs2[f] <= r <= xs2[f + 1])
  {
    SortSorts(xs);
    if 0.0 < p < 100.0 {
      PositionInRange(|xs|, p);
      if |xs| > 1 {
        var f, t := OfSortedAt(Sort(xs), p);
        assert f == Position(|xs|, p).Floor;
      }
    }
  }

  /** The order of the samples does not matter. */
  lemma PermutationInvariant(xs: seq<real>, ys: seq<real>, p: real)
    requires multiset(xs) == multiset(ys)
    ensures PercentileOf(xs, p) == PercentileOf(ys, p)
  {
    SortSorts(xs);
    SortSorts(ys);
    SortedIsUnique(Sort(xs), Sort(ys));
    assert |multiset(xs)| == |xs| && |multiset(ys)| == |ys|;
  }

  /** A greater p never gives a smaller percentile. */
  lemma MonotoneInP(xs: seq<real>, p: real, q: real)
    requires xs != [] && p <= q
    ensures PercentileOf(xs, p).value <= PercentileOf(xs, q).value
  {
    SortSorts(xs);
    var xs2 := Sort(xs);
    if |xs| == 1 {
      BetweenNeighbours(xs, p);
      BetweenNeighbours(xs, q);
    } else if p <= 0.0 || q >= 100.0 {
      BetweenNeighbours(xs, p);
      BetweenNeighbours(xs, q);
    } else {
      hide IsSorted, OfSorted, Position, Scaled;
      var f, t := OfSortedAt(xs2, p);
      var g, u := OfSortedAt(xs2, q);
      PositionGrows(|xs|, p, q);
      if f == g {
        Ordered(xs2, f, f + 1);
        ScaledGrows(xs2[f + 1] - xs2[f], t, u);
      } else {
        Ordered(xs2, f + 1, g);
      }
    }
  }

  lemma PositionGrows(n: nat, p: real, q: real)
    requires n > 0 && p <= q
    ensures Position(n, p) <= Position(n, q)
  {
    hide Scaled;
    ScaledGrows(n as real - 1.0, p / 100.0, q / 100.0);
  }

  lemma ScaledGrows(a: real, t: real, u: real)
    requires a >= 0.0 && t <= u
    ensures Scaled(a, t) <= Scaled(a, u)
  {
    Product(a, u - t);
    Distribute(a, u, t);
  }

  lemma Ordered(xs: seq<real>, i: nat, j: nat)
    requires IsSorted(xs) && i <= j < |xs|
    ensures xs[i] <= xs[j]
  {
  }

  /** At `p` percent of the way from the first sample to the last, on the line between the samples there. */
  lemma OnTheLine(xs: seq<real>, p: real, k: nat)
    requires k + 1 < |xs|
    requires k as real <= (|xs| - 1) as real * p / 100.0 <= (k + 1) as real
    ensures
      var xs2, position := Sort(xs), (|xs| - 1) as real * p / 100.0;
      && |xs2| == |xs|
      && PercentileOf(xs, p).value == xs2[k] + (xs2[k + 1] - xs2[k]) * (position - k as real)
  {
    hide OfSorted, Sort, Position;
    SortSorts(xs);
    SortedOnTheLine(Sort(xs), p, k);
  }

  lemma SortedOnTheLine(xs2: seq<real>, p: real, k: nat)
    requires k + 1 < |xs2| && IsSorted(xs2)
    requires k as real <= (|xs2| - 1) as real * p / 100.0 <= (k + 1) as real
    ensures OfSorted(xs2, p) == xs2[k] + (xs2[k + 1] - xs2[k]) * ((|xs2| - 1) as real * p / 100.0 - k as real)
  {
    hide IsSorted, Position;
    var n, position := |xs2|, (|xs2| - 1) as real * p / 100.0;
    if p <= 0.0 {
      AtStart(n, p, k);
      Along(xs2[k], xs2[k + 1], position - k as real);
    } else if p >= 100.0 {
      AtEnd(n, p, k);
      Along(xs2[k], xs2[k + 1], position - k as real);
    } else {
      InTheMiddle(xs2, p, k, position);
    }
  }

  lemma InTheMiddle(xs2: seq<real>, p: real, k: nat, position: real)
    requires k + 1 < |xs2| && IsSorted(xs2) && 0.0 < p < 100.0
    requires position == (|xs2| - 1) as real * p / 100.0 && k as real <= position <= (k + 1) as real
    ensures OfSorted(xs2, p) == xs2[k] + (xs2[k + 1] - xs2[k]) * (position - k as real)
  {
    hide IsSorted, Position, OfSorted;
    PositionIs(|xs2|, p);
    var f, t := OfSortedAt(xs2, p);
    SamePlace(f, t, k, position);
    Linear(xs2, f, t, k, position);
  }

  // The two ends of a stretch.
  lemma Along(a: real, b: real, t: real)
    ensures t == 0.0 ==> a + (b - a) * t == a
    ensures t == 1.0 ==> a + (b - a) * t == b
  {
  }

  lemma PositionIs(n: nat, p: real)
    ensures Position(n, p) == (n as real - 1.0) * p / 100.0
  {
  }

  lemma AtStart(n: nat, p: real, k: nat)
    requires k + 1 < n && p <= 0.0 && k as real <= (n - 1) as real * p / 100.0
    ensures k == 0 && (n - 1) as real * p / 100.0 == 0.0
  {
    Product((n - 1) as real, -p);
  }

  lemma AtEnd(n: nat, p: real, k: nat)
    requires k + 1 < n && p >= 100.0 && (n - 1) as real * p / 100.0 <= (k + 1) as real
    ensures k == n - 2 && (n - 1) as real * p / 100.0 == (n - 1) as real
  {
    Product((n - 1) as real, p - 100.0);
    Distribute((n - 1) as real, p, 100.0);
  }

  lemma SamePlace(f: nat, t: real, k: nat, position: real)
    requires f as real + t == position && 0.0 <= t < 1.0
    requires k as real <= position <= (k + 1) as real
    ensures f == k || (f == k + 1 && t == 0.0)
  {
  }

  lemma Linear(xs2: seq<real>, f: nat, t: real, k: nat, position: real)
    requires f + 1 < |xs2| && k + 1 < |xs2| && f as real + t == position
    requires f == k || (f == k + 1 && t == 0.0)
    ensures xs2[f] + Scaled(xs2[f + 1] - xs2[f], t) == xs2[k] + (xs2[k + 1] - xs2[k]) * (position - k as real)
  {
  }
}

/** Linear-interpolation percentiles and the interquartile fences of one column. */
module Percentiles {
  import opened Sequences
  import opened Sums

  const IQR_MULTIPLIER := 1.5

  function Ceiling(k: real): int {
    -(-k).Floor
  }

  /** The 1-based fractional rank of percentile `p` among `n` values. */
  function Rank(n: nat, p: int): real {
    Times(p as real / 100.0, n as real - 1.0) + 1.0
  }

  /** The percentile of a sorted sequence; None is the out-of-bounds failure. */
  function Percentile(s: seq<real>, p: int): Option<real> {
    var k := Rank(|s|, p);
    var f, c := k.Floor, Ceiling(k);
    if f == c then
      if 1 <= f <= |s| then Some(s[f - 1]) else None
    else if 1 <= f && c <= |s| then
      Some(s[f - 1] + (k - f as real) * (s[c - 1] - s[f - 1]))
    else
      None
  }

  /** The percentile is defined exactly for a single value, or for more values and 0 <= p <= 100. */
  lemma PercentileInBounds(s: seq<real>, p: int)
    ensures Percentile(s, p).Some? <==> |s| == 1 || (|s| > 1 && 0 <= p <= 100)
  {
    var m, q := |s| as real - 1.0, p as real / 100.0;
    if |s| > 1 {
      if p < 0 {
        MulPos(-q, m);
        assert q * m < 0.0;
      } else if p > 100 {
        MulPos(q - 1.0, m);
        assert q * m > m;
      } else {
        RankBounds(|s|, p);
      }
    }
  }

  lemma RankBounds(n: nat, p: int)
    requires n >= 1 && 0 <= p <= 100
    ensures 1.0 <= Rank(n, p) <= n as real
    ensures 1 <= Rank(n, p).Floor <= Ceiling(Rank(n, p)) <= n
    ensures Rank(n, p) - Rank(n, p).Floor as real < 1.0
    ensures Rank(n, p).Floor != Ceiling(Rank(n, p)) ==> Ceiling(Rank(n, p)) == Rank(n, p).Floor + 1
  {
    var m, q := n as real - 1.0, p as real / 100.0;
    assert 0.0 <= q <= 1.0;
    FractionOf(q, m);
  }

  lemma FractionOf(q: real, m: real)
    requires 0.0 <= q <= 1.0 && 0.0 <= m
    ensures 0.0 <= Times(q, m) <= m
  {
    MulMono(q, 1.0, m);
  }

  /** The percentile value where it is defined. */
  function ValueAt(s: seq<real>, p: int): (r: real)
    requires s != [] && 0 <= p <= 100
  {
    PercentileInBounds(s, p);
    Percentile(s, p).value
  }

  function Interpolate(x: real, t: real, y: real): real {
    x + t * (y - x)
  }

  lemma ValueAtIs(s: seq<real>, p: int)
    requires s != [] && 0 <= p <= 100
    ensures var k := Rank(|s|, p);
      && 1 <= k.Floor <= Ceiling(k) <= |s|
      && ValueAt(s, p) == Interpolate(s[k.Floor - 1], k - k.Floor as real, s[Ceiling(k) - 1])
  {
    RankBounds(|s|, p);
    PercentileInBounds(s, p);
    var k := Rank(|s|, p);
    if k.Floor == Ceiling(k) {
      assert k == k.Floor as real;
    }
  }

  lemma InterpolateBetween(x: real, t: real, y: real)
    requires x <= y && 0.0 <= t <= 1.0
    ensures x <= Interpolate(x, t, y) <= y
  {
    MulMono(0.0, t, y - x);
    MulMono(t, 1.0, y - x);
  }

  lemma InterpolateMono(x: real, t: real, u: real, y: real)
    requires x <= y && t <= u
    ensures Interpolate(x, t, y) <= Interpolate(x, u, y)
  {
    MulMono(t, u, y - x);
  }

  /** A percentile lies between the two order statistics it interpolates. */
  lemma PercentileBetween(s: seq<real>, p: int)
    requires s != [] && 0 <= p <= 100 && IsSorted(s)
    ensures var k := Rank(|s|, p);
      && 1 <= k.Floor <= Ceiling(k) <= |s|
      && s[k.Floor - 1] <= ValueAt(s, p) <= s[Ceiling(k) - 1]
  {
    ValueAtIs(s, p);
    RankBounds(|s|, p);
    var k := Rank(|s|, p);
    InterpolateBetween(s[k.Floor - 1], k - k.Floor as real, s[Ceiling(k) - 1]);
  }

  lemma RankMono(n: nat, p: int, q: int)
    requires n >= 1 && p <= q
    ensures Rank(n, p) <= Rank(n, q)
  {
    MulMono(p as real / 100.0, q as real / 100.0, n as real - 1.0);
  }

  /** Percentiles grow with p. */
  lemma PercentileMonotone(s: seq<real>, p: int, q: int)
    requires s != [] && 0 <= p <= q <= 100 && IsSorted(s)
    ensures ValueAt(s, p) <= ValueAt(s, q)
  {
    var j, k := Rank(|s|, p), Rank(|s|, q);
    RankMono(|s|, p, q);
    RankBounds(|s|, p);
    RankBounds(|s|, q);
    ValueAtIs(s, p);
    ValueAtIs(s, q);
    if j.Floor == k.Floor && Ceiling(j) == Ceiling(k) {
      InterpolateMono(s[j.Floor - 1], j - j.Floor as real, k - k.Floor as real, s[Ceiling(j) - 1]);
    } else {
      PercentileBetween(s, p);
      PercentileBetween(s, q);
      if Ceiling(j) <= k.Floor {
        assert s[Ceiling(j) - 1] <= s[k.Floor - 1];
      }
    }
  }

  /** Percentiles commute with x => a * x + b applied entrywise. */
  lemma PercentileOfImage(s: seq<real>, p: int, a: real, b: real)
    requires s != [] && 0 <= p <= 100
    ensures ValueAt(Affine(s, a, b), p) == Line(a, ValueAt(s, p), b)
  {
    ValueAtIs(s, p);
    ValueAtIs(Affine(s, a, b), p);
    var k := Rank(|s|, p);
    InterpolateImage(s[k.Floor - 1], k - k.Floor as real, s[Ceiling(k) - 1], a, b);
  }

  lemma InterpolateImage(x: real, t: real, y: real, a: real, b: real)
    ensures Interpolate(Line(a, x, b), t, Line(a, y, b)) == Line(a, Interpolate(x, t, y), b)
  {
    assert t * ((a * y + b) - (a * x + b)) == a * (t * (y - x));
    assert a * (x + t * (y - x)) == a * x + a * (t * (y - x));
  }

  /** 0, 1, ..., n - 1. */
  function Ramp(n: nat): (s: seq<real>)
    ensures |s| == n && forall i :: 0 <= i < n ==> s[i] == i as real
  {
    seq(n, i => i as real)
  }

  /** On evenly spaced values the percentile is the exact fractional position: no rounding to a
      neighbour, no midpoint. */
  lemma PercentileOfEvenValues(n: nat, p: int, start: real, gap: real)
    requires n >= 1 && 0 <= p <= 100
    ensures ValueAt(Affine(Ramp(n), gap, start), p)
         == Line(gap, Times(p as real / 100.0, n as real - 1.0), start)
  {
    var s, k := Ramp(n), Rank(n, p);
    RankBounds(n, p);
    ValueAtIs(s, p);
    assert Interpolate(s[k.Floor - 1], k - k.Floor as real, s[Ceiling(k) - 1]) == k - 1.0;
    PercentileOfImage(s, p, gap, start);
  }

  lemma RankReversed(n: nat, p: int)
    ensures Rank(n, 100 - p) == n as real + 1.0 - Rank(n, p)
  {
    var m := n as real - 1.0;
    var q, r := p as real / 100.0, (100 - p) as real / 100.0;
    assert r == 1.0 - q;
    assert r * m == m - q * m;
  }

  /** Read from the other end, percentile 100 - p is percentile p. */
  lemma PercentileReversed(s: seq<real>, p: int)
    requires s != [] && 0 <= p <= 100
    ensures ValueAt(Reverse(s), 100 - p) == ValueAt(s, p)
  {
    var n, k, h := |s|, Rank(|s|, p), Rank(|s|, 100 - p);
    RankReversed(n, p);
    RankBounds(n, p);
    RankBounds(n, 100 - p);
    ValueAtIs(s, p);
    ValueAtIs(Reverse(s), 100 - p);
    assert h.Floor == n + 1 - Ceiling(k) && Ceiling(h) == n + 1 - k.Floor;
    var x, y := s[k.Floor - 1], s[Ceiling(k) - 1];
    assert Reverse(s)[h.Floor - 1] == y && Reverse(s)[Ceiling(h) - 1] == x;
    if k.Floor == Ceiling(k) {
    } else {
      InterpolateBack(x, k - k.Floor as real, y);
    }
  }

  lemma InterpolateBack(x: real, t: real, y: real)
    ensures Interpolate(y, 1.0 - t, x) == Interpolate(x, t, y)
  {
    assert (1.0 - t) * (x - y) == (x - y) + t * (y - x);
  }

  // ---------- the interquartile rule

  datatype Fences = Fences(q1: real, q3: real, lower: real, upper: real)

  function FencesOf(v: seq<real>): Fences
    requires v != []
  {
    SortCorrect(v);
    var s := Sort(v);
    FencesAround(ValueAt(s, 25), ValueAt(s, 75))
  }

  function FencesAround(q1: real, q3: real): Fences {
    var iqr := q3 - q1;
    Fences(q1, q3, q1 - IQR_MULTIPLIER * iqr, q3 + IQR_MULTIPLIER * iqr)
  }

  predicate Outside(f: Fences, x: real) {
    x < f.lower || x > f.upper
  }

  /** The interquartile flags of one column; columns of fewer than four values raise none. */
  function IqrFlags(v: seq<real>): (flags: seq<bool>)
    ensures |flags| == |v|
  {
    if |v| < 4 then seq(|v|, _ => false)
    else seq(|v|, i requires 0 <= i < |v| => Outside(FencesOf(v), v[i]))
  }

  /** The fences enclose the quartiles, so nothing between the quartiles is flagged. */
  lemma FencesEncloseQuartiles(v: seq<real>)
    requires v != []
    ensures var f := FencesOf(v); f.lower <= f.q1 <= f.q3 <= f.upper
    ensures forall i :: 0 <= i < |v| && FencesOf(v).q1 <= v[i] <= FencesOf(v).q3 ==> !IqrFlags(v)[i]
  {
    SortCorrect(v);
    PercentileMonotone(Sort(v), 25, 75);
  }

  /** A value is outside the fences exactly when it is more than twice the interquartile range away from
      the middle of the quartiles. */
  lemma OutsideIff(v: seq<real>, x: real)
    requires v != []
    ensures var f := FencesOf(v); Outside(f, x) <==> Abs(x - (f.q1 + f.q3) / 2.0) > 2.0 * (f.q3 - f.q1)
  {
    FencesEncloseQuartiles(v);
  }

  /** The quartile ranks of n values are a + t and, from the other end, a + t, with a and t below. */
  function QuarterIndex(n: nat): nat
    requires n >= 1
  {
    (n - 1) / 4
  }

  function QuarterPart(n: nat): real
    requires n >= 1
  {
    ((n - 1) % 4) as real / 4.0
  }

  /** The next index towards the middle; the same one when the quartile falls on a value. */
  function NextIndex(n: nat): nat
    requires n >= 1
  {
    if (n - 1) % 4 == 0 then QuarterIndex(n) else QuarterIndex(n) + 1
  }

  lemma QuarterRank(n: nat)
    requires n >= 1
    ensures Rank(n, 25) == (QuarterIndex(n) + 1) as real + QuarterPart(n)
    ensures Rank(n, 25).Floor == QuarterIndex(n) + 1 && Ceiling(Rank(n, 25)) == NextIndex(n) + 1
    ensures Rank(n, 75) == (n - QuarterIndex(n)) as real - QuarterPart(n)
    ensures Rank(n, 75).Floor == n - NextIndex(n) && Ceiling(Rank(n, 75)) == n - QuarterIndex(n)
  {
    assert 25 as real / 100.0 == 0.25;
    assert Rank(n, 25) == 0.25 * (n as real - 1.0) + 1.0;
    RankReversed(n, 25);
    assert n - 1 == 4 * QuarterIndex(n) + (n - 1) % 4;
    assert n as real - 1.0 == 4.0 * (QuarterIndex(n) as real) + ((n - 1) % 4) as real;
  }

  /** The quartiles, each interpolated from its own end. */
  lemma QuartileValues(s: seq<real>)
    requires s != []
    ensures var n := |s|;
      var a, b, t := QuarterIndex(n), NextIndex(n), QuarterPart(n);
      && a <= b < n
      && ValueAt(s, 25) == Interpolate(s[a], t, s[b])
      && ValueAt(s, 75) == Interpolate(s[n - 1 - a], t, s[n - 1 - b])
  {
    var n := |s|;
    var a, b, t := QuarterIndex(n), NextIndex(n), QuarterPart(n);
    QuarterRank(n);
    ValueAtIs(s, 25);
    ValueAtIs(s, 75);
    InterpolateBack(s[n - 1 - b], 1.0 - t, s[n - 1 - a]);
  }

  /** From four values on, a value is flagged exactly when it is more than twice the interquartile range away
      from the middle of the quartiles; below four values nothing is flagged. */
  lemma IqrFlagIff(v: seq<real>, s: seq<real>, i: nat)
    requires i < |v| && IsSorted(s) && multiset(s) == multiset(v)
    ensures |s| == |v|
    ensures var q1, q3 := ValueAt(s, 25), ValueAt(s, 75);
      IqrFlags(v)[i] <==> |v| >= 4 && Abs(v[i] - (q1 + q3) / 2.0) > 2.0 * (q3 - q1)
  {
    SortCorrect(v);
    SortedUnique(s, Sort(v));
    OutsideIff(v, v[i]);
  }

  function Below(x: real): real -> bool {
    y => y < x
  }

  function Above(x: real): real -> bool {
    y => y > x
  }

  lemma FewBelow(s: seq<real>, x: real, k: nat)
    requires k <= |s| && forall i :: k <= i < |s| ==> x <= s[i]
    ensures Count(s, Below(x)) <= k
  {
    CountAppend(s[..k], s[k..], Below(x));
    assert s == s[..k] + s[k..];
    CountNone(s[k..], Below(x));
  }

  lemma FewAbove(s: seq<real>, x: real, k: nat)
    requires k <= |s| && forall i :: 0 <= i < k ==> s[i] <= x
    ensures Count(s, Above(x)) <= |s| - k
  {
    CountAppend(s[..k], s[k..], Above(x));
    assert s == s[..k] + s[k..];
    CountNone(s[..k], Above(x));
  }

  predicate Raised(flag: bool) {
    flag
  }

  /** Up to half of the way to the next value, the fences reach beyond the values the quartiles start from. */
  lemma FencesReach(v: real, w: real, y: real, z: real, t: real)
    requires v <= w <= y <= z && 0.0 <= t <= 0.5
    ensures !Outside(FencesAround(Interpolate(v, t, w), Interpolate(z, t, y)), v)
    ensures !Outside(FencesAround(Interpolate(v, t, w), Interpolate(z, t, y)), z)
  {
    InterpolateHalf(v, t, w);
    InterpolateHalf(y, 1.0 - t, z);
    InterpolateBack(z, t, y);
    WideFences(v, w, y, z, Interpolate(v, t, w), Interpolate(z, t, y));
  }

  lemma WideFences(v: real, w: real, y: real, z: real, q1: real, q3: real)
    requires v <= w <= y <= z && v <= q1 <= (v + w) / 2.0 && (y + z) / 2.0 <= q3 <= z
    ensures !Outside(FencesAround(q1, q3), v) && !Outside(FencesAround(q1, q3), z)
  {
  }

  lemma InterpolateHalf(x: real, t: real, y: real)
    requires x <= y && 0.0 <= t <= 1.0
    ensures t <= 0.5 ==> x <= Interpolate(x, t, y) <= (x + y) / 2.0
    ensures t >= 0.5 ==> (x + y) / 2.0 <= Interpolate(x, t, y) <= y
  {
    InterpolateBetween(x, t, y);
    if t <= 0.5 { InterpolateMono(x, t, 0.5, y); } else { InterpolateMono(x, 0.5, t, y); }
  }

  /** Three quarters of the way, at most one of the two values is beyond its fence. */
  lemma OneFenceReaches(v: real, w: real, y: real, z: real)
    requires v <= w <= y <= z
    ensures var f := FencesAround(Interpolate(v, 0.75, w), Interpolate(z, 0.75, y));
      && f.lower <= w && y <= f.upper
      && (f.lower <= v || z <= f.upper)
  {
  }

  /** The most values of a column of n that can be flagged. */
  function MostOutside(n: nat): nat
    requires n >= 1
  {
    n / 4 + (n - 1) / 4
  }

  lemma QuarterIndices(n: nat)
    requires n >= 4
    ensures var a, b := QuarterIndex(n), NextIndex(n);
      && a <= b <= n - 1 - b
      && (n % 4 != 0 ==> 0.0 <= QuarterPart(n) <= 0.5 && n / 4 == a)
      && (n % 4 == 0 ==> QuarterPart(n) == 0.75 && n / 4 == b == a + 1)
  {
  }

  /** The values at the two quarter indices against the fences: either both of the outer values are
      within, or the quarter part is three quarters and one of them is. */
  lemma QuartersAgainstFences(s: seq<real>, f: Fences, a: nat, b: nat, t: real)
    requires IsSorted(s) && a <= b <= |s| - 1 - b && (0.0 <= t <= 0.5 || t == 0.75)
    requires f == FencesAround(Interpolate(s[a], t, s[b]), Interpolate(s[|s| - 1 - a], t, s[|s| - 1 - b]))
    ensures t != 0.75 ==> f.lower <= s[a] && s[|s| - 1 - a] <= f.upper
    ensures t == 0.75 ==> f.lower <= s[b] && s[|s| - 1 - b] <= f.upper
    ensures t == 0.75 ==> f.lower <= s[a] || s[|s| - 1 - a] <= f.upper
  {
    var v, w, y, z := s[a], s[b], s[|s| - 1 - b], s[|s| - 1 - a];
    assert v <= w <= y <= z;
    if t != 0.75 {
      FencesReach(v, w, y, z, t);
    } else {
      OneFenceReaches(v, w, y, z);
    }
  }

  lemma FewBeyondFences(s: seq<real>, f: Fences)
    requires IsSorted(s) && |s| >= 4 && f == FencesAround(ValueAt(s, 25), ValueAt(s, 75))
    ensures Count(s, Below(f.lower)) + Count(s, Above(f.upper)) <= MostOutside(|s|)
  {
    var n := |s|;
    var a, b := QuarterIndex(n), NextIndex(n);
    QuarterIndices(n);
    QuartileValues(s);
    QuartersAgainstFences(s, f, a, b, QuarterPart(n));
    FewAround(s, f, if f.lower <= s[a] then a else b, if s[n - 1 - a] <= f.upper then a else b);
  }

  lemma FewAround(s: seq<real>, f: Fences, low: nat, high: nat)
    requires IsSorted(s) && low < |s| && high < |s| && f.lower <= s[low] && s[|s| - 1 - high] <= f.upper
    ensures Count(s, Below(f.lower)) + Count(s, Above(f.upper)) <= low + high
  {
    FewBelow(s, f.lower, low);
    FewAbove(s, f.upper, |s| - high);
  }

  /** At most n / 4 + (n - 1) / 4 values of a column of n are flagged. */
  lemma FewOutside(v: seq<real>)
    requires v != []
    ensures Count(IqrFlags(v), Raised) <= MostOutside(|v|)
  {
    if |v| < 4 {
      CountNone(IqrFlags(v), Raised);
    } else {
      var f, s := FencesOf(v), Sort(v);
      var below, above := Below(f.lower), Above(f.upper);
      SortCorrect(v);
      FewBeyondFences(s, f);
      CountOr(IqrFlags(v), Raised, v, below, above);
      CountReorder(v, s, below);
      CountReorder(v, s, above);
    }
  }

  /** n / 4 low outliers, then equal values, then (n - 1) / 4 high outliers. */
  function TwoTails(n: nat): (v: seq<real>)
    requires n >= 1
    ensures |v| == n
  {
    seq(n, i => if i < n / 4 then -1.0 else if i < n - (n - 1) / 4 then 0.0 else 1.0)
  }

  lemma TailsSorted(n: nat)
    requires n >= 1
    ensures Sort(TwoTails(n)) == TwoTails(n)
  {
    SortCorrect(TwoTails(n));
    SortedUnique(TwoTails(n), Sort(TwoTails(n)));
  }

  lemma TailFences(n: nat)
    requires n >= 4
    ensures var f := FencesOf(TwoTails(n)); -1.0 < f.lower <= 0.0 <= f.upper < 1.0
  {
    var v := TwoTails(n);
    TailsSorted(n);
    QuarterIndices(n);
    QuartileValues(v);
    TailValues(n);
    TailArithmetic(v[QuarterIndex(n)], QuarterPart(n));
  }

  lemma TailValues(n: nat)
    requires n >= 4
    ensures var v, a, b := TwoTails(n), QuarterIndex(n), NextIndex(n);
      && a <= b < n
      && v[b] == 0.0 && v[n - 1 - a] == 0.0 && v[n - 1 - b] == 0.0
      && v[a] == if n % 4 == 0 then -1.0 else 0.0
  {
    QuarterIndices(n);
  }

  lemma TailArithmetic(x: real, t: real)
    requires x == 0.0 || (x == -1.0 && t == 0.75)
    ensures var f := FencesAround(Interpolate(x, t, 0.0), Interpolate(0.0, t, 0.0));
      -1.0 < f.lower <= 0.0 <= f.upper < 1.0
  {
  }

  lemma TailFlags(n: nat, i: nat)
    requires i < n
    ensures IqrFlags(TwoTails(n))[i] <==> i < n / 4 || i >= n - (n - 1) / 4
  {
    if n >= 4 { TailFences(n); }
  }

  lemma CountBands(f: seq<bool>, a: nat, b: nat)
    requires a <= b <= |f| && forall i :: 0 <= i < |f| ==> (f[i] <==> i < a || i >= b)
    ensures Count(f, Raised) == a + (|f| - b)
  {
    CountMiddle(f, a, b, Raised);
    CountAll(f[..a], Raised);
    CountNone(f[a..b], Raised);
    CountAll(f[b..], Raised);
  }

  /** The bound is attained for every n: both tails of `TwoTails` are flagged, and nothing else. */
  lemma TailsAreFlagged(n: nat)
    requires n >= 1
    ensures Count(IqrFlags(TwoTails(n)), Raised) == MostOutside(n)
    ensures forall i :: 0 <= i < n ==> (IqrFlags(TwoTails(n))[i] <==> i < n / 4 || i >= n - (n - 1) / 4)
  {
    forall i | 0 <= i < n ensures IqrFlags(TwoTails(n))[i] <==> i < n / 4 || i >= n - (n - 1) / 4 {
      TailFlags(n, i);
    }
    CountBands(IqrFlags(TwoTails(n)), n / 4, n - (n - 1) / 4);
  }

  // ---------- invariance

  lemma SortOfImage(v: seq<real>, a: real, b: real)
    requires a != 0.0
    ensures Sort(Affine(v, a, b)) == if a > 0.0 then Affine(Sort(v), a, b) else Reverse(Affine(Sort(v), a, b))
  {
    var s, w := Sort(v), Affine(v, a, b);
    SortCorrect(v);
    SortCorrect(w);
    var line := (x: real) => Line(a, x, b);
    MapReorder(line, v, s);
    assert Map(line, v) == w && Map(line, s) == Affine(s, a, b);
    ImageOrder(s, a, b);
    if a > 0.0 {
      SortedUnique(Sort(w), Affine(s, a, b));
    } else {
      ReverseKeepsEntries(Affine(s, a, b));
      SortedUnique(Sort(w), Reverse(Affine(s, a, b)));
    }
  }

  lemma ImageOrder(s: seq<real>, a: real, b: real)
    requires IsSorted(s) && a != 0.0
    ensures if a > 0.0 then IsSorted(Affine(s, a, b)) else IsSorted(Reverse(Affine(s, a, b)))
  {
    var t := Affine(s, a, b);
    forall i, j | 0 <= i < j < |s| ensures if a > 0.0 then t[i] <= t[j] else t[j] <= t[i] {
      LineOrder(s[i], s[j], a, b);
    }
  }

  lemma LineOrder(x: real, y: real, a: real, b: real)
    ensures a > 0.0 ==> (x <= y <==> Line(a, x, b) <= Line(a, y, b))
    ensures a < 0.0 ==> (x <= y <==> Line(a, y, b) <= Line(a, x, b))
  {
    if a > 0.0 {
      if x <= y { MulMono(x, y, a); } else { MulPos(x - y, a); }
    } else if a < 0.0 {
      if x <= y { MulMono(x, y, -a); } else { MulPos(x - y, -a); }
    }
  }

  lemma FencesOfImage(v: seq<real>, a: real, b: real)
    requires v != [] && a != 0.0
    ensures var f, g := FencesOf(v), FencesOf(Affine(v, a, b));
      if a > 0.0 then g.lower == Line(a, f.lower, b) && g.upper == Line(a, f.upper, b)
      else g.lower == Line(a, f.upper, b) && g.upper == Line(a, f.lower, b)
  {
    SortCorrect(v);
    SortCorrect(Affine(v, a, b));
    SortOfImage(v, a, b);
    var s := Sort(v);
    PercentileOfImage(s, 25, a, b);
    PercentileOfImage(s, 75, a, b);
    if a < 0.0 {
      PercentileReversed(Affine(s, a, b), 25);
      PercentileReversed(Affine(s, a, b), 75);
    }
    FenceScales(ValueAt(s, 25), ValueAt(s, 75), a, b);
  }

  lemma FenceScales(q1: real, q3: real, a: real, b: real)
    ensures var f, g, h := FencesAround(q1, q3),
                           FencesAround(Line(a, q1, b), Line(a, q3, b)),
                           FencesAround(Line(a, q3, b), Line(a, q1, b));
      && g.lower == Line(a, f.lower, b) && g.upper == Line(a, f.upper, b)
      && h.lower == Line(a, f.upper, b) && h.upper == Line(a, f.lower, b)
  {
    Distribute(a, q1, q3, 1.5);
    Distribute(a, q3, q1, 1.5);
  }

  lemma Distribute(a: real, x: real, y: real, c: real)
    ensures a * (x - c * (y - x)) == a * x - c * (a * y - a * x)
  {
    var d := y - x;
    assert a * (x - c * d) == a * x - c * (a * d);
    assert a * d == a * y - a * x;
  }

  /** Rescaling by a != 0 and shifting changes no interquartile flag. */
  lemma IqrAffineInvariance(v: seq<real>, a: real, b: real)
    requires a != 0.0
    ensures IqrFlags(Affine(v, a, b)) == IqrFlags(v)
  {
    if |v| >= 4 {
      FencesOfImage(v, a, b);
      var f := FencesOf(v);
      forall i | 0 <= i < |v| ensures IqrFlags(Affine(v, a, b))[i] == IqrFlags(v)[i] {
        LineOrder(f.lower, v[i], a, b);
        LineOrder(v[i], f.upper, a, b);
      }
    }
  }

  /** Listing the devices in another order lists their flags in that order. */
  lemma IqrReorderInvariance(v: seq<real>, p: seq<nat>)
    requires IsPermutation(p, |v|)
    ensures forall i :: 0 <= i < |p| ==> p[i] < |v|
    ensures IqrFlags(Reorder(v, p)) == Reorder(IqrFlags(v), p)
  {
    PermutationInRange(p, |v|);
    ReorderKeepsEntries(v, p);
    SortCorrect(v);
    SortCorrect(Reorder(v, p));
    SortedUnique(Sort(Reorder(v, p)), Sort(v));
  }
}

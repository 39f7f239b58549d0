/** The z-score rule of the anomaly detector: one column of one metric, n devices. */
module ZScores {
  import opened Sequences
  import opened Sums

  const ZSCORE_THRESHOLD := 3.0

  function Mean(v: seq<real>): real
    requires v != []
  {
    Sum(v) / |v| as real
  }

  function Deviations(v: seq<real>): seq<real>
    requires v != []
  {
    Affine(v, 1.0, -Mean(v))
  }

  /** The sample variance, with divisor n - 1. */
  function Variance(v: seq<real>): real
    requires |v| >= 2
  {
    SumSq(Deviations(v)) / (|v| as real - 1.0)
  }

  function Std(v: seq<real>, sqrt: real -> real): real
    requires |v| >= 2
  {
    sqrt(Variance(v))
  }

  /** The z-scores of one column: all zero below two values or without spread. */
  function ZScoresOf(v: seq<real>, sqrt: real -> real): (z: seq<real>)
    ensures |z| == |v|
  {
    if |v| < 2 || Std(v, sqrt) == 0.0 then Zeros(|v|)
    else seq(|v|, i requires 0 <= i < |v| => (v[i] - Mean(v)) / Std(v, sqrt))
  }

  predicate ZFlagged(z: real) {
    Abs(z) > ZSCORE_THRESHOLD
  }

  // ---------- moments

  lemma DeviationsCentred(v: seq<real>)
    requires v != []
    ensures Sum(Deviations(v)) == 0.0
  {
    var n := |v| as real;
    SumAffine(v, 1.0, -Mean(v));
    DivTimes(Sum(v), n);
    NegTimes(Mean(v), n);
  }

  lemma NegTimes(x: real, y: real)
    ensures Times(-x, y) == -Times(x, y)
  {
  }

  lemma DivNonNeg(x: real, n: real)
    requires 0.0 <= x && 0.0 < n
    ensures 0.0 <= x / n
  {
  }

  lemma VarianceNonNeg(v: seq<real>)
    requires |v| >= 2
    ensures 0.0 <= Variance(v)
  {
    SumSqNonNeg(Deviations(v));
    DivNonNeg(SumSq(Deviations(v)), |v| as real - 1.0);
  }

  lemma StdSquare(v: seq<real>, sqrt: real -> real)
    requires |v| >= 2 && IsSqrt(sqrt)
    ensures 0.0 <= Std(v, sqrt) && Times(Std(v, sqrt), Std(v, sqrt)) == Variance(v)
    ensures Times(Variance(v), |v| as real - 1.0) == SumSq(Deviations(v))
  {
    VarianceNonNeg(v);
    DivTimes(SumSq(Deviations(v)), |v| as real - 1.0);
  }

  /** With spread, the z-scores are the deviations scaled by 1 / sigma. */
  lemma ZScoresAreScaledDeviations(v: seq<real>, sqrt: real -> real)
    requires |v| >= 2 && Std(v, sqrt) != 0.0
    ensures ZScoresOf(v, sqrt) == Affine(Deviations(v), 1.0 / Std(v, sqrt), 0.0)
  {
    var s, d, z := Std(v, sqrt), Deviations(v), ZScoresOf(v, sqrt);
    forall i | 0 <= i < |v| ensures z[i] == Line(1.0 / s, d[i], 0.0) {
      assert d[i] == Line(1.0, v[i], -Mean(v));
      DivIsScale(v[i], Mean(v), s);
    }
  }

  lemma DivIsScale(x: real, m: real, s: real)
    requires s != 0.0
    ensures (x - m) / s == Line(1.0 / s, Line(1.0, x, -m), 0.0)
  {
    var r := 1.0 / s;
    assert r * s == 1.0;
    assert (x - m) / s == r * (x - m);
  }

  /** The z-scores of a column with spread sum to 0 and their squares sum to n - 1; a column
      without spread has all-zero z-scores. */
  lemma ZScoreMoments(v: seq<real>, sqrt: real -> real)
    requires |v| >= 2 && IsSqrt(sqrt)
    ensures Sum(ZScoresOf(v, sqrt)) == 0.0
    ensures SumSq(ZScoresOf(v, sqrt)) == if Std(v, sqrt) == 0.0 then 0.0 else |v| as real - 1.0
  {
    var s, d := Std(v, sqrt), Deviations(v);
    if s == 0.0 {
      ZerosSums(|v|);
    } else {
      ZScoresAreScaledDeviations(v, sqrt);
      DeviationsCentred(v);
      SumAffine(d, 1.0 / s, 0.0);
      SumSqAffine(d, 1.0 / s, 0.0);
      StdSquare(v, sqrt);
      ScaledMass(s, Variance(v), |v| as real - 1.0, SumSq(d));
    }
  }

  /** Reading a z-score back gives the value: mean plus z-score times deviation. */
  lemma ZScoreReadsBack(v: seq<real>, sqrt: real -> real, i: nat)
    requires i < |v| && |v| >= 2 && IsSqrt(sqrt)
    ensures v[i] == Mean(v) + Times(ZScoresOf(v, sqrt)[i], Std(v, sqrt))
  {
    if Std(v, sqrt) == 0.0 {
      StdSquare(v, sqrt);
      assert Times(Std(v, sqrt), Std(v, sqrt)) == 0.0;
      SumSqZero(Deviations(v));
      assert Deviations(v)[i] == Line(1.0, v[i], -Mean(v));
    } else {
      DivTimes(v[i] - Mean(v), Std(v, sqrt));
    }
  }

  lemma ScaledMass(s: real, w: real, m: real, q: real)
    requires s != 0.0 && Times(s, s) == w && Times(w, m) == q
    ensures Times(Times(1.0 / s, 1.0 / s), q) == m
  {
    var r := 1.0 / s;
    assert r * s == 1.0;
    assert r * r * (s * s * m) == (r * s) * (r * s) * m;
  }

  lemma {:induction false} ZerosSums(n: nat)
    ensures Sum(Zeros(n)) == 0.0 && SumSq(Zeros(n)) == 0.0
  {
    if n > 0 {
      assert Zeros(n)[1..] == Zeros(n - 1);
      ZerosSums(n - 1);
    }
  }

  // ---------- what the threshold can and cannot do

  /** Samuelson's bound: no device is further than (n - 1) / sqrt(n) sample deviations out. */
  lemma SamuelsonBound(v: seq<real>, sqrt: real -> real, i: nat)
    requires i < |v| && |v| >= 2 && IsSqrt(sqrt)
    ensures var n, z := |v| as real, ZScoresOf(v, sqrt)[i];
            Times(n, Times(z, z)) <= Times(n - 1.0, n - 1.0)
  {
    var m := |v| as real - 1.0;
    ZScoreMoments(v, sqrt);
    CentredBound(ZScoresOf(v, sqrt), i);
    TimesMono(m, SumSq(ZScoresOf(v, sqrt)), m);
  }

  lemma TimesMono(c: real, a: real, b: real)
    requires 0.0 <= c && a <= b
    ensures Times(c, a) <= Times(c, b)
  {
  }

  /** With ten or fewer devices no column raises a z-score flag. */
  lemma TenDevicesNeverFlag(v: seq<real>, sqrt: real -> real, i: nat)
    requires i < |v| <= 10 && IsSqrt(sqrt)
    ensures !ZFlagged(ZScoresOf(v, sqrt)[i])
  {
    if |v| >= 2 {
      SamuelsonBound(v, sqrt, i);
      SmallSquare(|v|, ZScoresOf(v, sqrt)[i]);
    }
  }

  lemma SmallSquare(n: nat, z: real)
    requires 2 <= n <= 10
    requires Times(n as real, Times(z, z)) <= Times(n as real - 1.0, n as real - 1.0)
    ensures !ZFlagged(z)
  {
    var y := Times(z, z);
    assert y <= 9.0 by {
      if n == 2 { assert 2.0 * y <= 1.0; }
      else if n == 3 { assert 3.0 * y <= 4.0; }
      else if n == 4 { assert 4.0 * y <= 9.0; }
      else if n == 5 { assert 5.0 * y <= 16.0; }
      else if n == 6 { assert 6.0 * y <= 25.0; }
      else if n == 7 { assert 7.0 * y <= 36.0; }
      else if n == 8 { assert 8.0 * y <= 49.0; }
      else if n == 9 { assert 9.0 * y <= 64.0; }
      else { assert n == 10 && 10.0 * y <= 81.0; }
    }
    FlaggedSquare(z);
  }

  /** A z-score is flagged exactly when its square exceeds nine. */
  lemma FlaggedSquare(z: real)
    ensures ZFlagged(z) <==> 9.0 < Times(z, z)
  {
    AbsSquare(z);
    SquareOrder(Abs(z), 3.0);
  }

  /** A value is flagged exactly when it is more than three sample deviations from the mean. */
  lemma ZFlagIff(v: seq<real>, sqrt: real -> real, i: nat)
    requires i < |v| && IsSqrt(sqrt)
    ensures ZFlagged(ZScoresOf(v, sqrt)[i]) <==> |v| >= 2 && Abs(v[i] - Mean(v)) > 3.0 * Std(v, sqrt)
  {
    if |v| >= 2 {
      ZScoreReadsBack(v, sqrt, i);
      StdSquare(v, sqrt);
      FarFromMean(ZScoresOf(v, sqrt)[i], Std(v, sqrt), v[i] - Mean(v));
    }
  }

  lemma FarFromMean(z: real, s: real, d: real)
    requires 0.0 <= s && d == Times(z, s) && (s == 0.0 ==> z == 0.0)
    ensures ZFlagged(z) <==> Abs(d) > 3.0 * s
  {
    if s > 0.0 {
      if z > 3.0 {
        MulPos(z - 3.0, s);
      } else if z < -3.0 {
        MulPos(-z - 3.0, s);
      } else {
        MulMono(z, 3.0, s);
        MulMono(-3.0, z, s);
      }
    }
  }

  /** One value away from n - 1 equal ones. */
  function Spike(n: nat): (v: seq<real>)
    requires n > 0
    ensures |v| == n
  {
    Zeros(n - 1) + [1.0]
  }

  /** The bound is sharp: from eleven devices on, a single outlying device is flagged. */
  lemma SpikeIsFlagged(n: nat, sqrt: real -> real)
    requires n >= 11 && IsSqrt(sqrt)
    ensures ZFlagged(ZScoresOf(Spike(n), sqrt)[n - 1])
  {
    SpikeMoments(n, sqrt);
    var v := Spike(n);
    var s, mu := Std(v, sqrt), Mean(v);
    var z := ZScoresOf(v, sqrt)[n - 1];
    assert z == (1.0 - mu) / s;
    SpikeScore(n as real, mu, s, z);
    FlaggedSquare(z);
  }

  /** A spike has mean 1 / n and variance 1 / n. */
  lemma SpikeMoments(n: nat, sqrt: real -> real)
    requires n >= 2 && IsSqrt(sqrt)
    ensures var v := Spike(n);
      && Sum(v) == 1.0 && Times(Mean(v), n as real) == 1.0 && 0.0 < Mean(v)
      && 0.0 < Std(v, sqrt) && Times(Std(v, sqrt), Std(v, sqrt)) == Mean(v)
  {
    var v, one := Spike(n), [1.0];
    SumAppend(Zeros(n - 1), one);
    SumSqAppend(Zeros(n - 1), one);
    ZerosSums(n - 1);
    assert Sum(one) == 1.0 && SumSq(one) == 1.0;
    SumSqAffine(v, 1.0, -Mean(v));
    StdSquare(v, sqrt);
    DivTimes(1.0, n as real);
    SpikeMass(n as real, Mean(v), Variance(v), SumSq(Deviations(v)));
  }

  lemma SpikeMass(m: real, mu: real, w: real, q: real)
    requires m >= 2.0 && Times(mu, m) == 1.0 && Times(w, m - 1.0) == q
    requires q == Quad(1.0, -mu, 1.0, 1.0, m)
    ensures w == mu && 0.0 < mu
  {
    var t := -mu;
    assert t * t * m == mu * (mu * m);
    assert t * t * m == mu;
    assert q == 1.0 - mu;
    assert mu * (m - 1.0) == 1.0 - mu;
    assert (w - mu) * (m - 1.0) == 0.0;
    if w < mu { MulPos(mu - w, m - 1.0); }
    if w > mu { MulPos(w - mu, m - 1.0); }
    if mu <= 0.0 { TimesMono(m, mu, 0.0); }
  }

  lemma SpikeScore(m: real, mu: real, s: real, z: real)
    requires m >= 11.0 && Times(mu, m) == 1.0 && 0.0 < mu && Times(s, s) == mu && s != 0.0
    requires z == (1.0 - mu) / s
    ensures 9.0 < Times(z, z)
  {
    var y := z * z;
    assert z * s == 1.0 - mu;
    assert y * mu == (z * s) * (z * s);
    assert y * mu == 1.0 - 2.0 * mu + mu * mu;
    assert mu <= 1.0 / 11.0 by {
      if 11.0 * mu > 1.0 { MulMono(11.0, m, mu); }
    }
    assert 1.0 - 11.0 * mu + mu * mu > 0.0 by { MulPos(mu, mu); }
    assert (y - 9.0) * mu > 0.0;
    if y <= 9.0 { MulMono(y, 9.0, mu); }
  }

  /** The rule |z| > 3 can fire on some column of n devices exactly when n >= 11. */
  lemma RuleCanFireIff(n: nat, sqrt: real -> real)
    requires IsSqrt(sqrt)
    ensures (exists v: seq<real>, i: nat :: |v| == n && i < n && ZFlagged(ZScoresOf(v, sqrt)[i])) <==> n >= 11
  {
    if n >= 11 {
      SpikeIsFlagged(n, sqrt);
    } else {
      forall v: seq<real>, i: nat | |v| == n && i < n
        ensures !ZFlagged(ZScoresOf(v, sqrt)[i])
      {
        TenDevicesNeverFlag(v, sqrt, i);
      }
    }
  }

  /** Chebyshev counting: c flagged devices take up more than 9c of the square mass. */
  lemma {:induction false} FlaggedMass(z: seq<real>)
    ensures 9.0 * (Count(z, ZFlagged) as real) <= SumSq(z)
    ensures Count(z, ZFlagged) > 0 ==> 9.0 * (Count(z, ZFlagged) as real) < SumSq(z)
  {
    if z != [] {
      FlaggedMass(z[1..]);
      FlaggedSquare(z[0]);
      SquareNonNeg(z[0]);
    }
  }

  /** Fewer than one device in nine can be flagged by the z-score of one metric. */
  lemma FewFlagged(v: seq<real>, sqrt: real -> real)
    requires IsSqrt(sqrt)
    ensures var c := Count(ZScoresOf(v, sqrt), ZFlagged); c > 0 ==> 9 * c < |v| - 1
  {
    if |v| >= 2 {
      ZScoreMoments(v, sqrt);
      FlaggedMass(ZScoresOf(v, sqrt));
    } else {
      CountNone(ZScoresOf(v, sqrt), ZFlagged);
    }
  }

  // ---------- invariance

  /** Rescaling by a != 0 and shifting leaves each z-score unchanged up to the sign of a. */
  lemma AffineInvariance(v: seq<real>, sqrt: real -> real, a: real, b: real)
    requires IsSqrt(sqrt) && a != 0.0
    ensures ZScoresOf(Affine(v, a, b), sqrt) == Affine(ZScoresOf(v, sqrt), if a > 0.0 then 1.0 else -1.0, 0.0)
    ensures forall i :: 0 <= i < |v| ==>
      (ZFlagged(ZScoresOf(Affine(v, a, b), sqrt)[i]) <==> ZFlagged(ZScoresOf(v, sqrt)[i]))
  {
    var w, sign := Affine(v, a, b), if a > 0.0 then 1.0 else -1.0;
    if |v| >= 2 {
      AffineMean(v, a, b);
      AffineStd(v, sqrt, a, b);
      forall i | 0 <= i < |v|
        ensures ZScoresOf(w, sqrt)[i] == Line(sign, ZScoresOf(v, sqrt)[i], 0.0)
      {
        assert w[i] == Line(a, v[i], b);
        if Std(v, sqrt) != 0.0 {
          ScoreOfImage(v[i], Mean(v), Std(v, sqrt), a, b);
        }
      }
    }
  }

  lemma AffineMean(v: seq<real>, a: real, b: real)
    requires v != []
    ensures Mean(Affine(v, a, b)) == Line(a, Mean(v), b)
  {
    SumAffine(v, a, b);
    MeanOfImage(Sum(v), |v| as real, a, b);
  }

  lemma MeanOfImage(s: real, n: real, a: real, b: real)
    requires n != 0.0
    ensures (a * s + b * n) / n == Line(a, s / n, b)
  {
    var mu := s / n;
    assert mu * n == s;
    assert (a * mu + b) * n == a * s + b * n;
    QuotientIs(a * s + b * n, n, a * mu + b);
  }

  lemma AffineVariance(v: seq<real>, a: real, b: real)
    requires |v| >= 2
    ensures Variance(Affine(v, a, b)) == Times(Times(a, a), Variance(v))
  {
    AffineMean(v, a, b);
    var w, d := Affine(v, a, b), Deviations(v);
    forall i | 0 <= i < |v| ensures Deviations(w)[i] == Line(a, d[i], 0.0) {
      assert w[i] == Line(a, v[i], b);
      assert d[i] == Line(1.0, v[i], -Mean(v));
      ShiftCancels(v[i], Mean(v), a, b);
    }
    assert Deviations(w) == Affine(d, a, 0.0);
    DeviationsCentred(v);
    SumSqAffine(d, a, 0.0);
    assert |d| as real == (|v| as real - 1.0) + 1.0;
    ScaleQuotient(a, SumSq(d), |v| as real - 1.0);
  }

  lemma ScaleQuotient(a: real, q: real, m: real)
    requires m != 0.0
    ensures Quad(a, 0.0, q, 0.0, m + 1.0) / m == Times(Times(a, a), q / m)
  {
    assert (a * a * q) / m == (a * a) * (q / m);
  }

  lemma ShiftCancels(x: real, m: real, a: real, b: real)
    ensures Line(1.0, Line(a, x, b), -Line(a, m, b)) == Line(a, Line(1.0, x, -m), 0.0)
  {
  }

  lemma AffineStd(v: seq<real>, sqrt: real -> real, a: real, b: real)
    requires |v| >= 2 && IsSqrt(sqrt) && a != 0.0
    ensures Std(Affine(v, a, b), sqrt) == Times(Abs(a), Std(v, sqrt))
    ensures Std(Affine(v, a, b), sqrt) == 0.0 <==> Std(v, sqrt) == 0.0
  {
    AffineVariance(v, a, b);
    StdSquare(v, sqrt);
    StdSquare(Affine(v, a, b), sqrt);
    RootScales(a, Std(v, sqrt), Std(Affine(v, a, b), sqrt), Variance(v));
  }

  lemma RootScales(a: real, s: real, t: real, w: real)
    requires a != 0.0 && 0.0 <= s && 0.0 <= t
    requires Times(s, s) == w && Times(t, t) == Times(Times(a, a), w)
    ensures t == Times(Abs(a), s) && (t == 0.0 <==> s == 0.0)
  {
    var p := Abs(a);
    var u := p * s;
    assert p * p == a * a;
    assert u * u == (p * p) * (s * s);
    assert 0.0 <= u;
    SquareOrder(t, u);
    if s > 0.0 { MulPos(p, s); }
  }

  lemma ScoreOfImage(x: real, m: real, s: real, a: real, b: real)
    requires s != 0.0 && a != 0.0 && Times(Abs(a), s) != 0.0
    ensures (Line(a, x, b) - Line(a, m, b)) / Times(Abs(a), s)
         == Line(if a > 0.0 then 1.0 else -1.0, (x - m) / s, 0.0)
  {
    var p, r := Abs(a), (x - m) / s;
    assert r * s == x - m;
    assert (a * x + b) - (a * m + b) == a * (x - m);
    assert a * (r * s) == (a * r) * s;
    if a > 0.0 {
      assert r * (p * s) == a * (x - m);
      QuotientIs(a * (x - m), p * s, r);
    } else {
      assert -r * (p * s) == a * (x - m);
      QuotientIs(a * (x - m), p * s, -r);
    }
  }

  lemma QuotientIs(x: real, y: real, q: real)
    requires y != 0.0 && q * y == x
    ensures x / y == q
  {
  }

  /** Listing the devices in another order lists their z-scores in that order. */
  lemma ReorderInvariance(v: seq<real>, sqrt: real -> real, p: seq<nat>)
    requires IsPermutation(p, |v|)
    ensures forall i :: 0 <= i < |p| ==> p[i] < |v|
    ensures ZScoresOf(Reorder(v, p), sqrt) == Reorder(ZScoresOf(v, sqrt), p)
  {
    PermutationInRange(p, |v|);
    if v != [] {
      ReorderKeepsEntries(v, p);
      SameMoments(Reorder(v, p), v, sqrt);
    }
  }

  /** Mean and deviation do not depend on the order of the values. */
  lemma SameMoments(w: seq<real>, v: seq<real>, sqrt: real -> real)
    requires v != [] && multiset(w) == multiset(v)
    ensures |w| == |v| && Mean(w) == Mean(v) && (|v| >= 2 ==> Std(w, sqrt) == Std(v, sqrt))
  {
    SumReorder(w, v);
    SumSqAffine(w, 1.0, -Mean(w));
    SumSqAffine(v, 1.0, -Mean(v));
  }
}

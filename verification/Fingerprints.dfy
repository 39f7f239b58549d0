/** Nearest fingerprints by cosine similarity. */
module Fingerprints {
  import opened Rounding
  import opened Sequences
  import opened Sums

  function Norm(v: seq<real>, sqrt: real -> real): real {
    sqrt(SumSq(v))
  }

  function CosineSimilarity(a: seq<real>, b: seq<real>, sqrt: real -> real): real
    requires |a| == |b|
  {
    var na, nb := Norm(a, sqrt), Norm(b, sqrt);
    if na == 0.0 || nb == 0.0 then 0.0 else Dot(a, b) / (na * nb)
  }

  function EuclideanDistance(a: seq<real>, b: seq<real>, sqrt: real -> real): real
    requires |a| == |b|
  {
    sqrt(SumSq(Combine(1.0, a, -1.0, b)))
  }

  // ---------- the two measures

  lemma NormSquare(v: seq<real>, sqrt: real -> real)
    requires IsSqrt(sqrt)
    ensures 0.0 <= Norm(v, sqrt) && Times(Norm(v, sqrt), Norm(v, sqrt)) == SumSq(v)
  {
    SumSqNonNeg(v);
  }

  function Signed(minus: bool, x: real): real {
    if minus then -x else x
  }

  /** |nb * a - na * b|^2 and |nb * a + na * b|^2, where na and nb are the norms. */
  lemma GapSquare(a: seq<real>, b: seq<real>, na: real, nb: real, minus: bool)
    requires |a| == |b| && Times(na, na) == SumSq(a) && Times(nb, nb) == SumSq(b)
    ensures var u := Times(na, nb);
      SumSq(Combine(nb, a, Signed(minus, na), b)) == 2.0 * Times(u, u + Signed(minus, Dot(a, b)))
  {
    SumSqCombine(nb, a, Signed(minus, na), b);
    GapIdentity(na, nb, minus, Dot(a, b), SumSq(a), SumSq(b));
  }

  lemma GapIdentity(na: real, nb: real, minus: bool, d: real, p: real, r: real)
    requires Times(na, na) == p && Times(nb, nb) == r
    ensures var u := Times(na, nb);
      Quad(nb, Signed(minus, na), p, d, r) == 2.0 * Times(u, u + Signed(minus, d))
  {
    var u, x := na * nb, Signed(minus, na);
    assert x * x == na * na;
    assert nb * nb * p == u * u;
    assert x * x * r == u * u;
    assert nb * x == Signed(minus, u);
    assert (nb * x) * d == u * Signed(minus, d);
    assert u * (u + Signed(minus, d)) == u * u + u * Signed(minus, d);
  }

  /** Cauchy-Schwarz: the inner product is bounded by the product of the norms. */
  lemma CauchySchwarz(a: seq<real>, b: seq<real>, sqrt: real -> real)
    requires |a| == |b| && IsSqrt(sqrt)
    ensures var u := Times(Norm(a, sqrt), Norm(b, sqrt)); 0.0 <= u && -u <= Dot(a, b) <= u
  {
    NormSquare(a, sqrt);
    NormSquare(b, sqrt);
    ProductNonNeg(Norm(a, sqrt), Norm(b, sqrt));
    if Times(Norm(a, sqrt), Norm(b, sqrt)) == 0.0 {
      ZeroNormDot(a, b, sqrt);
    } else {
      GapBound(a, b, Norm(a, sqrt), Norm(b, sqrt), true);
      GapBound(a, b, Norm(a, sqrt), Norm(b, sqrt), false);
    }
  }

  lemma ProductNonNeg(x: real, y: real)
    requires 0.0 <= x && 0.0 <= y
    ensures 0.0 <= Times(x, y)
  {
  }

  lemma GapBound(a: seq<real>, b: seq<real>, na: real, nb: real, minus: bool)
    requires |a| == |b| && Times(na, na) == SumSq(a) && Times(nb, nb) == SumSq(b) && 0.0 < Times(na, nb)
    ensures 0.0 <= Times(na, nb) + Signed(minus, Dot(a, b))
  {
    GapSquare(a, b, na, nb, minus);
    SumSqNonNeg(Combine(nb, a, Signed(minus, na), b));
    FactorNonNeg(Times(na, nb), Times(na, nb) + Signed(minus, Dot(a, b)));
  }

  lemma FactorNonNeg(u: real, x: real)
    requires 0.0 < u && 0.0 <= Times(u, x)
    ensures 0.0 <= x
  {
    if x < 0.0 { MulPos(u, -x); }
  }

  lemma ZeroNormDot(a: seq<real>, b: seq<real>, sqrt: real -> real)
    requires |a| == |b| && IsSqrt(sqrt) && Times(Norm(a, sqrt), Norm(b, sqrt)) == 0.0
    ensures Dot(a, b) == 0.0
  {
    NormSquare(a, sqrt);
    NormSquare(b, sqrt);
    if Norm(a, sqrt) == 0.0 {
      SumSqZero(a);
      ZeroDot(a, b);
    } else {
      if Norm(b, sqrt) != 0.0 { MulPos(Norm(a, sqrt), Norm(b, sqrt)); }
      SumSqZero(b);
      ZeroDot(b, a);
      DotSymmetric(a, b);
    }
  }

  lemma {:induction false} ZeroDot(a: seq<real>, b: seq<real>)
    requires |a| == |b| && forall i :: 0 <= i < |a| ==> a[i] == 0.0
    ensures Dot(a, b) == 0.0
  {
    if a != [] { ZeroDot(a[1..], b[1..]); }
  }

  /** The cosine lies between -1 and 1, in every dimension. */
  lemma CosineRange(a: seq<real>, b: seq<real>, sqrt: real -> real)
    requires |a| == |b| && IsSqrt(sqrt)
    ensures -1.0 <= CosineSimilarity(a, b, sqrt) <= 1.0
  {
    var na, nb := Norm(a, sqrt), Norm(b, sqrt);
    CauchySchwarz(a, b, sqrt);
    NormSquare(a, sqrt);
    NormSquare(b, sqrt);
    if na != 0.0 && nb != 0.0 {
      MulPos(na, nb);
      QuotientRange(Dot(a, b), Times(na, nb));
    }
  }

  lemma QuotientRange(d: real, u: real)
    requires 0.0 < u && -u <= d <= u
    ensures -1.0 <= d / u <= 1.0
  {
    var q := d / u;
    assert q * u == d;
    if q > 1.0 { MulPos(q - 1.0, u); }
    if q < -1.0 { MulPos(-1.0 - q, u); }
  }

  /** The direction test behind the score: cosine 1 means a positive multiple, and only that. */
  lemma CosineOneIff(a: seq<real>, b: seq<real>, sqrt: real -> real)
    requires |a| == |b| && IsSqrt(sqrt) && SumSq(a) != 0.0
    ensures CosineSimilarity(a, b, sqrt) == 1.0 <==> exists t: real :: 0.0 < t && b == Affine(a, t, 0.0)
  {
    var na, nb := Norm(a, sqrt), Norm(b, sqrt);
    NormSquare(a, sqrt);
    NormSquare(b, sqrt);
    SqrtZero(sqrt, SumSq(a));
    if CosineSimilarity(a, b, sqrt) == 1.0 {
      ParallelWhenOne(a, b, sqrt);
    }
    forall t: real | 0.0 < t && b == Affine(a, t, 0.0) ensures CosineSimilarity(a, b, sqrt) == 1.0 {
      OneWhenParallel(a, b, sqrt, t);
    }
  }

  lemma ParallelWhenOne(a: seq<real>, b: seq<real>, sqrt: real -> real)
    requires |a| == |b| && IsSqrt(sqrt) && Norm(a, sqrt) != 0.0
    requires CosineSimilarity(a, b, sqrt) == 1.0
    ensures 0.0 < Norm(b, sqrt) / Norm(a, sqrt) && b == Affine(a, Norm(b, sqrt) / Norm(a, sqrt), 0.0)
  {
    var na, nb := Norm(a, sqrt), Norm(b, sqrt);
    NormSquare(a, sqrt);
    NormSquare(b, sqrt);
    MulPos(na, nb);
    QuotientOne(Dot(a, b), Times(na, nb));
    GapSquare(a, b, na, nb, true);
    var gap := Combine(nb, a, -na, b);
    SumSqZero(gap);
    PositiveQuotient(nb, na);
    forall i | 0 <= i < |a| ensures b[i] == Line(nb / na, a[i], 0.0) {
      assert gap[i] == Mix(nb, a[i], -na, b[i]);
      SolveFor(nb, a[i], na, b[i]);
    }
  }

  lemma QuotientOne(d: real, u: real)
    requires u != 0.0
    ensures d / u == 1.0 <==> d == u
  {
    var q := d / u;
    assert q * u == d;
  }

  lemma PositiveQuotient(x: real, y: real)
    requires 0.0 < x && 0.0 < y
    ensures 0.0 < x / y
  {
    var q := x / y;
    assert q * y == x;
    if q <= 0.0 { MulMono(q, 0.0, y); }
  }

  lemma SolveFor(nb: real, x: real, na: real, y: real)
    requires 0.0 < na && Mix(nb, x, -na, y) == 0.0
    ensures y == Line(nb / na, x, 0.0)
  {
    var q := nb / na;
    assert q * na == nb;
    assert nb * x == na * (q * x);
    assert na * (y - q * x) == 0.0;
    if y > q * x { MulPos(na, y - q * x); }
    if y < q * x { MulPos(na, q * x - y); }
  }

  lemma OneWhenParallel(a: seq<real>, b: seq<real>, sqrt: real -> real, t: real)
    requires |a| == |b| && IsSqrt(sqrt) && Norm(a, sqrt) != 0.0
    requires 0.0 < t && b == Affine(a, t, 0.0)
    ensures CosineSimilarity(a, b, sqrt) == 1.0
  {
    var na, nb := Norm(a, sqrt), Norm(b, sqrt);
    NormSquare(a, sqrt);
    NormSquare(b, sqrt);
    SumSqAffine(a, t, 0.0);
    assert b == Combine(t, a, 0.0, a) by {
      forall i | 0 <= i < |a| ensures b[i] == Mix(t, a[i], 0.0, a[i]) { assert b[i] == Line(t, a[i], 0.0); }
    }
    DotCombine(t, a, 0.0, a, a);
    DotSymmetric(a, b);
    ParallelNorm(t, na, nb, SumSq(a), SumSq(b), Sum(a), |a| as real);
    MulPos(na, nb);
    QuotientOne(Dot(a, b), Times(na, nb));
    ScaleSquare(t, na, SumSq(a), nb);
  }

  lemma ParallelNorm(t: real, na: real, nb: real, p: real, r: real, s: real, n: real)
    requires 0.0 < t && 0.0 < na && 0.0 <= nb && Times(na, na) == p && Times(nb, nb) == r
    requires r == Quad(t, 0.0, p, s, n)
    ensures nb == Times(t, na) && 0.0 < nb
  {
    var u := t * na;
    assert u * u == t * t * p;
    MulPos(t, na);
    SquareOrder(nb, u);
  }

  lemma ScaleSquare(t: real, na: real, p: real, nb: real)
    requires Times(na, na) == p && nb == Times(t, na)
    ensures Mix(t, p, 0.0, p) == Times(na, nb)
  {
    assert na * (t * na) == t * (na * na);
  }

  /** The squared distance is |a|^2 + |b|^2 - 2 a.b, and only equal vectors are at distance 0. */
  lemma DistanceMeaning(a: seq<real>, b: seq<real>, sqrt: real -> real)
    requires |a| == |b| && IsSqrt(sqrt)
    ensures var d := EuclideanDistance(a, b, sqrt);
      && 0.0 <= d && Times(d, d) == SumSq(a) + SumSq(b) - 2.0 * Dot(a, b)
      && (d == 0.0 <==> a == b)
  {
    var gap := Combine(1.0, a, -1.0, b);
    SumSqNonNeg(gap);
    SumSqCombine(1.0, a, -1.0, b);
    SqrtZero(sqrt, SumSq(gap));
    if SumSq(gap) == 0.0 {
      SumSqZero(gap);
      forall i | 0 <= i < |a| ensures a[i] == b[i] { assert gap[i] == Mix(1.0, a[i], -1.0, b[i]); }
    } else if a == b {
      DotSymmetric(a, b);
    }
  }

  /** The law of cosines ties the two reported measures together. */
  lemma LawOfCosines(a: seq<real>, b: seq<real>, sqrt: real -> real)
    requires |a| == |b| && IsSqrt(sqrt)
    ensures var d, na, nb := EuclideanDistance(a, b, sqrt), Norm(a, sqrt), Norm(b, sqrt);
      Times(d, d) == Times(na, na) + Times(nb, nb) - 2.0 * Times(CosineSimilarity(a, b, sqrt), Times(na, nb))
  {
    var na, nb := Norm(a, sqrt), Norm(b, sqrt);
    DistanceMeaning(a, b, sqrt);
    NormSquare(a, sqrt);
    NormSquare(b, sqrt);
    if na == 0.0 || nb == 0.0 {
      assert Times(na, nb) == 0.0;
      ZeroNormDot(a, b, sqrt);
    } else {
      MulPos(na, nb);
      DivTimes(Dot(a, b), Times(na, nb));
    }
  }

  // ---------- the query

  datatype Neighbour = Neighbour(index: nat, cosine: real, distance: real)

  datatype Answer =
    | NoFingerprints
    | ZeroTarget
    | DimensionMismatch
    | Neighbours(list: seq<Neighbour>, returned: int, short: bool)

  function Score(target: seq<real>, fps: seq<seq<real>>, sqrt: real -> real, i: nat): Neighbour
    requires i < |fps| && |target| == |fps[i]|
  {
    Neighbour(i + 1, CosineSimilarity(target, fps[i], sqrt), EuclideanDistance(target, fps[i], sqrt))
  }

  /** A neighbour as it is listed: both measures rounded to six digits. */
  function Listed(t: Neighbour): Neighbour {
    Neighbour(t.index, Round6(t.cosine), Round6(t.distance))
  }

  ghost predicate SameDimension(target: seq<real>, fps: seq<seq<real>>) {
    forall i :: 0 <= i < |fps| ==> |fps[i]| == |target|
  }

  ghost function Scores(target: seq<real>, fps: seq<seq<real>>, sqrt: real -> real): (s: seq<Neighbour>)
    requires SameDimension(target, fps)
    ensures |s| == |fps| && forall i :: 0 <= i < |s| ==> s[i] == Score(target, fps, sqrt, i)
  {
    seq(|fps|, i requires 0 <= i < |fps| => Score(target, fps, sqrt, i))
  }

  function Descending(t: Neighbour): real {
    -t.cosine
  }

  /** All fingerprints, best first; equal scores stay in storage order. */
  ghost function Ranking(target: seq<real>, fps: seq<seq<real>>, sqrt: real -> real): seq<Neighbour>
    requires SameDimension(target, fps)
  {
    SortBy(Descending, Scores(target, fps, sqrt))
  }

  function Clamp(k: int, n: nat): nat {
    if k <= 0 then 0 else if k <= n then k else n
  }

  method ScoreAll(target: seq<real>, fps: seq<seq<real>>, sqrt: real -> real) returns (similarities: seq<Neighbour>)
    requires SameDimension(target, fps)
    ensures similarities == Scores(target, fps, sqrt)
  {
    similarities := [];
    for i := 0 to |fps|
      invariant |similarities| == i
      invariant forall j :: 0 <= j < i ==> similarities[j] == Score(target, fps, sqrt, j)
    {
      var fp := fps[i];
      var cs := CosineSimilarity(target, fp, sqrt);
      var ed := EuclideanDistance(target, fp, sqrt);
      similarities := similarities + [Neighbour(i + 1, cs, ed)];
    }
  }

  /** A target of another height than the matrix fails at its first inner product. `fps` holds the
      columns of the fingerprint matrix, so they all have the matrix's height. */
  method FindSimilarDevices(target: seq<real>, fps: seq<seq<real>>, height: nat, k: int, sqrt: real -> real)
    returns (answer: Answer)
    requires IsSqrt(sqrt) && forall i :: 0 <= i < |fps| ==> |fps[i]| == height
    ensures answer.NoFingerprints? <==> fps == []
    ensures answer.ZeroTarget? <==> fps != [] && SumSq(target) == 0.0
    ensures answer.DimensionMismatch? <==> fps != [] && SumSq(target) != 0.0 && |target| != height
    ensures answer.Neighbours? ==>
      && SameDimension(target, fps)
      && answer.list == Map(Listed, Ranking(target, fps, sqrt)[..Clamp(k, |Ranking(target, fps, sqrt)|)])
      && IsListing(answer.list, target, fps, sqrt, k)
      && answer.returned == (if k < |fps| then k else |fps|)
      && (answer.short <==> |fps| < k)
  {
    var n := |fps|;
    if n == 0 {
      return NoFingerprints;
    }
    SumSqNonNeg(target);
    SqrtZero(sqrt, SumSq(target));
    if Norm(target, sqrt) == 0.0 {
      return ZeroTarget;
    }
    if |target| != height {
      return DimensionMismatch;
    }
    var similarities := ScoreAll(target, fps, sqrt);
    similarities := SortBy(Descending, similarities);
    SortByCorrect(Descending, Scores(target, fps, sqrt));
    assert |similarities| == n;
    var kActual := if k < n then k else n;
    var neighbours: seq<Neighbour> := [];
    var j := 0;
    while j < kActual
      invariant 0 <= j <= Clamp(k, n)
      invariant neighbours == Map(Listed, similarities[..j])
    {
      MapNext(Listed, similarities, j);
      neighbours := neighbours + [Listed(similarities[j])];
      j := j + 1;
    }
    ListingIs(target, fps, sqrt, k);
    answer := Neighbours(neighbours, kActual, kActual < k);
  }

  // ---------- what the answer means

  /** Strictly better: a higher cosine, or the same cosine and an earlier fingerprint. */
  predicate Before(x: Neighbour, y: Neighbour) {
    x.cosine > y.cosine || (x.cosine == y.cosine && x.index < y.index)
  }

  ghost predicate Ranked(s: seq<Neighbour>) {
    forall i, j :: 0 <= i < j < |s| ==> Before(s[i], s[j])
  }

  ghost predicate InStorageOrder(s: seq<Neighbour>) {
    forall i, j :: 0 <= i < j < |s| ==> s[i].index < s[j].index
  }

  lemma {:induction false} InsertRanked(x: Neighbour, s: seq<Neighbour>)
    requires Ranked(s) && forall i :: 0 <= i < |s| ==> x.index < s[i].index
    ensures Ranked(InsertBy(Descending, x, s))
  {
    if s != [] && Descending(s[0]) < Descending(x) {
      var r := s[1..];
      assert forall i :: 0 <= i < |r| ==> r[i] == s[i + 1];
      InsertRanked(x, r);
      var t := InsertBy(Descending, x, r);
      forall j | 0 <= j < |t| ensures Before(s[0], t[j]) {
        InsertByMember(Descending, x, r, t[j]);
      }
    }
  }

  lemma {:induction false} SortRanked(s: seq<Neighbour>)
    requires InStorageOrder(s)
    ensures Ranked(SortBy(Descending, s))
  {
    if s != [] {
      assert forall i :: 0 <= i < |s[1..]| ==> s[1..][i] == s[i + 1];
      SortRanked(s[1..]);
      SortByCorrect(Descending, s[1..]);
      var t := SortBy(Descending, s[1..]);
      forall i | 0 <= i < |t| ensures s[0].index < t[i].index {
        assert t[i] in multiset(t) && t[i] in multiset(s[1..]);
        var k :| 0 <= k < |s[1..]| && s[1..][k] == t[i];
      }
      InsertRanked(s[0], t);
    }
  }

  ghost predicate Numbered(s: seq<Neighbour>) {
    forall i :: 0 <= i < |s| ==> s[i].index == i + 1
  }

  /** Sorting numbered scores lists each of them once, best first, ties in storage order. */
  lemma SortNumbered(s: seq<Neighbour>)
    requires Numbered(s)
    ensures var r := SortBy(Descending, s);
      && |r| == |s| && Ranked(r)
      && (forall j :: 0 <= j < |r| ==> 1 <= r[j].index <= |s| && r[j] == s[r[j].index - 1])
      && (forall i :: 0 <= i < |s| ==> s[i] in r)
  {
    var r := SortBy(Descending, s);
    SortByCorrect(Descending, s);
    SortRanked(s);
    SameMembers(r, s);
    forall j | 0 <= j < |r| ensures 1 <= r[j].index <= |s| && r[j] == s[r[j].index - 1] {
      assert r[j] in s;
    }
  }

  lemma ScoresNumbered(target: seq<real>, fps: seq<seq<real>>, sqrt: real -> real)
    requires SameDimension(target, fps)
    ensures Numbered(Scores(target, fps, sqrt))
  {
  }

  /** Distinct fingerprints, best first, none of the omitted ones better than any of them. */
  ghost predicate BestOf(top: seq<Neighbour>, s: seq<Neighbour>) {
    && (forall i, j :: 0 <= i < j < |top| ==> top[i].index != top[j].index && top[i].cosine >= top[j].cosine)
    && (forall i, j :: 0 <= i < |s| && s[i] !in top && 0 <= j < |top| ==> top[j].cosine >= s[i].cosine)
  }

  /** The answer for k lists the min(k, n) best fingerprints, and is a prefix of the answer for k + 1. */
  lemma TopK(target: seq<real>, fps: seq<seq<real>>, sqrt: real -> real, k: int)
    requires SameDimension(target, fps)
    ensures var s, r := Scores(target, fps, sqrt), Ranking(target, fps, sqrt);
      && |r| == |fps| && BestOf(r[..Clamp(k, |r|)], s)
      && r[..Clamp(k, |r|)] <= r[..Clamp(k + 1, |r|)]
  {
    RankingRanksAll(target, fps, sqrt);
    TopOfRanks(Ranking(target, fps, sqrt), target, fps, sqrt, k);
  }

  lemma TopOfRanks(r: seq<Neighbour>, target: seq<real>, fps: seq<seq<real>>, sqrt: real -> real, k: int)
    requires SameDimension(target, fps) && RanksAll(r, target, fps, sqrt)
    ensures BestOf(r[..Clamp(k, |r|)], Scores(target, fps, sqrt)) && r[..Clamp(k, |r|)] <= r[..Clamp(k + 1, |r|)]
  {
    var s := Scores(target, fps, sqrt);
    forall i | 0 <= i < |s| ensures s[i] in r {
      assert Names(r, i + 1);
    }
    TopOfSorted(s, r, k);
  }

  lemma TopOfSorted(s: seq<Neighbour>, r: seq<Neighbour>, k: int)
    requires |r| == |s| && Ranked(r) && forall i :: 0 <= i < |s| ==> s[i] in r
    requires forall j :: 0 <= j < |r| ==> 1 <= r[j].index <= |s| && r[j] == s[r[j].index - 1]
    ensures BestOf(r[..Clamp(k, |r|)], s) && r[..Clamp(k, |r|)] <= r[..Clamp(k + 1, |r|)]
  {
    TopOfRanked(s, r, Clamp(k, |r|));
    LongerPrefix(r, Clamp(k, |r|), Clamp(k + 1, |r|));
  }

  lemma LongerPrefix<T>(r: seq<T>, a: nat, b: nat)
    requires a <= b <= |r|
    ensures r[..a] <= r[..b]
  {
  }

  lemma TopOfRanked(s: seq<Neighbour>, r: seq<Neighbour>, k: nat)
    requires k <= |r| && Ranked(r) && forall i :: 0 <= i < |s| ==> s[i] in r
    requires forall j :: 0 <= j < |r| ==> 1 <= r[j].index <= |s| && r[j] == s[r[j].index - 1]
    ensures BestOf(r[..k], s)
  {
    var top := r[..k];
    forall i, j | 0 <= i < j < k ensures top[i].index != top[j].index && top[i].cosine >= top[j].cosine {
      assert Before(r[i], r[j]);
      assert top[i] == r[i] && top[j] == r[j];
    }
    assert forall x :: 0 <= x < k ==> top[x] == r[x];
    forall i, j | 0 <= i < |s| && s[i] !in top && 0 <= j < k ensures top[j].cosine >= s[i].cosine {
      var m :| 0 <= m < |r| && r[m] == s[i];
      assert Before(r[j], r[m]);
    }
  }

  /** Two best-first listings of the same scores are the same listing. */
  lemma {:induction false} RankedUnique(s: seq<Neighbour>, t: seq<Neighbour>)
    requires Ranked(s) && Ranked(t) && multiset(s) == multiset(t)
    ensures s == t
  {
    if s == [] || t == [] {
      assert s == t;
    } else {
      RankedHeads(s, t);
      TailsAgree(s, t);
      RankedTail(s);
      RankedTail(t);
      RankedUnique(s[1..], t[1..]);
      assert s == [s[0]] + s[1..] && t == [t[0]] + t[1..];
    }
  }

  lemma RankedHeads(s: seq<Neighbour>, t: seq<Neighbour>)
    requires Ranked(s) && Ranked(t) && s != [] && t != [] && multiset(s) == multiset(t)
    ensures s[0] == t[0]
  {
    SameMembers(s, t);
    assert s[0] in t && t[0] in s;
    var i :| 0 <= i < |t| && t[i] == s[0];
    var j :| 0 <= j < |s| && s[j] == t[0];
  }

  lemma RankedTail(s: seq<Neighbour>)
    requires Ranked(s) && s != []
    ensures Ranked(s[1..])
  {
  }

  /** A non-zero target stored among the fingerprints comes back first with cosine exactly 1. */
  lemma StoredTargetIsFirst(target: seq<real>, fps: seq<seq<real>>, sqrt: real -> real)
    requires SameDimension(target, fps) && IsSqrt(sqrt) && SumSq(target) != 0.0 && target in fps
    ensures var r := Ranking(target, fps, sqrt);
      && |r| > 0 && r[0].cosine == 1.0
      && exists t: real :: 0.0 < t && 1 <= r[0].index <= |fps| && fps[r[0].index - 1] == Affine(target, t, 0.0)
  {
    var i :| 0 <= i < |fps| && fps[i] == target;
    SelfCosine(target, sqrt);
    RankingRanksAll(target, fps, sqrt);
    FirstOfRanks(Ranking(target, fps, sqrt), target, fps, sqrt, i);
    var first := fps[Ranking(target, fps, sqrt)[0].index - 1];
    CosineRange(target, first, sqrt);
    CosineOneIff(target, first, sqrt);
  }

  /** So its listing starts with a fingerprint of the target's direction. */
  lemma StoredTargetIsListed(list: seq<Neighbour>, target: seq<real>, fps: seq<seq<real>>, sqrt: real -> real, k: int)
    requires SameDimension(target, fps) && IsSqrt(sqrt) && SumSq(target) != 0.0 && target in fps
    requires IsListing(list, target, fps, sqrt, k) && k >= 1
    ensures list != [] && 1 <= list[0].index <= |fps|
    ensures exists t: real :: 0.0 < t && fps[list[0].index - 1] == Affine(target, t, 0.0)
  {
    var i :| 0 <= i < |fps| && fps[i] == target;
    assert Describes(list[0], target, fps, sqrt);
    var first := list[0].index;
    NearestOfAll(list, target, fps, sqrt, i + 1);
    SelfCosine(target, sqrt);
    CosineRange(target, fps[first - 1], sqrt);
    CosineOneIff(target, fps[first - 1], sqrt);
  }

  lemma NearestOfAll(list: seq<Neighbour>, target: seq<real>, fps: seq<seq<real>>, sqrt: real -> real, q: nat)
    requires SameDimension(target, fps) && list != [] && forall i :: 0 <= i < |list| ==> 1 <= list[i].index <= |fps|
    requires NearestFirst(list, target, fps, sqrt) && OthersAfter(list, target, fps, sqrt) && 1 <= q <= |fps|
    ensures q == list[0].index || Nearer(target, fps, sqrt, list[0].index, q)
  {
    if Names(list, q) {
      var j :| 0 <= j < |list| && list[j].index == q;
      if j > 0 { assert Nearer(target, fps, sqrt, list[0].index, list[j].index); }
    }
  }

  lemma FirstOfRanks(r: seq<Neighbour>, target: seq<real>, fps: seq<seq<real>>, sqrt: real -> real, i: nat)
    requires SameDimension(target, fps) && RanksAll(r, target, fps, sqrt) && i < |fps|
    ensures |r| > 0 && 1 <= r[0].index <= |fps| && r[0] == Score(target, fps, sqrt, r[0].index - 1)
    ensures CosineSimilarity(target, fps[i], sqrt) <= r[0].cosine
  {
    assert Names(r, i + 1);
    var m :| 0 <= m < |r| && r[m].index == i + 1;
    if m > 0 { assert Before(r[0], r[m]); }
  }

  /** Fingerprint i, counted from 1, comes before fingerprint j: a higher cosine with the target, or the same
      cosine and stored earlier. */
  ghost predicate Nearer(target: seq<real>, fps: seq<seq<real>>, sqrt: real -> real, i: nat, j: nat)
    requires SameDimension(target, fps) && 1 <= i <= |fps| && 1 <= j <= |fps|
  {
    var x, y := CosineSimilarity(target, fps[i - 1], sqrt), CosineSimilarity(target, fps[j - 1], sqrt);
    x > y || (x == y && i < j)
  }

  /** The listed entry names fingerprint `index`, counted from 1, and gives its cosine and distance to six
      digits. */
  ghost predicate Describes(t: Neighbour, target: seq<real>, fps: seq<seq<real>>, sqrt: real -> real)
    requires SameDimension(target, fps)
  {
    && 1 <= t.index <= |fps|
    && IsRound6(CosineSimilarity(target, fps[t.index - 1], sqrt), t.cosine)
    && IsRound6(EuclideanDistance(target, fps[t.index - 1], sqrt), t.distance)
  }

  /** Each entry describes its fingerprint. */
  ghost predicate Described(list: seq<Neighbour>, target: seq<real>, fps: seq<seq<real>>, sqrt: real -> real)
    requires SameDimension(target, fps)
  {
    forall i :: 0 <= i < |list| ==> Describes(list[i], target, fps, sqrt)
  }

  /** The entries are nearest first. */
  ghost predicate NearestFirst(list: seq<Neighbour>, target: seq<real>, fps: seq<seq<real>>, sqrt: real -> real)
    requires SameDimension(target, fps) && forall i :: 0 <= i < |list| ==> 1 <= list[i].index <= |fps|
  {
    forall i, j :: 0 <= i < j < |list| ==> Nearer(target, fps, sqrt, list[i].index, list[j].index)
  }

  predicate Names(list: seq<Neighbour>, q: nat) {
    exists j :: 0 <= j < |list| && list[j].index == q
  }

  /** Every fingerprint that is not listed comes after all that are. */
  ghost predicate OthersAfter(list: seq<Neighbour>, target: seq<real>, fps: seq<seq<real>>, sqrt: real -> real)
    requires SameDimension(target, fps) && forall i :: 0 <= i < |list| ==> 1 <= list[i].index <= |fps|
  {
    forall q: nat, i :: 1 <= q <= |fps| && !Names(list, q) && 0 <= i < |list| ==>
      Nearer(target, fps, sqrt, list[i].index, q)
  }

  /** The k nearest fingerprints, or all when there are fewer, in order. */
  ghost predicate IsListing(list: seq<Neighbour>, target: seq<real>, fps: seq<seq<real>>, sqrt: real -> real, k: int)
    requires SameDimension(target, fps)
  {
    && |list| == (if k <= 0 then 0 else if k <= |fps| then k else |fps|)
    && Described(list, target, fps, sqrt)
    && NearestFirst(list, target, fps, sqrt)
    && OthersAfter(list, target, fps, sqrt)
  }

  /** All scores, best first. */
  ghost predicate RanksAll(r: seq<Neighbour>, target: seq<real>, fps: seq<seq<real>>, sqrt: real -> real)
    requires SameDimension(target, fps)
  {
    && |r| == |fps| && Ranked(r)
    && (forall m :: 0 <= m < |r| ==> 1 <= r[m].index <= |fps| && r[m] == Score(target, fps, sqrt, r[m].index - 1))
    && (forall q: nat :: 1 <= q <= |fps| ==> Names(r, q))
  }

  lemma RankingRanksAll(target: seq<real>, fps: seq<seq<real>>, sqrt: real -> real)
    requires SameDimension(target, fps)
    ensures RanksAll(Ranking(target, fps, sqrt), target, fps, sqrt)
  {
    var s, r := Scores(target, fps, sqrt), Ranking(target, fps, sqrt);
    ScoresNumbered(target, fps, sqrt);
    SortNumbered(s);
    forall q: nat | 1 <= q <= |fps| ensures Names(r, q) {
      assert s[q - 1] in r;
    }
  }

  lemma ListedDescribes(target: seq<real>, fps: seq<seq<real>>, sqrt: real -> real, i: nat)
    requires SameDimension(target, fps) && i < |fps|
    ensures Describes(Listed(Score(target, fps, sqrt, i)), target, fps, sqrt)
  {
    Round6Is(CosineSimilarity(target, fps[i], sqrt));
    Round6Is(EuclideanDistance(target, fps[i], sqrt));
  }

  lemma RankedNearer(target: seq<real>, fps: seq<seq<real>>, sqrt: real -> real, r: seq<Neighbour>, i: nat, j: nat)
    requires SameDimension(target, fps) && RanksAll(r, target, fps, sqrt) && i < j < |r|
    ensures Nearer(target, fps, sqrt, r[i].index, r[j].index)
  {
    assert Before(r[i], r[j]);
  }

  lemma PrefixDescribed(list: seq<Neighbour>, r: seq<Neighbour>, target: seq<real>, fps: seq<seq<real>>,
                        sqrt: real -> real)
    requires SameDimension(target, fps) && RanksAll(r, target, fps, sqrt) && |list| <= |r|
    requires forall i :: 0 <= i < |list| ==> list[i] == Listed(r[i])
    ensures Described(list, target, fps, sqrt)
  {
    forall i | 0 <= i < |list| ensures Describes(list[i], target, fps, sqrt) {
      ListedDescribes(target, fps, sqrt, r[i].index - 1);
    }
  }

  lemma PrefixInOrder(list: seq<Neighbour>, r: seq<Neighbour>, target: seq<real>, fps: seq<seq<real>>,
                      sqrt: real -> real)
    requires SameDimension(target, fps) && RanksAll(r, target, fps, sqrt) && |list| <= |r|
    requires forall i :: 0 <= i < |list| ==> list[i].index == r[i].index
    ensures NearestFirst(list, target, fps, sqrt) && OthersAfter(list, target, fps, sqrt)
  {
    forall i, j | 0 <= i < j < |list| ensures Nearer(target, fps, sqrt, list[i].index, list[j].index) {
      RankedNearer(target, fps, sqrt, r, i, j);
    }
    forall q: nat, i | 1 <= q <= |fps| && !Names(list, q) && 0 <= i < |list|
      ensures Nearer(target, fps, sqrt, list[i].index, q)
    {
      assert Names(r, q);
      var m :| 0 <= m < |r| && r[m].index == q;
      assert m >= |list|;
      RankedNearer(target, fps, sqrt, r, i, m);
    }
  }

  /** The first k of the ranking, as listed, are such a listing. */
  lemma ListingIs(target: seq<real>, fps: seq<seq<real>>, sqrt: real -> real, k: int)
    requires SameDimension(target, fps)
    ensures |Ranking(target, fps, sqrt)| == |fps|
    ensures IsListing(Map(Listed, Ranking(target, fps, sqrt)[..Clamp(k, |fps|)]), target, fps, sqrt, k)
  {
    var r := Ranking(target, fps, sqrt);
    RankingRanksAll(target, fps, sqrt);
    PrefixDescribed(Map(Listed, r[..Clamp(k, |fps|)]), r, target, fps, sqrt);
    PrefixInOrder(Map(Listed, r[..Clamp(k, |fps|)]), r, target, fps, sqrt);
  }

  /** The listed measures: cosines descend and stay within -1 and 1, and no distance is negative. */
  lemma ListedInOrder(target: seq<real>, fps: seq<seq<real>>, sqrt: real -> real, k: int)
    requires SameDimension(target, fps) && IsSqrt(sqrt)
    ensures var r := Ranking(target, fps, sqrt);
      var list := Map(Listed, r[..Clamp(k, |r|)]);
      && (forall i, j :: 0 <= i < j < |list| ==> list[i].cosine >= list[j].cosine)
      && (forall i :: 0 <= i < |list| ==> -1.0 <= list[i].cosine <= 1.0 && 0.0 <= list[i].distance)
  {
    var r := Ranking(target, fps, sqrt);
    ScoresNumbered(target, fps, sqrt);
    SortNumbered(Scores(target, fps, sqrt));
    forall i | 0 <= i < |r| ensures InRange(r[i]) {
      ScoreInRange(target, fps, sqrt, r[i].index - 1);
    }
    ListingInOrder(r[..Clamp(k, |r|)]);
  }

  predicate InRange(t: Neighbour) {
    -1.0 <= t.cosine <= 1.0 && 0.0 <= t.distance
  }

  lemma ScoreInRange(target: seq<real>, fps: seq<seq<real>>, sqrt: real -> real, i: nat)
    requires SameDimension(target, fps) && IsSqrt(sqrt) && i < |fps|
    ensures InRange(Scores(target, fps, sqrt)[i])
  {
    CosineRange(target, fps[i], sqrt);
    DistanceMeaning(target, fps[i], sqrt);
  }

  lemma ListingInOrder(top: seq<Neighbour>)
    requires Ranked(top) && forall i :: 0 <= i < |top| ==> InRange(top[i])
    ensures forall i, j :: 0 <= i < j < |top| ==> Listed(top[i]).cosine >= Listed(top[j]).cosine
    ensures forall i :: 0 <= i < |top| ==> InRange(Listed(top[i]))
  {
    forall i, j | 0 <= i < j < |top| ensures Listed(top[i]).cosine >= Listed(top[j]).cosine {
      assert Before(top[i], top[j]);
      Round6Mono(top[j].cosine, top[i].cosine);
    }
    forall i | 0 <= i < |top| ensures InRange(Listed(top[i])) {
      RoundedWithin(top[i]);
    }
  }

  lemma RoundedWithin(t: Neighbour)
    requires InRange(t)
    ensures InRange(Listed(t))
  {
    RoundEvenExact(-1000000);
    RoundEvenExact(1000000);
    RoundEvenExact(0);
    Round6Mono(-1.0, t.cosine);
    Round6Mono(t.cosine, 1.0);
    Round6Mono(0.0, t.distance);
  }

  lemma SelfCosine(v: seq<real>, sqrt: real -> real)
    requires IsSqrt(sqrt) && SumSq(v) != 0.0
    ensures CosineSimilarity(v, v, sqrt) == 1.0
  {
    assert v == Affine(v, 1.0, 0.0) by {
      assert forall j :: 0 <= j < |v| ==> Line(1.0, v[j], 0.0) == v[j];
    }
    CosineOneIff(v, v, sqrt);
  }
}

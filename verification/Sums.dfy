/** Sums, inner products and affine images of sequences of reals, with the inequalities that the
    statistics modules rest on. */
module Sums {
  import opened Sequences

  function Times(x: real, y: real): real {
    x * y
  }

  function Sum(v: seq<real>): real {
    if v == [] then 0.0 else v[0] + Sum(v[1..])
  }

  function Dot(a: seq<real>, b: seq<real>): real
    requires |a| == |b|
  {
    if a == [] then 0.0 else Times(a[0], b[0]) + Dot(a[1..], b[1..])
  }

  function SumSq(v: seq<real>): real {
    Dot(v, v)
  }

  function Line(scale: real, x: real, shift: real): real {
    scale * x + shift
  }

  function Quad(s: real, t: real, p: real, q: real, r: real): real {
    s * s * p + 2.0 * (s * t) * q + t * t * r
  }

  function Mix(s: real, x: real, t: real, y: real): real {
    s * x + t * y
  }

  /** The image of `v` under x => scale * x + shift. */
  function Affine(v: seq<real>, scale: real, shift: real): (w: seq<real>)
    ensures |w| == |v| && forall i :: 0 <= i < |v| ==> w[i] == Line(scale, v[i], shift)
  {
    seq(|v|, i requires 0 <= i < |v| => Line(scale, v[i], shift))
  }

  /** The combination s * a + t * b. */
  function Combine(s: real, a: seq<real>, t: real, b: seq<real>): (w: seq<real>)
    requires |a| == |b|
    ensures |w| == |a| && forall i :: 0 <= i < |a| ==> w[i] == Mix(s, a[i], t, b[i])
  {
    seq(|a|, i requires 0 <= i < |a| => Mix(s, a[i], t, b[i]))
  }

  function Zeros(n: nat): (z: seq<real>)
    ensures |z| == n
  {
    seq(n, _ => 0.0)
  }

  function Abs(x: real): real {
    if x < 0.0 then -x else x
  }

  /** A square root routine: any function that squares back to its non-negative argument. */
  ghost predicate IsSqrt(sqrt: real -> real) {
    forall x :: 0.0 <= x ==> 0.0 <= sqrt(x) && sqrt(x) * sqrt(x) == x
  }

  // ---------- scalar facts

  lemma SquareNonNeg(x: real)
    ensures 0.0 <= x * x
  {
  }

  lemma MulPos(a: real, b: real)
    requires 0.0 < a && 0.0 < b
    ensures 0.0 < Times(a, b)
  {
  }

  lemma MulNeg(x: real)
    requires x < 0.0
    ensures 0.0 < Times(x, x)
  {
    var y := -x;
    MulPos(y, y);
    assert y * y == x * x;
  }

  lemma MulMono(a: real, b: real, c: real)
    requires a <= b && 0.0 <= c
    ensures a * c <= b * c
  {
  }

  lemma MulCancel(a: real, b: real, c: real)
    requires 0.0 < c && a * c <= b * c
    ensures a <= b
  {
  }

  lemma DivTimes(x: real, n: real)
    requires n != 0.0
    ensures Times(x / n, n) == x
  {
  }

  lemma SquareLess(x: real, y: real)
    requires 0.0 <= x < y
    ensures x * x < y * y
  {
    assert y * y - x * x == (y - x) * (y + x);
    MulPos(y - x, y + x);
  }

  /** Comparing non-negative numbers is comparing their squares. */
  lemma SquareOrder(x: real, y: real)
    requires 0.0 <= x && 0.0 <= y
    ensures x <= y <==> x * x <= y * y
    ensures x == y <==> x * x == y * y
  {
    if x < y { SquareLess(x, y); }
    if y < x { SquareLess(y, x); }
  }

  lemma AbsSquare(x: real)
    ensures Abs(x) * Abs(x) == x * x && 0.0 <= Abs(x)
  {
  }

  lemma SquareZero(x: real)
    requires Times(x, x) == 0.0
    ensures x == 0.0
  {
    if 0.0 < x { MulPos(x, x); }
    if x < 0.0 { MulNeg(x); }
  }

  lemma SqrtZero(sqrt: real -> real, x: real)
    requires IsSqrt(sqrt) && 0.0 <= x
    ensures sqrt(x) == 0.0 <==> x == 0.0
  {
    if x == 0.0 { SquareZero(sqrt(x)); }
  }

  // ---------- structural lemmas

  lemma {:induction false} SumAppend(a: seq<real>, b: seq<real>)
    ensures Sum(a + b) == Sum(a) + Sum(b)
  {
    if a == [] {
      assert a + b == b;
    } else {
      assert (a + b)[1..] == a[1..] + b;
      SumAppend(a[1..], b);
    }
  }

  lemma {:induction false} SumSqAppend(a: seq<real>, b: seq<real>)
    ensures SumSq(a + b) == SumSq(a) + SumSq(b)
  {
    if a == [] {
      assert a + b == b;
    } else {
      assert (a + b)[1..] == a[1..] + b;
      SumSqAppend(a[1..], b);
    }
  }

  lemma {:induction false} SumSqNonNeg(v: seq<real>)
    ensures 0.0 <= SumSq(v)
  {
    if v != [] {
      SquareNonNeg(v[0]);
      SumSqNonNeg(v[1..]);
    }
  }

  lemma {:induction false} SumSqZero(v: seq<real>)
    requires SumSq(v) == 0.0
    ensures forall i :: 0 <= i < |v| ==> v[i] == 0.0
  {
    if v != [] {
      SquareNonNeg(v[0]);
      SumSqNonNeg(v[1..]);
      SquareZero(v[0]);
      SumSqZero(v[1..]);
      assert forall i :: 1 <= i < |v| ==> v[i] == v[1..][i - 1];
    }
  }

  lemma {:induction false} DotSymmetric(a: seq<real>, b: seq<real>)
    requires |a| == |b|
    ensures Dot(a, b) == Dot(b, a)
  {
    if a != [] { DotSymmetric(a[1..], b[1..]); }
  }

  lemma {:induction false} DotCombine(s: real, a: seq<real>, t: real, b: seq<real>, c: seq<real>)
    requires |a| == |b| == |c|
    ensures Dot(Combine(s, a, t, b), c) == Mix(s, Dot(a, c), t, Dot(b, c))
  {
    if a != [] {
      assert Combine(s, a, t, b)[1..] == Combine(s, a[1..], t, b[1..]);
      DotCombine(s, a[1..], t, b[1..], c[1..]);
      MixStep(s, a[0], t, b[0], c[0], Dot(a[1..], c[1..]), Dot(b[1..], c[1..]));
    }
  }

  lemma MixStep(s: real, x: real, t: real, y: real, z: real, p: real, q: real)
    ensures Times(Mix(s, x, t, y), z) + Mix(s, p, t, q) == Mix(s, Times(x, z) + p, t, Times(y, z) + q)
  {
    assert (s * x + t * y) * z == s * (x * z) + t * (y * z);
    assert s * (x * z + p) == s * (x * z) + s * p;
    assert t * (y * z + q) == t * (y * z) + t * q;
  }

  /** |s*a + t*b|^2 expanded. */
  lemma SumSqCombine(s: real, a: seq<real>, t: real, b: seq<real>)
    requires |a| == |b|
    ensures SumSq(Combine(s, a, t, b)) == Quad(s, t, SumSq(a), Dot(a, b), SumSq(b))
  {
    var w := Combine(s, a, t, b);
    DotCombine(s, a, t, b, w);
    DotSymmetric(a, w);
    DotSymmetric(b, w);
    DotCombine(s, a, t, b, a);
    DotCombine(s, a, t, b, b);
    DotSymmetric(a, b);
    ExpandSquare(s, t, Dot(a, a), Dot(a, b), Dot(b, b));
  }

  lemma ExpandSquare(s: real, t: real, p: real, q: real, r: real)
    ensures Mix(s, Mix(s, p, t, q), t, Mix(s, q, t, r)) == Quad(s, t, p, q, r)
  {
    assert s * (s * p + t * q) == s * s * p + (s * t) * q;
    assert t * (s * q + t * r) == (s * t) * q + t * t * r;
  }

  lemma {:induction false} SumAffine(v: seq<real>, scale: real, shift: real)
    ensures Sum(Affine(v, scale, shift)) == scale * Sum(v) + shift * (|v| as real)
  {
    if v == [] {
    } else {
      assert Affine(v, scale, shift)[1..] == Affine(v[1..], scale, shift);
      SumAffine(v[1..], scale, shift);
      var r, m := Sum(v[1..]), |v[1..]| as real;
      assert |v| as real == m + 1.0;
      assert scale * (v[0] + r) == scale * v[0] + scale * r;
      assert shift * (m + 1.0) == shift * m + shift;
    }
  }

  lemma {:induction false} SumSqAffine(v: seq<real>, scale: real, shift: real)
    ensures SumSq(Affine(v, scale, shift)) == Quad(scale, shift, SumSq(v), Sum(v), |v| as real)
  {
    if v == [] {
    } else {
      assert Affine(v, scale, shift)[1..] == Affine(v[1..], scale, shift);
      SumSqAffine(v[1..], scale, shift);
      SquareStep(v[0], SumSq(v[1..]), Sum(v[1..]), |v[1..]| as real, scale, shift);
      assert |v| as real == |v[1..]| as real + 1.0;
    }
  }

  lemma SquareStep(x: real, q: real, r: real, m: real, c: real, d: real)
    ensures Times(Line(c, x, d), Line(c, x, d)) + Quad(c, d, q, r, m) == Quad(c, d, Times(x, x) + q, x + r, m + 1.0)
  {
    assert (c * x + d) * (c * x + d) == c * c * (x * x) + 2.0 * (c * d) * x + d * d;
    assert c * c * (x * x + q) == c * c * (x * x) + c * c * q;
    assert (c * d) * (x + r) == (c * d) * x + (c * d) * r;
    assert d * d * (m + 1.0) == d * d * m + d * d;
  }

  // ---------- inequalities

  /** The square of a sum is at most the number of terms times the sum of the squares. */
  lemma SumSquared(v: seq<real>)
    ensures Times(Sum(v), Sum(v)) <= Times(|v| as real, SumSq(v))
  {
    var m, s, q := |v| as real, Sum(v), SumSq(v);
    if v != [] {
      SumSqAffine(v, m, -s);
      SumSqNonNeg(Affine(v, m, -s));
      SpreadBound(m, s, q);
    }
  }

  lemma SpreadBound(m: real, s: real, q: real)
    requires 0.0 < m && 0.0 <= Quad(m, -s, q, s, m)
    ensures Times(s, s) <= Times(m, q)
  {
    var y, t := s * s, -s;
    assert m * m * q == (m * q) * m;
    assert (m * t) * s == -(y * m);
    assert t * t * m == y * m;
    MulCancel(y, m * q, m);
  }

  /** Non-negative terms: the sum of the squares is at most the square of the sum. */
  lemma {:induction false} SumSqOfNonNeg(v: seq<real>)
    requires forall i :: 0 <= i < |v| ==> 0.0 <= v[i]
    ensures 0.0 <= Sum(v) && SumSq(v) <= Sum(v) * Sum(v)
  {
    if v != [] {
      assert forall i :: 0 <= i < |v[1..]| ==> v[1..][i] == v[i + 1];
      SumSqOfNonNeg(v[1..]);
      var x, r := v[0], Sum(v[1..]);
      assert (x + r) * (x + r) == x * x + 2.0 * (x * r) + r * r;
      assert 0.0 <= x * r;
    }
  }

  /** A centred sequence cannot concentrate all of its square mass in one entry. */
  lemma CentredBound(v: seq<real>, i: nat)
    requires i < |v| && Sum(v) == 0.0
    ensures Times(|v| as real, Times(v[i], v[i])) <= Times(|v| as real - 1.0, SumSq(v))
  {
    var w := v[..i] + v[i + 1..];
    RemoveOne(v, i);
    SumSquared(w);
    assert |w| as real == |v| as real - 1.0;
    MoveTerm(|w| as real, v[i], SumSq(v), SumSq(w));
  }

  lemma MoveTerm(m: real, x: real, q: real, r: real)
    requires Times(-x, -x) <= Times(m, r) && q == r + Times(x, x)
    ensures Times(m + 1.0, Times(x, x)) <= Times(m, q)
  {
    var y := x * x;
    assert -x * -x == y;
    assert m * (q - y) == m * q - m * y;
  }

  // ---------- reordering

  /** Sums do not depend on the order of the terms. */
  lemma {:induction false} SumReorder(a: seq<real>, b: seq<real>)
    requires multiset(a) == multiset(b)
    ensures |a| == |b| && Sum(a) == Sum(b) && SumSq(a) == SumSq(b)
  {
    if a == [] {
      assert b == [];
    } else {
      var j := PairHead(a, b);
      RemoveOne(b, j);
      SumReorder(a[1..], b[..j] + b[j + 1..]);
    }
  }

  lemma RemoveOne(v: seq<real>, i: nat)
    requires i < |v|
    ensures Sum(v) == Sum(v[..i] + v[i + 1..]) + v[i]
    ensures SumSq(v) == SumSq(v[..i] + v[i + 1..]) + Times(v[i], v[i])
  {
    SplitAround(v, i);
    RemoveOneSums(v[..i], v[i], v[i + 1..]);
  }

  lemma SplitAround(v: seq<real>, i: nat)
    requires i < |v|
    ensures v[..i] + ([v[i]] + v[i + 1..]) == v
  {
  }

  lemma RemoveOneSums(a: seq<real>, x: real, b: seq<real>)
    ensures Sum(a + ([x] + b)) == Sum(a + b) + x
    ensures SumSq(a + ([x] + b)) == SumSq(a + b) + Times(x, x)
  {
    SumAppend(a, [x] + b);
    SumAppend(a, b);
    SumSqAppend(a, [x] + b);
    SumSqAppend(a, b);
    assert ([x] + b)[1..] == b;
  }
}

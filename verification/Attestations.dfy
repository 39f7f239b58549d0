/** Attestation timing: per-device interval statistics and the two pattern rules. */
module Attestations {
  import opened Percentiles
  import opened Rounding
  import opened Sequences
  import opened Sums
  import opened ZScores

  type DeviceId = string

  /** One attestation: the device and the time in milliseconds. */
  datatype Attestation = Attestation(device: DeviceId, timestamp: int)

  /** Intervals are in seconds, rounded to four digits. Std is None for a single interval, where the
      sample deviation is not a number. */
  datatype DeviceStats =
    | TooFew(count: nat)
    | Intervals(count: nat, mean: real, median: real, std: Option<real>, minimum: real, maximum: real)

  datatype Anomaly =
    | Frequency(device: DeviceId, count: nat, zscore: real, mean: real)
    | Irregular(device: DeviceId, cv: real, mean: real, std: real)

  const CV_THRESHOLD := 2.0

  // ---------- grouping

  /** The devices, in order of first appearance. */
  function Devices(rows: seq<Attestation>): (ids: seq<DeviceId>)
    ensures forall d :: d in ids <==> exists r :: r in rows && r.device == d
  {
    if rows == [] then []
    else
      var n := |rows| - 1;
      var ids := Devices(rows[..n]);
      assert rows == rows[..n] + [rows[n]];
      if rows[n].device in ids then ids else ids + [rows[n].device]
  }

  function TimesOf(rows: seq<Attestation>, d: DeviceId): seq<int> {
    if rows == [] then []
    else
      var n := |rows| - 1;
      TimesOf(rows[..n], d) + (if rows[n].device == d then [rows[n].timestamp] else [])
  }

  function OfDevice(d: DeviceId): Attestation -> bool {
    (r: Attestation) => r.device == d
  }

  /** The first row of a device, or the number of rows. */
  function FirstRow(rows: seq<Attestation>, d: DeviceId): (k: nat)
    ensures k <= |rows| && (forall j :: 0 <= j < k ==> rows[j].device != d) && (k < |rows| ==> rows[k].device == d)
  {
    if rows == [] || rows[0].device == d then 0
    else
      var k := FirstRow(rows[1..], d);
      assert forall j :: 1 <= j < |rows| ==> rows[j] == rows[1..][j - 1];
      1 + k
  }

  /** Every device is listed once, in the order of first appearance. */
  lemma {:induction false} DevicesInOrder(rows: seq<Attestation>)
    ensures forall i, j :: 0 <= i < j < |Devices(rows)| ==> Devices(rows)[i] != Devices(rows)[j]
    ensures forall i, j :: 0 <= i < j < |Devices(rows)| ==>
      FirstRow(rows, Devices(rows)[i]) < FirstRow(rows, Devices(rows)[j])
  {
    if rows != [] {
      var n := |rows| - 1;
      var low, ids := rows[..n], Devices(rows);
      DevicesInOrder(low);
      forall i, j | 0 <= i < j < |ids| ensures FirstRow(rows, ids[i]) < FirstRow(rows, ids[j]) {
        FirstRowOfPrefix(rows, ids[i]);
        FirstRowOfPrefix(rows, ids[j]);
        AppearsEarlier(low, ids[i]);
      }
    }
  }

  lemma FirstRowOfPrefix(rows: seq<Attestation>, d: DeviceId)
    requires rows != []
    ensures var low := rows[..|rows| - 1];
      FirstRow(rows, d) == FirstRow(low, d) || (FirstRow(low, d) == |low| && FirstRow(rows, d) >= |low|)
  {
    var low := rows[..|rows| - 1];
    assert forall j :: 0 <= j < |low| ==> low[j] == rows[j];
  }

  lemma AppearsEarlier(rows: seq<Attestation>, d: DeviceId)
    ensures d in Devices(rows) <==> FirstRow(rows, d) < |rows|
  {
    if d in Devices(rows) {
      var r :| r in rows && r.device == d;
      var k :| 0 <= k < |rows| && rows[k] == r;
    }
    if FirstRow(rows, d) < |rows| {
      assert rows[FirstRow(rows, d)] in rows;
    }
  }

  function AtTime(d: DeviceId, t: int): Attestation -> bool {
    (r: Attestation) => r.device == d && r.timestamp == t
  }

  /** A device's times are the timestamps of its rows, each as often as it occurs. */
  lemma {:induction false} TimesOfIs(rows: seq<Attestation>, d: DeviceId, t: int)
    ensures |TimesOf(rows, d)| == Count(rows, OfDevice(d))
    ensures multiset(TimesOf(rows, d))[t] == Count(rows, AtTime(d, t))
  {
    if rows != [] {
      var n := |rows| - 1;
      TimesOfIs(rows[..n], d, t);
      assert rows[..|rows|] == rows;
      CountNext(rows, |rows|, OfDevice(d));
      CountNext(rows, |rows|, AtTime(d, t));
    }
  }

  // ---------- intervals

  function Reals(s: seq<int>): (v: seq<real>)
    ensures |v| == |s| && forall i :: 0 <= i < |v| ==> v[i] == s[i] as real
  {
    seq(|s|, i requires 0 <= i < |s| => s[i] as real)
  }

  /** Gaps between consecutive times, in seconds. */
  function GapsOf(times: seq<real>): (gaps: seq<real>)
    requires |times| >= 1
    ensures |gaps| == |times| - 1
  {
    seq(|times| - 1, i requires 0 <= i < |times| - 1 => (times[i + 1] - times[i]) / 1000.0)
  }

  function IntervalsOf(times: seq<int>): (gaps: seq<real>)
    requires |times| >= 1
    ensures |gaps| == |times| - 1
  {
    SortCorrect(Reals(times));
    GapsOf(Sort(Reals(times)))
  }

  /** The middle value, or the mean of the two middle values. */
  function Median(v: seq<real>): real
    requires v != []
  {
    SortCorrect(v);
    var s, h := Sort(v), |v| / 2;
    if |v| % 2 == 1 then s[h] else (s[h - 1] + s[h]) / 2.0
  }

  function Minimum(v: seq<real>): real
    requires v != []
  {
    if |v| == 1 then v[0] else var m := Minimum(v[1..]); if v[0] < m then v[0] else m
  }

  function Maximum(v: seq<real>): real
    requires v != []
  {
    if |v| == 1 then v[0] else var m := Maximum(v[1..]); if v[0] > m then v[0] else m
  }

  function StatsOf(times: seq<int>, sqrt: real -> real): DeviceStats {
    if |times| < 2 then TooFew(|times|)
    else
      var gaps := IntervalsOf(times);
      Intervals(|times|, Round4(Mean(gaps)), Round4(Median(gaps)),
                if |gaps| < 2 then None else Some(Round4(Std(gaps, sqrt))),
                Round4(Minimum(gaps)), Round4(Maximum(gaps)))
  }

  /** The gaps telescope: they sum to the covered time span. */
  lemma {:induction false} GapsTelescope(times: seq<real>)
    requires |times| >= 1
    ensures Sum(GapsOf(times)) == (times[|times| - 1] - times[0]) / 1000.0
  {
    if |times| > 1 {
      GapsTelescope(times[1..]);
      assert GapsOf(times)[1..] == GapsOf(times[1..]);
    }
  }

  /** Sorted times have non-negative gaps that add up to the last minus the first. */
  lemma GapsOfSorted(times: seq<real>)
    requires |times| >= 1 && IsSorted(times)
    ensures forall i :: 0 <= i < |times| - 1 ==> 0.0 <= GapsOf(times)[i]
    ensures Sum(GapsOf(times)) == (times[|times| - 1] - times[0]) / 1000.0
  {
    GapsTelescope(times);
  }

  /** With the times in ascending order, the intervals are the differences of neighbours in seconds. */
  lemma IntervalsAre(times: seq<int>, s: seq<int>, i: nat)
    requires multiset(s) == multiset(times) && (forall a, b :: 0 <= a < b < |s| ==> s[a] <= s[b])
    requires i + 1 < |s|
    ensures |s| == |times| && IntervalsOf(times)[i] == (s[i + 1] - s[i]) as real / 1000.0
  {
    SameMembers(s, times);
    SortCorrect(Reals(times));
    RealsReorder(s, times);
    SortedUnique(Reals(s), Sort(Reals(times)));
  }

  lemma RealsReorder(a: seq<int>, b: seq<int>)
    requires multiset(a) == multiset(b)
    ensures multiset(Reals(a)) == multiset(Reals(b))
  {
    var f := (x: int) => x as real;
    MapReorder(f, a, b);
    assert Map(f, a) == Reals(a) && Map(f, b) == Reals(b);
  }

  /** The median is the fiftieth percentile of the sorted values. */
  lemma MedianIsPercentile(v: seq<real>)
    requires v != []
    ensures |Sort(v)| == |v| && Median(v) == ValueAt(Sort(v), 50)
  {
    SortCorrect(v);
    ValueAtIs(Sort(v), 50);
    var n, h := |v|, |v| / 2;
    assert 50 as real / 100.0 == 0.5;
    assert Rank(n, 50) == 0.5 * (n as real - 1.0) + 1.0;
    if n % 2 == 1 {
      assert n as real == 2.0 * (h as real) + 1.0;
    } else {
      assert n as real == 2.0 * (h as real);
    }
  }

  /** Every stored figure is the four-digit rounding of the figure of the intervals. */
  lemma StatsAre(times: seq<int>, sqrt: real -> real)
    ensures StatsOf(times, sqrt).count == |times| && (StatsOf(times, sqrt).TooFew? <==> |times| < 2)
    ensures |times| >= 2 ==>
      var s, gaps := StatsOf(times, sqrt), IntervalsOf(times);
      && IsRound4(Mean(gaps), s.mean) && IsRound4(Median(gaps), s.median)
      && IsRound4(Minimum(gaps), s.minimum) && IsRound4(Maximum(gaps), s.maximum)
      && (s.std.Some? <==> |gaps| >= 2) && (s.std.Some? ==> IsRound4(Std(gaps, sqrt), s.std.value))
  {
    if |times| >= 2 {
      var gaps := IntervalsOf(times);
      Round4Is(Mean(gaps));
      Round4Is(Median(gaps));
      Round4Is(Minimum(gaps));
      Round4Is(Maximum(gaps));
      if |gaps| >= 2 { Round4Is(Std(gaps, sqrt)); }
    }
  }

  /** `first` and `last` are the earliest and the latest of the times. */
  ghost predicate Spans(times: seq<int>, first: int, last: int) {
    first in times && last in times && forall t :: t in times ==> first <= t <= last
  }

  lemma SortedEnds(times: seq<int>, first: int, last: int)
    requires Spans(times, first, last)
    ensures |Sort(Reals(times))| == |times|
    ensures Sort(Reals(times))[0] == first as real && Sort(Reals(times))[|times| - 1] == last as real
  {
    var v := Reals(times);
    var s := Sort(v);
    SortCorrect(v);
    SameMembers(s, v);
    assert s[0] in s && s[|s| - 1] in s;
    var i :| 0 <= i < |times| && times[i] == first;
    var j :| 0 <= j < |times| && times[j] == last;
    assert v[i] in v && v[j] in v;
    var i' :| 0 <= i' < |s| && s[i'] == v[i];
    var j' :| 0 <= j' < |s| && s[j'] == v[j];
    var a :| 0 <= a < |v| && v[a] == s[0];
    var b :| 0 <= b < |v| && v[b] == s[|s| - 1];
    assert times[a] in times && times[b] in times;
  }

  lemma Ends(times: seq<int>) returns (first: int, last: int)
    requires times != []
    ensures Spans(times, first, last)
  {
    first, last := times[0], times[0];
    for k := 1 to |times|
      invariant Spans(times[..k], first, last)
    {
      assert times[..k + 1] == times[..k] + [times[k]];
      if times[k] < first { first := times[k]; }
      if times[k] > last { last := times[k]; }
    }
    assert times[..|times|] == times;
  }

  lemma IntervalsSpan(times: seq<int>, first: int, last: int)
    requires |times| >= 2 && Spans(times, first, last)
    ensures forall i :: 0 <= i < |times| - 1 ==> 0.0 <= IntervalsOf(times)[i]
    ensures Sum(IntervalsOf(times)) == (last - first) as real / 1000.0
  {
    SortCorrect(Reals(times));
    SortedEnds(times, first, last);
    GapsOfSorted(Sort(Reals(times)));
  }

  lemma MeanOfIntervals(times: seq<int>, first: int, last: int)
    requires |times| >= 2 && Spans(times, first, last)
    ensures Mean(IntervalsOf(times)) == (last - first) as real / 1000.0 / (|times| - 1) as real
  {
    IntervalsSpan(times, first, last);
  }

  /** The mean interval is the covered time span, in seconds, over the number of intervals, rounded. */
  lemma MeanIntervalIsSpan(times: seq<int>, sqrt: real -> real, first: int, last: int)
    requires |times| >= 2 && Spans(times, first, last)
    ensures StatsOf(times, sqrt).Intervals?
    ensures StatsOf(times, sqrt).mean == Round4((last - first) as real / 1000.0 / (|times| - 1) as real)
  {
    MeanOfIntervals(times, first, last);
  }

  /** The reported minimum, median, mean and maximum are in order, and none is negative. */
  lemma StatsInOrder(times: seq<int>, sqrt: real -> real)
    requires |times| >= 2
    ensures var s := StatsOf(times, sqrt);
      s.Intervals? && 0.0 <= s.minimum <= s.median <= s.maximum && s.minimum <= s.mean <= s.maximum
  {
    var gaps := IntervalsOf(times);
    var first, last := Ends(times);
    IntervalsSpan(times, first, last);
    ExtremesBound(gaps);
    MedianBetween(gaps);
    MeanBetween(gaps, Minimum(gaps), Maximum(gaps));
    assert Round4(0.0) == 0.0;
    Round4Mono(0.0, Minimum(gaps));
    Round4Mono(Minimum(gaps), Median(gaps));
    Round4Mono(Median(gaps), Maximum(gaps));
    Round4Mono(Minimum(gaps), Mean(gaps));
    Round4Mono(Mean(gaps), Maximum(gaps));
  }

  lemma {:induction false} ExtremesBound(v: seq<real>)
    requires v != []
    ensures Minimum(v) in v && Maximum(v) in v
    ensures forall i :: 0 <= i < |v| ==> Minimum(v) <= v[i] <= Maximum(v)
  {
    if |v| > 1 {
      ExtremesBound(v[1..]);
      assert v == [v[0]] + v[1..];
      assert forall i :: 1 <= i < |v| ==> v[i] == v[1..][i - 1];
    }
  }

  lemma MedianBetween(v: seq<real>)
    requires v != []
    ensures Minimum(v) <= Median(v) <= Maximum(v)
  {
    SortCorrect(v);
    ExtremesBound(v);
    SameMembers(Sort(v), v);
    forall i | 0 <= i < |v| ensures Minimum(v) <= Sort(v)[i] <= Maximum(v) {
      assert Sort(v)[i] in Sort(v);
    }
  }

  lemma MeanBetween(v: seq<real>, lo: real, hi: real)
    requires v != [] && forall i :: 0 <= i < |v| ==> lo <= v[i] <= hi
    ensures lo <= Mean(v) <= hi
  {
    var n := |v| as real;
    SumBetween(v, lo, hi);
    DivTimes(Sum(v), n);
    QuotientBetween(Mean(v), n, lo, hi);
  }

  lemma QuotientBetween(q: real, n: real, lo: real, hi: real)
    requires 0.0 < n && Times(lo, n) <= Times(q, n) <= Times(hi, n)
    ensures lo <= q <= hi
  {
    MulCancel(lo, q, n);
    MulCancel(q, hi, n);
  }

  lemma {:induction false} SumBetween(v: seq<real>, lo: real, hi: real)
    requires forall i :: 0 <= i < |v| ==> lo <= v[i] <= hi
    ensures Times(lo, |v| as real) <= Sum(v) <= Times(hi, |v| as real)
  {
    if v != [] {
      SumBetween(v[1..], lo, hi);
      assert |v| as real == |v[1..]| as real + 1.0;
      TimesStep(lo, |v[1..]| as real);
      TimesStep(hi, |v[1..]| as real);
    }
  }

  lemma TimesStep(x: real, m: real)
    ensures Times(x, m + 1.0) == Times(x, m) + x
  {
  }

  /** m non-negative values: the squared sample deviation is at most m times the squared mean. */
  lemma SpreadOfNonNeg(w: seq<real>)
    requires |w| >= 2 && forall i :: 0 <= i < |w| ==> 0.0 <= w[i]
    ensures 0.0 <= Mean(w) && Variance(w) <= Times(|w| as real, Times(Mean(w), Mean(w)))
  {
    var m, mu := |w| as real, Mean(w);
    SumSqOfNonNeg(w);
    SumSqAffine(w, 1.0, -mu);
    DivTimes(Sum(w), m);
    DivTimes(SumSq(Deviations(w)), m - 1.0);
    DivNonNeg(Sum(w), m);
    SpreadArithmetic(m, mu, Sum(w), SumSq(w), SumSq(Deviations(w)), Variance(w));
  }

  lemma SpreadArithmetic(m: real, mu: real, s: real, q: real, d: real, w: real)
    requires m >= 2.0 && Times(mu, m) == s && q <= s * s
    requires d == Quad(1.0, -mu, q, s, m) && Times(w, m - 1.0) == d
    ensures w <= Times(m, Times(mu, mu))
  {
    var y, t := mu * mu, -mu;
    assert t * t * m == m * y;
    assert (1.0 * t) * s == -(m * y) by { assert mu * s == mu * (mu * m); }
    assert s * s == m * (m * y);
    assert d <= m * (m * y) - m * y;
    assert m * (m * y) - m * y == (m * y) * (m - 1.0);
    MulCancel(w, m * y, m - 1.0);
  }

  // ---------- the irregularity rule

  /** cv > 2, where cv is 0 without a positive mean, and a not-a-number cv never exceeds anything. */
  predicate IsIrregular(s: DeviceStats) {
    s.Intervals? && s.mean > 0.0 && s.std.Some? && s.std.value / s.mean > CV_THRESHOLD
  }

  /** Whatever the statistics: positive mean and a deviation of more than twice the mean. */
  lemma IrregularIff(s: DeviceStats)
    ensures IsIrregular(s) <==> s.Intervals? && s.std.Some? && s.mean > 0.0 && s.std.value > 2.0 * s.mean
  {
    if s.Intervals? && s.mean > 0.0 && s.std.Some? {
      var c := s.std.value / s.mean;
      assert c * s.mean == s.std.value;
      if c > 2.0 { MulPos(c - 2.0, s.mean); } else { MulMono(c, 2.0, s.mean); }
    }
  }

  /** A device is reported irregular only with at least five attestations. */
  lemma IrregularNeedsFive(times: seq<int>, sqrt: real -> real)
    requires IsSqrt(sqrt) && IsIrregular(StatsOf(times, sqrt))
    ensures |times| >= 5
  {
    if 3 <= |times| <= 4 { FewAreRegular(times, sqrt); }
  }

  lemma FewAreRegular(times: seq<int>, sqrt: real -> real)
    requires IsSqrt(sqrt) && 3 <= |times| <= 4
    ensures !IsIrregular(StatsOf(times, sqrt))
  {
    var gaps := IntervalsOf(times);
    var first, last := Ends(times);
    IntervalsSpan(times, first, last);
    SpreadOfNonNeg(gaps);
    StdSquare(gaps, sqrt);
    DivTimes(Sum(gaps), |gaps| as real);
    FewIntervals(|gaps|, last - first, Mean(gaps), Std(gaps, sqrt));
    IrregularInUnits(times, sqrt);
  }

  /** The rule compares whole numbers of ten-thousandths of a second. */
  lemma IrregularInUnits(times: seq<int>, sqrt: real -> real)
    requires |times| >= 3
    ensures var gaps := IntervalsOf(times);
      var mean, std := RoundEven(Mean(gaps) * 10000.0), RoundEven(Std(gaps, sqrt) * 10000.0);
      IsIrregular(StatsOf(times, sqrt)) <==> mean > 0 && std > 2 * mean
  {
    var gaps := IntervalsOf(times);
    var mean, std := RoundEven(Mean(gaps) * 10000.0), RoundEven(Std(gaps, sqrt) * 10000.0);
    if mean > 0 { RatioAbove(std, mean); }
  }

  lemma RatioAbove(q: int, r: int)
    requires r as real / 10000.0 > 0.0
    ensures (q as real / 10000.0) / (r as real / 10000.0) > 2.0 <==> q > 2 * r
  {
    var x, y := q as real / 10000.0, r as real / 10000.0;
    var c := x / y;
    assert c * y == x;
    if c > 2.0 { MulPos(c - 2.0, y); } else { MulMono(c, 2.0, y); }
  }

  /** Two or three intervals spanning `span` milliseconds: the rounded deviation is at most twice the
      rounded mean. */
  lemma FewIntervals(m: nat, span: nat, mu: real, s: real)
    requires 2 <= m <= 3 && Times(mu, m as real) == span as real / 1000.0
    requires 0.0 <= s && Times(s, s) <= Times(m as real, Times(mu, mu))
    ensures RoundEven(mu * 10000.0) > 0 ==> RoundEven(s * 10000.0) <= 2 * RoundEven(mu * 10000.0)
  {
    var t: nat := if m == 2 then 8 * span else 6 * span;
    if m == 2 {
      assert mu == span as real / 2000.0;
    } else {
      assert mu == span as real / 3000.0;
    }
    FewSpread(m as real, span as real, mu, s, t as real);
    RoundEvenMono(s * 10000.0, t as real);
    RoundEvenExact(t);
    TwiceRounded(m, span, RoundEven(mu * 10000.0), mu);
  }

  lemma FewSpread(m: real, y: real, mu: real, s: real, t: real)
    requires 0.0 <= y && 0.0 <= s && Times(s, s) <= Times(m, Times(mu, mu))
    requires (m == 2.0 && mu == y / 2000.0 && t == 8.0 * y) || (m == 3.0 && mu == y / 3000.0 && t == 6.0 * y)
    ensures s * 10000.0 <= t
  {
    var x := t / 10000.0;
    var q := y * y;
    assert mu * mu == if m == 2.0 then q / 4000000.0 else q / 9000000.0;
    assert x * x == if m == 2.0 then q * 0.00000064 else q * 0.00000036;
    SquareOrder(s, x);
  }

  lemma TwiceRounded(m: nat, span: nat, r: int, mu: real)
    requires 2 <= m <= 3 && mu == span as real / (if m == 2 then 2000.0 else 3000.0)
    requires r == RoundEven(mu * 10000.0)
    ensures r > 0 ==> (if m == 2 then 8 * span else 6 * span) <= 2 * r
  {
    RoundEvenIsNearest(mu * 10000.0, 0);
    if m == 2 {
      RoundEvenExact(5 * span);
    } else if span == 0 {
      RoundEvenExact(0);
    } else {
      assert 3.0 * (r as real) >= 10.0 * (span as real) - 1.5;
    }
  }

  /** The millisecond span that makes a burst irregular after rounding. */
  function BurstSpan(n: nat): nat
    requires n >= 5
  {
    if n == 5 then 1 else n - 1
  }

  /** n - 1 attestations at once and one a little later. */
  function Burst(n: nat): (times: seq<int>)
    requires n >= 5
    ensures |times| == n
  {
    seq(n, i => if i < n - 1 then 0 else BurstSpan(n))
  }

  lemma BurstMoments(n: nat, sqrt: real -> real)
    requires n >= 5 && IsSqrt(sqrt)
    ensures var c, spike := BurstSpan(n) as real / 1000.0, Spike(n - 1);
      && Mean(IntervalsOf(Burst(n))) == Line(c, Mean(spike), 0.0)
      && Std(IntervalsOf(Burst(n)), sqrt) == Times(c, Std(spike, sqrt))
  {
    var c := BurstSpan(n) as real / 1000.0;
    BurstIntervals(n);
    AffineMean(Spike(n - 1), c, 0.0);
    AffineStd(Spike(n - 1), sqrt, c, 0.0);
  }

  /** The bound is sharp: from five attestations on, a burst is irregular. */
  lemma BurstIsIrregular(n: nat, sqrt: real -> real)
    requires n >= 5 && IsSqrt(sqrt)
    ensures IsIrregular(StatsOf(Burst(n), sqrt))
  {
    var m, gaps := n - 1, IntervalsOf(Burst(n));
    BurstMoments(n, sqrt);
    SpikeMoments(m, sqrt);
    BurstRatio(m, BurstSpan(n), Mean(Spike(m)), Std(Spike(m), sqrt), Mean(gaps), Std(gaps, sqrt));
    IrregularInUnits(Burst(n), sqrt);
  }

  lemma BurstIntervals(n: nat)
    requires n >= 5
    ensures IntervalsOf(Burst(n)) == Affine(Spike(n - 1), BurstSpan(n) as real / 1000.0, 0.0)
  {
    BurstSorted(n);
    var c := BurstSpan(n) as real;
    var v, w := GapsOf(Reals(Burst(n))), Affine(Spike(n - 1), c / 1000.0, 0.0);
    forall i | 0 <= i < n - 1 ensures v[i] == w[i] {
      assert v[i] == if i < n - 2 then 0.0 else c / 1000.0;
    }
  }

  lemma BurstSorted(n: nat)
    requires n >= 5
    ensures Sort(Reals(Burst(n))) == Reals(Burst(n))
  {
    var v := Reals(Burst(n));
    SortCorrect(v);
    assert forall i :: 0 <= i < n ==> v[i] == if i < n - 1 then 0.0 else BurstSpan(n) as real;
    SortedUnique(v, Sort(v));
  }

  lemma BurstRatio(m: nat, span: nat, mu: real, s: real, mean: real, std: real)
    requires m >= 4 && span == if m == 4 then 1 else m
    requires Times(mu, m as real) == 1.0 && 0.0 < s && Times(s, s) == mu
    requires mean == Line(span as real / 1000.0, mu, 0.0) && std == Times(span as real / 1000.0, s)
    ensures 0 < RoundEven(mean * 10000.0) && 2 * RoundEven(mean * 10000.0) < RoundEven(std * 10000.0)
  {
    if m == 4 {
      SquareOrder(s, 0.5);
      RoundEvenExact(5);
    } else {
      LongBurst(m as real, mu, s);
      RoundEvenExact(10);
      RoundEvenMono(22.0, std * 10000.0);
      RoundEvenExact(22);
    }
  }

  lemma LongBurst(y: real, mu: real, s: real)
    requires y >= 5.0 && Times(mu, y) == 1.0 && 0.0 < s && Times(s, s) == mu
    ensures Line(y / 1000.0, mu, 0.0) * 10000.0 == 10.0
    ensures Times(y / 1000.0, s) * 10000.0 >= 22.0
  {
    var z := y * s;
    assert (y / 1000.0) * mu == (mu * y) / 1000.0;
    assert (y / 1000.0) * s == z / 1000.0;
    assert z * z == y * (y * (s * s));
    assert y * (s * s) == 1.0;
    MulPos(y, s);
    SquareOrder(2.2, z);
  }

  /** The irregularity rule can fire on some device with n attestations exactly when n >= 5. */
  lemma IrregularityCanFireIff(n: nat, sqrt: real -> real)
    requires IsSqrt(sqrt)
    ensures (exists times: seq<int> :: |times| == n && IsIrregular(StatsOf(times, sqrt))) <==> n >= 5
  {
    if n >= 5 {
      BurstIsIrregular(n, sqrt);
    }
    forall times: seq<int> | |times| == n && IsIrregular(StatsOf(times, sqrt)) ensures n >= 5 {
      IrregularNeedsFive(times, sqrt);
    }
  }

  // ---------- the frequency rule

  /** More than two devices, positive spread, and a count more than three deviations out. */
  predicate FrequencyFlagged(counts: seq<nat>, sqrt: real -> real, i: nat)
    requires i < |counts|
  {
    |counts| > 2 &&
    var mu, sigma := Mean(Reals(counts)), Std(Reals(counts), sqrt);
    sigma > 0.0 && Abs(counts[i] as real - mu) / sigma > 3.0
  }

  /** The frequency rule is the z-score rule applied to the attestation counts. */
  lemma FrequencyIsZScore(counts: seq<nat>, sqrt: real -> real, i: nat)
    requires i < |counts| && IsSqrt(sqrt)
    ensures FrequencyFlagged(counts, sqrt, i) <==> |counts| > 2 && ZFlagged(ZScoresOf(Reals(counts), sqrt)[i])
  {
    var v := Reals(counts);
    if |counts| > 2 {
      StdSquare(v, sqrt);
      if Std(v, sqrt) > 0.0 { AbsOfQuotient(v[i] - Mean(v), Std(v, sqrt)); }
    }
  }

  lemma AbsOfQuotient(x: real, s: real)
    requires 0.0 < s
    ensures Abs(x) / s == Abs(x / s)
  {
    var q := x / s;
    assert q * s == x;
    if q < 0.0 { MulPos(-q, s); QuotientIs(-x, s, -q); } else { MulMono(0.0, q, s); }
  }

  /** The frequency rule can fire on some positive counts of n devices exactly when n >= 11. */
  lemma FrequencyCanFireIff(n: nat, sqrt: real -> real)
    requires IsSqrt(sqrt)
    ensures (exists counts: seq<nat>, i: nat :: |counts| == n && i < n && (forall j :: 0 <= j < n ==> counts[j] > 0)
                                               && FrequencyFlagged(counts, sqrt, i))
            <==> n >= 11
  {
    if n >= 11 {
      var counts: seq<nat> := seq(n, i => if i == n - 1 then 2 else 1);
      assert Reals(counts) == Affine(Spike(n), 1.0, 1.0);
      SpikeIsFlagged(n, sqrt);
      AffineInvariance(Spike(n), sqrt, 1.0, 1.0);
      FrequencyIsZScore(counts, sqrt, n - 1);
      assert FrequencyFlagged(counts, sqrt, n - 1);
    }
    forall counts: seq<nat>, i: nat | |counts| == n && i < n && FrequencyFlagged(counts, sqrt, i) ensures n >= 11 {
      FrequencyIsZScore(counts, sqrt, i);
      if n <= 10 { TenDevicesNeverFlag(Reals(counts), sqrt, i); }
    }
  }

  // ---------- the two passes over the table

  function PerDevice(rows: seq<Attestation>, sqrt: real -> real): map<DeviceId, DeviceStats> {
    map d | d in Devices(rows) :: StatsOf(TimesOf(rows, d), sqrt)
  }

  method ComputeAttestationStatistics(rows: seq<Attestation>, sqrt: real -> real)
    returns (stats: map<DeviceId, DeviceStats>)
    ensures stats == PerDevice(rows, sqrt)
  {
    stats := map[];
    var ids := Devices(rows);
    for k := 0 to |ids|
      invariant stats == map d | d in ids[..k] :: StatsOf(TimesOf(rows, d), sqrt)
    {
      assert ids[..k + 1] == ids[..k] + [ids[k]];
      stats := stats[ids[k] := StatsOf(TimesOf(rows, ids[k]), sqrt)];
    }
    assert ids[..|ids|] == ids;
  }

  /** `t` is the time of a row of the device. */
  predicate HasTime(rows: seq<Attestation>, d: DeviceId, t: int) {
    Attestation(d, t) in rows
  }

  lemma {:induction false} TimesAreRows(rows: seq<Attestation>, d: DeviceId)
    ensures forall t :: t in TimesOf(rows, d) <==> HasTime(rows, d, t)
  {
    if rows != [] {
      var n := |rows| - 1;
      TimesAreRows(rows[..n], d);
      assert rows == rows[..n] + [rows[n]];
    }
  }

  /** `first` and `last` are the earliest and the latest time of a row of the device. */
  ghost predicate RowsSpan(rows: seq<Attestation>, d: DeviceId, first: int, last: int) {
    HasTime(rows, d, first) && HasTime(rows, d, last) && forall t :: HasTime(rows, d, t) ==> first <= t <= last
  }

  lemma RowsSpanTimes(rows: seq<Attestation>, d: DeviceId, first: int, last: int)
    requires RowsSpan(rows, d, first, last)
    ensures Spans(TimesOf(rows, d), first, last)
  {
    TimesAreRows(rows, d);
  }

  lemma PerDeviceAt(rows: seq<Attestation>, sqrt: real -> real, d: DeviceId)
    requires d in PerDevice(rows, sqrt)
    ensures PerDevice(rows, sqrt)[d] == StatsOf(TimesOf(rows, d), sqrt)
  {
  }

  lemma MeanIsRounded(times: seq<int>, n: nat, sqrt: real -> real, first: int, last: int)
    requires |times| == n >= 2 && Spans(times, first, last)
    ensures StatsOf(times, sqrt).Intervals?
    ensures IsRound4((last - first) as real / 1000.0 / (n - 1) as real, StatsOf(times, sqrt).mean)
  {
    MeanIntervalIsSpan(times, sqrt, first, last);
    Round4Is((last - first) as real / 1000.0 / (n - 1) as real);
  }

  /** The statistics of a table: exactly the devices with a row, each with the number of its rows, and interval
      figures from two rows on. */
  lemma PerDeviceIs(rows: seq<Attestation>, sqrt: real -> real, d: DeviceId)
    ensures d in PerDevice(rows, sqrt) <==> exists r :: r in rows && r.device == d
    ensures d in PerDevice(rows, sqrt) ==>
      var s, n := PerDevice(rows, sqrt)[d], Count(rows, OfDevice(d));
      s.count == n && (s.Intervals? <==> n >= 2)
  {
    TimesOfIs(rows, d, 0);
    StatsAre(TimesOf(rows, d), sqrt);
  }

  /** A device's mean interval is, to four digits, the span between its first and its last row over the number
      of its intervals. */
  lemma DeviceMeanIs(rows: seq<Attestation>, sqrt: real -> real, d: DeviceId, first: int, last: int)
    requires d in PerDevice(rows, sqrt) && Count(rows, OfDevice(d)) >= 2 && RowsSpan(rows, d, first, last)
    ensures PerDevice(rows, sqrt)[d].Intervals?
    ensures IsRound4((last - first) as real / 1000.0 / (Count(rows, OfDevice(d)) - 1) as real,
                     PerDevice(rows, sqrt)[d].mean)
  {
    TimesOfIs(rows, d, 0);
    RowsSpanTimes(rows, d, first, last);
    PerDeviceAt(rows, sqrt, d);
    MeanIsRounded(TimesOf(rows, d), Count(rows, OfDevice(d)), sqrt, first, last);
  }

  /** The attestation count of each device, in order of first appearance. */
  function CountsOf(rows: seq<Attestation>): (counts: seq<nat>)
    ensures |counts| == |Devices(rows)|
  {
    seq(|Devices(rows)|, i requires 0 <= i < |Devices(rows)| => |TimesOf(rows, Devices(rows)[i])|)
  }

  function FrequencyOf(rows: seq<Attestation>, sqrt: real -> real, i: nat): Anomaly
    requires i < |Devices(rows)| && |Devices(rows)| >= 2
  {
    var v := Reals(CountsOf(rows));
    Frequency(Devices(rows)[i], CountsOf(rows)[i],
              if Std(v, sqrt) != 0.0 then Round4((v[i] - Mean(v)) / Std(v, sqrt)) else 0.0, Round4(Mean(v)))
  }

  /** The report of device `i`, if it is flagged. */
  function ReportOf(rows: seq<Attestation>, sqrt: real -> real, i: nat): seq<Anomaly>
    requires i < |Devices(rows)|
  {
    if FrequencyFlagged(CountsOf(rows), sqrt, i) then [FrequencyOf(rows, sqrt, i)] else []
  }

  /** The frequency reports for the first k devices, in order. */
  function FrequencyReports(rows: seq<Attestation>, sqrt: real -> real, k: nat): seq<Anomaly>
    requires k <= |Devices(rows)|
  {
    if k == 0 then []
    else
      FrequencyReports(rows, sqrt, k - 1) + ReportOf(rows, sqrt, k - 1)
  }

  function IrregularOf(d: DeviceId, s: DeviceStats): Anomaly
    requires IsIrregular(s)
  {
    Irregular(d, Round4(s.std.value / s.mean), s.mean, s.std.value)
  }

  predicate ReportsIrregular(a: Anomaly, s: DeviceStats) {
    IsIrregular(s) && a == IrregularOf(a.device, s)
  }

  /** `list` reports each irregular device of `among` once, in some order. */
  ghost predicate ListsIrregularAmong(list: seq<Anomaly>, stats: map<DeviceId, DeviceStats>, among: set<DeviceId>)
    requires among <= stats.Keys
  {
    && (forall i :: 0 <= i < |list| ==>
         list[i].device in among && ReportsIrregular(list[i], stats[list[i].device]))
    && (forall d :: d in among && IsIrregular(stats[d]) ==> IrregularOf(d, stats[d]) in list)
    && (forall i, j :: 0 <= i < j < |list| ==> list[i].device != list[j].device)
  }

  ghost predicate ListsIrregular(list: seq<Anomaly>, stats: map<DeviceId, DeviceStats>) {
    ListsIrregularAmong(list, stats, stats.Keys)
  }

  method DetectPatternAnomalies(rows: seq<Attestation>, stats: map<DeviceId, DeviceStats>, sqrt: real -> real)
    returns (anomalies: seq<Anomaly>)
    requires IsSqrt(sqrt)
    ensures var frequency := FrequencyReports(rows, sqrt, |Devices(rows)|);
      frequency <= anomalies && ListsIrregular(anomalies[|frequency|..], stats)
  {
    var frequency := DetectFrequency(rows, sqrt);
    var irregular := DetectIrregular(stats);
    anomalies := frequency + irregular;
    assert anomalies[|frequency|..] == irregular;
  }

  lemma ReportOfIs(rows: seq<Attestation>, sqrt: real -> real, i: nat, v: seq<real>, mu: real, sigma: real)
    requires i < |Devices(rows)| && v == Reals(CountsOf(rows)) && |v| > 2 && mu == Mean(v) && sigma == Std(v, sqrt)
    ensures ReportOf(rows, sqrt, i) ==
      if sigma > 0.0 && Abs(v[i] - mu) / sigma > 3.0
      then [Frequency(Devices(rows)[i], CountsOf(rows)[i], Round4((v[i] - mu) / sigma), Round4(mu))] else []
  {
  }

  method DetectFrequency(rows: seq<Attestation>, sqrt: real -> real) returns (anomalies: seq<Anomaly>)
    requires IsSqrt(sqrt)
    ensures anomalies == FrequencyReports(rows, sqrt, |Devices(rows)|)
  {
    anomalies := [];
    var ids := Devices(rows);
    var counts := CountsOf(rows);
    if |ids| > 2 {
      var v := Reals(counts);
      var mu, sigma := Mean(v), Std(v, sqrt);
      for i := 0 to |ids|
        invariant anomalies == FrequencyReports(rows, sqrt, i)
      {
        ReportOfIs(rows, sqrt, i, v, mu, sigma);
        if sigma > 0.0 && Abs(v[i] - mu) / sigma > 3.0 {
          anomalies := anomalies + [Frequency(ids[i], counts[i], Round4((v[i] - mu) / sigma), Round4(mu))];
        }
      }
    } else {
      NoReports(rows, sqrt, |ids|);
    }
  }

  /** The statistics are visited in an arbitrary order, as a dictionary's entries are. */
  method DetectIrregular(stats: map<DeviceId, DeviceStats>) returns (anomalies: seq<Anomaly>)
    ensures ListsIrregular(anomalies, stats)
  {
    anomalies := [];
    var todo, done: set<DeviceId> := stats.Keys, {};
    while todo != {}
      invariant todo <= stats.Keys && done == stats.Keys - todo
      invariant ListsIrregularAmong(anomalies, stats, done)
      decreases |todo|
    {
      var d :| d in todo;
      var s := stats[d];
      ListStep(anomalies, stats, done, d);
      if s.Intervals? && s.std.Some? {
        var cv := if s.mean > 0.0 then s.std.value / s.mean else 0.0;
        if cv > CV_THRESHOLD {
          anomalies := anomalies + [Irregular(d, Round4(cv), s.mean, s.std.value)];
        }
      }
      todo, done := todo - {d}, done + {d};
    }
  }

  lemma ListStep(list: seq<Anomaly>, stats: map<DeviceId, DeviceStats>, done: set<DeviceId>, d: DeviceId)
    requires d in stats && d !in done && done <= stats.Keys && ListsIrregularAmong(list, stats, done)
    ensures ListsIrregularAmong(if IsIrregular(stats[d]) then list + [IrregularOf(d, stats[d])] else list,
                                stats, done + {d})
  {
  }

  lemma {:induction false} NoReports(rows: seq<Attestation>, sqrt: real -> real, k: nat)
    requires k <= |Devices(rows)| <= 2
    ensures FrequencyReports(rows, sqrt, k) == []
  {
    if k > 0 { NoReports(rows, sqrt, k - 1); }
  }

  // ---------- consequences for every table

  lemma {:induction false} ReportsAreFlags(rows: seq<Attestation>, sqrt: real -> real, k: nat)
    requires k <= |Devices(rows)| && IsSqrt(sqrt)
    ensures |FrequencyReports(rows, sqrt, k)| <= Count(ZScoresOf(Reals(CountsOf(rows)), sqrt)[..k], ZFlagged)
  {
    if k > 0 {
      ReportsAreFlags(rows, sqrt, k - 1);
      var z := ZScoresOf(Reals(CountsOf(rows)), sqrt);
      FrequencyIsZScore(CountsOf(rows), sqrt, k - 1);
      CountNext(z, k, ZFlagged);
    }
  }

  /** Fewer than one active device in nine is reported for its frequency, and with ten or fewer
      active devices none is. */
  lemma FewFrequencyReports(rows: seq<Attestation>, sqrt: real -> real)
    requires IsSqrt(sqrt)
    ensures var n, c := |Devices(rows)|, |FrequencyReports(rows, sqrt, |Devices(rows)|)|;
      && (c > 0 ==> 9 * c < n - 1)
      && (n <= 10 ==> c == 0)
  {
    var n := |Devices(rows)|;
    var z := ZScoresOf(Reals(CountsOf(rows)), sqrt);
    ReportsAreFlags(rows, sqrt, n);
    assert z[..n] == z;
    FewFlagged(Reals(CountsOf(rows)), sqrt);
  }

  /** Every irregularity report of a table names a device with at least five attestations in it. */
  lemma IrregularReportsNeedFive(rows: seq<Attestation>, list: seq<Anomaly>, sqrt: real -> real, i: nat)
    requires IsSqrt(sqrt) && ListsIrregular(list, PerDevice(rows, sqrt)) && i < |list|
    ensures Count(rows, OfDevice(list[i].device)) >= 5
  {
    IrregularNeedsFive(TimesOf(rows, list[i].device), sqrt);
    TimesOfIs(rows, list[i].device, 0);
  }

  // ---------- the counts of a table

  /** The rows of all listed devices together. */
  function Total(rows: seq<Attestation>, ids: seq<DeviceId>): nat {
    if ids == [] then 0 else Count(rows, OfDevice(ids[0])) + Total(rows, ids[1..])
  }

  lemma {:induction false} TotalStep(rows: seq<Attestation>, r: Attestation, ids: seq<DeviceId>)
    requires forall i, j :: 0 <= i < j < |ids| ==> ids[i] != ids[j]
    ensures Total(rows + [r], ids) == Total(rows, ids) + (if r.device in ids then 1 else 0)
  {
    if ids != [] {
      assert forall i, j :: 0 <= i < j < |ids[1..]| ==> ids[1..][i] == ids[i + 1] && ids[1..][j] == ids[j + 1];
      TotalStep(rows, r, ids[1..]);
      CountAppend(rows, [r], OfDevice(ids[0]));
      assert ids == [ids[0]] + ids[1..];
    }
  }

  lemma {:induction false} TotalIsRows(rows: seq<Attestation>, ids: seq<DeviceId>)
    requires forall i, j :: 0 <= i < j < |ids| ==> ids[i] != ids[j]
    requires forall r :: r in rows ==> r.device in ids
    ensures Total(rows, ids) == |rows|
  {
    if rows == [] {
      NoTotal(ids);
    } else {
      var n := |rows| - 1;
      assert rows == rows[..n] + [rows[n]];
      assert rows[n] in rows;
      TotalIsRows(rows[..n], ids);
      TotalStep(rows[..n], rows[n], ids);
    }
  }

  lemma {:induction false} NoTotal(ids: seq<DeviceId>)
    ensures Total([], ids) == 0
  {
    if ids != [] { NoTotal(ids[1..]); }
  }

  lemma {:induction false} SumOfCounts(rows: seq<Attestation>, ids: seq<DeviceId>, v: seq<real>)
    requires |v| == |ids| && forall i :: 0 <= i < |ids| ==> v[i] == Count(rows, OfDevice(ids[i])) as real
    ensures Sum(v) == Total(rows, ids) as real
  {
    if ids != [] {
      assert forall i :: 0 <= i < |ids[1..]| ==> v[1..][i] == v[i + 1] && ids[1..][i] == ids[i + 1];
      SumOfCounts(rows, ids[1..], v[1..]);
    }
  }

  lemma CountsOfIs(rows: seq<Attestation>, i: nat)
    requires i < |Devices(rows)|
    ensures CountsOf(rows)[i] == Count(rows, OfDevice(Devices(rows)[i]))
  {
    TimesOfIs(rows, Devices(rows)[i], 0);
  }

  /** The counts are the numbers of rows of the listed devices, and together count every row once. */
  lemma CountsAreRows(rows: seq<Attestation>)
    ensures forall i :: 0 <= i < |Devices(rows)| ==> CountsOf(rows)[i] == Count(rows, OfDevice(Devices(rows)[i]))
    ensures Sum(Reals(CountsOf(rows))) == |rows| as real
  {
    forall i | 0 <= i < |Devices(rows)| ensures CountsOf(rows)[i] == Count(rows, OfDevice(Devices(rows)[i])) {
      CountsOfIs(rows, i);
    }
    DevicesInOrder(rows);
    SumOfCounts(rows, Devices(rows), Reals(CountsOf(rows)));
    TotalIsRows(rows, Devices(rows));
  }

  /** The report of a device with `count` rows, where `mean` and `sigma` are the mean and the deviation of the
      counts: the z-score and the mean to four digits. */
  predicate Reports(a: Anomaly, d: DeviceId, count: nat, mean: real, sigma: real) {
    && a.Frequency? && a.device == d && a.count == count && IsRound4(mean, a.mean)
    && sigma > 0.0 && IsRound4((count as real - mean) / sigma, a.zscore)
  }

  /** The report of device `i`: the mean is the number of rows per device. */
  ghost predicate SaysFrequency(a: Anomaly, rows: seq<Attestation>, sqrt: real -> real, i: nat)
    requires i < |Devices(rows)|
  {
    var d, v := Devices(rows)[i], Reals(CountsOf(rows));
    |v| >= 2 && Reports(a, d, Count(rows, OfDevice(d)), |rows| as real / |Devices(rows)| as real, Std(v, sqrt))
  }

  lemma MeanCount(rows: seq<Attestation>)
    requires Devices(rows) != []
    ensures Mean(Reals(CountsOf(rows))) == |rows| as real / |Devices(rows)| as real
  {
    CountsAreRows(rows);
  }

  lemma FrequencyOfSays(rows: seq<Attestation>, sqrt: real -> real, i: nat)
    requires i < |Devices(rows)| && FrequencyFlagged(CountsOf(rows), sqrt, i)
    ensures SaysFrequency(FrequencyOf(rows, sqrt, i), rows, sqrt, i)
  {
    MeanCount(rows);
    CountsOfIs(rows, i);
    FrequencyFields(rows, sqrt, i, Reals(CountsOf(rows)));
  }

  lemma FrequencyFields(rows: seq<Attestation>, sqrt: real -> real, i: nat, v: seq<real>)
    requires i < |Devices(rows)| && FrequencyFlagged(CountsOf(rows), sqrt, i) && v == Reals(CountsOf(rows))
    ensures Reports(FrequencyOf(rows, sqrt, i), Devices(rows)[i], CountsOf(rows)[i], Mean(v), Std(v, sqrt))
  {
    Round4Is(Mean(v));
    Round4Is((v[i] - Mean(v)) / Std(v, sqrt));
  }

  /** More than two devices, and a number of rows more than three deviations from the mean. */
  ghost predicate OddCount(rows: seq<Attestation>, sqrt: real -> real, i: nat)
    requires i < |Devices(rows)|
  {
    var v := Reals(CountsOf(rows));
    |v| > 2 && Abs(v[i] - Mean(v)) > 3.0 * Std(v, sqrt)
  }

  lemma OddCountIff(rows: seq<Attestation>, sqrt: real -> real, i: nat)
    requires i < |Devices(rows)| && IsSqrt(sqrt)
    ensures FrequencyFlagged(CountsOf(rows), sqrt, i) <==> OddCount(rows, sqrt, i)
  {
    FrequencyIsZScore(CountsOf(rows), sqrt, i);
    ZFlagIff(Reals(CountsOf(rows)), sqrt, i);
  }

  /** `reports` are those of the devices `at`, which are the ones below `k` with an odd count, in order. */
  ghost predicate ListsOddCounts(reports: seq<Anomaly>, at: seq<nat>, rows: seq<Attestation>,
                                 sqrt: real -> real, k: nat)
    requires k <= |Devices(rows)|
  {
    && |at| == |reports| && (forall j :: 0 <= j < |at| ==> at[j] < k)
    && (forall i, j :: 0 <= i < j < |at| ==> at[i] < at[j])
    && (forall i: nat :: i < k ==> (i in at <==> OddCount(rows, sqrt, i)))
    && (forall j :: 0 <= j < |at| ==> SaysFrequency(reports[j], rows, sqrt, at[j]))
  }

  lemma ListsNext(reports: seq<Anomaly>, at: seq<nat>, rows: seq<Attestation>, sqrt: real -> real, k: nat, a: Anomaly)
    requires k < |Devices(rows)| && ListsOddCounts(reports, at, rows, sqrt, k)
    requires OddCount(rows, sqrt, k) ==> SaysFrequency(a, rows, sqrt, k)
    ensures if OddCount(rows, sqrt, k) then ListsOddCounts(reports + [a], at + [k], rows, sqrt, k + 1)
            else ListsOddCounts(reports, at, rows, sqrt, k + 1)
  {
  }

  lemma ListsMore(reports: seq<Anomaly>, at: seq<nat>, rows: seq<Attestation>, sqrt: real -> real, k: nat)
    returns (longer: seq<nat>)
    requires k < |Devices(rows)| && ListsOddCounts(reports, at, rows, sqrt, k) && IsSqrt(sqrt)
    ensures ListsOddCounts(reports + ReportOf(rows, sqrt, k), longer, rows, sqrt, k + 1)
  {
    OddCountIff(rows, sqrt, k);
    if FrequencyFlagged(CountsOf(rows), sqrt, k) {
      FrequencyOfSays(rows, sqrt, k);
      ListsNext(reports, at, rows, sqrt, k, FrequencyOf(rows, sqrt, k));
      longer := at + [k];
    } else {
      ListsNext(reports, at, rows, sqrt, k, Irregular("", 0.0, 0.0, 0.0));
      assert reports + [] == reports;
      longer := at;
    }
  }

  /** The frequency reports are those of the devices with an odd count, in device order. */
  lemma {:induction false} FrequencyReportsAre(rows: seq<Attestation>, sqrt: real -> real, k: nat)
    returns (at: seq<nat>)
    requires k <= |Devices(rows)| && IsSqrt(sqrt)
    ensures ListsOddCounts(FrequencyReports(rows, sqrt, k), at, rows, sqrt, k)
  {
    if k == 0 {
      at := [];
    } else {
      var before := FrequencyReportsAre(rows, sqrt, k - 1);
      at := ListsMore(FrequencyReports(rows, sqrt, k - 1), before, rows, sqrt, k - 1);
    }
  }

  /** An irregularity report gives the stored mean and deviation and their ratio to four digits. */
  lemma IrregularReportIs(list: seq<Anomaly>, stats: map<DeviceId, DeviceStats>, i: nat)
    requires ListsIrregular(list, stats) && i < |list|
    ensures list[i].Irregular? && list[i].device in stats && stats[list[i].device].Intervals?
    ensures var a, s := list[i], stats[list[i].device];
      && a.mean == s.mean && s.std == Some(a.std) && a.mean > 0.0 && a.std > 2.0 * a.mean
      && IsRound4(a.std / a.mean, a.cv)
  {
    var s := stats[list[i].device];
    assert ReportsIrregular(list[i], s);
    IrregularIff(s);
    Round4Is(s.std.value / s.mean);
  }
}

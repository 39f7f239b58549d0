/** The anomaly detector: z-score and interquartile flags of every metric, merged per device. */
module AnomalyDetection {
  import opened Percentiles
  import opened Rounding
  import opened Sequences
  import opened Sums
  import opened ZScores

  type Metric = string
  type Column = seq<Option<real>>
  type Columns = map<Metric, Column>

  const ANOMALY_METRICS: seq<Metric> :=
    ["attestation_count", "proof_count", "connection_frequency", "error_rate"]

  datatype Row = Row(zscore: real, zFlagged: bool, iqrFlagged: bool)

  datatype Entry<Id> = Entry(device: Id, flagCount: nat, anomalies: map<Metric, Row>)

  /** The answer of the detector; BoundsError is its failure. */
  datatype Outcome<Id> =
    | NoDevices
    | NoMetrics(total: nat)
    | Report(flagged: seq<Entry<Id>>, total: nat, flaggedCount: nat, analyzed: seq<Metric>)
    | BoundsError

  ghost predicate Distinct<T>(s: seq<T>) {
    forall i, j :: 0 <= i < j < |s| ==> s[i] != s[j]
  }

  // ---------- missing values

  /** The values of a column that are not missing, in row order. */
  function Present(col: Column): (vals: seq<real>)
    ensures |vals| <= |col|
  {
    if col == [] then [] else (if col[0].Some? then [col[0].value] else []) + Present(col[1..])
  }

  /** The row of the k-th present value. */
  function Origin(col: Column, k: nat): (row: nat)
    requires k < |Present(col)|
    ensures row < |col|
  {
    if col[0].Some? && k == 0 then 0
    else if col[0].Some? then 1 + Origin(col[1..], k - 1)
    else 1 + Origin(col[1..], k)
  }

  ghost predicate NoneMissing(col: Column) {
    forall i :: 0 <= i < |col| ==> col[i].Some?
  }

  /** The k-th present value stands in row `Origin`, which is row k exactly when no row up to k is missing. */
  lemma {:induction false} OriginCorrect(col: Column, k: nat)
    requires k < |Present(col)|
    ensures k <= Origin(col, k) && col[Origin(col, k)] == Some(Present(col)[k])
    ensures Origin(col, k) == k <==> NoneMissing(col[..k + 1])
  {
    var c := if col[0].Some? then 1 else 0;
    if c == 0 {
      OriginCorrect(col[1..], k);
      assert col[..k + 1][0].None?;
    } else if k > 0 {
      OriginCorrect(col[1..], k - 1);
      assert col[..k + 1] == [col[0]] + col[1..][..k];
      assert col[1..][..k] == col[..k + 1][1..];
    }
  }

  predicate HasValue(x: Option<real>) {
    x.Some?
  }

  /** Every value that is not missing is kept, and the rows of the kept values increase. */
  lemma {:induction false} PresentInOrder(col: Column)
    ensures |Present(col)| == Count(col, HasValue)
    ensures forall j, k :: 0 <= j < k < |Present(col)| ==> Origin(col, j) < Origin(col, k)
  {
    if col != [] {
      PresentInOrder(col[1..]);
    }
  }

  lemma {:induction false} PresentOfFull(col: Column)
    requires NoneMissing(col)
    ensures |Present(col)| == |col| && forall i :: 0 <= i < |col| ==> Present(col)[i] == col[i].value
  {
    if col != [] { PresentOfFull(col[1..]); }
  }

  function Full(vals: seq<real>): (col: Column)
    ensures |col| == |vals| && NoneMissing(col) && forall i :: 0 <= i < |col| ==> col[i].value == vals[i]
  {
    seq(|vals|, i requires 0 <= i < |vals| => Some(vals[i]))
  }

  lemma PresentFull(vals: seq<real>)
    ensures Present(Full(vals)) == vals
  {
    PresentOfFull(Full(vals));
  }

  // ---------- the per-column passes

  function ZColumns(df: Columns, metrics: seq<Metric>, sqrt: real -> real): map<Metric, seq<real>>
    requires forall m :: m in metrics ==> m in df
  {
    map m | m in metrics :: ZScoresOf(Present(df[m]), sqrt)
  }

  function IqrColumns(df: Columns, metrics: seq<Metric>): map<Metric, seq<bool>>
    requires forall m :: m in metrics ==> m in df
  {
    map m | m in metrics :: IqrFlags(Present(df[m]))
  }

  lemma ColumnsNext(df: Columns, metrics: seq<Metric>, k: nat, sqrt: real -> real)
    requires k < |metrics| && forall m :: m in metrics ==> m in df
    ensures ZColumns(df, metrics[..k + 1], sqrt)
         == ZColumns(df, metrics[..k], sqrt)[metrics[k] := ZScoresOf(Present(df[metrics[k]]), sqrt)]
    ensures IqrColumns(df, metrics[..k + 1])
         == IqrColumns(df, metrics[..k])[metrics[k] := IqrFlags(Present(df[metrics[k]]))]
  {
    assert metrics[..k + 1] == metrics[..k] + [metrics[k]];
  }

  method ComputeZscores(df: Columns, metrics: seq<Metric>, sqrt: real -> real)
    returns (results: map<Metric, seq<real>>)
    requires forall m :: m in metrics ==> m in df
    ensures results == ZColumns(df, metrics, sqrt)
  {
    results := map[];
    for k := 0 to |metrics|
      invariant results == ZColumns(df, metrics[..k], sqrt)
    {
      var col := metrics[k];
      ColumnsNext(df, metrics, k, sqrt);
      var vals := Present(df[col]);
      var n := |vals|;
      if n < 2 {
        results := results[col := Zeros(n)];
      } else {
        var mu, sigma := Mean(vals), Std(vals, sqrt);
        if sigma == 0.0 {
          results := results[col := Zeros(n)];
        } else {
          results := results[col := seq(n, i requires 0 <= i < n => (vals[i] - mu) / sigma)];
        }
        assert results[col] == ZScoresOf(vals, sqrt);
      }
    }
    assert metrics[..|metrics|] == metrics;
  }

  method ComputeIqrOutliers(df: Columns, metrics: seq<Metric>) returns (results: map<Metric, seq<bool>>)
    requires forall m :: m in metrics ==> m in df
    ensures results == IqrColumns(df, metrics)
  {
    results := map[];
    for k := 0 to |metrics|
      invariant results == IqrColumns(df, metrics[..k])
    {
      var col := metrics[k];
      assert metrics[..k + 1] == metrics[..k] + [col];
      var vals := Present(df[col]);
      var n := |vals|;
      if n < 4 {
        results := results[col := seq(n, _ => false)];
      } else {
        var fences := FencesOf(vals);
        results := results[col := seq(n, i requires 0 <= i < n => vals[i] < fences.lower || vals[i] > fences.upper)];
      }
      assert results[col] == IqrFlags(vals);
    }
    assert metrics[..|metrics|] == metrics;
  }

  // ---------- merging

  function ZMark(z: map<Metric, seq<real>>, m: Metric, i: nat): nat {
    if m in z && i < |z[m]| && ZFlagged(z[m][i]) then 1 else 0
  }

  function IqrMark(iqr: map<Metric, seq<bool>>, m: Metric, i: nat): nat {
    if m in iqr && i < |iqr[m]| && iqr[m][i] then 1 else 0
  }

  /** The number of marks of device `i` over all metrics. */
  function FlagCount(metrics: seq<Metric>, z: map<Metric, seq<real>>, iqr: map<Metric, seq<bool>>, i: nat): nat {
    if metrics == [] then 0
    else
      var m := metrics[|metrics| - 1];
      FlagCount(metrics[..|metrics| - 1], z, iqr, i) + ZMark(z, m, i) + IqrMark(iqr, m, i)
  }

  /** Missing columns and columns shorter than the device list raise no flag. */
  method MergeFlags(n: nat, z: map<Metric, seq<real>>, iqr: map<Metric, seq<bool>>, metrics: seq<Metric>)
    returns (counts: seq<nat>)
    ensures |counts| == n && forall i :: 0 <= i < n ==> counts[i] == FlagCount(metrics, z, iqr, i)
  {
    var flagCounts := new nat[n](_ => 0);
    for k := 0 to |metrics|
      invariant forall i :: 0 <= i < n ==> flagCounts[i] == FlagCount(metrics[..k], z, iqr, i)
    {
      var col := metrics[k];
      assert metrics[..k + 1][..k] == metrics[..k];
      var zVals: seq<real> := if col in z then z[col] else [];
      var iqrVals: seq<bool> := if col in iqr then iqr[col] else [];
      for i := 0 to n
        invariant forall j :: 0 <= j < i ==> flagCounts[j] == FlagCount(metrics[..k + 1], z, iqr, j)
        invariant forall j :: i <= j < n ==> flagCounts[j] == FlagCount(metrics[..k], z, iqr, j)
      {
        if i < |zVals| && Abs(zVals[i]) > ZSCORE_THRESHOLD {
          flagCounts[i] := flagCounts[i] + 1;
        }
        if i < |iqrVals| && iqrVals[i] {
          flagCounts[i] := flagCounts[i] + 1;
        }
      }
    }
    assert metrics[..|metrics|] == metrics;
    counts := flagCounts[..];
  }

  // ---------- building the report

  /** Device `i` has a value in every z-score and every interquartile column. */
  predicate Covered(metrics: seq<Metric>, z: map<Metric, seq<real>>, iqr: map<Metric, seq<bool>>, i: nat) {
    forall m :: m in metrics ==> m in z && i < |z[m]| && m in iqr && i < |iqr[m]|
  }

  function RowOf(m: Metric, z: map<Metric, seq<real>>, iqr: map<Metric, seq<bool>>, i: nat): Row
    requires Covered([m], z, iqr, i)
  {
    assert m in [m];
    Row(Round4(z[m][i]), ZFlagged(z[m][i]), iqr[m][i])
  }

  function AnomaliesOf(metrics: seq<Metric>, z: map<Metric, seq<real>>, iqr: map<Metric, seq<bool>>, i: nat)
    : map<Metric, Row>
    requires Covered(metrics, z, iqr, i)
  {
    map m | m in metrics && (RowOf(m, z, iqr, i).zFlagged || RowOf(m, z, iqr, i).iqrFlagged) :: RowOf(m, z, iqr, i)
  }

  /** The positions with a positive count, in order. */
  function FlaggedIndices(flags: seq<nat>): (idx: seq<nat>)
    ensures forall j :: 0 <= j < |idx| ==> idx[j] < |flags|
  {
    if flags == [] then []
    else
      var n := |flags| - 1;
      FlaggedIndices(flags[..n]) + (if flags[n] > 0 then [n] else [])
  }

  ghost predicate AllCovered(n: nat, metrics: seq<Metric>, flags: seq<nat>,
                             z: map<Metric, seq<real>>, iqr: map<Metric, seq<bool>>) {
    n <= |flags| && forall i :: 0 <= i < n && flags[i] > 0 ==> Covered(metrics, z, iqr, i)
  }

  function EntryOf<Id>(ids: seq<Id>, metrics: seq<Metric>, flags: seq<nat>,
                       z: map<Metric, seq<real>>, iqr: map<Metric, seq<bool>>, i: nat): Entry<Id>
    requires i < |ids| <= |flags| && Covered(metrics, z, iqr, i)
  {
    Entry(ids[i], flags[i], AnomaliesOf(metrics, z, iqr, i))
  }

  /** `report` lists exactly the devices with a positive count, in device order. */
  ghost predicate IsReport<Id>(report: seq<Entry<Id>>, ids: seq<Id>, metrics: seq<Metric>, flags: seq<nat>,
                               z: map<Metric, seq<real>>, iqr: map<Metric, seq<bool>>)
    requires AllCovered(|ids|, metrics, flags, z, iqr)
  {
    var idx := FlaggedIndices(flags[..|ids|]);
    FlaggedIndicesCorrect(flags[..|ids|]);
    && |report| == |idx|
    && forall j :: 0 <= j < |idx| ==> report[j] == EntryOf(ids, metrics, flags, z, iqr, idx[j])
  }

  lemma FlaggedIndicesCorrect(flags: seq<nat>)
    ensures var idx := FlaggedIndices(flags);
      && |idx| == Count(flags, Positive)
      && (forall j, k :: 0 <= j < k < |idx| ==> idx[j] < idx[k])
      && (forall i :: 0 <= i < |flags| ==> (i in idx <==> flags[i] > 0))
    ensures forall j :: 0 <= j < |FlaggedIndices(flags)| ==> flags[FlaggedIndices(flags)[j]] > 0
  {
    FlaggedIndicesCount(flags);
    FlaggedIndicesOrder(flags);
    FlaggedIndicesMembers(flags);
    var idx := FlaggedIndices(flags);
    forall j | 0 <= j < |idx| ensures flags[idx[j]] > 0 {
      assert idx[j] in idx;
    }
  }

  lemma {:induction false} FlaggedIndicesCount(flags: seq<nat>)
    ensures |FlaggedIndices(flags)| == Count(flags, Positive)
  {
    if flags != [] {
      var n := |flags| - 1;
      FlaggedIndicesCount(flags[..n]);
      assert flags == flags[..n] + [flags[n]];
      CountAppend(flags[..n], [flags[n]], Positive);
    }
  }

  lemma {:induction false} FlaggedIndicesOrder(flags: seq<nat>)
    ensures forall j, k :: 0 <= j < k < |FlaggedIndices(flags)| ==> FlaggedIndices(flags)[j] < FlaggedIndices(flags)[k]
  {
    if flags != [] { FlaggedIndicesOrder(flags[..|flags| - 1]); }
  }

  lemma {:induction false} FlaggedIndicesMembers(flags: seq<nat>)
    ensures forall i: nat :: i in FlaggedIndices(flags) <==> i < |flags| && flags[i] > 0
  {
    if flags != [] {
      var n := |flags| - 1;
      FlaggedIndicesMembers(flags[..n]);
      forall i: nat ensures i in FlaggedIndices(flags) <==> i < |flags| && flags[i] > 0 {
        assert i in FlaggedIndices(flags) <==> i in FlaggedIndices(flags[..n]) || (flags[n] > 0 && i == n);
      }
    }
  }

  predicate Positive(c: nat) {
    c > 0
  }

  /** None is the bounds error of a flagged device with a missing value. */
  method BuildFlaggedDevices<Id>(ids: seq<Id>, metrics: seq<Metric>, flags: seq<nat>,
                                 z: map<Metric, seq<real>>, iqr: map<Metric, seq<bool>>)
    returns (r: Option<seq<Entry<Id>>>)
    ensures r.Some? <==> AllCovered(|ids|, metrics, flags, z, iqr)
    ensures r.Some? ==> IsReport(r.value, ids, metrics, flags, z, iqr)
  {
    var flagged: seq<Entry<Id>> := [];
    for i := 0 to |ids|
      invariant i <= |flags| && forall j :: 0 <= j < i && flags[j] > 0 ==> Covered(metrics, z, iqr, j)
      invariant |flagged| == |FlaggedIndices(flags[..i])|
      invariant forall j :: 0 <= j < |flagged| ==>
        var p := FlaggedIndices(flags[..i])[j];
        Covered(metrics, z, iqr, p) && flagged[j] == Entry(ids[p], flags[p], AnomaliesOf(metrics, z, iqr, p))
    {
      if i >= |flags| { return None; }
      assert flags[..i + 1][..i] == flags[..i];
      if flags[i] > 0 {
        var anomalies := DeviceAnomalies(metrics, z, iqr, i);
        if anomalies.None? {
          return None;
        }
        flagged := flagged + [Entry(ids[i], flags[i], anomalies.value)];
      }
    }
    r := Some(flagged);
  }

  lemma AnomaliesNext(metrics: seq<Metric>, k: nat, z: map<Metric, seq<real>>, iqr: map<Metric, seq<bool>>, i: nat)
    requires k < |metrics| && Covered(metrics[..k], z, iqr, i) && Covered([metrics[k]], z, iqr, i)
    ensures Covered(metrics[..k + 1], z, iqr, i)
    ensures AnomaliesOf(metrics[..k + 1], z, iqr, i)
         == WithRow(AnomaliesOf(metrics[..k], z, iqr, i), metrics[k], RowOf(metrics[k], z, iqr, i))
  {
    var m := metrics[k];
    assert m in [m];
    assert metrics[..k + 1] == metrics[..k] + [m];
  }

  /** The flagged rows of one device; None is the bounds error of a missing value. */
  method DeviceAnomalies(metrics: seq<Metric>, z: map<Metric, seq<real>>, iqr: map<Metric, seq<bool>>, i: nat)
    returns (r: Option<map<Metric, Row>>)
    ensures r.Some? <==> Covered(metrics, z, iqr, i)
    ensures r.Some? ==> r.value == AnomaliesOf(metrics, z, iqr, i)
  {
    var anomalies: map<Metric, Row> := map[];
    for k := 0 to |metrics|
      invariant Covered(metrics[..k], z, iqr, i)
      invariant anomalies == AnomaliesOf(metrics[..k], z, iqr, i)
    {
      var col := metrics[k];
      if col !in z || i >= |z[col]| || col !in iqr || i >= |iqr[col]| {
        assert col in metrics;
        return None;
      }
      AnomaliesNext(metrics, k, z, iqr, i);
      var row := Row(Round4(z[col][i]), Abs(z[col][i]) > ZSCORE_THRESHOLD, iqr[col][i]);
      if row.zFlagged || row.iqrFlagged {
        anomalies := anomalies[col := row];
      }
    }
    assert metrics[..|metrics|] == metrics;
    r := Some(anomalies);
  }

  // ---------- the two passes agree

  function ZMarked(anomalies: map<Metric, Row>): set<Metric> {
    set m | m in anomalies && anomalies[m].zFlagged
  }

  function IqrMarked(anomalies: map<Metric, Row>): set<Metric> {
    set m | m in anomalies && anomalies[m].iqrFlagged
  }

  /** The marks shown in an entry: its z-score marks and its interquartile marks. */
  function MarksShown(anomalies: map<Metric, Row>): nat {
    |ZMarked(anomalies)| + |IqrMarked(anomalies)|
  }

  /** The merged count of a device is the number of marks its report entry shows. */
  lemma {:induction false} CountIsMarksShown(metrics: seq<Metric>, z: map<Metric, seq<real>>,
                                             iqr: map<Metric, seq<bool>>, i: nat)
    requires Distinct(metrics) && Covered(metrics, z, iqr, i)
    ensures FlagCount(metrics, z, iqr, i) == MarksShown(AnomaliesOf(metrics, z, iqr, i))
    ensures FlagCount(metrics, z, iqr, i) > 0 <==> AnomaliesOf(metrics, z, iqr, i) != map[]
  {
    var shown := AnomaliesOf(metrics, z, iqr, i);
    if metrics == [] {
      assert ZMarked(shown) == {} && IqrMarked(shown) == {};
    } else {
      var n := |metrics| - 1;
      var rest, m := metrics[..n], metrics[n];
      assert metrics == rest + [m] && m !in rest;
      CountIsMarksShown(rest, z, iqr, i);
      AnomaliesStep(rest, m, z, iqr, i);
      MarksStep(AnomaliesOf(rest, z, iqr, i), m, RowOf(m, z, iqr, i));
    }
  }

  lemma AnomaliesStep(rest: seq<Metric>, m: Metric, z: map<Metric, seq<real>>, iqr: map<Metric, seq<bool>>, i: nat)
    requires m !in rest && Covered(rest + [m], z, iqr, i)
    ensures Covered(rest, z, iqr, i) && Covered([m], z, iqr, i)
    ensures m !in AnomaliesOf(rest, z, iqr, i)
    ensures AnomaliesOf(rest + [m], z, iqr, i) == WithRow(AnomaliesOf(rest, z, iqr, i), m, RowOf(m, z, iqr, i))
  {
    assert forall c :: c in rest ==> c in rest + [m];
    assert m in rest + [m];
  }

  /** A row is shown only when it carries a mark. */
  function WithRow(anomalies: map<Metric, Row>, m: Metric, row: Row): map<Metric, Row> {
    if row.zFlagged || row.iqrFlagged then anomalies[m := row] else anomalies
  }

  function MarkOf(flag: bool): nat {
    if flag then 1 else 0
  }

  lemma MarksStep(anomalies: map<Metric, Row>, m: Metric, row: Row)
    requires m !in anomalies
    ensures var after := WithRow(anomalies, m, row);
      && MarksShown(after) == MarksShown(anomalies) + MarkOf(row.zFlagged) + MarkOf(row.iqrFlagged)
      && (after != map[] <==> anomalies != map[] || row.zFlagged || row.iqrFlagged)
  {
    MarkedStep(anomalies, m, row);
    if row.zFlagged || row.iqrFlagged { assert m in WithRow(anomalies, m, row); }
  }

  lemma MarkedStep(anomalies: map<Metric, Row>, m: Metric, row: Row)
    requires m !in anomalies
    ensures ZMarked(WithRow(anomalies, m, row)) == ZMarked(anomalies) + (if row.zFlagged then {m} else {})
    ensures IqrMarked(WithRow(anomalies, m, row)) == IqrMarked(anomalies) + (if row.iqrFlagged then {m} else {})
    ensures m !in ZMarked(anomalies) && m !in IqrMarked(anomalies)
  {
  }

  function FlagCounts(n: nat, metrics: seq<Metric>, z: map<Metric, seq<real>>, iqr: map<Metric, seq<bool>>)
    : (flags: seq<nat>)
    ensures |flags| == n
  {
    seq(n, i requires 0 <= i < n => FlagCount(metrics, z, iqr, i))
  }

  /** With full columns and distinct metrics, a report built from the merged counts has one entry
      per device with a mark, in device order, and each entry shows exactly as many marks as it counts. */
  lemma ReportAgreesWithCounts<Id>(report: seq<Entry<Id>>, ids: seq<Id>, metrics: seq<Metric>,
                                   z: map<Metric, seq<real>>, iqr: map<Metric, seq<bool>>)
    requires Distinct(metrics)
    requires forall i :: 0 <= i < |ids| ==> Covered(metrics, z, iqr, i)
    requires IsReport(report, ids, metrics, FlagCounts(|ids|, metrics, z, iqr), z, iqr)
    ensures |report| == Count(FlagCounts(|ids|, metrics, z, iqr), Positive)
    ensures forall e :: e in report ==> e.anomalies != map[] && e.flagCount == MarksShown(e.anomalies)
    ensures forall i :: 0 <= i < |ids| && FlagCount(metrics, z, iqr, i) > 0 ==>
      exists j :: 0 <= j < |report| && report[j].device == ids[i]
  {
    var flags := FlagCounts(|ids|, metrics, z, iqr);
    assert flags[..|ids|] == flags;
    FlaggedIndicesCorrect(flags);
    var idx := FlaggedIndices(flags);
    forall j | 0 <= j < |report|
      ensures report[j].anomalies != map[] && report[j].flagCount == MarksShown(report[j].anomalies)
    {
      CountIsMarksShown(metrics, z, iqr, idx[j]);
    }
    forall i | 0 <= i < |ids| && FlagCount(metrics, z, iqr, i) > 0
      ensures exists j :: 0 <= j < |report| && report[j].device == ids[i]
    {
      assert i in idx;
      var j :| 0 <= j < |idx| && idx[j] == i;
      assert report[j].device == ids[i];
    }
  }

  // ---------- the whole detector

  /** Every metric column has one row per device, possibly missing. */
  ghost predicate IsTable(df: Columns, metrics: seq<Metric>, n: nat) {
    && Distinct(metrics)
    && forall m :: m in metrics ==> m in df && |df[m]| == n
  }

  function DetectedCounts(df: Columns, metrics: seq<Metric>, n: nat, sqrt: real -> real): (flags: seq<nat>)
    requires IsTable(df, metrics, n)
    ensures |flags| == n
  {
    FlagCounts(n, metrics, ZColumns(df, metrics, sqrt), IqrColumns(df, metrics))
  }

  /** The analysed metrics are the known ones among the column names, in column order. */
  function KnownMetrics(names: seq<string>): (known: seq<Metric>)
    ensures forall m :: m in known <==> m in names && m in ANOMALY_METRICS
    ensures Distinct(names) ==> Distinct(known)
  {
    if names == [] then []
    else
      assert Distinct(names) ==> Distinct(names[1..]) && names[0] !in names[1..];
      (if names[0] in ANOMALY_METRICS then [names[0]] else []) + KnownMetrics(names[1..])
  }

  /** Device `i` has a row within the present values of every metric. */
  ghost predicate InReach(df: Columns, metrics: seq<Metric>, i: nat)
    requires forall m :: m in metrics ==> m in df
  {
    forall m :: m in metrics ==> i < |Present(df[m])|
  }

  /** Every device with a mark is within the present values of every metric. */
  ghost predicate MarksInReach(df: Columns, metrics: seq<Metric>, n: nat, sqrt: real -> real)
    requires IsTable(df, metrics, n)
  {
    forall i :: 0 <= i < n && DetectedCounts(df, metrics, n, sqrt)[i] > 0 ==> InReach(df, metrics, i)
  }

  /** The analysed metrics are the columns with one of the four known names, in column order. */
  lemma {:induction false} KnownMetricsIs(a: seq<string>, b: seq<string>)
    ensures KnownMetrics(a + b) == KnownMetrics(a) + KnownMetrics(b) && |KnownMetrics(a)| <= |a|
    ensures forall m :: m in KnownMetrics(a) <==>
      m in a && m in {"attestation_count", "proof_count", "connection_frequency", "error_rate"}
  {
    if a == [] {
      assert a + b == b;
    } else {
      assert (a + b)[1..] == a[1..] + b;
      KnownMetricsIs(a[1..], b);
    }
  }

  method DetectAnomalies<Id>(ids: seq<Id>, names: seq<string>, df: Columns, sqrt: real -> real)
    returns (r: Outcome<Id>)
    requires IsTable(df, KnownMetrics(names), |ids|)
    ensures var metrics := KnownMetrics(names);
      && (r.NoDevices? <==> ids == [])
      && (r.NoMetrics? <==> ids != [] && metrics == [])
      && (r.BoundsError? <==> !MarksInReach(df, metrics, |ids|, sqrt))
      && (r.NoMetrics? ==> r.total == |ids|)
      && (r.Report? ==>
            && r.total == |ids| && r.analyzed == metrics
            && r.flaggedCount == |r.flagged| == Count(DetectedCounts(df, metrics, |ids|, sqrt), Positive)
            && IsTableReport(r.flagged, ids, metrics, df, sqrt))
  {
    var metrics := KnownMetrics(names);
    if |ids| == 0 {
      return NoDevices;
    }
    if |metrics| == 0 {
      return NoMetrics(|ids|);
    }
    var z := ComputeZscores(df, metrics, sqrt);
    var iqr := ComputeIqrOutliers(df, metrics);
    var flags := MergeFlags(|ids|, z, iqr, metrics);
    assert flags == DetectedCounts(df, metrics, |ids|, sqrt);
    TableCovered(df, metrics, |ids|, sqrt);
    var flagged := BuildFlaggedDevices(ids, metrics, flags, z, iqr);
    if flagged.None? {
      return BoundsError;
    }
    TableReport(flagged.value, ids, metrics, df, sqrt);
    r := Report(flagged.value, |ids|, |flagged.value|, metrics);
  }

  lemma CoveredInReach(df: Columns, metrics: seq<Metric>, sqrt: real -> real, i: nat)
    requires forall m :: m in metrics ==> m in df
    ensures Covered(metrics, ZColumns(df, metrics, sqrt), IqrColumns(df, metrics), i) <==> InReach(df, metrics, i)
  {
  }

  lemma TableCovered(df: Columns, metrics: seq<Metric>, n: nat, sqrt: real -> real)
    requires IsTable(df, metrics, n)
    ensures AllCovered(n, metrics, DetectedCounts(df, metrics, n, sqrt),
                       ZColumns(df, metrics, sqrt), IqrColumns(df, metrics))
            <==> MarksInReach(df, metrics, n, sqrt)
  {
    forall i: nat
      ensures Covered(metrics, ZColumns(df, metrics, sqrt), IqrColumns(df, metrics), i) <==> InReach(df, metrics, i)
    {
      CoveredInReach(df, metrics, sqrt, i);
    }
  }

  lemma TableReport<Id>(flagged: seq<Entry<Id>>, ids: seq<Id>, metrics: seq<Metric>, df: Columns, sqrt: real -> real)
    requires IsTable(df, metrics, |ids|) && MarksInReach(df, metrics, |ids|, sqrt)
    requires AllCovered(|ids|, metrics, DetectedCounts(df, metrics, |ids|, sqrt),
                        ZColumns(df, metrics, sqrt), IqrColumns(df, metrics))
    requires IsReport(flagged, ids, metrics, DetectedCounts(df, metrics, |ids|, sqrt),
                      ZColumns(df, metrics, sqrt), IqrColumns(df, metrics))
    ensures |flagged| == Count(DetectedCounts(df, metrics, |ids|, sqrt), Positive)
    ensures IsTableReport(flagged, ids, metrics, df, sqrt)
  {
    var z, iqr := ZColumns(df, metrics, sqrt), IqrColumns(df, metrics);
    var counts := DetectedCounts(df, metrics, |ids|, sqrt);
    assert counts[..|ids|] == counts;
    FlaggedIndicesCorrect(counts);
    var idx := FlaggedIndices(counts);
    forall j | 0 <= j < |flagged| ensures EntryShows(flagged[j], ids, metrics, df, sqrt, idx[j]) {
      CountIsMarksShown(metrics, z, iqr, idx[j]);
      assert flagged[j] == EntryOf(ids, metrics, counts, z, iqr, idx[j]);
    }
  }

  /** The entry names device `i` and shows exactly the z-scores and marks computed for its position. */
  ghost predicate EntryShows<Id>(e: Entry<Id>, ids: seq<Id>, metrics: seq<Metric>, df: Columns,
                                 sqrt: real -> real, i: nat)
    requires IsTable(df, metrics, |ids|) && i < |ids| && InReach(df, metrics, i)
  {
    && e.device == ids[i]
    && e.flagCount == MarksShown(e.anomalies) == DetectedCounts(df, metrics, |ids|, sqrt)[i]
    && e.flagCount > 0
    && forall m :: m in metrics ==>
         var zi, qi := ZScoresOf(Present(df[m]), sqrt)[i], IqrFlags(Present(df[m]))[i];
         && (m in e.anomalies <==> ZFlagged(zi) || qi)
         && (m in e.anomalies ==> e.anomalies[m] == Row(Round4(zi), ZFlagged(zi), qi))
  }

  /** One entry per device with a positive count, in device order. */
  ghost predicate IsTableReport<Id>(flagged: seq<Entry<Id>>, ids: seq<Id>, metrics: seq<Metric>,
                                    df: Columns, sqrt: real -> real)
    requires IsTable(df, metrics, |ids|)
  {
    var idx := FlaggedIndices(DetectedCounts(df, metrics, |ids|, sqrt));
    && |flagged| == |idx|
    && forall j :: 0 <= j < |flagged| ==>
         InReach(df, metrics, idx[j]) && EntryShows(flagged[j], ids, metrics, df, sqrt, idx[j])
  }

  // ---------- what missing values do

  ghost predicate Complete(df: Columns, metrics: seq<Metric>)
    requires forall m :: m in metrics ==> m in df
  {
    forall m :: m in metrics ==> NoneMissing(df[m])
  }

  /** A complete table never fails. */
  lemma CompleteInReach(df: Columns, metrics: seq<Metric>, n: nat, sqrt: real -> real)
    requires IsTable(df, metrics, n) && Complete(df, metrics)
    ensures MarksInReach(df, metrics, n, sqrt)
  {
    forall m | m in metrics ensures |Present(df[m])| == n {
      PresentOfFull(df[m]);
    }
  }

  /** No present value comes after a missing one. */
  ghost predicate MissingLast(col: Column) {
    forall i, j :: 0 <= i < j < |col| && col[i].None? ==> col[j].None?
  }

  /** Every position shows the score of its own device exactly when the missing values come last. */
  lemma OwnScoresIff(col: Column)
    ensures (forall k: nat :: k < |Present(col)| ==> Origin(col, k) == k) <==> MissingLast(col)
  {
    if MissingLast(col) {
      forall k: nat | k < |Present(col)| ensures Origin(col, k) == k {
        OriginCorrect(col, k);
        assert forall i :: 0 <= i <= k ==> col[..k + 1][i] == col[i];
      }
    } else {
      var i, j :| 0 <= i < j < |col| && col[i].None? && col[j].Some?;
      var k := PresentAt(col, j);
      OriginCorrect(col, k);
      assert col[..j + 1][i] == col[i];
    }
  }

  /** Every present row is the origin of some position. */
  lemma {:induction false} PresentAt(col: Column, row: nat) returns (k: nat)
    requires row < |col| && col[row].Some?
    ensures k < |Present(col)| && Origin(col, k) == row
  {
    if row == 0 {
      k := 0;
    } else {
      k := PresentAt(col[1..], row - 1);
      if col[0].Some? { k := k + 1; }
    }
  }

  function Single(m: Metric, col: Column): Columns {
    map[m := col]
  }

  lemma SingleMark(m: Metric, col: Column, n: nat, sqrt: real -> real, i: nat)
    requires |col| == n && FlaggedAt(col, i)
    ensures IsTable(Single(m, col), [m], n)
    ensures DetectedCounts(Single(m, col), [m], n, sqrt)[i] > 0
  {
    var df := Single(m, col);
    assert IqrMark(IqrColumns(df, [m]), m, i) == 1;
    MarkCounts([m], m, ZColumns(df, [m], sqrt), IqrColumns(df, [m]), i);
  }

  /** The first value missing, then two tails. */
  function FirstMissing(n: nat): (col: Column)
    requires n >= 2
    ensures |col| == n && col[0].None?
  {
    [None] + Full(TwoTails(n - 1))
  }

  lemma PresentAfterMissing(n: nat)
    requires n >= 2
    ensures Present(FirstMissing(n)) == TwoTails(n - 1)
  {
    PresentFull(TwoTails(n - 1));
    assert FirstMissing(n)[1..] == Full(TwoTails(n - 1));
  }

  lemma FirstMissingFlag(n: nat)
    requires n >= 5
    ensures |Present(FirstMissing(n))| == n - 1 && FlaggedAt(FirstMissing(n), 0)
  {
    PresentAfterMissing(n);
    TailFlags(n - 1, 0);
  }

  /** For every fleet of five or more some table reports the first device, which has no value at all. */
  lemma DeviceWithoutValueIsReported(n: nat, m: Metric, sqrt: real -> real)
    requires n >= 5
    ensures IsTable(Single(m, FirstMissing(n)), [m], n)
    ensures DetectedCounts(Single(m, FirstMissing(n)), [m], n, sqrt)[0] > 0
  {
    FirstMissingFlag(n);
    SingleMark(m, FirstMissing(n), n, sqrt, 0);
  }

  /** The interquartile rule flags the i-th present value. */
  predicate FlaggedAt(col: Column, i: nat) {
    i < |Present(col)| && IqrFlags(Present(col))[i]
  }

  lemma {:induction false} MarkCounts(metrics: seq<Metric>, m: Metric, z: map<Metric, seq<real>>,
                                      iqr: map<Metric, seq<bool>>, i: nat)
    requires m in metrics && IqrMark(iqr, m, i) == 1
    ensures FlagCount(metrics, z, iqr, i) > 0
  {
    var n := |metrics| - 1;
    if metrics[n] != m {
      assert metrics == metrics[..n] + [metrics[n]];
      MarkCounts(metrics[..n], m, z, iqr, i);
    }
  }

  /** A device flagged by one metric and beyond the present values of another makes the detector fail. */
  lemma OutOfReachFails(df: Columns, metrics: seq<Metric>, n: nat, sqrt: real -> real, m: Metric, m': Metric, i: nat)
    requires IsTable(df, metrics, n) && i < n && m in metrics && m' in metrics
    requires FlaggedAt(df[m], i) && i >= |Present(df[m'])|
    ensures !MarksInReach(df, metrics, n, sqrt)
  {
    assert IqrMark(IqrColumns(df, metrics), m, i) == 1;
    MarkCounts(metrics, m, ZColumns(df, metrics, sqrt), IqrColumns(df, metrics), i);
    assert DetectedCounts(df, metrics, n, sqrt)[i] > 0 && !InReach(df, metrics, i);
  }

  lemma PairFails(n: nat, m: Metric, col: Column, m': Metric, col': Column, sqrt: real -> real, i: nat)
    returns (df: Columns)
    requires m != m' && |col| == n && |col'| == n && i < n
    requires FlaggedAt(col, i) && i >= |Present(col')|
    ensures IsTable(df, [m, m'], n) && m in df && m' in df && df[m] == col && df[m'] == col'
    ensures !MarksInReach(df, [m, m'], n, sqrt)
  {
    df := map[m := col, m' := col'];
    assert [m, m'][0] == m && [m, m'][1] == m';
    OutOfReachFails(df, [m, m'], n, sqrt, m, m', i);
  }

  lemma FailingColumns(n: nat) returns (col: Column, col': Column, i: nat)
    requires n >= 5
    ensures |col| == n && |col'| == n && NoneMissing(col) && NoneMissing(col'[1..])
    ensures i < n && FlaggedAt(col, i) && |Present(col')| <= i
  {
    col, col', i := Full(TwoTails(n)), FirstMissing(n), n - 1;
    PresentFull(TwoTails(n));
    TailFlags(n, n - 1);
    PresentAfterMissing(n);
  }

  /** For every fleet of five or more some table with at most one missing value fails. */
  lemma MissingValueFails(n: nat, m: Metric, m': Metric, sqrt: real -> real) returns (df: Columns)
    requires n >= 5 && m != m'
    ensures IsTable(df, [m, m'], n) && m in df && m' in df && NoneMissing(df[m]) && NoneMissing(df[m'][1..])
    ensures !MarksInReach(df, [m, m'], n, sqrt)
  {
    var col, col', i := FailingColumns(n);
    df := PairFails(n, m, col, m', col', sqrt, i);
  }

  // ---------- consequences for every fleet

  lemma {:induction false} NoMarksNoCount(metrics: seq<Metric>, z: map<Metric, seq<real>>,
                                          iqr: map<Metric, seq<bool>>, i: nat)
    requires forall m :: m in metrics ==> ZMark(z, m, i) == 0 && IqrMark(iqr, m, i) == 0
    ensures FlagCount(metrics, z, iqr, i) == 0
  {
    if metrics != [] { NoMarksNoCount(metrics[..|metrics| - 1], z, iqr, i); }
  }

  lemma {:induction false} SameMarksSameCount(metrics: seq<Metric>,
                           z: map<Metric, seq<real>>, iqr: map<Metric, seq<bool>>, i: nat,
                           z': map<Metric, seq<real>>, iqr': map<Metric, seq<bool>>, i': nat)
    requires forall m :: m in metrics ==>
      ZMark(z, m, i) == ZMark(z', m, i') && IqrMark(iqr, m, i) == IqrMark(iqr', m, i')
    ensures FlagCount(metrics, z, iqr, i) == FlagCount(metrics, z', iqr', i')
  {
    if metrics != [] { SameMarksSameCount(metrics[..|metrics| - 1], z, iqr, i, z', iqr', i'); }
  }

  lemma NoZMark(df: Columns, metrics: seq<Metric>, m: Metric, n: nat, sqrt: real -> real, i: nat)
    requires IsTable(df, metrics, n) && m in metrics && n <= 10 && IsSqrt(sqrt)
    ensures ZMark(ZColumns(df, metrics, sqrt), m, i) == 0
  {
    var vals := Present(df[m]);
    if i < |vals| { TenDevicesNeverFlag(vals, sqrt, i); }
  }

  lemma {:induction false} PositiveIff(metrics: seq<Metric>, z: map<Metric, seq<real>>,
                                       iqr: map<Metric, seq<bool>>, i: nat)
    ensures FlagCount(metrics, z, iqr, i) > 0 <==>
      exists m :: m in metrics && ZMark(z, m, i) + IqrMark(iqr, m, i) > 0
  {
    if metrics != [] {
      var n := |metrics| - 1;
      PositiveIff(metrics[..n], z, iqr, i);
      assert metrics == metrics[..n] + [metrics[n]];
    }
  }

  /** More than three sample deviations from the mean, or, from four values on, more than twice the
      interquartile range from the middle of the quartiles. */
  ghost predicate FarOff(v: seq<real>, sqrt: real -> real, i: nat)
    requires i < |v|
  {
    SortCorrect(v);
    var q1, q3 := ValueAt(Sort(v), 25), ValueAt(Sort(v), 75);
    || (|v| >= 2 && Abs(v[i] - Mean(v)) > 3.0 * Std(v, sqrt))
    || (|v| >= 4 && Abs(v[i] - (q1 + q3) / 2.0) > 2.0 * (q3 - q1))
  }

  lemma MarkIff(df: Columns, metrics: seq<Metric>, m: Metric, sqrt: real -> real, i: nat)
    requires (forall c :: c in metrics ==> c in df) && m in metrics && IsSqrt(sqrt)
    ensures ZMark(ZColumns(df, metrics, sqrt), m, i) + IqrMark(IqrColumns(df, metrics), m, i) > 0
        <==> i < |Present(df[m])| && FarOff(Present(df[m]), sqrt, i)
  {
    var v := Present(df[m]);
    if i < |v| {
      ZFlagIff(v, sqrt, i);
      SortCorrect(v);
      IqrFlagIff(v, Sort(v), i);
    }
  }

  lemma ListedIff(df: Columns, metrics: seq<Metric>, n: nat, sqrt: real -> real, i: nat)
    requires IsTable(df, metrics, n) && i < n
    ensures i in FlaggedIndices(DetectedCounts(df, metrics, n, sqrt)) <==>
      FlagCount(metrics, ZColumns(df, metrics, sqrt), IqrColumns(df, metrics), i) > 0
  {
    FlaggedIndicesCorrect(DetectedCounts(df, metrics, n, sqrt));
  }

  /** The detector lists exactly the positions whose value in some analysed metric is far off. */
  lemma ReportedIff(df: Columns, metrics: seq<Metric>, n: nat, sqrt: real -> real, i: nat)
    requires IsTable(df, metrics, n) && i < n && IsSqrt(sqrt)
    ensures i in FlaggedIndices(DetectedCounts(df, metrics, n, sqrt)) <==>
      exists m :: m in metrics && i < |Present(df[m])| && FarOff(Present(df[m]), sqrt, i)
  {
    var z, iqr := ZColumns(df, metrics, sqrt), IqrColumns(df, metrics);
    ListedIff(df, metrics, n, sqrt, i);
    PositiveIff(metrics, z, iqr, i);
    forall m | m in metrics
      ensures ZMark(z, m, i) + IqrMark(iqr, m, i) > 0 <==> i < |Present(df[m])| && FarOff(Present(df[m]), sqrt, i)
    {
      MarkIff(df, metrics, m, sqrt, i);
    }
  }

  /** Three or fewer devices never produce an anomaly, whatever their metrics. */
  lemma ThreeDevicesAreNeverAnomalous(df: Columns, metrics: seq<Metric>, n: nat, sqrt: real -> real)
    requires IsTable(df, metrics, n) && n <= 3 && IsSqrt(sqrt)
    ensures Count(DetectedCounts(df, metrics, n, sqrt), Positive) == 0
  {
    var z, iqr := ZColumns(df, metrics, sqrt), IqrColumns(df, metrics);
    forall i | 0 <= i < n ensures FlagCount(metrics, z, iqr, i) == 0 {
      forall m | m in metrics ensures ZMark(z, m, i) == 0 && IqrMark(iqr, m, i) == 0 {
        NoZMark(df, metrics, m, n, sqrt, i);
      }
      NoMarksNoCount(metrics, z, iqr, i);
    }
    CountNone(DetectedCounts(df, metrics, n, sqrt), Positive);
  }

  /** The detector can report a device of some table of n devices exactly when n >= 4. */
  lemma DetectorCanReportIff(n: nat, sqrt: real -> real)
    requires IsSqrt(sqrt)
    ensures (exists df, metrics :: IsTable(df, metrics, n) && (forall m :: m in metrics ==> m in ANOMALY_METRICS)
                                   && Count(DetectedCounts(df, metrics, n, sqrt), Positive) > 0)
            <==> n >= 4
  {
    if n >= 4 {
      var m := ANOMALY_METRICS[0];
      OutlierIsReported(n, m, sqrt);
      assert IsTable(Single(m, Full(TwoTails(n))), [m], n);
    }
    forall df, metrics | IsTable(df, metrics, n) && Count(DetectedCounts(df, metrics, n, sqrt), Positive) > 0
      ensures n >= 4
    {
      if n <= 3 { ThreeDevicesAreNeverAnomalous(df, metrics, n, sqrt); }
    }
  }

  lemma OutlierIsReported(n: nat, m: Metric, sqrt: real -> real)
    requires n >= 4
    ensures IsTable(Single(m, Full(TwoTails(n))), [m], n)
    ensures Count(DetectedCounts(Single(m, Full(TwoTails(n))), [m], n, sqrt), Positive) > 0
  {
    PresentFull(TwoTails(n));
    TailFlags(n, 0);
    SingleMark(m, Full(TwoTails(n)), n, sqrt, 0);
    var counts := DetectedCounts(Single(m, Full(TwoTails(n))), [m], n, sqrt);
    FlaggedIndicesCorrect(counts);
    assert 0 in FlaggedIndices(counts);
  }

  /** With ten or fewer devices, a count equals the number of interquartile marks alone. */
  lemma TenDevicesOnlyIqr(df: Columns, metrics: seq<Metric>, n: nat, sqrt: real -> real, i: nat)
    requires IsTable(df, metrics, n) && i < n <= 10 && IsSqrt(sqrt)
    ensures FlagCount(metrics, ZColumns(df, metrics, sqrt), IqrColumns(df, metrics), i)
         == FlagCount(metrics, map[], IqrColumns(df, metrics), i)
  {
    var z, iqr := ZColumns(df, metrics, sqrt), IqrColumns(df, metrics);
    forall m | m in metrics ensures ZMark(z, m, i) == 0 {
      NoZMark(df, metrics, m, n, sqrt, i);
    }
    SameMarksSameCount(metrics, z, iqr, i, map[], iqr, i);
  }

  /** Each metric measured in other units: scaled by its own non-zero factor and shifted. */
  ghost predicate IsRescaled(df: Columns, df': Columns, metrics: seq<Metric>,
                             scale: Metric -> real, shift: Metric -> real) {
    forall m :: m in metrics ==>
      m in df && m in df' && scale(m) != 0.0 && df'[m] == Rescaled(df[m], scale(m), shift(m))
  }

  function Rescaled(col: Column, scale: real, shift: real): (w: Column)
    ensures |w| == |col|
  {
    seq(|col|, i requires 0 <= i < |col| => if col[i].None? then None else Some(Line(scale, col[i].value, shift)))
  }

  lemma {:induction false} PresentRescaled(col: Column, scale: real, shift: real)
    ensures Present(Rescaled(col, scale, shift)) == Affine(Present(col), scale, shift)
  {
    if col != [] {
      assert Rescaled(col, scale, shift)[1..] == Rescaled(col[1..], scale, shift);
      PresentRescaled(col[1..], scale, shift);
    }
  }

  /** Changing the units of any metrics changes no device's count. */
  lemma UnitsDoNotMatter(df: Columns, df': Columns, metrics: seq<Metric>, n: nat, sqrt: real -> real,
                         scale: Metric -> real, shift: Metric -> real)
    requires IsTable(df, metrics, n) && IsSqrt(sqrt) && IsRescaled(df, df', metrics, scale, shift)
    ensures IsTable(df', metrics, n)
    ensures DetectedCounts(df', metrics, n, sqrt) == DetectedCounts(df, metrics, n, sqrt)
  {
    var z, iqr := ZColumns(df, metrics, sqrt), IqrColumns(df, metrics);
    var z', iqr' := ZColumns(df', metrics, sqrt), IqrColumns(df', metrics);
    forall i | 0 <= i < n ensures FlagCount(metrics, z', iqr', i) == FlagCount(metrics, z, iqr, i) {
      forall m | m in metrics ensures ZMark(z', m, i) == ZMark(z, m, i) && IqrMark(iqr', m, i) == IqrMark(iqr, m, i) {
        PresentRescaled(df[m], scale(m), shift(m));
        AffineInvariance(Present(df[m]), sqrt, scale(m), shift(m));
        IqrAffineInvariance(Present(df[m]), scale(m), shift(m));
      }
      SameMarksSameCount(metrics, z', iqr', i, z, iqr, i);
    }
  }

  ghost predicate IsReordered(df: Columns, df': Columns, metrics: seq<Metric>, n: nat, p: seq<nat>)
    requires IsTable(df, metrics, n) && IsPermutation(p, n)
  {
    PermutationInRange(p, n);
    forall m :: m in metrics ==> m in df' && df'[m] == Reorder(df[m], p)
  }

  lemma PresentReordered(col: Column, col': Column, p: seq<nat>)
    requires NoneMissing(col) && (forall i :: 0 <= i < |p| ==> p[i] < |col|) && col' == Reorder(col, p)
    ensures |Present(col)| == |col| && |Present(col')| == |p| && Present(col') == Reorder(Present(col), p)
  {
    PresentOfFull(col);
    PresentOfFull(col');
  }

  lemma ScoresReordered(col: Column, col': Column, sqrt: real -> real, p: seq<nat>)
    requires NoneMissing(col) && IsPermutation(p, |col|)
    requires (forall i :: 0 <= i < |p| ==> p[i] < |col|) && col' == Reorder(col, p)
    ensures |p| == |col| == |Present(col)| == |Present(col')|
    ensures forall i :: 0 <= i < |p| ==>
      && ZScoresOf(Present(col'), sqrt)[i] == ZScoresOf(Present(col), sqrt)[p[i]]
      && IqrFlags(Present(col'))[i] == IqrFlags(Present(col))[p[i]]
  {
    PermutationInRange(p, |col|);
    PresentReordered(col, col', p);
    ReorderInvariance(Present(col), sqrt, p);
    IqrReorderInvariance(Present(col), p);
  }

  /** In a complete table, listing the devices in another order lists their counts in that order. */
  lemma OrderDoesNotMatter(df: Columns, df': Columns, metrics: seq<Metric>, n: nat, sqrt: real -> real, p: seq<nat>)
    requires IsTable(df, metrics, n) && IsPermutation(p, n) && IsReordered(df, df', metrics, n, p)
    requires Complete(df, metrics)
    ensures |p| == n && IsTable(df', metrics, n)
    ensures forall i :: 0 <= i < n ==>
      p[i] < n && DetectedCounts(df', metrics, n, sqrt)[i] == DetectedCounts(df, metrics, n, sqrt)[p[i]]
  {
    PermutationInRange(p, n);
    var z, iqr := ZColumns(df, metrics, sqrt), IqrColumns(df, metrics);
    var z', iqr' := ZColumns(df', metrics, sqrt), IqrColumns(df', metrics);
    forall i | 0 <= i < n ensures FlagCount(metrics, z', iqr', i) == FlagCount(metrics, z, iqr, p[i]) {
      forall m | m in metrics
        ensures ZMark(z', m, i) == ZMark(z, m, p[i]) && IqrMark(iqr', m, i) == IqrMark(iqr, m, p[i])
      {
        ScoresReordered(df[m], df'[m], sqrt, p);
      }
      SameMarksSameCount(metrics, z', iqr', i, z, iqr, p[i]);
    }
  }
}

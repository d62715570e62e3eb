/** The IQR outlier rule applied to the final tumor volumes of four
    regimens: quartiles by linear interpolation, fences at 1.5 IQR below the
    first and above the third quartile, and the values strictly outside. */
module OutlierAnalysis {
  import opened Records
  import opened Quantiles
  import opened LastTimepoint

  /** treatment_list */
  const TREATMENTS: seq<string> := ["Capomulin", "Ramicane", "Infubinol", "Ceftamin"]

  /** The quartiles of one regimen's final volumes and the fences built on
      them. */
  datatype Bounds = Bounds(lowerq: real, median: real, upperq: real, iqr: real,
                           lowerBound: real, upperBound: real)

  /** What the loop reports for one regimen; `bounds` is None where pandas
      gives NaN quartiles, that is for a regimen with no final volume. */
  datatype Report = Report(drug: string, bounds: Option<Bounds>, outliers: seq<real>)

  /** final_tumor_vol: the Tumor Volume of each `merged_data` entry on
      regimen `drug`, in entry order. An entry without metadata has a NaN
      regimen, which equals no drug. */
  function FinalVolumes(merged: seq<FinalRow>, drug: string): (vols: seq<real>)
    ensures |vols| <= |merged|
  {
    if merged == [] then []
    else
      (if merged[0].row.Some? && Regimen(merged[0].row.value) == Some(drug)
       then [merged[0].row.value.tumorVolume] else []) + FinalVolumes(merged[1..], drug)
  }

  /** A volume is selected exactly when some entry on the regimen has it. */
  lemma {:induction false} FinalVolumesMembership(merged: seq<FinalRow>, drug: string, v: real)
    ensures v in FinalVolumes(merged, drug) <==>
            exists k :: 0 <= k < |merged| && merged[k].row.Some? &&
                        Regimen(merged[k].row.value) == Some(drug) && merged[k].row.value.tumorVolume == v
  {
    if merged != [] {
      FinalVolumesMembership(merged[1..], drug, v);
      assert forall k :: 0 < k < |merged| ==> merged[k] == merged[1..][k - 1];
      if v in FinalVolumes(merged[1..], drug) {
        var k :| 0 <= k < |merged[1..]| && merged[1..][k].row.Some? &&
                 Regimen(merged[1..][k].row.value) == Some(drug) && merged[1..][k].row.value.tumorVolume == v;
        assert merged[k + 1] == merged[1..][k];
      }
    }
  }

  /** The selection works entry by entry: the volumes selected from a
      concatenation are those selected from the first part followed by those
      selected from the second. With `FinalVolumesOne` this fixes the
      selection exactly: one volume per matching entry, in entry order, so
      repeated volumes are kept. */
  lemma {:induction false} FinalVolumesAppend(a: seq<FinalRow>, b: seq<FinalRow>, drug: string)
    ensures FinalVolumes(a + b, drug) == FinalVolumes(a, drug) + FinalVolumes(b, drug)
  {
    if a == [] {
      assert a + b == b;
    } else {
      var ab := a + b;
      assert ab[0] == a[0];
      assert ab[1..] == a[1..] + b;
      var head := if a[0].row.Some? && Regimen(a[0].row.value) == Some(drug)
                  then [a[0].row.value.tumorVolume] else [];
      assert FinalVolumes(ab, drug) == head + FinalVolumes(a[1..] + b, drug);
      assert FinalVolumes(a, drug) == head + FinalVolumes(a[1..], drug);
      FinalVolumesAppend(a[1..], b, drug);
    }
  }

  /** A single entry contributes its volume exactly when it carries a row on
      the regimen. */
  lemma FinalVolumesOne(e: FinalRow, drug: string)
    ensures FinalVolumes([e], drug) ==
            if e.row.Some? && Regimen(e.row.value) == Some(drug) then [e.row.value.tumorVolume] else []
  {
    assert [e][1..] == [];
  }

  /** The number of times a volume is selected is the number of entries on
      the regimen that carry it. */
  lemma {:induction false} FinalVolumesCount(merged: seq<FinalRow>, drug: string, v: real)
    ensures multiset(FinalVolumes(merged, drug))[v] == CountEntries(merged, drug, v)
  {
    if merged != [] {
      FinalVolumesCount(merged[1..], drug, v);
    }
  }

  /** The entries on regimen `drug` whose row has tumour volume `v`. */
  function CountEntries(merged: seq<FinalRow>, drug: string, v: real): nat
  {
    if merged == [] then 0
    else
      (if merged[0].row.Some? && Regimen(merged[0].row.value) == Some(drug) &&
          merged[0].row.value.tumorVolume == v then 1 else 0) + CountEntries(merged[1..], drug, v)
  }

  /** The quartiles and fences of a group, None for an empty group (pandas
      gives NaN quartiles there): Q1, the median and Q3 are the 0.25, 0.5 and
      0.75 quantiles, and the fences lie 1.5 IQR beyond the quartiles. */
  function IqrBounds(vols: seq<real>): (b: Option<Bounds>)
    ensures b.None? <==> vols == []
    ensures b.Some? ==> b.value.lowerq == Quantile(vols, 0.25) && b.value.median == Quantile(vols, 0.5) &&
                        b.value.upperq == Quantile(vols, 0.75)
    ensures b.Some? ==> b.value.iqr == b.value.upperq - b.value.lowerq &&
                        b.value.lowerBound == b.value.lowerq - 1.5 * b.value.iqr &&
                        b.value.upperBound == b.value.upperq + 1.5 * b.value.iqr
  {
    if vols == [] then None
    else
      var lowerq := Quantile(vols, 0.25);
      var median := Quantile(vols, 0.5);
      var upperq := Quantile(vols, 0.75);
      var iqr := upperq - lowerq;
      Some(Bounds(lowerq, median, upperq, iqr, lowerq - 1.5 * iqr, upperq + 1.5 * iqr))
  }

  /** The bounds of a non-empty group are ordered: lower fence <= Q1 <=
      median <= Q3 <= upper fence, the IQR is never negative, and Q1 and Q3
      lie between the smallest and the largest volume. */
  lemma IqrBoundsOrdered(vols: seq<real>)
    requires vols != []
    ensures var b := IqrBounds(vols).value;
            b.iqr >= 0.0 &&
            b.lowerBound <= b.lowerq <= b.median <= b.upperq <= b.upperBound &&
            Min(vols) <= b.lowerq && b.upperq <= Max(vols)
  {
    QuantileMonotone(vols, 0.25, 0.5);
    QuantileMonotone(vols, 0.5, 0.75);
    QuantileRange(vols, 0.25);
    QuantileRange(vols, 0.75);
  }

  /** The values strictly below `lo` or strictly above `hi`, in input order:
      `s.loc[(s < lo) | (s > hi)]`. */
  function Outside(vols: seq<real>, lo: real, hi: real): (r: seq<real>)
    ensures |r| <= |vols|
  {
    if vols == [] then []
    else (if vols[0] < lo || vols[0] > hi then [vols[0]] else []) + Outside(vols[1..], lo, hi)
  }

  /** A value is flagged exactly when it is in the group and strictly outside
      the fences; no value within [lo, hi] is flagged. */
  lemma {:induction false} OutsideMembership(vols: seq<real>, lo: real, hi: real, x: real)
    ensures x in Outside(vols, lo, hi) <==> x in vols && (x < lo || x > hi)
  {
    if vols != [] {
      OutsideMembership(vols[1..], lo, hi, x);
      assert vols == [vols[0]] + vols[1..];
    }
  }

  /** A group whose volumes all lie within the fences has no outliers. */
  lemma {:induction false} OutsideNone(vols: seq<real>, lo: real, hi: real)
    requires forall i :: 0 <= i < |vols| ==> lo <= vols[i] <= hi
    ensures Outside(vols, lo, hi) == []
  {
    if vols != [] {
      OutsideNone(vols[1..], lo, hi);
    }
  }

  /** Flagging keeps the input order: flagging a concatenation is the
      concatenation of the flagged parts. */
  lemma {:induction false} OutsideAppend(a: seq<real>, b: seq<real>, lo: real, hi: real)
    ensures Outside(a + b, lo, hi) == Outside(a, lo, hi) + Outside(b, lo, hi)
  {
    if a == [] {
      assert a + b == b;
    } else {
      var ab := a + b;
      assert ab[0] == a[0];
      assert ab[1..] == a[1..] + b;
      var head := if a[0] < lo || a[0] > hi then [a[0]] else [];
      assert Outside(ab, lo, hi) == head + Outside(a[1..] + b, lo, hi);
      assert Outside(a, lo, hi) == head + Outside(a[1..], lo, hi);
      OutsideAppend(a[1..], b, lo, hi);
    }
  }

  /** The outliers of a group under its bounds; comparisons with NaN bounds
      are false, so an empty group has none. */
  function Outliers(vols: seq<real>, b: Option<Bounds>): (r: seq<real>)
    ensures |r| <= |vols|
    ensures b.None? ==> r == []
  {
    if b.None? then [] else Outside(vols, b.value.lowerBound, b.value.upperBound)
  }

  /** What the loop reports for a regimen whose final volumes are `vols`. */
  function Analysis(drug: string, vols: seq<real>): Report
  {
    Report(drug, IqrBounds(vols), Outliers(vols, IqrBounds(vols)))
  }

  /** A report names its regimen and carries the group's bounds, and a
      volume is flagged exactly when it is in the group, the group has
      bounds, and the volume lies strictly outside them. */
  lemma AnalysisFlags(drug: string, vols: seq<real>, x: real)
    ensures Analysis(drug, vols).drug == drug && Analysis(drug, vols).bounds == IqrBounds(vols)
    ensures x in Analysis(drug, vols).outliers <==>
            x in vols && vols != [] &&
            (x < IqrBounds(vols).value.lowerBound || x > IqrBounds(vols).value.upperBound)
  {
    var b := IqrBounds(vols);
    if b.Some? {
      OutsideMembership(vols, b.value.lowerBound, b.value.upperBound, x);
    }
  }

  /** One pass of the loop body: the quartiles by `quantile([.25, .5, .75])`,
      the IQR, the fences, and the volumes outside them. */
  method AnalyseRegimen(drug: string, vols: seq<real>) returns (report: Report)
    ensures report == Analysis(drug, vols)
  {
    var bounds: Option<Bounds> := None;
    var outliers: seq<real> := [];
    if |vols| > 0 {
      var lowerq := Quantile(vols, 0.25);
      var median := Quantile(vols, 0.5);
      var upperq := Quantile(vols, 0.75);
      var iqr := upperq - lowerq;
      var lowerBound := lowerq - (1.5 * iqr);
      var upperBound := upperq + (1.5 * iqr);
      bounds := Some(Bounds(lowerq, median, upperq, iqr, lowerBound, upperBound));
      outliers := Outside(vols, lowerBound, upperBound);
    }
    report := Report(drug, bounds, outliers);
  }

  /** The loop over treatment_list: for each regimen in turn, append its
      final volumes to tumor_vol_list, compute its quartiles and fences, and
      report the volumes strictly outside the fences. */
  method FindOutliers(merged: seq<FinalRow>, treatments: seq<string>)
      returns (tumorVolList: seq<seq<real>>, reports: seq<Report>)
    ensures |tumorVolList| == |treatments| && |reports| == |treatments|
    ensures forall k :: 0 <= k < |treatments| ==> tumorVolList[k] == FinalVolumes(merged, treatments[k])
    ensures forall k :: 0 <= k < |treatments| ==> reports[k] == Analysis(treatments[k], tumorVolList[k])
  {
    tumorVolList := [];
    reports := [];
    for i := 0 to |treatments|
      invariant Done(merged, treatments[..i], tumorVolList, reports)
    {
      var drug := treatments[i];
      var finalTumorVol := FinalVolumes(merged, drug);
      var report := AnalyseRegimen(drug, finalTumorVol);
      DoneExtend(merged, treatments[..i], tumorVolList, reports, drug, finalTumorVol, report);
      assert treatments[..i] + [drug] == treatments[..i + 1];
      tumorVolList := tumorVolList + [finalTumorVol];
      reports := reports + [report];
    }
    assert treatments[..|treatments|] == treatments;
  }

  /** The loop's invariant: one volume list and one report per regimen seen
      so far, position by position. */
  ghost predicate Done(merged: seq<FinalRow>, drugs: seq<string>, lists: seq<seq<real>>, reports: seq<Report>)
  {
    |lists| == |drugs| && |reports| == |drugs| &&
    (forall k :: 0 <= k < |drugs| ==> lists[k] == FinalVolumes(merged, drugs[k])) &&
    (forall k :: 0 <= k < |drugs| ==> reports[k] == Analysis(drugs[k], lists[k]))
  }

  /** One more pass of the loop keeps its invariant. */
  lemma DoneExtend(merged: seq<FinalRow>, drugs: seq<string>, lists: seq<seq<real>>, reports: seq<Report>,
                   drug: string, vols: seq<real>, report: Report)
    requires Done(merged, drugs, lists, reports)
    requires vols == FinalVolumes(merged, drug) && report == Analysis(drug, vols)
    ensures Done(merged, drugs + [drug], lists + [vols], reports + [report])
  {
    var d, l, r := drugs + [drug], lists + [vols], reports + [report];
    forall k | 0 <= k < |d| ensures l[k] == FinalVolumes(merged, d[k]) && r[k] == Analysis(d[k], l[k]) {
      if k < |drugs| {
        assert d[k] == drugs[k] && l[k] == lists[k] && r[k] == reports[k];
      }
    }
  }

  /** The worked example [10, 12, 13, 14, 15, 16, 100]: quartiles 12.5, 14
      and 15.5, IQR 3, fences 8 and 20, and only 100 outside them. */
  lemma WorkedExample(v: seq<real>)
    requires v == [10.0, 12.0, 13.0, 14.0, 15.0, 16.0, 100.0]
    ensures IqrBounds(v) == Some(Bounds(12.5, 14.0, 15.5, 3.0, 8.0, 20.0))
    ensures Outliers(v, IqrBounds(v)) == [100.0]
  {
    ExampleBounds(v);
    ExampleFlags(v);
  }

  lemma ExampleBounds(v: seq<real>)
    requires v == [10.0, 12.0, 13.0, 14.0, 15.0, 16.0, 100.0]
    ensures IqrBounds(v) == Some(Bounds(12.5, 14.0, 15.5, 3.0, 8.0, 20.0))
  {
    assert Sorted(v);
    ExampleQuartiles(v);
  }

  lemma ExampleFlags(v: seq<real>)
    requires v == [10.0, 12.0, 13.0, 14.0, 15.0, 16.0, 100.0]
    ensures Outside(v, 8.0, 20.0) == [100.0]
  {
    assert Outside(v[6..], 8.0, 20.0) == [100.0];
    OutsideNone(v[..6], 8.0, 20.0);
    assert v == v[..6] + v[6..];
    OutsideAppend(v[..6], v[6..], 8.0, 20.0);
  }

  lemma ExampleQuartiles(v: seq<real>)
    requires Sorted(v) && |v| == 7
    requires v[1] == 12.0 && v[2] == 13.0 && v[3] == 14.0 && v[4] == 15.0 && v[5] == 16.0
    ensures Quantile(v, 0.25) == 12.5 && Quantile(v, 0.5) == 14.0 && Quantile(v, 0.75) == 15.5
  {
    SortValuesOfSorted(v);
    ExampleQuartile(v, 0.25, 1.5, 1);
    ExampleQuartile(v, 0.5, 3.0, 3);
    ExampleQuartile(v, 0.75, 4.5, 4);
  }

  lemma ExampleQuartile(v: seq<real>, q: real, h: real, lo: int)
    requires SortValues(v) == v && |v| == 7 && 0.0 <= q <= 1.0
    requires h == 6.0 * q && h.Floor == lo
    ensures Quantile(v, q) == Interpolate(v, h)
  {
    assert Position(|v| - 1, q) == h;
  }
}

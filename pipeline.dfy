/** The analysis end to end: join the two tables, drop every mouse with a
    duplicated (Mouse ID, Timepoint) pair, count rows per regimen, pick each
    mouse's row at its last Timepoint, and run the outlier loop over the four
    regimens of interest. */
module Pipeline {
  import opened Records
  import opened Join
  import opened Dedup
  import opened Counts
  import opened LastTimepoint
  import opened OutlierAnalysis

  /** The cleaned combined table of a study. */
  function CleanStudy(results: seq<Measurement>, meta: seq<Metadata>): seq<Row>
  {
    Clean(LeftJoin(results, meta))
  }

  /** After cleaning, the last-Timepoint table has exactly one entry per
      remaining mouse, in ascending Mouse ID order; each entry is a row of the
      cleaned table at that mouse's greatest Timepoint, and no mouse with a
      duplicated (Mouse ID, Timepoint) pair appears in it. */
  lemma FinalTableOnePerMouse(results: seq<Measurement>, meta: seq<Metadata>)
    ensures var clean := CleanStudy(results, meta);
            var merged := LastTimepointRows(clean);
            |merged| == |MouseKeys(clean)| &&
            (forall k :: 0 <= k < |merged| ==> merged[k].mouseId == MouseKeys(clean)[k])
    ensures var merged := LastTimepointRows(CleanStudy(results, meta));
            forall k :: 0 <= k < |merged| ==>
              merged[k].row.Some? && merged[k].row.value in CleanStudy(results, meta) &&
              merged[k].mouseId !in DuplicatedIds(LeftJoin(results, meta))
  {
    var combined := LeftJoin(results, meta);
    var clean := CleanStudy(results, meta);
    CleanHasUniqueKeys(combined);
    OneRowPerMouse(clean);
    LastTimepointRowsMatched(clean);
  }

  /** The whole notebook on two tables: the combined table, the duplicated
      Mouse IDs, the cleaned table, the counts per regimen, the
      last-Timepoint table, and the outlier loop over treatment_list. */
  method RunStudy(results: seq<Measurement>, meta: seq<Metadata>)
      returns (counts: seq<RegimenCount>, merged: seq<FinalRow>,
               tumorVolList: seq<seq<real>>, reports: seq<Report>)
    ensures counts == ValueCounts(CleanStudy(results, meta))
    ensures merged == LastTimepointRows(CleanStudy(results, meta))
    ensures |tumorVolList| == |TREATMENTS| && |reports| == |TREATMENTS|
    ensures forall k :: 0 <= k < |TREATMENTS| ==>
              tumorVolList[k] == FinalVolumes(merged, TREATMENTS[k]) &&
              reports[k] == Analysis(TREATMENTS[k], tumorVolList[k])
  {
    var combined := LeftJoin(results, meta);
    var clean := Clean(combined);
    counts := ValueCounts(clean);
    merged := LastTimepointRows(clean);
    tumorVolList, reports := FindOutliers(merged, TREATMENTS);
  }

  /** Mouse m1 of group A weighing 20 g, measured at Timepoints 0 and 5:
      the combined table has two rows, both carrying group A and 20 g. */
  lemma JoinExample(sex: Sex, age: int)
    ensures var meta := [Metadata("m1", Attributes("A", sex, age, 20.0))];
            var results := [Measurement("m1", 0, 45.0, 0), Measurement("m1", 5, 43.0, 0)];
            var combined := LeftJoin(results, meta);
            |combined| == 2 &&
            forall i :: 0 <= i < 2 ==>
              combined[i].attrs.Some? && combined[i].attrs.value.regimen == "A" &&
              combined[i].attrs.value.weight == 20.0
  {
    var meta := [Metadata("m1", Attributes("A", sex, age, 20.0))];
    var results := [Measurement("m1", 0, 45.0, 0), Measurement("m1", 5, 43.0, 0)];
    LeftJoinUniqueKeys(results, meta);
  }

  /** Mouse g989 has two rows at Timepoint 5 with different volumes: every
      g989 row is dropped, at every Timepoint, and the other mouse stays. */
  lemma DedupExample(a: Attributes)
    ensures var rows := [Row("g989", 0, 45.0, 0, Some(a)), Row("g989", 5, 48.0, 0, Some(a)),
                         Row("g989", 5, 47.0, 0, Some(a)), Row("a203", 0, 45.0, 0, Some(a))];
            DuplicatedIds(rows) == ["g989"] && Clean(rows) == [rows[3]]
  {
    var rows := [Row("g989", 0, 45.0, 0, Some(a)), Row("g989", 5, 48.0, 0, Some(a)),
                 Row("g989", 5, 47.0, 0, Some(a)), Row("a203", 0, 45.0, 0, Some(a))];
    ExampleDuplicates(rows);
    ExampleDropped(rows);
  }

  lemma ExampleDuplicates(rows: seq<Row>)
    requires |rows| == 4 && forall i :: 0 <= i < 3 ==> rows[i].mouseId == "g989"
    requires rows[3].mouseId == "a203"
    requires rows[0].timepoint == 0 && rows[1].timepoint == 5 && rows[2].timepoint == 5
    ensures DuplicatedIds(rows) == ["g989"]
  {
    var r2, r3 := rows[..2], rows[..3];
    assert r2[..1] == [rows[0]] && r3[..2] == r2 && rows[..3] == r3;
    assert !IsDuplicateAt(r2, 1);
    assert DuplicateRowIds(r2) == [];
    assert IsDuplicateAt(r3, 2) by {
      assert SameKey(r3[1], r3[2]);
    }
    assert DuplicateRowIds(r3) == ["g989"];
    assert !IsDuplicateAt(rows, 3);
    assert DuplicateRowIds(rows) == ["g989"];
    var ids := ["g989"];
    assert ids[..0] == [];
  }

  lemma ExampleDropped(rows: seq<Row>)
    requires |rows| == 4 && forall i :: 0 <= i < 3 ==> rows[i].mouseId == "g989"
    requires rows[3].mouseId == "a203"
    ensures DropMice(rows, ["g989"]) == [rows[3]]
  {
    var ids := ["g989"];
    assert DropMice(rows[3..], ids) == [rows[3]] by {
      assert rows[3..][1..] == [];
    }
    assert DropMice(rows[2..], ids) == [rows[3]] by {
      assert rows[2..][1..] == rows[3..];
    }
    assert DropMice(rows[1..], ids) == [rows[3]] by {
      assert rows[1..][1..] == rows[2..];
    }
  }
}

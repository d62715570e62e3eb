/** The number of rows per Drug Regimen in the cleaned table, as pandas
    `value_counts` gives them: one entry per regimen present, rows whose
    regimen is missing (NaN) not counted. */
module Counts {
  import opened Records

  /** The Drug Regimen column of a table. */
  function RegimenColumn(rows: seq<Row>): (col: seq<Option<string>>)
    ensures |col| == |rows|
    ensures forall i :: 0 <= i < |rows| ==> col[i] == Regimen(rows[i])
  {
    seq(|rows|, i requires 0 <= i < |rows| => Regimen(rows[i]))
  }

  /** The number of rows on regimen g. */
  function CountRegimen(rows: seq<Row>, g: string): nat
  {
    if rows == [] then 0
    else CountRegimen(rows[..|rows| - 1], g) + (if Regimen(rows[|rows| - 1]) == Some(g) then 1 else 0)
  }

  /** The number of rows that carry a regimen at all (metadata was found). */
  function MatchedRows(rows: seq<Row>): nat
  {
    if rows == [] then 0
    else MatchedRows(rows[..|rows| - 1]) + (if rows[|rows| - 1].attrs.Some? then 1 else 0)
  }

  /** The regimens present, in order of first appearance. */
  function Regimens(rows: seq<Row>): (gs: seq<string>)
    ensures NoDup(gs)
    ensures forall g :: g in gs <==> Some(g) in RegimenColumn(rows)
  {
    if rows == [] then []
    else
      var n := |rows| - 1;
      var u := Regimens(rows[..n]);
      assert RegimenColumn(rows) == RegimenColumn(rows[..n]) + [Regimen(rows[n])];
      if rows[n].attrs.Some? && rows[n].attrs.value.regimen !in u then u + [rows[n].attrs.value.regimen] else u
  }

  datatype RegimenCount = RegimenCount(regimen: string, count: nat)

  /** counts = clean_study_data_complete["Drug Regimen"].value_counts() */
  function ValueCounts(rows: seq<Row>): (r: seq<RegimenCount>)
    ensures |r| == |Regimens(rows)|
  {
    var gs := Regimens(rows);
    seq(|gs|, k requires 0 <= k < |gs| => RegimenCount(gs[k], CountRegimen(rows, gs[k])))
  }

  /** The sum of a column of counts. */
  function Total(counts: seq<RegimenCount>): nat
  {
    if counts == [] then 0 else counts[0].count + Total(counts[1..])
  }

  /** CountRegimen counts the occurrences of Some(g) in the regimen column. */
  lemma {:induction false} CountRegimenIsMultiplicity(rows: seq<Row>, g: string)
    ensures CountRegimen(rows, g) == multiset(RegimenColumn(rows))[Some(g)]
  {
    if rows != [] {
      var n := |rows| - 1;
      CountRegimenIsMultiplicity(rows[..n], g);
      assert RegimenColumn(rows) == RegimenColumn(rows[..n]) + [Regimen(rows[n])];
    }
  }

  /** Each regimen is listed once, exactly the regimens present are listed,
      and each count is the positive number of rows on that regimen. */
  lemma ValueCountsEntries(rows: seq<Row>)
    ensures forall k, l :: 0 <= k < l < |ValueCounts(rows)| ==> ValueCounts(rows)[k].regimen != ValueCounts(rows)[l].regimen
    ensures forall g :: (exists k :: 0 <= k < |ValueCounts(rows)| && ValueCounts(rows)[k].regimen == g) <==>
                        Some(g) in RegimenColumn(rows)
    ensures forall k :: 0 <= k < |ValueCounts(rows)| ==>
              ValueCounts(rows)[k].count == multiset(RegimenColumn(rows))[Some(ValueCounts(rows)[k].regimen)] &&
              ValueCounts(rows)[k].count > 0
  {
    var gs := Regimens(rows);
    var vc := ValueCounts(rows);
    forall k | 0 <= k < |vc|
      ensures vc[k].count == multiset(RegimenColumn(rows))[Some(vc[k].regimen)] && vc[k].count > 0
    {
      CountRegimenIsMultiplicity(rows, gs[k]);
      assert gs[k] in gs;
    }
    forall g | Some(g) in RegimenColumn(rows)
      ensures exists k :: 0 <= k < |vc| && vc[k].regimen == g
    {
      var k :| 0 <= k < |gs| && gs[k] == g;
      assert vc[k].regimen == g;
    }
    forall k | 0 <= k < |vc| ensures Some(vc[k].regimen) in RegimenColumn(rows) {
      assert gs[k] in gs;
    }
  }

  /** The sum of CountRegimen over a list of distinct regimens that holds
      every regimen present. */
  function SumOver(rows: seq<Row>, gs: seq<string>): nat
  {
    if gs == [] then 0 else CountRegimen(rows, gs[0]) + SumOver(rows, gs[1..])
  }

  /** Dropping the last row lowers the sum over a repeat-free list of
      regimens by one exactly when that row's regimen is listed. */
  lemma {:induction false} SumOverStep(rows: seq<Row>, gs: seq<string>)
    requires NoDup(gs) && |rows| > 0
    ensures var last := Regimen(rows[|rows| - 1]);
            SumOver(rows, gs) ==
            SumOver(rows[..|rows| - 1], gs) + (if last.Some? && last.value in gs then 1 else 0)
  {
    if gs != [] {
      assert NoDup(gs[1..]) by {
        forall i, j | 0 <= i < j < |gs[1..]| ensures gs[1..][i] != gs[1..][j] {
          assert gs[1..][i] == gs[i + 1] && gs[1..][j] == gs[j + 1];
        }
      }
      SumOverStep(rows, gs[1..]);
      var last := Regimen(rows[|rows| - 1]);
      if last == Some(gs[0]) {
        assert gs[0] !in gs[1..] by {
          forall j | 0 <= j < |gs[1..]| ensures gs[1..][j] != gs[0] {
            assert gs[1..][j] == gs[j + 1];
          }
        }
      }
      if last.Some? && last.value in gs[1..] {
        assert last.value in gs;
      }
      if last.Some? && last.value in gs && last.value != gs[0] {
        assert last.value in gs[1..];
      }
    }
  }

  /** Summing the per-regimen counts over any repeat-free list of regimens
      that covers every regimen present gives the number of matched rows. */
  lemma {:induction false} SumOverCovering(rows: seq<Row>, gs: seq<string>)
    requires NoDup(gs)
    requires forall i :: 0 <= i < |rows| && rows[i].attrs.Some? ==> rows[i].attrs.value.regimen in gs
    ensures SumOver(rows, gs) == MatchedRows(rows)
  {
    if rows == [] {
      SumOverEmpty(gs);
    } else {
      var n := |rows| - 1;
      SumOverStep(rows, gs);
      SumOverCovering(rows[..n], gs);
    }
  }

  lemma {:induction false} SumOverEmpty(gs: seq<string>)
    ensures SumOver([], gs) == 0
  {
    if gs != [] {
      SumOverEmpty(gs[1..]);
    }
  }

  lemma {:induction false} TotalIsSumOver(rows: seq<Row>, gs: seq<string>)
    ensures Total(seq(|gs|, k requires 0 <= k < |gs| => RegimenCount(gs[k], CountRegimen(rows, gs[k])))) == SumOver(rows, gs)
  {
    var vc := seq(|gs|, k requires 0 <= k < |gs| => RegimenCount(gs[k], CountRegimen(rows, gs[k])));
    if gs != [] {
      TotalIsSumOver(rows, gs[1..]);
      var rest := seq(|gs[1..]|, k requires 0 <= k < |gs[1..]| => RegimenCount(gs[1..][k], CountRegimen(rows, gs[1..][k])));
      assert vc[1..] == rest;
    }
  }

  /** The per-regimen counts add up to the number of rows that carry a
      regimen; when every row found its metadata, to the number of rows. */
  lemma CountsSumToRows(rows: seq<Row>)
    ensures Total(ValueCounts(rows)) == MatchedRows(rows)
    ensures (forall i :: 0 <= i < |rows| ==> rows[i].attrs.Some?) ==> Total(ValueCounts(rows)) == |rows|
  {
    var gs := Regimens(rows);
    forall i | 0 <= i < |rows| && rows[i].attrs.Some? ensures rows[i].attrs.value.regimen in gs {
      assert RegimenColumn(rows)[i] == Some(rows[i].attrs.value.regimen);
    }
    SumOverCovering(rows, gs);
    TotalIsSumOver(rows, gs);
    MatchedAll(rows);
  }

  /** When every row carries metadata, every row is matched. */
  lemma {:induction false} MatchedAll(rows: seq<Row>)
    ensures (forall i :: 0 <= i < |rows| ==> rows[i].attrs.Some?) ==> MatchedRows(rows) == |rows|
  {
    if rows != [] {
      MatchedAll(rows[..|rows| - 1]);
    }
  }
}

/** The selection of each mouse's row at its last (greatest) Timepoint: a
    groupby-max over Mouse ID, then a left merge back onto the cleaned table
    on (Mouse ID, Timepoint). */
module LastTimepoint {
  import opened Records
  import opened StrOrder
  import Dedup

  /** The greatest Timepoint recorded for mouse `id`. */
  function MaxTimepoint(rows: seq<Row>, id: string): (t: int)
    requires HasMouse(rows, id)
    ensures exists i :: 0 <= i < |rows| && rows[i].mouseId == id && rows[i].timepoint == t
    ensures forall i :: 0 <= i < |rows| && rows[i].mouseId == id ==> rows[i].timepoint <= t
  {
    var tail := rows[1..];
    assert forall i :: 0 < i < |rows| ==> rows[i] == tail[i - 1];
    if !HasMouse(tail, id) then
      assert rows[0].mouseId == id;
      rows[0].timepoint
    else
      var m := MaxTimepoint(tail, id);
      if rows[0].mouseId == id && rows[0].timepoint > m then rows[0].timepoint else m
  }

  /** The group keys of `groupby(["Mouse ID"])`: every Mouse ID of the table
      once, in ascending order. */
  function MouseKeys(rows: seq<Row>): (ids: seq<string>)
    ensures StrictlySorted(ids)
    ensures forall id :: id in ids <==> HasMouse(rows, id)
  {
    var d := Distinct(IdColumn(rows));
    var ids := Sort(d);
    SameMembers(ids, d);
    DistinctIds(rows);
    ids
  }

  /** Lists with the same multiset have the same members. */
  lemma SameMembers(a: seq<string>, b: seq<string>)
    requires multiset(a) == multiset(b)
    ensures forall x :: x in a <==> x in b
  {
    forall x ensures x in a <==> x in b {
      assert x in a <==> x in multiset(a);
      assert x in b <==> x in multiset(b);
    }
  }

  /** The distinct Mouse IDs are exactly the mice of the table. */
  lemma DistinctIds(rows: seq<Row>)
    ensures forall id :: id in Distinct(IdColumn(rows)) <==> HasMouse(rows, id)
  {
  }

  /** One row of `max_tumor`: a Mouse ID and its greatest Timepoint. */
  datatype GroupMax = GroupMax(mouseId: string, timepoint: int)

  /** max_tumor = groupby(["Mouse ID"])["Timepoint"].max().reset_index() */
  function MaxTimepoints(rows: seq<Row>): (g: seq<GroupMax>)
    ensures |g| == |MouseKeys(rows)|
    ensures forall k :: 0 <= k < |g| ==>
              g[k].mouseId == MouseKeys(rows)[k] && HasMouse(rows, g[k].mouseId) &&
              g[k].timepoint == MaxTimepoint(rows, g[k].mouseId)
  {
    var ids := MouseKeys(rows);
    seq(|ids|, k requires 0 <= k < |ids| => GroupMax(ids[k], MaxTimepoint(rows, ids[k])))
  }

  /** The rows recorded for mouse `id` at Timepoint `t`, in table order. */
  function RowsAt(rows: seq<Row>, id: string, t: int): (r: seq<Row>)
    ensures |r| <= |rows|
  {
    if rows == [] then []
    else (if rows[0].mouseId == id && rows[0].timepoint == t then [rows[0]] else []) + RowsAt(rows[1..], id, t)
  }

  lemma {:induction false} RowsAtMembership(rows: seq<Row>, id: string, t: int, x: Row)
    ensures x in RowsAt(rows, id, t) <==> x in rows && x.mouseId == id && x.timepoint == t
  {
    if rows != [] {
      RowsAtMembership(rows[1..], id, t, x);
      assert rows == [rows[0]] + rows[1..];
    }
  }

  /** With unique (Mouse ID, Timepoint) pairs, a pair that occurs selects
      exactly the one row that has it. */
  lemma {:induction false} RowsAtUnique(rows: seq<Row>, i: int)
    requires Dedup.UniqueKeys(rows) && 0 <= i < |rows|
    ensures RowsAt(rows, rows[i].mouseId, rows[i].timepoint) == [rows[i]]
  {
    var id, t := rows[i].mouseId, rows[i].timepoint;
    var tail := rows[1..];
    assert Dedup.UniqueKeys(tail) by {
      forall a, b | 0 <= a < b < |tail| ensures !SameKey(tail[a], tail[b]) {
        assert tail[a] == rows[a + 1] && tail[b] == rows[b + 1];
      }
    }
    if i == 0 {
      forall a | 0 <= a < |tail| ensures !(tail[a].mouseId == id && tail[a].timepoint == t) {
        assert tail[a] == rows[a + 1];
        assert !SameKey(rows[0], rows[a + 1]);
      }
      RowsAtNone(tail, id, t);
    } else {
      assert tail[i - 1] == rows[i];
      assert !SameKey(rows[0], rows[i]);
      RowsAtUnique(tail, i - 1);
    }
  }

  /** A pair that does not occur selects nothing. */
  lemma {:induction false} RowsAtNone(rows: seq<Row>, id: string, t: int)
    requires forall a :: 0 <= a < |rows| ==> !(rows[a].mouseId == id && rows[a].timepoint == t)
    ensures RowsAt(rows, id, t) == []
  {
    if rows != [] {
      assert forall a :: 0 <= a < |rows[1..]| ==> rows[1..][a] == rows[a + 1];
      RowsAtNone(rows[1..], id, t);
    }
  }

  /** One row of `merged_data`: the key from `max_tumor` and the matching
      cleaned row, or None where the left merge found no match. */
  datatype FinalRow = FinalRow(mouseId: string, timepoint: int, row: Option<Row>)

  /** The rows the left merge produces for one `max_tumor` row. */
  function MergeOne(g: GroupMax, rows: seq<Row>): (r: seq<FinalRow>)
    ensures |r| >= 1
  {
    var ms := RowsAt(rows, g.mouseId, g.timepoint);
    if ms == [] then [FinalRow(g.mouseId, g.timepoint, None)]
    else seq(|ms|, k requires 0 <= k < |ms| => FinalRow(g.mouseId, g.timepoint, Some(ms[k])))
  }

  /** max_tumor.merge(clean, on=["Mouse ID", "Timepoint"], how="left") */
  function MergeLeft(groups: seq<GroupMax>, rows: seq<Row>): (r: seq<FinalRow>)
    ensures |r| >= |groups|
  {
    if groups == [] then []
    else MergeOne(groups[0], rows) + MergeLeft(groups[1..], rows)
  }

  /** merged_data */
  function LastTimepointRows(rows: seq<Row>): (merged: seq<FinalRow>)
    ensures |merged| >= |MouseKeys(rows)|
  {
    MergeLeft(MaxTimepoints(rows), rows)
  }

  /** Every merged row comes from the merge of one `max_tumor` row. */
  lemma {:induction false} MergeLeftSource(groups: seq<GroupMax>, rows: seq<Row>, k: int) returns (m: int)
    requires 0 <= k < |MergeLeft(groups, rows)|
    ensures 0 <= m < |groups| && MergeLeft(groups, rows)[k] in MergeOne(groups[m], rows)
  {
    assert groups != [];
    var one := MergeOne(groups[0], rows);
    var rest := MergeLeft(groups[1..], rows);
    assert MergeLeft(groups, rows) == one + rest;
    if k < |one| {
      m := 0;
      assert MergeLeft(groups, rows)[k] == one[k];
    } else {
      var m' := MergeLeftSource(groups[1..], rows, k - |one|);
      m := m' + 1;
      assert MergeLeft(groups, rows)[k] == rest[k - |one|];
      assert groups[1..][m'] == groups[m];
    }
  }

  /** The last-timepoint selection always finds its row: every entry of
      `merged_data` carries a cleaned row of its mouse, taken at that mouse's
      greatest Timepoint, so no Timepoint recorded for the mouse is later. */
  lemma LastTimepointRowsMatched(rows: seq<Row>)
    ensures forall k :: 0 <= k < |LastTimepointRows(rows)| ==>
              var e := LastTimepointRows(rows)[k];
              e.row.Some? && e.row.value in rows &&
              e.row.value.mouseId == e.mouseId && e.row.value.timepoint == e.timepoint &&
              forall i :: 0 <= i < |rows| && rows[i].mouseId == e.mouseId ==> rows[i].timepoint <= e.timepoint
  {
    forall k | 0 <= k < |LastTimepointRows(rows)|
      ensures var e := LastTimepointRows(rows)[k];
              e.row.Some? && e.row.value in rows &&
              e.row.value.mouseId == e.mouseId && e.row.value.timepoint == e.timepoint &&
              forall i :: 0 <= i < |rows| && rows[i].mouseId == e.mouseId ==> rows[i].timepoint <= e.timepoint
    {
      MergedEntry(rows, k);
    }
  }

  /** One entry of `merged_data` at a time. */
  lemma MergedEntry(rows: seq<Row>, k: int)
    requires 0 <= k < |LastTimepointRows(rows)|
    ensures var e := LastTimepointRows(rows)[k];
            e.row.Some? && e.row.value in rows &&
            e.row.value.mouseId == e.mouseId && e.row.value.timepoint == e.timepoint &&
            forall i :: 0 <= i < |rows| && rows[i].mouseId == e.mouseId ==> rows[i].timepoint <= e.timepoint
  {
    var groups := MaxTimepoints(rows);
    assert LastTimepointRows(rows) == MergeLeft(groups, rows);
    var e := LastTimepointRows(rows)[k];
    var m := MergeLeftSource(groups, rows, k);
    var g := groups[m];
    MergeOneEntry(g, rows, e);
  }

  /** A `max_tumor` row whose Timepoint is its mouse's greatest merges only
      with rows of that mouse at that Timepoint, and finds at least one. */
  lemma MergeOneEntry(g: GroupMax, rows: seq<Row>, e: FinalRow)
    requires HasMouse(rows, g.mouseId) && g.timepoint == MaxTimepoint(rows, g.mouseId)
    requires e in MergeOne(g, rows)
    ensures e.mouseId == g.mouseId && e.timepoint == g.timepoint
    ensures e.row.Some? && e.row.value in rows &&
            e.row.value.mouseId == g.mouseId && e.row.value.timepoint == g.timepoint
  {
    var ms := RowsAt(rows, g.mouseId, g.timepoint);
    var i :| 0 <= i < |rows| && rows[i].mouseId == g.mouseId && rows[i].timepoint == g.timepoint;
    RowsAtMembership(rows, g.mouseId, g.timepoint, rows[i]);
    assert ms != [];
    var one := MergeOne(g, rows);
    var l :| 0 <= l < |one| && one[l] == e;
    assert e == FinalRow(g.mouseId, g.timepoint, Some(ms[l]));
    RowsAtMembership(rows, g.mouseId, g.timepoint, ms[l]);
  }

  /** With one row per key, the merge yields one entry per `max_tumor` row. */
  lemma {:induction false} MergeLeftOnePerGroup(groups: seq<GroupMax>, rows: seq<Row>)
    requires forall k :: 0 <= k < |groups| ==> |RowsAt(rows, groups[k].mouseId, groups[k].timepoint)| == 1
    ensures |MergeLeft(groups, rows)| == |groups|
    ensures forall k :: 0 <= k < |groups| ==> MergeLeft(groups, rows)[k].mouseId == groups[k].mouseId
  {
    if groups != [] {
      MergeLeftOnePerGroup(groups[1..], rows);
      var one := MergeOne(groups[0], rows);
      assert |one| == 1;
      forall k | 0 < k < |groups| ensures MergeLeft(groups, rows)[k].mouseId == groups[k].mouseId {
        assert MergeLeft(groups, rows)[k] == MergeLeft(groups[1..], rows)[k - 1];
      }
    }
  }

  /** On a table without repeated (Mouse ID, Timepoint) pairs, such as the
      cleaned one, `merged_data` has exactly one entry per mouse, in ascending
      Mouse ID order, and each is that mouse's row at its last Timepoint. */
  lemma OneRowPerMouse(rows: seq<Row>)
    requires Dedup.UniqueKeys(rows)
    ensures |LastTimepointRows(rows)| == |MouseKeys(rows)|
    ensures forall k :: 0 <= k < |LastTimepointRows(rows)| ==> LastTimepointRows(rows)[k].mouseId == MouseKeys(rows)[k]
    ensures forall k, l :: 0 <= k < l < |LastTimepointRows(rows)| ==>
              Less(LastTimepointRows(rows)[k].mouseId, LastTimepointRows(rows)[l].mouseId)
    ensures forall id :: HasMouse(rows, id) <==>
              exists k :: 0 <= k < |LastTimepointRows(rows)| && LastTimepointRows(rows)[k].mouseId == id
  {
    var groups := MaxTimepoints(rows);
    var ids := MouseKeys(rows);
    var merged := LastTimepointRows(rows);
    EachGroupMatchesOnce(rows);
    MergeLeftOnePerGroup(groups, rows);
    assert merged == MergeLeft(groups, rows);
    forall k | 0 <= k < |merged| ensures merged[k].mouseId == ids[k] {
      assert merged[k].mouseId == groups[k].mouseId;
    }
    forall id | HasMouse(rows, id)
      ensures exists k :: 0 <= k < |merged| && merged[k].mouseId == id
    {
      var k :| 0 <= k < |ids| && ids[k] == id;
      assert merged[k].mouseId == id;
    }
  }

  lemma EachGroupMatchesOnce(rows: seq<Row>)
    requires Dedup.UniqueKeys(rows)
    ensures forall k :: 0 <= k < |MaxTimepoints(rows)| ==>
              |RowsAt(rows, MaxTimepoints(rows)[k].mouseId, MaxTimepoints(rows)[k].timepoint)| == 1
  {
    var groups := MaxTimepoints(rows);
    forall k | 0 <= k < |groups|
      ensures |RowsAt(rows, groups[k].mouseId, groups[k].timepoint)| == 1
    {
      GroupMatchesOnce(rows, groups[k].mouseId);
    }
  }

  /** On a table with unique pairs, a mouse's row at its greatest Timepoint
      is the only match for that pair. */
  lemma GroupMatchesOnce(rows: seq<Row>, id: string)
    requires Dedup.UniqueKeys(rows) && HasMouse(rows, id)
    ensures |RowsAt(rows, id, MaxTimepoint(rows, id))| == 1
  {
    var t := MaxTimepoint(rows, id);
    var i :| 0 <= i < |rows| && rows[i].mouseId == id && rows[i].timepoint == t;
    RowsAtUnique(rows, i);
  }
}

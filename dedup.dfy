/** Detection of mice with a repeated (Mouse ID, Timepoint) pair, and the
    removal of every row of such a mouse from the combined table. */
module Dedup {
  import opened Records

  /** Row i repeats the (Mouse ID, Timepoint) pair of an earlier row: pandas
      `duplicated(subset=["Mouse ID", "Timepoint"])`, whose default keep="first"
      marks the second and later occurrences. */
  predicate IsDuplicateAt(rows: seq<Row>, i: int)
    requires 0 <= i < |rows|
  {
    exists j :: 0 <= j < i && SameKey(rows[j], rows[i])
  }

  /** The Mouse ID column of the rows marked as duplicates, in table order. */
  function DuplicateRowIds(rows: seq<Row>): (r: seq<string>)
    ensures |r| <= |rows|
  {
    if rows == [] then []
    else
      var n := |rows| - 1;
      DuplicateRowIds(rows[..n]) + (if IsDuplicateAt(rows, n) then [rows[n].mouseId] else [])
  }

  /** Marking a row looks only at the rows before it. */
  lemma PrefixKeepsMarks(rows: seq<Row>, n: int, i: int)
    requires 0 <= i < n <= |rows|
    ensures IsDuplicateAt(rows[..n], i) <==> IsDuplicateAt(rows, i)
  {
  }

  /** Every marked row contributes its Mouse ID. */
  lemma {:induction false} MarkedRowListed(rows: seq<Row>, i: int)
    requires 0 <= i < |rows| && IsDuplicateAt(rows, i)
    ensures rows[i].mouseId in DuplicateRowIds(rows)
  {
    var n := |rows| - 1;
    if i < n {
      PrefixKeepsMarks(rows, n, i);
      MarkedRowListed(rows[..n], i);
    }
  }

  /** Every listed Mouse ID comes from a marked row. */
  lemma {:induction false} ListedIdMarked(rows: seq<Row>, k: int) returns (i: int)
    requires 0 <= k < |DuplicateRowIds(rows)|
    ensures 0 <= i < |rows| && IsDuplicateAt(rows, i) && rows[i].mouseId == DuplicateRowIds(rows)[k]
  {
    var n := |rows| - 1;
    var front := DuplicateRowIds(rows[..n]);
    if k < |front| {
      i := ListedIdMarked(rows[..n], k);
      PrefixKeepsMarks(rows, n, i);
    } else {
      i := n;
    }
  }

  /** duplicated_mouse_ids: the distinct Mouse IDs of the rows marked as
      duplicates, in order of first appearance. */
  function DuplicatedIds(rows: seq<Row>): (ids: seq<string>)
    ensures NoDup(ids)
  {
    Distinct(DuplicateRowIds(rows))
  }

  /** A mouse is reported exactly when two different rows of the combined
      table share its Mouse ID and a Timepoint; each such mouse is reported
      once. */
  lemma DuplicatedIdsIff(rows: seq<Row>, id: string)
    ensures id in DuplicatedIds(rows) <==>
            exists i, j :: 0 <= i < j < |rows| && rows[i].mouseId == id && SameKey(rows[i], rows[j])
    ensures NoDup(DuplicatedIds(rows))
  {
    var ids := DuplicateRowIds(rows);
    if id in DuplicatedIds(rows) {
      var k :| 0 <= k < |DuplicatedIds(rows)| && DuplicatedIds(rows)[k] == id;
      var m :| 0 <= m < |ids| && ids[m] == id;
      var j := ListedIdMarked(rows, m);
      var i :| 0 <= i < j && SameKey(rows[i], rows[j]);
      assert rows[i].mouseId == id;
    }
    if exists i, j :: 0 <= i < j < |rows| && rows[i].mouseId == id && SameKey(rows[i], rows[j]) {
      var i, j :| 0 <= i < j < |rows| && rows[i].mouseId == id && SameKey(rows[i], rows[j]);
      MarkedRowListed(rows, j);
      var m :| 0 <= m < |ids| && ids[m] == id;
    }
  }

  /** Every row whose Mouse ID is not listed in `ids`, in table order:
      `df[df["Mouse ID"].isin(ids) == False]`. */
  function DropMice(rows: seq<Row>, ids: seq<string>): (r: seq<Row>)
    ensures |r| <= |rows|
  {
    if rows == [] then []
    else (if rows[0].mouseId in ids then [] else [rows[0]]) + DropMice(rows[1..], ids)
  }

  /** clean_study_data_complete: the combined table without any row of a
      mouse that has a repeated (Mouse ID, Timepoint) pair. Every timepoint of
      such a mouse goes, not only the colliding ones, and every row of any
      other mouse stays. */
  function Clean(rows: seq<Row>): (r: seq<Row>)
    ensures forall x :: x in r ==> x in rows && x.mouseId !in DuplicatedIds(rows)
    ensures forall x :: x in rows && x.mouseId !in DuplicatedIds(rows) ==> x in r
  {
    var ids := DuplicatedIds(rows);
    forall x ensures x in DropMice(rows, ids) <==> x in rows && x.mouseId !in ids {
      DropMiceMembership(rows, ids, x);
    }
    DropMice(rows, ids)
  }

  /** A row survives the exclusion exactly when it was in the table and its
      mouse is not excluded. */
  lemma {:induction false} DropMiceMembership(rows: seq<Row>, ids: seq<string>, x: Row)
    ensures x in DropMice(rows, ids) <==> x in rows && x.mouseId !in ids
  {
    if rows != [] {
      DropMiceMembership(rows[1..], ids, x);
      assert rows == [rows[0]] + rows[1..];
    }
  }

  /** The exclusion keeps the table's order: filtering a concatenation is
      the concatenation of the filtered parts. */
  lemma {:induction false} DropMiceAppend(a: seq<Row>, b: seq<Row>, ids: seq<string>)
    ensures DropMice(a + b, ids) == DropMice(a, ids) + DropMice(b, ids)
  {
    if a == [] {
      assert a + b == b;
    } else {
      assert (a + b)[0] == a[0];
      assert (a + b)[1..] == a[1..] + b;
      DropMiceAppend(a[1..], b, ids);
    }
  }

  /** Each kept row keeps its multiplicity; each dropped mouse keeps none. */
  lemma {:induction false} DropMiceMultiset(rows: seq<Row>, ids: seq<string>, x: Row)
    ensures multiset(DropMice(rows, ids))[x] == if x.mouseId in ids then 0 else multiset(rows)[x]
  {
    if rows != [] {
      DropMiceMultiset(rows[1..], ids, x);
      var head := if rows[0].mouseId in ids then [] else [rows[0]];
      assert DropMice(rows, ids) == head + DropMice(rows[1..], ids);
      assert multiset(DropMice(rows, ids)) == multiset(head) + multiset(DropMice(rows[1..], ids));
      assert rows == [rows[0]] + rows[1..];
      assert multiset(rows) == multiset{rows[0]} + multiset(rows[1..]);
    }
  }

  /** Any two positions of the filtered table come, in the same order, from
      two positions of the original table. */
  lemma {:induction false} DropMiceSubsequence(rows: seq<Row>, ids: seq<string>, i: int, j: int)
      returns (i': int, j': int)
    requires 0 <= i < j < |DropMice(rows, ids)|
    ensures 0 <= i' < j' < |rows|
    ensures DropMice(rows, ids)[i] == rows[i'] && DropMice(rows, ids)[j] == rows[j']
  {
    var tail := rows[1..];
    var head := if rows[0].mouseId in ids then [] else [rows[0]];
    assert DropMice(rows, ids) == head + DropMice(tail, ids);
    if head == [] {
      var a, b := DropMiceSubsequence(tail, ids, i, j);
      i', j' := a + 1, b + 1;
    } else if i == 0 {
      var b := DropMiceIndex(tail, ids, j - 1);
      i', j' := 0, b + 1;
    } else {
      var a, b := DropMiceSubsequence(tail, ids, i - 1, j - 1);
      i', j' := a + 1, b + 1;
    }
  }

  /** Every position of the filtered table comes from a position of the
      original table. */
  lemma {:induction false} DropMiceIndex(rows: seq<Row>, ids: seq<string>, j: int) returns (j': int)
    requires 0 <= j < |DropMice(rows, ids)|
    ensures 0 <= j' < |rows| && DropMice(rows, ids)[j] == rows[j']
  {
    var r := DropMice(rows, ids);
    var tail := rows[1..];
    var rest := DropMice(tail, ids);
    if rows[0].mouseId in ids {
      assert r == rest;
      var b := DropMiceIndex(tail, ids, j);
      assert tail[b] == rows[b + 1];
      j' := b + 1;
    } else if j == 0 {
      j' := 0;
    } else {
      assert r == [rows[0]] + rest;
      assert r[j] == rest[j - 1];
      var b := DropMiceIndex(tail, ids, j - 1);
      assert tail[b] == rows[b + 1];
      j' := b + 1;
    }
  }

  /** No two rows share a (Mouse ID, Timepoint) pair. */
  predicate UniqueKeys(rows: seq<Row>)
  {
    forall i, j :: 0 <= i < j < |rows| ==> !SameKey(rows[i], rows[j])
  }

  /** Detection finds nothing exactly when the pairs are unique. */
  lemma NoDuplicatesIff(rows: seq<Row>)
    ensures DuplicatedIds(rows) == [] <==> UniqueKeys(rows)
  {
    if DuplicatedIds(rows) != [] {
      DuplicatedIdsIff(rows, DuplicatedIds(rows)[0]);
    }
    if !UniqueKeys(rows) {
      var i, j :| 0 <= i < j < |rows| && SameKey(rows[i], rows[j]);
      DuplicatedIdsIff(rows, rows[i].mouseId);
    }
  }

  /** The cleaned table has no repeated (Mouse ID, Timepoint) pair. */
  lemma CleanHasUniqueKeys(rows: seq<Row>)
    ensures UniqueKeys(Clean(rows))
  {
    var dup := DuplicatedIds(rows);
    var c := Clean(rows);
    forall i, j | 0 <= i < j < |c| ensures !SameKey(c[i], c[j]) {
      if SameKey(c[i], c[j]) {
        var i', j' := DropMiceSubsequence(rows, dup, i, j);
        assert c[i] in c;
        DuplicatedIdsIff(rows, rows[i'].mouseId);
        assert false;
      }
    }
  }

  /** Cleaning is idempotent: detection on the cleaned table reports no
      mouse, so cleaning it again changes nothing. */
  lemma CleanIdempotent(rows: seq<Row>)
    ensures DuplicatedIds(Clean(rows)) == []
    ensures Clean(Clean(rows)) == Clean(rows)
  {
    CleanHasUniqueKeys(rows);
    NoDuplicatesIff(Clean(rows));
    DropMiceNone(Clean(rows));
  }

  /** Excluding no mouse keeps the table as it is. */
  lemma {:induction false} DropMiceNone(rows: seq<Row>)
    ensures DropMice(rows, []) == rows
  {
    if rows != [] {
      DropMiceNone(rows[1..]);
    }
  }
}

/** The left join of the study results with the mouse metadata on Mouse ID,
    with the semantics of pandas `merge(how="left")`: every left row is kept in
    order, once per matching right row (in right order), or once with missing
    right columns when nothing matches. */
module Join {
  import opened Records

  /** The attributes of every metadata row whose key is `id`, in table order. */
  function Matches(meta: seq<Metadata>, id: string): (r: seq<Attributes>)
    ensures |r| <= |meta|
    ensures forall a :: a in r <==> exists k :: 0 <= k < |meta| && meta[k].mouseId == id && meta[k].attrs == a
  {
    if meta == [] then []
    else (if meta[0].mouseId == id then [meta[0].attrs] else []) + Matches(meta[1..], id)
  }

  /** The attributes of the first metadata row whose key is `id`, if any. */
  function Lookup(meta: seq<Metadata>, id: string): (r: Option<Attributes>)
    ensures r.Some? <==> exists k :: 0 <= k < |meta| && meta[k].mouseId == id
    ensures r.Some? ==> exists k :: 0 <= k < |meta| && meta[k].mouseId == id && meta[k].attrs == r.value
  {
    if meta == [] then None
    else if meta[0].mouseId == id then Some(meta[0].attrs)
    else Lookup(meta[1..], id)
  }

  /** Every Mouse ID occurs at most once in the metadata table. */
  predicate UniqueIds(meta: seq<Metadata>)
  {
    forall i, j :: 0 <= i < j < |meta| ==> meta[i].mouseId != meta[j].mouseId
  }

  /** A measurement widened with the metadata columns. */
  function Attach(m: Measurement, a: Option<Attributes>): Row
  {
    Row(m.mouseId, m.timepoint, m.tumorVolume, m.metastaticSites, a)
  }

  /** The rows the join produces for one study-results row. */
  function JoinOne(m: Measurement, meta: seq<Metadata>): (r: seq<Row>)
    ensures |r| >= 1
    ensures forall k :: 0 <= k < |r| ==>
              r[k].mouseId == m.mouseId && r[k].timepoint == m.timepoint &&
              r[k].tumorVolume == m.tumorVolume && r[k].metastaticSites == m.metastaticSites
  {
    var ms := Matches(meta, m.mouseId);
    if ms == [] then [Attach(m, None)]
    else seq(|ms|, k requires 0 <= k < |ms| => Attach(m, Some(ms[k])))
  }

  /** A study-results row yields one row per matching metadata row, each
      carrying that row's attributes in metadata order, or a single row
      without attributes when its mouse has no metadata. */
  lemma JoinOneRows(m: Measurement, meta: seq<Metadata>)
    ensures |JoinOne(m, meta)| == if Matches(meta, m.mouseId) == [] then 1 else |Matches(meta, m.mouseId)|
    ensures forall k :: 0 <= k < |JoinOne(m, meta)| ==>
              (JoinOne(m, meta)[k].attrs.None? <==> !exists j :: 0 <= j < |meta| && meta[j].mouseId == m.mouseId)
    ensures forall k :: 0 <= k < |JoinOne(m, meta)| && JoinOne(m, meta)[k].attrs.Some? ==>
              JoinOne(m, meta)[k].attrs.value == Matches(meta, m.mouseId)[k] &&
              exists j :: 0 <= j < |meta| && meta[j].mouseId == m.mouseId && meta[j].attrs == JoinOne(m, meta)[k].attrs.value
  {
  }

  /** Matching works row by row through the metadata: the matches in a
      concatenation are the matches in the first part followed by those in
      the second, so they come in metadata order. */
  lemma {:induction false} MatchesAppend(a: seq<Metadata>, b: seq<Metadata>, id: string)
    ensures Matches(a + b, id) == Matches(a, id) + Matches(b, id)
  {
    if a == [] {
      assert a + b == b;
    } else {
      var ab := a + b;
      assert ab[0] == a[0];
      assert ab[1..] == a[1..] + b;
      var head := if a[0].mouseId == id then [a[0].attrs] else [];
      assert Matches(ab, id) == head + Matches(a[1..] + b, id);
      assert Matches(a, id) == head + Matches(a[1..], id);
      MatchesAppend(a[1..], b, id);
    }
  }

  /** pd.merge(study_results, mouse_metadata, how="left", on="Mouse ID") */
  function LeftJoin(results: seq<Measurement>, meta: seq<Metadata>): (r: seq<Row>)
    ensures |r| >= |results|
  {
    if results == [] then []
    else JoinOne(results[0], meta) + LeftJoin(results[1..], meta)
  }

  /** The join is computed row by row: joining a concatenation is the
      concatenation of the joins, so the left table's order is kept. */
  lemma {:induction false} LeftJoinAppend(a: seq<Measurement>, b: seq<Measurement>, meta: seq<Metadata>)
    ensures LeftJoin(a + b, meta) == LeftJoin(a, meta) + LeftJoin(b, meta)
  {
    if a == [] {
      assert a + b == b;
    } else {
      assert (a + b)[0] == a[0];
      assert (a + b)[1..] == a[1..] + b;
      LeftJoinAppend(a[1..], b, meta);
    }
  }

  /** With unique metadata keys a mouse has at most one match, and it is the
      one Lookup finds. */
  lemma {:induction false} MatchesUnique(meta: seq<Metadata>, id: string)
    requires UniqueIds(meta)
    ensures Matches(meta, id) == if Lookup(meta, id).Some? then [Lookup(meta, id).value] else []
  {
    if meta != [] {
      assert UniqueIds(meta[1..]) by {
        forall i, j | 0 <= i < j < |meta[1..]| ensures meta[1..][i].mouseId != meta[1..][j].mouseId {
          assert meta[1..][i] == meta[i + 1] && meta[1..][j] == meta[j + 1];
        }
      }
      MatchesUnique(meta[1..], id);
      if meta[0].mouseId == id {
        forall k | 0 <= k < |meta[1..]| ensures meta[1..][k].mouseId != id {
          assert meta[1..][k] == meta[k + 1];
        }
      }
    }
  }

  /** When every Mouse ID occurs at most once in the metadata, the join has
      exactly one row per study-results row, in the same order, carrying that
      row's measurement and the metadata of its mouse, or no metadata when the
      mouse is absent from the metadata table. */
  lemma {:induction false} LeftJoinUniqueKeys(results: seq<Measurement>, meta: seq<Metadata>)
    requires UniqueIds(meta)
    ensures |LeftJoin(results, meta)| == |results|
    ensures forall i :: 0 <= i < |results| ==>
              LeftJoin(results, meta)[i] == Attach(results[i], Lookup(meta, results[i].mouseId))
  {
    if results != [] {
      MatchesUnique(meta, results[0].mouseId);
      LeftJoinUniqueKeys(results[1..], meta);
      var one := JoinOne(results[0], meta);
      assert one == [Attach(results[0], Lookup(meta, results[0].mouseId))];
      forall i | 0 <= i < |results|
        ensures LeftJoin(results, meta)[i] == Attach(results[i], Lookup(meta, results[i].mouseId))
      {
        if i > 0 {
          assert LeftJoin(results, meta)[i] == LeftJoin(results[1..], meta)[i - 1];
          assert results[1..][i - 1] == results[i];
        }
      }
    }
  }
}

/** The record types of the Pymaceuticals study data and the sequence helpers
    shared by the cleaning and selection steps. */
module Records {

  datatype Option<+T> = None | Some(value: T)

  datatype Sex = Female | Male

  /** The per-mouse columns of the metadata table other than the key:
      Drug Regimen, Sex, Age_months and Weight (g). */
  datatype Attributes = Attributes(regimen: string, sex: Sex, ageMonths: int, weight: real)

  /** One row of the mouse metadata table. */
  datatype Metadata = Metadata(mouseId: string, attrs: Attributes)

  /** One row of the study results table: Mouse ID, Timepoint,
      Tumor Volume (mm3) and Metastatic Sites. */
  datatype Measurement = Measurement(mouseId: string, timepoint: int, tumorVolume: real, metastaticSites: int)

  /** One row of the combined table. `attrs` is None when the left join found no
      metadata row for the mouse (every metadata column is NaN in that case). */
  datatype Row = Row(mouseId: string, timepoint: int, tumorVolume: real, metastaticSites: int,
                     attrs: Option<Attributes>)

  /** The Drug Regimen column of a combined row; None stands for NaN. */
  function Regimen(r: Row): Option<string>
  {
    if r.attrs.Some? then Some(r.attrs.value.regimen) else None
  }

  /** Two rows collide when they agree on the pair (Mouse ID, Timepoint). */
  predicate SameKey(a: Row, b: Row)
  {
    a.mouseId == b.mouseId && a.timepoint == b.timepoint
  }

  /** No value occurs twice. */
  predicate NoDup<T(==)>(s: seq<T>)
  {
    forall i, j :: 0 <= i < j < |s| ==> s[i] != s[j]
  }

  /** The distinct values of `s`, each once, as pandas `unique` returns
      them. The values are kept in order of first appearance, but the
      contract states only which values are present. */
  function Distinct<T(==)>(s: seq<T>): (r: seq<T>)
    ensures forall i :: 0 <= i < |s| ==> s[i] in r
    ensures forall i :: 0 <= i < |r| ==> r[i] in s
    ensures NoDup(r)
  {
    if s == [] then []
    else
      var u := Distinct(s[..|s| - 1]);
      assert s == s[..|s| - 1] + [s[|s| - 1]];
      if s[|s| - 1] in u then u else u + [s[|s| - 1]]
  }

  /** The Mouse ID column of a table. */
  function IdColumn(rows: seq<Row>): (ids: seq<string>)
    ensures |ids| == |rows|
    ensures forall i :: 0 <= i < |rows| ==> ids[i] == rows[i].mouseId
  {
    seq(|rows|, i requires 0 <= i < |rows| => rows[i].mouseId)
  }

  /** Some row of the table belongs to mouse `id`. */
  predicate HasMouse(rows: seq<Row>, id: string)
  {
    exists i :: 0 <= i < |rows| && rows[i].mouseId == id
  }
}

/** The fire-susceptibility layer: each polygon's stripped name is looked up
    in a fixed table of susceptibility classes, and a name outside the table
    (or a missing one) gets code -1.  A run stops when the downloaded
    document is empty or has no `Name` column; otherwise only the rows with
    a present, valid geometry are kept.  Both scripts share this logic; the
    validity test of a geometry is a parameter. */
module FireSusceptibility {
  import opened Common
  import opened Text

  /** `{"Susc: 1": 2, "Susc: 2": 1, "Susc: 3": 0}`. */
  const SusceptibilityTable: map<string, int> := map["Susc: 1" := 2, "Susc: 2" := 1, "Susc: 3" := 0]

  /** The code of one name cell: `str.strip().map(table).fillna(-1)`.  A
      missing cell stays missing through `.str` and the lookup, and so gets
      -1 like any unmapped name. */
  function SusceptibilityCode(name: Option<string>): (code: int)
  {
    if name.Some? && Strip(name.value) in SusceptibilityTable then SusceptibilityTable[Strip(name.value)]
    else -1
  }

  /** The table, read as a chain of exact comparisons. */
  function ClassCode(key: string): int
  {
    if key == "Susc: 1" then 2
    else if key == "Susc: 2" then 1
    else if key == "Susc: 3" then 0
    else -1
  }

  lemma {:induction false} TableIsClassCode(key: string)
    ensures key in SusceptibilityTable <==> ClassCode(key) != -1
    ensures key in SusceptibilityTable ==> SusceptibilityTable[key] == ClassCode(key)
  {
  }

  /** Every code lies in {-1, 0, 1, 2}; each of 2, 1 and 0 comes from exactly
      one stripped name, and -1 from a missing name or any other name. */
  lemma {:induction false} SusceptibilityCodeMeaning(name: Option<string>)
    ensures var code := SusceptibilityCode(name);
      -1 <= code <= 2 &&
      (code == 2 <==> name.Some? && Strip(name.value) == "Susc: 1") &&
      (code == 1 <==> name.Some? && Strip(name.value) == "Susc: 2") &&
      (code == 0 <==> name.Some? && Strip(name.value) == "Susc: 3") &&
      (code == -1 <==> name.None? || ClassCode(Strip(name.value)) == -1)
  {
    if name.Some? {
      TableIsClassCode(Strip(name.value));
    }
  }

  /** Whitespace around a class name does not matter. */
  lemma {:induction false} PaddedClassName(pad: string, k: string, pad': string)
    requires AllWhitespace(pad) && AllWhitespace(pad')
    requires k == "Susc: 1" || k == "Susc: 2" || k == "Susc: 3"
    ensures SusceptibilityCode(Some(pad + k + pad')) == ClassCode(k)
  {
    assert !IsWhitespace(k[0]) && !IsWhitespace(k[|k| - 1]);
    StripAround(pad, k, pad');
    TableIsClassCode(k);
  }

  /** The SymbolID column: one code per row, in row order. */
  function SusceptibilityCodes(names: seq<Option<string>>): (codes: seq<int>)
    ensures |codes| == |names|
    ensures forall i :: 0 <= i < |names| ==> codes[i] == SusceptibilityCode(names[i])
  {
    seq(|names|, i requires 0 <= i < |names| => SusceptibilityCode(names[i]))
  }

  /** Every code in the column is one of -1, 0, 1, 2. */
  lemma {:induction false} CodesInRange(names: seq<Option<string>>)
    ensures forall i :: 0 <= i < |names| ==> -1 <= SusceptibilityCodes(names)[i] <= 2
  {
    forall i | 0 <= i < |names|
      ensures -1 <= SusceptibilityCodes(names)[i] <= 2
    {
      SusceptibilityCodeMeaning(names[i]);
    }
  }

  /** One polygon of the downloaded document. */
  datatype FireRow<G> = FireRow(name: Option<string>, geometry: Option<G>)

  /** How a run ends before the upload, or the rows and codes it uploads. */
  datatype FireOutcome<G> =
    | EmptyDocument
    | MissingNameColumn
    | Ready(rows: seq<FireRow<G>>, codes: seq<int>)

  /** `notna() & is_valid` on one row. */
  predicate HasValidGeometry<G>(row: FireRow<G>, valid: G -> bool)
  {
    row.geometry.Some? && valid(row.geometry.value)
  }

  /** The row mask `geometry.notna() & geometry.is_valid`. */
  function GeometryTest<G>(valid: G -> bool): FireRow<G> -> bool
  {
    row => HasValidGeometry(row, valid)
  }

  /** A run: an empty document stops it; then the rows without a valid
      geometry are dropped; then a frame without a `Name` column stops it;
      otherwise every kept row gets its code. */
  function FireRun<G>(rows: seq<FireRow<G>>, hasNameColumn: bool, valid: G -> bool): (r: FireOutcome<G>)
  {
    if rows == [] then EmptyDocument
    else
      var kept := Filter(rows, GeometryTest(valid));
      if !hasNameColumn then MissingNameColumn
      else Ready(kept, SusceptibilityCodes(seq(|kept|, i requires 0 <= i < |kept| => kept[i].name)))
  }

  /** A run reaches the upload exactly when the document has rows and a
      `Name` column; it then uploads the rows with a valid geometry, in
      their order, each with the code of its own name. */
  lemma {:induction false} FireRunOutcome<G>(rows: seq<FireRow<G>>, hasNameColumn: bool, valid: G -> bool)
    ensures rows == [] ==> FireRun(rows, hasNameColumn, valid) == EmptyDocument
    ensures rows != [] && !hasNameColumn ==> FireRun(rows, hasNameColumn, valid) == MissingNameColumn
    ensures var r := FireRun(rows, hasNameColumn, valid);
      r.Ready? <==> rows != [] && hasNameColumn
    ensures var r := FireRun(rows, hasNameColumn, valid);
      r.Ready? ==>
        r.rows == Filter(rows, GeometryTest(valid)) &&
        |r.codes| == |r.rows| &&
        (forall i :: 0 <= i < |r.rows| ==> HasValidGeometry(r.rows[i], valid)) &&
        (forall i :: 0 <= i < |r.rows| ==> r.codes[i] == SusceptibilityCode(r.rows[i].name)) &&
        (forall row :: row in rows && HasValidGeometry(row, valid) ==> row in r.rows)
  {
    if rows != [] && hasNameColumn {
      forall row | row in rows && HasValidGeometry(row, valid)
        ensures row in Filter(rows, GeometryTest(valid))
      {
        FilterMembership(rows, GeometryTest(valid), row);
      }
    }
  }
}

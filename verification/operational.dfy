/** The operational sheets (alert interactions and level stations).  The
    download script drops the rows with too many empty cells; the upload
    script renames the columns to the layer's field names, reads the two
    coordinate columns as numbers, builds one attribute map and one point per
    row and adds the features in chunks (module BatchUpload).  The two upload
    scripts differ only in their column mapping, so the logic is modelled
    once with the mapping as a parameter.  Number parsing, date reading and
    the layer's replies are parameters. */
module Operational {
  import opened Common
  import opened Text
  import opened Numbers
  import opened Coercion
  import opened Geometry
  import opened BatchUpload

  // ---------------------------------------------------------------------
  // The downloaded sheet: dropping sparse rows
  // ---------------------------------------------------------------------

  /** A row with this many empty cells or more is dropped. */
  const NullThreshold: nat := 20

  predicate IsMissing(c: Cell)
  {
    c.Missing?
  }

  /** `row.isnull().sum()`. */
  function NullCount(row: seq<Cell>): (n: nat)
    ensures n <= |row|
  {
    CountWhere(row, IsMissing)
  }

  /** A row that survives the null-count filter. */
  predicate Dense(row: seq<Cell>)
  {
    NullCount(row) < NullThreshold
  }

  /** A row the null-count filter removes. */
  predicate Sparse(row: seq<Cell>)
  {
    NullCount(row) >= NullThreshold
  }

  /** The downloaded sheet, after its four heading lines were skipped: the
      column names and the rows, each with one cell per column. */
  class Sheet {
    var columns: seq<string>
    var rows: seq<seq<Cell>>

    constructor (columns: seq<string>, rows: seq<seq<Cell>>)
      ensures this.columns == columns && this.rows == rows
    {
      this.columns := columns;
      this.rows := rows;
    }

    /** `df.drop(df[df.isnull().sum(axis=1) >= 20].index, inplace=True)`. */
    method DropSparseRows()
      modifies this
      ensures columns == old(columns)
      ensures rows == Filter(old(rows), Dense)
    {
      var all := rows;
      var kept: seq<seq<Cell>> := [];
      var i := 0;
      while i < |all|
        invariant 0 <= i <= |all|
        invariant kept == Filter(all[..i], Dense)
        invariant columns == old(columns)
      {
        assert all[..i + 1] == all[..i] + [all[i]];
        FilterConcat(all[..i], [all[i]], Dense);
        if NullCount(all[i]) < NullThreshold {
          kept := kept + [all[i]];
        }
        i := i + 1;
      }
      assert all[..i] == all;
      rows := kept;
    }
  }

  /** The rows kept are exactly the rows with fewer than 20 empty cells, and
      the removed ones are counted by `Sparse`; the kept rows stay in their
      order: whatever prefix the rows are cut at, the kept rows of the prefix
      come before the kept rows of the rest. */
  lemma {:induction false} DropSparseRowsMeaning(rows: seq<seq<Cell>>)
    ensures forall r :: r in Filter(rows, Dense) <==> r in rows && NullCount(r) < NullThreshold
    ensures |Filter(rows, Dense)| + CountWhere(rows, Sparse) == |rows|
    ensures forall i :: 0 <= i <= |rows| ==> Filter(rows, Dense) == Filter(rows[..i], Dense) + Filter(rows[i..], Dense)
  {
    forall r
      ensures r in Filter(rows, Dense) <==> r in rows && NullCount(r) < NullThreshold
    {
      FilterMembership(rows, Dense, r);
    }
    forall i | 0 <= i <= |rows|
      ensures Filter(rows, Dense) == Filter(rows[..i], Dense) + Filter(rows[i..], Dense)
    {
      assert rows == rows[..i] + rows[i..];
      FilterConcat(rows[..i], rows[i..], Dense);
    }
    if rows != [] {
      DropSparseRowsMeaning(rows[1..]);
      assert rows == [rows[0]] + rows[1..];
    }
  }

  // ---------------------------------------------------------------------
  // Column names
  // ---------------------------------------------------------------------

  /** The coordinate columns of the sheet. */
  const LongitudeField: string := "Longitud"
  const LatitudeField: string := "Latitud"

  /** The mapping of the alert-interaction upload, from sheet headings to
      layer fields. */
  const AlertColumns: map<string, string> :=
    map["Hora (00:00)" := "Hora__00_00_",
        "Tipo de Alerta" := "Tipo_de_Alerta",
        "Municipio" := "Municipio",
        "Estación de Nivel Asociada N°1" := "Estación_de_Nivel_Asociada_N_1",
        "Estación de Nivel Asociada N°2" := "Estación_de_Nivel_Asociada_N_2",
        "Latitud" := "Latitud",
        "Longitud" := "Longitud",
        "Código Estación de Nivel Asociada N°1" := "Código_Estación_de_Nivel_Asocia",
        "Código Estación de Nivel Asociada N°2" := "Código_Estación_de_Nivel_Asoc_1",
        "Códigos Estaciones\U{00A0}" := "Códigos_Estaciones_Asociadas",
        "SATC" := "SATC",
        "Institución" := "Institución",
        "Canal" := "Canal",
        "Mensaje_Retroalimentación_Tiempo_Pasado" := "Mensaje___Retroalimentación__Ti",
        "Persona_contactada_o_que_contactó" := "Persona_contactada_o_que_contac",
        "¿Se activó sirena?" := "F_Se_activó_sirena_",
        "Código_Sirena_Asociada" := "Código_Sirena_Asociada",
        "La comunidad o el organismo de gestión de riesgo respondieron la llamada" := "La_comunidad_o_el_organismo_de_",
        "La sirena sonó?" := "La_sirena_sonó_",
        "Responsable de hacer recibir la interacción" := "Responsable_de_hacer_recibir_la",
        "Verificado" := "Verificado",
        "Evento" := "Evento",
        "Año" := "Año",
        "Mes" := "Mes",
        "Día" := "Día",
        "Fecha" := "Fecha",
        "Unnamed_25" := "Unnamed__25",
        "Unnamed_26" := "Unnamed__26",
        "Unnamed_28" := "Unnamed__28"]

  /** The mapping of the level-station upload. */
  const StationColumns: map<string, string> :=
    map["Código Estación" := "Código_Estación",
        "Nombre Estación" := "Nombre_Estación",
        "Aumento" := "Aumento",
        "Latitud" := "Latitud",
        "Longitud" := "Longitud",
        "Año" := "Año",
        "Mes" := "Mes",
        "Día" := "Día",
        "Fecha" := "Fecha"]

  /** The name a column has after `rename(columns=mapping)`. */
  function RenamedColumn(c: string, mapping: map<string, string>): string
  {
    if c in mapping then mapping[c] else c
  }

  /** `df.rename(columns=mapping).columns`. */
  function Renamed(columns: seq<string>, mapping: map<string, string>): (r: seq<string>)
    ensures |r| == |columns|
  {
    seq(|columns|, i requires 0 <= i < |columns| => RenamedColumn(columns[i], mapping))
  }

  /** A mapping whose targets are left alone by a second renaming. */
  predicate StableTargets(mapping: map<string, string>)
  {
    forall k :: k in mapping ==> mapping[k] !in mapping || mapping[mapping[k]] == mapping[k]
  }

  /** Renaming keeps the column count and the position of every column; a
      mapped column gets its target, any other keeps its name; a name that
      is no mapping's key and no mapping's target appears after renaming
      exactly where it appeared before. */
  lemma {:induction false} RenamedMeaning(columns: seq<string>, mapping: map<string, string>)
    ensures var r := Renamed(columns, mapping);
      |r| == |columns| &&
      (forall i :: 0 <= i < |columns| && columns[i] in mapping ==> r[i] == mapping[columns[i]]) &&
      (forall i :: 0 <= i < |columns| && columns[i] !in mapping ==> r[i] == columns[i]) &&
      (forall c :: c !in mapping && c !in mapping.Values ==> (c in r <==> c in columns))
  {
    var r := Renamed(columns, mapping);
    forall i | 0 <= i < |columns| && columns[i] in mapping
      ensures r[i] in mapping.Values
    {
      assert r[i] == mapping[columns[i]];
    }
    forall c | c !in mapping && c !in mapping.Values
      ensures c in r <==> c in columns
    {
      if c in columns {
        var i :| 0 <= i < |columns| && columns[i] == c;
        assert r[i] == c;
      }
    }
  }

  /** Renaming twice with a mapping whose targets are stable renames once. */
  lemma {:induction false} RenameIdempotent(columns: seq<string>, mapping: map<string, string>)
    requires StableTargets(mapping)
    ensures Renamed(Renamed(columns, mapping), mapping) == Renamed(columns, mapping)
  {
    var once := Renamed(columns, mapping);
    forall i | 0 <= i < |columns|
      ensures RenamedColumn(once[i], mapping) == once[i]
    {
    }
  }

  /** Both mappings keep the coordinate columns' names. */
  lemma {:induction false} MappingsKeepCoordinates()
    ensures RenamedColumn(LongitudeField, AlertColumns) == LongitudeField
    ensures RenamedColumn(LatitudeField, AlertColumns) == LatitudeField
    ensures RenamedColumn(LongitudeField, StationColumns) == LongitudeField
    ensures RenamedColumn(LatitudeField, StationColumns) == LatitudeField
  {
  }

  /** The columns whose values become attributes: all but the coordinates. */
  predicate IsAttributeColumn(c: string)
  {
    c != LongitudeField && c != LatitudeField
  }

  /** `[col for col in df.columns if col not in [Longitud, Latitud]]`. */
  function CsvFields(columns: seq<string>): (names: seq<string>)
    ensures |names| <= |columns|
  {
    Filter(columns, IsAttributeColumn)
  }

  /** The attribute columns are the sheet's columns other than the two
      coordinates, in the sheet's order. */
  lemma {:induction false} CsvFieldsMeaning(columns: seq<string>)
    ensures forall c :: c in CsvFields(columns) <==> c in columns && c != LongitudeField && c != LatitudeField
    ensures (forall i :: 0 <= i < |columns| ==> IsAttributeColumn(columns[i])) ==> CsvFields(columns) == columns
  {
    forall c
      ensures c in CsvFields(columns) <==> c in columns && c != LongitudeField && c != LatitudeField
    {
      FilterMembership(columns, IsAttributeColumn, c);
    }
    if forall i :: 0 <= i < |columns| ==> IsAttributeColumn(columns[i]) {
      FilterAllPass(columns, IsAttributeColumn);
    }
  }

  // ---------------------------------------------------------------------
  // Coordinates
  // ---------------------------------------------------------------------

  /** The text a coordinate cell is read from:
      `str(cell).replace(',', '.').strip()`. */
  function CoordinateText(cell: Cell): (t: string)
  {
    Strip(ReplaceChar(CellText(cell), ',', '.'))
  }

  /** `.replace(['', 'nan', 'None'], 0).astype(float)` on that text; `None`
      where the conversion raises. */
  function NormalizeCoordinate(cell: Cell, parse: string -> Option<Decimal>): (d: Option<Decimal>)
  {
    var t := CoordinateText(cell);
    if t == "" || t == "nan" || t == "None" then Some(Decimal(0, 0)) else parse(t)
  }

  /** The number parser only ever sees a non-empty text without commas and
      without whitespace at its ends, other than "nan" and "None"; a missing
      cell, whose text is "nan", reads as 0. */
  lemma {:induction false} CoordinateMeaning(cell: Cell, parse: string -> Option<Decimal>)
    ensures var t := CoordinateText(cell);
      ',' !in t && Strip(t) == t &&
      (t != "" && t != "nan" && t != "None" ==> NormalizeCoordinate(cell, parse) == parse(t))
    ensures cell.Missing? ==> NormalizeCoordinate(cell, parse) == Some(Decimal(0, 0))
  {
    var raw := CellText(cell);
    var replaced := ReplaceChar(raw, ',', '.');
    ReplaceCharAt(raw, ',', '.');
    var t := Strip(replaced);
    TrimStartFacts(replaced);
    TrimEndFacts(TrimStart(replaced));
    assert t == TrimStart(replaced)[..|t|];
    forall i | 0 <= i < |t|
      ensures t[i] != ','
    {
      assert t[i] == replaced[|replaced| - |TrimStart(replaced)| + i];
    }
    StripIdempotent(replaced);
    if cell.Missing? {
      assert raw == "nan";
      ReplaceCharAbsent(raw, ',', '.');
      assert !IsWhitespace('n');
      StripFixpoint(raw);
    }
  }

  /** A blank text cell reads as 0. */
  lemma {:induction false} BlankCoordinateIsZero(pad: string, parse: string -> Option<Decimal>)
    requires AllWhitespace(pad)
    ensures NormalizeCoordinate(TextCell(pad), parse) == Some(Decimal(0, 0))
  {
    ReplaceCharAt(pad, ',', '.');
    assert AllWhitespace(ReplaceChar(pad, ',', '.'));
    StripFacts(ReplaceChar(pad, ',', '.'));
  }

  /** A decimal comma is read as a decimal point: "6,25" is parsed as
      "6.25", whatever whitespace surrounds it. */
  lemma {:induction false} CommaCoordinate(pad: string, whole: string, frac: string, pad': string, parse: string -> Option<Decimal>)
    requires AllWhitespace(pad) && AllWhitespace(pad')
    requires AllDigits(whole) && AllDigits(frac) && whole != [] && frac != []
    ensures NormalizeCoordinate(TextCell(pad + whole + "," + frac + pad'), parse) == parse(whole + "." + frac)
  {
    var raw := pad + whole + "," + frac + pad';
    var t := whole + "." + frac;
    ReplaceCharAt(raw, ',', '.');
    var replaced := ReplaceChar(raw, ',', '.');
    assert replaced == pad + t + pad' by {
      assert |replaced| == |pad + t + pad'|;
      forall i | 0 <= i < |raw|
        ensures replaced[i] == (pad + t + pad')[i]
      {
        if i < |pad| {
          assert raw[i] == pad[i] && IsWhitespace(pad[i]);
        } else if i < |pad| + |whole| {
          assert raw[i] == whole[i - |pad|];
        } else if i == |pad| + |whole| {
        } else if i < |pad| + |whole| + 1 + |frac| {
          assert raw[i] == frac[i - |pad| - |whole| - 1];
        } else {
          assert raw[i] == pad'[i - |pad| - |whole| - 1 - |frac|] && IsWhitespace(raw[i]);
        }
      }
    }
    assert t[0] == whole[0] && t[|t| - 1] == frac[|frac| - 1];
    StripAround(pad, t, pad');
    assert t != "" && t != "nan" && t != "None" by {
      assert t[|whole|] == '.';
    }
  }

  /** A whole coordinate column read as numbers, or `None` when some cell
      of it does not convert (the whole script then stops). */
  function NormalizeColumn(rows: seq<seq<Cell>>, c: nat, parse: string -> Option<Decimal>): (r: Option<seq<Decimal>>)
    requires forall i :: 0 <= i < |rows| ==> c < |rows[i]|
    ensures r.Some? ==>
      |r.value| == |rows| && forall i :: 0 <= i < |rows| ==> NormalizeCoordinate(rows[i][c], parse) == Some(r.value[i])
    ensures r.None? <==> exists i :: 0 <= i < |rows| && NormalizeCoordinate(rows[i][c], parse).None?
  {
    if rows == [] then Some([])
    else
      var n := |rows| - 1;
      var before := NormalizeColumn(rows[..n], c, parse);
      var last := NormalizeCoordinate(rows[n][c], parse);
      assert forall i :: 0 <= i < n ==> rows[..n][i] == rows[i];
      if before.None? || last.None? then None else Some(before.value + [last.value])
  }

  // ---------------------------------------------------------------------
  // Attributes and features
  // ---------------------------------------------------------------------

  /** Every row has one cell per column. */
  predicate WellFormed(columns: seq<string>, rows: seq<seq<Cell>>)
  {
    forall i :: 0 <= i < |rows| ==> |rows[i]| == |columns|
  }

  /** `row[name]`: the cell under the first column of that name. */
  function CellOf(columns: seq<string>, row: seq<Cell>, name: string): Cell
    requires |row| == |columns| && name in columns
  {
    row[IndexOf(columns, name)]
  }

  /** The attributes written for the columns `names`, in order: a column is
      written when its cell is not missing and the layer declares a field of
      that name, with the cell converted for the field's type. */
  function AttributesOf(names: seq<string>, columns: seq<string>, row: seq<Cell>, fields: seq<FieldDef>,
                        parse: string -> Option<Decimal>, toDate: Cell -> Option<int>): map<string, Value>
    requires |row| == |columns| && forall i :: 0 <= i < |names| ==> names[i] in columns
  {
    if names == [] then map[]
    else
      var n := |names| - 1;
      var m := AttributesOf(names[..n], columns, row, fields, parse, toDate);
      var f := names[n];
      var v := CellOf(columns, row, f);
      if !v.Missing? && Declares(fields, f)
      then m[f := CoerceCsv(v, TypeOf(fields, f).value, StringLimit(fields, f), parse, toDate)]
      else m
  }

  /** The attribute map holds exactly the listed columns whose cell is not
      missing and whose field the layer declares, each with its cell
      converted for the field's type. */
  lemma {:induction false} AttributesDomain(names: seq<string>, columns: seq<string>, row: seq<Cell>, fields: seq<FieldDef>,
                                            parse: string -> Option<Decimal>, toDate: Cell -> Option<int>)
    requires |row| == |columns| && forall i :: 0 <= i < |names| ==> names[i] in columns
    ensures var m := AttributesOf(names, columns, row, fields, parse, toDate);
      forall k :: k in m <==> k in names && k in columns && Declares(fields, k) && !CellOf(columns, row, k).Missing?
    ensures var m := AttributesOf(names, columns, row, fields, parse, toDate);
      forall k :: k in m ==>
        k in columns && Declares(fields, k) && !CellOf(columns, row, k).Missing? &&
        m[k] == CoerceCsv(CellOf(columns, row, k), TypeOf(fields, k).value, StringLimit(fields, k), parse, toDate)
  {
    if names != [] {
      var n := |names| - 1;
      AttributesDomain(names[..n], columns, row, fields, parse, toDate);
      assert names == names[..n] + [names[n]];
    }
  }

  /** The attribute loop of one row. */
  method BuildAttributes(names: seq<string>, columns: seq<string>, row: seq<Cell>, fields: seq<FieldDef>,
                         parse: string -> Option<Decimal>, toDate: Cell -> Option<int>)
    returns (attributes: map<string, Value>)
    requires |row| == |columns| && forall i :: 0 <= i < |names| ==> names[i] in columns
    ensures attributes == AttributesOf(names, columns, row, fields, parse, toDate)
  {
    attributes := map[];
    for i := 0 to |names|
      invariant attributes == AttributesOf(names[..i], columns, row, fields, parse, toDate)
    {
      assert names[..i + 1][..i] == names[..i];
      var field := names[i];
      var value := CellOf(columns, row, field);
      if !value.Missing? {
        if Declares(fields, field) {
          var ftype := TypeOf(fields, field).value;
          attributes := attributes[field := CoerceCsv(value, ftype, StringLimit(fields, field), parse, toDate)];
        }
      }
    }
    assert names[..|names|] == names;
  }

  /** A feature of the operational layers: attributes and a point. */
  datatype PointFeature = PointFeature(attributes: map<string, Value>, geometry: Wire<Decimal>)

  /** Where the upload script stops, or the features it prepares. */
  datatype SheetOutcome =
    | EmptySheet
    | MissingCoordinateColumn
    | BadCoordinate
    | Features(features: seq<PointFeature>)

  /** The upload script from the renamed columns to the prepared features:
      an empty frame stops it; a missing coordinate column or a coordinate
      that does not convert stops it; otherwise every row becomes one
      feature with its attributes and its point. */
  function SheetFeatures(columns: seq<string>, rows: seq<seq<Cell>>, fields: seq<FieldDef>,
                         parse: string -> Option<Decimal>, toDate: Cell -> Option<int>): SheetOutcome
    requires WellFormed(columns, rows)
  {
    if rows == [] || columns == [] then EmptySheet
    else if LongitudeField !in columns || LatitudeField !in columns then MissingCoordinateColumn
    else
      var xs := NormalizeColumn(rows, IndexOf(columns, LongitudeField), parse);
      var ys := NormalizeColumn(rows, IndexOf(columns, LatitudeField), parse);
      if xs.None? || ys.None? then BadCoordinate
      else
        var names := CsvFields(columns);
        CsvFieldsMeaning(columns);
        Features(seq(|rows|, i requires 0 <= i < |rows| =>
          PointFeature(AttributesOf(names, columns, rows[i], fields, parse, toDate), XY(xs.value[i], ys.value[i], Wgs84))))
  }

  /** The script prepares features exactly when the frame has rows and both
      coordinate columns and every coordinate converts; it then prepares one
      feature per row, in row order, whose point is the row's coordinates
      in WGS 84 and whose attributes are the row's declared, non-missing,
      non-coordinate cells. */
  lemma {:induction false} SheetFeaturesMeaning(columns: seq<string>, rows: seq<seq<Cell>>, fields: seq<FieldDef>,
                             parse: string -> Option<Decimal>, toDate: Cell -> Option<int>)
    requires WellFormed(columns, rows)
    ensures var out := SheetFeatures(columns, rows, fields, parse, toDate);
      out.Features? <==>
        rows != [] && columns != [] && LongitudeField in columns && LatitudeField in columns &&
        forall i :: 0 <= i < |rows| ==>
          NormalizeCoordinate(CellOf(columns, rows[i], LongitudeField), parse).Some? &&
          NormalizeCoordinate(CellOf(columns, rows[i], LatitudeField), parse).Some?
    ensures var out := SheetFeatures(columns, rows, fields, parse, toDate);
      out.Features? ==>
        |out.features| == |rows| &&
        forall i :: 0 <= i < |rows| ==>
          var f := out.features[i];
          f.geometry == XY(NormalizeCoordinate(CellOf(columns, rows[i], LongitudeField), parse).value,
                           NormalizeCoordinate(CellOf(columns, rows[i], LatitudeField), parse).value, Wgs84) &&
          (forall k :: k in f.attributes <==>
            k in columns && IsAttributeColumn(k) && Declares(fields, k) && !CellOf(columns, rows[i], k).Missing?)
  {
    if rows != [] && columns != [] && LongitudeField in columns && LatitudeField in columns {
      var names := CsvFields(columns);
      CsvFieldsMeaning(columns);
      forall i | 0 <= i < |rows|
        ensures var m := AttributesOf(names, columns, rows[i], fields, parse, toDate);
          forall k :: k in m <==> k in columns && IsAttributeColumn(k) && Declares(fields, k) && !CellOf(columns, rows[i], k).Missing?
      {
        AttributesDomain(names, columns, rows[i], fields, parse, toDate);
      }
    }
  }

  /** The row loop: one feature per row, its attributes from the attribute
      columns and its point from the row's coordinates. */
  method PreparePoints(csvFields: seq<string>, columns: seq<string>, rows: seq<seq<Cell>>, xs: seq<Decimal>, ys: seq<Decimal>,
                       fields: seq<FieldDef>, parse: string -> Option<Decimal>, toDate: Cell -> Option<int>)
    returns (features: seq<PointFeature>)
    requires WellFormed(columns, rows) && |xs| == |rows| && |ys| == |rows|
    requires forall i :: 0 <= i < |csvFields| ==> csvFields[i] in columns
    ensures |features| == |rows|
    ensures forall j :: 0 <= j < |rows| ==>
      features[j] == PointFeature(AttributesOf(csvFields, columns, rows[j], fields, parse, toDate), XY(xs[j], ys[j], Wgs84))
  {
    features := [];
    for i := 0 to |rows|
      invariant |features| == i
      invariant forall j :: 0 <= j < i ==>
        features[j] == PointFeature(AttributesOf(csvFields, columns, rows[j], fields, parse, toDate), XY(xs[j], ys[j], Wgs84))
    {
      var attributes := BuildAttributes(csvFields, columns, rows[i], fields, parse, toDate);
      var geometry := XY(xs[i], ys[i], Wgs84);
      features := features + [PointFeature(attributes, geometry)];
    }
  }

  /** The upload script: rename, check, read the coordinates, prepare one
      feature per row, then add the features in chunks of 100 when there
      are any. */
  method UploadSheet(columns: seq<string>, rows: seq<seq<Cell>>, mapping: map<string, string>, fields: seq<FieldDef>,
                     parse: string -> Option<Decimal>, toDate: Cell -> Option<int>,
                     respond: (nat, seq<PointFeature>) -> AddResponse)
    returns (prepared: SheetOutcome, sent: seq<seq<PointFeature>>, added: int, failed: int)
    requires WellFormed(columns, rows)
    ensures prepared == SheetFeatures(Renamed(columns, mapping), rows, fields, parse, toDate)
    ensures prepared.Features? ==>
      sent == Chunks(prepared.features, ChunkSize) && Tally(added, failed) == Tallied(sent, respond) &&
      added + failed == |prepared.features| && added >= 0
    ensures !prepared.Features? ==> sent == [] && added == 0 && failed == 0
  {
    sent, added, failed := [], 0, 0;
    var names := Renamed(columns, mapping);
    if rows == [] || names == [] {
      prepared := EmptySheet;
      return;
    }
    if LongitudeField !in names || LatitudeField !in names {
      prepared := MissingCoordinateColumn;
      return;
    }
    var xs := NormalizeColumn(rows, IndexOf(names, LongitudeField), parse);
    var ys := NormalizeColumn(rows, IndexOf(names, LatitudeField), parse);
    if xs.None? || ys.None? {
      prepared := BadCoordinate;
      return;
    }
    var csvFields := CsvFields(names);
    CsvFieldsMeaning(names);
    var features := PreparePoints(csvFields, names, rows, xs.value, ys.value, fields, parse, toDate);
    assert features == seq(|rows|, i requires 0 <= i < |rows| =>
      PointFeature(AttributesOf(csvFields, names, rows[i], fields, parse, toDate), XY(xs.value[i], ys.value[i], Wgs84)));
    prepared := Features(features);
    sent, added, failed := AddInChunks(features, respond);
  }
}

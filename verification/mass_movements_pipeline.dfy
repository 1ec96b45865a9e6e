/** The scheduled mass-movements job (`procesar_movimientos_masa`): the
    document's columns are cleaned, the name and description columns are
    found by substring, the HTML description of every placemark is read into
    the layer's fields, the rows without a valid geometry are dropped, the
    SymbolID is read from the digits that end the name, and the chosen
    columns are uploaded in one call.  The HTML parser, the geometry validity
    test and whether the upload call raises are parameters. */
module MassMovementsPipeline {
  import opened Common
  import opened Text
  import opened Identifiers
  import opened EmbeddedAttributes
  import opened Geometry
  import opened Symbology

  // ---------------------------------------------------------------------
  // Columns
  // ---------------------------------------------------------------------

  /** The document's column names after the reduced cleaning, in order. */
  function CleanedColumns(columns: seq<string>): (cleaned: seq<string>)
    ensures |cleaned| == |columns|
  {
    seq(|columns|, i requires 0 <= i < |columns| => CleanReduced(columns[i]))
  }

  /** `col_name` and `col_desc`: the first cleaned columns whose names
      contain "Name" and "Description". */
  function NameColumn(cleaned: seq<string>): Option<string>
  {
    FirstContaining(cleaned, "Name")
  }

  function DescriptionColumn(cleaned: seq<string>): Option<string>
  {
    FirstContaining(cleaned, "Description")
  }

  /** The columns the upload selects from, in this order. */
  const FinalColumns: seq<string> := HtmlFields + ["Name", "SymbolID", "categoria", "geometry"]

  /** Membership in the frame's columns, as a mask. */
  function PresentIn(columns: seq<string>): string -> bool
  {
    c => c in columns
  }

  /** `[c for c in cols_finales if c in gdf.columns]`. */
  function UploadColumns(columns: seq<string>): (r: seq<string>)
    ensures |r| <= |FinalColumns|
  {
    Filter(FinalColumns, PresentIn(columns))
  }

  /** A column is uploaded exactly when it is one of the final columns and
      the frame has it. */
  lemma {:induction false} UploadColumnsMeaning(columns: seq<string>)
    ensures forall c :: c in UploadColumns(columns) <==> c in FinalColumns && c in columns
  {
    forall c
      ensures c in UploadColumns(columns) <==> c in FinalColumns && c in columns
    {
      FilterMembership(FinalColumns, PresentIn(columns), c);
    }
  }

  /** Selecting from `head` followed by four more columns, when the frame
      has every column of `head` and the second of the four. */
  lemma {:induction false} SelectWithHead(head: seq<string>, a: string, b: string, c: string, d: string, columns: seq<string>)
    requires forall i :: 0 <= i < |head| ==> head[i] in columns
    requires b in columns
    ensures Filter(head + ([a] + ([b] + ([c] + [d]))), PresentIn(columns)) ==
      head + ((if a in columns then [a] else []) + ([b] + ((if c in columns then [c] else []) + (if d in columns then [d] else []))))
  {
    var p := PresentIn(columns);
    FilterCons(d, [], p);
    assert [d] + [] == [d];
    FilterCons(c, [d], p);
    FilterCons(b, [c] + [d], p);
    FilterCons(a, [b] + ([c] + [d]), p);
    FilterConcat(head, [a] + ([b] + ([c] + [d])), p);
    FilterAllPass(head, p);
  }

  /** The frame always has the HTML fields and SymbolID, so it uploads them
      all, in the fixed order, with Name, categoria and geometry in their
      places when the frame has them. */
  lemma {:induction false} UploadColumnsOfFrame(columns: seq<string>)
    requires forall i :: 0 <= i < |HtmlFields| ==> HtmlFields[i] in columns
    requires "SymbolID" in columns
    ensures UploadColumns(columns) ==
      HtmlFields + ((if "Name" in columns then ["Name"] else []) + (["SymbolID"] +
        ((if "categoria" in columns then ["categoria"] else []) + (if "geometry" in columns then ["geometry"] else []))))
  {
    assert FinalColumns == HtmlFields + (["Name"] + (["SymbolID"] + (["categoria"] + ["geometry"])));
    SelectWithHead(HtmlFields, "Name", "SymbolID", "categoria", "geometry", columns);
  }

  // ---------------------------------------------------------------------
  // Rows
  // ---------------------------------------------------------------------

  /** One placemark: the cells of the name and description columns (a
      description that is not text is `None`) and its shape. */
  datatype KmlRow<N> = KmlRow(name: Option<string>, description: Option<string>, shape: Option<Shape<N>>)

  /** One uploaded row: its HTML fields, its Name, SymbolID and categoria,
      and its shape. */
  datatype UploadRow<N> = UploadRow(html: map<string, string>, symbology: RowSymbology, shape: Shape<N>)

  /** `geometry.notnull() & geometry.is_valid` on one row. */
  predicate HasValidShape<N>(row: KmlRow<N>, valid: Shape<N> -> bool)
  {
    row.shape.Some? && valid(row.shape.value)
  }

  /** The geometry mask. */
  function ShapeMask<N>(valid: Shape<N> -> bool): KmlRow<N> -> bool
  {
    row => HasValidShape(row, valid)
  }

  /** What a kept row uploads. */
  function UploadRowOf<N>(row: KmlRow<N>, hasNameColumn: bool, hasDescriptionColumn: bool, soup: string -> HtmlDoc): UploadRow<N>
    requires row.shape.Some?
  {
    UploadRow(if hasDescriptionColumn then PipelineAttributes(row.description, soup) else map[],
              RowSymbologyOf(hasNameColumn, row.name), row.shape.value)
  }

  /** How the job ends: an empty document returns `False` at once; otherwise
      the rows it uploads and whether the job reports success. */
  datatype PipelineOutcome<N> = EmptyDocument | Processed(rows: seq<UploadRow<N>>, success: bool)

  /** The job on a document with the given columns and rows. */
  function ProcessDocument<N>(columns: seq<string>, rows: seq<KmlRow<N>>, soup: string -> HtmlDoc,
                              valid: Shape<N> -> bool, uploadRaises: bool): PipelineOutcome<N>
  {
    if rows == [] then EmptyDocument
    else
      var cleaned := CleanedColumns(columns);
      var hasName := NameColumn(cleaned).Some?;
      var hasDescription := DescriptionColumn(cleaned).Some?;
      var kept := Filter(rows, ShapeMask(valid));
      Processed(seq(|kept|, i requires 0 <= i < |kept| => UploadRowOf(kept[i], hasName, hasDescription, soup)),
                !uploadRaises)
  }

  /** The job finds a name column exactly when some column's cleaned name
      contains "Name". */
  lemma {:induction false} NameColumnFound(columns: seq<string>)
    ensures NameColumn(CleanedColumns(columns)).Some? <==>
      exists i :: 0 <= i < |columns| && IsSubstring("Name", CleanReduced(columns[i]))
  {
    var cleaned := CleanedColumns(columns);
    if NameColumn(cleaned).Some? {
      var i :| FirstMatchAt(cleaned, "Name", i);
      assert IsSubstring("Name", CleanReduced(columns[i]));
    }
    if exists i :: 0 <= i < |columns| && IsSubstring("Name", CleanReduced(columns[i])) {
      var i :| 0 <= i < |columns| && IsSubstring("Name", CleanReduced(columns[i]));
      assert IsSubstring("Name", cleaned[i]);
    }
  }

  /** The rows kept by the geometry mask, each turned into its upload row:
      one per row with a valid shape, every one with a valid shape. */
  lemma {:induction false} KeptRows<N>(rows: seq<KmlRow<N>>, valid: Shape<N> -> bool, hasName: bool, hasDescription: bool,
                    soup: string -> HtmlDoc)
    ensures var kept := Filter(rows, ShapeMask(valid));
      var out := seq(|kept|, i requires 0 <= i < |kept| => UploadRowOf(kept[i], hasName, hasDescription, soup));
      |out| == CountWhere(rows, ShapeMask(valid)) &&
      (forall row :: row in rows && HasValidShape(row, valid) ==> UploadRowOf(row, hasName, hasDescription, soup) in out) &&
      (forall u :: u in out ==> valid(u.shape)) &&
      (forall u :: u in out ==> exists row :: row in kept && u == UploadRowOf(row, hasName, hasDescription, soup))
  {
    var kept := Filter(rows, ShapeMask(valid));
    var out := seq(|kept|, i requires 0 <= i < |kept| => UploadRowOf(kept[i], hasName, hasDescription, soup));
    FilterLength(rows, ShapeMask(valid));
    forall row | row in rows && HasValidShape(row, valid)
      ensures UploadRowOf(row, hasName, hasDescription, soup) in out
    {
      FilterMembership(rows, ShapeMask(valid), row);
      var i :| 0 <= i < |kept| && kept[i] == row;
      assert out[i] == UploadRowOf(row, hasName, hasDescription, soup);
    }
    forall u | u in out
      ensures valid(u.shape) && exists row :: row in kept && u == UploadRowOf(row, hasName, hasDescription, soup)
    {
      var i :| 0 <= i < |out| && out[i] == u;
      assert ShapeMask(valid)(kept[i]);
      assert kept[i] in kept;
    }
  }

  /** The job uploads, in document order, exactly the rows with a present,
      valid shape; with no column whose cleaned name contains "Name" every
      SymbolID is 0 and no Name or categoria is written, otherwise categoria
      repeats SymbolID and Name copies the name cell; success is reported
      exactly when the upload call does not raise, whatever it replies. */
  lemma {:induction false} ProcessDocumentMeaning<N>(columns: seq<string>, rows: seq<KmlRow<N>>, soup: string -> HtmlDoc,
                                  valid: Shape<N> -> bool, uploadRaises: bool)
    ensures rows == [] <==> ProcessDocument(columns, rows, soup, valid, uploadRaises) == EmptyDocument
    ensures var out := ProcessDocument(columns, rows, soup, valid, uploadRaises);
      var hasName := exists i :: 0 <= i < |columns| && IsSubstring("Name", CleanReduced(columns[i]));
      var hasDescription := DescriptionColumn(CleanedColumns(columns)).Some?;
      var kept := Filter(rows, ShapeMask(valid));
      out.Processed? ==>
        (out.success <==> !uploadRaises) &&
        out.rows == seq(|kept|, i requires 0 <= i < |kept| => UploadRowOf(kept[i], hasName, hasDescription, soup)) &&
        |out.rows| == CountWhere(rows, ShapeMask(valid)) &&
        (forall row :: row in rows && HasValidShape(row, valid) ==> UploadRowOf(row, hasName, hasDescription, soup) in out.rows) &&
        (forall u :: u in out.rows ==> valid(u.shape)) &&
        (forall u :: u in out.rows ==>
           (hasName ==> u.symbology.categoria == Some(u.symbology.symbolId)) &&
           (!hasName ==> u.symbology == RowSymbology(0, None, None)) &&
           (!hasDescription ==> u.html == map[]))
  {
    if rows != [] {
      var cleaned := CleanedColumns(columns);
      var hasName := NameColumn(cleaned).Some?;
      var hasDescription := DescriptionColumn(cleaned).Some?;
      NameColumnFound(columns);
      KeptRows(rows, valid, hasName, hasDescription, soup);
    }
  }
}

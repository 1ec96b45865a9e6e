/** The full mass-movements script: placemarks are filtered by name, their
    HTML descriptions are read into the expected columns, rows without
    meaningful HTML content or without a usable geometry are dropped, and
    each remaining row becomes a feature (attributes plus wire geometry)
    unless it carries nothing at all.  The prepared features are then added
    in chunks (module BatchUpload).  The frame stages run in either
    `Reading` of the script: as written, or with its area comparison and
    cell normalisation corrected.  The HTML parser, the layer's field list,
    number parsing and the geometry validity tests are parameters. */
module MassMovements {
  import opened Common
  import opened Text
  import opened Numbers
  import opened EmbeddedAttributes
  import opened Coercion
  import opened Geometry
  import opened Symbology
  import opened BatchUpload

  // ---------------------------------------------------------------------
  // Frame filters
  // ---------------------------------------------------------------------

  /** One placemark as read from the document: its name cell, its HTML
      description and its shape (any of them may be missing). */
  datatype Placemark<N> = Placemark(name: Option<string>, description: Option<string>, shape: Option<Shape<N>>)

  /** A name cell that is present and not blank. */
  predicate HasName<N>(p: Placemark<N>)
  {
    p.name.Some? && Strip(p.name.value) != []
  }

  /** The name filter, applied only when the document has a name column. */
  function NameFilter<N>(ps: seq<Placemark<N>>, hasNameColumn: bool): (kept: seq<Placemark<N>>)
    ensures |kept| <= |ps|
  {
    if hasNameColumn then Filter(ps, HasName) else ps
  }

  /** A placemark survives the name filter exactly when the document has no
      name column or its name is present and not blank; order is kept. */
  lemma {:induction false} NameFilterKeeps<N>(ps: seq<Placemark<N>>, hasNameColumn: bool, p: Placemark<N>)
    ensures p in NameFilter(ps, hasNameColumn) <==> p in ps && (!hasNameColumn || HasName(p))
  {
    FilterMembership(ps, HasName, p);
  }

  /** A row of the frame once the HTML columns were filled in and
      normalised: the expected cells that are not missing, by label. */
  datatype Record<N> = Record(name: Option<string>, columns: map<string, string>, shape: Option<Shape<N>>)

  /** The HTML cells of one placemark as extracted: read from the first
      table of its description when the document has a description column,
      and all unset otherwise. */
  function RawAttributes<N>(reading: Reading, p: Placemark<N>, hasDescriptionColumn: bool,
                            soup: string -> HtmlDoc): map<string, string>
  {
    if hasDescriptionColumn then FullAttributes(p.description, soup, AreaKey(reading)) else map[]
  }

  /** The row of one placemark: its extracted HTML cells, normalised. */
  function Extract<N>(reading: Reading, p: Placemark<N>, hasDescriptionColumn: bool, soup: string -> HtmlDoc): (r: Record<N>)
    ensures forall k :: k in r.columns ==> k in HtmlKeys
  {
    Record(p.name, NormalizedColumns(reading, RawAttributes(reading, p, hasDescriptionColumn, soup)), p.shape)
  }

  /** The content filter: some expected column is not missing. */
  predicate Meaningful<N>(r: Record<N>)
  {
    exists i :: 0 <= i < |HtmlKeys| && HtmlKeys[i] in r.columns
  }

  /** On an extracted row the content filter is the reading's own filter on
      the extracted cells. */
  lemma {:induction false} MeaningfulExtract<N>(reading: Reading, p: Placemark<N>, hasDescriptionColumn: bool,
                                                soup: string -> HtmlDoc)
    ensures var stored := RawAttributes(reading, p, hasDescriptionColumn, soup);
      Meaningful(Extract(reading, p, hasDescriptionColumn, soup)) <==>
      (if reading == AsWritten then HasContentAsWritten(stored) else HasContent(stored))
  {
    ContentFilterByColumns(reading, RawAttributes(reading, p, hasDescriptionColumn, soup));
  }

  /** As written, every extracted row passes the content filter, whether or
      not the document has a description column. */
  lemma {:induction false} MeaningfulAsWritten<N>(p: Placemark<N>, hasDescriptionColumn: bool, soup: string -> HtmlDoc)
    ensures Meaningful(Extract(AsWritten, p, hasDescriptionColumn, soup))
  {
    MeaningfulExtract(AsWritten, p, hasDescriptionColumn, soup);
    ContentFilterKeepsEveryRowAsWritten(if hasDescriptionColumn then p.description else None, soup);
  }

  /** The geometry filter: a shape that is present, valid and not empty. */
  function GeometryMask<N>(valid: Shape<N> -> bool, isEmpty: Shape<N> -> bool): Record<N> -> bool
  {
    (r: Record<N>) => r.shape.Some? && valid(r.shape.value) && !isEmpty(r.shape.value)
  }

  /** Where the script stops before preparing features, or the rows it
      prepares. */
  datatype FrameOutcome<N> = EmptyDocument | NoContent | NoValidGeometry | Frame(records: seq<Record<N>>)

  /** The frame stages in order: an empty document stops the script; the
      name filter; the HTML columns; the content filter, which runs only on
      a non-empty frame and stops the script when it empties it; the
      geometry filter, which stops the script when nothing is left. */
  function PrepareFrame<N>(reading: Reading, ps: seq<Placemark<N>>, hasNameColumn: bool, hasDescriptionColumn: bool,
                           soup: string -> HtmlDoc, valid: Shape<N> -> bool, isEmpty: Shape<N> -> bool): FrameOutcome<N>
  {
    if ps == [] then EmptyDocument
    else
      var named := NameFilter(ps, hasNameColumn);
      var records := seq(|named|, i requires 0 <= i < |named| => Extract(reading, named[i], hasDescriptionColumn, soup));
      var content := if records == [] then records else Filter(records, Meaningful);
      if records != [] && content == [] then NoContent
      else
        var located := Filter(content, GeometryMask(valid, isEmpty));
        if located == [] then NoValidGeometry else Frame(located)
  }

  /** The frame the script goes on with is made of rows of the document that
      passed every filter: a non-blank name when there is a name column, some
      HTML content, a valid non-empty shape.  Conversely a placemark that
      passes every filter is kept, so the script does go on. */
  lemma {:induction false} PrepareFrameFilters<N>(reading: Reading, ps: seq<Placemark<N>>, hasNameColumn: bool, hasDescriptionColumn: bool,
                               soup: string -> HtmlDoc, valid: Shape<N> -> bool, isEmpty: Shape<N> -> bool)
    ensures ps == [] ==> PrepareFrame(reading, ps, hasNameColumn, hasDescriptionColumn, soup, valid, isEmpty) == EmptyDocument
    ensures var out := PrepareFrame(reading, ps, hasNameColumn, hasDescriptionColumn, soup, valid, isEmpty);
      out.Frame? ==>
        (out.records != [] &&
         forall r :: r in out.records ==>
           (Meaningful(r) && GeometryMask(valid, isEmpty)(r) &&
            exists p :: p in ps && (!hasNameColumn || HasName(p)) && r == Extract(reading, p, hasDescriptionColumn, soup)))
    ensures forall p ::
      (p in ps && (!hasNameColumn || HasName(p)) &&
       Meaningful(Extract(reading, p, hasDescriptionColumn, soup)) &&
       GeometryMask(valid, isEmpty)(Extract(reading, p, hasDescriptionColumn, soup))) ==>
      (var out := PrepareFrame(reading, ps, hasNameColumn, hasDescriptionColumn, soup, valid, isEmpty);
       out.Frame? && Extract(reading, p, hasDescriptionColumn, soup) in out.records)
  {
    if ps != [] {
      var named := NameFilter(ps, hasNameColumn);
      var records := seq(|named|, i requires 0 <= i < |named| => Extract(reading, named[i], hasDescriptionColumn, soup));
      var mask := GeometryMask(valid, isEmpty);
      forall r | r in records
        ensures exists p :: p in ps && (!hasNameColumn || HasName(p)) && r == Extract(reading, p, hasDescriptionColumn, soup)
      {
        var i :| 0 <= i < |records| && records[i] == r;
        NameFilterKeeps(ps, hasNameColumn, named[i]);
      }
      if records != [] {
        var content := Filter(records, Meaningful);
        forall r | r in Filter(content, mask)
          ensures r in records && Meaningful(r) && mask(r)
        {
          FilterMembership(content, mask, r);
          FilterMembership(records, Meaningful, r);
        }
      }
      forall p | p in ps && (!hasNameColumn || HasName(p)) &&
          Meaningful(Extract(reading, p, hasDescriptionColumn, soup)) && mask(Extract(reading, p, hasDescriptionColumn, soup))
        ensures var out := PrepareFrame(reading, ps, hasNameColumn, hasDescriptionColumn, soup, valid, isEmpty);
          out.Frame? && Extract(reading, p, hasDescriptionColumn, soup) in out.records
      {
        var r := Extract(reading, p, hasDescriptionColumn, soup);
        NameFilterKeeps(ps, hasNameColumn, p);
        var i :| 0 <= i < |named| && named[i] == p;
        assert records[i] == r;
        var content := Filter(records, Meaningful);
        FilterMembership(records, Meaningful, r);
        FilterMembership(content, mask, r);
      }
    }
  }

  /** As written, the content filter never stops the script, and every
      placemark that passes the name filter and has a valid, non-empty shape
      is kept, with or without HTML content. */
  lemma {:induction false} PrepareFrameAsWritten<N>(ps: seq<Placemark<N>>, hasNameColumn: bool, hasDescriptionColumn: bool,
                                                    soup: string -> HtmlDoc, valid: Shape<N> -> bool, isEmpty: Shape<N> -> bool)
    ensures PrepareFrame(AsWritten, ps, hasNameColumn, hasDescriptionColumn, soup, valid, isEmpty) != NoContent
    ensures forall p ::
      (p in ps && (!hasNameColumn || HasName(p)) &&
       GeometryMask(valid, isEmpty)(Extract(AsWritten, p, hasDescriptionColumn, soup))) ==>
      (var out := PrepareFrame(AsWritten, ps, hasNameColumn, hasDescriptionColumn, soup, valid, isEmpty);
       out.Frame? && Extract(AsWritten, p, hasDescriptionColumn, soup) in out.records)
  {
    if ps != [] {
      var named := NameFilter(ps, hasNameColumn);
      var records := seq(|named|, i requires 0 <= i < |named| => Extract(AsWritten, named[i], hasDescriptionColumn, soup));
      forall i | 0 <= i < |records|
        ensures Meaningful(records[i])
      {
        MeaningfulAsWritten(named[i], hasDescriptionColumn, soup);
      }
      FilterAllPass(records, Meaningful);
    }
    forall p | p in ps
      ensures Meaningful(Extract(AsWritten, p, hasDescriptionColumn, soup))
    {
      MeaningfulAsWritten(p, hasDescriptionColumn, soup);
    }
    PrepareFrameFilters(AsWritten, ps, hasNameColumn, hasDescriptionColumn, soup, valid, isEmpty);
  }

  /** A single placemark with no name column, no description and a valid
      shape: the script as written goes on with it, while the corrected
      content filter stops the script. */
  lemma {:induction false} DescriptionlessPlacemark<N>(s: Shape<N>, soup: string -> HtmlDoc,
                                                       valid: Shape<N> -> bool, isEmpty: Shape<N> -> bool)
    requires valid(s) && !isEmpty(s)
    ensures PrepareFrame(AsWritten, [Placemark(None, None, Some(s))], false, true, soup, valid, isEmpty).Frame?
    ensures PrepareFrame(Corrected, [Placemark(None, None, Some(s))], false, true, soup, valid, isEmpty) == NoContent
  {
    var p := Placemark(None, None, Some(s));
    PrepareFrameAsWritten([p], false, true, soup, valid, isEmpty);
    var r := Extract(Corrected, p, true, soup);
    MeaningfulExtract(Corrected, p, true, soup);
    ContentFilterKeepsEveryRowAsWritten(None, soup);
    assert !Meaningful(r);
    var records := seq(1, i requires 0 <= i < 1 => Extract(Corrected, [p][i], true, soup));
    assert records == [r];
    FilterCons(r, [], Meaningful);
  }

  // ---------------------------------------------------------------------
  // One feature
  // ---------------------------------------------------------------------

  const NameField: string := "Name"
  const SymbolField: string := "SymbolID"
  const CategoryField: string := "categoria"

  /** A feature to add: its attributes by field name and its geometry. */
  datatype Feature<N> = Feature(attributes: map<string, Value>, geometry: Wire<N>)

  /** What the feature loop does with one row. */
  datatype Prepared<N> = NoGeometry | Skipped | Added(feature: Feature<N>)

  /** The text the loop reads from the name cell: `str(cell)`, or "" when the
      document has no name column. */
  function NameText(hasNameColumn: bool, cell: Option<string>): string
  {
    if !hasNameColumn then "" else if cell.Some? then cell.value else "None"
  }

  /** The SymbolID a label gives for this layer. */
  function LabelSymbol(fields: seq<FieldDef>, parsed: LabelParse): (v: Value)
  {
    SymbolValue(parsed.number, TypeOf(fields, SymbolField))
  }

  /** Name, SymbolID and categoria, each written only when the layer
      declares the field. */
  function LabelAttributes(fields: seq<FieldDef>, parsed: LabelParse): (m: map<string, Value>)
    ensures forall k :: k in m <==> (k == NameField || k == SymbolField || k == CategoryField) && Declares(fields, k)
    ensures NameField in m ==> m[NameField] == NameAttribute(parsed.name)
    ensures SymbolField in m ==> m[SymbolField] == LabelSymbol(fields, parsed)
    ensures CategoryField in m ==> m[CategoryField] == LabelSymbol(fields, parsed)
  {
    var m1: map<string, Value> := if Declares(fields, NameField) then map[NameField := NameAttribute(parsed.name)] else map[];
    var m2 := if Declares(fields, SymbolField) then m1[SymbolField := LabelSymbol(fields, parsed)] else m1;
    if Declares(fields, CategoryField) then m2[CategoryField := LabelSymbol(fields, parsed)] else m2
  }

  /** The value written for the `i`-th HTML column, if one is: the layer
      must declare its field and the cell must hold a non-blank value; the
      value is converted for the field's type and may be `Null`. */
  function HtmlValue(i: nat, columns: map<string, string>, fields: seq<FieldDef>,
                     parse: string -> Option<Decimal>): Option<Value>
    requires i < |HtmlKeys|
  {
    var field := HtmlFields[i];
    if Declares(fields, field) && HtmlKeys[i] in columns then
      Some(CoerceHtml(columns[HtmlKeys[i]], TypeOf(fields, field), FirstDef(fields, field), parse))
    else None
  }

  /** What each of the HTML columns writes, in the order of the key map. */
  function HtmlWrites(columns: map<string, string>, fields: seq<FieldDef>,
                      parse: string -> Option<Decimal>): (w: seq<Option<Value>>)
    ensures |w| == |HtmlKeys|
  {
    seq(|HtmlKeys|, i requires 0 <= i < |HtmlKeys| => HtmlValue(i, columns, fields, parse))
  }

  /** `base` after the first `i` writes, in order, the `j`-th to the field
      `names[j]`. */
  function WriteFields(base: map<string, Value>, names: seq<string>, w: seq<Option<Value>>, i: nat): map<string, Value>
    requires i <= |w| <= |names|
  {
    if i == 0 then base
    else
      var m := WriteFields(base, names, w, i - 1);
      if w[i - 1].Some? then m[names[i - 1] := w[i - 1].value] else m
  }

  /** Some of the first `i` writes is a value other than `Null`. */
  predicate AnyValue(w: seq<Option<Value>>, i: nat)
    requires i <= |w|
  {
    exists j :: 0 <= j < i && w[j].Some? && w[j].value != Null
  }

  /** `not attributes.get("Name")`: no Name, `None` or the empty text. */
  predicate NameIsEmpty(attributes: map<string, Value>)
  {
    NameField !in attributes || attributes[NameField] == Null || attributes[NameField] == Text("")
  }

  /** What the loop makes of one row: no feature without a converted
      geometry; a skipped row when SymbolID is the default, the Name is empty
      and no HTML column gave a value; otherwise the feature. */
  function PrepareRow<N>(r: Record<N>, hasNameColumn: bool, fields: seq<FieldDef>,
                         parse: string -> Option<Decimal>): Prepared<N>
  {
    var parsed := ParseLabel(NameText(hasNameColumn, r.name));
    var writes := HtmlWrites(r.columns, fields, parse);
    var attributes := WriteFields(LabelAttributes(fields, parsed), HtmlFields, writes, |writes|);
    var geometry := if r.shape.Some? then WireOf(r.shape.value) else None;
    if geometry.None? then NoGeometry
    else if IsDefaultSymbol(LabelSymbol(fields, parsed)) && NameIsEmpty(attributes) && !AnyValue(writes, |writes|)
    then Skipped
    else Added(Feature(attributes, geometry.value))
  }

  /** One more write gives a value exactly when the earlier ones did or it
      is a value other than `Null`. */
  lemma {:induction false} AnyValueStep(w: seq<Option<Value>>, i: nat)
    requires i < |w|
    ensures AnyValue(w, i + 1) <==> AnyValue(w, i) || (w[i].Some? && w[i].value != Null)
  {
    if AnyValue(w, i + 1) && !(w[i].Some? && w[i].value != Null) {
      var j :| 0 <= j < i + 1 && w[j].Some? && w[j].value != Null;
      assert j < i;
    }
  }

  /** The HTML columns in order: each one the layer declares and the cell
      fills writes its converted value over `base`, and `hasAny` notes
      whether one of them was a value other than `Null`. */
  method WriteHtmlColumns(base: map<string, Value>, columns: map<string, string>, fields: seq<FieldDef>,
                          parse: string -> Option<Decimal>) returns (attributes: map<string, Value>, hasAny: bool)
    ensures attributes == WriteFields(base, HtmlFields, HtmlWrites(columns, fields, parse), |HtmlKeys|)
    ensures hasAny <==> AnyValue(HtmlWrites(columns, fields, parse), |HtmlKeys|)
  {
    attributes := base;
    ghost var writes := HtmlWrites(columns, fields, parse);
    hasAny := false;
    var i := 0;
    while i < |HtmlKeys|
      invariant i <= |HtmlKeys|
      invariant attributes == WriteFields(base, HtmlFields, writes, i)
      invariant hasAny <==> AnyValue(writes, i)
    {
      var field := HtmlFields[i];
      AnyValueStep(writes, i);
      if Declares(fields, field) {
        var key := HtmlKeys[i];
        if key in columns {
          var value := CoerceHtml(columns[key], TypeOf(fields, field), FirstDef(fields, field), parse);
          assert writes[i] == Some(value);
          attributes := attributes[field := value];
          if value != Null {
            hasAny := true;
          }
        } else {
          assert writes[i] == None;
        }
      } else {
        assert writes[i] == None;
      }
      i := i + 1;
    }
  }

  /** The body of the feature loop for one row: the label attributes, then
      the HTML columns in order while noting whether any gave a value, then
      the geometry, then the secondary filter. */
  method PrepareFeature<N>(r: Record<N>, hasNameColumn: bool, fields: seq<FieldDef>,
                           parse: string -> Option<Decimal>) returns (p: Prepared<N>)
    ensures p == PrepareRow(r, hasNameColumn, fields, parse)
  {
    var parsed := ParseLabel(NameText(hasNameColumn, r.name));
    var attributes: map<string, Value> := map[];
    if Declares(fields, NameField) {
      attributes := attributes[NameField := NameAttribute(parsed.name)];
    }
    var symbol := SymbolValue(parsed.number, TypeOf(fields, SymbolField));
    if Declares(fields, SymbolField) {
      attributes := attributes[SymbolField := symbol];
    }
    if Declares(fields, CategoryField) {
      attributes := attributes[CategoryField := symbol];
    }
    assert attributes == LabelAttributes(fields, parsed);
    var hasAny;
    attributes, hasAny := WriteHtmlColumns(attributes, r.columns, fields, parse);
    var geometry: Option<Wire<N>> := None;
    if r.shape.Some? {
      geometry := ConvertGeometry(r.shape.value);
    }
    if geometry.None? {
      p := NoGeometry;
    } else if IsDefaultSymbol(symbol) && NameIsEmpty(attributes) && !hasAny {
      p := Skipped;
    } else {
      p := Added(Feature(attributes, geometry.value));
    }
  }

  // ---------------------------------------------------------------------
  // What a feature holds
  // ---------------------------------------------------------------------

  /** The HTML fields, the label fields and nothing else are distinct. */
  lemma {:induction false} FieldNamesDistinct()
    ensures forall a, b :: 0 <= a < b < |HtmlFields| ==> HtmlFields[a] != HtmlFields[b]
    ensures NameField !in HtmlFields && SymbolField !in HtmlFields && CategoryField !in HtmlFields
    ensures NameField != SymbolField && NameField != CategoryField && SymbolField != CategoryField
  {
  }

  /** Writing the first `i` fields leaves every field outside them as it
      was. */
  lemma {:induction false} WriteFieldsFrame(base: map<string, Value>, names: seq<string>, w: seq<Option<Value>>, i: nat)
    requires i <= |w| <= |names|
    ensures var m := WriteFields(base, names, w, i);
      forall k :: k !in names[..i] ==> (k in m <==> k in base) && (k in base ==> m[k] == base[k])
  {
    if i > 0 {
      WriteFieldsFrame(base, names, w, i - 1);
      assert names[..i] == names[..i - 1] + [names[i - 1]];
    }
  }

  /** When the field names are distinct, the field `names[j]` holds the
      `j`-th write exactly when there is one, and is otherwise as in
      `base`. */
  lemma {:induction false} WriteFieldsAt(base: map<string, Value>, names: seq<string>, w: seq<Option<Value>>, i: nat, j: nat)
    requires j < i <= |w| <= |names|
    requires forall a, b :: 0 <= a < b < |names| ==> names[a] != names[b]
    ensures var m := WriteFields(base, names, w, i);
      (names[j] in m <==> names[j] in base || w[j].Some?) &&
      (w[j].Some? ==> m[names[j]] == w[j].value) &&
      (w[j].None? && names[j] in base ==> m[names[j]] == base[names[j]])
  {
    if j == i - 1 {
      if w[j].None? {
        WriteFieldsFrame(base, names, w, i - 1);
        assert forall a :: 0 <= a < i - 1 ==> names[a] != names[j];
        assert names[j] !in names[..i - 1];
      }
    } else {
      WriteFieldsAt(base, names, w, i - 1, j);
      assert names[j] != names[i - 1];
    }
  }

  /** The `j`-th HTML column writes exactly when the layer declares its
      field and the cell holds a non-blank value, and then writes the
      converted value. */
  lemma {:induction false} HtmlValueMeaning(j: nat, columns: map<string, string>, fields: seq<FieldDef>,
                         parse: string -> Option<Decimal>)
    requires j < |HtmlKeys|
    ensures var v := HtmlValue(j, columns, fields, parse);
      (v.Some? <==> Declares(fields, HtmlFields[j]) && HtmlKeys[j] in columns) &&
      (v.Some? ==> v.value == CoerceHtml(columns[HtmlKeys[j]],
                                         TypeOf(fields, HtmlFields[j]), FirstDef(fields, HtmlFields[j]), parse))
  {
  }

  /** With distinct field names, writing all of them sets each field that
      has a write to it, leaves each other one as in `base`, and changes
      nothing outside them. */
  lemma {:induction false} WriteFieldsAll(base: map<string, Value>, names: seq<string>, w: seq<Option<Value>>)
    requires |w| == |names|
    requires forall a, b :: 0 <= a < b < |names| ==> names[a] != names[b]
    ensures var m := WriteFields(base, names, w, |w|);
      (forall k :: k !in names ==> (k in m <==> k in base) && (k in base ==> m[k] == base[k])) &&
      (forall j :: 0 <= j < |names| ==>
        (names[j] in m <==> names[j] in base || w[j].Some?) &&
        (w[j].Some? ==> m[names[j]] == w[j].value))
  {
    WriteFieldsFrame(base, names, w, |w|);
    assert names[..|w|] == names;
    forall j | 0 <= j < |names|
      ensures var m := WriteFields(base, names, w, |w|);
        (names[j] in m <==> names[j] in base || w[j].Some?) && (w[j].Some? ==> m[names[j]] == w[j].value)
    {
      WriteFieldsAt(base, names, w, |w|, j);
    }
  }

  /** The attributes of a feature: Name exactly when the layer declares it,
      holding the processed name or `None` when it is blank; SymbolID and
      categoria when declared, both holding the same value, which is never
      `None`; and every declared HTML field whose cell holds a value, with
      that value converted, or `None` when the conversion failed.  No other
      field is written. */
  lemma {:induction false} FeatureAttributes<N>(r: Record<N>, hasNameColumn: bool, fields: seq<FieldDef>,
                             parse: string -> Option<Decimal>)
    ensures var parsed := ParseLabel(NameText(hasNameColumn, r.name));
      var m := WriteFields(LabelAttributes(fields, parsed), HtmlFields, HtmlWrites(r.columns, fields, parse), |HtmlKeys|);
      (NameField in m <==> Declares(fields, NameField)) &&
      (NameField in m ==> m[NameField] == NameAttribute(parsed.name)) &&
      (SymbolField in m <==> Declares(fields, SymbolField)) &&
      (CategoryField in m <==> Declares(fields, CategoryField)) &&
      (SymbolField in m ==> m[SymbolField] == LabelSymbol(fields, parsed) && !m[SymbolField].Null?) &&
      (SymbolField in m && CategoryField in m ==> m[SymbolField] == m[CategoryField]) &&
      (forall j :: 0 <= j < |HtmlKeys| ==>
        (HtmlFields[j] in m <==> Declares(fields, HtmlFields[j]) && HtmlKeys[j] in r.columns) &&
        (HtmlFields[j] in m ==>
          m[HtmlFields[j]] == CoerceHtml(r.columns[HtmlKeys[j]],
                                         TypeOf(fields, HtmlFields[j]), FirstDef(fields, HtmlFields[j]), parse))) &&
      (forall k :: k in m ==> Declares(fields, k))
  {
    var parsed := ParseLabel(NameText(hasNameColumn, r.name));
    var base := LabelAttributes(fields, parsed);
    var writes := HtmlWrites(r.columns, fields, parse);
    FieldNamesDistinct();
    WriteFieldsAll(base, HtmlFields, writes);
    var m := WriteFields(base, HtmlFields, writes, |HtmlKeys|);
    forall j | 0 <= j < |HtmlKeys|
      ensures writes[j] == HtmlValue(j, r.columns, fields, parse)
    {
      HtmlValueMeaning(j, r.columns, fields, parse);
    }
    forall k | k in m
      ensures Declares(fields, k)
    {
      if k in HtmlFields {
        var j :| 0 <= j < |HtmlFields| && HtmlFields[j] == k;
      }
    }
  }

  /** A row is dropped for want of geometry exactly when its shape is
      missing or does not convert; it is skipped exactly when it converts, its
      SymbolID is the default, it has no Name (the layer lacks the field or
      the processed name is empty) and no HTML column gave a non-`None`
      value; every other row is added with its converted geometry. */
  lemma {:induction false} PrepareRowOutcome<N>(r: Record<N>, hasNameColumn: bool, fields: seq<FieldDef>,
                             parse: string -> Option<Decimal>)
    ensures var parsed := ParseLabel(NameText(hasNameColumn, r.name));
      var geometry := if r.shape.Some? then WireOf(r.shape.value) else None;
      var p := PrepareRow(r, hasNameColumn, fields, parse);
      (p.NoGeometry? <==> geometry.None?) &&
      (p.Skipped? <==>
        geometry.Some? && IsDefaultSymbol(LabelSymbol(fields, parsed)) &&
        (!Declares(fields, NameField) || parsed.name == []) &&
        forall j :: 0 <= j < |HtmlKeys| ==>
          HtmlValue(j, r.columns, fields, parse).None? || HtmlValue(j, r.columns, fields, parse).value == Null) &&
      (p.Added? ==> geometry.Some? && p.feature.geometry == geometry.value && p.feature.geometry.wkid == Wgs84)
  {
    var parsed := ParseLabel(NameText(hasNameColumn, r.name));
    var writes := HtmlWrites(r.columns, fields, parse);
    FeatureAttributes(r, hasNameColumn, fields, parse);
    NameAttributeBlank(parsed.name, NameText(hasNameColumn, r.name));
    assert !AnyValue(writes, |writes|) <==>
      forall j :: 0 <= j < |HtmlKeys| ==>
        HtmlValue(j, r.columns, fields, parse).None? || HtmlValue(j, r.columns, fields, parse).value == Null
    by {
      assert forall j :: 0 <= j < |HtmlKeys| ==> writes[j] == HtmlValue(j, r.columns, fields, parse);
    }
  }

  /** As written, "Área_texto" is never filled, so after normalisation its
      column reads "None".  A layer that declares Area_Texto with a type that
      is not numeric gets that text, so no row with a geometry is skipped. */
  lemma {:induction false} AsWrittenNeverSkipped<N>(p: Placemark<N>, hasDescriptionColumn: bool, soup: string -> HtmlDoc,
                                                    hasNameColumn: bool, fields: seq<FieldDef>,
                                                    parse: string -> Option<Decimal>)
    requires Declares(fields, "Area_Texto")
    requires TypeOf(fields, "Area_Texto").None? ||
             !(IsIntegerType(TypeOf(fields, "Area_Texto").value) || IsRealType(TypeOf(fields, "Area_Texto").value))
    ensures var r := Extract(AsWritten, p, hasDescriptionColumn, soup);
      "Área_texto" in r.columns && r.columns["Área_texto"] == "None" &&
      PrepareRow(r, hasNameColumn, fields, parse) != Skipped
  {
    var stored := RawAttributes(AsWritten, p, hasDescriptionColumn, soup);
    if hasDescriptionColumn && p.description.Some? && p.description.value != "" &&
       soup(p.description.value).tables != [] {
      FullAreaNeverStoredAsWritten(soup(p.description.value).tables[0]);
    }
    assert "Área_texto" !in stored;
    assert HtmlKeys[1] == "Área_texto" && HtmlFields[1] == "Area_Texto";
    NormalizedColumnsMeaning(AsWritten, stored, "Área_texto");
    var r := Extract(AsWritten, p, hasDescriptionColumn, soup);
    HtmlValueMeaning(1, r.columns, fields, parse);
    PrepareRowOutcome(r, hasNameColumn, fields, parse);
  }

  // ---------------------------------------------------------------------
  // The feature loop
  // ---------------------------------------------------------------------

  /** Each row's outcome for the given layer and parser. */
  function RowOutcome<N>(hasNameColumn: bool, fields: seq<FieldDef>,
                         parse: string -> Option<Decimal>): Record<N> -> Prepared<N>
  {
    r => PrepareRow(r, hasNameColumn, fields, parse)
  }

  /** The features of the rows whose outcome is a feature, in row order. */
  function Collected<N>(rs: seq<Record<N>>, outcome: Record<N> -> Prepared<N>): seq<Feature<N>>
  {
    if rs == [] then []
    else
      var n := |rs| - 1;
      match outcome(rs[n])
      case Added(f) => Collected(rs[..n], outcome) + [f]
      case _ => Collected(rs[..n], outcome)
  }

  /** How many rows have the given kind of outcome: skipped, or without
      geometry. */
  function CountOutcomes<N>(rs: seq<Record<N>>, outcome: Record<N> -> Prepared<N>, skipped: bool): nat
  {
    if rs == [] then 0
    else
      var n := |rs| - 1;
      var p := outcome(rs[n]);
      CountOutcomes(rs[..n], outcome, skipped) + (if (skipped && p.Skipped?) || (!skipped && p.NoGeometry?) then 1 else 0)
  }

  /** The features the loop collects from the rows, in row order. */
  function AddedFeatures<N>(rs: seq<Record<N>>, hasNameColumn: bool, fields: seq<FieldDef>,
                            parse: string -> Option<Decimal>): seq<Feature<N>>
  {
    Collected(rs, RowOutcome(hasNameColumn, fields, parse))
  }

  /** How many rows end with the given kind of outcome. */
  function OutcomeCount<N>(rs: seq<Record<N>>, hasNameColumn: bool, fields: seq<FieldDef>,
                           parse: string -> Option<Decimal>, skipped: bool): nat
  {
    CountOutcomes(rs, RowOutcome(hasNameColumn, fields, parse), skipped)
  }

  lemma {:induction false} CollectedAccounting<N>(rs: seq<Record<N>>, outcome: Record<N> -> Prepared<N>)
    ensures |Collected(rs, outcome)| + CountOutcomes(rs, outcome, true) + CountOutcomes(rs, outcome, false) == |rs|
  {
    if rs != [] {
      CollectedAccounting(rs[..|rs| - 1], outcome);
    }
  }

  /** Every row is accounted for once: added, skipped by the secondary
      filter, or without geometry. */
  lemma {:induction false} LoopAccounting<N>(rs: seq<Record<N>>, hasNameColumn: bool, fields: seq<FieldDef>,
                                             parse: string -> Option<Decimal>)
    ensures |AddedFeatures(rs, hasNameColumn, fields, parse)| +
            OutcomeCount(rs, hasNameColumn, fields, parse, true) +
            OutcomeCount(rs, hasNameColumn, fields, parse, false) == |rs|
  {
    CollectedAccounting(rs, RowOutcome(hasNameColumn, fields, parse));
  }

  lemma {:induction false} CollectedMembership<N>(rs: seq<Record<N>>, outcome: Record<N> -> Prepared<N>, f: Feature<N>)
    ensures f in Collected(rs, outcome) <==> exists i :: 0 <= i < |rs| && outcome(rs[i]) == Added(f)
  {
    if rs != [] {
      var n := |rs| - 1;
      CollectedMembership(rs[..n], outcome, f);
      assert forall i :: 0 <= i < n ==> rs[..n][i] == rs[i];
    }
  }

  /** A feature is collected for a row exactly when the row's outcome is
      that feature; a row that is skipped or has no geometry contributes
      nothing. */
  lemma {:induction false} AddedFeaturesMembership<N>(rs: seq<Record<N>>, hasNameColumn: bool, fields: seq<FieldDef>,
                                                      parse: string -> Option<Decimal>, f: Feature<N>)
    ensures f in AddedFeatures(rs, hasNameColumn, fields, parse) <==>
      exists i :: 0 <= i < |rs| && PrepareRow(rs[i], hasNameColumn, fields, parse) == Added(f)
  {
    var outcome := RowOutcome(hasNameColumn, fields, parse);
    CollectedMembership(rs, outcome, f);
    assert forall i :: 0 <= i < |rs| ==> outcome(rs[i]) == PrepareRow(rs[i], hasNameColumn, fields, parse);
  }

  /** The feature loop over the frame's rows. */
  method PrepareFeatures<N>(rs: seq<Record<N>>, hasNameColumn: bool, fields: seq<FieldDef>,
                            parse: string -> Option<Decimal>)
    returns (features: seq<Feature<N>>, skipped: nat)
    ensures features == AddedFeatures(rs, hasNameColumn, fields, parse)
    ensures skipped == OutcomeCount(rs, hasNameColumn, fields, parse, true)
    ensures |features| + skipped <= |rs|
  {
    features, skipped := [], 0;
    for i := 0 to |rs|
      invariant features == AddedFeatures(rs[..i], hasNameColumn, fields, parse)
      invariant skipped == OutcomeCount(rs[..i], hasNameColumn, fields, parse, true)
    {
      assert rs[..i + 1][..i] == rs[..i];
      var p := PrepareFeature(rs[i], hasNameColumn, fields, parse);
      match p {
        case Added(f) =>
          features := features + [f];
        case Skipped =>
          skipped := skipped + 1;
        case NoGeometry =>
      }
    }
    assert rs[..|rs|] == rs;
    LoopAccounting(rs, hasNameColumn, fields, parse);
  }

  /** Sections 7 to 7.4 of the script: prepare the features, then add them in
      chunks of 100; every row is added, skipped or without geometry, and
      every prepared feature is counted once as added or failed. */
  method PrepareAndAdd<N>(rs: seq<Record<N>>, hasNameColumn: bool, fields: seq<FieldDef>,
                          parse: string -> Option<Decimal>, respond: (nat, seq<Feature<N>>) -> AddResponse)
    returns (features: seq<Feature<N>>, skipped: nat, sent: seq<seq<Feature<N>>>, added: int, failed: int)
    ensures features == AddedFeatures(rs, hasNameColumn, fields, parse)
    ensures |features| + skipped + OutcomeCount(rs, hasNameColumn, fields, parse, false) == |rs|
    ensures sent == Chunks(features, ChunkSize) && Flatten(sent) == features
    ensures added + failed == |features| && added >= 0
    ensures features == [] ==> sent == []
  {
    features, skipped := PrepareFeatures(rs, hasNameColumn, fields, parse);
    LoopAccounting(rs, hasNameColumn, fields, parse);
    sent, added, failed := AddInChunks(features, respond);
    ChunksFlatten(features, ChunkSize);
  }
}

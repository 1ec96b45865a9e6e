/** Attributes embedded in a placemark's HTML description: a table whose rows
    hold a label cell and a value cell.  The description is parsed by an HTML
    parser that is a parameter of the model (`soup`); what the model sees of
    it is, per table, the rows of cell texts (each cell's text with
    surrounding whitespace removed).

    Two extractions exist.  The full script reads the first table only and
    stores a value under the cleaned label when that label is one of the
    expected keys; the pipelines script reads every row of the document and
    maps the reduced label through the key-to-field map, assigning the
    "Área" rows positionally. */
module EmbeddedAttributes {
  import opened Common
  import opened Text
  import opened Identifiers

  /** The texts of the data cells of one table row. */
  type Row = seq<string>

  /** What the HTML parser yields for a description: its tables, in document
      order, each as its rows. */
  datatype HtmlDoc = HtmlDoc(tables: seq<seq<Row>>)

  /** The cleaned HTML labels the full script expects, in the order of the
      key-to-field map. */
  const HtmlKeys: seq<string> :=
    ["Municipio", "Área_texto", "Vereda", "Comuna", "Barrio", "Área_num", "Acu_7", "Acu_90_7"]

  /** HTML label to feature-layer field name (identical in both scripts). */
  const HtmlFieldMap: map<string, string> :=
    map["Municipio" := "Municipio", "Área_texto" := "Area_Texto", "Vereda" := "Vereda",
        "Comuna" := "Comuna", "Barrio" := "Barrio", "Área_num" := "Area_Numerica",
        "Acu_7" := "Acu_7", "Acu_90_7" := "Acu_90_7"]

  /** The feature-layer fields the HTML attributes go to, in map order. */
  const HtmlFields: seq<string> :=
    ["Municipio", "Area_Texto", "Vereda", "Comuna", "Barrio", "Area_Numerica", "Acu_7", "Acu_90_7"]

  /** The cleaned form of the label "Área": the ASCII-only identifier class
      deletes the accented letter. */
  const CleanedAreaLabel: string := "rea"

  /** The map lists exactly the expected keys, and sends the i-th key to the
      i-th field. */
  lemma {:induction false} FieldMapMatchesKeys()
    ensures |HtmlKeys| == |HtmlFields| == 8
    ensures forall i :: 0 <= i < |HtmlKeys| ==> HtmlKeys[i] in HtmlFieldMap && HtmlFieldMap[HtmlKeys[i]] == HtmlFields[i]
    ensures forall k :: k in HtmlFieldMap <==> k in HtmlKeys
  {
  }

  /** The values of the two-cell rows whose label cleans (with `clean`) to
      `key`, in document order. */
  function KeyedValues(rows: seq<Row>, key: string, clean: string -> string): (vs: seq<string>)
    ensures |vs| <= |rows|
  {
    if rows == [] then []
    else
      var last := rows[|rows| - 1];
      KeyedValues(rows[..|rows| - 1], key, clean) + (if |last| == 2 && clean(last[0]) == key then [last[1]] else [])
  }

  /** No label cleans to a text that has a character outside the identifier
      class, so the rows keyed by such a text are none. */
  lemma {:induction false} KeyedValuesNone(rows: seq<Row>, key: string, clean: string -> string)
    requires forall t :: clean(t) != key
    ensures KeyedValues(rows, key, clean) == []
  {
    if rows != [] {
      KeyedValuesNone(rows[..|rows| - 1], key, clean);
    }
  }

  // ---------------------------------------------------------------------
  // Full script: first table, cleaned labels, "Área" counter
  // ---------------------------------------------------------------------

  /** The values stored so far for one placemark and how many "Área" rows
      were seen. */
  datatype ExtractState = ExtractState(stored: map<string, string>, areaCount: nat)

  /** One table row of the full script.  A row whose cleaned label equals
      `areaKey` fills "Área_texto" the first time and "Área_num" the second;
      any other expected key is overwritten.  As written the script compares
      with "Área"; the corrected comparison is with `CleanedAreaLabel`. */
  function FullStep(st: ExtractState, row: Row, areaKey: string): ExtractState
  {
    if |row| != 2 then st
    else
      var key := CleanKey(row[0]);
      var value := row[1];
      if key == areaKey then
        var stored :=
          if st.areaCount == 0 then st.stored["Área_texto" := value]
          else if st.areaCount == 1 then st.stored["Área_num" := value]
          else st.stored;
        ExtractState(stored, st.areaCount + 1)
      else if key in HtmlKeys then ExtractState(st.stored[key := value], st.areaCount)
      else st
  }

  /** The state after the rows of one table, in order.  Only expected keys
      are ever stored. */
  function FullFold(rows: seq<Row>, areaKey: string): (st: ExtractState)
    ensures forall k :: k in st.stored ==> k in HtmlKeys
  {
    if rows == [] then ExtractState(map[], 0)
    else FullStep(FullFold(rows[..|rows| - 1], areaKey), rows[|rows| - 1], areaKey)
  }

  /** The full script's loop over the rows of the first table. */
  method ExtractTableAttributes(rows: seq<Row>, areaKey: string) returns (stored: map<string, string>)
    ensures stored == FullFold(rows, areaKey).stored
    ensures forall k :: k in stored ==> k in HtmlKeys
  {
    var areaCount := 0;
    stored := map[];
    var i := 0;
    while i < |rows|
      invariant 0 <= i <= |rows|
      invariant ExtractState(stored, areaCount) == FullFold(rows[..i], areaKey)
    {
      var row := rows[i];
      assert rows[..i + 1][..i] == rows[..i];
      if |row| == 2 {
        var key := CleanKey(row[0]);
        var value := row[1];
        if key == areaKey {
          if areaCount == 0 {
            stored := stored["Área_texto" := value];
          } else if areaCount == 1 {
            stored := stored["Área_num" := value];
          }
          areaCount := areaCount + 1;
        } else if key in HtmlKeys {
          stored := stored[key := value];
        }
      }
      i := i + 1;
    }
    assert rows[..i] == rows;
  }

  /** Every expected key other than the two "Área" slots holds the value of
      the last two-cell row whose label cleans to it, and is unset when there
      is no such row. */
  lemma {:induction false} FullLastWins(rows: seq<Row>, areaKey: string, k: string)
    requires areaKey !in HtmlKeys
    requires k in HtmlKeys && k != "Área_texto" && k != "Área_num"
    ensures var st := FullFold(rows, areaKey).stored;
      var vs := KeyedValues(rows, k, CleanKey);
      (k in st <==> vs != []) && (k in st ==> st[k] == vs[|vs| - 1])
  {
    if rows != [] {
      FullLastWins(rows[..|rows| - 1], areaKey, k);
    }
  }

  /** The "Área" slots: the first row keyed `areaKey` fills "Área_texto", the
      second fills "Área_num", and further ones are counted but dropped. */
  lemma {:induction false} FullAreaSlots(rows: seq<Row>, areaKey: string)
    requires areaKey !in HtmlKeys
    ensures var st := FullFold(rows, areaKey);
      var av := KeyedValues(rows, areaKey, CleanKey);
      st.areaCount == |av| &&
      ("Área_texto" in st.stored <==> |av| >= 1) &&
      ("Área_texto" in st.stored ==> st.stored["Área_texto"] == av[0]) &&
      ("Área_num" in st.stored <==> |av| >= 2) &&
      ("Área_num" in st.stored ==> st.stored["Área_num"] == av[1])
  {
    if rows != [] {
      var init := rows[..|rows| - 1];
      FullAreaSlots(init, areaKey);
      var last := rows[|rows| - 1];
      if |last| == 2 {
        CleanKeyIsAscii(last[0]);
      }
    }
  }

  /** As written, the comparison with "Área" never holds (the cleaned label
      has lost its accent), so the two "Área" slots are never filled and the
      counter stays at zero, whatever the table holds. */
  lemma {:induction false} FullAreaNeverStoredAsWritten(rows: seq<Row>)
    ensures var st := FullFold(rows, "Área");
      st.areaCount == 0 && "Área_texto" !in st.stored && "Área_num" !in st.stored
  {
    forall t: string
      ensures CleanKey(t) != "Área"
    {
      CleanKeyIsAscii(t);
    }
    KeyedValuesNone(rows, "Área", CleanKey);
    FullAreaSlots(rows, "Área");
  }

  /** Two rows whose label cleans to "rea": the corrected comparison fills
      both slots in order, while the script as written stores nothing. */
  lemma {:induction false} TwoAreaRows(text: string, first: string, second: string)
    requires CleanKey(text) == CleanedAreaLabel
    ensures FullFold([[text, first], [text, second]], CleanedAreaLabel).stored
      == map["Área_texto" := first, "Área_num" := second]
    ensures FullFold([[text, first], [text, second]], "Área").stored == map[]
  {
    var rows: seq<Row> := [[text, first], [text, second]];
    assert rows[..1][..0] == [];
    assert rows[..1] == [[text, first]];
    assert CleanedAreaLabel !in HtmlKeys;
    var start := ExtractState(map[], 0);
    var row: Row := [text, first];
    assert rows[..1][0] == row;
    assert FullFold(rows[..1], CleanedAreaLabel) == FullStep(start, row, CleanedAreaLabel);
    assert FullFold(rows[..1], "Área") == FullStep(start, row, "Área");
    var once := FullFold(rows[..1], CleanedAreaLabel);
    assert once == ExtractState(map["Área_texto" := first], 1);
    assert FullFold(rows, CleanedAreaLabel) == FullStep(once, rows[1], CleanedAreaLabel);
    var none := FullFold(rows[..1], "Área");
    assert none == ExtractState(map[], 0);
    assert FullFold(rows, "Área") == FullStep(none, rows[1], "Área");
  }

  /** The label "Área" itself is such a label. */
  lemma {:induction false} AreaRowsExample(first: string, second: string)
    ensures FullFold([["Área", first], ["Área", second]], CleanedAreaLabel).stored
      == map["Área_texto" := first, "Área_num" := second]
    ensures FullFold([["Área", first], ["Área", second]], "Área").stored == map[]
  {
    AreaLabelLosesAccent();
    TwoAreaRows("Área", first, second);
  }

  /** The HTML attributes the full script extracts for one placemark: only a
      non-empty text description is parsed, and only its first table is read. */
  function FullAttributes(description: Option<string>, soup: string -> HtmlDoc, areaKey: string): (r: map<string, string>)
    ensures forall k :: k in r ==> k in HtmlKeys
    ensures description == None || description == Some("") ==> r == map[]
  {
    if description.Some? && description.value != "" then
      var doc := soup(description.value);
      if doc.tables != [] then FullFold(doc.tables[0], areaKey).stored else map[]
    else map[]
  }

  // ---------------------------------------------------------------------
  // Pipelines script: every row of the document, positional "Área" rows
  // ---------------------------------------------------------------------

  /** One row of the pipelines script, storing under feature-layer field
      names.  A row whose reduced label is "rea" fills "Area_Texto" when that
      field is still unset and "Area_Numerica" otherwise. */
  function ReducedStep(stored: map<string, string>, row: Row): map<string, string>
  {
    if |row| != 2 then stored
    else
      var key := ReducedLabelKey(row[0]);
      var value := row[1];
      if key == CleanedAreaLabel then
        if "Area_Texto" !in stored then stored["Area_Texto" := value] else stored["Area_Numerica" := value]
      else if key in HtmlFieldMap then stored[HtmlFieldMap[key] := value]
      else if key == "Acu_7" then stored["Acu_7" := value]
      else if key == "Acu_90_7" then stored["Acu_90_7" := value]
      else stored
  }

  /** The fields stored after the given rows, in order.  Only the mapped
      feature-layer fields are ever stored. */
  function ReducedFold(rows: seq<Row>): (stored: map<string, string>)
    ensures forall f :: f in stored ==> f in HtmlFields
  {
    if rows == [] then map[]
    else ReducedStep(ReducedFold(rows[..|rows| - 1]), rows[|rows| - 1])
  }

  /** The pipelines script's loop over the rows of one description. */
  method ExtractDocumentAttributes(rows: seq<Row>) returns (stored: map<string, string>)
    ensures stored == ReducedFold(rows)
    ensures forall f :: f in stored ==> f in HtmlFields
  {
    stored := map[];
    var i := 0;
    while i < |rows|
      invariant 0 <= i <= |rows|
      invariant stored == ReducedFold(rows[..i])
    {
      var row := rows[i];
      assert rows[..i + 1][..i] == rows[..i];
      if |row| == 2 {
        var key := ReducedLabelKey(row[0]);
        var value := row[1];
        if key == CleanedAreaLabel {
          if "Area_Texto" !in stored {
            stored := stored["Area_Texto" := value];
          } else {
            stored := stored["Area_Numerica" := value];
          }
        } else if key in HtmlFieldMap {
          stored := stored[HtmlFieldMap[key] := value];
        } else if key == "Acu_7" {
          stored := stored["Acu_7" := value];
        } else if key == "Acu_90_7" {
          stored := stored["Acu_90_7" := value];
        }
      }
      i := i + 1;
    }
    assert rows[..i] == rows;
  }

  /** The map sends every key to itself except the two "Área" keys. */
  lemma {:induction false} FieldMapFacts(key: string)
    requires key in HtmlFieldMap
    ensures HtmlFieldMap[key] == "Area_Texto" <==> key == "Área_texto"
    ensures HtmlFieldMap[key] == "Area_Numerica" <==> key == "Área_num"
    ensures key != "Área_texto" && key != "Área_num" ==> HtmlFieldMap[key] == key
  {
  }

  /** One row changes the two area fields only when its reduced label is
      "rea". */
  lemma {:induction false} ReducedStepArea(stored: map<string, string>, row: Row)
    requires !(|row| == 2 && ReducedLabelKey(row[0]) == CleanedAreaLabel)
    ensures var st := ReducedStep(stored, row);
      ("Area_Texto" in st <==> "Area_Texto" in stored) &&
      ("Area_Texto" in st ==> st["Area_Texto"] == stored["Area_Texto"]) &&
      ("Area_Numerica" in st <==> "Area_Numerica" in stored) &&
      ("Area_Numerica" in st ==> st["Area_Numerica"] == stored["Area_Numerica"])
  {
    if |row| == 2 {
      var key := ReducedLabelKey(row[0]);
      CleanKeyIsAscii(row[0]);
      if key in HtmlFieldMap {
        FieldMapFacts(key);
      }
    }
  }

  /** One row changes field `k` (a key the map sends to itself) only when
      its reduced label is `k`, and then sets it to the row's value. */
  lemma {:induction false} ReducedStepField(stored: map<string, string>, row: Row, k: string)
    requires k in HtmlKeys && k != "Área_texto" && k != "Área_num"
    ensures var st := ReducedStep(stored, row);
      if |row| == 2 && ReducedLabelKey(row[0]) == k then k in st && st[k] == row[1]
      else (k in st <==> k in stored) && (k in st ==> st[k] == stored[k])
  {
    FieldMapFacts(k);
    if |row| == 2 {
      var key := ReducedLabelKey(row[0]);
      if key in HtmlFieldMap {
        FieldMapFacts(key);
      }
    }
  }

  /** The "Área" rows of the pipelines script: the first fills "Area_Texto",
      and the last of the later ones fills "Area_Numerica". */
  lemma {:induction false} ReducedAreaPositional(rows: seq<Row>)
    ensures var st := ReducedFold(rows);
      var av := KeyedValues(rows, CleanedAreaLabel, ReducedLabelKey);
      ("Area_Texto" in st <==> |av| >= 1) &&
      ("Area_Texto" in st ==> st["Area_Texto"] == av[0]) &&
      ("Area_Numerica" in st <==> |av| >= 2) &&
      ("Area_Numerica" in st ==> st["Area_Numerica"] == av[|av| - 1])
  {
    if rows != [] {
      var init := rows[..|rows| - 1];
      ReducedAreaPositional(init);
      var last := rows[|rows| - 1];
      if !(|last| == 2 && ReducedLabelKey(last[0]) == CleanedAreaLabel) {
        ReducedStepArea(ReducedFold(init), last);
      }
    }
  }

  /** Every other mapped field holds the value of the last two-cell row
      whose reduced label is its key, and is unset when there is none. */
  lemma {:induction false} ReducedLastWins(rows: seq<Row>, k: string)
    requires k in HtmlKeys && k != "Área_texto" && k != "Área_num"
    ensures HtmlFieldMap[k] == k
    ensures var st := ReducedFold(rows);
      var vs := KeyedValues(rows, k, ReducedLabelKey);
      (k in st <==> vs != []) && (k in st ==> st[k] == vs[|vs| - 1])
  {
    FieldMapFacts(k);
    if rows != [] {
      ReducedLastWins(rows[..|rows| - 1], k);
      ReducedStepField(ReducedFold(rows[..|rows| - 1]), rows[|rows| - 1], k);
    }
  }

  /** The HTML attributes the pipelines script extracts for one placemark:
      any text description is parsed, and the rows of all its tables are
      read in order. */
  function PipelineAttributes(description: Option<string>, soup: string -> HtmlDoc): (r: map<string, string>)
    ensures forall f :: f in r ==> f in HtmlFields
    ensures description == None ==> r == map[]
  {
    if description.Some? then ReducedFold(Flatten(soup(description.value).tables)) else map[]
  }

  // ---------------------------------------------------------------------
  // Content filter of the full script
  // ---------------------------------------------------------------------

  /** The cell of expected column `k` after the script converts the column to
      text, strips it and turns "" into a missing value (`None` here).  An
      unset cell holds Python's `None`, whose text is "None". */
  function NormalizedCellAsWritten(stored: map<string, string>, k: string): (c: Option<string>)
    ensures k !in stored ==> c == Some("None")
  {
    var text := if k in stored then Strip(stored[k]) else "None";
    if text == "" then None else Some(text)
  }

  /** The corrected normalisation: an unset cell stays missing. */
  function NormalizedCell(stored: map<string, string>, k: string): (c: Option<string>)
    ensures k !in stored ==> c == None
    ensures c.Some? ==> k in stored && c.value == Strip(stored[k]) && c.value != ""
  {
    if k in stored && Strip(stored[k]) != "" then Some(Strip(stored[k])) else None
  }

  /** Which comparison and normalisation the full script runs: the code as
      written ("Área" compared with a cleaned label, unset cells read as the
      text "None"), or the corrected one ("rea", unset cells stay missing). */
  datatype Reading = AsWritten | Corrected

  /** The label the area rows are compared with. */
  function AreaKey(reading: Reading): string
  {
    if reading == AsWritten then "Área" else CleanedAreaLabel
  }

  /** The cell of expected column `k` after normalisation, in either
      reading. */
  function NormalizedCellBy(reading: Reading, stored: map<string, string>, k: string): Option<string>
  {
    if reading == AsWritten then NormalizedCellAsWritten(stored, k) else NormalizedCell(stored, k)
  }

  /** The expected columns of one row after normalisation: the cells that
      are not missing, by label. */
  function NormalizedColumns(reading: Reading, stored: map<string, string>): (columns: map<string, string>)
    ensures forall k :: k in columns ==> k in HtmlKeys
  {
    map k | k in HtmlKeys && NormalizedCellBy(reading, stored, k).Some? :: NormalizedCellBy(reading, stored, k).value
  }

  /** A cell survives normalisation exactly when the column is expected and
      the stripped text is not empty, and it holds that stripped text; in the
      corrected reading an unset cell is missing, as written it holds
      "None". */
  lemma {:induction false} NormalizedColumnsMeaning(reading: Reading, stored: map<string, string>, k: string)
    ensures var columns := NormalizedColumns(reading, stored);
      (k in stored ==>
        (k in columns <==> k in HtmlKeys && !AllWhitespace(stored[k])) &&
        (k in columns ==> columns[k] == Strip(stored[k]))) &&
      (k !in stored && reading == Corrected ==> k !in columns) &&
      (k !in stored && reading == AsWritten ==> (k in columns <==> k in HtmlKeys) && (k in columns ==> columns[k] == "None"))
  {
    if k in stored {
      StripFacts(stored[k]);
    }
  }

  /** The content filter as written: some expected column is non-missing
      after normalisation. */
  predicate HasContentAsWritten(stored: map<string, string>)
  {
    exists i :: 0 <= i < |HtmlKeys| && NormalizedCellAsWritten(stored, HtmlKeys[i]).Some?
  }

  /** The content filter as intended: some expected column has a value. */
  predicate HasContent(stored: map<string, string>)
  {
    exists i :: 0 <= i < |HtmlKeys| && NormalizedCell(stored, HtmlKeys[i]).Some?
  }

  /** A placemark passes the corrected filter exactly when one of its
      expected attributes holds a character that is not whitespace. */
  lemma {:induction false} HasContentMeaning(stored: map<string, string>)
    ensures HasContent(stored) <==>
      exists i :: 0 <= i < |HtmlKeys| && HtmlKeys[i] in stored && !AllWhitespace(stored[HtmlKeys[i]])
  {
    forall i | 0 <= i < |HtmlKeys| && HtmlKeys[i] in stored
      ensures NormalizedCell(stored, HtmlKeys[i]).Some? <==> !AllWhitespace(stored[HtmlKeys[i]])
    {
      StripFacts(stored[HtmlKeys[i]]);
    }
  }

  /** The corrected filter is the stricter one; the two agree once every
      expected key is set. */
  lemma {:induction false} ContentFiltersAgreeWhenAllSet(stored: map<string, string>)
    ensures HasContent(stored) ==> HasContentAsWritten(stored)
    ensures (forall i :: 0 <= i < |HtmlKeys| ==> HtmlKeys[i] in stored) ==>
      (HasContent(stored) <==> HasContentAsWritten(stored))
  {
    if HasContent(stored) {
      var i :| 0 <= i < |HtmlKeys| && NormalizedCell(stored, HtmlKeys[i]).Some?;
      assert NormalizedCellAsWritten(stored, HtmlKeys[i]).Some?;
    }
    if HasContentAsWritten(stored) && forall i :: 0 <= i < |HtmlKeys| ==> HtmlKeys[i] in stored {
      var i :| 0 <= i < |HtmlKeys| && NormalizedCellAsWritten(stored, HtmlKeys[i]).Some?;
      assert NormalizedCell(stored, HtmlKeys[i]).Some?;
    }
  }

  /** Each reading's content filter holds exactly when some expected column
      keeps a cell after normalisation. */
  lemma {:induction false} ContentFilterByColumns(reading: Reading, stored: map<string, string>)
    ensures var columns := NormalizedColumns(reading, stored);
      (exists i :: 0 <= i < |HtmlKeys| && HtmlKeys[i] in columns) <==>
      (if reading == AsWritten then HasContentAsWritten(stored) else HasContent(stored))
  {
    var columns := NormalizedColumns(reading, stored);
    if exists i :: 0 <= i < |HtmlKeys| && HtmlKeys[i] in columns {
      var i :| 0 <= i < |HtmlKeys| && HtmlKeys[i] in columns;
      assert NormalizedCellBy(reading, stored, HtmlKeys[i]).Some?;
    }
    if reading == AsWritten && HasContentAsWritten(stored) {
      var i :| 0 <= i < |HtmlKeys| && NormalizedCellAsWritten(stored, HtmlKeys[i]).Some?;
      assert HtmlKeys[i] in columns;
    }
    if reading == Corrected && HasContent(stored) {
      var i :| 0 <= i < |HtmlKeys| && NormalizedCell(stored, HtmlKeys[i]).Some?;
      assert HtmlKeys[i] in columns;
    }
  }

  /** As written, any placemark with an unset expected key passes the
      filter; since the full script never fills "Área_texto", the filter
      keeps every placemark, including one without a description. */
  lemma {:induction false} ContentFilterKeepsEveryRowAsWritten(description: Option<string>, soup: string -> HtmlDoc)
    ensures HasContentAsWritten(FullAttributes(description, soup, "Área"))
    ensures !HasContent(FullAttributes(None, soup, CleanedAreaLabel))
  {
    var stored := FullAttributes(description, soup, "Área");
    if description.Some? && description.value != "" && soup(description.value).tables != [] {
      FullAreaNeverStoredAsWritten(soup(description.value).tables[0]);
    }
    assert "Área_texto" !in stored;
    assert HtmlKeys[1] == "Área_texto";
    assert NormalizedCellAsWritten(stored, HtmlKeys[1]).Some?;
  }
}

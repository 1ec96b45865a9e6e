# ETL normalisation for the risk-management feature layers

This project models the record-level logic of the ETL scripts that keep three
families of ArcGIS Online feature layers up to date:

- **Mass movements.** A daily KML of landslide alerts is cleaned, its
  placemarks' HTML descriptions are read into typed attributes, and the
  features are uploaded in chunks.
  - The full script is `src_/mass_movements/main.py`.
  - The scheduled pipeline is `pipelines/mass_movements/main_mass_movements.py`.
- **Operational sheets.** A spreadsheet of alert interactions or of
  level-station rises is uploaded as points.
  - The script is `src_/operational/main_operacional.py`.
  - Its two upload halves differ only in their column mapping, so the model
    has one upload with the mapping as a parameter.
- **Fire susceptibility.** Polygons get a symbology code from a fixed table.
  - The scripts are `src_/fire_susceptibility/main.py` and
    `pipelines/fire_susceptibility/main_fire_susceptibility.py`.

## How the model is built

Each module follows one concern of the scripts:

| module | what it covers |
|---|---|
| `Text` | Python's `strip`, single-character `replace`, substring tests and decimal text |
| `Numbers` | floats as exact decimals, `int()` truncation toward zero, `str(float)`, and `float()` on runs of digits and dots |
| `Identifiers` | the two column and label cleanings |
| `EmbeddedAttributes` | the HTML-table extraction of both scripts, and the content filter |
| `Coercion` | conversion of a value to the declared type of a layer field |
| `Geometry` | the shape to wire-form conversion |
| `Symbology` | the label parsing of the full script, and the trailing-digit code of the pipeline |
| `BatchUpload` | the chunked add loop and its accounting |
| `MassMovements` | the full script's frame filters and feature loop |
| `MassMovementsPipeline` | the pipeline's `procesar_movimientos_masa` |
| `Operational` | the null-count filter, the renaming, the coordinate reading and the point features |
| `FireSusceptibility` | both fire scripts |

The scripts keep state in their loops, and the model does the same:

- The loops that append to lists or write into dicts are methods with loop
  invariants. Each is proved equal to a recursive specification function,
  and lemmas state the properties of that function.
- The in-place `df.drop` of the operational download is a class `Sheet`
  whose method reassigns its `rows`.
- The vectorised pandas expressions are functions.

Everything outside the model is a parameter:

- `parse` stands for Python's `float` on arbitrary text. `None` means it raises.
- `toDate` stands for `pandas.to_datetime` in epoch milliseconds.
- `soup` stands for the BeautifulSoup parse of a description.
- `valid` and `isEmpty` are the shapely geometry tests.
- `respond` is the layer's reply to the k-th add call: it raises, or it
  returns its `addResults` flags.

The full script has two defects (see Findings). Its frame stages take a
`Reading`: `AsWritten` runs the code as it stands, and `Corrected` runs the
evident intent. The reading decides the label the area rows are compared
with and how an unset HTML cell is normalised. Every later step reads the
normalised columns, so the feature loop is the same for both readings.

Three behaviours of the code are worth stating outright:

- The secondary filter of the full script looks only at the HTML-derived
  values, not at every attribute.
- The null-count filter drops rows with 20 or more empty cells, although
  the comment beside it says 7.
- Operational features always carry a point (see Left out).

## Model

| member | source | states |
|---|---|---|
| Text.StripFacts | src_/mass_movements/main.py:129 | `strip()` leaves no whitespace at either end and gives "" exactly for an all-whitespace text |
| Text.StripAround | src_/fire_susceptibility/main.py:86 | stripping a padded text that has no whitespace at its ends gives the text back |
| Text.StripIdempotent | src_/mass_movements/main.py:272 | stripping twice is stripping once |
| Text.ReplaceCharAt | src_/mass_movements/main.py:129 | `replace(a, b)` with single characters changes exactly the occurrences of `a` into `b` and keeps the length |
| Text.ReplaceCharAbsent | src_/mass_movements/main.py:323 | a text without the replaced character is unchanged |
| Text.Contains | pipelines/mass_movements/main_mass_movements.py:92 | the substring test holds exactly when the pattern occurs at some index |
| Text.DigitsRoundTrip | pipelines/mass_movements/main_mass_movements.py:138 | reading the decimal text of a natural number gives the number back |
| Common.IndexOf | src_/mass_movements/main.py:140 | `list.index` finds the first occurrence |
| Numbers.Truncate | src_/mass_movements/main.py:298 | `int(x)` rounds toward zero, for negative values too |
| Numbers.ParseDigits | src_/mass_movements/main.py:282 | `float` of a run of digits is that whole number |
| Numbers.ParseWithDot | src_/mass_movements/main.py:282 | `float("w.f")` is w.f for any digits `w` and `f`, one of them non-empty |
| Numbers.ParseRejects | src_/mass_movements/main.py:281-289 | "." alone and any run with two dots do not parse, so the label gets no number |
| Numbers.FloatTextRoundTrip | src_/mass_movements/main.py:300 | `float(str(x)) == x` for every non-negative float |
| Numbers.TruncateWithDot | src_/operational/main_operacional.py:286 | `int(float("w.f"))` is the whole part `w` |
| Identifiers.KeepIdentCharsIsFilter | src_/mass_movements/main.py:130 | deleting `[^a-zA-Z0-9_]` keeps the class's characters in order |
| Identifiers.KeepIdentCharsMembership | src_/mass_movements/main.py:130 | a character survives exactly when it occurs and is in the ASCII identifier class |
| Identifiers.CleanKeyShape | src_/mass_movements/main.py:180-182 | a cleaned HTML label has only `[A-Za-z0-9_]` and no leading digit |
| Identifiers.CleanReducedShape | pipelines/mass_movements/main_mass_movements.py:87-88 | a reduced cleaned column name has only `[A-Za-z0-9_]` and no leading digit |
| Identifiers.CleanColumnNameIsIdentifier | src_/mass_movements/main.py:128-133 | a cleaned column name is never empty, has only `[A-Za-z0-9_]` and never starts with a digit |
| Identifiers.CleanKeyFixpoint | src_/mass_movements/main.py:129-131 | cleaning leaves a text unchanged exactly when it is already a clean key, so cleaning is idempotent |
| Identifiers.CleanColumnNameIdempotent | src_/mass_movements/main.py:128-133 | re-cleaning a cleaned column name, at any position, returns it unchanged |
| Identifiers.CleanReducedIdempotent | pipelines/mass_movements/main_mass_movements.py:87-88 | the reduced cleaning is idempotent |
| Identifiers.AreaLabelLosesAccent | pipelines/mass_movements/main_mass_movements.py:116-120 | "Área" is cleaned to "rea" by both cleanings |
| Identifiers.CleanKeyIsAscii | src_/mass_movements/main.py:185-187 | no cleaned label equals "Área", "Área_texto" or "Área_num" |
| Identifiers.CleanColumnNames | src_/mass_movements/main.py:126-134 | the loop gives one name per column, in order; the i-th is the i-th name cleaned with fallback index i; all are identifiers |
| Identifiers.CleanColumnsReduced | pipelines/mass_movements/main_mass_movements.py:85-89 | the loop gives one reduced cleaned name per column, in order, each a clean key |
| Identifiers.CleanedColumnFor | src_/mass_movements/main.py:139-143 | gives the cleaned name at the first index of the original name, or none exactly when no column has that name |
| Identifiers.FirstContaining | pipelines/mass_movements/main_mass_movements.py:92-93 | gives the first column containing the pattern, or none exactly when no column contains it |
| EmbeddedAttributes.FieldMapMatchesKeys | src_/mass_movements/main.py:80-89 | the map has exactly the eight expected keys and sends the i-th key to the i-th field |
| EmbeddedAttributes.FieldMapFacts | pipelines/mass_movements/main_mass_movements.py:97-101 | the map sends every key to itself except the two "Área" keys, which go to Area_Texto and Area_Numerica |
| EmbeddedAttributes.FullFold | src_/mass_movements/main.py:174-190 | after the rows of a table, only expected keys are stored |
| EmbeddedAttributes.ExtractTableAttributes | src_/mass_movements/main.py:174-190 | the row loop stores what the fold over the rows stores, and only expected keys |
| EmbeddedAttributes.FullLastWins | src_/mass_movements/main.py:177-190 | an expected key other than the "Área" slots holds the value of the last two-cell row whose label cleans to it, and is unset when there is none |
| EmbeddedAttributes.FullAreaSlots | src_/mass_movements/main.py:185-188 | with a label key outside the expected keys, the first matching row fills Área_texto, the second fills Área_num, and the counter counts all of them |
| EmbeddedAttributes.FullAreaNeverStoredAsWritten | src_/mass_movements/main.py:185-188 | as written, the counter stays 0 and neither Área slot is ever filled, whatever the table |
| EmbeddedAttributes.TwoAreaRows | src_/mass_movements/main.py:185-188 | two rows labelled with a text that cleans to "rea" fill both slots in order under the corrected comparison, and nothing as written |
| EmbeddedAttributes.AreaRowsExample | src_/mass_movements/main.py:185-188 | two rows labelled "Área" fill Área_texto and Área_num in order under the corrected comparison, and nothing as written |
| EmbeddedAttributes.FullAttributes | src_/mass_movements/main.py:164-173 | only expected keys are stored, and a missing or empty description gives no attributes |
| EmbeddedAttributes.ReducedFold | pipelines/mass_movements/main_mass_movements.py:113-126 | only the mapped layer fields are ever stored |
| EmbeddedAttributes.ExtractDocumentAttributes | pipelines/mass_movements/main_mass_movements.py:112-126 | the row loop stores what the fold over the rows stores, and only mapped fields |
| EmbeddedAttributes.ReducedAreaPositional | pipelines/mass_movements/main_mass_movements.py:120-122 | the first "rea" row fills Area_Texto; with two or more, Area_Numerica holds the last one's value; each is unset without such rows |
| EmbeddedAttributes.ReducedLastWins | pipelines/mass_movements/main_mass_movements.py:123-126 | every other mapped field holds the value of the last two-cell row with its key, and is unset when there is none |
| EmbeddedAttributes.PipelineAttributes | pipelines/mass_movements/main_mass_movements.py:107-112 | only mapped fields are stored, and a description that is not text gives no attributes |
| EmbeddedAttributes.NormalizedCellAsWritten | src_/mass_movements/main.py:204 | an unset cell becomes the text "None", so it is not missing |
| EmbeddedAttributes.NormalizedCell | src_/mass_movements/main.py:204 | the corrected cell is missing when unset, and otherwise holds the stripped, non-empty value |
| EmbeddedAttributes.HasContentMeaning | src_/mass_movements/main.py:201-207 | a row passes the corrected content filter exactly when some expected attribute has a non-whitespace character |
| EmbeddedAttributes.ContentFiltersAgreeWhenAllSet | src_/mass_movements/main.py:201-207 | the corrected filter implies the written one, and they agree when every expected key is set |
| EmbeddedAttributes.ContentFilterKeepsEveryRowAsWritten | src_/mass_movements/main.py:201-207 | as written, every placemark passes the content filter, even one without a description |
| Coercion.TypeOf | src_/mass_movements/main.py:240 | a field has a type exactly when the layer declares it; the last definition wins |
| Coercion.FirstDef | src_/mass_movements/main.py:318 | gives the first definition with that name, present exactly when declared |
| Coercion.LengthOf | src_/operational/main_operacional.py:271 | a declared length belongs to a declared field |
| Coercion.Prefix | src_/operational/main_operacional.py:290 | `s[:n]` is the prefix of length min(n, \|s\|) |
| Coercion.CoerceHtml | src_/mass_movements/main.py:320-333 | `None` only for numeric fields |
| Coercion.CoerceHtmlNumeric | src_/mass_movements/main.py:322-325 | numbers are parsed from the text with every comma turned into a dot; integers truncate; `None` exactly when parsing fails |
| Coercion.CommaReplacementIdempotent | src_/mass_movements/main.py:323 | turning commas into dots twice is doing it once |
| Coercion.CoerceHtmlText | src_/mass_movements/main.py:326-329 | a text field keeps the value, or exactly its first `length` characters when a non-zero declared length is exceeded |
| Coercion.CoerceHtmlPassThrough | src_/mass_movements/main.py:331 | other or unknown field types get the text unchanged |
| Coercion.CellValue | src_/operational/main_operacional.py:303 | a cell passed through is `None` exactly when it is missing |
| Coercion.StringLimit | src_/operational/main_operacional.py:290 | a text field without a declared length is cut at 255 |
| Coercion.CoerceCsvMeaning | src_/operational/main_operacional.py:282-305 | `None` exactly for a blank or unparsable numeric value or a text date `toDate` cannot read; a date field sends `int(value)` for an integer or float cell and the read date otherwise; a text field gets the first `limit` characters of `str(value)`; integers truncate; other types pass through |
| Coercion.CoerceCsvIntegers | src_/operational/main_operacional.py:286 | an integer cell is kept, and "w.f" gives the whole part w |
| Geometry.PolygonRings | src_/mass_movements/main.py:346-349 | a polygon gives 1 + holes rings, the exterior first and then each hole in order |
| Geometry.AllRingsCount | src_/mass_movements/main.py:350-355 | N polygons with h1..hN holes give N + h1 + ... + hN rings |
| Geometry.AllRingsConcat | src_/mass_movements/main.py:352-354 | the rings of consecutive polygons are concatenated in input order |
| Geometry.CollectRings | src_/mass_movements/main.py:351-354 | the append and extend loop builds exactly the concatenated rings |
| Geometry.WireOf | src_/mass_movements/main.py:341-358 | every converted shape carries wkid 4326 |
| Geometry.ConvertGeometry | src_/mass_movements/main.py:339-359 | the conversion branch gives the wire form of the shape, with wkid 4326 |
| Geometry.WireOfShapes | src_/mass_movements/main.py:344-358 | a point gives its x, y; a line gives one path; a polygon gives 1 + holes rings, exterior first; a multipolygon gives N + holes rings; a multi-line gives one path per line; empty multi-shapes and other types give nothing |
| Symbology.SuffixStartFacts | src_/mass_movements/main.py:278 | the found suffix is made of `[\d.]` and cannot extend further left |
| Symbology.SuffixStartUnique | src_/mass_movements/main.py:278 | any maximal `[\d.]+$` suffix is the one found |
| Symbology.DashGroupEndSpec | src_/mass_movements/main.py:283-284 | the group end found is the lazy match of `^(.*?)\s*–\s*` before the number: it matches and no earlier end matches; with no end, the pattern does not match |
| Symbology.DashGroupAfterText | src_/mass_movements/main.py:283-286 | the group of `<text> – ` is the text |
| Symbology.ParseLabel | src_/mass_movements/main.py:268-289 | with no number, the name is the stripped label |
| Symbology.ParseLabelNumber | src_/mass_movements/main.py:277-282 | the number is there exactly when the longest trailing `[\d.]` run is non-empty and parses, and it is that run's value |
| Symbology.ParseLabelNoRun | src_/mass_movements/main.py:277-279 | a label not ending in a digit or dot keeps its stripped text and has no number |
| Symbology.ParseLabelOnlyNumber | src_/mass_movements/main.py:287-288 | a label that is only the run is named by the run |
| Symbology.ParseLabelWithDash | src_/mass_movements/main.py:283-286 | when the dash pattern matches, the name is the stripped lazy group |
| Symbology.ParseLabelDash | src_/mass_movements/main.py:277-286 | `<text> – <digits of k>` is named `<text>` and numbered k |
| Symbology.DeslizamientoLabel | src_/mass_movements/main.py:277-286 | "Deslizamiento – 2" gives name "Deslizamiento" and number 2 |
| Symbology.ParsedNameStripped | src_/mass_movements/main.py:272-288 | the processed name is always stripped |
| Symbology.NameAttribute | src_/mass_movements/main.py:292 | the Name is `None` or the processed name itself |
| Symbology.NameAttributeBlank | src_/mass_movements/main.py:292 | the Name is `None` exactly when the name is blank, which for a processed name means empty |
| Symbology.SymbolValue | src_/mass_movements/main.py:294-301 | without a number the SymbolID is 0, and it is never `None` |
| Symbology.DefaultSymbolMeaning | src_/mass_movements/main.py:364 | the SymbolID equals the default 0 exactly when there is no number, or the field is not a text field and the number is 0 (after truncation for integer and OID fields) |
| Symbology.HalfIsDefaultForIntegers | src_/mass_movements/main.py:298-299 | 0.5 is the default for an integer field but not for a double field |
| Symbology.TrailingDigitsCode | pipelines/mass_movements/main_mass_movements.py:138 | a missing name cell gives code 0 |
| Symbology.TrailingDigitsFrom | pipelines/mass_movements/main_mass_movements.py:138 | the code is the value of the maximal trailing digit run, before an optional final line break |
| Symbology.TrailingDigitsOf | pipelines/mass_movements/main_mass_movements.py:137-138 | a text not ending in a digit, followed by the digits of k, gives k |
| Symbology.TrailingDigitsNone | pipelines/mass_movements/main_mass_movements.py:138 | a text not ending in a digit gives 0 |
| Symbology.RowSymbologyOf | pipelines/mass_movements/main_mass_movements.py:135-140 | without a name column, SymbolID is 0 and there is no Name or categoria; otherwise Name is the cell unchanged and categoria equals SymbolID |
| Symbology.FrameSymbology | pipelines/mass_movements/main_mass_movements.py:135-140 | one entry per row, in row order |
| Symbology.FrameSymbologyFacts | pipelines/mass_movements/main_mass_movements.py:135-140 | every categoria equals its SymbolID; without a name column every SymbolID is 0; Name copies each row's cell |
| FireSusceptibility.TableIsClassCode | src_/fire_susceptibility/main.py:80-84 | the table holds exactly "Susc: 1" to 2, "Susc: 2" to 1 and "Susc: 3" to 0; the pipeline script, pipelines/fire_susceptibility/main_fire_susceptibility.py:59, holds the same table |
| FireSusceptibility.SusceptibilityCodeMeaning | src_/fire_susceptibility/main.py:86-87 | every code is in {-1, 0, 1, 2}; 2, 1 and 0 each come from exactly one stripped name; -1 comes from a missing or unmapped name; the pipeline script does the same lookup in one expression at pipelines/fire_susceptibility/main_fire_susceptibility.py:60 |
| FireSusceptibility.PaddedClassName | src_/fire_susceptibility/main.py:86 | whitespace around a class name does not change its code |
| FireSusceptibility.SusceptibilityCodes | src_/fire_susceptibility/main.py:86-87 | one code per row, in row order, each the code of its row's name |
| FireSusceptibility.CodesInRange | pipelines/fire_susceptibility/main_fire_susceptibility.py:60 | every code in the column is in {-1, 0, 1, 2} |
| FireSusceptibility.FireRunOutcome | src_/fire_susceptibility/main.py:65-87 | an empty document stops the run; a frame without Name stops it; otherwise the rows with a valid geometry are kept, in order, each with the code of its own name; the pipeline script, pipelines/fire_susceptibility/main_fire_susceptibility.py:42-60, has the same guards, returning False at each |
| BatchUpload.Chunks | src_/operational/main_operacional.py:325-326 | no features give no chunks |
| BatchUpload.ChunksFlatten | src_/operational/main_operacional.py:325-326 | the chunks, concatenated, are the features in order |
| BatchUpload.ChunksSizes | src_/mass_movements/main.py:383-386 | every chunk but the last has 100 features, the last has 1 to 100, and their sizes add up |
| BatchUpload.CountTrue | src_/operational/main_operacional.py:337 | successes are at most the results |
| BatchUpload.ChunkTally | src_/operational/main_operacional.py:329-349 | a chunk counts as many added plus failed as it has features; a raise or an empty `addResults` fails the whole chunk |
| BatchUpload.TalliedAccounting | src_/operational/main_operacional.py:325-351 | added + failed equals the number of features sent; added is never negative; failed is never negative while replies are no longer than their chunks |
| BatchUpload.TalliedStep | src_/mass_movements/main.py:398-401 | one more chunk adds its tally to the totals |
| BatchUpload.AddInChunks | src_/operational/main_operacional.py:318-351 | every chunk of 100 is sent in order, whatever the earlier replies; the totals are the tally of the replies; added + failed equals the feature count; nothing is sent for no features; the full mass-movements script runs the same loop at src_/mass_movements/main.py:380-402 |
| MassMovements.NameFilter | src_/mass_movements/main.py:148-152 | the filter never adds rows |
| MassMovements.NameFilterKeeps | src_/mass_movements/main.py:148-152 | a placemark survives exactly when there is no name column, or its name is present and not blank |
| EmbeddedAttributes.NormalizedColumns | src_/mass_movements/main.py:201-204 | only expected columns survive normalisation |
| EmbeddedAttributes.NormalizedColumnsMeaning | src_/mass_movements/main.py:201-204 | a set cell survives exactly when it is not all whitespace, and holds its stripped text; an unset cell is missing in the corrected reading and holds "None" as written |
| EmbeddedAttributes.ContentFilterByColumns | src_/mass_movements/main.py:201-207 | the reading's content filter holds exactly when some expected column survives normalisation |
| MassMovements.Extract | src_/mass_movements/main.py:161-204 | in either reading, a row's normalised HTML columns only ever hold expected keys |
| MassMovements.MeaningfulExtract | src_/mass_movements/main.py:201-207 | on an extracted row, the content filter is the reading's own filter on the extracted cells |
| MassMovements.MeaningfulAsWritten | src_/mass_movements/main.py:161-207 | as written, every extracted row passes the content filter, with or without a description column |
| MassMovements.PrepareFrameFilters | src_/mass_movements/main.py:119-219 | in either reading: an empty document stops the script; every row the script goes on with passed the name, content and geometry filters; every placemark that passes them all is kept |
| MassMovements.PrepareFrameAsWritten | src_/mass_movements/main.py:119-219 | as written, the content filter never stops the script, and every named placemark with a valid, non-empty shape is kept |
| MassMovements.DescriptionlessPlacemark | src_/mass_movements/main.py:195-207 | a lone placemark with no description and a valid shape goes on as written, but stops the corrected script at the content filter |
| MassMovements.LabelAttributes | src_/mass_movements/main.py:291-308 | the label attributes are exactly the declared ones among Name, SymbolID and categoria; Name holds the processed name, SymbolID and categoria both hold the row's symbol value |
| MassMovements.HtmlWrites | src_/mass_movements/main.py:312 | one write per expected HTML column |
| MassMovements.HtmlValueMeaning | src_/mass_movements/main.py:312-335 | the j-th column writes exactly when the layer declares its field and the normalised cell is present, and it writes the converted cell |
| MassMovements.WriteFieldsFrame | src_/mass_movements/main.py:312-335 | writing fields leaves every other key as it was |
| MassMovements.WriteFieldsAt | src_/mass_movements/main.py:312-335 | with distinct field names, each field holds its write when it has one, and is otherwise as before |
| MassMovements.WriteHtmlColumns | src_/mass_movements/main.py:311-336 | the HTML loop leaves the attributes as the base after every column's write, in key order, and notes a value exactly when some column wrote one other than `None` |
| MassMovements.FeatureAttributes | src_/mass_movements/main.py:291-336 | Name is present exactly when declared, holding the processed name or `None`; SymbolID and categoria are present when declared, equal and never `None`; each declared HTML field with a value holds the converted value; no undeclared field is written |
| MassMovements.PrepareFeature | src_/mass_movements/main.py:264-374 | the loop body gives the row's outcome: no feature without converted geometry; skipped when SymbolID is default, Name is empty and no HTML value was non-`None`; otherwise the feature |
| MassMovements.PrepareRowOutcome | src_/mass_movements/main.py:339-374 | dropped for lack of geometry exactly when the shape is missing or does not convert; skipped exactly under the three conditions; an added feature carries the converted geometry with wkid 4326 |
| MassMovements.AsWrittenNeverSkipped | src_/mass_movements/main.py:195-204 | as written, the unfilled Área_texto column reads "None"; when the layer declares Area_Texto with a non-numeric type, that text is written and no row with a geometry is skipped |
| MassMovements.LoopAccounting | src_/mass_movements/main.py:361-374 | every row is counted once: added, skipped, or without geometry |
| MassMovements.AddedFeaturesMembership | src_/mass_movements/main.py:372-374 | a feature is collected exactly when some row's outcome is that feature |
| MassMovements.PrepareFeatures | src_/mass_movements/main.py:260-374 | the loop collects the added features in row order and counts the skipped rows; together they are at most the rows |
| MassMovements.PrepareAndAdd | src_/mass_movements/main.py:260-402 | every row is added, skipped or without geometry; the features are sent in chunks of 100 that concatenate to them; added + failed equals the feature count |
| MassMovementsPipeline.CleanedColumns | pipelines/mass_movements/main_mass_movements.py:85-89 | cleaning keeps the column count |
| MassMovementsPipeline.UploadColumns | pipelines/mass_movements/main_mass_movements.py:150-151 | at most the fixed list is uploaded |
| MassMovementsPipeline.UploadColumnsMeaning | pipelines/mass_movements/main_mass_movements.py:150-151 | a column is uploaded exactly when it is in the fixed list and in the frame |
| MassMovementsPipeline.UploadColumnsOfFrame | pipelines/mass_movements/main_mass_movements.py:104-151 | the frame always uploads the eight HTML fields and SymbolID in the fixed order, with Name, categoria and geometry in their places when present |
| MassMovementsPipeline.NameColumnFound | pipelines/mass_movements/main_mass_movements.py:92 | a name column is found exactly when some cleaned column name contains "Name" |
| MassMovementsPipeline.KeptRows | pipelines/mass_movements/main_mass_movements.py:129 | one upload row per row with a present, valid shape; every such row is uploaded; every uploaded shape is valid |
| MassMovementsPipeline.ProcessDocumentMeaning | pipelines/mass_movements/main_mass_movements.py:80-161 | an empty document returns False at once; otherwise exactly the valid-shape rows are uploaded, in document order; categoria equals SymbolID with a name column; without one, SymbolID is 0; without a description column there is no HTML; success exactly when the upload does not raise |
| Operational.NullCount | src_/operational/main_operacional.py:84 | a row has at most as many empty cells as cells |
| Operational.Sheet.DropSparseRows | src_/operational/main_operacional.py:83-85 | the rows become exactly the rows with fewer than 20 empty cells, in order; the columns are unchanged |
| Operational.DropSparseRowsMeaning | src_/operational/main_operacional.py:83-85 | a row is kept exactly when it has fewer than 20 empty cells; kept plus dropped is all rows; order is kept across any split |
| Operational.Renamed | src_/operational/main_operacional.py:191 | renaming keeps the column count |
| Operational.RenamedMeaning | src_/operational/main_operacional.py:157-191 | each mapped column gets its target, every other keeps its name, in place; a name that is neither a key nor a target is present after exactly when before |
| Operational.RenameIdempotent | src_/operational/main_operacional.py:191 | with stable targets, renaming twice is renaming once |
| Operational.MappingsKeepCoordinates | src_/operational/main_operacional.py:163-164 | both mappings keep Longitud and Latitud, and the level-station mapping at src_/operational/main_operacional.py:457-458 keeps them too |
| Operational.CsvFields | src_/operational/main_operacional.py:274 | never more attribute columns than columns |
| Operational.CsvFieldsMeaning | src_/operational/main_operacional.py:274 | the attribute columns are exactly the non-coordinate columns, in order |
| Operational.CoordinateMeaning | src_/operational/main_operacional.py:208-224 | the parser sees a comma-free, stripped text other than "", "nan" and "None"; a missing cell reads as 0 |
| Operational.BlankCoordinateIsZero | src_/operational/main_operacional.py:208-215 | a blank cell reads as 0 |
| Operational.CommaCoordinate | src_/operational/main_operacional.py:211-212 | " 6,25 " is parsed as "6.25" |
| Operational.NormalizeColumn | src_/operational/main_operacional.py:208-224 | the column reads as one number per row, each the cell's value; it fails exactly when some cell fails |
| Operational.AttributesDomain | src_/operational/main_operacional.py:276-308 | a column is written exactly when it is listed, declared and not missing, and holds the cell converted for its field type |
| Operational.BuildAttributes | src_/operational/main_operacional.py:277-308 | the per-row loop builds the attribute map of the specification |
| Operational.SheetFeaturesMeaning | src_/operational/main_operacional.py:199-315 | features are prepared exactly when the frame has rows, both coordinate columns exist and every coordinate converts; then there is one feature per row, in order, with its point in WGS 84 and its declared, non-missing, non-coordinate cells |
| Operational.PreparePoints | src_/operational/main_operacional.py:276-315 | the row loop gives one feature per row, with its attributes and its point |
| Operational.UploadSheet | src_/operational/main_operacional.py:191-351 | the upload renames, prepares the features as specified and sends them in chunks of 100 with full accounting; nothing is sent when it stops early |

## Left out

- All network I/O is left out: downloads, login, `content.get`, `delete_features` and the layer lookups. The layer's field list is a parameter, and its add replies are the `respond` parameter.
- The delete step before the upload is left out. It has no effect on what is sent.
- Reading KML and CSV files is left out: the drivers, the encoding fallbacks and `skiprows=4`. The model starts from the frame's columns and rows.
- BeautifulSoup is left out. A description's tables and cell texts are the `soup` parameter.
- CRS reprojection (`to_crs`, `set_crs`) is left out. Coordinates are opaque and never computed with.
- Shapely's `is_valid` and `is_empty` are the `valid` and `isEmpty` parameters.
- Floats are exact decimals. Binary rounding, `inf` and `nan` as numbers are not modelled.
- Numbers.FloatText: `str(float)` is printed without its exponent form. Python writes "1e-05" below 1e-4 and "1e+16" from 1e16 up; the model writes "0.00001" and "10000000000000000.0". This reaches `Coercion.CellText` (a float cell sent to a text field) and `Symbology.SymbolValue`.
- Numbers.FloatTextRoundTrip: the round trip `float(str(x)) == x` is proved for the exponent-free text only, because the model's `float` reads runs of digits and dots only.
- Symbology.SymbolValue: a text SymbolID field gets the exponent-free text of the number. For a label number below 1e-4 or from 1e16 up, Python's text would be in exponent form instead.
  - `parse` returning `None` stands for `float` raising.
  - A text `float` reads as a non-finite value is outside the model.
- The date columns are partly left out.
  - The `Fecha` + `Hora` join with its +5 hour offset (`src_/operational/main_operacional.py:88-92`) is not modelled.
  - Date parsing is the `toDate` parameter.
- Python's 64-bit integer limits in `astype(int)` are not modelled. Integers are unbounded.
- Unicode digits matched by `\d` and accepted by `int()` are not modelled. Only ASCII digits are read.
- `Operational.CellOf`: a frame with two columns of the same name (possible after renaming) yields a sub-frame in pandas. The model reads the first of them.
- `Operational.SheetFeatures`: two source steps have no effect in this model.
  - The both-null coordinate filter (`src_/operational/main_operacional.py:227`) and the `None` point for NaN coordinates (231-234) only act on NaN floats. The model has none once the coordinates are normalised, so every row is kept.
  - The `is_empty` test on a point (312) always holds, so every feature has its point.
- `MassMovements.NameText`: a NaN name cell would read as "nan" rather than "None". The name filter removes such rows first whenever there is a name column.
- `MassMovementsPipeline.ProcessDocument`: the upload and its GeoAccessor conversion are one call whose exception gives False. Per-feature results are not reported by that script.
- Printing and logging are left out, as are the warnings about missing layer fields (`src_/mass_movements/main.py:242-244`). Where the scripts stop early, the model returns the reason instead.

## Findings

| source | as written | input that shows it | evidently intended | confidence | as-written member | corrected member |
|---|---|---|---|---|---|---|
| src_/mass_movements/main.py:201-206 | unset HTML cells hold `None`; `astype(str)` turns them into the text "None", which is not missing, so the content filter keeps every row | a placemark without a description, or whose table has none of the expected labels | a row passes only when some expected attribute holds a non-blank value | not executed | EmbeddedAttributes.ContentFilterKeepsEveryRowAsWritten | EmbeddedAttributes.HasContentMeaning |
| src_/mass_movements/main.py:185-187 | the cleaned label is compared with "Área", but cleaning has deleted the "Á", so the branch never runs and Área_texto / Área_num are never filled | a table with the rows ("Área", "x") and ("Área", "y") | the first "Área" row fills Área_texto and the second fills Área_num, as the pipeline does with "rea" | not executed | EmbeddedAttributes.FullAreaNeverStoredAsWritten | EmbeddedAttributes.AreaRowsExample |

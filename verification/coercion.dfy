/** Conversion of a source value to the type of the target layer field.  The
    layer describes each field by name, type and optional declared length.
    Parsing a number out of text (Python's `float`) and reading a date
    (`pandas.to_datetime`, in epoch milliseconds) are parameters of the
    model; a parameter that yields `None` stands for the exception the
    scripts catch. */
module Coercion {
  import opened Common
  import opened Text
  import opened Numbers

  /** The field types the scripts tell apart (`esriFieldType…`); any other
      type name is `OtherField`. */
  datatype FieldType =
    | IntegerField | SmallIntegerField | OidField | DoubleField | SingleField
    | StringField | DateField | OtherField(typeName: string)

  /** One field of the target layer. */
  datatype FieldDef = FieldDef(name: string, ftype: FieldType, length: Option<nat>)

  /** An attribute value sent to the layer; `Null` is Python's `None`. */
  datatype Value = Null | Int(i: int) | Real(r: Decimal) | Text(s: string)

  /** A cell of a pandas frame: missing (NaN or None), an integer, a float or
      a text. */
  datatype Cell = Missing | IntCell(i: int) | FloatCell(f: Decimal) | TextCell(s: string)

  predicate Declares(fields: seq<FieldDef>, name: string)
  {
    exists i :: 0 <= i < |fields| && fields[i].name == name
  }

  /** `{f['name']: f['type'] for f in fields}[name]`: a later definition of
      the same name replaces an earlier one. */
  function TypeOf(fields: seq<FieldDef>, name: string): (t: Option<FieldType>)
    ensures t.Some? <==> Declares(fields, name)
  {
    if fields == [] then None
    else
      var last := fields[|fields| - 1];
      if last.name == name then Some(last.ftype)
      else
        var t := TypeOf(fields[..|fields| - 1], name);
        assert Declares(fields[..|fields| - 1], name) ==> Declares(fields, name);
        t
  }

  /** `next(f for f in fields if f['name'] == name)`: the first definition. */
  function FirstDef(fields: seq<FieldDef>, name: string): (d: Option<FieldDef>)
    ensures d.Some? <==> Declares(fields, name)
    ensures d.Some? ==> d.value.name == name
  {
    if fields == [] then None
    else if fields[0].name == name then Some(fields[0])
    else
      var d := FirstDef(fields[1..], name);
      assert Declares(fields, name) ==> fields[0].name == name || Declares(fields[1..], name) by {
        if Declares(fields, name) && fields[0].name != name {
          var i :| 0 <= i < |fields| && fields[i].name == name;
          assert fields[1..][i - 1] == fields[i];
        }
      }
      d
  }

  /** `{f['name']: f['length'] for f in fields if f.get('length') is not None}[name]`. */
  function LengthOf(fields: seq<FieldDef>, name: string): (n: Option<nat>)
    ensures n.Some? ==> Declares(fields, name)
  {
    if fields == [] then None
    else
      var last := fields[|fields| - 1];
      if last.name == name && last.length.Some? then last.length
      else
        var n := LengthOf(fields[..|fields| - 1], name);
        assert Declares(fields[..|fields| - 1], name) ==> Declares(fields, name);
        n
  }

  /** The first `n` characters (`s[:n]` for `n >= 0`). */
  function Prefix(s: string, n: nat): (p: string)
    ensures |p| == (if n < |s| then n else |s|)
    ensures p == s[..|p|]
  {
    if n < |s| then s[..n] else s
  }

  predicate IsIntegerType(t: FieldType)
  {
    t == IntegerField || t == SmallIntegerField
  }

  predicate IsRealType(t: FieldType)
  {
    t == DoubleField || t == SingleField
  }

  // ---------------------------------------------------------------------
  // Values read from the HTML description (mass movements)
  // ---------------------------------------------------------------------

  /** The HTML value converted for a field of type `ftype` whose definition
      is `def`: numbers are read after turning commas into dots, integers are
      truncated, text is cut to the declared length when that length is
      non-zero, and a failed number gives `Null`. */
  function CoerceHtml(raw: string, ftype: Option<FieldType>, def: Option<FieldDef>,
                      parse: string -> Option<Decimal>): (v: Value)
    ensures v == Null ==> ftype.Some? && (IsIntegerType(ftype.value) || IsRealType(ftype.value))
  {
    var numeric := ReplaceChar(raw, ',', '.');
    if ftype.Some? && IsIntegerType(ftype.value) then
      match parse(numeric)
      case Some(d) => Int(Truncate(d))
      case None => Null
    else if ftype.Some? && IsRealType(ftype.value) then
      match parse(numeric)
      case Some(d) => Real(d)
      case None => Null
    else if ftype == Some(StringField) then
      if def.Some? && def.value.length.Some? && def.value.length.value != 0 && |raw| > def.value.length.value
      then Text(raw[..def.value.length.value])
      else Text(raw)
    else Text(raw)
  }

  /** A numeric field gets the parsed number of the text with commas turned
      into dots ("3,5" reads as "3.5"), truncated toward zero for integer
      fields; `Null` exactly when that text does not parse. */
  lemma {:induction false} CoerceHtmlNumeric(raw: string, ftype: FieldType, def: Option<FieldDef>, parse: string -> Option<Decimal>)
    requires IsIntegerType(ftype) || IsRealType(ftype)
    ensures var text := ReplaceChar(raw, ',', '.');
      ',' !in text &&
      (forall i :: 0 <= i < |raw| ==> text[i] == (if raw[i] == ',' then '.' else raw[i])) &&
      (CoerceHtml(raw, Some(ftype), def, parse) == Null <==> parse(text) == None) &&
      (parse(text).Some? && IsIntegerType(ftype) ==>
        CoerceHtml(raw, Some(ftype), def, parse) == Int(Truncate(parse(text).value))) &&
      (parse(text).Some? && IsRealType(ftype) ==>
        CoerceHtml(raw, Some(ftype), def, parse) == Real(parse(text).value))
  {
    ReplaceCharAt(raw, ',', '.');
    var text := ReplaceChar(raw, ',', '.');
    assert forall i :: 0 <= i < |text| ==> text[i] != ',';
  }

  /** Replacing commas is idempotent, so a value that already uses dots reads
      the same. */
  lemma {:induction false} CommaReplacementIdempotent(raw: string)
    ensures ReplaceChar(ReplaceChar(raw, ',', '.'), ',', '.') == ReplaceChar(raw, ',', '.')
  {
    CoerceHtmlNumeric(raw, DoubleField, None, t => None);
    ReplaceCharAbsent(ReplaceChar(raw, ',', '.'), ',', '.');
  }

  /** A text field keeps the value when no non-zero length is declared or the
      value fits, and otherwise keeps exactly its first `length` characters. */
  lemma {:induction false} CoerceHtmlText(raw: string, def: Option<FieldDef>, parse: string -> Option<Decimal>)
    ensures var v := CoerceHtml(raw, Some(StringField), def, parse);
      v.Text? && v.s == raw[..|v.s|] &&
      (if def.Some? && def.value.length.Some? && def.value.length.value != 0 && |raw| > def.value.length.value
       then |v.s| == def.value.length.value
       else v.s == raw)
  {
  }

  /** Any other field type, or a field the layer does not type, gets the
      text unchanged. */
  lemma {:induction false} CoerceHtmlPassThrough(raw: string, ftype: Option<FieldType>, def: Option<FieldDef>, parse: string -> Option<Decimal>)
    requires ftype.None? || !(IsIntegerType(ftype.value) || IsRealType(ftype.value) || ftype.value == StringField)
    ensures CoerceHtml(raw, ftype, def, parse) == Text(raw)
  {
  }

  // ---------------------------------------------------------------------
  // Values read from the CSV frame (operational)
  // ---------------------------------------------------------------------

  /** `str(value)` of a cell. */
  function CellText(c: Cell): (t: string)
  {
    match c
    case Missing => "nan"
    case IntCell(i) => IntText(i)
    case FloatCell(d) => FloatText(d)
    case TextCell(s) => s
  }

  /** `float(value)`: numbers convert directly, text is parsed. */
  function CellNumber(c: Cell, parse: string -> Option<Decimal>): (d: Option<Decimal>)
    requires !c.Missing?
  {
    match c
    case IntCell(i) => Some(Decimal(i, 0))
    case FloatCell(f) => Some(f)
    case TextCell(s) => parse(s)
  }

  /** The cell as it is sent when no conversion applies. */
  function CellValue(c: Cell): (v: Value)
    ensures c.Missing? <==> v == Null
  {
    match c
    case Missing => Null
    case IntCell(i) => Int(i)
    case FloatCell(f) => Real(f)
    case TextCell(s) => Text(s)
  }

  /** The text length a string field is cut to: the declared length, or 255
      when the layer declares none. */
  function StringLimit(fields: seq<FieldDef>, name: string): (n: nat)
    ensures LengthOf(fields, name).None? ==> n == 255
  {
    match LengthOf(fields, name)
    case Some(n) => n
    case None => 255
  }

  /** A non-missing CSV cell converted for a field of type `ftype`.  The empty
      text and a single space give `Null` for numeric fields; a text field is
      cut to `limit` characters; a date field keeps an integer, truncates a
      float and otherwise asks `toDate`; a failed conversion gives `Null`. */
  function CoerceCsv(value: Cell, ftype: FieldType, limit: nat,
                     parse: string -> Option<Decimal>, toDate: Cell -> Option<int>): (v: Value)
    requires !value.Missing?
  {
    var blank := value == TextCell("") || value == TextCell(" ");
    if IsIntegerType(ftype) then
      if blank then Null
      else match CellNumber(value, parse)
        case Some(d) => Int(Truncate(d))
        case None => Null
    else if IsRealType(ftype) then
      if blank then Null
      else match CellNumber(value, parse)
        case Some(d) => Real(d)
        case None => Null
    else if ftype == StringField then Text(Prefix(CellText(value), limit))
    else if ftype == DateField then
      if value.FloatCell? then Int(Truncate(value.f))
      else if value.IntCell? then Int(value.i)
      else match toDate(value)
        case Some(ms) => Int(ms)
        case None => Null
    else CellValue(value)
  }

  /** `Null` comes only from a blank or unparsable value for a numeric field
      or a text that `toDate` cannot read for a date field; a date field
      sends a number's whole part and otherwise the date `toDate` reads; a
      text field always gets the first `limit` characters of the value's
      text; other field types get the value as it is. */
  lemma {:induction false} CoerceCsvMeaning(value: Cell, ftype: FieldType, limit: nat,
                         parse: string -> Option<Decimal>, toDate: Cell -> Option<int>)
    requires !value.Missing?
    ensures var v := CoerceCsv(value, ftype, limit, parse, toDate);
      var blank := value == TextCell("") || value == TextCell(" ");
      (v == Null <==>
        ((IsIntegerType(ftype) || IsRealType(ftype)) && (blank || CellNumber(value, parse).None?)) ||
        (ftype == DateField && value.TextCell? && toDate(value).None?)) &&
      (ftype == StringField ==>
        (v.Text? && v.s == CellText(value)[..|v.s|] &&
         |v.s| == (if limit < |CellText(value)| then limit else |CellText(value)|))) &&
      (IsIntegerType(ftype) && !blank && CellNumber(value, parse).Some? ==>
        v == Int(Truncate(CellNumber(value, parse).value))) &&
      (ftype == DateField && value.IntCell? ==> v == Int(value.i)) &&
      (ftype == DateField && value.FloatCell? ==> v == Int(Truncate(value.f))) &&
      (ftype == DateField && value.TextCell? && toDate(value).Some? ==> v == Int(toDate(value).value)) &&
      (!(IsIntegerType(ftype) || IsRealType(ftype) || ftype == StringField || ftype == DateField) ==>
        v == CellValue(value))
  {
  }

  /** An integer cell is kept as is by integer fields, and a text with a
      number of the form "12" or "12.75" is truncated to its whole part. */
  lemma {:induction false} CoerceCsvIntegers(i: int, whole: string, frac: string, limit: nat, toDate: Cell -> Option<int>)
    requires AllDigits(whole) && AllDigits(frac) && |whole| + |frac| > 0
    ensures CoerceCsv(IntCell(i), IntegerField, limit, t => None, toDate) == Int(i)
    ensures var t := whole + "." + frac;
      AllNumberRunChars(t) &&
      CoerceCsv(TextCell(t), IntegerField, limit, s => if AllNumberRunChars(s) then ParseRun(s) else None, toDate)
        == Int(DigitsValue(whole))
  {
    TruncateWithDot(whole, frac);
    var t := whole + "." + frac;
    assert t[|whole|] == '.';
  }
}

/** Reading a symbology code out of a placemark's label.

    The full mass-movements script takes the longest trailing run of digits
    and dots of the stripped label ("Deslizamiento – 2" gives "2"), reads it
    as a number, and, when the label has the form `<text> – <number>` (an en
    dash, U+2013, with optional whitespace around it), keeps `<text>` as the
    name.  The number becomes the SymbolID in the representation of the
    layer's SymbolID field.  The pipelines script only reads the trailing run
    of ASCII digits as an integer. */
module Symbology {
  import opened Common
  import opened Text
  import opened Numbers
  import opened Coercion

  // ---------------------------------------------------------------------
  // Longest suffix of a character class
  // ---------------------------------------------------------------------

  predicate AllSatisfy(t: string, p: char -> bool)
  {
    forall i :: 0 <= i < |t| ==> p(t[i])
  }

  /** Where the longest suffix of `s` made of characters satisfying `p`
      begins; `|s|` when the last character does not satisfy `p`. */
  function SuffixStart(s: string, p: char -> bool): (j: nat)
    ensures j <= |s|
  {
    if s != [] && p(s[|s| - 1]) then SuffixStart(s[..|s| - 1], p) else |s|
  }

  /** The suffix from `SuffixStart` is made of `p`-characters and cannot be
      extended to the left. */
  lemma {:induction false} SuffixStartFacts(s: string, p: char -> bool)
    ensures var j := SuffixStart(s, p);
      AllSatisfy(s[j..], p) && (j == 0 || !p(s[j - 1]))
  {
    if s != [] && p(s[|s| - 1]) {
      var s' := s[..|s| - 1];
      SuffixStartFacts(s', p);
      var j := SuffixStart(s, p);
      assert s[j..] == s'[j..] + [s[|s| - 1]];
      assert j == 0 || s[j - 1] == s'[j - 1];
    }
  }

  /** A suffix of `p`-characters that starts the string or follows a
      character outside `p` is the one `SuffixStart` finds: this is the
      match of a `[…]+$` search, which starts as far left as it can. */
  lemma {:induction false} SuffixStartUnique(s: string, p: char -> bool, j: nat)
    requires j <= |s| && AllSatisfy(s[j..], p) && (j == 0 || !p(s[j - 1]))
    ensures SuffixStart(s, p) == j
  {
    if j < |s| {
      assert s[j..][|s| - 1 - j] == s[|s| - 1];
      var s' := s[..|s| - 1];
      assert s'[j..] == s[j..|s| - 1];
      assert j == 0 || s'[j - 1] == s[j - 1];
      SuffixStartUnique(s', p, j);
    }
  }

  // ---------------------------------------------------------------------
  // The name before the en dash
  // ---------------------------------------------------------------------

  const EnDash: char := '–'

  /** `^(.*?)\s*–\s*$` matches `p` with its group ending at `n` and the dash
      at `m`: whitespace around the dash, and no line break in the group
      (`.` does not match one). */
  predicate DashMatchAt(p: string, n: nat, m: nat)
  {
    n <= m < |p| && p[m] == EnDash && AllWhitespace(p[n..m]) && AllWhitespace(p[m + 1..]) &&
    '\n' !in p[..n]
  }

  ghost predicate DashMatch(p: string, n: nat)
  {
    exists m :: DashMatchAt(p, n, m)
  }

  /** Where the lazy group of `^(.*?)\s*–\s*$` ends when the pattern matches
      `p`: the dash is the last non-whitespace character, and the group is
      everything before it, less the whitespace in between. */
  function DashGroupEnd(p: string): (n: Option<nat>)
    ensures n.Some? ==> n.value < |p|
  {
    var t := TrimEnd(p);
    if t == [] || t[|t| - 1] != EnDash then None
    else
      var h := TrimEnd(t[..|t| - 1]);
      if '\n' in h then None else Some(|h|)
  }

  /** A line break before the group's end stays in the group when it grows. */
  lemma {:induction false} PrefixKeepsBreak(p: string, k: nat, n: nat)
    requires k <= n <= |p|
    ensures '\n' in p[..k] ==> '\n' in p[..n]
  {
    if '\n' in p[..k] {
      var i :| 0 <= i < k && p[..k][i] == '\n';
      assert p[..n][i] == '\n';
    }
  }

  /** Any match has its dash at the last non-whitespace character, and the
      group found by `DashGroupEnd` ends no later than the match's. */
  lemma {:induction false} DashGroupLowerBound(p: string, n: nat, m: nat)
    requires DashMatchAt(p, n, m)
    ensures DashGroupEnd(p).Some? && DashGroupEnd(p).value <= n
  {
    var t := TrimEnd(p);
    TrimEndFacts(p);
    assert !IsWhitespace(p[m]);
    TrimEndKeeps(p, m);
    TrimEndWithin(p, m + 1);
    assert t[m] == p[m];
    var u := t[..m];
    assert u == p[..m];
    assert u[n..] == p[n..m];
    TrimEndWithin(u, n);
    var h := TrimEnd(u);
    TrimEndFacts(u);
    assert h == p[..|h|];
    PrefixKeepsBreak(p, |h|, n);
  }

  /** The group found by `DashGroupEnd` is a match, with the dash at the last
      non-whitespace character. */
  lemma {:induction false} DashGroupFound(p: string)
    requires DashGroupEnd(p).Some?
    ensures DashMatchAt(p, DashGroupEnd(p).value, |TrimEnd(p)| - 1)
  {
    var t := TrimEnd(p);
    TrimEndFacts(p);
    var u := t[..|t| - 1];
    assert u == p[..|t| - 1];
    var h := TrimEnd(u);
    TrimEndFacts(u);
    var k := |h|;
    assert h == p[..k];
    assert p[k..|t| - 1] == u[k..];
    assert p[|t|..] == p[|t| - 1 + 1..];
  }

  /** `DashGroupEnd` is the regular expression's match: when it gives `n`,
      the pattern matches with the group ending at `n` and at no earlier
      position (the group is lazy); when it gives nothing, the pattern does
      not match at all. */
  lemma {:induction false} DashGroupEndSpec(p: string)
    ensures DashGroupEnd(p).Some? ==>
      DashMatch(p, DashGroupEnd(p).value) &&
      forall n :: DashMatch(p, n) ==> DashGroupEnd(p).value <= n
    ensures DashGroupEnd(p).None? ==> forall n :: !DashMatch(p, n)
  {
    forall n, m | DashMatchAt(p, n, m)
      ensures DashGroupEnd(p).Some? && DashGroupEnd(p).value <= n
    {
      DashGroupLowerBound(p, n, m);
    }
    if DashGroupEnd(p).Some? {
      DashGroupFound(p);
    }
  }

  /** With a non-empty text `g` that has no line break and does not end in
      whitespace, the group of `g – ` is `g`. */
  lemma {:induction false} DashGroupAfterText(g: string)
    requires g != [] && !IsWhitespace(g[|g| - 1]) && '\n' !in g
    ensures DashGroupEnd(g + " – ") == Some(|g|)
  {
    var p := g + " – ";
    assert p[..|p| - 1] == g + " –";
    assert TrimEnd(p) == g + " –";
    assert (g + " –")[..|g| + 1] == g + " ";
    assert (g + " ")[..|g|] == g;
    assert TrimEnd(g + " ") == g;
  }

  // ---------------------------------------------------------------------
  // Label parsing (full mass-movements script)
  // ---------------------------------------------------------------------

  /** The processed name and the number read from a label, if any. */
  datatype LabelParse = LabelParse(name: string, number: Option<Decimal>)

  /** The label `raw` (the text of the placemark's name cell) processed as
      the feature loop does: strip it; take the longest trailing run of
      digits and dots; when that run reads as a number, the label of the form
      `<text> – <run>` is named `<text>` stripped, the label that is only the
      run is named by the run, and any other label keeps its stripped text. */
  function ParseLabel(raw: string): (r: LabelParse)
    ensures r.number.None? ==> r.name == Strip(raw)
  {
    var v := Strip(raw);
    var j := SuffixStart(v, IsNumberRunChar);
    if v == [] || j == |v| then LabelParse(v, None)
    else
      SuffixStartFacts(v, IsNumberRunChar);
      assert forall i :: 0 <= i < |v[j..]| ==> IsNumberRunChar(v[j..][i]);
      var run := v[j..];
      match ParseRun(run)
      case None => LabelParse(v, None)
      case Some(d) =>
        match DashGroupEnd(v[..j])
        case Some(n) => LabelParse(Strip(v[..n]), Some(d))
        case None => if v == run then LabelParse(run, Some(d)) else LabelParse(v, Some(d))
  }

  /** The number comes from the longest trailing run of digits and dots of
      the stripped label, and there is one exactly when that run is
      non-empty and reads as a number. */
  lemma {:induction false} ParseLabelNumber(raw: string)
    ensures var v := Strip(raw);
      var j := SuffixStart(v, IsNumberRunChar);
      AllNumberRunChars(v[j..]) && (j == 0 || !IsNumberRunChar(v[j - 1])) &&
      (ParseLabel(raw).number.Some? <==> j < |v| && ParseRun(v[j..]).Some?) &&
      (ParseLabel(raw).number.Some? ==> ParseLabel(raw).number == ParseRun(v[j..]))
  {
    var v := Strip(raw);
    SuffixStartFacts(v, IsNumberRunChar);
    var j := SuffixStart(v, IsNumberRunChar);
    assert forall i :: 0 <= i < |v[j..]| ==> IsNumberRunChar(v[j..][i]);
  }

  /** A label that does not end in a digit or a dot keeps its stripped text
      and has no number. */
  lemma {:induction false} ParseLabelNoRun(raw: string)
    requires var v := Strip(raw); v == [] || !IsNumberRunChar(v[|v| - 1])
    ensures ParseLabel(raw) == LabelParse(Strip(raw), None)
  {
  }

  /** A label that is only a run of digits and dots is named by that run. */
  lemma {:induction false} ParseLabelOnlyNumber(raw: string)
    requires Strip(raw) != [] && AllNumberRunChars(Strip(raw))
    ensures ParseLabel(raw) == LabelParse(Strip(raw), ParseRun(Strip(raw)))
  {
    var v := Strip(raw);
    SuffixStartUnique(v, IsNumberRunChar, 0);
    assert v[0..] == v;
  }

  /** A label whose run reads as `d` and whose text before the run has the
      dash form with its group ending at `n` is named by that group,
      stripped. */
  lemma {:induction false} ParseLabelWithDash(raw: string, j: nat, d: Decimal, n: nat)
    requires var v := Strip(raw);
      v != [] && j < |v| && j == SuffixStart(v, IsNumberRunChar) && AllNumberRunChars(v[j..]) &&
      ParseRun(v[j..]) == Some(d) && DashGroupEnd(v[..j]) == Some(n)
    ensures ParseLabel(raw) == LabelParse(Strip(Strip(raw)[..n]), Some(d))
  {
  }

  /** `<text> – <digits>` is named `<text>` and numbered by the digits, for a
      text without a line break or whitespace at its ends. */
  lemma {:induction false} ParseLabelDash(g: string, k: nat)
    requires g != [] && !IsWhitespace(g[0]) && !IsWhitespace(g[|g| - 1]) && '\n' !in g
    ensures ParseLabel(g + " – " + DigitText(k)) == LabelParse(g, Some(Decimal(k, 0)))
  {
    var digits := DigitText(k);
    var v := g + " – " + digits;
    assert !IsWhitespace(v[|v| - 1]) by {
      assert v[|v| - 1] == digits[|digits| - 1];
    }
    StripFixpoint(v);
    StripFixpoint(g);
    var j := |g| + 3;
    assert v[j..] == digits;
    assert v[j - 1] == ' ';
    assert AllSatisfy(v[j..], IsNumberRunChar);
    SuffixStartUnique(v, IsNumberRunChar, j);
    ParseDigits(digits);
    DigitsRoundTrip(k);
    assert v[..j] == g + " – ";
    DashGroupAfterText(g);
    assert v[..|g|] == g;
    ParseLabelWithDash(v, j, Decimal(k, 0), |g|);
  }

  /** The label "Deslizamiento – 2" is named "Deslizamiento" with number 2. */
  lemma {:induction false} DeslizamientoLabel()
    ensures ParseLabel("Deslizamiento – 2") == LabelParse("Deslizamiento", Some(Decimal(2, 0)))
  {
    var name := "Deslizamiento – 2";
    var g := "Deslizamiento";
    assert g + " – " + DigitText(2) == name by {
      assert DigitText(2) == "2";
    }
    assert g != [] && !IsWhitespace(g[0]) && !IsWhitespace(g[|g| - 1]) && '\n' !in g;
    ParseLabelDash(g, 2);
  }

  /** The processed name is always stripped. */
  lemma {:induction false} ParsedNameStripped(raw: string)
    ensures Strip(ParseLabel(raw).name) == ParseLabel(raw).name
  {
    var v := Strip(raw);
    StripIdempotent(raw);
    var j := SuffixStart(v, IsNumberRunChar);
    if v != [] && j < |v| {
      SuffixStartFacts(v, IsNumberRunChar);
      assert forall i :: 0 <= i < |v[j..]| ==> IsNumberRunChar(v[j..][i]);
      if ParseRun(v[j..]).Some? {
        match DashGroupEnd(v[..j])
        case Some(n) => StripIdempotent(v[..n]);
        case None =>
      }
    }
  }

  // ---------------------------------------------------------------------
  // Attribute values
  // ---------------------------------------------------------------------

  /** The Name attribute: the processed name, or `None` when it is blank. */
  function NameAttribute(name: string): (v: Value)
    ensures v == Null || v == Text(name)
  {
    if Strip(name) != [] then Text(name) else Null
  }

  /** A blank name is stored as `None`, any other name as it is; for a
      processed label that means exactly the empty name. */
  lemma {:induction false} NameAttributeBlank(name: string, raw: string)
    ensures NameAttribute(name) == Null <==> AllWhitespace(name)
    ensures NameAttribute(ParseLabel(raw).name) == Null <==> ParseLabel(raw).name == []
  {
    StripFacts(name);
    ParsedNameStripped(raw);
  }

  /** The SymbolID written for the label's number, in the representation
      of the layer's SymbolID field: 0 without a number; integer and object
      id fields truncate; double fields keep the number; text fields get its
      `str(float)` form; an untyped or other field gets the number itself. */
  function SymbolValue(number: Option<Decimal>, target: Option<FieldType>): (v: Value)
    ensures number.None? ==> v == Int(0)
    ensures !v.Null?
  {
    match number
    case None => Int(0)
    case Some(d) =>
      if target == Some(IntegerField) || target == Some(SmallIntegerField) || target == Some(OidField) then
        Int(Truncate(d))
      else if target == Some(DoubleField) || target == Some(SingleField) then Real(d)
      else if target == Some(StringField) then Text(FloatText(d))
      else Real(d)
  }

  /** `symbol_id == 0` in Python: the integer 0 or a float equal to 0; a
      text never equals 0. */
  predicate IsDefaultSymbol(v: Value)
  {
    v == Int(0) || (v.Real? && v.r.mantissa == 0)
  }

  /** The SymbolID is the default exactly when there is no number, or the
      number is 0, or an integer field truncates it to 0; a text field never
      holds the default once a number was read. */
  lemma {:induction false} DefaultSymbolMeaning(number: Option<Decimal>, target: Option<FieldType>)
    ensures IsDefaultSymbol(SymbolValue(number, target)) <==>
      number.None? ||
      (target != Some(StringField) &&
       (if target == Some(IntegerField) || target == Some(SmallIntegerField) || target == Some(OidField)
        then Truncate(number.value) == 0
        else number.value.mantissa == 0))
  {
  }

  /** A fractional number below one is the default for an integer field
      but not for a double field. */
  lemma {:induction false} HalfIsDefaultForIntegers()
    ensures IsDefaultSymbol(SymbolValue(Some(Decimal(5, 1)), Some(IntegerField)))
    ensures !IsDefaultSymbol(SymbolValue(Some(Decimal(5, 1)), Some(DoubleField)))
  {
    assert Pow10(1) == 10;
  }

  // ---------------------------------------------------------------------
  // Trailing digits (pipelines script)
  // ---------------------------------------------------------------------

  /** `astype(str).str.extract(r'(\d+)$').fillna(0).astype(int)` for one
      cell of the name column: a missing cell reads as the text "None"; `$`
      also matches before a final line break. */
  function TrailingDigitsCode(cell: Option<string>): (code: nat)
    ensures cell.None? ==> code == 0
  {
    var text := if cell.Some? then cell.value else "None";
    var body := if text != [] && text[|text| - 1] == '\n' then text[..|text| - 1] else text;
    var j := SuffixStart(body, IsAsciiDigit);
    if j == |body| then 0
    else
      SuffixStartFacts(body, IsAsciiDigit);
      assert forall i :: 0 <= i < |body[j..]| ==> IsAsciiDigit(body[j..][i]);
      DigitsValue(body[j..])
  }

  /** The code of a text whose maximal trailing digit run, before an
      optional final line break, starts at `j`. */
  lemma {:induction false} TrailingDigitsFrom(text: string, body: string, j: nat)
    requires text == body || text == body + "\n"
    requires j < |body| && AllDigits(body[j..]) && (j == 0 || !IsAsciiDigit(body[j - 1]))
    ensures TrailingDigitsCode(Some(text)) == DigitsValue(body[j..])
  {
    assert body[j..][|body| - 1 - j] == body[|body| - 1];
    if text != body {
      assert text[..|text| - 1] == body;
    }
    assert AllSatisfy(body[j..], IsAsciiDigit);
    SuffixStartUnique(body, IsAsciiDigit, j);
  }

  /** A label made of a text that does not end in a digit followed by the
      decimal digits of `k` (and possibly a final line break) gets code `k`. */
  lemma {:induction false} TrailingDigitsOf(g: string, k: nat, lineBreak: bool)
    requires g == [] || !IsAsciiDigit(g[|g| - 1])
    ensures TrailingDigitsCode(Some(g + DigitText(k) + (if lineBreak then "\n" else ""))) == k
  {
    var body := g + DigitText(k);
    assert body[|g|..] == DigitText(k);
    assert |g| == 0 || body[|g| - 1] == g[|g| - 1];
    if lineBreak {
      TrailingDigitsFrom(body + "\n", body, |g|);
    } else {
      assert body + "" == body;
      TrailingDigitsFrom(body, body, |g|);
    }
    DigitsRoundTrip(k);
  }

  /** A label that does not end in a digit (after dropping one final line
      break) gets code 0. */
  lemma {:induction false} TrailingDigitsNone(text: string)
    requires var body := if text != [] && text[|text| - 1] == '\n' then text[..|text| - 1] else text;
      body == [] || !IsAsciiDigit(body[|body| - 1])
    ensures TrailingDigitsCode(Some(text)) == 0
  {
  }

  /** The SymbolID, Name and categoria columns the pipelines script
      writes for one row: `name` is `None` when the frame has no name column
      and otherwise the cell copied unchanged; `categoria` likewise. */
  datatype RowSymbology = RowSymbology(symbolId: nat, name: Option<Option<string>>, categoria: Option<nat>)

  function RowSymbologyOf(hasNameColumn: bool, cell: Option<string>): (r: RowSymbology)
    ensures !hasNameColumn ==> r == RowSymbology(0, None, None)
    ensures hasNameColumn ==> r.name == Some(cell) && r.categoria == Some(r.symbolId)
  {
    if hasNameColumn then
      var code := TrailingDigitsCode(cell);
      RowSymbology(code, Some(cell), Some(code))
    else RowSymbology(0, None, None)
  }

  /** The columns for the whole frame, one entry per row in row order. */
  function FrameSymbology(hasNameColumn: bool, names: seq<Option<string>>): (rs: seq<RowSymbology>)
    ensures |rs| == |names|
    ensures forall i :: 0 <= i < |names| ==> rs[i] == RowSymbologyOf(hasNameColumn, names[i])
  {
    seq(|names|, i requires 0 <= i < |names| => RowSymbologyOf(hasNameColumn, names[i]))
  }

  /** Every row's categoria equals its SymbolID, and without a name column
      every SymbolID is 0. */
  lemma {:induction false} FrameSymbologyFacts(hasNameColumn: bool, names: seq<Option<string>>)
    ensures var rs := FrameSymbology(hasNameColumn, names);
      (forall i :: 0 <= i < |rs| ==> rs[i].categoria.Some? ==> rs[i].categoria.value == rs[i].symbolId) &&
      (!hasNameColumn ==> forall i :: 0 <= i < |rs| ==> rs[i].symbolId == 0) &&
      (hasNameColumn ==> forall i :: 0 <= i < |rs| ==> rs[i].name == Some(names[i]))
  {
  }
}

/** Cleaning of KML column names and of the labels found in the HTML
    description tables. Two variants exist:
    - the full one (mass-movements script): strip, turn ' ', '-' and ':' into
      '_', delete everything outside `[a-zA-Z0-9_]`, prefix '_' to a name that
      starts with a digit, and name an empty result `col_limpia_vacia_<i>`;
    - the reduced one (mass-movements pipeline): only ' ' becomes '_', there
      is no empty fallback, and HTML labels are neither stripped nor prefixed. */
module Identifiers {
  import opened Common
  import opened Text

  /** `re.sub(r'[^a-zA-Z0-9_]', '', s)`: the characters of the class, in order. */
  function KeepIdentChars(s: string): (r: string)
    ensures |r| <= |s|
  {
    if s == [] then [] else (if IsIdentChar(s[0]) then [s[0]] else []) + KeepIdentChars(s[1..])
  }

  /** Deleting the other characters is filtering by the class. */
  lemma {:induction false} KeepIdentCharsIsFilter(s: string)
    ensures KeepIdentChars(s) == Filter(s, IsIdentChar)
  {
    if s != [] {
      KeepIdentCharsIsFilter(s[1..]);
    }
  }

  /** Only characters of the class are left. */
  lemma {:induction false} KeepIdentCharsShape(s: string)
    ensures forall i :: 0 <= i < |KeepIdentChars(s)| ==> IsIdentChar(KeepIdentChars(s)[i])
  {
    KeepIdentCharsIsFilter(s);
  }

  /** Exactly the characters of the class survive. */
  lemma {:induction false} KeepIdentCharsMembership(s: string, c: char)
    ensures c in KeepIdentChars(s) <==> c in s && IsIdentChar(c)
  {
    KeepIdentCharsIsFilter(s);
    FilterMembership(s, IsIdentChar, c);
  }

  /** `'_' + s` when `s` starts with a digit. */
  function PrefixDigit(s: string): (r: string)
    ensures r == [] <==> s == []
  {
    if s != [] && IsAsciiDigit(s[0]) then "_" + s else s
  }

  /** The identifier shape every cleaned key has: only `[a-zA-Z0-9_]` and no
      leading digit. */
  predicate IsCleanKey(s: string)
  {
    (forall i :: 0 <= i < |s| ==> IsIdentChar(s[i])) && (s == [] || !IsAsciiDigit(s[0]))
  }

  /** A usable column name: a clean key that is not empty. */
  predicate IsIdentifier(s: string)
  {
    s != [] && IsCleanKey(s)
  }

  /** `.replace(" ", "_").replace("-", "_").replace(":", "_")`. */
  function SeparatorsToUnderscore(s: string): string
  {
    ReplaceChar(ReplaceChar(ReplaceChar(s, ' ', '_'), '-', '_'), ':', '_')
  }

  /** The full cleaning of a name or of an HTML label
      (src_/mass_movements/main.py, column loop and label loop). */
  function CleanKey(raw: string): string
  {
    PrefixDigit(KeepIdentChars(SeparatorsToUnderscore(Strip(raw))))
  }

  /** The column name given to the column at `position`: the cleaned name, or
      `col_limpia_vacia_<position>` when cleaning leaves nothing. */
  function CleanColumnName(raw: string, position: nat): string
  {
    var c := CleanKey(raw);
    if c == [] then "col_limpia_vacia_" + DigitText(position) else c
  }

  /** The reduced cleaning of column names (mass-movements pipeline). */
  function CleanReduced(raw: string): string
  {
    PrefixDigit(KeepIdentChars(ReplaceChar(Strip(raw), ' ', '_')))
  }

  /** The reduced cleaning of HTML labels: no strip, no prefix. */
  function ReducedLabelKey(text: string): string
  {
    KeepIdentChars(ReplaceChar(text, ' ', '_'))
  }

  lemma {:induction false} PrefixDigitClean(s: string)
    requires forall i :: 0 <= i < |s| ==> IsIdentChar(s[i])
    ensures IsCleanKey(PrefixDigit(s))
  {
    var r := PrefixDigit(s);
    if r != s {
      assert forall i :: 1 <= i < |r| ==> r[i] == s[i - 1];
    }
  }

  /** Every fully cleaned key is a clean key. */
  lemma {:induction false} CleanKeyShape(raw: string)
    ensures IsCleanKey(CleanKey(raw))
  {
    KeepIdentCharsShape(SeparatorsToUnderscore(Strip(raw)));
    PrefixDigitClean(KeepIdentChars(SeparatorsToUnderscore(Strip(raw))));
  }

  /** Every reduced column name is a clean key. */
  lemma {:induction false} CleanReducedShape(raw: string)
    ensures IsCleanKey(CleanReduced(raw))
  {
    KeepIdentCharsShape(ReplaceChar(Strip(raw), ' ', '_'));
    PrefixDigitClean(KeepIdentChars(ReplaceChar(Strip(raw), ' ', '_')));
  }

  /** Cleaned column names contain only `[a-zA-Z0-9_]`, are never empty and
      never start with a digit. */
  lemma {:induction false} CleanColumnNameIsIdentifier(raw: string, position: nat)
    ensures IsIdentifier(CleanColumnName(raw, position))
  {
    var c := CleanKey(raw);
    CleanKeyShape(raw);
    if c == [] {
      var r := "col_limpia_vacia_" + DigitText(position);
      forall i | 0 <= i < |r| ensures IsIdentChar(r[i]) {
        if i >= 17 {
          assert r[i] == DigitText(position)[i - 17];
        }
      }
    }
  }

  lemma {:induction false} KeepIdentCharsFixpoint(s: string)
    requires forall i :: 0 <= i < |s| ==> IsIdentChar(s[i])
    ensures KeepIdentChars(s) == s
  {
    KeepIdentCharsIsFilter(s);
    FilterAllPass(s, IsIdentChar);
  }

  /** A clean key contains no whitespace and none of the separators. */
  lemma {:induction false} CleanKeyHasNoSeparators(s: string)
    requires IsCleanKey(s)
    ensures ' ' !in s && '-' !in s && ':' !in s
    ensures s == [] || (!IsWhitespace(s[0]) && !IsWhitespace(s[|s| - 1]))
  {
    forall i | 0 <= i < |s| ensures s[i] != ' ' && s[i] != '-' && s[i] != ':' && !IsWhitespace(s[i]) {
      assert IsIdentChar(s[i]);
    }
  }

  /** Cleaning leaves a string unchanged exactly when it is already a clean
      key; hence cleaning is idempotent. */
  lemma {:induction false} CleanKeyFixpoint(s: string)
    ensures CleanKey(s) == s <==> IsCleanKey(s)
    ensures CleanKey(CleanKey(s)) == CleanKey(s)
  {
    CleanKeyShape(s);
    if IsCleanKey(s) {
      CleanKeyStable(s);
    }
    CleanKeyStable(CleanKey(s));
  }

  lemma {:induction false} CleanKeyStable(s: string)
    requires IsCleanKey(s)
    ensures CleanKey(s) == s
  {
    CleanKeyHasNoSeparators(s);
    StripFixpoint(s);
    ReplaceCharAbsent(s, ' ', '_');
    ReplaceCharAbsent(s, '-', '_');
    ReplaceCharAbsent(s, ':', '_');
    KeepIdentCharsFixpoint(s);
  }

  /** Re-cleaning a cleaned column name returns it unchanged, whatever its
      position. */
  lemma {:induction false} CleanColumnNameIdempotent(raw: string, position: nat, position': nat)
    ensures CleanColumnName(CleanColumnName(raw, position), position') == CleanColumnName(raw, position)
  {
    var c := CleanColumnName(raw, position);
    CleanColumnNameIsIdentifier(raw, position);
    CleanKeyStable(c);
  }

  /** The reduced column cleaning is idempotent too. */
  lemma {:induction false} CleanReducedIdempotent(raw: string)
    ensures CleanReduced(CleanReduced(raw)) == CleanReduced(raw)
  {
    var c := CleanReduced(raw);
    CleanReducedShape(raw);
    CleanKeyHasNoSeparators(c);
    StripFixpoint(c);
    ReplaceCharAbsent(c, ' ', '_');
    KeepIdentCharsFixpoint(c);
  }

  /** A label with no whitespace at its ends and no separator is cleaned
      by the identifier class alone. */
  lemma {:induction false} PlainLabelKey(t: string)
    requires t != [] && !IsWhitespace(t[0]) && !IsWhitespace(t[|t| - 1])
    requires ' ' !in t && '-' !in t && ':' !in t
    ensures CleanKey(t) == PrefixDigit(KeepIdentChars(t))
    ensures ReducedLabelKey(t) == KeepIdentChars(t)
  {
    StripFixpoint(t);
    ReplaceCharAbsent(t, ' ', '_');
    ReplaceCharAbsent(t, '-', '_');
    ReplaceCharAbsent(t, ':', '_');
  }

  /** The ASCII-only class deletes the accented letter, so the label "Área"
      is cleaned to "rea" by both variants. */
  lemma {:induction false} AreaLabelLosesAccent()
    ensures CleanKey("Área") == "rea"
    ensures ReducedLabelKey("Área") == "rea"
  {
    var t := "Área";
    assert t[0] == 'Á' && t[|t| - 1] == 'a';
    assert ' ' !in t && '-' !in t && ':' !in t;
    PlainLabelKey(t);
    AreaFiltered();
  }

  lemma {:induction false} AreaFiltered()
    ensures KeepIdentChars("Área") == "rea"
  {
    var t := "Área";
    assert !IsIdentChar(t[0]) && t[1..] == "rea";
    KeepIdentCharsFixpoint("rea");
  }

  /** No cleaned key contains a non-ASCII letter, so none equals "Área",
      "Área_texto" or "Área_num". */
  lemma {:induction false} CleanKeyIsAscii(raw: string)
    ensures CleanKey(raw) != "Área" && CleanKey(raw) != "Área_texto" && CleanKey(raw) != "Área_num"
    ensures ReducedLabelKey(raw) != "Área_texto" && ReducedLabelKey(raw) != "Área_num"
  {
    CleanKeyShape(raw);
    var c := CleanKey(raw);
    var k := ReducedLabelKey(raw);
    KeepIdentCharsShape(ReplaceChar(raw, ' ', '_'));
    if |c| > 0 {
      assert IsIdentChar(c[0]);
    }
    if |k| > 0 {
      assert IsIdentChar(k[0]);
    }
  }

  /** The column-cleaning loop: one cleaned name per column, in order; the
      fallback name uses the number of names cleaned so far. */
  method CleanColumnNames(names: seq<string>) returns (cleaned: seq<string>)
    ensures |cleaned| == |names|
    ensures forall i :: 0 <= i < |names| ==> cleaned[i] == CleanColumnName(names[i], i)
    ensures forall i :: 0 <= i < |cleaned| ==> IsIdentifier(cleaned[i])
  {
    cleaned := [];
    for i := 0 to |names|
      invariant |cleaned| == i
      invariant forall j :: 0 <= j < i ==> cleaned[j] == CleanColumnName(names[j], j)
    {
      var c := CleanKey(names[i]);
      if c == [] {
        c := "col_limpia_vacia_" + DigitText(|cleaned|);
      }
      cleaned := cleaned + [c];
    }
    forall i | 0 <= i < |cleaned| ensures IsIdentifier(cleaned[i]) {
      CleanColumnNameIsIdentifier(names[i], i);
    }
  }

  /** The reduced column-cleaning loop of the pipeline. */
  method CleanColumnsReduced(names: seq<string>) returns (cleaned: seq<string>)
    ensures |cleaned| == |names|
    ensures forall i :: 0 <= i < |names| ==> cleaned[i] == CleanReduced(names[i])
    ensures forall i :: 0 <= i < |cleaned| ==> IsCleanKey(cleaned[i])
  {
    cleaned := [];
    for i := 0 to |names|
      invariant |cleaned| == i
      invariant forall j :: 0 <= j < i ==> cleaned[j] == CleanReduced(names[j])
    {
      var c := PrefixDigit(KeepIdentChars(ReplaceChar(Strip(names[i]), ' ', '_')));
      cleaned := cleaned + [c];
    }
    forall i | 0 <= i < |cleaned| ensures IsCleanKey(cleaned[i]) {
      CleanReducedShape(names[i]);
    }
  }

  /** The cleaned name of the first original column called `label`
      (`cleaned[original.index(label)]`), or None when no column has it. */
  function CleanedColumnFor(original: seq<string>, cleaned: seq<string>, name: string): (r: Option<string>)
    requires |cleaned| == |original|
    ensures r.None? <==> name !in original
    ensures r.Some? ==> exists i :: 0 <= i < |original| && original[i] == name && name !in original[..i] && r.value == cleaned[i]
  {
    if name in original then
      var i := IndexOf(original, name);
      Some(cleaned[i])
    else None
  }

  /** Column `i` is the first whose name contains `pattern`. */
  predicate FirstMatchAt(columns: seq<string>, pattern: string, i: int)
  {
    0 <= i < |columns| && IsSubstring(pattern, columns[i]) &&
    forall j :: 0 <= j < i ==> !IsSubstring(pattern, columns[j])
  }

  /** The first column whose name contains `pattern`
      (`next((c for c in columns if pattern in c), None)`). */
  function FirstContaining(columns: seq<string>, pattern: string): (r: Option<string>)
    ensures r.None? <==> forall i :: 0 <= i < |columns| ==> !IsSubstring(pattern, columns[i])
    ensures r.Some? ==> exists i :: FirstMatchAt(columns, pattern, i) && columns[i] == r.value
  {
    if columns == [] then None
    else if Contains(pattern, columns[0]) then Some(columns[0])
    else
      var rest := FirstContaining(columns[1..], pattern);
      assert forall i :: 1 <= i < |columns| ==> columns[i] == columns[1..][i - 1];
      if rest.Some? then
        ghost var i :| FirstMatchAt(columns[1..], pattern, i) && columns[1..][i] == rest.value;
        assert FirstMatchAt(columns, pattern, i + 1);
        rest
      else rest
  }
}

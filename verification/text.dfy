/** Character classes and string operations of Python that the pipelines rely
    on: `str.strip`, `str.isdigit` on ASCII text, the identifier class
    `[a-zA-Z0-9_]`, single-character `str.replace`, substring tests and the
    decimal text of a number. */
module Text {

  /** Python's `str.isspace` (and the `\s` class of `re` on `str` patterns). */
  predicate IsWhitespace(c: char)
  {
    var n := c as int;
    n == 32 || 9 <= n <= 13 || 28 <= n <= 31 || n == 0x85 || n == 0xA0 || n == 0x1680
    || 0x2000 <= n <= 0x200A || n == 0x2028 || n == 0x2029 || n == 0x202F || n == 0x205F
    || n == 0x3000
  }

  predicate IsAsciiDigit(c: char)
  {
    '0' <= c <= '9'
  }

  /** The character class `[a-zA-Z0-9_]`: ASCII only, so accented letters are outside it. */
  predicate IsIdentChar(c: char)
  {
    'a' <= c <= 'z' || 'A' <= c <= 'Z' || IsAsciiDigit(c) || c == '_'
  }

  predicate AllWhitespace(s: string)
  {
    forall i :: 0 <= i < |s| ==> IsWhitespace(s[i])
  }

  predicate AllDigits(s: string)
  {
    forall i :: 0 <= i < |s| ==> IsAsciiDigit(s[i])
  }

  /** `s.lstrip()`: drops the leading whitespace run and nothing else. */
  function TrimStart(s: string): (r: string)
    ensures |r| <= |s|
  {
    if s != [] && IsWhitespace(s[0]) then TrimStart(s[1..]) else s
  }

  /** `TrimStart` keeps a suffix that starts with a non-whitespace character
      and drops only whitespace. */
  lemma {:induction false} TrimStartFacts(s: string)
    ensures var r := TrimStart(s);
      r == s[|s| - |r|..] && (r == [] || !IsWhitespace(r[0])) && AllWhitespace(s[..|s| - |r|])
  {
    if s != [] && IsWhitespace(s[0]) {
      TrimStartFacts(s[1..]);
      assert s[..|s| - |TrimStart(s)|] == [s[0]] + s[1..][..|s[1..]| - |TrimStart(s[1..])|];
    }
  }

  /** `s.rstrip()`: drops the trailing whitespace run and nothing else. */
  function TrimEnd(s: string): (r: string)
    ensures |r| <= |s|
  {
    if s != [] && IsWhitespace(s[|s| - 1]) then TrimEnd(s[..|s| - 1]) else s
  }

  /** `TrimEnd` keeps a prefix that ends with a non-whitespace character and
      drops only whitespace. */
  lemma {:induction false} TrimEndFacts(s: string)
    ensures var r := TrimEnd(s);
      r == s[..|r|] && (r == [] || !IsWhitespace(r[|r| - 1])) && AllWhitespace(s[|r|..])
  {
    if s != [] && IsWhitespace(s[|s| - 1]) {
      TrimEndFacts(s[..|s| - 1]);
      assert s[|TrimEnd(s)|..] == s[..|s| - 1][|TrimEnd(s[..|s| - 1])|..] + [s[|s| - 1]];
    }
  }

  /** A character that is not whitespace is kept by `TrimEnd`. */
  lemma {:induction false} TrimEndKeeps(s: string, j: nat)
    requires j < |s| && !IsWhitespace(s[j])
    ensures j < |TrimEnd(s)|
  {
    if IsWhitespace(s[|s| - 1]) {
      TrimEndKeeps(s[..|s| - 1], j);
    }
  }

  /** When everything from `k` on is whitespace, `TrimEnd` keeps at most `k`
      characters. */
  lemma {:induction false} TrimEndWithin(s: string, k: nat)
    requires k <= |s| && AllWhitespace(s[k..])
    ensures |TrimEnd(s)| <= k
  {
    if k < |s| {
      assert s[k..][|s| - 1 - k] == s[|s| - 1];
      assert s[..|s| - 1][k..] == s[k..|s| - 1];
      TrimEndWithin(s[..|s| - 1], k);
    }
  }

  /** Leading whitespace in front of a text that starts with a
      non-whitespace character is exactly what `TrimStart` drops. */
  lemma {:induction false} TrimStartSkips(pad: string, s: string)
    requires AllWhitespace(pad) && (s == [] || !IsWhitespace(s[0]))
    ensures TrimStart(pad + s) == s
  {
    if pad == [] {
      assert pad + s == s;
    } else {
      assert (pad + s)[1..] == pad[1..] + s;
      TrimStartSkips(pad[1..], s);
    }
  }

  /** Trailing whitespace after a text that ends with a non-whitespace
      character is exactly what `TrimEnd` drops. */
  lemma {:induction false} TrimEndSkips(s: string, pad: string)
    requires AllWhitespace(pad) && (s == [] || !IsWhitespace(s[|s| - 1]))
    ensures TrimEnd(s + pad) == s
  {
    if pad == [] {
      assert s + pad == s;
    } else {
      var n := |pad| - 1;
      assert (s + pad)[..|s + pad| - 1] == s + pad[..n];
      TrimEndSkips(s, pad[..n]);
    }
  }

  /** `s.strip()`. */
  function Strip(s: string): (r: string)
    ensures |r| <= |s|
  {
    TrimEnd(TrimStart(s))
  }

  /** The stripped text has no whitespace at either end and is empty exactly
      when the input is all whitespace. */
  lemma {:induction false} StripFacts(s: string)
    ensures var r := Strip(s);
      (r == [] || (!IsWhitespace(r[0]) && !IsWhitespace(r[|r| - 1]))) &&
      (AllWhitespace(s) <==> r == [])
  {
    var t := TrimStart(s);
    var r := TrimEnd(t);
    TrimStartFacts(s);
    TrimEndFacts(t);
    assert s == s[..|s| - |t|] + t;
    assert t == r + t[|r|..];
    if r != [] {
      assert r[0] == t[0];
    }
  }

  /** Stripping a text padded with whitespace on both sides gives the text
      back when it has no whitespace at its ends. */
  lemma {:induction false} StripAround(pad: string, s: string, pad': string)
    requires AllWhitespace(pad) && AllWhitespace(pad')
    requires s != [] && !IsWhitespace(s[0]) && !IsWhitespace(s[|s| - 1])
    ensures Strip(pad + s + pad') == s
  {
    assert pad + s + pad' == pad + (s + pad');
    TrimStartSkips(pad, s + pad');
    TrimEndSkips(s, pad');
  }

  /** Stripping a string that has no whitespace at either end returns it unchanged;
      in particular stripping is idempotent. */
  lemma {:induction false} StripFixpoint(s: string)
    requires s == [] || (!IsWhitespace(s[0]) && !IsWhitespace(s[|s| - 1]))
    ensures Strip(s) == s
  {
  }

  lemma {:induction false} StripIdempotent(s: string)
    ensures Strip(Strip(s)) == Strip(s)
  {
    StripFacts(s);
    StripFixpoint(Strip(s));
  }

  /** `s.replace(from, to)` for single characters. */
  function ReplaceChar(s: string, from: char, to: char): (r: string)
    ensures |r| == |s|
  {
    if s == [] then [] else [if s[0] == from then to else s[0]] + ReplaceChar(s[1..], from, to)
  }

  /** Each character equal to `from` is replaced by `to`; the others are kept. */
  lemma {:induction false} ReplaceCharAt(s: string, from: char, to: char)
    ensures forall i :: 0 <= i < |s| ==> ReplaceChar(s, from, to)[i] == (if s[i] == from then to else s[i])
  {
    if s != [] {
      ReplaceCharAt(s[1..], from, to);
    }
  }

  /** A string without `from` is left unchanged. */
  lemma {:induction false} ReplaceCharAbsent(s: string, from: char, to: char)
    requires from !in s
    ensures ReplaceChar(s, from, to) == s
  {
    if s != [] {
      assert s == [s[0]] + s[1..];
      ReplaceCharAbsent(s[1..], from, to);
    }
  }

  /** `pat` occurs in `s` starting at index `i`. */
  predicate OccursAt(pat: string, s: string, i: int)
  {
    0 <= i <= |s| - |pat| && s[i..i + |pat|] == pat
  }

  /** Python's `pat in s` on strings. */
  predicate IsSubstring(pat: string, s: string)
  {
    exists i :: 0 <= i <= |s| && OccursAt(pat, s, i)
  }

  function ContainsFrom(pat: string, s: string, i: nat): (b: bool)
    requires i <= |s|
    ensures b <==> exists j :: i <= j <= |s| && OccursAt(pat, s, j)
    decreases |s| - i
  {
    if i + |pat| > |s| then false
    else if s[i..i + |pat|] == pat then assert OccursAt(pat, s, i); true
    else ContainsFrom(pat, s, i + 1)
  }

  /** Executable substring test. */
  function Contains(pat: string, s: string): (b: bool)
    ensures b <==> IsSubstring(pat, s)
  {
    ContainsFrom(pat, s, 0)
  }

  function DigitChar(d: nat): (c: char)
    requires d < 10
    ensures IsAsciiDigit(c) && c as int - '0' as int == d
  {
    ('0' as int + d) as char
  }

  /** `str(n)` for a natural number: its shortest decimal text. */
  function DigitText(n: nat): (r: string)
    ensures |r| >= 1 && AllDigits(r)
    ensures r[0] == '0' ==> n == 0
  {
    if n < 10 then [DigitChar(n)] else DigitText(n / 10) + [DigitChar(n % 10)]
  }

  /** `int(t)` for a non-empty run of ASCII digits (leading zeros allowed); 0 for "". */
  function DigitsValue(t: string): nat
    requires AllDigits(t)
  {
    if t == [] then 0 else DigitsValue(t[..|t| - 1]) * 10 + (t[|t| - 1] as int - '0' as int)
  }

  /** Reading back the decimal text of a number gives the number. */
  lemma {:induction false} DigitsRoundTrip(n: nat)
    ensures DigitsValue(DigitText(n)) == n
  {
    if n >= 10 {
      var t := DigitText(n / 10) + [DigitChar(n % 10)];
      assert t[..|t| - 1] == DigitText(n / 10);
      DigitsRoundTrip(n / 10);
    }
  }

  /** `str(i)` for an integer. */
  function IntText(i: int): (r: string)
    ensures |r| >= 1
  {
    if i < 0 then "-" + DigitText(-i) else DigitText(i)
  }
}

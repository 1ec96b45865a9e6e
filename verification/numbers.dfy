/** Numbers as the pipelines see them. A Python float is represented by an
    exact finite decimal; `int(x)` truncates toward zero; `str(x)` prints the
    integer part, a dot and the fractional digits; `float(t)` on a text made
    only of ASCII digits and dots is given concretely. */
module Numbers {
  import opened Common
  import opened Text

  /** The number mantissa × 10^(-scale). */
  datatype Decimal = Decimal(mantissa: int, scale: nat)

  function Pow10(e: nat): (p: nat)
    ensures p >= 1
  {
    if e == 0 then 1 else 10 * Pow10(e - 1)
  }

  lemma {:induction false} Pow10Add(a: nat, b: nat)
    ensures Pow10(a + b) == Pow10(a) * Pow10(b)
  {
    if a > 0 {
      Pow10Add(a - 1, b);
    }
  }

  /** Two decimals denote the same number. */
  predicate SameValue(a: Decimal, b: Decimal)
  {
    a.mantissa * Pow10(b.scale) == b.mantissa * Pow10(a.scale)
  }

  /** `int(x)` for a float: truncation toward zero. Dafny's `/` rounds toward
      minus infinity on negative operands, so the negative case is mirrored. */
  function Truncate(d: Decimal): (r: int)
    ensures d.mantissa >= 0 ==> 0 <= r && r * Pow10(d.scale) <= d.mantissa < (r + 1) * Pow10(d.scale)
    ensures d.mantissa < 0 ==> r <= 0 && (r - 1) * Pow10(d.scale) < d.mantissa <= r * Pow10(d.scale)
  {
    var p := Pow10(d.scale);
    var a := if d.mantissa >= 0 then d.mantissa else -d.mantissa;
    DivisionBounds(a, p);
    if d.mantissa >= 0 then a / p else -(a / p)
  }

  lemma {:induction false} DivisionBounds(a: nat, p: nat)
    requires p >= 1
    ensures 0 <= a / p && (a / p) * p <= a < (a / p + 1) * p
    ensures -(a / p) * p == -((a / p) * p) && (-(a / p) - 1) * p == -((a / p + 1) * p)
  {
  }

  /** The `w` lowest decimal digits of `n`, with leading zeros. */
  function PaddedDigits(n: nat, w: nat): (r: string)
    ensures |r| == w && AllDigits(r)
  {
    if w == 0 then [] else PaddedDigits(n / 10, w - 1) + [DigitChar(n % 10)]
  }

  /** Drops trailing '0' characters. */
  function TrimZeros(t: string): (r: string)
    ensures |r| <= |t| && r == t[..|r|]
    ensures forall i :: |r| <= i < |t| ==> t[i] == '0'
    ensures r == [] || r[|r| - 1] != '0'
  {
    if t != [] && t[|t| - 1] == '0' then TrimZeros(t[..|t| - 1]) else t
  }

  /** The fractional digits of a / 10^scale as `str` prints them: without
      trailing zeros, "0" when there are none. */
  function FractionDigits(a: nat, scale: nat): (f: string)
    ensures |f| >= 1 && AllDigits(f)
  {
    var padded := PaddedDigits(a % Pow10(scale), scale);
    var frac := TrimZeros(padded);
    assert forall i :: 0 <= i < |frac| ==> frac[i] == padded[i];
    if frac == [] then "0" else frac
  }

  /** Python's `str(x)` for a float printed without exponent: the integer
      part, a dot, and the fractional digits without trailing zeros, at least
      one of them ("2.0", "2.5", "-0.25"). */
  function FloatText(d: Decimal): string
  {
    if d.mantissa < 0 then "-" + UnsignedText(-d.mantissa, d.scale) else UnsignedText(d.mantissa, d.scale)
  }

  /** The text of a / 10^scale for a >= 0. */
  function UnsignedText(a: nat, scale: nat): string
  {
    DivisionBounds(a, Pow10(scale));
    DigitText(a / Pow10(scale)) + "." + FractionDigits(a, scale)
  }

  predicate IsNumberRunChar(c: char)
  {
    IsAsciiDigit(c) || c == '.'
  }

  predicate AllNumberRunChars(t: string)
  {
    forall i :: 0 <= i < |t| ==> IsNumberRunChar(t[i])
  }

  /** `float(t)` for a text of ASCII digits and dots: it succeeds for digits
      with at most one dot and at least one digit ("12", "1.", ".5", "1.25")
      and fails for every other such text (".", "1.2.3"). */
  function ParseRun(t: string): (r: Option<Decimal>)
    requires AllNumberRunChars(t)
  {
    if '.' !in t then
      if t == [] then None else Some(Decimal(DigitsValue(t), 0))
    else
      var k := IndexOf(t, '.');
      var whole, frac := t[..k], t[k + 1..];
      if '.' in frac || |whole| + |frac| == 0 then None
      else
        assert forall i :: 0 <= i < |frac| ==> frac[i] == t[k + 1 + i];
        Some(Decimal(DigitsValue(whole + frac), |frac|))
  }

  lemma {:induction false} DigitsHaveNoDot(t: string)
    requires AllDigits(t)
    ensures '.' !in t
  {
    forall i | 0 <= i < |t| ensures t[i] != '.' {
      assert IsAsciiDigit(t[i]);
    }
  }

  /** A run made only of digits parses to that whole number. */
  lemma {:induction false} ParseDigits(t: string)
    requires t != [] && AllDigits(t)
    ensures ParseRun(t) == Some(Decimal(DigitsValue(t), 0))
  {
    DigitsHaveNoDot(t);
  }

  /** A run `whole.frac` parses to whole + frac / 10^|frac|. */
  lemma {:induction false} ParseWithDot(whole: string, frac: string)
    requires AllDigits(whole) && AllDigits(frac) && |whole| + |frac| > 0
    ensures AllNumberRunChars(whole + "." + frac)
    ensures ParseRun(whole + "." + frac) == Some(Decimal(DigitsValue(whole + frac), |frac|))
  {
    var t := whole + "." + frac;
    assert t[|whole|] == '.';
    DigitsHaveNoDot(whole);
    assert t[..|whole|] == whole;
    IndexOfAt(t, '.', |whole|);
    var k := IndexOf(t, '.');
    assert t[k + 1..] == frac;
    DigitsHaveNoDot(frac);
  }

  /** "." alone and any run with two dots are rejected, as `float` rejects them. */
  lemma {:induction false} ParseRejects(a: string, b: string, c: string)
    requires AllNumberRunChars(a) && AllNumberRunChars(b) && AllNumberRunChars(c)
    ensures ParseRun(".") == None
    ensures AllNumberRunChars(a + "." + b + "." + c)
    ensures ParseRun(a + "." + b + "." + c) == None
  {
    var t := a + "." + b + "." + c;
    assert t[|a|] == '.';
    assert forall i :: 0 <= i < |t| ==> IsNumberRunChar(t[i]) by {
      forall i | 0 <= i < |t| ensures IsNumberRunChar(t[i]) {
        if i < |a| { assert t[i] == a[i]; }
        else if i == |a| || i == |a| + 1 + |b| { }
        else if i < |a| + 1 + |b| { assert t[i] == b[i - |a| - 1]; }
        else { assert t[i] == c[i - |a| - |b| - 2]; }
      }
    }
    var k := IndexOf(t, '.');
    assert k <= |a|;
    assert t[|a| + 1 + |b|] == '.';
    assert t[k + 1..][|a| + |b| - k] == '.';
  }

  lemma {:induction false} DigitsValueConcat(x: string, y: string)
    requires AllDigits(x) && AllDigits(y)
    ensures AllDigits(x + y)
    ensures DigitsValue(x + y) == DigitsValue(x) * Pow10(|y|) + DigitsValue(y)
  {
    assert AllDigits(x + y) by {
      forall i | 0 <= i < |x + y| ensures IsAsciiDigit((x + y)[i]) {
        if i < |x| { assert (x + y)[i] == x[i]; } else { assert (x + y)[i] == y[i - |x|]; }
      }
    }
    if y == [] {
      assert x + y == x;
    } else {
      var y' := y[..|y| - 1];
      assert (x + y)[..|x + y| - 1] == x + y';
      DigitsValueConcat(x, y');
      var d := y[|y| - 1] as int - '0' as int;
      assert DigitsValue(x + y) == DigitsValue(x + y') * 10 + d;
      assert DigitsValue(y) == DigitsValue(y') * 10 + d;
      assert Pow10(|y|) == 10 * Pow10(|y'|);
      ShiftDigit(DigitsValue(x), Pow10(|y'|), DigitsValue(y'), d);
    }
  }

  lemma {:induction false} ShiftDigit(x: int, p: int, y: int, d: int)
    ensures (x * p + y) * 10 + d == x * (10 * p) + (y * 10 + d)
  {
  }

  lemma {:induction false} DigitsValueBound(t: string)
    requires AllDigits(t)
    ensures DigitsValue(t) < Pow10(|t|)
  {
    if t != [] {
      DigitsValueBound(t[..|t| - 1]);
    }
  }

  lemma {:induction false} PaddedDigitsValue(n: nat, w: nat)
    ensures DigitsValue(PaddedDigits(n, w)) == n % Pow10(w)
  {
    if w > 0 {
      var r := PaddedDigits(n, w);
      assert r[..|r| - 1] == PaddedDigits(n / 10, w - 1);
      PaddedDigitsValue(n / 10, w - 1);
      LowDigits(n, Pow10(w - 1));
    }
  }

  /** The remainder by 10 q is the remainder of n / 10 by q, shifted, plus
      the last digit. */
  lemma {:induction false} LowDigits(n: nat, q: nat)
    requires q >= 1
    ensures n % (10 * q) == (n / 10) % q * 10 + n % 10
  {
    assert n == (n / 10) * 10 + n % 10;
    assert n / 10 == (n / 10 / q) * q + (n / 10) % q;
    assert n == (n / 10 / q) * (10 * q) + ((n / 10) % q * 10 + n % 10);
    assert 0 <= (n / 10) % q * 10 + n % 10 < 10 * q;
    ModuloUnique(n, 10 * q, n / 10 / q, (n / 10) % q * 10 + n % 10);
  }

  lemma {:induction false} MulAtLeast(a: int, p: nat)
    requires a >= 1
    ensures a * p >= p
  {
  }

  /** The remainder of `n` by `p` is the unique `m` in [0, p) with n == q p + m. */
  lemma {:induction false} ModuloUnique(n: nat, p: nat, q: int, m: int)
    requires p > 0 && n == q * p + m && 0 <= m < p
    ensures n % p == m && n / p == q
  {
    var q', r := n / p, n % p;
    assert n == q' * p + r;
    assert (q - q') * p == r - m;
    if q > q' {
      MulAtLeast(q - q', p);
    } else if q < q' {
      MulAtLeast(q' - q, p);
    }
  }

  lemma {:induction false} ZerosValue(z: string)
    requires forall i :: 0 <= i < |z| ==> z[i] == '0'
    ensures AllDigits(z) && DigitsValue(z) == 0
  {
    if z != [] {
      ZerosValue(z[..|z| - 1]);
    }
  }

  /** Reading back the printed text of a non-negative float with `float`
      gives the same number: `float(str(x)) == x`. */
  lemma {:induction false} FloatTextRoundTrip(d: Decimal)
    requires d.mantissa >= 0
    ensures AllNumberRunChars(FloatText(d))
    ensures ParseRun(FloatText(d)).Some? && SameValue(ParseRun(FloatText(d)).value, d)
  {
    var a: nat := d.mantissa;
    var p := Pow10(d.scale);
    DivisionBounds(a, p);
    assert FloatText(d) == UnsignedText(a, d.scale);
    UnsignedTextParses(a, d.scale, a / p);
    var q := a / p;
    DivMod(a, p);
    var f := FractionDigits(a, d.scale);
    FractionDigitsValue(a, d.scale);
    var v := DigitsValue(f);
    var pf := Pow10(|f|);
    if a % p == 0 {
      MulCommute(q, pf, p);
    } else {
      var pz := Pow10(d.scale - |f|);
      Pow10Add(|f|, d.scale - |f|);
      RoundTripArithmetic(a, q, v, pf, pz, p);
    }
  }

  /** The printed text of a non-negative float is a run `whole.frac` that
      `float` reads as whole × 10^|frac| + frac over 10^|frac|. */
  lemma {:induction false} UnsignedTextParses(a: nat, scale: nat, q: nat)
    requires q == a / Pow10(scale)
    ensures AllNumberRunChars(UnsignedText(a, scale))
    ensures var f := FractionDigits(a, scale);
      ParseRun(UnsignedText(a, scale)) == Some(Decimal(q * Pow10(|f|) + DigitsValue(f), |f|))
  {
    var w := DigitText(q);
    var f := FractionDigits(a, scale);
    assert UnsignedText(a, scale) == w + "." + f;
    DigitsRoundTrip(q);
    ParseWithDotValue(w, f);
  }

  lemma {:induction false} ParseWithDotValue(w: string, f: string)
    requires AllDigits(w) && AllDigits(f) && |w| + |f| > 0
    ensures AllNumberRunChars(w + "." + f)
    ensures ParseRun(w + "." + f) == Some(Decimal(DigitsValue(w) * Pow10(|f|) + DigitsValue(f), |f|))
  {
    ParseWithDot(w, f);
    DigitsValueConcat(w, f);
  }

  lemma {:induction false} MulCommute(q: int, pf: int, p: int)
    ensures (q * pf + 0) * p == (q * p) * pf
  {
  }

  lemma {:induction false} DivMod(a: nat, p: nat)
    requires p >= 1
    ensures a == (a / p) * p + a % p
  {
  }

  /** The printed fraction carries the remainder a mod 10^scale: either the
      remainder is zero and the text is "0", or the text has at most `scale`
      digits and, followed by zeros up to `scale` digits, is the remainder. */
  lemma {:induction false} FractionDigitsValue(a: nat, scale: nat)
    ensures a % Pow10(scale) == 0 ==> DigitsValue(FractionDigits(a, scale)) == 0
    ensures a % Pow10(scale) != 0 ==>
      |FractionDigits(a, scale)| <= scale &&
      a % Pow10(scale) == DigitsValue(FractionDigits(a, scale)) * Pow10(scale - |FractionDigits(a, scale)|)
  {
    var bigP := Pow10(scale);
    var m := a % bigP;
    ModuloUnique(m, bigP, 0, m);
    TrimmedDigitsValue(m, scale);
  }

  /** Dropping the trailing zeros of the `scale`-digit text of m < 10^scale
      keeps m as value × 10^(number of zeros dropped). */
  lemma {:induction false} TrimmedDigitsValue(m: nat, scale: nat)
    requires m % Pow10(scale) == m
    ensures var frac := TrimZeros(PaddedDigits(m, scale));
      AllDigits(frac) && m == DigitsValue(frac) * Pow10(scale - |frac|) &&
      (frac == [] <==> m == 0)
  {
    PaddedDigitsValue(m, scale);
    TrimmedValue(PaddedDigits(m, scale));
  }

  /** Dropping the trailing zeros of a digit text divides its value by ten
      once per zero dropped, and leaves nothing only when the value is 0. */
  lemma {:induction false} TrimmedValue(t: string)
    requires AllDigits(t)
    ensures var frac := TrimZeros(t);
      AllDigits(frac) && DigitsValue(t) == DigitsValue(frac) * Pow10(|t| - |frac|) &&
      (frac == [] <==> DigitsValue(t) == 0)
  {
    var frac := TrimZeros(t);
    assert forall i :: 0 <= i < |frac| ==> frac[i] == t[i];
    var zeros := t[|frac|..];
    assert t == frac + zeros;
    ZerosValue(zeros);
    DigitsValueConcat(frac, zeros);
    if frac != [] {
      NonZeroLastDigit(frac);
      MulAtLeast(DigitsValue(frac), Pow10(|zeros|));
    }
  }

  lemma {:induction false} NonZeroLastDigit(t: string)
    requires t != [] && AllDigits(t) && t[|t| - 1] != '0'
    ensures DigitsValue(t) >= 1
  {
  }

  /** The arithmetic behind `FloatTextRoundTrip`, with the powers of ten as
      plain numbers: a = q p + v pz with p = pf pz means (q pf + v) / pf = a / p. */
  lemma {:induction false} RoundTripArithmetic(a: int, q: int, v: int, pf: int, pz: int, p: int)
    requires p == pf * pz && a == q * p + v * pz
    ensures (q * pf + v) * p == a * pf
  {
    calc {
      (q * pf + v) * p;
      (q * pf + v) * (pf * pz);
      (q * (pf * pz) + v * pz) * pf;
      a * pf;
    }
  }

  /** `int(float(whole.frac))` is the whole part: the fractional digits are dropped. */
  lemma {:induction false} TruncateWithDot(whole: string, frac: string)
    requires AllDigits(whole) && AllDigits(frac) && |whole| + |frac| > 0
    ensures AllNumberRunChars(whole + "." + frac)
    ensures ParseRun(whole + "." + frac).Some?
    ensures Truncate(ParseRun(whole + "." + frac).value) == DigitsValue(whole)
  {
    ParseWithDot(whole, frac);
    DigitsValueConcat(whole, frac);
    DigitsValueBound(frac);
    var d := ParseRun(whole + "." + frac).value;
    var p := Pow10(|frac|);
    assert d.mantissa == DigitsValue(whole) * p + DigitsValue(frac);
    ModuloUnique(d.mantissa, p, DigitsValue(whole), DigitsValue(frac));
    assert d.mantissa / p == DigitsValue(whole);
  }
}

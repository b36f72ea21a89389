/** Decimal numbers as the input layer reads and writes them: `float()` on a
    plain decimal literal, `%d` on a whole number, and the canonical decimal
    form that `%g` prints for the values the legacy naming codec handles. */
module Numbers {
  import opened Common

  predicate IsDigit(c: char) { '0' <= c <= '9' }

  predicate AllDigits(s: string) { forall i | 0 <= i < |s| :: IsDigit(s[i]) }

  function DigitChar(n: nat): (c: char)
    requires n < 10
    ensures IsDigit(c)
  {
    (48 + n) as char
  }

  function DigitValue(c: char): (n: nat)
    requires IsDigit(c)
    ensures n < 10 && DigitChar(n) == c
  {
    c as int - 48
  }

  /** The number a string of decimal digits denotes (leading zeros allowed). */
  function NatOf(s: string): nat
    requires AllDigits(s)
  {
    if s == [] then 0 else 10 * NatOf(s[..|s| - 1]) + DigitValue(s[|s| - 1])
  }

  /** `"%d" % n` for a natural number: its digits without leading zeros. */
  function NatStr(n: nat): (s: string)
    ensures |s| > 0 && AllDigits(s) && NatOf(s) == n
    ensures s[0] == '0' <==> n == 0
  {
    if n < 10 then
      assert [DigitChar(n)][..0] == [];
      [DigitChar(n)]
    else
      var t := NatStr(n / 10);
      assert (t + [DigitChar(n % 10)])[..|t|] == t;
      t + [DigitChar(n % 10)]
  }

  /** A leading zero does not change the number a digit string denotes. */
  lemma {:induction false} NatOfLeadingZero(s: string)
    requires AllDigits(s)
    ensures AllDigits("0" + s) && NatOf("0" + s) == NatOf(s)
  {
    if s != [] {
      var z := "0" + s;
      assert z[..|z| - 1] == "0" + s[..|s| - 1];
      NatOfLeadingZero(s[..|s| - 1]);
    } else {
      assert ("0" + s)[..0] == [];
    }
  }

  function Pow10(k: nat): (p: nat)
    ensures p > 0
  {
    if k == 0 then 1 else 10 * Pow10(k - 1)
  }

  /** A decimal number: sign, whole part and the digits after the point. */
  datatype Decimal = Decimal(neg: bool, whole: nat, frac: string)

  predicate IsZero(d: Decimal) { d.whole == 0 && d.frac == [] }

  /** The shortest form: no trailing zero after the point and no negative zero. */
  predicate Canonical(d: Decimal)
  {
    && AllDigits(d.frac)
    && (d.frac != [] ==> d.frac[|d.frac| - 1] != '0')
    && (d.neg ==> !IsZero(d))
  }

  function Magnitude(d: Decimal): real
    requires AllDigits(d.frac)
  {
    d.whole as real + (NatOf(d.frac) as real) / (Pow10(|d.frac|) as real)
  }

  /** The real number a decimal denotes. */
  function Value(d: Decimal): real
    requires AllDigits(d.frac)
  {
    if d.neg then -Magnitude(d) else Magnitude(d)
  }

  /** A canonical decimal is zero exactly when it is written as zero, and negative exactly when signed. */
  lemma CanonicalSign(d: Decimal)
    requires Canonical(d)
    ensures Value(d) == 0.0 <==> IsZero(d)
    ensures Value(d) < 0.0 <==> d.neg
  {
    FractionPart(d);
  }

  /** The digits after the point without their trailing zeros. */
  function TrimZeros(f: string): (r: string)
    requires AllDigits(f)
    ensures AllDigits(r) && |r| <= |f| && r == f[..|r|]
    ensures r != [] ==> r[|r| - 1] != '0'
    ensures forall i | |r| <= i < |f| :: f[i] == '0'
  {
    if f == [] || f[|f| - 1] != '0' then f else TrimZeros(f[..|f| - 1])
  }

  lemma ScaleQuotient(a: real, b: real)
    requires b > 0.0
    ensures (10.0 * a) / (10.0 * b) == a / b
  {
  }

  /** Trailing zeros after the point do not change the value. */
  lemma {:induction false} TrimZerosValue(f: string)
    requires AllDigits(f)
    ensures (NatOf(TrimZeros(f)) as real) / (Pow10(|TrimZeros(f)|) as real)
         == (NatOf(f) as real) / (Pow10(|f|) as real)
  {
    if f != [] && f[|f| - 1] == '0' {
      var g := f[..|f| - 1];
      assert TrimZeros(f) == TrimZeros(g);
      TrimZerosValue(g);
      assert NatOf(f) == 10 * NatOf(g);
      assert Pow10(|f|) == 10 * Pow10(|g|);
      ScaleQuotient(NatOf(g) as real, Pow10(|g|) as real);
    }
  }

  /** The first index of `c` in `s`, or `|s|` when there is none. */
  function FindChar(s: string, c: char): (i: nat)
    ensures i <= |s|
    ensures i < |s| ==> s[i] == c
    ensures forall j | 0 <= j < i :: s[j] != c
  {
    if s == [] then 0 else if s[0] == c then 0 else 1 + FindChar(s[1..], c)
  }

  lemma {:induction false} FindCharAfterDigits(w: string, t: string)
    requires AllDigits(w)
    ensures FindChar(w + t, '.') == |w| + FindChar(t, '.')
  {
    if w != [] {
      assert (w + t)[1..] == w[1..] + t;
      FindCharAfterDigits(w[1..], t);
    } else {
      assert w + t == t;
    }
  }

  /** The decimal with the given parts; zero is never negative. */
  function Signed(neg: bool, whole: nat, frac: string): Decimal
  {
    if whole == 0 && frac == [] then Decimal(false, 0, []) else Decimal(neg, whole, frac)
  }

  function SignText(neg: bool): string { if neg then "-" else "" }

  /** The unsigned part of a literal: digits, an optional point and more digits,
      with at least one digit in all; gives the whole part and the trimmed fraction. */
  function ParseUnsigned(body: string): (r: Option<(nat, string)>)
    ensures r.Some? ==> AllDigits(r.value.1) && (r.value.1 != [] ==> r.value.1[|r.value.1| - 1] != '0')
  {
    var dot := FindChar(body, '.');
    var w := body[..dot];
    var f := if dot < |body| then body[dot + 1..] else [];
    if AllDigits(w) && AllDigits(f) && |w| + |f| > 0 then Some((NatOf(w), TrimZeros(f)))
    else None
  }

  /** `float(s)` restricted to plain decimal literals: an optional sign followed
      by an unsigned literal. */
  function ParseDecimal(s: string): (r: Option<Decimal>)
    ensures r.Some? ==> Canonical(r.value)
  {
    var signed := |s| > 0 && (s[0] == '-' || s[0] == '+');
    match ParseUnsigned(if signed then s[1..] else s)
    case None => None
    case Some((whole, frac)) => Some(Signed(signed && s[0] == '-', whole, frac))
  }

  lemma ParseUnsignedParts(w: string, dot: bool, f: string)
    requires AllDigits(w) && AllDigits(f) && |w| + |f| > 0
    requires !dot ==> f == []
    ensures ParseUnsigned(w + (if dot then "." + f else [])) == Some((NatOf(w), TrimZeros(f)))
  {
    if dot {
      assert ParseUnsigned(w + ("." + f)) == Some((NatOf(w), TrimZeros(f))) by { ParseWithPoint(w, f); }
    } else {
      assert w + [] == w;
      assert ParseUnsigned(w) == Some((NatOf(w), TrimZeros([]))) by { ParseWithoutPoint(w); }
    }
  }

  lemma ParseWithPoint(w: string, f: string)
    requires AllDigits(w) && AllDigits(f) && |w| + |f| > 0
    ensures ParseUnsigned(w + ("." + f)) == Some((NatOf(w), TrimZeros(f)))
  {
    var body := w + ("." + f);
    assert FindChar(body, '.') == |w| by {
      FindCharAfterDigits(w, "." + f);
    }
    assert body[..|w|] == w;
    assert body[|w| + 1..] == f;
  }

  lemma ParseWithoutPoint(w: string)
    requires AllDigits(w) && |w| > 0
    ensures ParseUnsigned(w) == Some((NatOf(w), TrimZeros([])))
  {
    assert FindChar(w, '.') == |w| by {
      FindCharAfterDigits(w, []);
      assert w + [] == w;
    }
    assert w[..|w|] == w;
  }

  /** A sign in front of an unsigned literal only decides the sign of the result. */
  lemma ParseSigned(neg: bool, body: string)
    requires body != [] && body[0] != '-' && body[0] != '+'
    requires ParseUnsigned(body).Some?
    ensures ParseDecimal(SignText(neg) + body)
         == Some(Signed(neg, ParseUnsigned(body).value.0, ParseUnsigned(body).value.1))
  {
    var s := SignText(neg) + body;
    if neg {
      assert s[0] == '-' && s[1..] == body;
    } else {
      assert s == body;
    }
  }

  /** `float()` of a literal built from a sign, whole digits and, optionally, a point and digits. */
  lemma ParseParts(neg: bool, w: string, dot: bool, f: string)
    requires AllDigits(w) && AllDigits(f) && |w| + |f| > 0
    requires !dot ==> f == []
    ensures ParseDecimal(SignText(neg) + (w + (if dot then "." + f else [])))
         == Some(Signed(neg, NatOf(w), TrimZeros(f)))
  {
    var body := w + (if dot then "." + f else []);
    ParseUnsignedParts(w, dot, f);
    assert body[0] != '-' && body[0] != '+' by {
      if w == [] { assert body[0] == '.'; } else { assert IsDigit(w[0]) && body[0] == w[0]; }
    }
    ParseSigned(neg, body);
  }

  /** The text `%g` prints for a canonical decimal in the ranges the codec uses. */
  function Render(d: Decimal): string
  {
    SignText(d.neg) + NatStr(d.whole) + (if d.frac == [] then [] else "." + d.frac)
  }

  /** Reading back a rendered canonical decimal gives the same decimal. */
  lemma ParseRender(d: Decimal)
    requires Canonical(d)
    ensures ParseDecimal(Render(d)) == Some(d)
  {
    var tail := if d.frac == [] then [] else "." + d.frac;
    assert Render(d) == SignText(d.neg) + (NatStr(d.whole) + tail);
    ParseParts(d.neg, NatStr(d.whole), d.frac != [], d.frac);
    assert TrimZeros(d.frac) == d.frac;
  }

  /** `float("0." + f)`: the fraction with the digits of f. */
  lemma ParseFraction(f: string)
    requires AllDigits(f)
    ensures ParseDecimal("0." + f) == Some(Signed(false, 0, TrimZeros(f)))
  {
    assert "0." + f == SignText(false) + ("0" + ("." + f));
    assert ParseDecimal(SignText(false) + ("0" + ("." + f))) == Some(Signed(false, NatOf("0"), TrimZeros(f))) by {
      ParseParts(false, "0", true, f);
    }
    assert NatOf("0") == 0;
  }

  /** `float(d)` and `float("-" + d)` for a non-empty string of digits. */
  lemma ParseWhole(neg: bool, d: string)
    requires AllDigits(d) && d != []
    ensures ParseDecimal(SignText(neg) + d) == Some(Signed(neg, NatOf(d), []))
  {
    assert d + [] == d;
    assert ParseDecimal(SignText(neg) + (d + [])) == Some(Signed(neg, NatOf(d), TrimZeros([]))) by {
      ParseParts(neg, d, false, []);
    }
  }

  /** A quotient of reals with 0 <= a < b lies in [0, 1), and is positive when a is. */
  lemma QuotientBelowOne(a: real, b: real)
    requires 0.0 <= a < b
    ensures 0.0 <= a / b < 1.0
    ensures a > 0.0 ==> a / b > 0.0
  {
    var q := a / b;
    assert q * b == a;
  }

  /** A string of k digits denotes less than 10^k. */
  lemma {:induction false} DigitsBelowPower(f: string)
    requires AllDigits(f)
    ensures NatOf(f) < Pow10(|f|)
  {
    if f != [] {
      DigitsBelowPower(f[..|f| - 1]);
    }
  }

  /** Digits that do not end in 0 denote a positive number. */
  lemma PositiveDigits(f: string)
    requires AllDigits(f) && f != [] && f[|f| - 1] != '0'
    ensures NatOf(f) > 0
  {
    assert NatOf(f) == 10 * NatOf(f[..|f| - 1]) + DigitValue(f[|f| - 1]);
  }

  /** The digits after the point add less than one, and something when there are any. */
  lemma FractionPart(d: Decimal)
    requires Canonical(d)
    ensures 0.0 <= Magnitude(d) - d.whole as real < 1.0
    ensures d.frac != [] <==> Magnitude(d) > d.whole as real
  {
    var f := d.frac;
    assert NatOf(f) < Pow10(|f|) by { DigitsBelowPower(f); }
    if f != [] {
      assert NatOf(f) > 0 by { PositiveDigits(f); }
    }
    QuotientBelowOne(NatOf(f) as real, Pow10(|f|) as real);
  }

  /** The value of a decimal with no digits after the point. */
  lemma WholeValue(neg: bool, n: nat)
    ensures Value(Decimal(neg, n, [])) == if neg then -(n as real) else n as real
  {
    assert NatOf([]) == 0 && Pow10(0) == 1;
  }
}

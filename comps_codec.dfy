/** The legacy COMPS naming codec: a threshold t is stored in a variable named
    `p` followed by t's digits (0.3 as `p03`, -2 as `pm2`), and a quantile q in
    a variable named `q` followed by the digits of q*100 (0.3 as `q30`).

    Numbers are canonical decimals. Python's `"%g"` and `"%d"` are modelled on
    the values they print in plain decimal form: `%d` truncates toward zero, and
    `%g` prints a fraction as `0.` and its digits when it has at most six
    significant digits and is at least 1e-4. Quantiles are carried as their
    value times 100 (their "percent"), which is the number the codec prints. */
module CompsCodec {
  import opened Common
  import opened Strings
  import opened Numbers

  /** Number of zeros in front of the first non-zero digit. */
  function LeadingZeros(f: string): (n: nat)
    ensures n <= |f|
  {
    if f == [] || f[0] != '0' then 0 else 1 + LeadingZeros(f[1..])
  }

  /** A fraction `%g` prints as `0.` and its digits, without an exponent or rounding. */
  predicate ShortFraction(f: string)
  {
    LeadingZeros(f) <= 3 && |f| - LeadingZeros(f) <= 6
  }

  /** The thresholds whose encoding is modelled: zero, every value with |t| >= 1
      (printed by `%d`) and the short fractions (printed by `%g`). */
  predicate ThresholdEncodable(t: Decimal)
  {
    Canonical(t) && (t.whole == 0 && t.frac != [] ==> ShortFraction(t.frac))
  }

  /** `"0"`, `"%g" % t` without its point, or `"%d" % t`, as the encoder chooses. */
  function ThresholdText(t: Decimal): string
    requires ThresholdEncodable(t)
  {
    if IsZero(t) then "0"
    else if t.whole == 0 then Replace(Render(t), ".", "")
    else Render(Decimal(t.neg, t.whole, []))
  }

  /** The digits the encoder writes after the sign. */
  function ThresholdDigits(t: Decimal): string
  {
    if t.whole == 0 then "0" + t.frac else NatStr(t.whole)
  }

  function MinusLetter(neg: bool): string { if neg then "m" else "" }

  lemma ThresholdTextForm(t: Decimal)
    requires ThresholdEncodable(t)
    ensures AllDigits(ThresholdDigits(t))
    ensures ThresholdText(t) == SignText(t.neg) + ThresholdDigits(t)
  {
    if IsZero(t) {
      assert ThresholdDigits(t) == "0";
    } else if t.whole == 0 {
      assert ThresholdText(t) == SignText(t.neg) + ("0" + t.frac) by { FractionText(t); }
    } else {
      assert Render(Decimal(t.neg, t.whole, [])) == SignText(t.neg) + NatStr(t.whole) + [];
    }
  }

  lemma FractionText(t: Decimal)
    requires ThresholdEncodable(t) && t.whole == 0 && t.frac != []
    ensures ThresholdText(t) == SignText(t.neg) + ("0" + t.frac)
  {
    var head := SignText(t.neg) + "0";
    assert Render(t) == head + "." + t.frac by { assert NatStr(0) == "0"; }
    assert Replace(head + "." + t.frac, ".", "") == head + "" + t.frac by {
      ReplaceOnce(head, t.frac, ".", "");
    }
    assert head + "" + t.frac == SignText(t.neg) + ("0" + t.frac);
  }

  lemma MinusToLetter(neg: bool, d: string)
    requires AllDigits(d)
    ensures Replace(SignText(neg) + d, "-", "m") == MinusLetter(neg) + d
  {
    if neg {
      assert Replace("" + "-" + d, "-", "m") == "" + "m" + d by { ReplaceOnce("", d, "-", "m"); }
      assert SignText(neg) + d == "" + "-" + d;
      assert MinusLetter(neg) + d == "" + "m" + d;
    } else {
      assert Replace(d, "-", "m") == d by { ReplaceAbsent(d, "-", "m"); }
      assert SignText(neg) + d == d;
    }
  }

  /** `Comps._verif_to_comps_threshold`: the stored name of threshold `t`, which is `p`,
      then `m` for a minus sign, then its digits. */
  function ThresholdName(t: Decimal): (name: string)
    requires ThresholdEncodable(t)
    ensures name == "p" + MinusLetter(t.neg) + ThresholdDigits(t)
  {
    ThresholdTextForm(t);
    MinusToLetter(t.neg, ThresholdDigits(t));
    "p" + Replace(ThresholdText(t), "-", "m")
  }

  /** The encoder always writes `p` followed by letters and digits with no `-` and no `.`. */
  lemma ThresholdNameShape(t: Decimal)
    requires ThresholdEncodable(t)
    ensures |ThresholdName(t)| >= 2 && ThresholdName(t)[0] == 'p'
    ensures forall i | 0 <= i < |ThresholdName(t)| :: ThresholdName(t)[i] != '-' && ThresholdName(t)[i] != '.'
  {
    ThresholdTextForm(t);
    ThresholdTextForm(t);
    var name := ThresholdName(t);
    var m, d := MinusLetter(t.neg), ThresholdDigits(t);
    forall i | 0 <= i < |name| ensures name[i] != '-' && name[i] != '.' {
      if i > |m| { assert name[i] == d[i - 1 - |m|]; }
    }
  }

  /** `Comps._comps_to_verif_threshold`: the threshold a stored variable name encodes,
      if any. The guard reads `or`, so every name of two or more characters is tried. */
  function ThresholdOfName(name: string): (t: Option<Decimal>)
    requires |name| > 0
    ensures t.Some? ==> Canonical(t.value)
    ensures |name| < 2 && name[0] != 'p' ==> t.None?
  {
    if |name| >= 2 || name[0] == 'p' then
      ParseDecimal(Replace(Replace(Replace(name, "m", "-"), "p0", "0."), "p", ""))
    else
      None
  }

  /** Decoding the encoding of t: the truncated value for |t| >= 1, t itself for zero
      and positive fractions, and minus the fraction's digits read as a whole number
      for negative fractions (-0.5 is stored as `pm05` and read back as -5). */
  lemma ThresholdDecodeEncode(t: Decimal)
    requires ThresholdEncodable(t)
    ensures ThresholdOfName(ThresholdName(t)) == Some(
      if t.whole == 0 && t.neg then Decimal(true, NatOf(t.frac), [])
      else if t.whole == 0 then t
      else Decimal(t.neg, t.whole, []))
  {
    if t.neg {
      DecodeEncodeNegative(t);
    } else {
      DecodeEncodePositive(t);
    }
  }

  lemma DecodeEncodeNegative(t: Decimal)
    requires ThresholdEncodable(t) && t.neg
    ensures ThresholdOfName(ThresholdName(t)) ==
      Some(Decimal(true, if t.whole == 0 then NatOf(t.frac) else t.whole, []))
  {
    var d := ThresholdDigits(t);
    assert AllDigits(d) && ThresholdName(t) == "p" + "m" + d by { ThresholdTextForm(t); }
    assert ThresholdOfName("p" + "m" + d) == Some(Signed(true, NatOf(d), [])) by { DecodeNegative(d); }
    if t.whole == 0 {
      assert NatOf(d) == NatOf(t.frac) by { NatOfLeadingZero(t.frac); }
      assert NatOf(t.frac) > 0 by { PositiveDigits(t.frac); }
    }
  }

  lemma DecodeEncodePositive(t: Decimal)
    requires ThresholdEncodable(t) && !t.neg
    ensures ThresholdOfName(ThresholdName(t)) ==
      Some(if t.whole == 0 then t else Decimal(false, t.whole, []))
  {
    if t.whole == 0 {
      DecodeEncodeFraction(t);
    } else {
      DecodeEncodeWhole(t);
    }
  }

  lemma DecodeEncodeFraction(t: Decimal)
    requires ThresholdEncodable(t) && !t.neg && t.whole == 0
    ensures ThresholdOfName(ThresholdName(t)) == Some(t)
  {
    assert ThresholdName(t) == "p" + "" + ("0" + t.frac) by { ThresholdTextForm(t); }
    assert "p" + "" + ("0" + t.frac) == "p0" + t.frac;
    assert ThresholdOfName("p0" + t.frac) == Some(Signed(false, 0, TrimZeros(t.frac))) by {
      DecodeFraction(t.frac);
    }
    assert TrimZeros(t.frac) == t.frac;
  }

  lemma DecodeEncodeWhole(t: Decimal)
    requires ThresholdEncodable(t) && !t.neg && t.whole > 0
    ensures ThresholdOfName(ThresholdName(t)) == Some(Decimal(false, t.whole, []))
  {
    var d := NatStr(t.whole);
    assert ThresholdName(t) == "p" + d by { WholeName(t); }
    assert AllDigits(d) && d != [] && d[0] != '0' && NatOf(d) == t.whole;
    assert ThresholdOfName("p" + d) == Some(Signed(false, NatOf(d), [])) by { DecodeWhole(d); }
  }

  lemma WholeName(t: Decimal)
    requires ThresholdEncodable(t) && !t.neg && t.whole > 0
    ensures ThresholdName(t) == "p" + NatStr(t.whole)
  {
    ThresholdTextForm(t);
    var d := NatStr(t.whole);
    assert MinusLetter(t.neg) == "" && ThresholdDigits(t) == d;
    assert "p" + "" + d == "p" + d;
  }

  /** `pm` and digits decodes to the digits, negated, as a whole number. */
  lemma DecodeNegative(d: string)
    requires AllDigits(d) && d != []
    ensures ThresholdOfName("p" + "m" + d) == Some(Signed(true, NatOf(d), []))
  {
    var s1 := "p" + "-" + d;
    assert Replace("p" + "m" + d, "m", "-") == s1 by { ReplaceOnce("p", d, "m", "-"); }
    assert Replace(s1, "p0", "0.") == s1 by {
      assert s1[..2] == "p-";
      assert s1[1..] == "-" + d;
      ReplaceAbsent("-" + d, "p0", "0.");
    }
    assert Replace(s1, "p", "") == "-" + d by {
      ReplaceOnce("", "-" + d, "p", "");
      assert s1 == "" + "p" + ("-" + d);
    }
    assert ParseDecimal(SignText(true) + d) == Some(Signed(true, NatOf(d), [])) by { ParseWhole(true, d); }
    assert SignText(true) + d == "-" + d;
  }

  /** `p0` and fraction digits decodes to that positive fraction. */
  lemma DecodeFraction(f: string)
    requires AllDigits(f)
    ensures ThresholdOfName("p0" + f) == Some(Signed(false, 0, TrimZeros(f)))
  {
    assert Replace("p0" + f, "m", "-") == "p0" + f by { ReplaceAbsent("p0" + f, "m", "-"); }
    assert Replace("p0" + f, "p0", "0.") == "0." + f by {
      ReplaceAtFront(f, "p0", "0.");
      ReplaceAbsent(f, "p0", "0.");
    }
    assert Replace("0." + f, "p", "") == "0." + f by { ReplaceAbsent("0." + f, "p", ""); }
    assert ParseDecimal("0." + f) == Some(Signed(false, 0, TrimZeros(f))) by { ParseFraction(f); }
  }

  /** `p` and digits that do not start with 0 decodes to that positive whole number. */
  lemma DecodeWhole(d: string)
    requires AllDigits(d) && d != [] && d[0] != '0'
    ensures ThresholdOfName("p" + d) == Some(Signed(false, NatOf(d), []))
  {
    var s := "p" + d;
    assert Replace(s, "m", "-") == s by { ReplaceAbsent(s, "m", "-"); }
    assert Replace(s, "p0", "0.") == s by {
      assert s[..2] != "p0" by { assert s[1] == d[0]; }
      assert s[1..] == d;
      ReplaceAbsent(d, "p0", "0.");
    }
    assert Replace(s, "p", "") == d by {
      ReplaceAtFront(d, "p", "");
      ReplaceAbsent(d, "p", "");
    }
    assert ParseDecimal(SignText(false) + d) == Some(Signed(false, NatOf(d), [])) by { ParseWhole(false, d); }
    assert SignText(false) + d == d;
  }

  /** Integers, zero and positive fractions survive the round trip exactly. */
  lemma ThresholdRoundTrip(t: Decimal)
    requires ThresholdEncodable(t)
    requires t.frac == [] || (t.whole == 0 && !t.neg)
    ensures ThresholdOfName(ThresholdName(t)) == Some(t)
  {
    ThresholdDecodeEncode(t);
  }

  /** The names the codec is documented with: 0.3 is `p03` and -2 is `pm2`. */
  lemma ThresholdNameExamples()
    ensures ThresholdName(Decimal(false, 0, "3")) == "p03"
    ensures ThresholdName(Decimal(true, 2, [])) == "pm2"
  {
    ThresholdTextForm(Decimal(false, 0, "3"));
    ThresholdTextForm(Decimal(true, 2, []));
  }

  /** A negative fraction never survives: its digits come back as a whole number
      (-0.5 is stored as `pm05` and read back as -5). */
  lemma NegativeFractionLost(t: Decimal)
    requires ThresholdEncodable(t) && t.neg && t.whole == 0
    ensures ThresholdOfName(ThresholdName(t)).Some?
    ensures Value(ThresholdOfName(ThresholdName(t)).value) <= -1.0
  {
    assert t.frac != [];
    assert NatOf(t.frac) > 0 by { PositiveDigits(t.frac); }
    assert ThresholdOfName(ThresholdName(t)) == Some(Decimal(true, NatOf(t.frac), [])) by {
      DecodeEncodeNegative(t);
    }
    WholeValue(true, NatOf(t.frac));
  }

  /** The percents whose `%g` form is modelled: a short fraction below 1, or at most
      six significant digits from 1 up. */
  predicate PercentPrintable(p: Decimal)
  {
    if p.whole == 0 then p.frac != [] ==> ShortFraction(p.frac)
    else |NatStr(p.whole)| + |p.frac| <= 6
  }

  /** What the encoder needs: a canonical percent, printable when it is in range. */
  predicate QuantileEncodable(p: Decimal)
  {
    Canonical(p) && (0.0 <= Value(p) <= 100.0 ==> PercentPrintable(p))
  }

  /** `Comps._verif_to_comps_quantile` for the quantile `Value(p) / 100`: `None` outside
      [0, 1], else `q` and the digits of `"%g" % (quantile * 100)` without the point. */
  function QuantileName(p: Decimal): (name: Option<string>)
    requires QuantileEncodable(p)
    ensures name.None? <==> Value(p) < 0.0 || Value(p) > 100.0
  {
    if Value(p) / 100.0 < 0.0 || Value(p) / 100.0 > 1.0 then None
    else if IsZero(p) then Some("q0")
    else Some("q" + Replace(Render(p), ".", ""))
  }

  /** The digits the quantile encoder writes after `q`. */
  function PercentDigits(p: Decimal): string
  {
    NatStr(p.whole) + p.frac
  }

  /** A canonical percent lies in [0, 100] exactly when it is not negative and its
      whole part is below 100, or it is 100 itself. */
  lemma PercentRange(p: Decimal)
    requires Canonical(p)
    ensures 0.0 <= Value(p) <= 100.0 <==> !p.neg && (p.whole < 100 || (p.whole == 100 && p.frac == []))
  {
    FractionPart(p);
    CanonicalSign(p);
  }

  lemma QuantileNameForm(p: Decimal)
    requires QuantileEncodable(p) && 0.0 <= Value(p) <= 100.0
    ensures AllDigits(PercentDigits(p))
    ensures QuantileName(p) == Some("q" + PercentDigits(p))
  {
    assert 0.0 <= Value(p) / 100.0 <= 1.0;
    if IsZero(p) {
      assert PercentDigits(p) == "0" by { assert NatStr(0) == "0"; }
      assert "q" + "0" == "q0";
    } else {
      assert !p.neg by { CanonicalSign(p); }
      assert AllDigits(PercentDigits(p)) && Replace(Render(p), ".", "") == PercentDigits(p) by {
        PercentText(p);
      }
    }
  }

  /** Dropping the point from a non-negative percent leaves its digits. */
  lemma PercentText(p: Decimal)
    requires Canonical(p) && !p.neg
    ensures AllDigits(PercentDigits(p))
    ensures Replace(Render(p), ".", "") == PercentDigits(p)
  {
    var w := NatStr(p.whole);
    if p.frac == [] {
      assert Render(p) == w && PercentDigits(p) == w;
      assert Replace(w, ".", "") == w by { ReplaceAbsent(w, ".", ""); }
    } else {
      assert Render(p) == w + "." + p.frac;
      assert Replace(w + "." + p.frac, ".", "") == w + "" + p.frac by {
        ReplaceOnce(w, p.frac, ".", "");
      }
      assert w + "" + p.frac == PercentDigits(p);
    }
  }

  /** `Comps._comps_to_verif_quantile`: the percent a stored variable name encodes, if
      any; the quantile it stands for must lie in [0, 1]. The guard reads `or`. */
  function QuantileOfName(name: string): (p: Option<Decimal>)
    requires |name| > 0
    ensures p.Some? ==> Canonical(p.value) && 0.0 <= Value(p.value) <= 100.0
    ensures |name| < 2 && name[0] != 'q' ==> p.None?
  {
    if |name| >= 2 || name[0] == 'q' then
      match ParseDecimal(Replace(Replace(name, "q0", "0."), "q", ""))
      case Some(p) => if 0.0 <= Value(p) / 100.0 <= 1.0 then Some(p) else None
      case None => None
    else
      None
  }

  /** Decoding an encoded quantile gives back its percent when that percent is whole
      or below 1; otherwise the digits are read as one whole number (0.015 is stored as
      `q15` and read back as 0.15, while 0.125 is stored as `q125` and rejected). */
  lemma QuantileDecodeEncode(p: Decimal)
    requires QuantileEncodable(p) && 0.0 <= Value(p) <= 100.0
    ensures QuantileName(p).Some?
    ensures QuantileOfName(QuantileName(p).value) ==
      if p.whole == 0 || p.frac == [] then Some(p)
      else if NatOf(PercentDigits(p)) <= 100 then Some(Decimal(false, NatOf(PercentDigits(p)), []))
      else None
  {
    assert AllDigits(PercentDigits(p)) && QuantileName(p) == Some("q" + PercentDigits(p)) by {
      QuantileNameForm(p);
    }
    assert !p.neg by { CanonicalSign(p); }
    if p.whole == 0 {
      DecodeEncodePercentFraction(p);
    } else {
      DecodeEncodePercentWhole(p);
      if p.frac == [] {
        assert p.whole <= 100 by { PercentRange(p); }
      }
    }
  }

  lemma DecodeEncodePercentFraction(p: Decimal)
    requires Canonical(p) && !p.neg && p.whole == 0
    ensures QuantileOfName("q" + PercentDigits(p)) == Some(p)
  {
    assert PercentDigits(p) == "0" + p.frac by { assert NatStr(0) == "0"; }
    assert "q" + ("0" + p.frac) == "q0" + p.frac;
    assert QuantileOfName("q0" + p.frac) == Some(Signed(false, 0, TrimZeros(p.frac))) by {
      DecodePercentFraction(p.frac);
    }
    assert TrimZeros(p.frac) == p.frac;
  }

  lemma DecodeEncodePercentWhole(p: Decimal)
    requires Canonical(p) && !p.neg && p.whole > 0
    ensures AllDigits(PercentDigits(p))
    ensures QuantileOfName("q" + PercentDigits(p)) ==
      if NatOf(PercentDigits(p)) <= 100 then Some(Decimal(false, NatOf(PercentDigits(p)), [])) else None
    ensures p.frac == [] ==> NatOf(PercentDigits(p)) == p.whole
  {
    var d := PercentDigits(p);
    assert d[0] != '0' by { assert d[0] == NatStr(p.whole)[0]; }
    assert QuantileOfName("q" + d) ==
      (if NatOf(d) <= 100 then Some(Decimal(false, NatOf(d), [])) else None) by {
      DecodePercentWhole(d);
    }
    if p.frac == [] {
      assert d == NatStr(p.whole);
    }
  }

  /** `q0` and fraction digits decodes to that percent below 1. */
  lemma DecodePercentFraction(f: string)
    requires AllDigits(f)
    ensures QuantileOfName("q0" + f) == Some(Signed(false, 0, TrimZeros(f)))
  {
    assert Replace("q0" + f, "q0", "0.") == "0." + f by {
      ReplaceAtFront(f, "q0", "0.");
      ReplaceAbsent(f, "q0", "0.");
    }
    assert Replace("0." + f, "q", "") == "0." + f by { ReplaceAbsent("0." + f, "q", ""); }
    assert ParseDecimal("0." + f) == Some(Signed(false, 0, TrimZeros(f))) by { ParseFraction(f); }
    assert 0.0 <= Value(Signed(false, 0, TrimZeros(f))) < 1.0 by {
      FractionPart(Signed(false, 0, TrimZeros(f)));
    }
  }

  /** A name without a leading `q0` loses its `q` and is read as a plain number. */
  lemma DropPercentPrefix(d: string)
    requires AllDigits(d) && d != [] && d[0] != '0'
    ensures Replace(Replace("q" + d, "q0", "0."), "q", "") == d
  {
    var s := "q" + d;
    assert Replace(s, "q0", "0.") == s by {
      assert s[..2] != "q0" by { assert s[1] == d[0]; }
      assert s[1..] == d;
      ReplaceAbsent(d, "q0", "0.");
    }
    assert Replace(s, "q", "") == d by {
      ReplaceAtFront(d, "q", "");
      ReplaceAbsent(d, "q", "");
    }
  }

  /** `q` and digits that do not start with 0 decodes to that whole percent, if at most 100. */
  lemma DecodePercentWhole(d: string)
    requires AllDigits(d) && d != [] && d[0] != '0'
    ensures QuantileOfName("q" + d) ==
      (if NatOf(d) <= 100 then Some(Decimal(false, NatOf(d), [])) else None)
  {
    assert Replace(Replace("q" + d, "q0", "0."), "q", "") == d by { DropPercentPrefix(d); }
    assert ParseDecimal(SignText(false) + d) == Some(Signed(false, NatOf(d), [])) by { ParseWhole(false, d); }
    assert SignText(false) + d == d;
    assert NatOf(d) > 0 by { LeadingDigitPositive(d); }
    assert Value(Decimal(false, NatOf(d), [])) == NatOf(d) as real by { WholeValue(false, NatOf(d)); }
  }

  /** Digits with a non-zero first digit denote a positive number. */
  lemma {:induction false} LeadingDigitPositive(d: string)
    requires AllDigits(d) && d != [] && d[0] != '0'
    ensures NatOf(d) > 0
  {
    if |d| > 1 {
      var e := d[..|d| - 1];
      assert e[0] == d[0];
      LeadingDigitPositive(e);
    }
  }

  /** Quantiles whose percent is whole or below 1 survive the round trip exactly. */
  lemma QuantileRoundTrip(p: Decimal)
    requires QuantileEncodable(p) && 0.0 <= Value(p) <= 100.0
    requires p.whole == 0 || p.frac == []
    ensures QuantileName(p).Some? && QuantileOfName(QuantileName(p).value) == Some(p)
  {
    QuantileDecodeEncode(p);
  }

  /** 0 is `q0` and 0.3 is `q30`, which reads back as 0.3. */
  lemma QuantileExamples()
    ensures QuantileName(Decimal(false, 0, [])) == Some("q0")
    ensures QuantileName(Decimal(false, 30, [])) == Some("q30")
    ensures QuantileOfName("q30") == Some(Decimal(false, 30, []))
  {
    var thirty := Decimal(false, 30, []);
    assert Value(thirty) == 30.0 by { WholeValue(false, 30); }
    assert NatStr(30) == "30" by { assert NatStr(3) == "3"; }
    assert QuantileName(thirty) == Some("q" + PercentDigits(thirty)) by { QuantileNameForm(thirty); }
    assert "q" + PercentDigits(thirty) == "q30";
    assert QuantileOfName("q30") == Some(thirty) by { QuantileRoundTrip(thirty); }
    assert Value(Decimal(false, 0, [])) == 0.0 by { WholeValue(false, 0); }
  }

  /** A percent above 100 (a quantile above 1) has no name. */
  lemma QuantileOutOfRange()
    ensures QuantileName(Decimal(false, 150, [])) == None
    ensures QuantileName(Decimal(true, 0, "5")) == None
  {
    WholeValue(false, 150);
    CanonicalSign(Decimal(true, 0, "5"));
  }

  /** With `or` in the guard, a name of two or more digits and no prefix at all is
      still read as a threshold (`10` as 10). */
  lemma UnprefixedThreshold(d: string)
    requires AllDigits(d) && |d| >= 2 && d[0] != '0'
    ensures ThresholdOfName(d) == Some(Decimal(false, NatOf(d), []))
  {
    assert Replace(d, "m", "-") == d by { ReplaceAbsent(d, "m", "-"); }
    assert Replace(d, "p0", "0.") == d by { ReplaceAbsent(d, "p0", "0."); }
    assert Replace(d, "p", "") == d by { ReplaceAbsent(d, "p", ""); }
    assert ParseDecimal(d) == Some(Signed(false, NatOf(d), [])) by {
      ParseWhole(false, d);
      assert SignText(false) + d == d;
    }
    assert NatOf(d) > 0 by { LeadingDigitPositive(d); }
  }

  /** Likewise such a name is read as a quantile (`10` as 0.1) when its number is at most 100. */
  lemma UnprefixedQuantile(d: string)
    requires AllDigits(d) && |d| >= 2 && d[0] != '0'
    ensures QuantileOfName(d) == if NatOf(d) <= 100 then Some(Decimal(false, NatOf(d), [])) else None
  {
    assert Replace(d, "q0", "0.") == d by { ReplaceAbsent(d, "q0", "0."); }
    assert Replace(d, "q", "") == d by { ReplaceAbsent(d, "q", ""); }
    assert ParseDecimal(d) == Some(Signed(false, NatOf(d), [])) by {
      ParseWhole(false, d);
      assert SignText(false) + d == d;
    }
    assert NatOf(d) > 0 by { LeadingDigitPositive(d); }
    assert Value(Decimal(false, NatOf(d), [])) == NatOf(d) as real by { WholeValue(false, NatOf(d)); }
  }
}

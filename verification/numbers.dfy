/**
 * Decimal text and numbers: the parse that `pd.to_numeric(..., errors='coerce')`
 * applies to a text cell, and the decimal rendering of a natural number used in
 * generated column names such as `Feature_12`.
 */
module Numbers {
  import opened Wrappers

  predicate IsDigit(c: char) { '0' <= c <= '9' }

  predicate AllDigits(s: string) { forall i :: 0 <= i < |s| ==> IsDigit(s[i]) }

  function DigitValue(c: char): (d: nat)
    requires IsDigit(c)
    ensures d < 10
  {
    (c as int - '0' as int) as nat
  }

  function DigitChar(d: nat): (c: char)
    requires d < 10
    ensures IsDigit(c) && DigitValue(c) == d
  {
    ('0' as int + d) as char
  }

  /** Value of a run of decimal digits, most significant first; "" reads as 0. */
  function DigitsValue(s: string): nat
    requires AllDigits(s)
  {
    if |s| == 0 then 0 else 10 * DigitsValue(s[..|s| - 1]) + DigitValue(s[|s| - 1])
  }

  function Pow10(n: nat): (r: nat)
    ensures r >= 1
  {
    if n == 0 then 1 else 10 * Pow10(n - 1)
  }

  /** Shortest decimal rendering of `n`, as Python's `str(n)`. */
  function NatToString(n: nat): (s: string)
    ensures |s| >= 1 && AllDigits(s)
    ensures |s| > 1 ==> s[0] != '0'
    decreases n
  {
    if n < 10 then [DigitChar(n)] else NatToString(n / 10) + [DigitChar(n % 10)]
  }

  lemma {:induction false} NatToStringValue(n: nat)
    ensures DigitsValue(NatToString(n)) == n
    decreases n
  {
    var s := NatToString(n);
    if n >= 10 {
      NatToStringValue(n / 10);
      assert s[..|s| - 1] == NatToString(n / 10);
    }
  }

  /** Distinct numbers render differently, so generated names never collide. */
  lemma NatToStringInjective(m: nat, n: nat)
    requires NatToString(m) == NatToString(n)
    ensures m == n
  {
    NatToStringValue(m);
    NatToStringValue(n);
  }

  predicate IsBlank(c: char) { c == ' ' || c == '\t' || c == '\n' || c == '\r' }

  function TrimLeft(s: string): (r: string)
    ensures |r| <= |s| && (|r| > 0 ==> !IsBlank(r[0]))
  {
    if |s| > 0 && IsBlank(s[0]) then TrimLeft(s[1..]) else s
  }

  function TrimRight(s: string): (r: string)
    ensures |r| <= |s| && (|r| > 0 ==> !IsBlank(r[|r| - 1]))
  {
    if |s| > 0 && IsBlank(s[|s| - 1]) then TrimRight(s[..|s| - 1]) else s
  }

  function DotIndex(s: string): (r: Option<nat>)
    ensures r.Some? ==> r.value < |s| && s[r.value] == '.'
    ensures r.Some? ==> forall j :: 0 <= j < r.value ==> s[j] != '.'
    ensures r.None? ==> forall j :: 0 <= j < |s| ==> s[j] != '.'
  {
    if |s| == 0 then None
    else if s[0] == '.' then Some(0)
    else match DotIndex(s[1..])
      case None => None
      case Some(k) => Some(k + 1)
  }

  /** An unsigned decimal: digits, optionally a point and more digits, at least one digit in all. */
  function ParseUnsigned(s: string): (r: Option<real>)
    ensures r.Some? ==> r.value >= 0.0
  {
    match DotIndex(s)
    case None =>
      if |s| > 0 && AllDigits(s) then Some(DigitsValue(s) as real) else None
    case Some(k) =>
      var whole, frac := s[..k], s[k + 1..];
      if AllDigits(whole) && AllDigits(frac) && |whole| + |frac| > 0
      then
        var f, p := DigitsValue(frac) as real, Pow10(|frac|) as real;
        QuotientNonNegative(f, p);
        Some(DigitsValue(whole) as real + f / p)
      else None
  }

  lemma QuotientNonNegative(f: real, p: real)
    requires f >= 0.0 && p > 0.0
    ensures f / p >= 0.0
  {
  }

  /**
   * The number a text cell holds, if any: surrounding blanks are ignored and
   * a leading sign is allowed. Blank or other text yields None, which the
   * coercion turns into NaN.
   */
  function ParseNumber(s: string): (r: Option<real>)
    ensures r.Some? ==> exists i :: 0 <= i < |s| && IsDigit(s[i])
  {
    if forall i :: 0 <= i < |s| ==> !IsDigit(s[i]) then
      TrimmedNeedsDigit(s);
      None
    else ParseSigned(TrimRight(TrimLeft(s)))
  }

  /** Trimmed text: an optional sign, then an unsigned decimal. */
  function ParseSigned(t: string): Option<real>
  {
    if |t| > 0 && t[0] == '-' then
      match ParseUnsigned(t[1..])
      case Some(v) => Some(-v)
      case None => None
    else if |t| > 0 && t[0] == '+' then ParseUnsigned(t[1..])
    else ParseUnsigned(t)
  }

  /** A non-empty run of digits is an unsigned decimal without a point. */
  lemma DigitsAreUnsigned(d: string)
    requires |d| > 0 && AllDigits(d)
    ensures ParseUnsigned(d) == Some(DigitsValue(d) as real)
  {
    assert DotIndex(d) == None by {
      forall j | 0 <= j < |d| ensures d[j] != '.' { assert IsDigit(d[j]); }
    }
  }

  /** Text that starts and ends with a non-blank character is its own trim. */
  lemma TrimNothing(s: string)
    requires |s| > 0 && !IsBlank(s[0]) && !IsBlank(s[|s| - 1])
    ensures TrimRight(TrimLeft(s)) == s
  {
    assert TrimLeft(s) == s;
  }

  /** A non-empty run of digits parses to its value. */
  lemma DigitsParse(d: string)
    requires |d| > 0 && AllDigits(d)
    ensures ParseNumber(d) == Some(DigitsValue(d) as real)
  {
    assert IsDigit(d[0]) && IsDigit(d[|d| - 1]);
    TrimNothing(d);
    DigitsAreUnsigned(d);
  }

  /** A minus sign followed by a non-empty run of digits parses to the negated value. */
  lemma NegatedDigitsParse(s: string)
    requires |s| > 1 && s[0] == '-' && AllDigits(s[1..])
    ensures ParseNumber(s) == Some(-(DigitsValue(s[1..]) as real))
  {
    assert IsDigit(s[1..][|s| - 2]);
    TrimNothing(s);
    DigitsAreUnsigned(s[1..]);
  }

  /** `t` is a decimal with its point at `k`: digits, the point, digits, and at least one digit. */
  predicate IsDecimal(t: string, k: nat) {
    1 < |t| && k < |t| && t[k] == '.' && AllDigits(t[..k]) && AllDigits(t[k + 1..])
  }

  /** The value of the decimal `t` whose point is at `k`. */
  function DecimalValue(t: string, k: nat): real
    requires IsDecimal(t, k)
  {
    DigitsValue(t[..k]) as real + DigitsValue(t[k + 1..]) as real / Pow10(|t| - k - 1) as real
  }

  /** Digits, a point and digits, such as "29.85", make an unsigned decimal. */
  lemma DecimalIsUnsigned(t: string, k: nat)
    requires IsDecimal(t, k)
    ensures ParseUnsigned(t) == Some(DecimalValue(t, k))
  {
    forall j | 0 <= j < k ensures t[j] != '.' {
      assert IsDigit(t[..k][j]);
    }
    assert DotIndex(t) == Some(k);
  }

  /** A decimal such as "29.85" parses to its value: the whole part plus the fraction over a power of ten. */
  lemma DecimalParse(t: string, k: nat)
    requires IsDecimal(t, k)
    ensures ParseNumber(t) == Some(DecimalValue(t, k))
  {
    assert !IsBlank(t[0]) by {
      if k > 0 { assert IsDigit(t[..k][0]); }
    }
    assert !IsBlank(t[|t| - 1]) by {
      if k < |t| - 1 { assert IsDigit(t[k + 1..][|t| - k - 2]); }
    }
    TrimNothing(t);
    assert t[0] != '-' && t[0] != '+' by {
      if k > 0 { assert IsDigit(t[..k][0]); }
    }
    DecimalIsUnsigned(t, k);
  }

  /** A minus sign followed by a decimal parses to the negated value. */
  lemma NegatedDecimalParse(s: string, k: nat)
    requires |s| > 0 && s[0] == '-' && IsDecimal(s[1..], k)
    ensures ParseNumber(s) == Some(-DecimalValue(s[1..], k))
  {
    var t := s[1..];
    assert !IsBlank(s[|s| - 1]) by {
      assert s[|s| - 1] == t[|t| - 1];
      if k < |t| - 1 { assert IsDigit(t[k + 1..][|t| - k - 2]); }
    }
    TrimNothing(s);
    DecimalIsUnsigned(t, k);
  }

  /** Rendering a natural number and parsing it back gives the number. */
  lemma ParseNatRoundTrip(n: nat)
    ensures ParseNumber(NatToString(n)) == Some(n as real)
  {
    NatToStringValue(n);
    DigitsParse(NatToString(n));
  }

  /** The same holds with a minus sign in front. */
  lemma ParseNegativeRoundTrip(n: nat)
    ensures ParseNumber("-" + NatToString(n)) == Some(-(n as real))
  {
    var s := "-" + NatToString(n);
    assert s[1..] == NatToString(n);
    NatToStringValue(n);
    NegatedDigitsParse(s);
  }

  /** A typical `TotalCharges` text: "29.85" reads as 29.85. */
  lemma TypicalChargeParses()
    ensures ParseNumber("29.85") == Some(29.85)
  {
    var t := "29.85";
    var whole, frac := t[..2], t[3..];
    assert whole == "29" && frac == "85";
    assert AllDigits(whole) && AllDigits(frac);
    assert IsDecimal(t, 2);
    assert DigitsValue(whole) == 29 by {
      assert whole[..1] == "2" && "2"[..0] == "";
    }
    assert DigitsValue(frac) == 85 by {
      assert frac[..1] == "8" && "8"[..0] == "";
    }
    assert Pow10(|t| - 2 - 1) == 100 by {
      assert Pow10(1) == 10;
    }
    assert DecimalValue(t, 2) == 29.85;
    DecimalParse(t, 2);
  }

  /** Text without any digit (a blank cell in particular) never parses. */
  lemma NoDigitNoNumber(s: string)
    requires forall i :: 0 <= i < |s| ==> !IsDigit(s[i])
    ensures ParseNumber(s) == None
  {
  }

  /** Trimming and the sign never supply a digit that the text lacks. */
  lemma TrimmedNeedsDigit(s: string)
    requires forall i :: 0 <= i < |s| ==> !IsDigit(s[i])
    ensures ParseSigned(TrimRight(TrimLeft(s))) == None
  {
    var t := TrimRight(TrimLeft(s));
    TrimKeepsChars(s);
    forall i | 0 <= i < |t| ensures !IsDigit(t[i]) {
      assert t[i] in t;
    }
    if |t| > 0 && (t[0] == '-' || t[0] == '+') {
      UnsignedNeedsDigit(t[1..]);
    } else {
      UnsignedNeedsDigit(t);
    }
  }

  lemma TrimKeepsChars(s: string)
    ensures forall c :: c in TrimRight(TrimLeft(s)) ==> c in s
  {
    TrimLeftSub(s);
    TrimRightSub(TrimLeft(s));
  }

  lemma TrimLeftSub(s: string)
    ensures forall c :: c in TrimLeft(s) ==> c in s
  {
    if |s| > 0 && IsBlank(s[0]) {
      TrimLeftSub(s[1..]);
    }
  }

  lemma TrimRightSub(s: string)
    ensures forall c :: c in TrimRight(s) ==> c in s
  {
    if |s| > 0 && IsBlank(s[|s| - 1]) {
      TrimRightSub(s[..|s| - 1]);
    }
  }

  lemma UnsignedNeedsDigit(s: string)
    requires forall i :: 0 <= i < |s| ==> !IsDigit(s[i])
    ensures ParseUnsigned(s) == None
  {
    match DotIndex(s)
    case None =>
      if |s| > 0 { assert !IsDigit(s[0]); }
    case Some(k) =>
      var whole, frac := s[..k], s[k + 1..];
      if |whole| > 0 { assert !IsDigit(whole[0]); }
      if |frac| > 0 { assert frac[0] == s[k + 1]; }
  }
}

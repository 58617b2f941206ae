/** The few JavaScript value semantics that the dashboard pages rely on:
    `Number(text)` as a partial parse to a real (None stands for NaN),
    comparisons in which NaN is never ordered, `Number(null) == 0`, and
    `Date` values that may be the Invalid Date. */
module Js {
  import opened Wrappers

  // ---------------------------------------------------------------------
  // Characters

  /** JavaScript's StrWhiteSpaceChar: WhiteSpace (tab, vertical tab, form
      feed, space, no-break space, byte order mark, and every space separator
      of Unicode category Zs) and LineTerminator (LF, CR, LS, PS). */
  predicate IsSpace(c: char) {
    c == '\t' || c == '\n' || c == '\U{000B}' || c == '\U{000C}' || c == '\r' ||
    c == ' ' || c == '\U{00A0}' || c == '\U{1680}' ||
    ('\U{2000}' <= c <= '\U{200A}') ||
    c == '\U{2028}' || c == '\U{2029}' || c == '\U{202F}' || c == '\U{205F}' ||
    c == '\U{3000}' || c == '\U{FEFF}'
  }

  predicate IsDigit(c: char) {
    '0' <= c <= '9'
  }

  predicate AllDigits(s: string) {
    forall i :: 0 <= i < |s| ==> IsDigit(s[i])
  }

  function DigitValue(c: char): (d: nat)
    requires IsDigit(c)
    ensures d < 10
  {
    (c as int) - ('0' as int)
  }

  function DigitChar(d: nat): (c: char)
    requires d < 10
    ensures IsDigit(c) && DigitValue(c) == d
  {
    ('0' as int + d) as char
  }

  function Pow10(n: nat): (p: nat)
    ensures p >= 1
  {
    if n == 0 then 1 else 10 * Pow10(n - 1)
  }

  /** The value of a string of decimal digits, most significant first. */
  function DigitsValue(s: string): nat
    requires AllDigits(s)
  {
    if s == [] then 0 else 10 * DigitsValue(s[..|s| - 1]) + DigitValue(s[|s| - 1])
  }

  // ---------------------------------------------------------------------
  // Number(text)

  function TrimStart(s: string): (r: string)
    ensures |r| <= |s| && r == s[|s| - |r|..]
    ensures r != [] ==> !IsSpace(r[0])
    ensures forall k :: 0 <= k < |s| - |r| ==> IsSpace(s[k])
  {
    if s != [] && IsSpace(s[0]) then TrimStart(s[1..]) else s
  }

  function TrimEnd(s: string): (r: string)
    ensures |r| <= |s| && r == s[..|r|]
    ensures r != [] ==> !IsSpace(r[|r| - 1])
    ensures forall k :: |r| <= k < |s| ==> IsSpace(s[k])
  {
    if s != [] && IsSpace(s[|s| - 1]) then TrimEnd(s[..|s| - 1]) else s
  }

  /** The string with leading and trailing white space removed. */
  function Trim(s: string): string {
    TrimEnd(TrimStart(s))
  }

  /** The index of the first character of `s` that is `a` or `b`,
      or |s| when there is none. */
  function FindChar(s: string, a: char, b: char): (k: nat)
    ensures k <= |s|
    ensures forall i :: 0 <= i < k ==> s[i] != a && s[i] != b
    ensures k < |s| ==> s[k] == a || s[k] == b
  {
    if s == [] then 0
    else if s[0] == a || s[0] == b then 0
    else 1 + FindChar(s[1..], a, b)
  }

  /** x * 10^e for an integer exponent e. */
  function Scale(x: real, e: int): real {
    if e >= 0 then x * (Pow10(e) as real) else x / (Pow10(-e) as real)
  }

  /** The value of the digits before and after a decimal point, when
      both are all digits and there is at least one digit in all. */
  function DecimalValue(whole: string, frac: string): Option<real> {
    if AllDigits(whole) && AllDigits(frac) && |whole| + |frac| >= 1 then
      Some(DigitsValue(whole) as real + FractionValue(frac))
    else
      None
  }

  /** The value of the digits after a decimal point: "25" is 25/100. */
  function FractionValue(frac: string): real
    requires AllDigits(frac)
  {
    (DigitsValue(frac) as real) / (Pow10(|frac|) as real)
  }

  /** digits [ "." digits ], or "." digits. */
  function ParseMantissa(m: string): Option<real> {
    var d := FindChar(m, '.', '.');
    DecimalValue(m[..d], if d < |m| then m[d + 1..] else [])
  }

  /** [ "+" | "-" ] digits, at least one digit. */
  function ParseExponent(e: string): Option<int> {
    if e != [] && (e[0] == '+' || e[0] == '-') then
      var digits := e[1..];
      if digits != [] && AllDigits(digits) then
        Some(if e[0] == '-' then -(DigitsValue(digits) as int) else DigitsValue(digits))
      else None
    else if e != [] && AllDigits(e) then Some(DigitsValue(e))
    else None
  }

  /** An unsigned decimal literal: mantissa with an optional e/E exponent. */
  function ParseUnsigned(u: string): Option<real> {
    var k := FindChar(u, 'e', 'E');
    var mantissa := ParseMantissa(u[..k]);
    if k == |u| then mantissa
    else
      var exponent := ParseExponent(u[k + 1..]);
      if mantissa.Some? && exponent.Some? then Some(Scale(mantissa.value, exponent.value))
      else None
  }

  /** `Number(text)` for a string: None is NaN. White space around the
      literal is ignored and a blank string is 0. */
  function Number(s: string): Option<real> {
    ParseSigned(Trim(s))
  }

  /** The trimmed text: blank is 0, otherwise an optional sign and an
      unsigned literal. */
  function ParseSigned(t: string): Option<real> {
    if t == [] then Some(0.0)
    else if t[0] == '-' then
      var n := ParseUnsigned(t[1..]);
      if n.Some? then Some(-n.value) else None
    else if t[0] == '+' then ParseUnsigned(t[1..])
    else ParseUnsigned(t)
  }

  /** `Number(formData.get(name))`: a field that is missing reads as null,
      and `Number(null)` is 0. */
  function NumberOfField(field: Option<string>): Option<real> {
    match field
    case None => Some(0.0)
    case Some(s) => Number(s)
  }

  /** `x >= bound` and `x <= bound` where x may be NaN: NaN compares false. */
  predicate AtLeast(x: Option<real>, bound: real) {
    x.Some? && x.value >= bound
  }

  predicate AtMost(x: Option<real>, bound: real) {
    x.Some? && x.value <= bound
  }

  /** `Number(field) || undefined`: 0 and NaN are falsy and become undefined. */
  function NumberOrUndefined(field: Option<string>): (r: Option<real>)
    ensures r.Some? <==> NumberOfField(field).Some? && NumberOfField(field).value != 0.0
    ensures r.Some? ==> r == NumberOfField(field)
  {
    var n := NumberOfField(field);
    if n.Some? && n.value != 0.0 then n else None
  }

  // ---------------------------------------------------------------------
  // Decimal text of an integer, and its round trip through Number

  function ShowNat(n: nat): (s: string)
    ensures s != [] && AllDigits(s)
  {
    if n < 10 then [DigitChar(n)] else ShowNat(n / 10) + [DigitChar(n % 10)]
  }

  /** The decimal text of an integer, as `String(n)` writes it. */
  function ShowInt(n: int): (s: string)
    ensures s != []
  {
    if n < 0 then "-" + ShowNat(-n) else ShowNat(n)
  }

  lemma {:induction false} DigitsValueShowNat(n: nat)
    ensures DigitsValue(ShowNat(n)) == n
  {
    if n >= 10 {
      var s := ShowNat(n);
      assert s[..|s| - 1] == ShowNat(n / 10);
      DigitsValueShowNat(n / 10);
    }
  }

  lemma TrimNoSpace(s: string)
    requires s != [] && !IsSpace(s[0]) && !IsSpace(s[|s| - 1])
    ensures Trim(s) == s
  {
  }

  lemma UnsignedShowNat(n: nat)
    ensures ParseUnsigned(ShowNat(n)) == Some(n as real)
  {
    var s := ShowNat(n);
    var k := FindChar(s, 'e', 'E');
    assert k == |s| by {
      assert forall i :: 0 <= i < |s| ==> s[i] != 'e' && s[i] != 'E';
    }
    var d := FindChar(s, '.', '.');
    assert d == |s| by {
      assert forall i :: 0 <= i < |s| ==> s[i] != '.';
    }
    assert s[..k] == s;
    assert s[..d] == s;
    DigitsValueShowNat(n);
    assert DigitsValue([]) == 0;
  }

  lemma ShowIntEndsInDigit(e: int)
    ensures IsDigit(ShowInt(e)[|ShowInt(e)| - 1])
  {
    var x := ShowInt(e);
    var digits := ShowNat(if e < 0 then -e else e);
    assert x[|x| - 1] == digits[|digits| - 1];
  }

  /** The text of an integer is a minus sign exactly for a negative
      integer, followed by the digits of its magnitude. */
  lemma ShowIntShape(n: int)
    ensures var s := ShowInt(n);
            (n < 0 ==> s[0] == '-' && s[1..] == ShowNat(-n)) &&
            (n >= 0 ==> s == ShowNat(n) && IsDigit(s[0]))
  {
    if n < 0 {
      assert ("-" + ShowNat(-n))[1..] == ShowNat(-n);
    }
  }

  lemma SignedShowInt(n: int)
    ensures ParseSigned(ShowInt(n)) == Some(n as real)
  {
    var s := ShowInt(n);
    ShowIntShape(n);
    if n < 0 {
      assert s[0] == '-' && s[1..] == ShowNat(-n);
      assert ParseUnsigned(s[1..]) == Some((-n) as real) by {
        UnsignedShowNat(-n);
      }
    } else {
      assert s[0] != '-' && s[0] != '+' && s == ShowNat(n);
      assert ParseUnsigned(s) == Some(n as real) by {
        UnsignedShowNat(n);
      }
    }
  }

  /** Number() reads back what ShowInt writes. */
  lemma NumberShowInt(n: int)
    ensures Number(ShowInt(n)) == Some(n as real)
  {
    var s := ShowInt(n);
    assert !IsSpace(s[0]) && !IsSpace(s[|s| - 1]) by {
      ShowIntShape(n);
      ShowIntEndsInDigit(n);
    }
    TrimNoSpace(s);
    SignedShowInt(n);
  }

  /** Blank text, the empty string included, is 0. */
  lemma NumberOfBlank(s: string)
    requires forall k :: 0 <= k < |s| ==> IsSpace(s[k])
    ensures Number(s) == Some(0.0)
  {
  }

  predicate AllSpace(s: string) {
    forall k :: 0 <= k < |s| ==> IsSpace(s[k])
  }

  lemma {:induction false} TrimStartPadding(pad: string, t: string)
    requires AllSpace(pad) && t != [] && !IsSpace(t[0])
    ensures TrimStart(pad + t) == t
  {
    if pad != [] {
      assert (pad + t)[0] == pad[0];
      assert (pad + t)[1..] == pad[1..] + t;
      TrimStartPadding(pad[1..], t);
    } else {
      assert pad + t == t;
    }
  }

  lemma {:induction false} TrimEndPadding(t: string, pad: string)
    requires AllSpace(pad) && t != [] && !IsSpace(t[|t| - 1])
    ensures TrimEnd(t + pad) == t
  {
    if pad != [] {
      assert (t + pad)[..|t + pad| - 1] == t + pad[..|pad| - 1];
      TrimEndPadding(t, pad[..|pad| - 1]);
    } else {
      assert t + pad == t;
    }
  }

  /** A literal with no sign and no white space around it is read as an
      unsigned literal. */
  lemma NumberOfUnsigned(t: string)
    requires t != [] && IsDigit(t[0]) && IsDigit(t[|t| - 1])
    ensures Number(t) == ParseUnsigned(t)
  {
    TrimNoSpace(t);
  }

  lemma UnsignedWithoutExponent(u: string)
    requires forall i :: 0 <= i < |u| ==> u[i] != 'e' && u[i] != 'E'
    ensures ParseUnsigned(u) == ParseMantissa(u)
  {
    assert FindChar(u, 'e', 'E') == |u|;
    assert u[..|u|] == u;
  }

  /** White space of any kind around a literal is ignored: any text whose
      ends are not white space reads the same with blanks around it. */
  lemma NumberOfPaddedLiteral(before: string, t: string, after: string)
    requires AllSpace(before) && AllSpace(after)
    requires t != [] && !IsSpace(t[0]) && !IsSpace(t[|t| - 1])
    ensures Number(before + t + after) == Number(t)
  {
    assert Trim(before + t + after) == t by {
      assert before + t + after == before + (t + after);
      assert (t + after)[0] == t[0];
      TrimStartPadding(before, t + after);
      TrimEndPadding(t, after);
    }
    TrimNoSpace(t);
  }

  /** So white space around the text of an integer is ignored. */
  lemma NumberOfPadded(before: string, n: int, after: string)
    requires AllSpace(before) && AllSpace(after)
    ensures Number(before + ShowInt(n) + after) == Some(n as real)
  {
    var t := ShowInt(n);
    assert !IsSpace(t[0]) && !IsSpace(t[|t| - 1]) by {
      ShowIntShape(n);
      ShowIntEndsInDigit(n);
    }
    NumberOfPaddedLiteral(before, t, after);
    NumberShowInt(n);
  }

  /** The point splits "w.frac" into w and frac. */
  lemma MantissaOfDecimal(w: string, frac: string)
    requires AllDigits(w) && AllDigits(frac)
    ensures ParseMantissa(w + "." + frac) == DecimalValue(w, frac)
  {
    var t := w + "." + frac;
    assert FindChar(t, '.', '.') == |w| by {
      assert t[|w|] == '.';
    }
    assert t[..|w|] == w;
    assert t[|w| + 1..] == frac;
  }

  lemma DecimalValueOfDigits(w: string, frac: string)
    requires AllDigits(w) && AllDigits(frac) && |w| + |frac| >= 1
    ensures DecimalValue(w, frac) == Some(DigitsValue(w) as real + FractionValue(frac))
  {
  }

  lemma DecimalChars(w: string, frac: string)
    requires AllDigits(w) && AllDigits(frac) && w != [] && frac != []
    ensures var t := w + "." + frac;
            IsDigit(t[0]) && IsDigit(t[|t| - 1]) &&
            forall i :: 0 <= i < |t| ==> t[i] != 'e' && t[i] != 'E'
  {
    var t := w + "." + frac;
    forall i | 0 <= i < |t| ensures t[i] != 'e' && t[i] != 'E' {
      if i < |w| { assert t[i] == w[i]; }
      else if i > |w| { assert t[i] == frac[i - |w| - 1]; }
    }
    assert t[0] == w[0];
    assert t[|t| - 1] == frac[|frac| - 1];
  }

  /** Digits, a point and digits read as the decimal value of the two parts. */
  lemma NumberOfDigitsDecimal(w: string, frac: string)
    requires AllDigits(w) && AllDigits(frac) && w != [] && frac != []
    ensures Number(w + "." + frac) == DecimalValue(w, frac)
  {
    var t := w + "." + frac;
    DecimalChars(w, frac);
    NumberOfUnsigned(t);
    UnsignedWithoutExponent(t);
    MantissaOfDecimal(w, frac);
  }

  lemma DecimalValueOfShowNat(whole: nat, frac: string)
    requires AllDigits(frac)
    ensures DecimalValue(ShowNat(whole), frac) == Some(whole as real + FractionValue(frac))
  {
    DigitsValueShowNat(whole);
    DecimalValueOfDigits(ShowNat(whole), frac);
  }

  /** Text with a decimal point reads as its whole part plus its digits
      after the point scaled down: "2.5" is 2 + 5/10. */
  lemma NumberOfDecimal(whole: nat, frac: string)
    requires frac != [] && AllDigits(frac)
    ensures Number(ShowNat(whole) + "." + frac) == Some(whole as real + FractionValue(frac))
  {
    NumberOfDigitsDecimal(ShowNat(whole), frac);
    DecimalValueOfShowNat(whole, frac);
  }

  /** [ "-" ] digits is read back as an exponent. */
  lemma ExponentOfShowInt(e: int)
    ensures ParseExponent(ShowInt(e)) == Some(e)
  {
    var digits := ShowNat(if e < 0 then -e else e);
    DigitsValueShowNat(if e < 0 then -e else e);
    if e < 0 {
      assert ShowInt(e)[1..] == digits;
    }
  }

  /** Without a point the whole mantissa is the part before it. */
  lemma MantissaWithoutPoint(m: string)
    requires forall i :: 0 <= i < |m| ==> m[i] != '.'
    ensures ParseMantissa(m) == DecimalValue(m, [])
  {
    assert FindChar(m, '.', '.') == |m|;
    assert m[..|m|] == m;
  }

  lemma FractionOfNothing()
    ensures FractionValue([]) == 0.0
  {
    assert DigitsValue([]) == 0 && Pow10(0) == 1;
  }

  lemma MantissaOfDigits(m: string)
    requires m != [] && AllDigits(m)
    ensures ParseMantissa(m) == Some(DigitsValue(m) as real)
  {
    MantissaWithoutPoint(m);
    DecimalValueOfDigits(m, []);
    FractionOfNothing();
  }

  lemma UnsignedOfDigitsExponent(m: string, x: string, e: int)
    requires m != [] && AllDigits(m) && ParseExponent(x) == Some(e)
    ensures ParseUnsigned(m + "e" + x) == Some(Scale(DigitsValue(m) as real, e))
  {
    var t := m + "e" + x;
    var k := FindChar(t, 'e', 'E');
    assert k == |m| by {
      assert t[|m|] == 'e';
      assert forall i :: 0 <= i < |m| ==> t[i] == m[i];
    }
    assert t[..k] == m && t[k + 1..] == x;
    MantissaOfDigits(m);
  }

  /** Digits, an "e" and an exponent read as the digits' value scaled by
      that power of ten. */
  lemma NumberOfDigitsExponent(m: string, x: string, e: int)
    requires m != [] && AllDigits(m) && x != [] && IsDigit(x[|x| - 1])
    requires ParseExponent(x) == Some(e)
    ensures Number(m + "e" + x) == Some(Scale(DigitsValue(m) as real, e))
  {
    var t := m + "e" + x;
    assert t[|t| - 1] == x[|x| - 1];
    assert t[0] == m[0];
    NumberOfUnsigned(t);
    UnsignedOfDigitsExponent(m, x, e);
  }


  /** Text with an exponent reads as its mantissa scaled by that power of
      ten: "1e2" is 100 and "5e-1" is 0.5. */
  lemma NumberOfExponent(mantissa: nat, e: int)
    ensures Number(ShowNat(mantissa) + "e" + ShowInt(e)) == Some(Scale(mantissa as real, e))
  {
    ShowIntEndsInDigit(e);
    ExponentOfShowInt(e);
    DigitsValueShowNat(mantissa);
    NumberOfDigitsExponent(ShowNat(mantissa), ShowInt(e), e);
  }

  /** The characters a numeric literal is made of, apart from white space. */
  predicate IsNumeralChar(c: char) {
    IsDigit(c) || c == '.' || c == 'e' || c == 'E' || c == '+' || c == '-'
  }

  lemma MantissaChars(m: string)
    requires ParseMantissa(m).Some?
    ensures forall j :: 0 <= j < |m| ==> IsDigit(m[j]) || m[j] == '.'
  {
    var d := FindChar(m, '.', '.');
    forall j | 0 <= j < |m| ensures IsDigit(m[j]) || m[j] == '.' {
      if j < d { assert m[j] == m[..d][j]; }
      else if j > d { assert m[j] == m[d + 1..][j - d - 1]; }
    }
  }

  lemma ExponentChars(x: string)
    requires ParseExponent(x).Some?
    ensures forall j :: 0 <= j < |x| ==> IsNumeralChar(x[j])
  {
    if x[0] == '+' || x[0] == '-' {
      assert forall j :: 1 <= j < |x| ==> x[j] == x[1..][j - 1];
    }
  }

  lemma UnsignedChars(u: string)
    requires ParseUnsigned(u).Some?
    ensures forall j :: 0 <= j < |u| ==> IsNumeralChar(u[j])
  {
    var k := FindChar(u, 'e', 'E');
    MantissaChars(u[..k]);
    if k < |u| {
      ExponentChars(u[k + 1..]);
    }
    forall j | 0 <= j < |u| ensures IsNumeralChar(u[j]) {
      if j < k {
        assert u[j] == u[..k][j];
      } else if j > k {
        assert u[j] == u[k + 1..][j - k - 1];
      }
    }
  }

  /** An optionally signed literal is made of numeral characters only. */
  lemma SignedChars(t: string)
    requires t != []
    requires if t[0] == '-' || t[0] == '+' then ParseUnsigned(t[1..]).Some?
             else ParseUnsigned(t).Some?
    ensures forall j :: 0 <= j < |t| ==> IsNumeralChar(t[j])
  {
    if t[0] == '-' || t[0] == '+' {
      UnsignedChars(t[1..]);
      assert forall j :: 1 <= j < |t| ==> t[j] == t[1..][j - 1];
    } else {
      UnsignedChars(t);
    }
  }

  /** Every character of s is white space or the character of Trim(s) at
      the same place, counted from where the leading white space ends. */
  lemma TrimPosition(s: string, j: nat)
    requires j < |s|
    ensures var lo := |s| - |TrimStart(s)|;
            IsSpace(s[j]) || (lo <= j < lo + |Trim(s)| && s[j] == Trim(s)[j - lo])
  {
    var a := TrimStart(s);
    var lo := |s| - |a|;
    if lo <= j {
      assert s[j] == a[j - lo];
    }
  }

  /** Number() is NaN for any text holding a character that is neither
      white space nor part of a numeric literal: "x", "12px", "1,5". */
  lemma NumberNeedsNumeralChars(s: string)
    requires Number(s).Some?
    ensures forall j :: 0 <= j < |s| ==> IsSpace(s[j]) || IsNumeralChar(s[j])
  {
    var t := Trim(s);
    if t != [] {
      SignedChars(t);
    }
    forall j | 0 <= j < |s| ensures IsSpace(s[j]) || IsNumeralChar(s[j]) {
      TrimPosition(s, j);
    }
  }

  // ---------------------------------------------------------------------
  // Dates

  /** A JavaScript Date: a millisecond timestamp, or the Invalid Date that
      `new Date(text)` yields for text it cannot read. */
  datatype Date = Valid(ms: int) | Invalid

  /** `now < d`, `now > d` for the current time `now`: a comparison with the
      Invalid Date (NaN) is false. */
  predicate Before(now: int, d: Date) {
    d.Valid? && now < d.ms
  }

  predicate After(now: int, d: Date) {
    d.Valid? && now > d.ms
  }
}

/**
 * How the scalars of JSON are spelled, said by the pieces of their tokens: the characters and escapes
 * of a string, whole numbers, other numbers and words.
 */
module JsonTokens {
  import opened Wrappers
  import opened Text
  import opened Json
  import opened JsonRoundTrip

  // ---- One character of a string -----------------------------------------------------------------

  function HexNumber(a: char, b: char, c: char, d: char): int
    requires IsHexDigit(a) && IsHexDigit(b) && IsHexDigit(c) && IsHexDigit(d)
  {
    ((HexValue(a) * 16 + HexValue(b)) * 16 + HexValue(c)) * 16 + HexValue(d)
  }

  /** A backslash, a `u` and four hexadecimal digits of the number. */
  ghost predicate IsHexEscape(s: string, code: int) {
    exists a, b, c, d | IsHexDigit(a) && IsHexDigit(b) && IsHexDigit(c) && IsHexDigit(d) ::
      s == ['\\', 'u', a, b, c, d] && code == HexNumber(a, b, c, d)
  }

  ghost predicate IsShortEscape(s: string, code: int) {
    || (s == ['\\', '"'] && code == 34) || (s == ['\\', '\\'] && code == 92) || (s == ['\\', '/'] && code == 47)
    || (s == ['\\', 'b'] && code == 8) || (s == ['\\', 'f'] && code == 12) || (s == ['\\', 'n'] && code == 10)
    || (s == ['\\', 'r'] && code == 13) || (s == ['\\', 't'] && code == 9)
  }

  /** A character that stands for itself: no control character, no quotation mark, no backslash. */
  ghost predicate IsPlain(s: string, code: int) {
    |s| == 1 && code == s[0] as int && code >= 32 && code != 34 && code != 92
  }

  /** Two escapes that are one character beyond the basic plane. */
  ghost predicate IsPair(s: string, code: int) {
    |s| == 12 && exists high, low | 0xD800 <= high <= 0xDBFF && 0xDC00 <= low <= 0xDFFF ::
      && IsHexEscape(s[..6], high) && IsHexEscape(s[6..], low)
      && code == 0x10000 + (high - 0xD800) * 0x400 + (low - 0xDC00)
  }

  ghost predicate IsUnit(s: string, code: int) {
    IsPlain(s, code) || IsShortEscape(s, code) || IsHexEscape(s, code) || IsPair(s, code)
  }

  lemma HexEscapeIs(s: string, code: int)
    requires |s| >= 6
    ensures IsHexEscape(s[..6], code) <==> IsUnicodeEscape(s) && EscapedCode(s) == code
  {
    hide IsHexDigit, HexNumber, HexValue;
    if IsUnicodeEscape(s) {
      assert s[..6] == ['\\', 'u', s[2], s[3], s[4], s[5]];
      SameNumber(s);
    }
    if IsHexEscape(s[..6], code) {
      var a, b, c, d :| IsHexDigit(a) && IsHexDigit(b) && IsHexDigit(c) && IsHexDigit(d)
                        && s[..6] == ['\\', 'u', a, b, c, d] && code == HexNumber(a, b, c, d);
      var t := s[..6];
      assert s[0] == t[0] && s[1] == t[1] && s[2] == t[2] && s[3] == t[3] && s[4] == t[4] && s[5] == t[5];
      SameNumber(s);
    }
  }

  lemma SameNumber(s: string)
    requires IsUnicodeEscape(s)
    ensures EscapedCode(s) == HexNumber(s[2], s[3], s[4], s[5])
  {
    hide HexValue, IsHexDigit;
  }

  lemma HexEscapeLength(s: string, code: int)
    requires IsHexEscape(s, code)
    ensures |s| == 6 && s[0] == '\\' && s[1] == 'u' && s[..6] == s
  {
  }

  /** The low half of a pair stands at the start of a text. */
  ghost predicate LowFollows(s: string) {
    |s| >= 6 && exists low | 0xDC00 <= low <= 0xDFFF :: IsHexEscape(s[..6], low)
  }

  lemma LowIs(s: string)
    ensures LowFollows(s) <==> IsUnicodeEscape(s) && 0xDC00 <= EscapedCode(s) < 0xE000
  {
    hide IsHexEscape;
    if IsUnicodeEscape(s) { HexEscapeIs(s, EscapedCode(s)); }
    if LowFollows(s) {
      var low :| 0xDC00 <= low <= 0xDFFF && IsHexEscape(s[..6], low);
      HexEscapeIs(s, low);
    }
  }

  /** The first unit of a text: a lone high half only where no low half follows. */
  ghost predicate StartsWithUnit(s: string, code: int, n: nat) {
    && n <= |s| && IsUnit(s[..n], code)
    && (n == 6 && 0xD800 <= code <= 0xDBFF ==> !LowFollows(s[6..]))
  }

  lemma UnitScanned(s: string, code: int, n: nat)
    requires s != "" && s[0] != '"' && ScanUnit(s) == Some((code, n))
    ensures StartsWithUnit(s, code, n)
  {
    hide IsHexEscape;
    if s[0] == '\\' && s[1] == 'u' {
      HexEscapeIs(s, EscapedCode(s));
      LowIs(s[6..]);
      if IsSurrogatePair(s) {
        HexEscapeIs(s[6..], EscapedCode(s[6..]));
        assert s[..12][..6] == s[..6] && s[..12][6..] == s[6..][..6];
      }
    } else if s[0] == '\\' {
      assert s[..2] == ['\\', s[1]];
    } else {
      assert s[..1] == [s[0]];
    }
  }

  lemma UnitScans(s: string, code: int, n: nat)
    requires s != "" && s[0] != '"' && StartsWithUnit(s, code, n)
    ensures ScanUnit(s) == Some((code, n))
  {
    hide IsHexEscape;
    var u := s[..n];
    if IsPlain(u, code) {
      assert s[0] == u[0];
    } else if IsShortEscape(u, code) {
      assert s[0] == u[0] && s[1] == u[1];
    } else if IsHexEscape(u, code) {
      HexEscapeLength(u, code);
      HexEscapeIs(s, code);
      LowIs(s[6..]);
    } else {
      var high, low :| 0xD800 <= high <= 0xDBFF && 0xDC00 <= low <= 0xDFFF && IsHexEscape(u[..6], high)
                       && IsHexEscape(u[6..], low) && code == 0x10000 + (high - 0xD800) * 0x400 + (low - 0xDC00);
      assert u[..6] == s[..6] && u[6..] == s[6..][..6];
      HexEscapeIs(s, high);
      HexEscapeIs(s[6..], low);
    }
  }

  // ---- Strings -----------------------------------------------------------------------------------

  ghost predicate IsHalf(unit: string, code: int, from: int) {
    |unit| == 6 && from <= code < from + 0x400
  }

  /** String content and its closing quotation mark, unit by unit; no two halves of a pair stand side by side. */
  ghost predicate IsContent(s: string, text: CodePoints, units: seq<string>) {
    && |units| == |text| && s == Join(units) + ['"']
    && (forall i | 0 <= i < |units| :: IsUnit(units[i], text[i]))
    && forall i | 0 <= i < |units| - 1 ::
         !(IsHalf(units[i], text[i], 0xD800) && IsHalf(units[i + 1], text[i + 1], 0xDC00))
  }

  lemma PairStart(unit: string, code: int)
    requires IsPair(unit, code)
    ensures |unit| == 12 && unit[0] == '\\'
  {
    hide IsHexEscape;
    var high :| 0xD800 <= high <= 0xDBFF && IsHexEscape(unit[..6], high);
    HexEscapeLength(unit[..6], high);
    assert unit[..6][0] == unit[0];
  }

  lemma UnitStart(unit: string, code: int)
    requires IsUnit(unit, code)
    ensures unit != "" && unit[0] != '"' && (|unit| == 6 <==> IsHexEscape(unit, code))
    ensures |unit| == 1 || |unit| == 2 || |unit| == 6 || |unit| == 12
    ensures (|unit| == 1 ==> unit[0] != '\\') && (|unit| == 2 ==> unit[1] != 'u') && (|unit| == 12 <==> IsPair(unit, code))
  {
    hide IsHexEscape, IsPair;
    if IsHexEscape(unit, code) { HexEscapeLength(unit, code); }
    if IsPair(unit, code) { PairStart(unit, code); }
  }

  /** What begins with the low half of a pair has it as its first unit. */
  lemma LowIsFirst(text: CodePoints, units: seq<string>)
    requires |units| == |text| && forall i | 0 <= i < |units| :: IsUnit(units[i], text[i])
    ensures LowFollows(Join(units) + ['"']) <==> units != [] && IsHalf(units[0], text[0], 0xDC00)
  {
    hide IsHexEscape, IsUnit;
    var s := Join(units) + ['"'];
    if units == [] {
      assert |s| == 1;
    } else {
      var u, rest := units[0], Join(units[1..]) + ['"'];
      assert s == u + rest;
      UnitStart(u, text[0]);
      LowAtStart(u, text[0], rest);
    }
  }

  lemma OneHexCode(s: string, x: int, y: int)
    requires IsHexEscape(s, x) && IsHexEscape(s, y)
    ensures x == y
  {
    hide HexNumber;
    var a, b, c, d :| IsHexDigit(a) && IsHexDigit(b) && IsHexDigit(c) && IsHexDigit(d)
                      && s == ['\\', 'u', a, b, c, d] && x == HexNumber(a, b, c, d);
    assert s[2] == a && s[3] == b && s[4] == c && s[5] == d;
  }

  lemma LowAtStart(unit: string, code: int, rest: string)
    requires IsUnit(unit, code)
    ensures LowFollows(unit + rest) <==> IsHalf(unit, code, 0xDC00)
  {
    UnitStart(unit, code);
    hide IsHexEscape, IsUnit;
    var s := unit + rest;
    if |unit| == 6 {
      assert s[..6] == unit;
      forall low | IsHexEscape(unit, low) ensures low == code { OneHexCode(unit, low, code); }
    } else if |unit| == 12 {
      assert s[..6] == unit[..6];
      var high :| 0xD800 <= high <= 0xDBFF && IsHexEscape(unit[..6], high);
      forall x | IsHexEscape(s[..6], x) ensures x == high { OneHexCode(s[..6], x, high); }
    } else {
      assert s[0] == unit[0] && (|unit| == 2 ==> s[1] == unit[1]);
      NoHexThere(s);
    }
  }

  lemma NoHexThere(s: string)
    ensures |s| >= 6 && (s[0] != '\\' || s[1] != 'u') ==> forall code :: !IsHexEscape(s[..6], code)
  {
    assert |s| >= 6 ==> s[..6][0] == s[0] && s[..6][1] == s[1];
  }

  lemma ContentStep(s: string, text: CodePoints, units: seq<string>, code: int, n: nat)
    requires n <= |s| && IsContent(s[n..], text, units) && StartsWithUnit(s, code, n)
    ensures IsContent(s, [code] + text, [s[..n]] + units)
  {
    LowIsFirst(text, units);
    hide IsUnit, IsHexEscape, LowFollows;
    var all := [s[..n]] + units;
    assert all[1..] == units && s == s[..n] + s[n..];
    assert Join(all) == s[..n] + Join(units);
    assert forall i | 0 < i < |all| :: all[i] == units[i - 1] && ([code] + text)[i] == text[i - 1];
  }

  lemma {:induction false} StringScanned(s: string, text: CodePoints) returns (units: seq<string>)
    requires ScanString(s) == Some((text, |s|))
    ensures IsContent(s, text, units)
    decreases |s|
  {
    hide ScanUnit, IsUnit, LowFollows, Join;
    if s[0] == '"' {
      units := [];
      assert s == ['"'] && text == [];
      NothingJoined();
    } else {
      var (code, n) := ScanUnit(s).value;
      UnitScanned(s, code, n);
      var more := StringScanned(s[n..], text[1..]);
      ContentStep(s, text[1..], more, code, n);
      units := [s[..n]] + more;
      assert text == [code] + text[1..];
    }
  }

  lemma NothingJoined()
    ensures Join([]) + ['"'] == ['"']
  {
  }

  lemma ContentFirst(s: string, text: CodePoints, units: seq<string>)
    requires units != [] && IsContent(s, text, units)
    ensures var n := |units[0]|;
            && n <= |s| && s[..n] == units[0] && StartsWithUnit(s, text[0], n) && s != "" && s[0] != '"'
            && IsContent(s[n..], text[1..], units[1..])
  {
    var n, rest := |units[0]|, Join(units[1..]) + ['"'];
    assert s == units[0] + rest;
    assert s[..n] == units[0] && s[n..] == rest;
    UnitStart(units[0], text[0]);
    hide IsUnit, IsHexEscape, LowFollows;
    assert forall i | 0 <= i < |units| - 1 :: units[1..][i] == units[i + 1] && text[1..][i] == text[i + 1];
    LowIsFirst(text[1..], units[1..]);
  }

  lemma ScanStep(s: string, code: int, n: nat, text: CodePoints, m: nat)
    requires s != "" && s[0] != '"' && ScanUnit(s) == Some((code, n)) && ScanString(s[n..]) == Some((text, m))
    ensures ScanString(s) == Some(([code] + text, n + m))
  {
    hide ScanUnit;
  }

  lemma {:induction false} StringScans(s: string, text: CodePoints, units: seq<string>)
    requires |units| == |text| && IsContent(s, text, units)
    ensures ScanString(s) == Some((text, |s|))
    decreases |units|
  {
    hide ScanUnit, ScanString, IsUnit, LowFollows, Join, IsContent, StartsWithUnit;
    if units == [] {
      NoContent(s, text, units);
    } else {
      ContentFirst(s, text, units);
      var n := |units[0]|;
      UnitScans(s, text[0], n);
      StringScans(s[n..], text[1..], units[1..]);
      ScanStep(s, text[0], n, text[1..], |s| - n);
      assert [text[0]] + text[1..] == text;
    }
  }

  lemma NoContent(s: string, text: CodePoints, units: seq<string>)
    requires units == [] && IsContent(s, text, units)
    ensures ScanString(s) == Some((text, |s|))
  {
    NothingJoined();
    assert s == ['"'] && text == [];
  }

  lemma SameLength(s: string, text: CodePoints, units: seq<string>)
    requires IsContent(s, text, units)
    ensures |units| == |text|
  {
  }

  /** A token spells a text exactly when it is a quotation mark and the text's units up to another one. */
  lemma StringMeans(token: string, text: CodePoints)
    ensures Spells(token, JString(text)) <==>
              token != "" && token[0] == '"' && exists units :: IsContent(token[1..], text, units)
  {
    hide ScanString, IsContent, KeywordLength, NumberLength, IntegerLength, IntegerValue;
    if token != "" && token[0] == '"' {
      if ScanString(token[1..]) == Some((text, |token| - 1)) {
        var units := StringScanned(token[1..], text);
      }
      forall units | IsContent(token[1..], text, units) ensures ScanString(token[1..]) == Some((text, |token| - 1)) {
        SameLength(token[1..], text, units);
        StringScans(token[1..], text, units);
      }
    }
  }

  // ---- Numbers and words -------------------------------------------------------------------------

  /** The decimal text of a number, behind a minus sign if it is negative; zero may have one, too. */
  ghost predicate IsWhole(token: string, n: int) {
    exists m: nat :: (token == Decimal(m) && n == m) || (token == ['-'] + Decimal(m) && n == 0 - m)
  }

  ghost predicate IsFraction(s: string) {
    s == "" || (|s| >= 2 && s[0] == '.' && AllDigits(s[1..]))
  }

  ghost predicate IsExponent(s: string) {
    || s == ""
    || (|s| >= 2 && (s[0] == 'e' || s[0] == 'E') && AllDigits(s[1..]))
    || (|s| >= 3 && (s[0] == 'e' || s[0] == 'E') && (s[1] == '+' || s[1] == '-') && AllDigits(s[2..]))
  }

  ghost predicate IsWord(token: string) {
    || token == "null" || token == "true" || token == "false"
    || token == "NaN" || token == "Infinity" || token == "-Infinity"
  }

  lemma DigitsAll(s: string)
    ensures DigitsLength(s) == |s| <==> AllDigits(s)
    ensures DigitsLength(s) > 0 <==> s != "" && IsDigit(s[0])
  {
    if AllDigits(s) {
      assert s[..|s|] == s;
      DigitsAt(s, |s|);
    }
    if DigitsLength(s) == |s| { assert s[..|s|] == s; }
  }

  lemma WholeSpelled(token: string)
    requires token != "" && IntegerLength(token) == |token|
    ensures IsWhole(token, IntegerValue(token))
  {
    hide Decimal, ParseDecimal;
    if token[0] == '-' {
      var rest := token[1..];
      WholeDigits(rest);
      NumeralMeans(rest);
      assert token == ['-'] + rest;
    } else {
      WholeDigits(token);
      NumeralMeans(token);
    }
  }

  lemma WholeDigits(s: string)
    requires s != "" && IsDigit(s[0]) && (if s[0] == '0' then |s| == 1 else DigitsLength(s) == |s|)
    ensures IsNumeral(s)
  {
    DigitsAll(s);
    assert |s| == 1 ==> s == [s[0]];
  }

  lemma WholeSpells(token: string, n: int)
    requires IsWhole(token, n)
    ensures token != "" && IntegerLength(token) == |token| && IntegerValue(token) == n && token[0] != '"'
    ensures IsDigit(token[0]) || (token[0] == '-' && |token| > 1 && IsDigit(token[1]))
  {
    var m: nat :| (token == Decimal(m) && n == m) || (token == ['-'] + Decimal(m) && n == 0 - m);
    hide Decimal, ParseDecimal;
    var digits := Decimal(m);
    ParseOfDecimal(m);
    DigitsAll(digits);
    if token == digits {
      assert token[0..] == token;
    } else {
      assert token[1..] == digits;
    }
  }

  lemma WholeNumberLength(token: string)
    requires token != "" && IntegerLength(token) == |token|
    ensures NumberLength(token) == |token|
  {
    assert token[|token|..] == "";
    NumberParts(token, |token|, 0, 0);
  }

  /** A token spells a whole number exactly when it is its decimal text, signed if it is negative. */
  lemma WholeMeans(token: string, n: int)
    ensures Spells(token, JInt(n)) <==> IsWhole(token, n)
  {
    hide IntegerLength, IntegerValue, IsWhole, ScanString;
    if Spells(token, JInt(n)) {
      assert token[..|token|] == token;
      hide NumberLength;
      WholeSpelled(token);
    }
    if IsWhole(token, n) {
      WholeSpells(token, n);
      WholeNumberLength(token);
      assert token[..|token|] == token;
      hide NumberLength;
      assert KeywordLength(token) == 0;
    }
  }

  // ---- Other numbers -----------------------------------------------------------------------------

  /** A whole number with a fraction or an exponent or both. */
  ghost predicate IsOtherNumber(token: string, whole: string, n: int, fraction: string, exponent: string) {
    && token == whole + (fraction + exponent) && fraction + exponent != ""
    && IsWhole(whole, n) && IsFraction(fraction) && IsExponent(exponent)
  }

  lemma DigitsThere(digits: string, rest: string)
    requires AllDigits(digits) && (rest != "" ==> !IsDigit(rest[0]))
    ensures DigitsLength(digits + rest) == |digits|
  {
    assert (digits + rest)[..|digits|] == digits;
    assert rest != "" ==> (digits + rest)[|digits|] == rest[0];
    DigitsAt(digits + rest, |digits|);
  }

  lemma WholeThere(whole: string, n: int, rest: string)
    requires IsWhole(whole, n) && (rest != "" ==> !IsDigit(rest[0]))
    ensures IntegerLength(whole + rest) == |whole| > 0
    ensures IsDigit((whole + rest)[0]) || ((whole + rest)[0] == '-' && IsDigit((whole + rest)[1]) && |whole| > 1)
  {
    var m: nat :| (whole == Decimal(m) && n == m) || (whole == ['-'] + Decimal(m) && n == 0 - m);
    hide Decimal;
    var digits, s := Decimal(m), whole + rest;
    ParseOfDecimal(m);
    DigitsThere(digits, rest);
    if whole == digits {
      assert s[0..] == s;
    } else {
      assert s[1..] == digits + rest;
    }
  }

  lemma FractionThere(fraction: string, rest: string)
    requires IsFraction(fraction) && (rest != "" ==> !IsDigit(rest[0]) && rest[0] != '.')
    ensures FractionLength(fraction + rest) == |fraction|
  {
    var s := fraction + rest;
    if fraction == "" {
      assert s == rest;
    } else {
      assert s[1..] == fraction[1..] + rest;
      DigitsThere(fraction[1..], rest);
    }
  }

  lemma ExponentThere(exponent: string)
    requires IsExponent(exponent)
    ensures ExponentLength(exponent) == |exponent|
  {
    if exponent != "" {
      if exponent[1] == '+' || exponent[1] == '-' { DigitsAll(exponent[2..]); } else { DigitsAll(exponent[1..]); }
    }
  }

  lemma RestStarts(fraction: string, exponent: string)
    requires IsFraction(fraction) && IsExponent(exponent)
    ensures exponent != "" ==> !IsDigit(exponent[0]) && exponent[0] != '.'
    ensures fraction + exponent != "" ==> !IsDigit((fraction + exponent)[0])
  {
    assert fraction != "" ==> (fraction + exponent)[0] == fraction[0];
    assert fraction == "" ==> fraction + exponent == exponent;
  }

  lemma Cut(whole: string, fraction: string, exponent: string)
    ensures var token := whole + (fraction + exponent);
            token[|whole|..] == fraction + exponent && token[|whole| + |fraction|..] == exponent
  {
  }

  lemma OtherSpells(token: string, whole: string, n: int, fraction: string, exponent: string)
    requires IsOtherNumber(token, whole, n, fraction, exponent)
    ensures NumberLength(token) == |token| && IntegerLength(token) == |whole| < |token|
    ensures token[0] != '"' && KeywordLength(token) == 0
  {
    hide IntegerLength, FractionLength, ExponentLength, NumberLength, IsWhole, IsFraction, IsExponent;
    RestStarts(fraction, exponent);
    WholeThere(whole, n, fraction + exponent);
    FractionThere(fraction, exponent);
    ExponentThere(exponent);
    Cut(whole, fraction, exponent);
    NumberParts(token, |whole|, |fraction|, |exponent|);
  }

  lemma FractionFound(s: string)
    ensures IsFraction(s[..FractionLength(s)])
  {
    if |s| >= 2 && s[0] == '.' && IsDigit(s[1]) {
      var d := DigitsLength(s[1..]);
      assert s[1..][0] == s[1] && d > 0;
      assert s[..1 + d][1..] == s[1..][..d];
    }
  }

  lemma ExponentFound(s: string)
    ensures IsExponent(s[..ExponentLength(s)])
  {
    if s != "" && (s[0] == 'e' || s[0] == 'E') {
      var sign := if |s| > 1 && (s[1] == '+' || s[1] == '-') then 2 else 1;
      if |s| > sign && IsDigit(s[sign]) {
        var d := DigitsLength(s[sign..]);
        assert s[sign..][0] == s[sign] && d > 0;
        assert s[..sign + d][sign..] == s[sign..][..d];
      }
    }
  }

  lemma WholeFound(s: string)
    requires IntegerLength(s) > 0
    ensures IntegerLength(s[..IntegerLength(s)]) == IntegerLength(s)
  {
    var n := IntegerLength(s);
    IntegerLocal(s, s[..n], n);
  }

  lemma OtherFound(token: string) returns (whole: string, n: int, fraction: string, exponent: string)
    requires NumberLength(token) == |token| > IntegerLength(token)
    ensures IsOtherNumber(token, whole, n, fraction, exponent)
  {
    hide IntegerLength, FractionLength, ExponentLength, IntegerValue, IsWhole, IsFraction, IsExponent;
    var i := IntegerLength(token);
    var f := FractionLength(token[i..]);
    WholeFound(token);
    WholeSpelled(token[..i]);
    FractionFound(token[i..]);
    ExponentFound(token[i + f..]);
    whole, n, fraction, exponent := token[..i], IntegerValue(token[..i]), token[i..][..f], token[i + f..];
    assert token[i + f..][..|token| - i - f] == token[i + f..];
    assert token == token[..i] + (token[i..][..f] + token[i + f..]);
  }

  lemma WordLength(token: string)
    ensures token != "" && KeywordLength(token) == |token| <==> IsWord(token)
    ensures KeywordLength(token) > 0 ==> token[0] != '"'
  {
  }

  /** Any other token stands for itself: a word, or a number that is not whole. */
  lemma OtherMeans(token: string, kept: string)
    ensures Spells(token, JOther(kept)) <==>
              && kept == token
              && (IsWord(token) || exists whole, n, fraction, exponent :: IsOtherNumber(token, whole, n, fraction, exponent))
  {
    hide IntegerLength, NumberLength, KeywordLength, IntegerValue, IsOtherNumber, ScanString, IsWord;
    WordLength(token);
    assert token[..|token|] == token;
    if Spells(token, JOther(kept)) && KeywordLength(token) == 0 {
      var whole, n, fraction, exponent := OtherFound(token);
    }
    forall whole, n, fraction, exponent | IsOtherNumber(token, whole, n, fraction, exponent)
      ensures Spells(token, JOther(token))
    {
      OtherSpells(token, whole, n, fraction, exponent);
    }
  }
}

/** Decimal numerals and separator splitting, as the release tags use them. */
module Text {

  predicate IsDigit(c: char) {
    '0' <= c <= '9'
  }

  predicate AllDigits(s: string) {
    forall i | 0 <= i < |s| :: IsDigit(s[i])
  }

  lemma Capitals(c: char)
    ensures c in "ABCDEFGHIJKLMNOPQRSTUVWXYZ" <==> 'A' <= c <= 'Z'
  {
  }

  lemma SmallLetters(c: char)
    ensures c in "abcdefghijklmnopqrstuvwxyz" <==> 'a' <= c <= 'z'
  {
  }

  lemma DigitLetters(c: char)
    ensures c in "0123456789" <==> IsDigit(c)
  {
  }

  predicate IsHex(s: string, length: nat) {
    |s| == length && forall i | 0 <= i < |s| :: IsDigit(s[i]) || 'a' <= s[i] <= 'f'
  }

  /** The regular expression `[1-9]\d*`. */
  predicate IsPositiveNumeral(s: string) {
    |s| > 0 && s[0] != '0' && AllDigits(s)
  }

  /** The regular expression `0|[1-9]\d*`. */
  predicate IsNumeral(s: string) {
    s == "0" || IsPositiveNumeral(s)
  }

  function DigitChar(d: nat): char
    requires d < 10
  {
    ('0' as int + d) as char
  }

  function DigitValue(c: char): (d: nat)
    requires IsDigit(c)
    ensures d < 10 && DigitChar(d) == c
  {
    c as int - '0' as int
  }

  function Decimal(n: nat): (s: string)
    ensures IsNumeral(s)
    ensures n > 0 ==> IsPositiveNumeral(s)
  {
    if n < 10 then [DigitChar(n)] else Decimal(n / 10) + [DigitChar(n % 10)]
  }

  function ParseDecimal(s: string): nat
    requires AllDigits(s)
  {
    if s == "" then 0 else 10 * ParseDecimal(s[..|s| - 1]) + DigitValue(s[|s| - 1])
  }

  lemma {:induction false} ParseOfDecimal(n: nat)
    ensures AllDigits(Decimal(n)) && ParseDecimal(Decimal(n)) == n
  {
    if n >= 10 {
      ParseOfDecimal(n / 10);
      var s := Decimal(n);
      assert s[..|s| - 1] == Decimal(n / 10);
    } else {
      var s := Decimal(n);
      assert s[..|s| - 1] == "" && ParseDecimal(s[..|s| - 1]) == 0;
    }
  }

  /** The numerals are exactly the decimal texts of numbers. */
  lemma {:induction false} NumeralMeans(s: string)
    ensures IsNumeral(s) <==> exists n: nat :: s == Decimal(n)
    ensures IsNumeral(s) ==> AllDigits(s) && Decimal(ParseDecimal(s)) == s
  {
    if IsNumeral(s) {
      var front := s[..|s| - 1];
      if front == "" {
        OneDigit(s);
      } else {
        assert IsPositiveNumeral(front);
        NumeralMeans(front);
        NotZero(front);
        NextDigit(s);
      }
      assert s == Decimal(ParseDecimal(s));
    }
    hide Decimal, ParseDecimal, IsNumeral;
  }

  lemma OneDigit(s: string)
    requires |s| == 1 && AllDigits(s)
    ensures Decimal(ParseDecimal(s)) == s
  {
    assert s[..|s| - 1] == "" && ParseDecimal("") == 0;
    assert s == [DigitChar(DigitValue(s[0]))];
  }

  lemma NextDigit(s: string)
    requires |s| > 1 && AllDigits(s) && ParseDecimal(s[..|s| - 1]) > 0
    requires Decimal(ParseDecimal(s[..|s| - 1])) == s[..|s| - 1]
    ensures Decimal(ParseDecimal(s)) == s
  {
    hide Decimal, ParseDecimal;
    var q := ParseStep(s);
    DecimalNext(q, DigitValue(s[|s| - 1]));
    assert s == s[..|s| - 1] + [s[|s| - 1]];
  }

  lemma ParseStep(s: string) returns (q: nat)
    requires s != "" && AllDigits(s)
    ensures q == ParseDecimal(s[..|s| - 1]) && ParseDecimal(s) == 10 * q + DigitValue(s[|s| - 1])
  {
    q := ParseDecimal(s[..|s| - 1]);
  }

  lemma TenTimes(q: nat, d: nat)
    requires d < 10
    ensures (10 * q + d) / 10 == q && (10 * q + d) % 10 == d
  {
  }

  lemma DecimalNext(q: nat, d: nat)
    requires q > 0 && d < 10
    ensures Decimal(10 * q + d) == Decimal(q) + [DigitChar(d)]
  {
    TenTimes(q, d);
  }

  lemma NotZero(s: string)
    requires IsPositiveNumeral(s) && Decimal(ParseDecimal(s)) == s
    ensures ParseDecimal(s) > 0
  {
    assert Decimal(0) == "0";
  }

  lemma DecimalInjective(m: nat, n: nat)
    requires Decimal(m) == Decimal(n)
    ensures m == n
  {
    ParseOfDecimal(m);
    ParseOfDecimal(n);
  }

  /** The text with a token between two offsets. */
  function Splice(text: string, start: nat, end: nat, token: string): string
    requires start <= end <= |text|
  {
    text[..start] + token + text[end..]
  }

  /** Python's `s.startswith(pattern, i)`. */
  predicate StartsAt(s: string, i: nat, pattern: string) {
    i + |pattern| <= |s| && s[i..i + |pattern|] == pattern
  }

  /** The white space that Python's strip removes. */
  predicate IsWhite(c: char) {
    var code := c as int;
    9 <= code <= 13 || 28 <= code <= 32 || code in {0x85, 0xA0, 0x1680, 0x2028, 0x2029, 0x202F, 0x205F, 0x3000}
    || 0x2000 <= code <= 0x200A
  }

  predicate AllWhite(s: string) {
    forall k | 0 <= k < |s| :: IsWhite(s[k])
  }

  function WhiteLength(s: string): (n: nat)
    ensures n <= |s| && AllWhite(s[..n]) && (n < |s| ==> !IsWhite(s[n]))
  {
    if s == "" || !IsWhite(s[0]) then 0 else 1 + WhiteLength(s[1..])
  }

  function StripRight(s: string): (r: string)
    ensures r <= s && AllWhite(s[|r|..]) && (r != "" ==> !IsWhite(r[|r| - 1]))
  {
    if s != "" && IsWhite(s[|s| - 1]) then StripRight(s[..|s| - 1]) else s
  }

  /** Python's `s.strip()`: no white space is left at either end. */
  function Strip(s: string): (r: string)
    ensures r != "" ==> !IsWhite(r[0]) && !IsWhite(r[|r| - 1])
  {
    StripRight(s[WhiteLength(s)..])
  }

  /** Only white space goes, only from the ends, and none is left there. */
  predicate Trims(s: string, body: string) {
    && (exists from, to | 0 <= from <= to <= |s| :: body == s[from..to] && AllWhite(s[..from]) && AllWhite(s[to..]))
    && (body != "" ==> !IsWhite(body[0]) && !IsWhite(body[|body| - 1]))
  }

  lemma StripMeans(s: string)
    ensures Trims(s, Strip(s))
  {
    hide IsWhite;
    var n, r := WhiteLength(s), Strip(s);
    assert r == s[n..][..|r|] == s[n..n + |r|];
    assert s[n..][|r|..] == s[n + |r|..];
  }

  /** Python's `s.split(c)` for a one-character separator. */
  function Split(s: string, c: char): (parts: seq<string>)
    ensures |parts| > 0
    ensures forall i, j | 0 <= i < |parts| && 0 <= j < |parts[i]| :: parts[i][j] != c
  {
    if s == "" then [""]
    else
      var rest := Split(s[1..], c);
      if s[0] == c then [""] + rest else [[s[0]] + rest[0]] + rest[1..]
  }

  lemma SplitStep(s: string, c: char)
    requires s != ""
    ensures var rest := Split(s[1..], c);
            Split(s, c) == if s[0] == c then [""] + rest else [[s[0]] + rest[0]] + rest[1..]
  {
  }

  /** Every character but the separators stands in some part. */
  lemma {:induction false} SplitCovers(s: string, c: char, k: nat) returns (i: nat, j: nat)
    requires k < |s| && s[k] != c
    ensures i < |Split(s, c)| && j < |Split(s, c)[i]| && Split(s, c)[i][j] == s[k]
  {
    SplitStep(s, c);
    hide Split;
    if k == 0 {
      i, j := 0, 0;
    } else {
      var m, n := SplitCovers(s[1..], c, k - 1);
      if s[0] == c {
        i, j := m + 1, n;
      } else {
        i, j := m, if m == 0 then n + 1 else n;
      }
    }
  }

  /** A separator that occurs in neither head fixes where two equal concatenations divide. */
  lemma UniqueSplit(a: string, b: string, x: string, y: string, c: char)
    requires c !in a && c !in b
    requires a + [c] + x == b + [c] + y
    ensures a == b && x == y
  {
    var left, right := a + [c] + x, b + [c] + y;
    assert forall i | 0 <= i < |a| :: left[i] == a[i];
    assert forall i | 0 <= i < |b| :: right[i] == b[i];
    assert left[|a|] == c && right[|b|] == c;
    assert |a| == |b|;
    assert a == left[..|a|] && b == right[..|b|];
    assert x == left[|a| + 1..] && y == right[|b| + 1..];
  }

  /** The same from the back, for a separator that occurs in neither tail. */
  lemma UniqueLastSplit(a: string, b: string, x: string, y: string, c: char)
    requires c !in x && c !in y
    requires a + [c] + x == b + [c] + y
    ensures a == b && x == y
  {
    var left, right := a + [c] + x, b + [c] + y;
    assert forall i | 0 <= i < |x| :: left[|a| + 1 + i] == x[i];
    assert forall i | 0 <= i < |y| :: right[|b| + 1 + i] == y[i];
    assert left[|a|] == c && right[|b|] == c;
    assert |a| == |b|;
    assert a == left[..|a|] && b == right[..|b|];
    assert x == left[|a| + 1..] && y == right[|b| + 1..];
  }

  /** The lines of a text, each with its line break. */
  function Lines(text: string): (lines: seq<string>)
    ensures forall l | l in lines :: IsLine(l)
  {
    if text == "" then []
    else
      var n := LineLength(text);
      [text[..n]] + Lines(text[n..])
  }

  function LineLength(text: string): (n: nat)
    requires text != ""
    ensures 0 < n <= |text| && IsLine(text[..n]) && (n < |text| ==> text[n - 1] == '\n')
  {
    if text[0] == '\n' || |text| == 1 then 1 else 1 + LineLength(text[1..])
  }

  /** At most one line break, at the end. */
  predicate IsLine(l: string) {
    l != "" && forall k | 0 <= k < |l| - 1 :: l[k] != '\n'
  }

  predicate EndsLine(l: string) {
    l != "" && l[|l| - 1] == '\n'
  }

  function Join(parts: seq<string>): string {
    if parts == [] then "" else parts[0] + Join(parts[1..])
  }

  lemma {:induction false} LinesJoin(text: string)
    ensures Join(Lines(text)) == text
  {
    if text != "" {
      LinesJoin(text[LineLength(text)..]);
    }
  }

  lemma {:induction false} JoinAppend(a: seq<string>, b: seq<string>)
    ensures Join(a + b) == Join(a) + Join(b)
  {
    if a == [] {
      assert a + b == b;
    } else {
      assert (a + b)[1..] == a[1..] + b;
      JoinAppend(a[1..], b);
    }
  }

  /** Where a line stands: what is in front of it, and what it begins. */
  lemma LinePosition(text: string, i: nat)
    requires i <= |Lines(text)|
    ensures var at := |Join(Lines(text)[..i])|;
            at <= |text| && text[..at] == Join(Lines(text)[..i]) && text[at..] == Join(Lines(text)[i..])
  {
    var lines := Lines(text);
    assert lines == lines[..i] + lines[i..];
    JoinAppend(lines[..i], lines[i..]);
    LinesJoin(text);
  }

  lemma {:induction false} LinesEnd(text: string)
    ensures forall i | 0 <= i < |Lines(text)| - 1 :: EndsLine(Lines(text)[i])
  {
    if text != "" {
      var n := LineLength(text);
      LinesEnd(text[n..]);
      assert text[..n][n - 1] == text[n - 1];
    }
  }

  /** Lines of a text, joined, are found again. */
  lemma {:induction false} LinesOfLines(lines: seq<string>)
    requires (forall l | l in lines :: IsLine(l)) && forall i | 0 <= i < |lines| - 1 :: EndsLine(lines[i])
    ensures Lines(Join(lines)) == lines
  {
    if lines != [] {
      var first, rest := lines[0], lines[1..];
      assert forall i | 0 <= i < |rest| - 1 :: rest[i] == lines[i + 1];
      LinesOfLines(rest);
      LengthOfFirst(first, Join(rest));
      if rest != [] { assert EndsLine(lines[0]); }
      assert (first + Join(rest))[..|first|] == first && (first + Join(rest))[|first|..] == Join(rest);
      if rest == [] { assert Join(rest) == ""; }
    }
  }

  lemma {:induction false} LengthOfFirst(line: string, rest: string)
    requires IsLine(line) && (rest == "" || EndsLine(line))
    ensures LineLength(line + rest) == |line|
    decreases |line|
  {
    if |line| > 1 {
      assert (line + rest)[1..] == line[1..] + rest;
      assert line[0] != '\n';
      LengthOfFirst(line[1..], rest);
    }
  }
}

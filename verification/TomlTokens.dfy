/**
 * Which single-line scalars the TOML editor of scripts/version_plan.py recognises (_toml_assignment),
 * said by the pieces of their tokens.
 */
module TomlTokens {
  import opened Wrappers
  import opened Text
  import opened Json
  import TomlScan

  /** A character of a basic string, or a backslash and what it escapes; no line break stands in one. */
  ghost predicate IsUnit(unit: string) {
    || (|unit| == 1 && unit[0] !in {'"', '\\', '\r', '\n'})
    || (|unit| == 2 && unit[0] == '\\' && unit[1] != '\n')
  }

  /** The rest of a basic string: units, and its closing mark. */
  ghost predicate IsBasicRest(s: string, units: seq<string>) {
    s == Join(units) + ['"'] && forall i | 0 <= i < |units| :: IsUnit(units[i])
  }

  ghost predicate IsBasic(token: string) {
    token != "" && token[0] == '"' && exists units :: IsBasicRest(token[1..], units)
  }

  ghost predicate IsLiteral(token: string) {
    && |token| >= 2 && token[0] == '\'' && token[|token| - 1] == '\''
    && forall i | 0 < i < |token| - 1 :: token[i] !in {'\'', '\r', '\n'}
  }

  /** Digits and underlines behind a first digit, and perhaps a sign. */
  ghost predicate IsInteger(token: string) {
    var from := if token != "" && token[0] in {'+', '-'} then 1 else 0;
    && |token| > from && '0' <= token[from] <= '9'
    && forall i | from < i < |token| :: '0' <= token[i] <= '9' || token[i] == '_'
  }

  ghost predicate IsScalarToken(token: string) {
    IsBasic(token) || IsLiteral(token) || IsInteger(token)
  }

  lemma BasicStep(s: string, unit: string, rest: string, n: nat)
    requires IsUnit(unit) && s == unit + rest && n == TomlScan.BasicRest(rest)
    ensures TomlScan.BasicRest(s) == if n == 0 then 0 else |unit| + n
  {
    assert s[0] == unit[0] && (|unit| == 2 ==> s[1] == unit[1]);
    assert s[|unit|..] == rest;
  }

  lemma {:induction false} BasicFound(s: string) returns (units: seq<string>)
    requires TomlScan.BasicRest(s) > 0
    ensures IsBasicRest(s[..TomlScan.BasicRest(s)], units)
    decreases |s|
  {
    var n := TomlScan.BasicRest(s);
    if s[0] == '"' {
      units := [];
      assert Join(units) == "" && s[..n] == ['"'];
    } else {
      var size := if s[0] == '\\' then 2 else 1;
      var unit, rest := s[..size], s[size..];
      assert s == unit + rest && IsUnit(unit);
      var more := BasicFound(rest);
      units := [unit] + more;
      assert n == size + TomlScan.BasicRest(rest);
      hide IsUnit;
      assert units[1..] == more && s[..n] == unit + rest[..n - size];
      assert Join(units) + ['"'] == unit + (Join(more) + ['"']);
    }
  }

  lemma {:induction false} BasicThere(units: seq<string>, tail: string)
    requires forall i | 0 <= i < |units| :: IsUnit(units[i])
    ensures TomlScan.BasicRest((Join(units) + ['"']) + tail) == |Join(units)| + 1
    decreases |units|
  {
    var s := (Join(units) + ['"']) + tail;
    if units == [] {
      assert Join(units) == "" && s[0] == '"';
    } else {
      var rest := (Join(units[1..]) + ['"']) + tail;
      BasicThere(units[1..], tail);
      assert s == units[0] + rest;
      hide IsUnit, TomlScan.BasicRest;
      BasicStep(s, units[0], rest, |Join(units[1..])| + 1);
    }
  }

  lemma {:induction false} LiteralThere(text: string, tail: string)
    requires forall i | 0 <= i < |text| :: text[i] !in {'\'', '\r', '\n'}
    ensures TomlScan.LiteralRest((text + ['\'']) + tail) == |text| + 1
  {
    var s := (text + ['\'']) + tail;
    if text == "" {
      assert s[0] == '\'';
    } else {
      assert s[0] == text[0] && s[1..] == (text[1..] + ['\'']) + tail;
      LiteralThere(text[1..], tail);
    }
  }

  lemma {:induction false} LiteralFound(s: string)
    requires TomlScan.LiteralRest(s) > 0
    ensures var n := TomlScan.LiteralRest(s);
            s[n - 1] == '\'' && forall i | 0 <= i < n - 1 :: s[i] !in {'\'', '\r', '\n'}
  {
    if s[0] != '\'' {
      LiteralFound(s[1..]);
      assert forall i | 0 < i < |s| :: s[i] == s[1..][i - 1];
    }
  }

  lemma {:induction false} DigitsMean(s: string)
    ensures var n := TomlScan.DigitsLength(s);
            && (forall i | 0 <= i < n :: '0' <= s[i] <= '9' || s[i] == '_')
            && (n < |s| ==> !('0' <= s[n] <= '9' || s[n] == '_'))
  {
    if s != "" && (IsDigit(s[0]) || s[0] == '_') {
      DigitsMean(s[1..]);
      assert forall i | 0 < i < |s| :: s[i] == s[1..][i - 1];
    }
  }

  /** An integer goes on as far as it can. */
  ghost predicate IsWhole(s: string, n: nat) {
    n <= |s| && (IsInteger(s[..n]) && n < |s| ==> !('0' <= s[n] <= '9' || s[n] == '_'))
  }

  lemma BasicScalar(s: string, n: nat)
    requires 0 < n <= |s| && s[0] == '"'
    ensures TomlScan.ScalarLength(s) == n <==> IsBasic(s[..n])
  {
    hide TomlScan.BasicRest, IsBasicRest;
    var token := s[..n];
    assert token[0] == s[0];
    if TomlScan.ScalarLength(s) == n {
      var units := BasicFound(s[1..]);
      assert s[1..][..n - 1] == token[1..];
    }
    forall units | IsBasicRest(token[1..], units) ensures TomlScan.ScalarLength(s) == n {
      BasicSpelled(token[1..], units);
      BasicThere(units, s[n..]);
      assert s[1..] == token[1..] + s[n..];
    }
  }

  lemma BasicSpelled(s: string, units: seq<string>)
    requires IsBasicRest(s, units)
    ensures s == Join(units) + ['"'] && forall i | 0 <= i < |units| :: IsUnit(units[i])
  {
  }

  lemma LiteralScalar(s: string, n: nat)
    requires 0 < n <= |s| && s[0] == '\''
    ensures TomlScan.ScalarLength(s) == n <==> IsLiteral(s[..n])
  {
    hide TomlScan.LiteralRest;
    var token := s[..n];
    if TomlScan.ScalarLength(s) == n {
      LiteralFound(s[1..]);
      assert forall i | 0 < i < n :: token[i] == s[1..][i - 1];
    }
    if IsLiteral(token) {
      var text := token[1..n - 1];
      assert s[1..] == (text + ['\'']) + s[n..];
      LiteralThere(text, s[n..]);
    }
  }

  /** The characters of a cut-out stretch. */
  lemma Stretch(s: string, from: nat, n: nat)
    requires from <= n <= |s|
    ensures forall i | 0 <= i < n :: s[..n][i] == s[i]
    ensures forall i | from <= i < |s| :: s[from..][i - from] == s[i]
    ensures forall i | 0 <= i < |s| - from :: s[from..][i] == s[from + i]
  {
  }

  lemma DigitsEnd(s: string, from: nat, n: nat)
    requires from < n <= |s| && '0' <= s[from] <= '9'
    ensures TomlScan.DigitsLength(s[from..]) == n - from <==>
              && (forall i | from < i < n :: '0' <= s[i] <= '9' || s[i] == '_')
              && (n < |s| ==> !('0' <= s[n] <= '9' || s[n] == '_'))
  {
    hide TomlScan.DigitsLength;
    var d := TomlScan.DigitsLength(s[from..]);
    DigitsMean(s[from..]);
    Stretch(s, from, n);
    assert forall i | from <= i < from + d :: '0' <= s[i] <= '9' || s[i] == '_';
    assert from + d < |s| ==> !('0' <= s[from + d] <= '9' || s[from + d] == '_');
  }

  lemma IntegerScalar(s: string, n: nat)
    requires 0 < n <= |s| && s[0] != '"' && s[0] != '\''
    ensures TomlScan.ScalarLength(s) == n <==> IsInteger(s[..n]) && IsWhole(s, n)
  {
    hide TomlScan.DigitsLength;
    var from := if s[0] in {'+', '-'} then 1 else 0;
    IntegerAt(s, from, n);
    hide IsInteger;
    if from < n && '0' <= s[from] <= '9' {
      DigitsEnd(s, from, n);
    } else if from < |s| {
      DigitsMean(s[from..]);
    }
  }

  lemma IntegerAt(s: string, from: nat, n: nat)
    requires 0 < n <= |s| && from == if s[0] in {'+', '-'} then 1 else 0
    ensures IsInteger(s[..n]) <==>
              n > from && '0' <= s[from] <= '9' && forall i | from < i < n :: '0' <= s[i] <= '9' || s[i] == '_'
  {
    var token := s[..n];
    assert token[0] == s[0] && (n > from ==> token[from] == s[from]);
    assert forall i | from < i < n :: token[i] == s[i];
  }

  /** The scalar found at the start of a text is the one token of one of the three kinds that stands there. */
  lemma ScalarMeans(s: string, n: nat)
    requires 0 < n <= |s|
    ensures TomlScan.ScalarLength(s) == n <==> IsScalarToken(s[..n]) && IsWhole(s, n)
  {
    hide IsBasic, IsLiteral, IsInteger, IsWhole, TomlScan.ScalarLength;
    KindsDiffer(s, n);
    if s[0] == '"' {
      BasicScalar(s, n);
    } else if s[0] == '\'' {
      LiteralScalar(s, n);
    } else {
      IntegerScalar(s, n);
    }
  }

  lemma KindsDiffer(s: string, n: nat)
    requires 0 < n <= |s|
    ensures IsBasic(s[..n]) ==> s[0] == '"'
    ensures IsLiteral(s[..n]) ==> s[0] == '\''
    ensures IsInteger(s[..n]) ==> s[0] != '"' && s[0] != '\''
    ensures !IsInteger(s[..n]) ==> IsWhole(s, n)
  {
    hide IsBasicRest;
    assert s[..n][0] == s[0];
  }

  // ---- Headers and assignments -------------------------------------------------------------------

  /** Where a text begins behind its leading white space. */
  ghost predicate BeginsAt(s: string, w: nat) {
    w <= |s| && AllWhite(s[..w]) && (w < |s| ==> !IsWhite(s[w]))
  }

  lemma WhiteBefore(s: string, n: nat)
    requires n <= |s|
    ensures AllWhite(s[..n]) ==> forall i | 0 <= i < n :: IsWhite(s[i])
    ensures AllWhite(s[n..]) ==> forall i | n <= i < |s| :: IsWhite(s[i])
  {
    hide IsWhite;
    if AllWhite(s[..n]) { assert forall i | 0 <= i < n :: s[..n][i] == s[i]; }
    if AllWhite(s[n..]) { assert forall i | n <= i < |s| :: s[n..][i - n] == s[i]; }
  }

  lemma BeginMeans(s: string, w: nat)
    ensures BeginsAt(s, w) <==> w == WhiteLength(s)
  {
    hide WhiteLength, IsWhite;
    var n := WhiteLength(s);
    WhiteBefore(s, n);
    if BeginsAt(s, w) { WhiteBefore(s, w); }
  }

  /** Nothing but white space, up to a comment if there is one. */
  ghost predicate IsRest(s: string) {
    exists w: nat :: BeginsAt(s, w) && (w < |s| ==> s[w] == '#')
  }

  lemma RestMeans(s: string)
    ensures IsRest(s) <==> TomlScan.EndsValue(s)
    ensures IsRest(s) <==> Strip(s) == "" || Strip(s)[0] == '#'
  {
    hide IsWhite;
    var w := WhiteLength(s);
    BeginMeans(s, w);
    if IsRest(s) {
      var v: nat :| BeginsAt(s, v) && (v < |s| ==> s[v] == '#');
      BeginMeans(s, v);
    }
    var r := StripRight(s[w..]);
    WhiteBefore(s[w..], |r|);
    assert w < |s| ==> s[w..][0] == s[w];
  }

  /** A header in front of whose first closing bracket outside of strings the key stands, and the rest behind it. */
  ghost predicate IsHeader(line: string, isArray: bool, key: string, w: nat, k: nat) {
    && BeginsAt(line, w) && w < |line| && line[w] == '['
    && (isArray <==> w + 1 < |line| && line[w + 1] == '[')
    && var t, opening := line[w..], if isArray then 2 else 1;
    && TomlScan.FirstAt(t, opening, {']'}, k) && opening <= k && key == t[opening..k]
    && (isArray <==> k + 1 < |t| && t[k + 1] == ']')
    && IsRest(t[k + opening..])
  }

  lemma ClosingBrackets(t: string, k: nat)
    requires k < |t| && t[k] == ']'
    ensures StartsAt(t, k, "]]") <==> k + 1 < |t| && t[k + 1] == ']'
  {
    if k + 1 < |t| { assert t[k..k + 2] == [t[k], t[k + 1]]; }
  }

  lemma OpeningBrackets(t: string)
    requires t != "" && t[0] == '['
    ensures StartsAt(t, 0, "[[") <==> 1 < |t| && t[1] == '['
  {
    if 1 < |t| { assert t[0..2] == [t[0], t[1]]; }
  }

  lemma HeaderFound(line: string, w: nat, opening: nat)
    requires BeginsAt(line, w) && w < |line| && line[w] == '['
    requires opening == if w + 1 < |line| && line[w + 1] == '[' then 2 else 1
    ensures forall k: nat | TomlScan.FirstAt(line[w..], opening, {']'}, k) ::
              opening <= k < |line[w..]| && TomlScan.HeaderOf(line) == TomlScan.HeaderEnd(line[w..], opening, k)
    ensures (forall k: nat :: !TomlScan.FirstAt(line[w..], opening, {']'}, k)) ==> TomlScan.HeaderOf(line) == Ok(None)
  {
    hide TomlScan.FirstAt, TomlScan.FirstStop, WhiteLength, TomlScan.HeaderEnd;
    var t := line[w..];
    BeginMeans(line, w);
    hide BeginsAt;
    assert t[0] == line[w] && (1 < |t| ==> t[1] == line[w + 1]);
    OpeningBrackets(t);
    forall k: nat ensures TomlScan.FirstStop(t, opening, "", TomlScan.CLOSING) == Some(k) <==>
                            TomlScan.FirstAt(t, opening, {']'}, k)
    {
      TomlScan.FirstStopMeans(t, opening, TomlScan.CLOSING, k);
    }
  }

  lemma NoHeader(line: string)
    requires forall w: nat :: BeginsAt(line, w) ==> w >= |line| || line[w] != '['
    ensures TomlScan.HeaderOf(line) == Ok(None)
  {
    hide WhiteLength, BeginsAt, TomlScan.FirstStop;
    BeginMeans(line, WhiteLength(line));
  }

  lemma EndMeans(t: string, opening: nat, k: nat)
    requires opening <= k < |t| && t[k] == ']'
    ensures var closing := if k + 1 < |t| && t[k + 1] == ']' then 2 else 1;
            TomlScan.HeaderEnd(t, opening, k) ==
              if !IsRest(t[k + closing..]) then Ok(None)
              else if opening != closing then Err("Malformed TOML table header")
              else Ok(Some(TomlScan.Header(opening == 2, t[opening..k])))
  {
    hide Strip, IsRest;
    ClosingBrackets(t, k);
    RestMeans(t[k + if k + 1 < |t| && t[k + 1] == ']' then 2 else 1..]);
  }

  lemma FirstIsBracket(t: string, start: nat, k: nat)
    requires TomlScan.FirstAt(t, start, {']'}, k)
    ensures k < |t| && t[k] == ']'
  {
  }

  /** What a header line opens: a table, or with two brackets on both sides one more table of an array. */
  lemma HeaderMeans(line: string, isArray: bool, key: string)
    ensures TomlScan.HeaderOf(line) == Ok(Some(TomlScan.Header(isArray, key))) <==>
              exists w: nat, k: nat :: IsHeader(line, isArray, key, w, k)
  {
    hide TomlScan.FirstAt, IsRest, BeginsAt, TomlScan.HeaderOf, TomlScan.HeaderEnd;
    if forall w: nat :: BeginsAt(line, w) ==> w >= |line| || line[w] != '[' {
      NoHeader(line);
    }
    forall w: nat | BeginsAt(line, w) && w < |line| && line[w] == '['
      ensures TomlScan.HeaderOf(line) == Ok(Some(TomlScan.Header(isArray, key))) <==>
                exists k: nat :: IsHeader(line, isArray, key, w, k)
    {
      HeaderAt(line, isArray, key, w);
    }
    OneBegin(line);
  }

  lemma OneBegin(line: string)
    ensures forall v: nat, w: nat | BeginsAt(line, v) && BeginsAt(line, w) :: v == w
    ensures forall w: nat | BeginsAt(line, w) :: w <= |line|
  {
    forall w: nat | BeginsAt(line, w) ensures w == WhiteLength(line) { BeginMeans(line, w); }
    hide BeginsAt, WhiteLength;
  }

  lemma HeaderAt(line: string, isArray: bool, key: string, w: nat)
    requires BeginsAt(line, w) && w < |line| && line[w] == '['
    ensures TomlScan.HeaderOf(line) == Ok(Some(TomlScan.Header(isArray, key))) <==>
              exists k: nat :: IsHeader(line, isArray, key, w, k)
  {
    hide TomlScan.FirstAt, IsRest, BeginsAt, TomlScan.HeaderOf, TomlScan.HeaderEnd;
    var opening := if w + 1 < |line| && line[w + 1] == '[' then 2 else 1;
    HeaderFound(line, w, opening);
    forall k: nat | TomlScan.FirstAt(line[w..], opening, {']'}, k)
      ensures TomlScan.HeaderEnd(line[w..], opening, k) == Ok(Some(TomlScan.Header(isArray, key))) <==>
                IsHeader(line, isArray, key, w, k)
    {
      FirstIsBracket(line[w..], opening, k);
      EndMeans(line[w..], opening, k);
    }
  }

  /** A line of a header's form whose brackets do not match. */
  ghost predicate IsMalformed(line: string, w: nat, k: nat) {
    && BeginsAt(line, w) && w < |line| && line[w] == '['
    && var t, opening := line[w..], if w + 1 < |line| && line[w + 1] == '[' then 2 else 1;
    && TomlScan.FirstAt(t, opening, {']'}, k) && opening <= k
    && var closing := if k + 1 < |t| && t[k + 1] == ']' then 2 else 1;
    && opening != closing && k + closing <= |t| && IsRest(t[k + closing..])
  }

  lemma MalformedAt(line: string, w: nat)
    requires BeginsAt(line, w) && w < |line| && line[w] == '['
    ensures TomlScan.HeaderOf(line).Err? <==> exists k: nat :: IsMalformed(line, w, k)
  {
    hide TomlScan.FirstAt, IsRest, BeginsAt, TomlScan.HeaderOf, TomlScan.HeaderEnd;
    var opening := if w + 1 < |line| && line[w + 1] == '[' then 2 else 1;
    HeaderFound(line, w, opening);
    forall k: nat | TomlScan.FirstAt(line[w..], opening, {']'}, k)
      ensures TomlScan.HeaderEnd(line[w..], opening, k).Err? <==> IsMalformed(line, w, k)
    {
      FirstIsBracket(line[w..], opening, k);
      EndMeans(line[w..], opening, k);
    }
  }

  /** The search gives up at a header exactly when it has two brackets on one side and one on the other. */
  lemma MalformedMeans(line: string)
    ensures TomlScan.HeaderOf(line).Err? <==> exists w: nat, k: nat :: IsMalformed(line, w, k)
  {
    hide TomlScan.FirstAt, IsRest, BeginsAt, TomlScan.HeaderOf;
    if forall w: nat :: BeginsAt(line, w) ==> w >= |line| || line[w] != '[' {
      NoHeader(line);
    }
    forall w: nat | BeginsAt(line, w) && w < |line| && line[w] == '['
      ensures TomlScan.HeaderOf(line).Err? <==> exists k: nat :: IsMalformed(line, w, k)
    {
      MalformedAt(line, w);
    }
    OneBegin(line);
  }

  /** The scalar behind the equals sign, and nothing behind it but the rest. */
  ghost predicate IsValueAt(line: string, separator: nat, start: nat, end: nat) {
    && separator < start < end <= |line| && BeginsAt(line[separator + 1..], start - separator - 1)
    && IsScalarToken(line[start..end]) && IsWhole(line[start..], end - start) && IsRest(line[end..])
  }

  lemma ValueMeans(line: string, start: nat, end: nat)
    requires TomlScan.Separator(line).Some?
    ensures TomlScan.HasScalar(line) && TomlScan.ValueSpan(line) == TomlScan.Span(start, end) <==>
              IsValueAt(line, TomlScan.Separator(line).value, start, end)
  {
    hide TomlScan.ScalarLength, TomlScan.Separator, WhiteLength, IsScalarToken, IsWhole, IsRest, BeginsAt, TomlScan.EndsValue;
    var separator := TomlScan.Separator(line).value;
    if separator < start < end <= |line| {
      var behind := line[separator + 1..];
      BeginMeans(behind, start - separator - 1);
      ScalarMeans(line[start..], end - start);
      assert line[start..][..end - start] == line[start..end];
      RestMeans(line[end..]);
    }
  }

  /** The key of an assignment: what stands in front of the equals sign, without the white space around it. */
  lemma KeyMeans(line: string, key: string)
    ensures TomlScan.KeyText(line) == Some(key) <==>
              key != "" && exists k: nat :: TomlScan.SeparatesAt(line, k) && k <= |line| && Trims(line[..k], key)
  {
    hide TomlScan.SeparatesAt, TomlScan.Separator, Trims, Strip;
    TomlScan.SeparatorMeans(line);
    var separator := TomlScan.Separator(line);
    if separator.Some? {
      StripMeans(line[..separator.value]);
      forall k: nat | TomlScan.SeparatesAt(line, k) && k <= |line| && Trims(line[..k], key) && key != ""
        ensures TomlScan.KeyText(line) == Some(key)
      {
        OneTrim(line[..k], key, Strip(line[..k]));
      }
    }
  }

  lemma SameEnds(s: string, from: nat, to: nat, from': nat, to': nat)
    requires from < to <= |s| && from' <= to' <= |s| && !IsWhite(s[from]) && !IsWhite(s[to - 1])
    requires from' < to' ==> !IsWhite(s[from']) && !IsWhite(s[to' - 1])
    requires AllWhite(s[..from]) && AllWhite(s[to..]) && AllWhite(s[..from']) && AllWhite(s[to'..])
    ensures from == from' && to == to'
  {
    hide IsWhite;
    WhiteBefore(s, from);
    WhiteBefore(s, to);
    WhiteBefore(s, from');
    WhiteBefore(s, to');
    hide AllWhite;
  }

  lemma TrimParts(s: string, body: string) returns (from: nat, to: nat)
    requires Trims(s, body)
    ensures from <= to <= |s| && body == s[from..to] && AllWhite(s[..from]) && AllWhite(s[to..])
    ensures from < to ==> !IsWhite(s[from]) && !IsWhite(s[to - 1])
  {
    hide IsWhite, AllWhite;
    from, to :| 0 <= from <= to <= |s| && body == s[from..to] && AllWhite(s[..from]) && AllWhite(s[to..]);
    if from < to {
      assert body[0] == s[from] && body[|body| - 1] == s[to - 1];
    }
  }

  lemma OneTrim(s: string, a: string, b: string)
    requires Trims(s, a) && Trims(s, b) && a != ""
    ensures a == b
  {
    hide IsWhite, AllWhite, Trims;
    var from, to := TrimParts(s, a);
    var from', to' := TrimParts(s, b);
    SameEnds(s, from, to, from', to');
  }
}

/** What replacing the value of one TOML assignment does to the text and to the search for that value. */
module TomlSplice {
  import opened Wrappers
  import opened Text
  import opened Toml
  import opened TomlScan

  // ---- Scalars ---------------------------------------------------------------------------------------

  /** The text is one single-line scalar. */
  predicate IsScalar(token: string) {
    0 < ScalarLength(token) == |token|
  }

  /** What may follow a scalar that ends where it does. */
  predicate Ends(suffix: string) {
    suffix == "" || IsWhite(suffix[0]) || suffix[0] == '#'
  }

  lemma {:induction false} BasicLocal(s: string, t: string, n: nat)
    requires 0 < n == BasicRest(s) && n <= |t| && s[..n] == t[..n]
    ensures BasicRest(t) == n
    decreases |s|
  {
    assert s[0] == s[..n][0] == t[..n][0] == t[0];
    if s[0] != '"' {
      var unit := if s[0] == '\\' then 2 else 1;
      if unit == 2 { assert s[1] == s[..n][1] == t[..n][1] == t[1]; }
      assert s[unit..][..n - unit] == s[..n][unit..] && t[unit..][..n - unit] == t[..n][unit..];
      BasicLocal(s[unit..], t[unit..], n - unit);
    }
  }

  lemma {:induction false} LiteralLocal(s: string, t: string, n: nat)
    requires 0 < n == LiteralRest(s) && n <= |t| && s[..n] == t[..n]
    ensures LiteralRest(t) == n
    decreases |s|
  {
    assert s[0] == s[..n][0] == t[..n][0] == t[0];
    if s[0] != '\'' {
      assert s[1..][..n - 1] == s[..n][1..] && t[1..][..n - 1] == t[..n][1..];
      LiteralLocal(s[1..], t[1..], n - 1);
    }
  }

  lemma {:induction false} DigitsLocal(s: string, t: string, n: nat)
    requires n == DigitsLength(s) && n <= |t| && s[..n] == t[..n]
    requires n < |t| ==> !IsDigit(t[n]) && t[n] != '_'
    ensures DigitsLength(t) == n
    decreases n
  {
    if n > 0 {
      assert s[0] == s[..n][0] == t[..n][0] == t[0];
      assert s[1..][..n - 1] == s[..n][1..] && t[1..][..n - 1] == t[..n][1..];
      DigitsLocal(s[1..], t[1..], n - 1);
    }
  }

  /** A scalar is found again in front of anything that lets it end there. */
  lemma ScalarLocal(s: string, t: string, n: nat)
    requires 0 < n == ScalarLength(s) && n <= |t| && s[..n] == t[..n] && Ends(t[n..])
    ensures ScalarLength(t) == n
  {
    assert s[0] == s[..n][0] == t[..n][0] == t[0];
    if s[0] == '"' {
      assert s[1..][..n - 1] == s[..n][1..] && t[1..][..n - 1] == t[..n][1..];
      BasicLocal(s[1..], t[1..], n - 1);
    } else if s[0] == '\'' {
      assert s[1..][..n - 1] == s[..n][1..] && t[1..][..n - 1] == t[..n][1..];
      LiteralLocal(s[1..], t[1..], n - 1);
    } else {
      var sign := if s[0] == '+' || s[0] == '-' then 1 else 0;
      assert s[sign] == s[..n][sign] == t[..n][sign] == t[sign];
      assert s[sign..][..n - sign] == s[..n][sign..] && t[sign..][..n - sign] == t[..n][sign..];
      assert n < |t| ==> t[sign..][n - sign] == t[n] == t[n..][0];
      DigitsLocal(s[sign..], t[sign..], n - sign);
    }
  }

  lemma ScalarBehind(front: string, token: string, suffix: string)
    requires IsScalar(token) && Ends(suffix)
    ensures var line := front + token + suffix; line[|front|..] == token + suffix && ScalarLength(line[|front|..]) == |token|
  {
    assert (front + token + suffix)[|front|..] == token + suffix;
    assert (token + suffix)[..|token|] == token[..|token|] && (token + suffix)[|token|..] == suffix;
    ScalarLocal(token, token + suffix, |token|);
  }

  lemma ScalarCut(s: string, n: nat)
    requires 0 < n == ScalarLength(s)
    ensures IsScalar(s[..n])
  {
    assert s[..n][..n] == s[..n] && s[..n][n..] == "";
    ScalarLocal(s, s[..n], n);
  }

  // ---- The lexical state over an assignment --------------------------------------------------------------

  /** A character that opens and closes nothing. */
  predicate IsNeutral(c: char) {
    !IsMark(c) && c != '#' && Nesting(c) == 0
  }

  lemma {:induction false} LexNeutral(s: string, i: nat, j: nat, depth: int, grammar: bool := false)
    requires i <= j <= |s| && forall k | i <= k < j :: IsNeutral(s[k])
    ensures LexLine(s, i, "", depth, grammar) == LexLine(s, j, "", depth, grammar)
    decreases j - i
  {
    hide Opening, IsMark;
    if i < j {
      NotQuoted(s, i);
      LexNeutral(s, i + 1, j, depth, grammar);
    }
  }

  lemma BasicTurn(s: string, i: nat, n: nat)
    requires i <= |s| && BasicRest(s[i..]) == n > 0
    ensures i < |s| && (s[i] == '"' ==> n == 1)
    ensures s[i] == '\\' ==> i + 2 <= |s| && n > 2 && BasicRest(s[i + 2..]) == n - 2
    ensures s[i] != '"' && s[i] != '\\' ==> n > 1 && BasicRest(s[i + 1..]) == n - 1
  {
    assert s[i..][0] == s[i];
    var unit := if s[i] == '\\' then 2 else 1;
    if i + unit <= |s| { assert s[i..][unit..] == s[i + unit..]; }
  }

  lemma {:induction false} LexBasic(s: string, i: nat, n: nat, depth: int, grammar: bool := false)
    requires i <= |s| && BasicRest(s[i..]) == n > 0
    ensures LexLine(s, i, BASIC, depth, grammar) == LexLine(s, i + n, "", depth, grammar)
    decreases n
  {
    hide LexLine, BasicRest;
    BasicTurn(s, i, n);
    LexBasicTurn(s, i, depth, grammar);
    if s[i] == '\\' {
      LexBasic(s, i + 2, n - 2, depth, grammar);
    } else if s[i] != '"' {
      LexBasic(s, i + 1, n - 1, depth, grammar);
    }
  }

  lemma LexBasicTurn(s: string, i: nat, depth: int, grammar: bool := false)
    requires i < |s|
    ensures LexLine(s, i, BASIC, depth, grammar) ==
              if s[i] == '\\' then LexLine(s, i + 2, BASIC, depth, grammar)
              else LexLine(s, i + 1, if s[i] == '"' then "" else BASIC, depth, grammar)
  {
    OneMarkStep(s, i, '"', grammar);
    QuotedTurn(s, i, BASIC, depth, grammar);
    hide QuoteStep, LexLine;
  }

  lemma {:induction false} LexLiteral(s: string, i: nat, depth: int, grammar: bool := false)
    requires i <= |s| && LiteralRest(s[i..]) > 0
    ensures LexLine(s, i, LITERAL, depth, grammar) == LexLine(s, i + LiteralRest(s[i..]), "", depth, grammar)
    decreases |s| - i
  {
    hide QuoteStep, LexLine;
    assert s[i..][0] == s[i];
    OneMarkStep(s, i, '\'', grammar);
    QuotedTurn(s, i, LITERAL, depth, grammar);
    if s[i] != '\'' {
      assert s[i..][1..] == s[i + 1..];
      LexLiteral(s, i + 1, depth, grammar);
    }
  }

  lemma {:induction false} DigitsAreNeutral(s: string)
    ensures forall k | 0 <= k < DigitsLength(s) :: IsNeutral(s[k])
  {
    if s != "" && (IsDigit(s[0]) || s[0] == '_') { DigitsAreNeutral(s[1..]); }
  }

  /** A scalar that may end where it does leaves the state as it is. */
  lemma LexScalar(s: string, i: nat, depth: int, grammar: bool := false)
    requires i <= |s| && ScalarLength(s[i..]) > 0 && Ends(s[i + ScalarLength(s[i..])..])
    ensures LexLine(s, i, "", depth, grammar) == LexLine(s, i + ScalarLength(s[i..]), "", depth, grammar)
  {
    hide LexLine, IsNeutral, Ends;
    assert s[i..][0] == s[i];
    if IsMark(s[i]) {
      NoTriple(s, i);
      StringStarts(s, i, depth, grammar);
      assert s[i..][1..] == s[i + 1..];
      hide BasicRest, LiteralRest;
      if s[i] == '"' { LexBasic(s, i + 1, BasicRest(s[i + 1..]), depth, grammar); } else { LexLiteral(s, i + 1, depth, grammar); }
    } else {
      NumberIsNeutral(s, i);
      hide ScalarLength;
      LexNeutral(s, i, i + ScalarLength(s[i..]), depth, grammar);
    }
  }

  lemma StringStarts(s: string, i: nat, depth: int, grammar: bool := false)
    requires i < |s| && IsMark(s[i]) && !Triple(s, i, s[i])
    ensures LexLine(s, i, "", depth, grammar) == LexLine(s, i + 1, Mark(s[i]), depth, grammar)
  {
    OneMark(s, i, s[i]);
    hide Opening;
    PlainTurn(s, i, depth, grammar);
  }

  lemma NumberIsNeutral(s: string, i: nat)
    requires i < |s| && !IsMark(s[i]) && ScalarLength(s[i..]) > 0
    ensures forall k | i <= k < i + ScalarLength(s[i..]) :: IsNeutral(s[k])
  {
    var n := ScalarLength(s[i..]);
    assert s[i..][0] == s[i];
    var sign := if s[i] == '+' || s[i] == '-' then 1 else 0;
    assert s[i..][sign..] == s[i + sign..];
    DigitsAreNeutral(s[i + sign..]);
    forall k | i <= k < i + n ensures IsNeutral(s[k]) {
      if k >= i + sign { assert s[k] == s[i + sign..][k - i - sign]; }
    }
  }

  /** A single-line scalar does not begin with three marks. */
  lemma NoTriple(s: string, i: nat)
    requires i < |s| && ScalarLength(s[i..]) > 0 && Ends(s[i + ScalarLength(s[i..])..])
    ensures !Triple(s, i, '"') && !Triple(s, i, '\'')
  {
    TripleIsEmpty(s, i);
    EndsNoMark(s, i + 2);
    hide ScalarLength, Ends;
  }

  lemma TripleIsEmpty(s: string, i: nat)
    requires i < |s|
    ensures Triple(s, i, '"') || Triple(s, i, '\'') ==> ScalarLength(s[i..]) == 2
  {
    if i + 1 < |s| { assert s[i..][1..][0] == s[i + 1]; }
  }

  lemma EndsNoMark(s: string, k: nat)
    ensures k < |s| && Ends(s[k..]) ==> !IsMark(s[k])
  {
    if k < |s| { assert s[k..][0] == s[k]; }
  }

  // ---- The lexical state over a key -----------------------------------------------------------------------

  /**
   * What a reader of keys is relied on for: of the texts in front of a line's equals sign it accepts none that
   * leaves strings, brackets or a comment open.
   */
  ghost predicate ReadsKeys(keyOf: string -> Option<Path>, grammar: bool := false) {
    forall line | KeyText(line).Some? && keyOf(KeyText(line).value).Some? :: IsKey(KeyText(line).value, grammar)
  }

  predicate IsKey(key: string, grammar: bool := false) {
    Scan(key, START, grammar) == Lex(|key|, "", 0, false) && (key != "" ==> key[0] != '[')
  }

  lemma {:induction false} CommentStays(s: string, x: Lex, grammar: bool := false)
    requires '\n' !in s && x.comment
    ensures Scan(s, x, grammar).comment
    decreases |s| - x.index
  {
    if x.index < |s| { CommentStays(s, Step(s, x, grammar), grammar); }
  }

  /** Only a mark can carry a quote over the end of a text. */
  lemma MarksInside(key: string, rest: string, i: nat)
    requires i < |key| && (rest != "" ==> !IsMark(rest[0]))
    ensures Opening(key + rest, i) == Opening(key, i)
    ensures forall quote: Quote | quote != "" :: StartsAt(key + rest, i, quote) == StartsAt(key, i, quote)
  {
    var all := key + rest;
    forall k | i <= k < |all| ensures all[k] == if k < |key| then key[k] else rest[k - |key|] {}
    QuoteStands(all, i, '"');
    QuoteStands(key, i, '"');
    QuoteStands(all, i, '\'');
    QuoteStands(key, i, '\'');
  }

  /** A scan of a text alone is the scan of its line up to where the text ends. */
  lemma {:induction false} ScanThenLex(key: string, rest: string, x: Lex, depth: int, grammar: bool := false)
    requires '\n' !in key && (rest != "" ==> !IsMark(rest[0])) && !x.comment
    requires var end := Scan(key, x, grammar); end.index == |key| && end.quote == "" && !end.comment
    ensures LexLine(key + rest, x.index, x.quote, depth + x.depth, grammar)
         == LexLine(key + rest, |key|, "", depth + Scan(key, x, grammar).depth, grammar)
    decreases |key| - x.index
  {
    hide LexLine, Opening, QuoteStep, StartsAt;
    if x.index < |key| {
      var y := Step(key, x, grammar);
      assert (key + rest)[x.index] == key[x.index];
      MarksInside(key, rest, x.index);
      if x.quote != "" {
        QuotedTurn(key + rest, x.index, x.quote, depth + x.depth, grammar);
        SameStep(key, rest, x, grammar);
        ScanThenLex(key, rest, y, depth, grammar);
      } else {
        StepPlain(key, x, grammar);
        if key[x.index] == '#' {
          CommentStays(key, y, grammar);
        } else {
          PlainTurn(key + rest, x.index, depth + x.depth, grammar);
          ScanThenLex(key, rest, y, depth, grammar);
        }
      }
    }
  }

  lemma SameStep(key: string, rest: string, x: Lex, grammar: bool := false)
    requires x.index < |key| && !x.comment && x.quote != "" && (rest != "" ==> !IsMark(rest[0]))
    ensures var (next, after) := QuoteStep(key + rest, x.index, x.quote, grammar);
            Step(key, x, grammar) == Lex(next, after, x.depth, false)
  {
    assert (key + rest)[x.index] == key[x.index];
    MarksInside(key, rest, x.index);
    QuoteIsMark(x.quote);
    RunInFront(key, rest, x.index, x.quote[0]);
    hide StartsAt, RunLength;
  }

  lemma {:induction false} RunInFront(key: string, rest: string, i: nat, c: char)
    requires i <= |key| && (rest != "" ==> rest[0] != c)
    ensures RunLength(key + rest, i, c) == RunLength(key, i, c)
    decreases |key| - i
  {
    if i < |key| {
      assert (key + rest)[i] == key[i];
      RunInFront(key, rest, i + 1, c);
    }
  }

  lemma {:induction false} LexShift(front: string, s: string, i: nat, quote: Quote, depth: int, grammar: bool := false)
    ensures LexLine(front + s, |front| + i, quote, depth, grammar) == LexLine(s, i, quote, depth, grammar)
    decreases |s| - i
  {
    hide LexLine, Opening, QuoteStep;
    var all := front + s;
    if i >= |s| {
      LexEnds(s, i, quote, depth);
      LexEnds(all, |front| + i, quote, depth);
    } else {
      assert all[|front| + i] == s[i];
      OpeningShifts(front, s, i);
      if quote != "" {
        QuotedTurn(s, i, quote, depth, grammar);
        QuotedTurn(all, |front| + i, quote, depth, grammar);
        StepShift(front, s, i, quote, grammar);
        QuoteAdvances(s, i, quote, grammar);
        var (next, after) := QuoteStep(s, i, quote, grammar);
        LexShift(front, s, next, after, depth, grammar);
      } else if s[i] == '#' {
        CommentTurn(s, i, depth, grammar);
        CommentTurn(all, |front| + i, depth, grammar);
      } else {
        PlainTurn(s, i, depth, grammar);
        PlainTurn(all, |front| + i, depth, grammar);
        if Opening(s, i) != "" {
          LexShift(front, s, i + |Opening(s, i)|, Opening(s, i), depth, grammar);
        } else {
          LexShift(front, s, i + 1, "", depth + Nesting(s[i]), grammar);
        }
      }
    }
  }

  lemma MarksShift(front: string, s: string, i: nat, c: char)
    requires i < |s| && IsMark(c)
    ensures (front + s)[|front| + i] == s[i] && Triple(front + s, |front| + i, c) == Triple(s, i, c)
  {
  }

  lemma OpeningIs(s: string, i: nat)
    requires i < |s|
    ensures Opening(s, i) == if Triple(s, i, '"') then LONG_BASIC else if Triple(s, i, '\'') then LONG_LITERAL
                             else if IsMark(s[i]) then Mark(s[i]) else ""
  {
    QuoteStands(s, i, '"');
    QuoteStands(s, i, '\'');
    hide StartsAt, Triple;
  }

  lemma OpeningShifts(front: string, s: string, i: nat)
    requires i < |s|
    ensures Opening(front + s, |front| + i) == Opening(s, i)
  {
    MarksShift(front, s, i, '"');
    MarksShift(front, s, i, '\'');
    hide StartsAt, Triple, Opening;
    OpeningIs(front + s, |front| + i);
    OpeningIs(s, i);
  }

  lemma StepShift(front: string, s: string, i: nat, quote: Quote, grammar: bool := false)
    requires i < |s| && quote != ""
    ensures var (next, after) := QuoteStep(s, i, quote, grammar);
            QuoteStep(front + s, |front| + i, quote, grammar) == (|front| + next, after)
  {
    QuoteIsMark(quote);
    MarksShift(front, s, i, quote[0]);
    QuoteStands(front + s, |front| + i, quote[0]);
    QuoteStands(s, i, quote[0]);
    RunShifts(front, s, i, quote[0]);
    hide StartsAt, Triple, RunLength;
  }

  lemma {:induction false} RunShifts(front: string, s: string, i: nat, c: char)
    requires i <= |s|
    ensures RunLength(front + s, |front| + i, c) == RunLength(s, i, c)
    decreases |s| - i
  {
    if i < |s| {
      assert (front + s)[|front| + i] == s[i];
      RunShifts(front, s, i + 1, c);
    }
  }

  lemma WhiteIsNeutral(c: char)
    ensures IsWhite(c) || c == '=' ==> IsNeutral(c)
  {
  }

  // ---- An assignment line ---------------------------------------------------------------------------------

  lemma WhiteAt(s: string, n: nat)
    requires n <= |s| && AllWhite(s[..n]) && (n < |s| ==> !IsWhite(s[n]))
    ensures WhiteLength(s) == n
  {
    hide IsWhite;
    var m := WhiteLength(s);
    forall i | 0 <= i < n ensures IsWhite(s[i]) { assert s[..n][i] == s[i]; }
    forall i | 0 <= i < m ensures IsWhite(s[i]) { assert s[..m][i] == s[i]; }
  }

  lemma StripAt(s: string)
    ensures var w, key := WhiteLength(s), Strip(s);
            && w + |key| <= |s| && s[w..w + |key|] == key
            && (forall i | 0 <= i < w || w + |key| <= i < |s| :: IsWhite(s[i]))
  {
    hide IsWhite, WhiteLength, StripRight;
    var w, key := WhiteLength(s), Strip(s);
    var t := s[w..];
    assert key == StripRight(t) && key == t[..|key|];
    StrippedEnds(s, w, key);
  }

  lemma StrippedEnds(s: string, w: nat, key: string)
    requires w + |key| <= |s| && AllWhite(s[..w]) && AllWhite(s[w..][|key|..])
    ensures forall i | 0 <= i < w || w + |key| <= i < |s| :: IsWhite(s[i])
  {
    hide IsWhite;
    forall i | w + |key| <= i < |s| ensures IsWhite(s[i]) { assert s[w..][|key|..][i - w - |key|] == s[i]; }
    forall i | 0 <= i < w ensures IsWhite(s[i]) { assert s[..w][i] == s[i]; }
  }

  /** Where the key of an assignment stands. */
  lemma KeyStands(line: string)
    requires KeyText(line).Some?
    ensures var k, w, key := Separator(line).value, WhiteLength(line), KeyText(line).value;
            && key != "" && w + |key| <= k && line[w..w + |key|] == key && line[w] == key[0]
            && (forall i | 0 <= i < w || w + |key| <= i < k :: IsWhite(line[i]))
  {
    hide IsWhite, FirstStop, Strip, WhiteLength;
    var k := Separator(line).value;
    var front := line[..k];
    var w, key := WhiteLength(front), Strip(front);
    StripAt(front);
    assert line[w..w + |key|] == front[w..w + |key|];
    assert front[w..w + |key|][0] == front[w];
    assert line[..w] == front[..w];
    WhiteAt(line, w);
    forall i | 0 <= i < w || w + |key| <= i < k ensures IsWhite(line[i]) { assert line[i] == front[i]; }
  }

  lemma EndsValueEnds(suffix: string)
    requires EndsValue(suffix)
    ensures Ends(suffix)
  {
    if suffix != "" && WhiteLength(suffix) > 0 { assert suffix[..WhiteLength(suffix)][0] == suffix[0]; }
  }

  /** A line that assigns a scalar to a key is no header. */
  lemma AssignmentIsNoHeader(line: string)
    requires KeyText(line).Some? && IsKey(KeyText(line).value)
    ensures HeaderOf(line) == Ok(None)
  {
    KeyStands(line);
    hide FirstStop, HeaderEnd, KeyText;
    assert line[WhiteLength(line)..][0] == line[WhiteLength(line)];
  }

  /** Behind the value of an assignment, white space and a comment leave the state as it is. */
  lemma LexSuffix(line: string, end: nat, depth: int, grammar: bool := false)
    requires end <= |line| && EndsValue(line[end..])
    ensures LexLine(line, end, "", depth, grammar) == ("", depth)
  {
    var n := WhiteLength(line[end..]);
    forall k | end <= k < end + n ensures IsNeutral(line[k]) {
      assert line[end..][..n][k - end] == line[k];
      WhiteIsNeutral(line[k]);
    }
    LexNeutral(line, end, end + n, depth, grammar);
    if end + n < |line| { assert line[end..][n..][0] == line[end + n]; }
    hide LexLine;
    LexEnds(line, end + n, "", depth);
  }

  /** The parts of a line in front of its value: white space, key, and what separates it from the value. */
  lemma KeyParts(line: string) returns (w: nat, e: nat, start: nat)
    requires KeyText(line).Some? && IsLine(line)
    ensures Separator(line).Some? && start == ValueSpan(line).start && w <= e < start <= |line|
    ensures line[w..e] == KeyText(line).value && '\n' !in line[w..e] && !IsMark(line[e])
    ensures forall i | 0 <= i < w || e <= i < start :: IsNeutral(line[i])
  {
    hide IsWhite, FirstStop, ScalarLength, Strip;
    KeyStands(line);
    w := WhiteLength(line);
    e, start := w + |KeyText(line).value|, ValueSpan(line).start;
    KeyIsOneLine(line, w, KeyText(line).value);
    NeutralAround(line, w, e);
  }

  /** From the start of a line to where its value begins. */
  lemma LexToValue(line: string, depth: int, grammar: bool := false)
    requires KeyText(line).Some? && IsKey(KeyText(line).value, grammar) && IsLine(line)
    ensures Separator(line).Some?
    ensures LexLine(line, 0, "", depth, grammar) == LexLine(line, ValueSpan(line).start, "", depth, grammar)
  {
    hide LexLine, IsNeutral, KeyText, IsKey, IsLine, ValueSpan, Separator;
    var w, e, start := KeyParts(line);
    LexNeutral(line, 0, w, depth, grammar);
    assert line == line[..w] + (line[w..e] + line[e..]);
    LexOverKey(line[..w], line[w..e], line[e..], depth, grammar);
    LexNeutral(line, e, start, depth, grammar);
  }

  lemma KeyIsOneLine(line: string, w: nat, key: string)
    requires IsLine(line) && w + |key| < |line| && line[w..w + |key|] == key
    ensures '\n' !in key
  {
    forall i | 0 <= i < |key| ensures key[i] != '\n' { assert key[i] == line[w + i]; }
  }

  lemma LexOverKey(left: string, key: string, rest: string, depth: int, grammar: bool := false)
    requires IsKey(key, grammar) && '\n' !in key && (rest != "" ==> !IsMark(rest[0]))
    ensures LexLine(left + (key + rest), |left|, "", depth, grammar)
         == LexLine(left + (key + rest), |left| + |key|, "", depth, grammar)
  {
    hide LexLine, Scan;
    LexShift(left, key + rest, 0, "", depth, grammar);
    ScanThenLex(key, rest, START, depth, grammar);
    LexShift(left, key + rest, |key|, "", depth, grammar);
  }

  lemma ValueGap(line: string)
    requires Separator(line).Some?
    ensures var k, start := Separator(line).value, ValueSpan(line).start;
            k < start <= |line| && line[k] == '=' && forall i | k < i < start :: IsWhite(line[i])
  {
    hide IsWhite, FirstStop, ScalarLength;
    var k := Separator(line).value;
    var rest, n := line[k + 1..], WhiteLength(line[k + 1..]);
    forall i | k < i < k + 1 + n ensures IsWhite(line[i]) {
      assert rest[..n][i - k - 1] == line[i];
    }
  }

  lemma KeyGap(line: string, w: nat, e: nat)
    requires KeyText(line).Some? && w == WhiteLength(line) && e == w + |KeyText(line).value|
    ensures Separator(line).Some?
    ensures var k := Separator(line).value;
            w < e <= k && forall i | 0 <= i < w || e <= i < k :: IsWhite(line[i])
  {
    hide IsWhite, FirstStop, Strip, WhiteLength;
    KeyStands(line);
  }

  lemma NeutralAround(line: string, w: nat, e: nat)
    requires KeyText(line).Some? && w == WhiteLength(line) && e == w + |KeyText(line).value|
    ensures Separator(line).Some?
    ensures e <= Separator(line).value < ValueSpan(line).start
    ensures forall i | 0 <= i < w || e <= i < ValueSpan(line).start :: IsNeutral(line[i])
    ensures !IsMark(line[e])
  {
    hide IsWhite, IsNeutral, KeyText, Separator, ValueSpan, WhiteLength;
    KeyGap(line, w, e);
    ValueGap(line);
    forall i | 0 <= i < w || e <= i < ValueSpan(line).start ensures IsNeutral(line[i]) {
      WhiteIsNeutral(line[i]);
    }
    NeutralIsNoMark(line[e]);
  }

  lemma NeutralIsNoMark(c: char)
    ensures IsNeutral(c) ==> !IsMark(c)
  {
  }

  /** A line that assigns a single-line scalar leaves the lexical state as it is. */
  lemma AssignmentLexes(line: string, depth: int, grammar: bool := false)
    requires KeyText(line).Some? && IsKey(KeyText(line).value, grammar) && IsLine(line) && HasScalar(line)
    ensures LexLine(line, 0, "", depth, grammar) == ("", depth)
  {
    hide LexLine, FirstStop, ScalarLength, Ends, EndsValue, IsKey, IsLine, Strip;
    var span := ValueSpan(line);
    LexToValue(line, depth, grammar);
    EndsValueEnds(line[span.end..]);
    LexScalar(line, span.start, depth, grammar);
    LexSuffix(line, span.end, depth, grammar);
  }

  // ---- Its value replaced -----------------------------------------------------------------------------------

  /** A line with another value. */
  function Revalued(line: string, token: string): string
    requires Separator(line).Some?
  {
    line[..ValueSpan(line).start] + token + line[ValueSpan(line).end..]
  }

  /** A scan stops at the same place in any line that is the same up to there. */
  lemma {:induction false} StopStays(line: string, other: string, index: nat, quote: Quote, stops: set<char>, k: nat)
    requires FirstStop(line, index, quote, stops) == Some(k) && |quote| <= 1
    requires k < |other| && forall i | 0 <= i <= k :: line[i] == other[i]
    ensures FirstStop(other, index, quote, stops) == Some(k)
    decreases |line| - index
  {
    hide QuoteStep;
    if quote != "" {
      QuoteIsMark(quote);
      OneMarkStep(line, index, quote[0]);
      OneMarkStep(other, index, quote[0]);
      var (next, after) := QuoteStep(line, index, quote, false);
      QuoteAdvances(line, index, quote, false);
      StopStays(line, other, next, after, stops, k);
    } else if IsMark(line[index]) {
      StopStays(line, other, index + 1, Mark(line[index]), stops, k);
    } else if line[index] !in stops {
      StopStays(line, other, index + 1, "", stops, k);
    }
  }

  lemma {:induction false} BasicHasNoBreak(s: string)
    ensures forall k | 0 <= k < BasicRest(s) :: s[k] != '\n'
    decreases |s|
  {
    if BasicRest(s) > 0 && s[0] != '"' {
      var unit := if s[0] == '\\' then 2 else 1;
      BasicHasNoBreak(s[unit..]);
      forall k | 0 <= k < BasicRest(s) ensures s[k] != '\n' {
        if k >= unit { assert s[k] == s[unit..][k - unit]; }
      }
    }
  }

  lemma {:induction false} LiteralHasNoBreak(s: string)
    ensures forall k | 0 <= k < LiteralRest(s) :: s[k] != '\n'
  {
    if LiteralRest(s) > 0 && s[0] != '\'' {
      LiteralHasNoBreak(s[1..]);
      forall k | 0 <= k < LiteralRest(s) ensures s[k] != '\n' {
        if k >= 1 { assert s[k] == s[1..][k - 1]; }
      }
    }
  }

  lemma {:induction false} DigitsHaveNoBreak(s: string)
    ensures forall k | 0 <= k < DigitsLength(s) :: s[k] != '\n' && !IsWhite(s[k])
  {
    if s != "" && (IsDigit(s[0]) || s[0] == '_') { DigitsHaveNoBreak(s[1..]); }
  }

  lemma ScalarHasNoBreak(token: string)
    requires IsScalar(token)
    ensures '\n' !in token && !IsWhite(token[0])
  {
    if token[0] == '"' {
      BasicHasNoBreak(token[1..]);
      forall k | 0 <= k < |token| ensures token[k] != '\n' { if k > 0 { assert token[k] == token[1..][k - 1]; } }
    } else if token[0] == '\'' {
      LiteralHasNoBreak(token[1..]);
      forall k | 0 <= k < |token| ensures token[k] != '\n' { if k > 0 { assert token[k] == token[1..][k - 1]; } }
    } else {
      var sign := if token[0] == '+' || token[0] == '-' then 1 else 0;
      DigitsHaveNoBreak(token[sign..]);
      forall k | 0 <= k < |token| ensures token[k] != '\n' { if k >= sign { assert token[k] == token[sign..][k - sign]; } }
    }
  }

  lemma RevaluedParts(line: string, token: string)
    requires Separator(line).Some?
    ensures var a, other := ValueSpan(line), Revalued(line, token);
            && other == line[..a.start] + token + line[a.end..] && a.start + |token| <= |other|
            && other[..a.start] == line[..a.start] && other[a.start..] == token + line[a.end..]
            && other[a.start + |token|..] == line[a.end..] && Separator(line).value < a.start
            && forall i | 0 <= i < a.start :: other[i] == line[i]
  {
    hide FirstStop, ScalarLength;
  }

  lemma RevaluedKey(line: string, token: string)
    requires KeyText(line).Some?
    ensures Separator(Revalued(line, token)) == Separator(line) && KeyText(Revalued(line, token)) == KeyText(line)
  {
    var k, other := Separator(line).value, Revalued(line, token);
    RevaluedParts(line, token);
    StopStays(line, other, 0, "", SEPARATING, k);
    hide FirstStop, ScalarLength, Revalued, Strip;
    assert other[..k] == other[..ValueSpan(line).start][..k] == line[..k];
  }

  lemma RevaluedSpan(line: string, token: string)
    requires KeyText(line).Some? && HasScalar(line) && IsScalar(token)
    ensures Separator(Revalued(line, token)).Some?
    ensures ValueSpan(Revalued(line, token)) == Span(ValueSpan(line).start, ValueSpan(line).start + |token|)
    ensures HasScalar(Revalued(line, token))
  {
    hide FirstStop, ScalarLength, Strip, EndsValue, Ends, IsWhite, Revalued;
    RevaluedKey(line, token);
    RevaluedParts(line, token);
    var a, other := ValueSpan(line), Revalued(line, token);
    var from := Separator(line).value + 1;
    EndsValueEnds(line[a.end..]);
    ScalarBehind(other[..a.start], token, line[a.end..]);
    assert other == other[..a.start] + token + line[a.end..];
    ScalarHasNoBreak(token);
    SameWhite(line, other, from, a.start, token);
  }

  lemma SameWhite(line: string, other: string, from: nat, start: nat, token: string)
    requires from <= start <= |line| && start == from + WhiteLength(line[from..])
    requires start < |other| && other[..start] == line[..start] && token != "" && other[start] == token[0] && !IsWhite(token[0])
    ensures from + WhiteLength(other[from..]) == start
  {
    hide IsWhite, WhiteLength;
    assert other[from..][..start - from] == other[..start][from..] && line[from..][..start - from] == line[..start][from..];
    WhiteAt(other[from..], start - from);
  }

  lemma RevaluedLine(line: string, token: string)
    requires KeyText(line).Some? && HasScalar(line) && IsScalar(token) && IsLine(line)
    ensures IsLine(Revalued(line, token)) && (EndsLine(Revalued(line, token)) <==> EndsLine(line))
  {
    hide FirstStop, ScalarLength, EndsValue, IsWhite, Revalued;
    RevaluedParts(line, token);
    ScalarHasNoBreak(token);
    var a, other := ValueSpan(line), Revalued(line, token);
    ScalarCut(line[a.start..], a.end - a.start);
    ScalarHasNoBreak(line[a.start..][..a.end - a.start]);
    var suffix := line[a.end..];
    assert other == line[..a.start] + token + suffix;
    assert line == line[..a.start] + line[a.start..][..a.end - a.start] + suffix;
    PiecesAreLine(line[..a.start], line[a.start..][..a.end - a.start], token, suffix);
  }

  /** Exchanging a piece without a line break leaves one line. */
  lemma PiecesAreLine(front: string, piece: string, token: string, suffix: string)
    requires IsLine(front + piece + suffix) && piece != "" && '\n' !in piece && token != "" && '\n' !in token
    ensures IsLine(front + token + suffix) && (EndsLine(front + token + suffix) <==> EndsLine(front + piece + suffix))
  {
    var line, other := front + piece + suffix, front + token + suffix;
    forall k | 0 <= k < |other| - 1 ensures other[k] != '\n' {
      if k < |front| {
        assert line[k] == other[k];
      } else if k >= |front| + |token| {
        assert line[k - |token| + |piece|] == other[k];
      } else {
        assert other[k] == token[k - |front|];
      }
    }
    if suffix == "" {
      assert line[|line| - 1] == piece[|piece| - 1] && other[|other| - 1] == token[|token| - 1];
    } else {
      assert line[|line| - 1] == suffix[|suffix| - 1] == other[|other| - 1];
    }
  }

  // ---- The search after a splice ----------------------------------------------------------------------------

  lemma {:induction false} PlacesGrow(keyOf: string -> Option<Path>, lines: seq<string>, target: Path, n: nat, m: nat)
    requires n <= m <= |lines|
    ensures SelectedPlaces(keyOf, lines, target, n) <= SelectedPlaces(keyOf, lines, target, m)
  {
    hide Selects, PlaceAt;
    if n < m { PlacesGrow(keyOf, lines, target, n, m - 1); }
  }

  lemma SelectedSeparates(keyOf: string -> Option<Path>, lines: seq<string>, target: Path, i: nat)
    requires Selects(keyOf, lines, target, i)
    ensures i < |lines| && Separator(lines[i]).Some? && KeyText(lines[i]).Some?
  {
  }

  /** The only place belongs to one line; in front of it nothing is found, behind it nothing else. */
  lemma OnlyLine(keyOf: string -> Option<Path>, lines: seq<string>, target: Path) returns (i: nat)
    requires After(keyOf, lines, target).Some? && |After(keyOf, lines, target).value.found| == 1
    ensures Selects(keyOf, lines, target, i) && After(keyOf, lines, target).value.found == [PlaceAt(lines, i)]
    ensures forall j: nat | j <= |lines| ::
              && After(keyOf, lines[..j], target).Some?
              && After(keyOf, lines[..j], target).value.found == if j <= i then [] else [PlaceAt(lines, i)]
  {
    hide After, Selects, PlaceAt;
    var n := |lines|;
    assert lines[..n] == lines;
    FindsExactlySelected(keyOf, lines, target, n);
    var place := SelectedPlaces(keyOf, lines, target, n)[0];
    PlacedBy(keyOf, lines, target, n, place);
    i :| i < n && IsPlaceOf(keyOf, lines, target, i, place);
    SelectedSeparates(keyOf, lines, target, i);
    PlacesGrow(keyOf, lines, target, i + 1, n);
    forall j: nat | j <= n
      ensures After(keyOf, lines[..j], target).Some?
      ensures After(keyOf, lines[..j], target).value.found == if j <= i then [] else [PlaceAt(lines, i)]
    {
      if After(keyOf, lines[..j], target).None? { AfterStuck(keyOf, lines, target, j); }
      FindsExactlySelected(keyOf, lines, target, j);
      OneByLine(keyOf, lines, target, i, j);
    }
  }

  lemma OneByLine(keyOf: string -> Option<Path>, lines: seq<string>, target: Path, i: nat, j: nat)
    requires i < |lines| && j <= |lines| && Selects(keyOf, lines, target, i)
    requires |SelectedPlaces(keyOf, lines, target, |lines|)| == 1
    ensures Separator(lines[i]).Some?
    ensures SelectedPlaces(keyOf, lines, target, j) == if j <= i then [] else [PlaceAt(lines, i)]
  {
    hide Selects, PlaceAt;
    SelectedSeparates(keyOf, lines, target, i);
    PlacesGrow(keyOf, lines, target, i + 1, |lines|);
    if j <= i {
      PlacesGrow(keyOf, lines, target, j, i);
    } else {
      PlacesGrow(keyOf, lines, target, i + 1, j);
      PlacesGrow(keyOf, lines, target, j, |lines|);
    }
  }

  /** Two places of the scanner that differ only in what has been passed and found. */
  predicate Alike(p: Place, q: Place) {
    p.current == q.current && p.arrays == q.arrays && p.quote == q.quote && p.depth == q.depth
  }

  lemma TurnAlike(keyOf: string -> Option<Path>, p: Place, q: Place, line: string, target: Path)
    requires Alike(p, q) && TurnLine(keyOf, p, line, target).Some?
    ensures TurnLine(keyOf, q, line, target).Some?
    ensures Alike(TurnLine(keyOf, p, line, target).value, TurnLine(keyOf, q, line, target).value)
    ensures TurnLine(keyOf, p, line, target).value.found == p.found ==>
              TurnLine(keyOf, q, line, target).value.found == q.found
  {
    hide HeaderOf, AssignmentIn, LexLine;
    if !Continues(p) && HeaderOf(line) == Ok(None) {
      assert |TurnLine(keyOf, p, line, target).value.found| == |p.found|
             + if AssignmentIn(keyOf, line, p.current, target).value.Some? then 1 else 0;
    }
  }

  /** The selected line itself, with another value. */
  lemma AssignsSelected(keyOf: string -> Option<Path>, line: string, current: Path, target: Path)
    requires KeyText(line).Some? && keyOf(KeyText(line).value).Some? && HasScalar(line)
    requires current + keyOf(KeyText(line).value).value == target
    ensures AssignmentIn(keyOf, line, current, target) == Ok(Some(ValueSpan(line)))
  {
    hide KeyText, HasScalar, ValueSpan;
  }

  /** Two lines that assign the target to scalars of their own, and leave the lexical state as it is. */
  lemma AssignAlike(keyOf: string -> Option<Path>, p: Place, line: string, other: string, target: Path, span: Span, end: nat)
    requires !Continues(p) && HeaderOf(line) == HeaderOf(other) == Ok(None)
    requires AssignmentIn(keyOf, line, p.current, target) == Ok(Some(span))
    requires AssignmentIn(keyOf, other, p.current, target) == Ok(Some(Span(span.start, end)))
    requires LexLine(line, 0, p.quote, p.depth, false) == LexLine(other, 0, p.quote, p.depth, false)
    ensures TurnLine(keyOf, p, line, target).Some? && TurnLine(keyOf, p, other, target).Some?
    ensures Alike(TurnLine(keyOf, p, line, target).value, TurnLine(keyOf, p, other, target).value)
    ensures TurnLine(keyOf, p, other, target).value.found == p.found + [Span(p.offset + span.start, p.offset + end)]
  {
    hide TurnLine, HeaderOf, LexLine, AssignmentIn, Continues;
    TurnsAssignment(keyOf, p, line, target);
    TurnsAssignment(keyOf, p, other, target);
  }

  /** With its value replaced a line turns the search as before, but for the place that it adds. */
  predicate TurnsRevalued(keyOf: string -> Option<Path>, p: Place, line: string, token: string, target: Path) {
    && Separator(line).Some?
    && var other, start := Revalued(line, token), p.offset + ValueSpan(line).start;
    && TurnLine(keyOf, p, line, target).Some? && TurnLine(keyOf, p, other, target).Some?
    && Alike(TurnLine(keyOf, p, line, target).value, TurnLine(keyOf, p, other, target).value)
    && TurnLine(keyOf, p, other, target).value.found == p.found + [Span(start, start + |token|)]
  }

  lemma SelectedScalar(keyOf: string -> Option<Path>, lines: seq<string>, target: Path, i: nat, p: Place)
    requires Selects(keyOf, lines, target, i) && After(keyOf, lines[..i], target) == Some(p)
    requires TurnLine(keyOf, p, lines[i], target).Some? && HeaderOf(lines[i]) == Ok(None)
    ensures p.quote == "" && p.depth <= 0 && !Continues(p) && p.offset == |Join(lines[..i])|
    ensures AssignmentIn(keyOf, lines[i], p.current, target).Ok?
    ensures p.current == TableAt(keyOf, lines, i)
  {
    hide After, TurnLine, TableAt, HeaderOf, LexLine, LexLines, AssignmentIn, KeyText;
    PlaceIs(keyOf, lines[..i], target);
    CurrentIsTable(keyOf, lines, target, i);
    TurnsAssignment(keyOf, p, lines[i], target);
  }

  lemma AssignsInTable(keyOf: string -> Option<Path>, lines: seq<string>, target: Path, i: nat)
    requires Selects(keyOf, lines, target, i) && AssignmentIn(keyOf, lines[i], TableAt(keyOf, lines, i), target).Ok?
    ensures Separator(lines[i]).Some? && HasScalar(lines[i])
    ensures AssignmentIn(keyOf, lines[i], TableAt(keyOf, lines, i), target) == Ok(Some(ValueSpan(lines[i])))
  {
    hide TableAt, HasScalar, ValueSpan, FirstStop, Strip, LexLines, HeaderOf;
  }

  lemma SelectedKey(keyOf: string -> Option<Path>, lines: seq<string>, target: Path, i: nat)
    requires ReadsKeys(keyOf) && Selects(keyOf, lines, target, i)
    ensures i < |lines| && KeyText(lines[i]).Some? && IsKey(KeyText(lines[i]).value)
    ensures keyOf(KeyText(lines[i]).value).Some?
            && TableAt(keyOf, lines, i) + keyOf(KeyText(lines[i]).value).value == target
  {
    hide TableAt, IsKey, KeyText, HeaderOf, LexLines;
  }

  lemma TurnRevalued(keyOf: string -> Option<Path>, lines: seq<string>, target: Path, i: nat, token: string, p: Place)
    requires ReadsKeys(keyOf) && Selects(keyOf, lines, target, i) && IsLine(lines[i]) && IsScalar(token)
    requires After(keyOf, lines[..i], target) == Some(p) && TurnLine(keyOf, p, lines[i], target).Some?
    ensures p.offset == |Join(lines[..i])| && TurnsRevalued(keyOf, p, lines[i], token, target)
  {
    hide After, TurnLine, TableAt, HeaderOf, LexLine, LexLines, IsKey, HasScalar, IsScalar, IsLine, Revalued, ValueSpan,
         Separator, KeyText, AssignmentIn, Selects, ReadsKeys, Continues, Alike, Join;
    SelectedKey(keyOf, lines, target, i);
    var line := lines[i];
    AssignmentIsNoHeader(line);
    SelectedScalar(keyOf, lines, target, i, p);
    AssignsInTable(keyOf, lines, target, i);
    BothLines(line, token, p.depth);
    var other, span := Revalued(line, token), ValueSpan(line);
    AssignsSelected(keyOf, other, p.current, target);
    AssignAlike(keyOf, p, line, other, target, span, span.start + |token|);
  }

  lemma BothLines(line: string, token: string, depth: int)
    requires KeyText(line).Some? && IsKey(KeyText(line).value) && IsLine(line) && HasScalar(line) && IsScalar(token)
    ensures var other := Revalued(line, token);
            && KeyText(other) == KeyText(line) && HeaderOf(other) == Ok(None) && Separator(other).Some? && HasScalar(other)
            && ValueSpan(other) == Span(ValueSpan(line).start, ValueSpan(line).start + |token|)
            && LexLine(line, 0, "", depth, false) == ("", depth) == LexLine(other, 0, "", depth, false)
  {
    hide HeaderOf, LexLine, IsKey, HasScalar, IsScalar, IsLine, Revalued, ValueSpan, FirstStop, Strip;
    RevaluedKey(line, token);
    RevaluedSpan(line, token);
    RevaluedLine(line, token);
    AssignmentIsNoHeader(Revalued(line, token));
    AssignmentLexes(line, depth);
    AssignmentLexes(Revalued(line, token), depth);
  }

  /** Behind the changed line the search goes on as before and finds nothing else. */
  lemma {:induction false} SearchBehind(keyOf: string -> Option<Path>, lines: seq<string>, target: Path, i: nat,
                                        token: string, j: nat)
    requires ReadsKeys(keyOf) && Selects(keyOf, lines, target, i) && IsLine(lines[i]) && IsScalar(token)
    requires i < j <= |lines|
    requires forall k: nat | k <= |lines| ::
               && After(keyOf, lines[..k], target).Some?
               && After(keyOf, lines[..k], target).value.found == if k <= i then [] else [PlaceAt(lines, i)]
    ensures var others, start := lines[i := Revalued(lines[i], token)], PlaceAt(lines, i).start;
            && After(keyOf, others[..j], target).Some?
            && Alike(After(keyOf, lines[..j], target).value, After(keyOf, others[..j], target).value)
            && After(keyOf, others[..j], target).value.found == [Span(start, start + |token|)]
    decreases j
  {
    hide After, TurnLine, LexLine, Revalued, Selects, IsLine, IsScalar, ReadsKeys, PlaceAt, Separator;
    SelectedSeparates(keyOf, lines, target, i);
    var others := lines[i := Revalued(lines[i], token)];
    if j == i + 1 {
      SearchAtLine(keyOf, lines, target, i, token);
    } else {
      SearchBehind(keyOf, lines, target, i, token, j - 1);
      assert After(keyOf, lines[..j - 1], target).Some? && After(keyOf, lines[..j], target).Some?;
      NextLine(keyOf, lines, target, j - 1);
      NextLine(keyOf, others, target, j - 1);
      TurnAlike(keyOf, After(keyOf, lines[..j - 1], target).value, After(keyOf, others[..j - 1], target).value,
                lines[j - 1], target);
    }
  }

  lemma SearchAtLine(keyOf: string -> Option<Path>, lines: seq<string>, target: Path, i: nat, token: string)
    requires ReadsKeys(keyOf) && Selects(keyOf, lines, target, i) && IsLine(lines[i]) && IsScalar(token)
    requires After(keyOf, lines[..i], target).Some? && After(keyOf, lines[..i], target).value.found == []
    requires After(keyOf, lines[..i + 1], target).Some?
    ensures Separator(lines[i]).Some?
    ensures var others, start := lines[i := Revalued(lines[i], token)], PlaceAt(lines, i).start;
            && After(keyOf, others[..i + 1], target).Some?
            && Alike(After(keyOf, lines[..i + 1], target).value, After(keyOf, others[..i + 1], target).value)
            && After(keyOf, others[..i + 1], target).value.found == [Span(start, start + |token|)]
  {
    hide After, TurnLine, LexLine, Revalued, Selects, IsLine, IsScalar, ReadsKeys, ValueSpan, Join, Separator;
    SelectedSeparates(keyOf, lines, target, i);
    var others, p := lines[i := Revalued(lines[i], token)], After(keyOf, lines[..i], target).value;
    NextLine(keyOf, lines, target, i);
    assert others[..i] == lines[..i];
    NextLine(keyOf, others, target, i);
    TurnRevalued(keyOf, lines, target, i, token, p);
  }

  // ---- The text after a splice ------------------------------------------------------------------------------

  lemma JoinAround(lines: seq<string>, i: nat)
    requires i < |lines|
    ensures Join(lines) == Join(lines[..i]) + (lines[i] + Join(lines[i + 1..]))
  {
    assert lines == lines[..i] + lines[i..];
    JoinAppend(lines[..i], lines[i..]);
    assert lines[i..][0] == lines[i] && lines[i..][1..] == lines[i + 1..];
  }

  lemma SpliceInLine(before: string, line: string, after: string, span: Span, token: string)
    requires span.start <= span.end <= |line|
    ensures Splice(before + (line + after), |before| + span.start, |before| + span.end, token)
         == before + ((line[..span.start] + token + line[span.end..]) + after)
  {
    var text := before + (line + after);
    assert text[..|before| + span.start] == before + line[..span.start];
    assert text[|before| + span.end..] == line[span.end..] + after;
  }

  lemma JoinReplaced(lines: seq<string>, i: nat, other: string)
    requires i < |lines|
    ensures Join(lines[i := other]) == Join(lines[..i]) + (other + Join(lines[i + 1..]))
  {
    hide Join;
    var others := lines[i := other];
    JoinAround(others, i);
    assert others[..i] == lines[..i] && others[i + 1..] == lines[i + 1..];
  }

  lemma SplicedJoin(lines: seq<string>, i: nat, token: string)
    requires i < |lines| && Separator(lines[i]).Some?
    ensures var place := PlaceAt(lines, i);
            && place.start <= place.end <= |Join(lines)|
            && Splice(Join(lines), place.start, place.end, token) == Join(lines[i := Revalued(lines[i], token)])
  {
    hide Join, ValueSpan, Splice, Separator;
    JoinAround(lines, i);
    JoinReplaced(lines, i, Revalued(lines[i], token));
    SpliceInLine(Join(lines[..i]), lines[i], Join(lines[i + 1..]), ValueSpan(lines[i]), token);
  }

  /** Splicing the value of a line is replacing it in the line; all other lines stay. */
  lemma SplicedLines(text: string, i: nat, token: string)
    requires i < |Lines(text)| && KeyText(Lines(text)[i]).Some? && HasScalar(Lines(text)[i]) && IsScalar(token)
    ensures Separator(Lines(text)[i]).Some?
    ensures var place := PlaceAt(Lines(text), i);
            && place.start <= place.end <= |text|
            && Lines(Splice(text, place.start, place.end, token)) == Lines(text)[i := Revalued(Lines(text)[i], token)]
  {
    var lines := Lines(text);
    hide Lines, IsLine, EndsLine, HasScalar, IsScalar, ValueSpan, Splice, Strip, FirstStop, Join, PlaceAt, Revalued;
    assert lines[i] in lines;
    RevaluedLine(lines[i], token);
    LinesEnd(text);
    LinesJoin(text);
    SplicedJoin(lines, i, token);
    var others := lines[i := Revalued(lines[i], token)];
    OthersAreLines(lines, i, Revalued(lines[i], token), others);
    LinesOfLines(others);
  }

  lemma OthersAreLines(lines: seq<string>, i: nat, other: string, others: seq<string>)
    requires i < |lines| && IsLine(other) && (EndsLine(other) <==> EndsLine(lines[i])) && others == lines[i := other]
    requires (forall l | l in lines :: IsLine(l)) && forall k | 0 <= k < |lines| - 1 :: EndsLine(lines[k])
    ensures (forall l | l in others :: IsLine(l)) && forall k | 0 <= k < |others| - 1 :: EndsLine(others[k])
  {
    hide IsLine, EndsLine;
  }

  /**
   * Splicing another single-line scalar over the only place found changes one line, and the search then
   * finds exactly that scalar.
   */
  lemma SplicedIsFound(keyOf: string -> Option<Path>, text: string, target: Path, token: string) returns (i: nat)
    requires ReadsKeys(keyOf) && IsScalar(token)
    requires After(keyOf, Lines(text), target).Some? && |After(keyOf, Lines(text), target).value.found| == 1
    ensures Selects(keyOf, Lines(text), target, i) && Separator(Lines(text)[i]).Some?
    ensures var place := After(keyOf, Lines(text), target).value.found[0];
            && place == PlaceAt(Lines(text), i) && place.start <= place.end <= |text|
            && IsScalar(text[place.start..place.end])
            && Lines(Splice(text, place.start, place.end, token)) == Lines(text)[i := Revalued(Lines(text)[i], token)]
            && After(keyOf, Lines(Splice(text, place.start, place.end, token)), target).Some?
            && After(keyOf, Lines(Splice(text, place.start, place.end, token)), target).value.found
               == [Span(place.start, place.start + |token|)]
  {
    hide Lines, After, Selects, PlaceAt, IsScalar, Revalued, Splice, ReadsKeys, IsLine, HasScalar;
    var lines := Lines(text);
    i := OnlyLine(keyOf, lines, target);
    SelectedSeparates(keyOf, lines, target, i);
    SelectedHasScalar(keyOf, lines, target, i);
    assert lines[i] in lines;
    SplicedLines(text, i, token);
    SearchBehind(keyOf, lines, target, i, token, |lines|);
    var others := lines[i := Revalued(lines[i], token)];
    assert others[..|lines|] == others;
    TokenInText(text, i);
  }

  lemma SelectedHasScalar(keyOf: string -> Option<Path>, lines: seq<string>, target: Path, i: nat)
    requires Selects(keyOf, lines, target, i) && After(keyOf, lines[..i], target).Some?
    requires After(keyOf, lines[..i + 1], target).Some?
    ensures HasScalar(lines[i])
  {
    hide LexLines, TableAt, After, KeyText, HasScalar, ValueSpan;
    OneLineMore(keyOf, lines, target, i);
  }

  lemma TokenInText(text: string, i: nat)
    requires i < |Lines(text)| && Separator(Lines(text)[i]).Some? && HasScalar(Lines(text)[i])
    ensures var place := PlaceAt(Lines(text), i); place.start <= place.end <= |text| && IsScalar(text[place.start..place.end])
  {
    var lines := Lines(text);
    hide Lines, Separator, Join, ValueSpan, IsScalar, HasScalar;
    LinesJoin(text);
    JoinAround(lines, i);
    TokenStands(Join(lines[..i]), lines[i], Join(lines[i + 1..]));
  }

  lemma TokenStands(before: string, line: string, after: string)
    requires Separator(line).Some? && HasScalar(line)
    ensures var text := before + (line + after);
            IsScalar(text[|before| + ValueSpan(line).start..|before| + ValueSpan(line).end])
  {
    hide Separator, ValueSpan, IsScalar, HasScalar;
    PartOfMiddle(before, line, after, ValueSpan(line));
    ScalarInLine(line);
  }

  lemma PartOfMiddle(before: string, line: string, after: string, span: Span)
    requires span.start <= span.end <= |line|
    ensures (before + (line + after))[|before| + span.start..|before| + span.end] == line[span.start..span.end]
  {
  }

  lemma ScalarInLine(line: string)
    requires Separator(line).Some? && HasScalar(line)
    ensures IsScalar(line[ValueSpan(line).start..ValueSpan(line).end])
  {
    hide Separator, ScalarLength;
    var span := ValueSpan(line);
    ScalarCut(line[span.start..], span.end - span.start);
    assert line[span.start..][..span.end - span.start] == line[span.start..span.end];
  }

  /**
   * Every found place holds a whole single-line scalar of the original text, on a line that one scan of the
   * whole text also comes to outside of strings and brackets.
   */
  lemma FoundIsScalar(keyOf: string -> Option<Path>, text: string, target: Path, place: Span) returns (i: nat, depth: int)
    requires After(keyOf, Lines(text), target).Some? && place in After(keyOf, Lines(text), target).value.found
    ensures IsPlaceOf(keyOf, Lines(text), target, i, place)
    ensures depth <= 0 && Reaches(text, START, |Join(Lines(text)[..i])|, "", depth, false)
    ensures place.start <= place.end <= |text| && IsScalar(text[place.start..place.end])
  {
    hide Lines, After, Selects, PlaceAt, Join, LexLines, Reaches, IsScalar, HasScalar;
    var lines, n := Lines(text), |Lines(text)|;
    assert lines[..n] == lines;
    FindsExactlySelected(keyOf, lines, target, n);
    PlacedBy(keyOf, lines, target, n, place);
    i :| i < n && IsPlaceOf(keyOf, lines, target, i, place);
    if After(keyOf, lines[..i], target).None? { AfterStuck(keyOf, lines, target, i); }
    if After(keyOf, lines[..i + 1], target).None? { AfterStuck(keyOf, lines, target, i + 1); }
    SelectedHasScalar(keyOf, lines, target, i);
    SelectedSeparates(keyOf, lines, target, i);
    TokenInText(text, i);
    StateAtLine(text, i, false);
    depth := LexLines(lines[..i], false).1;
    SelectedIsTopLevel(keyOf, lines, target, i);
  }

  lemma SelectedIsTopLevel(keyOf: string -> Option<Path>, lines: seq<string>, target: Path, i: nat)
    requires Selects(keyOf, lines, target, i)
    ensures i < |lines| && LexLines(lines[..i], false).0 == "" && LexLines(lines[..i], false).1 <= 0
  {
  }
}

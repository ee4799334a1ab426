/**
 * The lexical scanner of scripts/version_plan.py for TOML: the state carried from line to line, and where it
 * is that of the grammar. Lines end with a line feed.
 */
module Toml {
  import opened Wrappers
  import opened Text

  // ---- Lexical state ---------------------------------------------------------------------------

  const BASIC := "\""
  const LITERAL := "'"
  const LONG_BASIC := "\"\"\""
  const LONG_LITERAL := "'''"

  /** An open quote; the empty text stands for none. */
  predicate IsQuote(quote: string) {
    quote == "" || quote == BASIC || quote == LITERAL || quote == LONG_BASIC || quote == LONG_LITERAL
  }

  type Quote = q: string | IsQuote(q) witness ""

  predicate IsMark(c: char) {
    c == '"' || c == '\''
  }

  function Mark(c: char): Quote
    requires IsMark(c)
  {
    if c == '"' then BASIC else LITERAL
  }

  function LongMark(c: char): Quote
    requires IsMark(c)
  {
    if c == '"' then LONG_BASIC else LONG_LITERAL
  }

  function RunLength(s: string, i: nat, c: char): (n: nat)
    requires i <= |s|
    ensures i + n <= |s|
    decreases |s| - i
  {
    if i < |s| && s[i] == c then 1 + RunLength(s, i + 1, c) else 0
  }

  /**
   * How long a closing quote is. By the TOML grammar (v1.0.0, "String"), up to two quotation marks
   * directly in front of a closing triple belong to the string; the scanner takes three marks.
   */
  function CloseLength(s: string, i: nat, quote: Quote, grammar: bool): (n: nat)
    requires quote != "" && StartsAt(s, i, quote)
    ensures n >= |quote|
  {
    var run := RunLength(s, i, quote[0]);
    if grammar && |quote| == 3 && run > 3 then (if run >= 5 then 5 else run) else |quote|
  }

  /** How many backslashes stand in a row in front of an offset, from another one on. */
  function Backslashes(line: string, from: nat, e: nat): nat
    requires from <= e <= |line|
    decreases e
  {
    if e > from && line[e - 1] == '\\' then 1 + Backslashes(line, from, e - 1) else 0
  }

  /** One step inside a string: an escape, the closing quote, or one more character. */
  function QuoteStep(line: string, index: nat, quote: Quote, grammar: bool): (nat, Quote)
    requires index < |line| && quote != ""
  {
    if quote[0] == '"' && line[index] == '\\' then (index + 2, quote)
    else if StartsAt(line, index, quote) then (index + CloseLength(line, index, quote, grammar), "")
    else (index + 1, quote)
  }

  function Opening(line: string, index: nat): (quote: Quote)
    requires index < |line|
  {
    if StartsAt(line, index, LONG_BASIC) then LONG_BASIC
    else if StartsAt(line, index, LONG_LITERAL) then LONG_LITERAL
    else if line[index] == '"' then BASIC
    else if line[index] == '\'' then LITERAL
    else ""
  }

  function Nesting(c: char): int {
    if c == '[' || c == '{' then 1 else if c == ']' || c == '}' then -1 else 0
  }

  /** Quote and depth behind a line, as the scanner reads it or as the grammar does. */
  function LexLine(line: string, index: nat, quote: Quote, depth: int, grammar: bool): (Quote, int)
    decreases |line| - index
  {
    if index >= |line| then (quote, depth)
    else if quote != "" then
      var (next, after) := QuoteStep(line, index, quote, grammar);
      LexLine(line, next, after, depth, grammar)
    else if line[index] == '#' then ("", depth)
    else if Opening(line, index) != "" then
      LexLine(line, index + |Opening(line, index)|, Opening(line, index), depth, grammar)
    else LexLine(line, index + 1, "", depth + Nesting(line[index]), grammar)
  }

  method LexicalState(line: string, quote0: Quote, depth0: int) returns (quote: Quote, depth: int)
    ensures (quote, depth) == LexLine(line, 0, quote0, depth0, false)
  {
    var index := 0;
    quote, depth := quote0, depth0;
    while index < |line|
      invariant LexLine(line, 0, quote0, depth0, false) == LexLine(line, index, quote, depth, false)
      decreases |line| - index
    {
      if quote != "" {
        var (next, after) := QuoteStep(line, index, quote, false);
        index, quote := next, after;
      } else if line[index] == '#' {
        break;
      } else if Opening(line, index) != "" {
        quote := Opening(line, index);
        index := index + |quote|;
      } else {
        depth := depth + Nesting(line[index]);
        index := index + 1;
      }
    }
  }

  /** The state behind some lines, carried from one to the next. */
  function LexLines(lines: seq<string>, grammar: bool): (Quote, int) {
    if lines == [] then ("", 0)
    else
      var (quote, depth) := LexLines(lines[..|lines| - 1], grammar);
      LexLine(lines[|lines| - 1], 0, quote, depth, grammar)
  }

  // ---- One scan of the whole text --------------------------------------------------------------

  datatype Lex = Lex(index: nat, quote: Quote, depth: int, comment: bool)

  function Step(s: string, x: Lex, grammar: bool): (y: Lex)
    requires x.index < |s|
    ensures y.index > x.index
  {
    var i := x.index;
    if x.comment then Lex(i + 1, "", x.depth, s[i] != '\n')
    else if x.quote != "" then
      if x.quote[0] == '"' && s[i] == '\\' then Lex(i + 2, x.quote, x.depth, false)
      else if StartsAt(s, i, x.quote) then Lex(i + CloseLength(s, i, x.quote, grammar), "", x.depth, false)
      else Lex(i + 1, x.quote, x.depth, false)
    else if s[i] == '#' then Lex(i + 1, "", x.depth, true)
    else if Opening(s, i) != "" then Lex(i + |Opening(s, i)|, Opening(s, i), x.depth, false)
    else Lex(i + 1, "", x.depth + Nesting(s[i]), false)
  }

  function Scan(s: string, x: Lex, grammar: bool): Lex
    decreases |s| - x.index
  {
    if x.index >= |s| then x else Scan(s, Step(s, x, grammar), grammar)
  }

  const START := Lex(0, "", 0, false)

  // ---- Line by line is the whole scan --------------------------------------------------------------

  lemma SliceInside(s: string, from: nat, to: nat, i: nat, j: nat)
    requires from <= i <= j <= to <= |s|
    ensures s[from..to][i - from..j - from] == s[i..j]
  {
    forall k: nat | k < j - i ensures s[from..to][i - from..j - from][k] == s[i..j][k] {
      assert s[from..to][i - from + k] == s[i + k];
    }
  }

  /** A quote mark never reaches over a line break. */
  lemma InsideLine(s: string, from: nat, to: nat, i: nat, pattern: string)
    requires from <= i < to <= |s| && '\n' !in pattern
    requires to < |s| ==> s[to - 1] == '\n'
    ensures StartsAt(s, i, pattern) <==> StartsAt(s[from..to], i - from, pattern)
    ensures StartsAt(s, i, pattern) ==> i + |pattern| <= to
  {
    if StartsAt(s, i, pattern) {
      forall k | i <= k < i + |pattern| ensures s[k] != '\n' {
        assert s[i..i + |pattern|][k - i] == s[k];
      }
    }
    if i + |pattern| <= to { SliceInside(s, from, to, i, i + |pattern|); }
  }

  lemma NoBreaks(quote: Quote)
    ensures '\n' !in quote
  {
  }

  lemma OpeningInside(s: string, from: nat, to: nat, i: nat)
    requires from <= i < to <= |s| && (to < |s| ==> s[to - 1] == '\n')
    ensures Opening(s, i) == Opening(s[from..to], i - from)
    ensures i + |Opening(s, i)| <= to
  {
    NoBreaks(LONG_BASIC);
    NoBreaks(LONG_LITERAL);
    InsideLine(s, from, to, i, LONG_BASIC);
    InsideLine(s, from, to, i, LONG_LITERAL);
  }

  /** From x the scan comes to the start of a line, or to the end of the text, with a quote and depth. */
  predicate Reaches(s: string, x: Lex, to: nat, quote: Quote, depth: int, grammar: bool) {
    if to < |s| then Scan(s, x, grammar) == Scan(s, Lex(to, quote, depth, false), grammar)
    else Scan(s, x, grammar).quote == quote && Scan(s, x, grammar).depth == depth
  }

  /** One line of a text: from its start up to and with its only line break, or the end of the text. */
  predicate LineAt(s: string, from: nat, to: nat) {
    && from < to <= |s| && (to < |s| ==> s[to - 1] == '\n') && forall k | from <= k < to - 1 :: s[k] != '\n'
  }

  lemma ReachesFurther(s: string, x: Lex, y: Lex, to: nat, quote: Quote, depth: int, grammar: bool)
    requires x.index < |s| && y == Step(s, x, grammar) && Reaches(s, y, to, quote, depth, grammar)
    ensures Reaches(s, x, to, quote, depth, grammar)
  {
    hide Step;
  }

  lemma {:induction false} CommentEnds(s: string, from: nat, to: nat, x: Lex, grammar: bool)
    requires LineAt(s, from, to) && from <= x.index <= to && x.comment && x.quote == ""
    requires x.index == to ==> to == |s|
    ensures Reaches(s, x, to, "", x.depth, grammar)
    decreases |s| - x.index
  {
    if x.index < to {
      var y := Step(s, x, grammar);
      if y.comment {
        CommentEnds(s, from, to, y, grammar);
      }
      ReachesFurther(s, x, y, to, "", x.depth, grammar);
    }
  }

  lemma {:induction false} RunInside(s: string, from: nat, to: nat, i: nat, c: char)
    requires LineAt(s, from, to) && from <= i < to && c != '\n'
    ensures RunLength(s, i, c) == RunLength(s[from..to], i - from, c)
    ensures to < |s| ==> i + RunLength(s, i, c) < to
    decreases |s| - i
  {
    if i + 1 < to {
      RunInside(s, from, to, i + 1, c);
    }
  }

  /** A closing quote is as long in its line as in the text. */
  lemma CloseInside(s: string, from: nat, to: nat, i: nat, quote: Quote, grammar: bool)
    requires LineAt(s, from, to) && from <= i < to && quote != "" && StartsAt(s, i, quote)
    ensures StartsAt(s[from..to], i - from, quote)
    ensures CloseLength(s, i, quote, grammar) == CloseLength(s[from..to], i - from, quote, grammar)
    ensures to < |s| ==> i + CloseLength(s, i, quote, grammar) <= to
  {
    NoBreaks(quote);
    InsideLine(s, from, to, i, quote);
    RunInside(s, from, to, i, quote[0]);
    RunIsLong(s[from..to], i - from, quote);
  }

  predicate Triple(s: string, i: nat, c: char) {
    i + 3 <= |s| && s[i] == c && s[i + 1] == c && s[i + 2] == c
  }

  /** A quote stands where its one mark, or its three, stand. */
  lemma QuoteStands(s: string, i: nat, c: char)
    requires IsMark(c)
    ensures StartsAt(s, i, Mark(c)) <==> i < |s| && s[i] == c
    ensures StartsAt(s, i, LongMark(c)) <==> Triple(s, i, c)
  {
    if i < |s| { assert s[i..i + 1] == [s[i]]; }
    if i + 3 <= |s| { assert s[i..i + 3] == [s[i], s[i + 1], s[i + 2]]; }
  }

  lemma QuoteIsMark(quote: Quote)
    requires quote != ""
    ensures IsMark(quote[0]) && quote == if |quote| == 3 then LongMark(quote[0]) else Mark(quote[0])
  {
  }

  lemma RunIsLong(s: string, i: nat, quote: Quote)
    requires quote != "" && StartsAt(s, i, quote)
    ensures RunLength(s, i, quote[0]) >= |quote|
  {
    var c := quote[0];
    QuoteIsMark(quote);
    QuoteStands(s, i, c);
    if |quote| == 3 {
      assert RunLength(s, i + 1, c) == 1 + RunLength(s, i + 2, c);
      assert RunLength(s, i + 2, c) == 1 + RunLength(s, i + 3, c);
    }
  }

  lemma StepQuoted(s: string, x: Lex, grammar: bool)
    requires x.index < |s| && !x.comment && x.quote != ""
    ensures var (next, after) := QuoteStep(s, x.index, x.quote, grammar);
            Step(s, x, grammar) == Lex(next, after, x.depth, false)
  {
    hide CloseLength, StartsAt;
  }

  lemma QuoteStepInside(s: string, from: nat, to: nat, i: nat, quote: Quote, grammar: bool)
    requires LineAt(s, from, to) && from <= i < to && quote != ""
    ensures var (next, after) := QuoteStep(s[from..to], i - from, quote, grammar);
            QuoteStep(s, i, quote, grammar) == (from + next, after)
    ensures to < |s| ==> QuoteStep(s, i, quote, grammar).0 <= to
  {
    NoBreaks(quote);
    InsideLine(s, from, to, i, quote);
    assert s[from..to][i - from] == s[i];
    if StartsAt(s, i, quote) { CloseInside(s, from, to, i, quote, grammar); }
    EscapeStays(s, from, to, i);
    hide CloseLength, StartsAt, LineAt;
  }

  lemma EscapeStays(s: string, from: nat, to: nat, i: nat)
    requires LineAt(s, from, to) && from <= i < to
    ensures to < |s| && s[i] == '\\' ==> i + 2 <= to
  {
  }

  lemma StepInside(s: string, from: nat, to: nat, x: Lex, grammar: bool)
    requires LineAt(s, from, to) && from <= x.index < to && !x.comment && x.quote != ""
    ensures var (next, after) := QuoteStep(s[from..to], x.index - from, x.quote, grammar);
            Step(s, x, grammar) == Lex(from + next, after, x.depth, false)
    ensures to < |s| ==> Step(s, x, grammar).index <= to
  {
    hide Step, QuoteStep;
    assert x.index < |s|;
    hide LineAt;
    StepQuoted(s, x, grammar);
    QuoteStepInside(s, from, to, x.index, x.quote, grammar);
  }

  /** One step of the whole scan inside a line is one step of the scan of the line. */
  lemma LineStep(s: string, from: nat, to: nat, x: Lex, grammar: bool)
    requires LineAt(s, from, to) && from <= x.index < to && !x.comment
    ensures var y := Step(s, x, grammar);
            && (y.comment <==> x.quote == "" && s[x.index] == '#')
            && (to < |s| ==> y.index <= to) && (y.comment ==> y.index == x.index + 1 && y.quote == "" && y.depth == x.depth)
            && LexLine(s[from..to], x.index - from, x.quote, x.depth, grammar) ==
                 if y.comment then ("", x.depth) else LexLine(s[from..to], y.index - from, y.quote, y.depth, grammar)
  {
    hide Step, QuoteStep, LexLine;
    assert s[from..to][x.index - from] == s[x.index];
    if x.quote != "" {
      StepInside(s, from, to, x, grammar);
      QuotedTurn(s[from..to], x.index - from, x.quote, x.depth, grammar);
    } else {
      StepOutside(s, from, to, x, grammar);
    }
  }

  lemma StepOutside(s: string, from: nat, to: nat, x: Lex, grammar: bool)
    requires LineAt(s, from, to) && from <= x.index < to && !x.comment && x.quote == ""
    ensures var y := Step(s, x, grammar);
            && (y.comment <==> s[x.index] == '#')
            && (to < |s| ==> y.index <= to) && (y.comment ==> y.index == x.index + 1 && y.quote == "" && y.depth == x.depth)
            && LexLine(s[from..to], x.index - from, "", x.depth, grammar) ==
                 if y.comment then ("", x.depth) else LexLine(s[from..to], y.index - from, y.quote, y.depth, grammar)
  {
    assert s[from..to][x.index - from] == s[x.index];
    OpeningInside(s, from, to, x.index);
    StepPlain(s, x, grammar);
    hide LineAt, Opening, LexLine, Nesting, Step;
    OutsideTogether(s, s[from..to], from, x, grammar);
  }

  lemma OutsideTogether(s: string, line: string, from: nat, x: Lex, grammar: bool)
    requires from <= x.index < |s| && x.index - from < |line| && !x.comment && x.quote == ""
    requires line[x.index - from] == s[x.index] && Opening(line, x.index - from) == Opening(s, x.index)
    ensures var y := Step(s, x, grammar);
            LexLine(line, x.index - from, "", x.depth, grammar) ==
              if y.comment then ("", x.depth) else LexLine(line, y.index - from, y.quote, y.depth, grammar)
  {
    hide Opening, LexLine, Nesting, Step;
    StepPlain(s, x, grammar);
    if s[x.index] == '#' {
      CommentTurn(line, x.index - from, x.depth, grammar);
    } else {
      PlainTurn(line, x.index - from, x.depth, grammar);
    }
  }

  lemma StepPlain(s: string, x: Lex, grammar: bool)
    requires x.index < |s| && !x.comment && x.quote == ""
    ensures Step(s, x, grammar) ==
              if s[x.index] == '#' then Lex(x.index + 1, "", x.depth, true)
              else if Opening(s, x.index) != "" then
                Lex(x.index + |Opening(s, x.index)|, Opening(s, x.index), x.depth, false)
              else Lex(x.index + 1, "", x.depth + Nesting(s[x.index]), false)
  {
    hide Opening, Nesting;
  }

  lemma QuotedTurn(line: string, index: nat, quote: Quote, depth: int, grammar: bool)
    requires index < |line| && quote != ""
    ensures var (next, after) := QuoteStep(line, index, quote, grammar);
            LexLine(line, index, quote, depth, grammar) == LexLine(line, next, after, depth, grammar)
  {
    hide QuoteStep;
  }

  lemma CommentTurn(line: string, index: nat, depth: int, grammar: bool)
    requires index < |line| && line[index] == '#'
    ensures LexLine(line, index, "", depth, grammar) == ("", depth)
  {
  }

  lemma LineOver(s: string, from: nat, to: nat, x: Lex, grammar: bool)
    requires LineAt(s, from, to) && to <= x.index && !x.comment && (to < |s| ==> x.index == to)
    ensures LexLine(s[from..to], x.index - from, x.quote, x.depth, grammar) == (x.quote, x.depth)
    ensures Reaches(s, x, to, x.quote, x.depth, grammar)
  {
  }

  /** Scanning on from inside a line comes out of it with what the scan of the line alone gives. */
  lemma {:induction false} LineScanned(s: string, from: nat, to: nat, x: Lex, grammar: bool)
    requires LineAt(s, from, to) && from <= x.index && !x.comment && (to < |s| ==> x.index <= to)
    ensures var (quote, depth) := LexLine(s[from..to], x.index - from, x.quote, x.depth, grammar);
            Reaches(s, x, to, quote, depth, grammar)
    decreases |s| - x.index
  {
    hide Step, LexLine, Reaches;
    if x.index >= to {
      LineOver(s, from, to, x, grammar);
    } else {
      var (quote, depth) := LexLine(s[from..to], x.index - from, x.quote, x.depth, grammar);
      var y := Step(s, x, grammar);
      LineStep(s, from, to, x, grammar);
      if y.comment {
        CommentEnds(s, from, to, y, grammar);
      } else {
        LineScanned(s, from, to, y, grammar);
      }
      ReachesFurther(s, x, y, to, quote, depth, grammar);
    }
  }

  /** The last line that is complete, or the last one there is, ends at an offset. */
  lemma LineOfText(text: string, from: nat, line: string, rest: seq<string>)
    requires from <= |text| && text[from..] == Join([line] + rest) && IsLine(line)
    requires rest != [] ==> EndsLine(line)
    requires forall l | l in rest :: IsLine(l)
    ensures LineAt(text, from, from + |line|) && text[from..from + |line|] == line
    ensures text[from + |line|..] == Join(rest)
  {
    assert Join([line] + rest) == line + Join(rest) by { assert ([line] + rest)[1..] == rest; }
    assert text[from..][..|line|] == text[from..from + |line|];
    assert text[from..][|line|..] == text[from + |line|..];
    assert text[from..from + |line|] == line;
    forall k | from <= k < from + |line| - 1 ensures text[k] != '\n' { assert text[k] == line[k - from]; }
    if from + |line| < |text| { assert text[from + |line| - 1] == line[|line| - 1]; }
  }

  lemma LineStands(text: string, i: nat)
    requires i < |Lines(text)|
    ensures var lines, from := Lines(text), |Join(Lines(text)[..i])|;
            && LineAt(text, from, from + |lines[i]|) && text[from..from + |lines[i]|] == lines[i]
            && |Join(lines[..i + 1])| == from + |lines[i]|
  {
    var lines := Lines(text);
    hide Lines, IsLine;
    LinePosition(text, i);
    LinesEnd(text);
    assert lines[i..] == [lines[i]] + lines[i + 1..] && lines[i] in lines;
    forall l | l in lines[i + 1..] ensures IsLine(l) { assert l in lines; }
    LineOfText(text, |Join(lines[..i])|, lines[i], lines[i + 1..]);
    assert lines[..i + 1] == lines[..i] + [lines[i]];
    JoinAppend(lines[..i], [lines[i]]);
    assert Join([lines[i]]) == lines[i] + Join([]);
  }

  lemma {:induction false} StateAtLine(text: string, i: nat, grammar: bool)
    requires i <= |Lines(text)|
    ensures var (quote, depth) := LexLines(Lines(text)[..i], grammar);
            Reaches(text, START, |Join(Lines(text)[..i])|, quote, depth, grammar)
  {
    hide Scan, LexLine, Lines, Join, Reaches, LexLines;
    var lines := Lines(text);
    if i == 0 {
      StartReached(text, grammar);
      assert lines[..0] == [];
    } else {
      StateAtLine(text, i - 1, grammar);
      LineStands(text, i - 1);
      var from := |Join(lines[..i - 1])|;
      var (quote, depth) := LexLines(lines[..i - 1], grammar);
      LineScanned(text, from, from + |lines[i - 1]|, Lex(from, quote, depth, false), grammar);
      ReachesOn(text, START, from, quote, depth, from + |lines[i - 1]|,
                LexLine(lines[i - 1], 0, quote, depth, grammar), grammar);
      LexNext(lines, i - 1, grammar);
    }
  }

  lemma LexNext(lines: seq<string>, i: nat, grammar: bool)
    requires i < |lines|
    ensures var (quote, depth) := LexLines(lines[..i], grammar);
            LexLines(lines[..i + 1], grammar) == LexLine(lines[i], 0, quote, depth, grammar)
  {
    hide LexLine;
    assert lines[..i + 1][..i] == lines[..i];
  }

  lemma ReachesOn(s: string, x: Lex, from: nat, quote: Quote, depth: int, to: nat, next: (Quote, int), grammar: bool)
    requires from < |s| && Reaches(s, x, from, quote, depth, grammar)
    requires Reaches(s, Lex(from, quote, depth, false), to, next.0, next.1, grammar)
    ensures Reaches(s, x, to, next.0, next.1, grammar)
  {
  }

  lemma StartReached(text: string, grammar: bool)
    ensures LexLines([], grammar) == ("", 0) && Join([]) == "" && Reaches(text, START, 0, "", 0, grammar)
  {
  }

  /** The state carried line by line behind the last line is that of one scan of the whole text. */
  lemma CarriedIsScanned(text: string, grammar: bool)
    ensures LexLines(Lines(text), grammar) == (Scan(text, START, grammar).quote, Scan(text, START, grammar).depth)
  {
    var lines := Lines(text);
    assert lines[..|lines|] == lines;
    LinesJoin(text);
    StateAtLine(text, |lines|, grammar);
  }

  // ---- Where the scanner reads a line as the grammar does ---------------------------------------------

  /** The first closing of a triple quote by four marks or by more than five, with the depth there. */
  function FirstExtra(line: string, index: nat, quote: Quote, depth: int): (r: Option<(nat, int)>)
    ensures r.Some? ==> index <= r.value.0 < |line| && IsMark(line[r.value.0])
    decreases |line| - index
  {
    if index >= |line| then None
    else if quote != "" then
      if ClosesByExtra(line, index, quote) then
        RunIsLong(line, index, quote);
        assert line[index] == line[index..index + 3][0];
        Some((index, depth))
      else
        var (next, after) := QuoteStep(line, index, quote, true);
        FirstExtra(line, next, after, depth)
    else if line[index] == '#' then None
    else if Opening(line, index) != "" then
      FirstExtra(line, index + |Opening(line, index)|, Opening(line, index), depth)
    else FirstExtra(line, index + 1, "", depth + Nesting(line[index]))
  }

  predicate ClosesByExtra(line: string, index: nat, quote: Quote)
    requires index < |line| && quote != ""
  {
    && |quote| == 3 && !(quote[0] == '"' && line[index] == '\\') && StartsAt(line, index, quote)
    && (RunLength(line, index, quote[0]) == 4 || RunLength(line, index, quote[0]) > 5)
  }

  /**
   * What the scanner and the grammar make of a line behind extra marks. Of four marks the scanner takes
   * the last for the start of a string; of more than five it takes the fourth.
   */
  predicate RestAgrees(line: string, i: nat, depth: int)
    requires i < |line| && IsMark(line[i])
  {
    if RunLength(line, i, line[i]) == 4
    then LexLine(line, i + 4, Mark(line[i]), depth, false) == LexLine(line, i + 4, "", depth, true)
    else LexLine(line, i + 3, "", depth, false) == LexLine(line, i + 5, "", depth, true)
  }

  /** No triple quote is closed by extra marks, or the rest of the line makes up for it. */
  predicate ReadsAlike(line: string, quote: Quote, depth: int) {
    var extra := FirstExtra(line, 0, quote, depth);
    extra.None? || RestAgrees(line, extra.value.0, extra.value.1)
  }

  lemma RunOf(s: string, i: nat, c: char, n: nat)
    requires i + n <= |s| && (forall k | i <= k < i + n :: s[k] == c) && (i + n < |s| ==> s[i + n] != c)
    ensures RunLength(s, i, c) == n
    decreases n
  {
    if n > 0 { RunOf(s, i + 1, c, n - 1); }
  }

  lemma {:induction false} RunIs(s: string, i: nat, c: char)
    requires i <= |s|
    ensures var n := RunLength(s, i, c);
            (forall k | i <= k < i + n :: s[k] == c) && (i + n < |s| ==> s[i + n] != c)
    decreases |s| - i
  {
    if i < |s| && s[i] == c { RunIs(s, i + 1, c); }
  }

  /** Five marks are read alike: the scanner makes an empty string of the last two. */
  lemma FiveMarks(line: string, i: nat, quote: Quote, depth: int)
    requires |quote| == 3 && StartsAt(line, i, quote) && RunLength(line, i, quote[0]) == 5
    ensures LexLine(line, i + 3, "", depth, false) == LexLine(line, i + 5, "", depth, false)
  {
    var c := quote[0];
    QuoteIsMark(quote);
    RunIs(line, i, c);
    OneMark(line, i + 3, c);
    QuoteStands(line, i + 4, c);
    hide Opening, RunLength, StartsAt;
    assert LexLine(line, i + 3, "", depth, false) == LexLine(line, i + 4, Mark(c), depth, false);
  }

  /** A mark that is not the first of three opens a single quote. */
  lemma OneMark(line: string, i: nat, c: char)
    requires i < |line| && IsMark(c) && line[i] == c && !Triple(line, i, c)
    ensures Opening(line, i) == Mark(c)
  {
    QuoteStands(line, i, '"');
    QuoteStands(line, i, '\'');
  }

  /** One turn inside a quote, but for extra marks. */
  lemma QuoteTurn(line: string, index: nat, quote: Quote, depth: int)
    requires index < |line| && quote != "" && !ClosesByExtra(line, index, quote)
    ensures var (next, after) := QuoteStep(line, index, quote, true);
            && LexLine(line, index, quote, depth, false) == LexLine(line, next, after, depth, false)
            && LexLine(line, index, quote, depth, true) == LexLine(line, next, after, depth, true)
  {
    if !(quote[0] == '"' && line[index] == '\\') && StartsAt(line, index, quote) {
      RunIsLong(line, index, quote);
      if |quote| == 3 && RunLength(line, index, quote[0]) == 5 {
        FiveMarks(line, index, quote, depth);
      }
    }
    hide StartsAt, RunLength, Opening;
  }

  lemma ExtraTurn(line: string, index: nat, quote: Quote, depth: int)
    requires index < |line| && quote != "" && ClosesByExtra(line, index, quote)
    ensures line[index] == quote[0]
    ensures LexLine(line, index, quote, depth, false) == LexLine(line, index + 3, "", depth, false)
    ensures LexLine(line, index, quote, depth, true)
         == LexLine(line, index + (if RunLength(line, index, quote[0]) == 4 then 4 else 5), "", depth, true)
  {
    QuoteIsMark(quote);
    QuoteStands(line, index, quote[0]);
    hide StartsAt, RunLength, Opening;
  }

  lemma PlainTurn(line: string, index: nat, depth: int, grammar: bool)
    requires index < |line| && line[index] != '#'
    ensures LexLine(line, index, "", depth, grammar) ==
              if Opening(line, index) != "" then
                LexLine(line, index + |Opening(line, index)|, Opening(line, index), depth, grammar)
              else LexLine(line, index + 1, "", depth + Nesting(line[index]), grammar)
  {
    hide Opening, Nesting;
  }

  /** Up to the first extra marks the readings are the same. */
  lemma {:induction false} ReadUpTo(line: string, index: nat, quote: Quote, depth: int)
    ensures match FirstExtra(line, index, quote, depth)
            case None => LexLine(line, index, quote, depth, false) == LexLine(line, index, quote, depth, true)
            case Some((i, d)) =>
              && LexLine(line, index, quote, depth, false) == LexLine(line, i + 3, "", d, false)
              && LexLine(line, index, quote, depth, true)
                 == LexLine(line, i + (if RunLength(line, i, line[i]) == 4 then 4 else 5), "", d, true)
    decreases |line| - index
  {
    hide Opening, QuoteStep, LexLine, RunLength, ClosesByExtra, Nesting;
    if index >= |line| {
      LexEnds(line, index, quote, depth);
    } else if quote != "" {
      if ClosesByExtra(line, index, quote) {
        ExtraTurn(line, index, quote, depth);
      } else {
        QuoteTurn(line, index, quote, depth);
        QuoteAdvances(line, index, quote, true);
        var (next, after) := QuoteStep(line, index, quote, true);
        ReadUpTo(line, next, after, depth);
      }
    } else if line[index] == '#' {
      LexEnds(line, index, quote, depth);
    } else {
      PlainTurn(line, index, depth, false);
      PlainTurn(line, index, depth, true);
      if Opening(line, index) != "" {
        ReadUpTo(line, index + |Opening(line, index)|, Opening(line, index), depth);
      } else {
        ReadUpTo(line, index + 1, "", depth + Nesting(line[index]));
      }
    }
  }

  lemma LexEnds(line: string, index: nat, quote: Quote, depth: int)
    requires index >= |line| || (quote == "" && line[index] == '#')
    ensures forall grammar :: LexLine(line, index, quote, depth, grammar) == (quote, depth)
  {
  }

  lemma QuoteAdvances(line: string, index: nat, quote: Quote, grammar: bool)
    requires index < |line| && quote != ""
    ensures QuoteStep(line, index, quote, grammar).0 > index
  {
  }

  /** Scanner and grammar come out of a line alike exactly when it reads alike. */
  lemma LineReadsAlike(line: string, quote: Quote, depth: int)
    ensures LexLine(line, 0, quote, depth, false) == LexLine(line, 0, quote, depth, true)
       <==> ReadsAlike(line, quote, depth)
  {
    hide FirstExtra, RunLength, LexLine;
    ReadUpTo(line, 0, quote, depth);
    var extra := FirstExtra(line, 0, quote, depth);
    if extra.Some? {
      FourthOpens(line, extra.value.0, extra.value.1);
    }
  }

  lemma FourthOpens(line: string, i: nat, depth: int)
    requires i < |line| && IsMark(line[i])
    ensures RunLength(line, i, line[i]) == 4 ==>
              LexLine(line, i + 3, "", depth, false) == LexLine(line, i + 4, Mark(line[i]), depth, false)
  {
    if RunLength(line, i, line[i]) == 4 {
      RunIs(line, i, line[i]);
      OneMark(line, i + 3, line[i]);
      hide Opening, RunLength;
      PlainTurn(line, i + 3, depth, false);
    }
  }

  /** From the grammar's state in front of it, every line reads alike. */
  predicate AllReadAlike(lines: seq<string>) {
    forall i | 0 <= i < |lines| :: ReadsAlike(lines[i], LexLines(lines[..i], true).0, LexLines(lines[..i], true).1)
  }

  /**
   * The states carried by the scanner are those of the grammar in front of every line exactly when every
   * line, from the grammar's state, reads alike.
   */
  lemma FollowsGrammar(lines: seq<string>)
    ensures (forall i | 0 <= i <= |lines| :: LexLines(lines[..i], false) == LexLines(lines[..i], true))
       <==> AllReadAlike(lines)
  {
    hide LexLine, ReadsAlike, LexLines;
    if forall i | 0 <= i <= |lines| :: LexLines(lines[..i], false) == LexLines(lines[..i], true) {
      forall i | 0 <= i < |lines|
        ensures ReadsAlike(lines[i], LexLines(lines[..i], true).0, LexLines(lines[..i], true).1)
      {
        var next := i + 1;
        assert LexLines(lines[..next], false) == LexLines(lines[..next], true);
        LexNext(lines, i, false);
        LexNext(lines, i, true);
        LineReadsAlike(lines[i], LexLines(lines[..i], true).0, LexLines(lines[..i], true).1);
      }
    }
    if AllReadAlike(lines) {
      StatesAgree(lines, |lines|);
    }
  }

  lemma {:induction false} StatesAgree(lines: seq<string>, n: nat)
    requires n <= |lines|
    requires forall i | 0 <= i < n :: ReadsAlike(lines[i], LexLines(lines[..i], true).0, LexLines(lines[..i], true).1)
    ensures forall i | 0 <= i <= n :: LexLines(lines[..i], false) == LexLines(lines[..i], true)
  {
    hide LexLine, ReadsAlike, LexLines;
    if n == 0 {
      StartReached("", false);
      StartReached("", true);
      assert lines[..0] == [];
    } else {
      StatesAgree(lines, n - 1);
      LexNext(lines, n - 1, false);
      LexNext(lines, n - 1, true);
      LineReadsAlike(lines[n - 1], LexLines(lines[..n - 1], true).0, LexLines(lines[..n - 1], true).1);
    }
  }

  // ---- Four marks with nothing to make up for them ----------------------------------------------------

  /** A string that is opened by the last of four marks stays open where no such mark follows on the line. */
  lemma {:induction false} StaysOpen(line: string, index: nat, c: char, depth: int)
    requires IsMark(c) && forall k | index <= k < |line| :: line[k] != c
    ensures LexLine(line, index, Mark(c), depth, false) == (Mark(c), depth)
    decreases |line| - index
  {
    if index < |line| {
      QuoteStands(line, index, c);
      hide StartsAt;
      StaysOpen(line, if c == '"' && line[index] == '\\' then index + 2 else index + 1, c, depth);
    }
  }

  /** And the grammar opens no string by a mark that does not occur. */
  lemma {:induction false} NeverOpens(line: string, index: nat, quote: Quote, c: char, depth: int)
    requires IsMark(c) && (forall k | index <= k < |line| :: line[k] != c) && (quote == "" || quote[0] != c)
    ensures var after := LexLine(line, index, quote, depth, true).0; after == "" || after[0] != c
    decreases |line| - index
  {
    hide LexLine, QuoteStep, Opening, RunLength;
    if index >= |line| || (quote == "" && line[index] == '#') {
      LexEnds(line, index, quote, depth);
    } else if quote != "" {
      QuoteAdvances(line, index, quote, true);
      GrammarTurn(line, index, quote, depth);
      var (next, after) := QuoteStep(line, index, quote, true);
      NeverOpens(line, next, after, c, depth);
    } else {
      PlainTurn(line, index, depth, true);
      OtherOpening(line, index, c);
      if Opening(line, index) != "" {
        NeverOpens(line, index + |Opening(line, index)|, Opening(line, index), c, depth);
      } else {
        NeverOpens(line, index + 1, "", c, depth + Nesting(line[index]));
      }
    }
  }

  lemma GrammarTurn(line: string, index: nat, quote: Quote, depth: int)
    requires index < |line| && quote != ""
    ensures var (next, after) := QuoteStep(line, index, quote, true);
            && LexLine(line, index, quote, depth, true) == LexLine(line, next, after, depth, true)
            && after in {"", quote}
  {
    hide StartsAt, RunLength, Opening;
  }

  lemma OtherOpening(line: string, index: nat, c: char)
    requires index < |line| && IsMark(c) && line[index] != c
    ensures Opening(line, index) == "" || Opening(line, index)[0] != c
  {
    QuoteStands(line, index, c);
  }

  /**
   * Where the first extra marks of a line are four and no mark of their kind follows, the scanner leaves
   * the line inside a string that the grammar does not know.
   */
  lemma FourMarksLeaveOpen(line: string, quote: Quote, depth: int, i: nat, d: int)
    requires FirstExtra(line, 0, quote, depth) == Some((i, d)) && RunLength(line, i, line[i]) == 4
    requires forall k | i + 4 <= k < |line| :: line[k] != line[i]
    ensures LexLine(line, 0, quote, depth, false) == (Mark(line[i]), d)
    ensures LexLine(line, 0, quote, depth, true).0 != Mark(line[i]) && !ReadsAlike(line, quote, depth)
  {
    hide FirstExtra, RunLength, LexLine;
    ReadUpTo(line, 0, quote, depth);
    FourthOpens(line, i, d);
    StaysOpen(line, i + 4, line[i], d);
    NeverOpens(line, i + 4, "", line[i], d);
    LineReadsAlike(line, quote, depth);
  }

  // ---- Four marks in front of a comment ---------------------------------------------------------------

  /** What a whole value may have behind it on its line. */
  predicate BlankOrComment(line: string, from: nat)
    decreases |line| - from
  {
    from >= |line| || line[from] == '#' || (line[from] in " \t\r\n" && BlankOrComment(line, from + 1))
  }

  /** The opening brackets less the closing ones, up to the next number sign. */
  function Balance(line: string, from: nat): int
    decreases |line| - from
  {
    if from >= |line| || line[from] == '#' then 0 else Nesting(line[from]) + Balance(line, from + 1)
  }

  lemma NoMarkOpens(line: string, index: nat)
    requires index < |line| && !IsMark(line[index])
    ensures Opening(line, index) == ""
  {
    QuoteStands(line, index, '"');
    QuoteStands(line, index, '\'');
  }

  lemma {:induction false} BlankReads(line: string, index: nat, depth: int)
    requires BlankOrComment(line, index)
    ensures LexLine(line, index, "", depth, true) == ("", depth)
    decreases |line| - index
  {
    if index < |line| && line[index] != '#' {
      NoMarkOpens(line, index);
      PlainTurn(line, index, depth, true);
      hide LexLine, Opening;
      BlankReads(line, index + 1, depth);
    }
  }

  lemma {:induction false} UnquotedReads(line: string, index: nat, depth: int)
    requires forall k | index <= k < |line| :: !IsMark(line[k])
    ensures LexLine(line, index, "", depth, false) == ("", depth + Balance(line, index))
    decreases |line| - index
  {
    if index < |line| && line[index] != '#' {
      NoMarkOpens(line, index);
      PlainTurn(line, index, depth, false);
      hide LexLine, Opening;
      UnquotedReads(line, index + 1, depth + Nesting(line[index]));
    }
  }

  lemma {:induction false} FirstMarkCloses(line: string, index: nat, c: char, depth: int, k: nat)
    requires IsMark(c) && index <= k < |line| && line[k] == c
    requires forall j | index <= j < k :: line[j] != c && (c == '"' ==> line[j] != '\\')
    ensures LexLine(line, index, Mark(c), depth, false) == LexLine(line, k + 1, "", depth, false)
    decreases k - index
  {
    QuoteStands(line, index, c);
    QuotedTurn(line, index, Mark(c), depth, false);
    hide LexLine, StartsAt;
    if index < k { FirstMarkCloses(line, index + 1, c, depth, k); }
  }

  /**
   * Four closing marks with only a comment behind them, in which one more such mark stands: the scanner ends
   * its string there, and reads the rest of the comment as text whose brackets have to balance.
   */
  lemma CommentAfterFourMarks(line: string, quote: Quote, depth: int, i: nat, d: int, k: nat)
    requires FirstExtra(line, 0, quote, depth) == Some((i, d)) && RunLength(line, i, line[i]) == 4
    requires BlankOrComment(line, i + 4) && i + 4 <= k < |line| && line[k] == line[i]
    requires forall j | i + 4 <= j < k :: line[j] != line[i] && (line[i] == '"' ==> line[j] != '\\')
    requires forall j | k < j < |line| :: !IsMark(line[j])
    ensures ReadsAlike(line, quote, depth) <==> Balance(line, k + 1) == 0
  {
    hide FirstExtra, RunLength, LexLine, BlankOrComment, Balance;
    BlankReads(line, i + 4, d);
    FirstMarkCloses(line, i + 4, line[i], d, k);
    UnquotedReads(line, k + 1, d);
  }
}

/**
 * An edit that the TOML editor of scripts/version_plan.py accepts though it changes a string: a document with a
 * line that scanner and grammar do not read alike.
 */
module TomlMisread {
  import opened Wrappers
  import opened Text
  import opened Json
  import opened JsonSplice
  import JsonEditor
  import opened TomlScan
  import opened TomlEditor
  import Toml
  import TomlSplice

  // The scanner takes the last mark of the first line for the begin of a string and ends it at the first mark of
  // the second line, so that it takes the third line, which stands in a string, for an assignment.
  const OPENS := "b = '''\n"
  const INSIDE := "p.n = \"c\"\n"
  const EDITED := "p.n = \"a\"\n"
  const CLOSES := "'''\n"
  const SELECTED := "p = {n = \"a\"}\n"

  const BEFORE := SEVEN + (OPENS + (INSIDE + (CLOSES + SELECTED)))
  const AFTERWARDS := SEVEN + (OPENS + (EDITED + (CLOSES + SELECTED)))

  lemma OpensReads()
    ensures Toml.LexLine(OPENS, 0, Toml.LITERAL, 0, false) == ("", 0)
  {
    var s := OPENS;
    Toml.OneMark(s, 5, '\'');
    forall i: nat | i < |s| ensures Toml.QuoteStep(s, i, Toml.LITERAL, false)
                                 == if s[i] == '\'' then (i + 1, "") else (i + 1, Toml.LITERAL)
    {
      OneMarkStep(s, i, '\'');
    }
    hide Toml.Opening, Toml.QuoteStep, Toml.LexLine;
    forall i: nat | i < 5 || i == 6 ensures Toml.LexLine(s, i, Toml.LITERAL, 0, false)
                               == if s[i] == '\'' then Toml.LexLine(s, i + 1, "", 0, false)
                                  else Toml.LexLine(s, i + 1, Toml.LITERAL, 0, false)
    {
      Toml.QuotedTurn(s, i, Toml.LITERAL, 0, false);
    }
    Toml.PlainTurn(s, 5, 0, false);
    NotQuoted(s, 7);
    Toml.PlainTurn(s, 7, 0, false);
    Toml.LexEnds(s, 8, "", 0);
  }

  lemma ClosesReads()
    ensures Toml.LexLine(CLOSES, 0, "", 0, false) == (Toml.LONG_LITERAL, 0)
    ensures HeaderOf(CLOSES) == Ok(None) && KeyText(CLOSES) == None
  {
    var s := CLOSES;
    Toml.QuoteStands(s, 0, '\'');
    Toml.QuoteStands(s, 0, '"');
    Toml.QuoteStands(s, 3, '\'');
    assert Toml.Opening(s, 0) == Toml.LONG_LITERAL;
    hide Toml.Opening, StartsAt;
    Toml.PlainTurn(s, 0, 0, false);
  }

  const P := JsonEditor.Codes("p")
  const N := JsonEditor.Codes("n")
  const TARGET := [Key(P), Key(N)]

  lemma InsideSeparates()
    ensures Separator(INSIDE) == Some(4) && !IsWhite(INSIDE[0])
  {
    var s := INSIDE;
    assert FirstStop(s, 3, "", SEPARATING) == Some(4);
    assert FirstStop(s, 1, "", SEPARATING) == Some(4);
  }

  lemma InsideStripped()
    ensures Strip("p.n ") == "p.n"
  {
    assert WhiteLength("p.n ") == 0 && "p.n "[0..] == "p.n " && "p.n "[..3] == "p.n";
    assert StripRight("p.n ") == StripRight("p.n") == "p.n";
  }

  lemma InsideIsKey()
    ensures HeaderOf(INSIDE) == Ok(None) && KeyText(INSIDE) == Some("p.n")
  {
    InsideSeparates();
    InsideStripped();
    hide FirstStop, Strip, IsWhite;
    assert INSIDE[..4] == "p.n " && INSIDE[0..] == INSIDE;
  }

  lemma ValueOfC()
    ensures WhiteLength(" \"c\"\n") == 1 && ScalarLength("\"c\"\n") == 3 && EndsValue("\n")
  {
    assert WhiteLength("\"c\"\n") == 0 && " \"c\"\n"[1..] == "\"c\"\n";
    assert "\"c\"\n"[1..] == "c\"\n" && "c\"\n"[1..] == "\"\n";
    assert BasicRest("\"\n") == 1 && BasicRest("c\"\n") == 2;
    assert "\n"[1..] == "" && WhiteLength("\n") == 1;
  }

  lemma InsideHasScalar()
    ensures Separator(INSIDE).Some? && HasScalar(INSIDE) && ValueSpan(INSIDE) == Span(6, 9)
  {
    InsideSeparates();
    ValueOfC();
    hide Separator, WhiteLength, ScalarLength, EndsValue;
    assert INSIDE[5..] == " \"c\"\n" && INSIDE[6..] == "\"c\"\n" && INSIDE[9..] == "\n";
  }

  lemma InsideReads()
    ensures Toml.LexLine(INSIDE, 0, "", 0, false) == ("", 0)
  {
    assert IsLine(INSIDE);
    hide KeyText, HasScalar, ValueSpan, Separator, Toml.LexLine, TomlSplice.IsKey, HeaderOf, IsWhite;
    InsideIsKey();
    InsideHasScalar();
    KeyIsPlain();
    TomlSplice.AssignmentLexes(INSIDE, 0);
  }

  lemma KeyIsPlain()
    ensures TomlSplice.IsKey("p.n")
  {
    var s := "p.n";
    NotQuoted(s, 0);
    NotQuoted(s, 1);
    NotQuoted(s, 2);
    hide Toml.Opening;
    Toml.StepPlain(s, Toml.START, false);
    Toml.StepPlain(s, Toml.Lex(1, "", 0, false), false);
    Toml.StepPlain(s, Toml.Lex(2, "", 0, false), false);
    hide Toml.Step;
    assert Toml.Scan(s, Toml.Lex(2, "", 0, false), false) == Toml.Lex(3, "", 0, false);
    assert Toml.Scan(s, Toml.Lex(1, "", 0, false), false) == Toml.Lex(3, "", 0, false);
  }

  // ---- What the search makes of it ---------------------------------------------------------------------------

  function FiveLines(third: string): seq<string> {
    [SEVEN, OPENS, third, CLOSES, SELECTED]
  }

  lemma JoinFive(a: string, b: string, c: string, d: string, e: string)
    ensures Join([a, b, c, d, e]) == a + (b + (c + (d + e)))
  {
    var s := [a, b, c, d, e];
    assert s[1..] == [b, c, d, e] && [b, c, d, e][1..] == [c, d, e] && [c, d, e][1..] == [d, e];
    JoinTwo(d, e);
    assert Join([c, d, e]) == c + Join([d, e]);
    assert Join([b, c, d, e]) == b + Join([c, d, e]);
  }

  lemma BeforeLines()
    ensures Lines(BEFORE) == FiveLines(INSIDE)
  {
    var lines := FiveLines(INSIDE);
    assert IsLine(SEVEN) && IsLine(OPENS) && IsLine(INSIDE) && IsLine(CLOSES) && IsLine(SELECTED);
    assert EndsLine(SEVEN) && EndsLine(OPENS) && EndsLine(INSIDE) && EndsLine(CLOSES);
    hide Lines, IsLine, EndsLine;
    LinesOfLines(lines);
    JoinFive(SEVEN, OPENS, INSIDE, CLOSES, SELECTED);
  }

  /** The search in a list of lines, some further ones passed. */
  ghost predicate Comes(keyOf: string -> Option<Path>, lines: seq<string>, n: nat, offset: nat, quote: Toml.Quote,
                        found: seq<Span>)
    requires n <= |lines|
  {
    var after := After(keyOf, lines[..n], TARGET);
    && after.Some? && after.value.current == [] && after.value.offset == offset && after.value.quote == quote
    && after.value.depth == 0 && after.value.found == found
  }

  lemma ComesOver(keyOf: string -> Option<Path>, lines: seq<string>, n: nat, offset: nat, quote: Toml.Quote, found: seq<Span>,
                  next: Toml.Quote)
    requires n < |lines| && Comes(keyOf, lines, n, offset, quote, found) && quote != ""
    requires Toml.LexLine(lines[n], 0, quote, 0, false) == (next, 0)
    ensures Comes(keyOf, lines, n + 1, offset + |lines[n]|, next, found)
  {
    hide HeaderOf, TurnLine, After, Toml.LexLine;
    NextLine(keyOf, lines, TARGET, n);
    TurnsOver(keyOf, After(keyOf, lines[..n], TARGET).value, lines[n], TARGET);
  }

  lemma ComesAssigned(keyOf: string -> Option<Path>, lines: seq<string>, n: nat, offset: nat, found: seq<Span>,
                      next: Toml.Quote, span: Option<Span>)
    requires n < |lines| && Comes(keyOf, lines, n, offset, "", found) && HeaderOf(lines[n]) == Ok(None)
    requires AssignmentIn(keyOf, lines[n], [], TARGET) == Ok(span)
    requires Toml.LexLine(lines[n], 0, "", 0, false) == (next, 0)
    ensures Comes(keyOf, lines, n + 1, offset + |lines[n]|, next,
                  if span.None? then found else found + [Span(offset + span.value.start, offset + span.value.end)])
  {
    hide HeaderOf, TurnLine, After, Toml.LexLine, AssignmentIn;
    NextLine(keyOf, lines, TARGET, n);
    TurnsAssignment(keyOf, After(keyOf, lines[..n], TARGET).value, lines[n], TARGET);
  }

  lemma AssignsOther(keyOf: string -> Option<Path>, line: string, key: string)
    requires KeyText(line) == Some(key) && keyOf(key).Some? && keyOf(key).value != TARGET
    ensures AssignmentIn(keyOf, line, [], TARGET) == Ok(None)
  {
    hide KeyText, HasScalar;
    assert [] + keyOf(key).value == keyOf(key).value;
  }

  lemma AssignsNothing(keyOf: string -> Option<Path>, line: string)
    requires KeyText(line) == None
    ensures AssignmentIn(keyOf, line, [], TARGET) == Ok(None)
  {
    hide KeyText;
  }

  lemma FoundInside(keyOf: string -> Option<Path>)
    requires keyOf("a").Some? && keyOf("a").value != TARGET && keyOf("p.n") == Some(TARGET)
    ensures OnlyPlace(keyOf, BEFORE, TARGET) == Some(Span(26, 29))
  {
    hide Toml.LexLine, HeaderOf, KeyText, HasScalar, ValueSpan, Separator, AssignmentIn, After, Lines, TurnLine,
         Comes, Toml.LexLines;
    BeforeLines();
    SevenIsRead();
    SevenAssignsA();
    OpensReads();
    InsideIsKey();
    InsideHasScalar();
    InsideReads();
    ClosesReads();
    var lines := FiveLines(INSIDE);
    ComesFirst(keyOf, lines);
    AssignsOther(keyOf, SEVEN, "a");
    ComesAssigned(keyOf, lines, 0, 0, [], Toml.LITERAL, None);
    ComesOver(keyOf, lines, 1, 12, Toml.LITERAL, [], "");
    assert [] + TARGET == TARGET;
    TomlSplice.AssignsSelected(keyOf, INSIDE, [], TARGET);
    ComesAssigned(keyOf, lines, 2, 20, [], "", Some(Span(6, 9)));
    assert [] + [Span(26, 29)] == [Span(26, 29)];
    AssignsNothing(keyOf, CLOSES);
    ComesAssigned(keyOf, lines, 3, 30, [Span(26, 29)], Toml.LONG_LITERAL, None);
    ComesLast(keyOf, lines, 34);
  }

  lemma ComesFirst(keyOf: string -> Option<Path>, lines: seq<string>)
    ensures Comes(keyOf, lines, 0, 0, "", [])
  {
    AfterNothing(keyOf, lines, TARGET);
  }

  lemma ComesLast(keyOf: string -> Option<Path>, lines: seq<string>, offset: nat)
    requires |lines| == 5 && Comes(keyOf, lines, 4, offset, Toml.LONG_LITERAL, [Span(26, 29)])
    ensures var after := After(keyOf, lines, TARGET); after.Some? && after.value.found == [Span(26, 29)]
  {
    hide HeaderOf, TurnLine, After, Toml.LexLine;
    NextLine(keyOf, lines, TARGET, 4);
    assert lines[..5] == lines;
    TurnsOver(keyOf, After(keyOf, lines[..4], TARGET).value, lines[4], TARGET);
  }

  // ---- The edit --------------------------------------------------------------------------------------------------

  const FIELD := Manifest([P, N], None)
  const VALUE := JString(JsonEditor.Codes("a"))

  lemma InsideIsWritten()
    ensures |BEFORE| >= 29 && BEFORE[26..29] == "\"c\""
    ensures Splice(BEFORE, 26, 29, "\"a\"") == AFTERWARDS
  {
    var front, back := SEVEN + (OPENS + "p.n = "), "\n" + (CLOSES + SELECTED);
    assert |front| == 26 && INSIDE == "p.n = " + ("\"c\"" + "\n") && EDITED == "p.n = " + ("\"a\"" + "\n");
    Regroup("\"c\"", back);
    Regroup("\"a\"", back);
    assert BEFORE == front + ("\"c\"" + back) && AFTERWARDS == front + ("\"a\"" + back);
  }

  lemma Regroup(token: string, back: string)
    requires back == "\n" + (CLOSES + SELECTED)
    ensures SEVEN + (OPENS + (("p.n = " + (token + "\n")) + (CLOSES + SELECTED)))
         == (SEVEN + (OPENS + "p.n = ")) + (token + back)
  {
  }

  lemma AIsWritten()
    ensures Token(VALUE, "\"c\"") == Some("\"a\"")
  {
    var text := JsonEditor.Codes("a");
    assert text == [97] && text[1..] == [] && JsonEditor.Encodable(text);
    assert AsciiEscape(97) == "a" && AsciiEscapes([]) == "";
    assert AsciiEscapes(text) == "a";
    assert ['"'] + ("a" + ['"']) == "\"a\"";
  }

  /** What is read of the two texts: the selected field is "a" in both, and the string beside it differs. */
  function Read(text: CodePoints, seven: Value): Value {
    JObject(map[JsonEditor.Codes("a") := seven, JsonEditor.Codes("b") := JString(text), P := JObject(map[N := VALUE])])
  }

  lemma ReadTarget(text: CodePoints, seven: Value)
    ensures JsonEditor.KeyPath([P, N]) == TARGET && Lookup(Read(text, seven), TARGET) == Some(VALUE)
  {
    assert TARGET[1..] == [Key(N)] && [Key(N)][1..] == [];
    assert Lookup(JObject(map[N := VALUE]), [Key(N)]) == Some(VALUE);
  }

  lemma PutBack(text: CodePoints, seven: Value)
    ensures Put(Read(text, seven), TARGET, VALUE) == Read(text, seven)
  {
    NamesDiffer();
    assert TARGET[1..] == [Key(N)] && TARGET[1..][1..] == [];
    var inner := map[N := VALUE];
    assert inner[N := VALUE] == inner;
    assert Put(JObject(inner), [Key(N)], VALUE) == JObject(inner) by { assert [Key(N)][1..] == []; }
    var fields := Read(text, seven).fields;
    assert fields[P := fields[P]] == fields;
  }

  lemma NamesDiffer()
    ensures JsonEditor.Codes("a") != JsonEditor.Codes("b") && JsonEditor.Codes("a") != P && JsonEditor.Codes("b") != P
  {
    assert JsonEditor.Codes("a")[0] == 97 && JsonEditor.Codes("b")[0] == 98 && P[0] == 112;
  }

  /**
   * For every reader of the two documents: the edit that is to leave "a" in the selected field, where it already
   * stands, is accepted, and what it changes is the string in which the scanner saw an assignment.
   */
  lemma StringIsEdited(reader: Reader, seven: Value, was: CodePoints, now: CodePoints)
    requires reader.keyOf("a").Some? && reader.keyOf("a").value != TARGET && reader.keyOf("p.n") == Some(TARGET)
    requires reader.load(BEFORE) == Some(Read(was, seven)) && reader.load(AFTERWARDS) == Some(Read(now, seven)) && was != now
    ensures EditToml(reader, BEFORE, FIELD, VALUE) == Some(AFTERWARDS)
    ensures !OnlyChanges(reader, BEFORE, FIELD, VALUE, AFTERWARDS)
  {
    FoundInside(reader.keyOf);
    InsideIsWritten();
    AIsWritten();
    ReadTarget(was, seven);
    ReadTarget(now, seven);
    PutBack(was, seven);
    ReadsDiffer(was, now, seven);
    hide Lookup, Put, Token, Splice, OnlyPlace, Read;
    assert Update(Read(was, seven), TARGET, VALUE) == Some(VALUE);
  }

  lemma ReadsDiffer(was: CodePoints, now: CodePoints, seven: Value)
    requires was != now
    ensures Read(was, seven) != Read(now, seven)
  {
    NamesDiffer();
    assert Read(was, seven).fields[JsonEditor.Codes("b")] == JString(was);
  }
}

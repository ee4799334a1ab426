/**
 * The search of scripts/version_plan.py for one assignment in a TOML text, by table, array position and
 * key (_toml_assignments): separators, headers, values, and the lines that are selected.
 */
module TomlScan {
  import opened Wrappers
  import opened Text
  import opened Toml
  import J = Json

  type Path = J.Path

  // ---- Outside of quotes --------------------------------------------------------------------------

  /** The same mark again; in a basic string, not escaped. */
  predicate Closes(line: string, q: nat, e: nat) {
    q < e < |line| && line[e] == line[q] && (line[q] == '"' ==> Backslashes(line, q + 1, e) % 2 == 0)
  }

  predicate EndsBefore(line: string, q: nat, p: nat) {
    exists e: nat :: e < p && Closes(line, q, e)
  }

  /** Every string that is opened outside of strings, from a start on, has ended before an offset. */
  ghost predicate Outside(line: string, start: nat, p: nat)
    decreases p
  {
    && start <= p
    && forall q: nat | start <= q < p && q < |line| && Outside(line, start, q) && IsMark(line[q]) :: EndsBefore(line, q, p)
  }

  /** The first character outside of strings that is one of some characters. */
  ghost predicate FirstAt(line: string, start: nat, stops: set<char>, k: nat) {
    && k < |line| && line[k] in stops && Outside(line, start, k)
    && forall j: nat | j < k && Outside(line, start, j) :: line[j] !in stops
  }

  function FirstStop(line: string, index: nat, quote: Quote, stops: set<char>): (r: Option<nat>)
    ensures r.Some? ==> index <= r.value < |line| && line[r.value] in stops
    decreases |line| - index
  {
    if index >= |line| then None
    else if quote != "" then
      var (next, after) := QuoteStep(line, index, quote, false);
      FirstStop(line, next, after, stops)
    else if IsMark(line[index]) then FirstStop(line, index + 1, Mark(line[index]), stops)
    else if line[index] in stops then Some(index)
    else FirstStop(line, index + 1, "", stops)
  }

  /** Inside the string that was opened at q. */
  ghost predicate Inside(line: string, start: nat, q: nat, i: nat) {
    && q < i && q < |line| && Outside(line, start, q) && IsMark(line[q])
    && (forall e: nat | e < i :: !Closes(line, q, e))
    && (i <= |line| && line[q] == '"' ==> Backslashes(line, q + 1, i) % 2 == 0)
  }

  /** Between an opening mark and its end nothing is outside. */
  lemma NotOutside(line: string, start: nat, q: nat, i: nat, j: nat)
    requires Inside(line, start, q, i) && start <= q < j <= i
    ensures !Outside(line, start, j)
  {
    hide Closes, Backslashes;
    assert !EndsBefore(line, q, j);
  }

  lemma OutsideFurther(line: string, start: nat, i: nat, next: nat)
    requires Outside(line, start, i) && i <= next
    requires forall q: nat | i <= q < next && q < |line| && Outside(line, start, q) && IsMark(line[q]) :: EndsBefore(line, q, next)
    ensures Outside(line, start, next)
  {
    hide Closes;
  }

  lemma OpensInside(line: string, start: nat, i: nat)
    requires Outside(line, start, i) && i < |line| && IsMark(line[i])
    ensures Inside(line, start, i, i + 1)
  {
  }

  lemma PlainOutside(line: string, start: nat, i: nat)
    requires Outside(line, start, i) && i < |line| && !IsMark(line[i])
    ensures Outside(line, start, i + 1)
  {
    hide Closes;
    OutsideFurther(line, start, i, i + 1);
  }

  lemma EscapeInside(line: string, start: nat, q: nat, i: nat)
    requires Inside(line, start, q, i) && i < |line| && line[q] == '"' && line[i] == '\\'
    ensures Inside(line, start, q, i + 2)
  {
    hide Outside;
    assert Backslashes(line, q + 1, i + 1) == 1 + Backslashes(line, q + 1, i);
    assert !Closes(line, q, i) && !Closes(line, q, i + 1);
  }

  lemma MoreInside(line: string, start: nat, q: nat, i: nat)
    requires Inside(line, start, q, i) && i < |line| && line[i] != line[q] && !(line[q] == '"' && line[i] == '\\')
    ensures Inside(line, start, q, i + 1)
  {
    hide Outside;
    assert !Closes(line, q, i);
  }

  lemma ClosedOutside(line: string, start: nat, q: nat, i: nat)
    requires Inside(line, start, q, i) && i < |line| && line[i] == line[q] && start <= q
    ensures Outside(line, start, i + 1)
  {
    assert Closes(line, q, i);
    hide Closes, Backslashes;
    forall j: nat | q < j <= i ensures !Outside(line, start, j) { NotOutside(line, start, q, i, j); }
    assert EndsBefore(line, q, i + 1);
    OutsideFurther(line, start, q, i + 1);
  }

  /** Where a scan stands: outside, or inside the string opened at q. */
  ghost predicate StandsAt(line: string, start: nat, q: nat, index: nat, quote: Quote) {
    if quote == "" then Outside(line, start, index)
    else start <= q && Inside(line, start, q, index) && quote == Mark(line[q])
  }

  /** Nothing outside in front of an offset is a stop. */
  ghost predicate Quiet(line: string, start: nat, stops: set<char>, index: nat) {
    forall j: nat | j < index && j < |line| && Outside(line, start, j) :: line[j] !in stops
  }

  lemma InsideIsQuiet(line: string, start: nat, stops: set<char>, q: nat, i: nat, index: nat, next: nat)
    requires start <= q && Inside(line, start, q, i) && q < index <= next <= i + 1 && Quiet(line, start, stops, index)
    ensures Quiet(line, start, stops, next)
  {
    hide Inside, Outside;
    forall j: nat ensures index <= j < next ==> !Outside(line, start, j) {
      if index <= j < next { NotOutside(line, start, q, i, j); }
    }
  }

  lemma OpenedAt(line: string, start: nat, q: nat, index: nat)
    requires Inside(line, start, q, index)
    ensures q < index && q < |line| && IsMark(line[q])
  {
  }

  lemma OneMarkStep(line: string, index: nat, c: char, grammar: bool := false)
    requires index < |line| && IsMark(c)
    ensures QuoteStep(line, index, Mark(c), grammar)
         == if c == '"' && line[index] == '\\' then (index + 2, Mark(c))
            else if line[index] == c then (index + 1, "") else (index + 1, Mark(c))
  {
    QuoteStands(line, index, c);
  }

  /** One step inside a string. */
  lemma InsideTurn(line: string, start: nat, stops: set<char>, q: nat, index: nat, quote: Quote)
    requires index < |line| && quote != "" && StandsAt(line, start, q, index, quote) && Quiet(line, start, stops, index)
    ensures var (next, after) := QuoteStep(line, index, quote, false);
            StandsAt(line, start, q, next, after) && Quiet(line, start, stops, next)
  {
    OpenedAt(line, start, q, index);
    OneMarkStep(line, index, line[q]);
    hide Outside, Inside, Closes, Quiet, QuoteStep;
    if line[q] == '"' && line[index] == '\\' {
      EscapeInside(line, start, q, index);
      InsideIsQuiet(line, start, stops, q, index + 2, index, index + 2);
    } else if line[index] == line[q] {
      ClosedOutside(line, start, q, index);
      InsideIsQuiet(line, start, stops, q, index, index, index + 1);
    } else {
      MoreInside(line, start, q, index);
      InsideIsQuiet(line, start, stops, q, index + 1, index, index + 1);
    }
  }

  lemma QuietStep(line: string, start: nat, stops: set<char>, index: nat)
    requires Quiet(line, start, stops, index) && index < |line| && line[index] !in stops
    ensures Quiet(line, start, stops, index + 1)
  {
    hide Outside;
  }

  lemma FirstFound(line: string, start: nat, stops: set<char>, index: nat)
    requires Outside(line, start, index) && Quiet(line, start, stops, index) && index < |line| && line[index] in stops
    ensures FirstAt(line, start, stops, index)
  {
    hide Outside;
  }

  lemma NoneFound(line: string, start: nat, stops: set<char>, index: nat)
    requires index >= |line| && Quiet(line, start, stops, index)
    ensures forall k: nat :: !FirstAt(line, start, stops, k)
  {
    hide Outside;
  }

  /** The scan stops at the first stop outside of strings, and misses none. */
  lemma {:induction false} StopIsFirst(line: string, start: nat, stops: set<char>, q: nat, index: nat, quote: Quote)
    requires StandsAt(line, start, q, index, quote) && Quiet(line, start, stops, index)
    requires '"' !in stops && '\'' !in stops
    ensures var r := FirstStop(line, index, quote, stops);
            && (r.Some? ==> FirstAt(line, start, stops, r.value))
            && (r.None? ==> forall k: nat :: !FirstAt(line, start, stops, k))
    decreases |line| - index
  {
    hide Outside, Inside, Quiet, FirstAt, QuoteStep;
    if index >= |line| {
      NoneFound(line, start, stops, index);
    } else if quote != "" {
      InsideTurn(line, start, stops, q, index, quote);
      QuoteAdvances(line, index, quote, false);
      var (next, after) := QuoteStep(line, index, quote, false);
      StopIsFirst(line, start, stops, q, next, after);
    } else if IsMark(line[index]) {
      OutsideStart(line, start, index);
      OpensInside(line, start, index);
      QuietStep(line, start, stops, index);
      StopIsFirst(line, start, stops, index, index + 1, Mark(line[index]));
    } else if line[index] in stops {
      FirstFound(line, start, stops, index);
    } else {
      PlainOutside(line, start, index);
      QuietStep(line, start, stops, index);
      StopIsFirst(line, start, stops, q, index + 1, "");
    }
  }

  lemma OutsideStart(line: string, start: nat, index: nat)
    requires Outside(line, start, index)
    ensures start <= index
  {
  }

  lemma FirstIsUnique(line: string, start: nat, stops: set<char>, j: nat, k: nat)
    requires FirstAt(line, start, stops, j) && FirstAt(line, start, stops, k)
    ensures j == k
  {
    hide Outside;
  }

  lemma StartOutside(line: string, start: nat, stops: set<char>)
    ensures Outside(line, start, start) && Quiet(line, start, stops, start)
  {
    forall j: nat ensures j < start ==> !Outside(line, start, j) {
    }
  }

  /** A scan from a start finds exactly the first stop outside of strings. */
  lemma FirstStopMeans(line: string, start: nat, stops: set<char>, k: nat)
    requires '"' !in stops && '\'' !in stops
    ensures FirstStop(line, start, "", stops) == Some(k) <==> FirstAt(line, start, stops, k)
  {
    hide Outside, FirstAt, FirstStop, Quiet;
    StartOutside(line, start, stops);
    StopIsFirst(line, start, stops, 0, start, "");
    var r := FirstStop(line, start, "", stops);
    if r.Some? && FirstAt(line, start, stops, k) { FirstIsUnique(line, start, stops, r.value, k); }
  }

  // ---- Parts of a line --------------------------------------------------------------------------------

  const SEPARATING := {'=', '#', '\r', '\n'}
  const CLOSING := {']'}

  /** The equals sign in front of any comment, outside of strings. */
  function Separator(line: string): (r: Option<nat>)
    ensures r.Some? ==> r.value < |line| && line[r.value] == '='
  {
    var k := FirstStop(line, 0, "", SEPARATING);
    if k.Some? && line[k.value] == '=' then k else None
  }

  /** It is the first of equals sign, comment and line end outside of strings, if that is an equals sign. */
  method AssignmentSeparator(line: string) returns (r: Option<nat>)
    ensures r == Separator(line)
    ensures forall k: nat :: r == Some(k) <==> SeparatesAt(line, k)
  {
    hide SeparatesAt;
    var index, quote: Quote := 0, "";
    while index < |line|
      invariant FirstStop(line, 0, "", SEPARATING) == FirstStop(line, index, quote, SEPARATING)
      decreases |line| - index
    {
      if quote != "" {
        var (next, after) := QuoteStep(line, index, quote, false);
        index, quote := next, after;
        continue;
      }
      var character := line[index];
      if IsMark(character) {
        quote := Mark(character);
      } else if character == '#' || character == '\r' || character == '\n' {
        SeparatorMeans(line);
        return None;
      } else if character == '=' {
        SeparatorMeans(line);
        return Some(index);
      }
      index := index + 1;
    }
    SeparatorMeans(line);
    return None;
  }

  ghost predicate SeparatesAt(line: string, k: nat) {
    FirstAt(line, 0, SEPARATING, k) && k < |line| && line[k] == '='
  }

  lemma SeparatorMeans(line: string)
    ensures forall k: nat :: Separator(line) == Some(k) <==> SeparatesAt(line, k)
  {
    hide FirstAt, FirstStop;
    forall k: nat ensures Separator(line) == Some(k) <==> SeparatesAt(line, k) {
      FirstStopMeans(line, 0, SEPARATING, k);
      FirstInside(line, 0, SEPARATING, k);
    }
  }

  lemma FirstInside(line: string, start: nat, stops: set<char>, k: nat)
    ensures FirstAt(line, start, stops, k) ==> k < |line|
  {
  }

  /** Length of the rest of a basic string with its closing mark, 0 when it does not close on its line. */
  function BasicRest(s: string): (n: nat)
    ensures n <= |s|
  {
    if s == "" || s[0] == '\r' || s[0] == '\n' then 0
    else if s[0] == '"' then 1
    else
      var unit := if s[0] == '\\' then 2 else 1;
      if |s| < unit || (unit == 2 && s[1] == '\n') then 0
      else
        var rest := BasicRest(s[unit..]);
        if rest == 0 then 0 else unit + rest
  }

  function LiteralRest(s: string): (n: nat)
    ensures n <= |s|
  {
    if s == "" || s[0] == '\r' || s[0] == '\n' then 0
    else if s[0] == '\'' then 1
    else
      var rest := LiteralRest(s[1..]);
      if rest == 0 then 0 else 1 + rest
  }

  function DigitsLength(s: string): (n: nat)
    ensures n <= |s|
  {
    if s == "" || !(IsDigit(s[0]) || s[0] == '_') then 0 else 1 + DigitsLength(s[1..])
  }

  /** Length of the single-line scalar at the start of a text: basic string, literal string or integer. */
  function ScalarLength(s: string): (n: nat)
    ensures n <= |s|
  {
    if s == "" then 0
    else if s[0] == '"' then (if BasicRest(s[1..]) == 0 then 0 else 1 + BasicRest(s[1..]))
    else if s[0] == '\'' then (if LiteralRest(s[1..]) == 0 then 0 else 1 + LiteralRest(s[1..]))
    else
      var sign := if s[0] == '+' || s[0] == '-' then 1 else 0;
      if |s| > sign && IsDigit(s[sign]) then sign + DigitsLength(s[sign..]) else 0
  }

  /** A table header line: one or two opening brackets, and the text of its key. */
  datatype Header = Header(isArray: bool, key: string)

  function HeaderEnd(line: string, opening: nat, index: nat): Result<Option<Header>, string>
    requires opening <= index < |line|
  {
    var closing := if StartsAt(line, index, "]]") then 2 else 1;
    var suffix := Strip(if index + closing <= |line| then line[index + closing..] else "");
    if suffix != "" && suffix[0] != '#' then Ok(None)
    else if opening != closing then Err("Malformed TOML table header")
    else Ok(Some(Header(opening == 2, line[opening..index])))
  }

  /** How many brackets open a line that begins with one. */
  function OpeningLength(t: string): (n: nat)
    requires t != ""
    ensures n <= |t|
  {
    if StartsAt(t, 0, "[[") then 2 else 1
  }

  function HeaderOf(line: string): Result<Option<Header>, string> {
    var t := line[WhiteLength(line)..];
    if t == "" || t[0] != '[' then Ok(None)
    else
      var k := FirstStop(t, OpeningLength(t), "", CLOSING);
      if k.None? then Ok(None) else HeaderEnd(t, OpeningLength(t), k.value)
  }

  /** Only the first closing bracket outside of strings can end a header. */
  method TableHeader(line: string) returns (r: Result<Option<Header>, string>)
    ensures r == HeaderOf(line)
    ensures r.Err? || r.value.Some? ==>
              var t := line[WhiteLength(line)..];
              && t != "" && t[0] == '['
              && exists k: nat :: FirstAt(t, OpeningLength(t), CLOSING, k) && OpeningLength(t) <= k < |t|
                                  && r == HeaderEnd(t, OpeningLength(t), k)
  {
    hide HeaderEnd, QuoteStep, FirstAt;
    var t := line[WhiteLength(line)..];
    if t == "" || t[0] != '[' {
      return Ok(None);
    }
    var opening := OpeningLength(t);
    var index: nat, quote: Quote := opening, "";
    while index < |t|
      invariant opening <= index && FirstStop(t, opening, "", CLOSING) == FirstStop(t, index, quote, CLOSING)
      decreases |t| - index
    {
      if quote != "" {
        QuoteAdvances(t, index, quote, false);
        var (next, after) := QuoteStep(t, index, quote, false);
        index, quote := next, after;
        continue;
      }
      if IsMark(t[index]) {
        quote := Mark(t[index]);
      } else if t[index] == ']' {
        FirstStopMeans(t, opening, CLOSING, index);
        return HeaderEnd(t, opening, index);
      }
      index := index + 1;
    }
    return Ok(None);
  }

  datatype Span = Span(start: nat, end: nat)

  /** The text of the key of an assignment. */
  function KeyText(line: string): Option<string> {
    var separator := Separator(line);
    if separator.None? || Strip(line[..separator.value]) == "" then None else Some(Strip(line[..separator.value]))
  }

  /** Where the value of an assignment begins, and how long its scalar is. */
  function ValueSpan(line: string): (r: Span)
    requires Separator(line).Some?
    ensures r.start <= r.end <= |line| && ScalarLength(line[r.start..]) == r.end - r.start
  {
    var from := Separator(line).value + 1;
    var start := from + WhiteLength(line[from..]);
    Span(start, start + ScalarLength(line[start..]))
  }

  /** A comment, or nothing but white space. */
  predicate EndsValue(suffix: string) {
    var rest := suffix[WhiteLength(suffix)..];
    rest == "" || rest[0] == '#'
  }

  /** The value is one scalar on its line. */
  predicate HasScalar(line: string)
    requires Separator(line).Some?
  {
    ValueSpan(line).start < ValueSpan(line).end && EndsValue(line[ValueSpan(line).end..])
  }

  /** Where the selected value stands in its line, if the line assigns the selected key. */
  function AssignmentIn(keyOf: string -> Option<Path>, line: string, current: Path, target: Path): Result<Option<Span>, string> {
    var text := KeyText(line);
    if text.None? then Ok(None)
    else
      var key := keyOf(text.value);
      if key.None? then Err("Unsupported TOML key")
      else if current + key.value != target then Ok(None)
      else if !HasScalar(line) then Err("Owned TOML value must be a single-line scalar")
      else Ok(Some(ValueSpan(line)))
  }

  // ---- Tables and assignments ------------------------------------------------------------------------

  /** The scanner between two lines. */
  datatype Place = Place(current: Path, arrays: map<Path, nat>, offset: nat, quote: Quote, depth: int,
                         found: seq<Span>)

  const BEGIN := Place([], map[], 0, "", 0, [])

  predicate Continues(p: Place) {
    p.quote != "" || p.depth > 0
  }

  function EnterTable(keyOf: string -> Option<Path>, p: Place, h: Header): Option<Place> {
    var key := keyOf(h.key);
    if key.None? then None
    else if h.isArray then
      var index := if key.value in p.arrays then p.arrays[key.value] + 1 else 0;
      Some(p.(current := key.value + [J.Index(index)], arrays := p.arrays[key.value := index]))
    else Some(p.(current := key.value))
  }

  function TurnLine(keyOf: string -> Option<Path>, p: Place, line: string, target: Path): Option<Place> {
    var (quote, depth) := LexLine(line, 0, p.quote, p.depth, false);
    var next := p.(offset := p.offset + |line|, quote := quote, depth := depth);
    if Continues(p) then Some(next)
    else
      var header := HeaderOf(line);
      if header.Err? then None
      else if header.value.Some? then EnterTable(keyOf, next, header.value.value)
      else
        var assignment := AssignmentIn(keyOf, line, p.current, target);
        if assignment.Err? then None
        else if assignment.value.None? then Some(next)
        else
          var span := assignment.value.value;
          Some(next.(found := p.found + [Span(p.offset + span.start, p.offset + span.end)]))
  }

  function After(keyOf: string -> Option<Path>, lines: seq<string>, target: Path): Option<Place> {
    if lines == [] then Some(BEGIN)
    else
      var before := After(keyOf, lines[..|lines| - 1], target);
      if before.None? then None else TurnLine(keyOf, before.value, lines[|lines| - 1], target)
  }

  lemma {:induction false} AfterStuck(keyOf: string -> Option<Path>, lines: seq<string>, target: Path, n: nat)
    requires n <= |lines| && After(keyOf, lines[..n], target).None?
    ensures After(keyOf, lines, target).None?
  {
    if n < |lines| {
      assert lines[..|lines| - 1][..n] == lines[..n];
      AfterStuck(keyOf, lines[..|lines| - 1], target, n);
    } else {
      assert lines[..n] == lines;
    }
  }

  lemma AfterNothing(keyOf: string -> Option<Path>, lines: seq<string>, target: Path)
    ensures lines[..|lines|] == lines && After(keyOf, lines[..0], target) == Some(BEGIN)
  {
  }

  lemma NextLine(keyOf: string -> Option<Path>, lines: seq<string>, target: Path, i: nat)
    requires i < |lines| && After(keyOf, lines[..i], target).Some?
    ensures After(keyOf, lines[..i + 1], target)
         == TurnLine(keyOf, After(keyOf, lines[..i], target).value, lines[i], target)
    ensures After(keyOf, lines[..i + 1], target).None? ==> After(keyOf, lines, target).None?
  {
    hide TurnLine;
    assert lines[..i + 1][..i] == lines[..i];
    if After(keyOf, lines[..i + 1], target).None? { AfterStuck(keyOf, lines, target, i + 1); }
  }

  function Passed(p: Place, line: string): Place {
    var (quote, depth) := LexLine(line, 0, p.quote, p.depth, false);
    p.(offset := p.offset + |line|, quote := quote, depth := depth)
  }

  lemma TurnsOver(keyOf: string -> Option<Path>, p: Place, line: string, target: Path)
    requires Continues(p) || HeaderOf(line).Err?
    ensures TurnLine(keyOf, p, line, target) == if Continues(p) then Some(Passed(p, line)) else None
  {
    hide LexLine, HeaderOf;
  }

  lemma TurnsTable(keyOf: string -> Option<Path>, p: Place, line: string, target: Path, h: Header)
    requires !Continues(p) && HeaderOf(line) == Ok(Some(h))
    ensures TurnLine(keyOf, p, line, target) == EnterTable(keyOf, Passed(p, line), h)
  {
    hide LexLine, HeaderOf;
  }

  lemma TurnsAssignment(keyOf: string -> Option<Path>, p: Place, line: string, target: Path)
    requires !Continues(p) && HeaderOf(line) == Ok(None)
    ensures TurnLine(keyOf, p, line, target) ==
              match AssignmentIn(keyOf, line, p.current, target)
              case Err(_) => None
              case Ok(None) => Some(Passed(p, line))
              case Ok(Some(span)) =>
                Some(Passed(p, line).(found := p.found + [Span(p.offset + span.start, p.offset + span.end)]))
  {
    hide LexLine, HeaderOf, AssignmentIn;
  }

  /** The places of all assignments to the target, or nothing when the scanner gives up. */
  method Assignments(keyOf: string -> Option<Path>, text: string, target: Path) returns (result: Option<seq<Span>>)
    ensures var after := After(keyOf, Lines(text), target);
            result == if after.None? then None else Some(after.value.found)
  {
    hide LexLine, HeaderOf, AssignmentIn, Lines, After, TurnLine, FirstAt, EnterTable, HeaderEnd, WhiteLength,
         OpeningLength, Continues;
    var lines := Lines(text);
    AfterNothing(keyOf, lines, target);
    var place := BEGIN;
    for i := 0 to |lines|
      invariant After(keyOf, lines[..i], target) == Some(place)
    {
      NextLine(keyOf, lines, target, i);
      var line := lines[i];
      var continuation := Continues(place);
      var quote, depth := LexicalState(line, place.quote, place.depth);
      var passed := place.(offset := place.offset + |line|, quote := quote, depth := depth);
      if continuation {
        TurnsOver(keyOf, place, line, target);
        place := passed;
        continue;
      }
      var header := TableHeader(line);
      if header.Err? {
        TurnsOver(keyOf, place, line, target);
        return None;
      }
      if header.value.Some? {
        TurnsTable(keyOf, place, line, target, header.value.value);
        var entered := EnterTable(keyOf, passed, header.value.value);
        if entered.None? {
          return None;
        }
        place := entered.value;
      } else {
        TurnsAssignment(keyOf, place, line, target);
        var assignment := AssignmentIn(keyOf, line, place.current, target);
        if assignment.Err? {
          return None;
        }
        if assignment.value.Some? {
          var span := assignment.value.value;
          passed := passed.(found := place.found + [Span(place.offset + span.start, place.offset + span.end)]);
        }
        place := passed;
      }
    }
    return Some(place.found);
  }

  // ---- What the places are --------------------------------------------------------------------------

  lemma TurnMoves(keyOf: string -> Option<Path>, p: Place, line: string, target: Path)
    requires TurnLine(keyOf, p, line, target).Some?
    ensures var next, passed := TurnLine(keyOf, p, line, target).value, Passed(p, line);
            next.offset == passed.offset && next.quote == passed.quote && next.depth == passed.depth
  {
    hide LexLine, HeaderOf, AssignmentIn;
  }

  /** The scanner's offset and lexical state are those of the text in front of the line. */
  lemma {:induction false} PlaceIs(keyOf: string -> Option<Path>, lines: seq<string>, target: Path)
    requires After(keyOf, lines, target).Some?
    ensures var p := After(keyOf, lines, target).value;
            p.offset == |Join(lines)| && (p.quote, p.depth) == LexLines(lines, false)
  {
    hide LexLine, TurnLine;
    if lines != [] {
      var front, last := lines[..|lines| - 1], lines[|lines| - 1];
      PlaceIs(keyOf, front, target);
      TurnMoves(keyOf, After(keyOf, front, target).value, last, target);
      assert lines == front + [last];
      JoinAppend(front, [last]);
      assert Join([last]) == last + Join([]);
    }
  }

  /** A line that stands outside every string and bracket, as the scanner reads the text or as the grammar does. */
  predicate IsTopLevel(lines: seq<string>, i: nat, grammar: bool := false)
    requires i <= |lines|
  {
    LexLines(lines[..i], grammar).0 == "" && LexLines(lines[..i], grammar).1 <= 0
  }

  /** How many of some lines open the next table of an array of tables. */
  function ArrayHeaders(keyOf: string -> Option<Path>, lines: seq<string>, key: Path, grammar: bool := false): nat {
    if lines == [] then 0
    else
      ArrayHeaders(keyOf, lines[..|lines| - 1], key, grammar)
      + if IsTopLevel(lines, |lines| - 1, grammar) && OpensArray(keyOf, lines[|lines| - 1], key) then 1 else 0
  }

  predicate OpensArray(keyOf: string -> Option<Path>, line: string, key: Path) {
    var header := HeaderOf(line);
    header.Ok? && header.value.Some? && header.value.value.isArray && keyOf(header.value.value.key) == Some(key)
  }

  /** The counter of an array of tables is the number of its headers so far. */
  lemma {:induction false} ArraysAreCounted(keyOf: string -> Option<Path>, lines: seq<string>, target: Path, key: Path)
    requires After(keyOf, lines, target).Some?
    ensures var arrays := After(keyOf, lines, target).value.arrays;
            (if key in arrays then arrays[key] + 1 else 0) == ArrayHeaders(keyOf, lines, key)
  {
    hide LexLine, HeaderOf, AssignmentIn;
    if lines != [] {
      var front, last := lines[..|lines| - 1], lines[|lines| - 1];
      ArraysAreCounted(keyOf, front, target, key);
      PlaceIs(keyOf, front, target);
    }
  }

  // ---- The table of a line ---------------------------------------------------------------------------

  predicate IsHeader(line: string) {
    HeaderOf(line).Ok? && HeaderOf(line).value.Some?
  }

  /** A header outside of every string and bracket. */
  predicate HeaderLine(lines: seq<string>, j: nat, grammar: bool := false) {
    j < |lines| && IsTopLevel(lines, j, grammar) && IsHeader(lines[j])
  }

  /** The last header line in front of a line. */
  function LastHeader(lines: seq<string>, i: nat, grammar: bool := false): (j: Option<nat>)
    requires i <= |lines|
    ensures j.Some? ==> j.value < i && HeaderLine(lines, j.value, grammar)
  {
    if i == 0 then None else if HeaderLine(lines, i - 1, grammar) then Some(i - 1) else LastHeader(lines, i - 1, grammar)
  }

  lemma {:induction false} NoneBehindLast(lines: seq<string>, i: nat, k: nat)
    requires k < i <= |lines| && HeaderLine(lines, k)
    ensures LastHeader(lines, i).Some? && LastHeader(lines, i).value >= k
  {
    hide HeaderLine;
    if !HeaderLine(lines, i - 1) { NoneBehindLast(lines, i - 1, k); }
  }

  /**
   * The table that a line stands in: that of the last header in front of it, and for a table of an array
   * with as index the number of earlier headers of that array.
   */
  function TableAt(keyOf: string -> Option<Path>, lines: seq<string>, i: nat, grammar: bool := false): Path
    requires i <= |lines|
  {
    var j := LastHeader(lines, i, grammar);
    if j.None? then []
    else
      var h := HeaderOf(lines[j.value]).value.value;
      var key := keyOf(h.key);
      if key.None? then []
      else if h.isArray then key.value + [J.Index(ArrayHeaders(keyOf, lines[..j.value], key.value, grammar))]
      else key.value
  }

  /** In front of every line the scanner is in the table of that line. */
  lemma {:induction false} CurrentIsTable(keyOf: string -> Option<Path>, lines: seq<string>, target: Path, i: nat)
    requires i <= |lines| && After(keyOf, lines[..i], target).Some?
    ensures After(keyOf, lines[..i], target).value.current == TableAt(keyOf, lines, i)
  {
    hide HeaderOf, AssignmentIn, TurnLine, LexLines, ArrayHeaders, OpensArray;
    if i == 0 {
      AfterNothing(keyOf, lines, target);
    } else {
      assert lines[..i][..i - 1] == lines[..i - 1];
      assert After(keyOf, lines[..i - 1], target).Some?;
      CurrentIsTable(keyOf, lines, target, i - 1);
      NextLine(keyOf, lines, target, i - 1);
      PlaceIs(keyOf, lines[..i - 1], target);
      var p := After(keyOf, lines[..i - 1], target).value;
      if HeaderLine(lines, i - 1) {
        HeaderEnters(keyOf, lines, target, i - 1, p);
      } else {
        OtherwiseStays(keyOf, lines, target, i - 1, p);
      }
    }
  }

  lemma HeaderEnters(keyOf: string -> Option<Path>, lines: seq<string>, target: Path, j: nat, p: Place)
    requires HeaderLine(lines, j) && After(keyOf, lines[..j], target) == Some(p)
    requires TurnLine(keyOf, p, lines[j], target).Some? && (p.quote, p.depth) == LexLines(lines[..j], false)
    ensures var h := HeaderOf(lines[j]).value.value;
            && keyOf(h.key).Some?
            && TurnLine(keyOf, p, lines[j], target).value.current ==
                 if h.isArray then keyOf(h.key).value + [J.Index(ArrayHeaders(keyOf, lines[..j], keyOf(h.key).value))]
                 else keyOf(h.key).value
  {
    hide HeaderOf, AssignmentIn, TurnLine, LexLines, ArrayHeaders, After;
    var h := HeaderOf(lines[j]).value.value;
    TurnsTable(keyOf, p, lines[j], target, h);
    ArraysAreCounted(keyOf, lines[..j], target, keyOf(h.key).value);
  }

  lemma OtherwiseStays(keyOf: string -> Option<Path>, lines: seq<string>, target: Path, j: nat, p: Place)
    requires j < |lines| && !HeaderLine(lines, j) && TurnLine(keyOf, p, lines[j], target).Some?
    requires (p.quote, p.depth) == LexLines(lines[..j], false)
    ensures TurnLine(keyOf, p, lines[j], target).value.current == p.current
  {
    hide HeaderOf, AssignmentIn, TurnLine, LexLines;
    if Continues(p) || HeaderOf(lines[j]).Err? {
      TurnsOver(keyOf, p, lines[j], target);
    } else {
      TurnsAssignment(keyOf, p, lines[j], target);
    }
  }

  // ---- Which lines are found ---------------------------------------------------------------------------

  /** A line that assigns the selected key: outside of strings and brackets, in the table and by the key. */
  predicate Selects(keyOf: string -> Option<Path>, lines: seq<string>, target: Path, i: nat, grammar: bool := false) {
    && i < |lines| && IsTopLevel(lines, i, grammar) && !IsHeader(lines[i])
    && KeyText(lines[i]).Some? && keyOf(KeyText(lines[i]).value).Some?
    && TableAt(keyOf, lines, i, grammar) + keyOf(KeyText(lines[i]).value).value == target
  }

  /** Where the value of a line stands in the text. */
  function PlaceAt(lines: seq<string>, i: nat): Span
    requires i < |lines| && Separator(lines[i]).Some?
  {
    var offset, span := |Join(lines[..i])|, ValueSpan(lines[i]);
    Span(offset + span.start, offset + span.end)
  }

  /** The places of all selected lines among the first ones, in order. */
  function SelectedPlaces(keyOf: string -> Option<Path>, lines: seq<string>, target: Path, n: nat,
                          grammar: bool := false): seq<Span>
    requires n <= |lines|
  {
    if n == 0 then []
    else
      SelectedPlaces(keyOf, lines, target, n - 1, grammar)
      + if Selects(keyOf, lines, target, n - 1, grammar) then [PlaceAt(lines, n - 1)] else []
  }

  /** A line that makes the scanner give up: a malformed header, an unreadable key, or a value that is no scalar. */
  predicate Fails(keyOf: string -> Option<Path>, lines: seq<string>, target: Path, i: nat, grammar: bool := false) {
    && i < |lines| && IsTopLevel(lines, i, grammar)
    && match HeaderOf(lines[i])
       case Err(_) => true
       case Ok(Some(h)) => keyOf(h.key).None?
       case Ok(None) =>
         && KeyText(lines[i]).Some?
         && (keyOf(KeyText(lines[i]).value).None? || (Selects(keyOf, lines, target, i, grammar) && !HasScalar(lines[i])))
  }

  lemma ContinuesInside(lines: seq<string>, i: nat, p: Place)
    requires i < |lines| && (p.quote, p.depth) == LexLines(lines[..i], false)
    ensures Continues(p) <==> !IsTopLevel(lines, i)
  {
    hide LexLines;
  }

  lemma InsideIsPassed(keyOf: string -> Option<Path>, lines: seq<string>, target: Path, i: nat)
    requires i < |lines| && !IsTopLevel(lines, i)
    ensures !Fails(keyOf, lines, target, i) && !Selects(keyOf, lines, target, i)
  {
    hide HeaderOf, LexLines, TableAt;
  }

  lemma HeaderDecides(keyOf: string -> Option<Path>, lines: seq<string>, target: Path, i: nat)
    requires i < |lines| && IsTopLevel(lines, i) && HeaderOf(lines[i]) != Ok(None)
    ensures var header := HeaderOf(lines[i]);
            if header.Err? then Fails(keyOf, lines, target, i)
            else !Selects(keyOf, lines, target, i)
                 && (Fails(keyOf, lines, target, i) <==> keyOf(header.value.value.key).None?)
  {
    hide HeaderOf, LexLines, TableAt;
  }

  /** One line more: it fails, or its place is added if it is selected. */
  lemma OneLineMore(keyOf: string -> Option<Path>, lines: seq<string>, target: Path, i: nat)
    requires i < |lines| && After(keyOf, lines[..i], target).Some?
    ensures var next := After(keyOf, lines[..i + 1], target);
            && (next.None? <==> Fails(keyOf, lines, target, i))
            && (next.Some? ==>
                  next.value.found == After(keyOf, lines[..i], target).value.found
                                      + if Selects(keyOf, lines, target, i) then [PlaceAt(lines, i)] else [])
  {
    hide HeaderOf, LexLines, After, TurnLine, TableAt, Join, AssignmentIn, LexLine, Fails, Selects, PlaceAt, IsTopLevel, Continues;
    var p, line := After(keyOf, lines[..i], target).value, lines[i];
    NextLine(keyOf, lines, target, i);
    PlaceIs(keyOf, lines[..i], target);
    CurrentIsTable(keyOf, lines, target, i);
    ContinuesInside(lines, i, p);
    if Continues(p) || HeaderOf(line).Err? {
      TurnsOver(keyOf, p, line, target);
      if Continues(p) { InsideIsPassed(keyOf, lines, target, i); } else { HeaderDecides(keyOf, lines, target, i); }
    } else if HeaderOf(line).value.Some? {
      TurnsTable(keyOf, p, line, target, HeaderOf(line).value.value);
      HeaderDecides(keyOf, lines, target, i);
    } else {
      TurnsAssignment(keyOf, p, line, target);
      AssignsOrFails(keyOf, lines, target, i, p);
    }
  }

  lemma AssignsOrFails(keyOf: string -> Option<Path>, lines: seq<string>, target: Path, i: nat, p: Place)
    requires i < |lines| && IsTopLevel(lines, i) && HeaderOf(lines[i]) == Ok(None)
    requires p.current == TableAt(keyOf, lines, i) && p.offset == |Join(lines[..i])|
    ensures var assignment := AssignmentIn(keyOf, lines[i], p.current, target);
            && (assignment.Err? <==> Fails(keyOf, lines, target, i))
            && (assignment.Ok? ==>
                  (if assignment.value.None? then [] else
                     [Span(p.offset + assignment.value.value.start, p.offset + assignment.value.value.end)])
                  == if Selects(keyOf, lines, target, i) then [PlaceAt(lines, i)] else [])
  {
    hide HeaderOf, LexLines, TableAt, HasScalar, ValueSpan, Join;
  }

  /**
   * The scanner gives up exactly when some line fails. Otherwise it finds exactly the values of the
   * selected lines, in order.
   */
  lemma {:induction false} FindsExactlySelected(keyOf: string -> Option<Path>, lines: seq<string>, target: Path, n: nat)
    requires n <= |lines|
    ensures After(keyOf, lines[..n], target).None? <==> exists i: nat :: i < n && Fails(keyOf, lines, target, i)
    ensures After(keyOf, lines[..n], target).Some? ==>
              After(keyOf, lines[..n], target).value.found == SelectedPlaces(keyOf, lines, target, n)
  {
    hide Fails, Selects, After, PlaceAt;
    if n == 0 {
      AfterNothing(keyOf, lines, target);
    } else {
      FindsExactlySelected(keyOf, lines, target, n - 1);
      if After(keyOf, lines[..n - 1], target).Some? {
        OneLineMore(keyOf, lines, target, n - 1);
      } else {
        assert lines[..n][..n - 1] == lines[..n - 1];
        AfterStuck(keyOf, lines[..n], target, n - 1);
      }
    }
  }

  predicate IsPlaceOf(keyOf: string -> Option<Path>, lines: seq<string>, target: Path, i: nat, place: Span) {
    Selects(keyOf, lines, target, i) && place == PlaceAt(lines, i)
  }

  lemma {:induction false} PlacedBy(keyOf: string -> Option<Path>, lines: seq<string>, target: Path, n: nat, place: Span)
    requires n <= |lines|
    ensures place in SelectedPlaces(keyOf, lines, target, n)
       <==> exists i: nat :: i < n && IsPlaceOf(keyOf, lines, target, i, place)
  {
    hide Selects, PlaceAt;
    if n > 0 {
      PlacedBy(keyOf, lines, target, n - 1, place);
      if place in SelectedPlaces(keyOf, lines, target, n - 1) {
        var i: nat :| i < n - 1 && IsPlaceOf(keyOf, lines, target, i, place);
        assert i < n;
      } else if place in SelectedPlaces(keyOf, lines, target, n) {
        assert IsPlaceOf(keyOf, lines, target, n - 1, place);
      }
    }
  }

  /** The places are those of the selected lines and no others, each in front of the next. */
  lemma PlacesAreSelected(keyOf: string -> Option<Path>, lines: seq<string>, target: Path, n: nat)
    requires n <= |lines|
    ensures var places := SelectedPlaces(keyOf, lines, target, n);
            && (forall place :: place in places <==> exists i: nat :: i < n && IsPlaceOf(keyOf, lines, target, i, place))
            && (forall j, k | 0 <= j < k < |places| :: places[j].end <= places[k].start)
  {
    hide SelectedPlaces, IsPlaceOf;
    PlacesAscend(keyOf, lines, target, n);
    forall place ensures place in SelectedPlaces(keyOf, lines, target, n)
                    <==> exists i: nat :: i < n && IsPlaceOf(keyOf, lines, target, i, place)
    {
      PlacedBy(keyOf, lines, target, n, place);
    }
  }

  lemma {:induction false} PlacesAscend(keyOf: string -> Option<Path>, lines: seq<string>, target: Path, n: nat)
    requires n <= |lines|
    ensures var places := SelectedPlaces(keyOf, lines, target, n);
            && (forall j, k | 0 <= j < k < |places| :: places[j].end <= places[k].start)
            && (forall place | place in places :: place.end <= |Join(lines[..n])|)
  {
    hide Selects, PlaceAt, Join;
    if n > 0 {
      PlacesAscend(keyOf, lines, target, n - 1);
      JoinNext(lines, n - 1);
      if Selects(keyOf, lines, target, n - 1) {
        PlaceInLine(keyOf, lines, target, n - 1);
        OneMorePlace(SelectedPlaces(keyOf, lines, target, n - 1), PlaceAt(lines, n - 1), |Join(lines[..n - 1])|);
      }
    }
  }

  lemma OneMorePlace(places: seq<Span>, place: Span, at: nat)
    requires (forall j, k | 0 <= j < k < |places| :: places[j].end <= places[k].start) && at <= place.start
    requires forall p | p in places :: p.end <= at
    ensures var more := places + [place]; forall j, k | 0 <= j < k < |more| :: more[j].end <= more[k].start
  {
    var more := places + [place];
    forall j, k | 0 <= j < k < |more| ensures more[j].end <= more[k].start {
      if k == |places| { assert more[j] == places[j] && places[j] in places; }
    }
  }

  lemma PlaceInLine(keyOf: string -> Option<Path>, lines: seq<string>, target: Path, i: nat)
    requires i < |lines| && Selects(keyOf, lines, target, i)
    ensures Separator(lines[i]).Some?
    ensures |Join(lines[..i])| <= PlaceAt(lines, i).start <= PlaceAt(lines, i).end <= |Join(lines[..i])| + |lines[i]|
  {
  }

  lemma JoinNext(lines: seq<string>, i: nat)
    requires i < |lines|
    ensures |Join(lines[..i + 1])| == |Join(lines[..i])| + |lines[i]|
  {
    assert lines[..i + 1] == lines[..i] + [lines[i]];
    JoinAppend(lines[..i], [lines[i]]);
    assert Join([lines[i]]) == lines[i] + Join([]);
  }

  // ---- The search by the grammar ---------------------------------------------------------------------------

  lemma TopByGrammar(lines: seq<string>, i: nat)
    requires AllReadAlike(lines) && i <= |lines|
    ensures IsTopLevel(lines, i, true) == IsTopLevel(lines, i)
  {
    hide AllReadAlike, LexLines;
    FollowsGrammar(lines);
  }

  lemma {:induction false} HeaderByGrammar(lines: seq<string>, i: nat)
    requires AllReadAlike(lines) && i <= |lines|
    ensures LastHeader(lines, i, true) == LastHeader(lines, i)
  {
    hide AllReadAlike, LexLines, IsTopLevel, IsHeader;
    if i > 0 {
      TopByGrammar(lines, i - 1);
      HeaderByGrammar(lines, i - 1);
    }
  }

  lemma PrefixTop(lines: seq<string>, n: nat, i: nat, grammar: bool)
    requires i <= n <= |lines|
    ensures IsTopLevel(lines[..n], i, grammar) == IsTopLevel(lines, i, grammar)
  {
    hide LexLines;
    assert lines[..n][..i] == lines[..i];
  }

  lemma {:induction false} ArraysByGrammar(keyOf: string -> Option<Path>, lines: seq<string>, n: nat, key: Path)
    requires AllReadAlike(lines) && n <= |lines|
    ensures ArrayHeaders(keyOf, lines[..n], key, true) == ArrayHeaders(keyOf, lines[..n], key)
  {
    hide AllReadAlike, LexLines, IsTopLevel, OpensArray;
    if n > 0 {
      assert lines[..n][..n - 1] == lines[..n - 1];
      ArraysByGrammar(keyOf, lines, n - 1, key);
      PrefixTop(lines, n, n - 1, true);
      PrefixTop(lines, n, n - 1, false);
      TopByGrammar(lines, n - 1);
    }
  }

  lemma LineByGrammar(keyOf: string -> Option<Path>, lines: seq<string>, target: Path, i: nat)
    requires AllReadAlike(lines) && i < |lines|
    ensures TableAt(keyOf, lines, i, true) == TableAt(keyOf, lines, i)
    ensures Selects(keyOf, lines, target, i, true) == Selects(keyOf, lines, target, i)
    ensures Fails(keyOf, lines, target, i, true) == Fails(keyOf, lines, target, i)
  {
    hide AllReadAlike, LexLines, IsTopLevel, HeaderOf, KeyText, HasScalar, LastHeader, ArrayHeaders;
    TopByGrammar(lines, i);
    HeaderByGrammar(lines, i);
    var j := LastHeader(lines, i);
    if j.Some? {
      var key := keyOf(HeaderOf(lines[j.value]).value.value.key);
      if key.Some? { ArraysByGrammar(keyOf, lines, j.value, key.value); }
    }
  }

  lemma {:induction false} PlacesByGrammar(keyOf: string -> Option<Path>, lines: seq<string>, target: Path, n: nat)
    requires AllReadAlike(lines) && n <= |lines|
    ensures SelectedPlaces(keyOf, lines, target, n, true) == SelectedPlaces(keyOf, lines, target, n)
  {
    hide AllReadAlike, Selects, PlaceAt;
    if n > 0 {
      LineByGrammar(keyOf, lines, target, n - 1);
      PlacesByGrammar(keyOf, lines, target, n - 1);
    }
  }

  /**
   * Where every line reads alike, the search finds the values of exactly the lines that assign the selected
   * key outside of strings and brackets by the TOML grammar, or gives up at a line that fails there.
   */
  lemma SearchFollowsGrammar(keyOf: string -> Option<Path>, lines: seq<string>, target: Path)
    requires AllReadAlike(lines)
    ensures var after := After(keyOf, lines, target);
            && (after.None? <==> exists i: nat :: i < |lines| && Fails(keyOf, lines, target, i, true))
            && (after.Some? ==> after.value.found == SelectedPlaces(keyOf, lines, target, |lines|, true))
  {
    hide AllReadAlike, Fails, SelectedPlaces, After;
    assert lines[..|lines|] == lines;
    FindsExactlySelected(keyOf, lines, target, |lines|);
    PlacesByGrammar(keyOf, lines, target, |lines|);
    forall i: nat | i < |lines| ensures Fails(keyOf, lines, target, i, true) == Fails(keyOf, lines, target, i) {
      LineByGrammar(keyOf, lines, target, i);
    }
  }

  // ---- A document that is misread ------------------------------------------------------------------------

  const SEVEN := "a = '''''''\n"
  const AFTER_SEVEN := "b = 1\n"

  lemma SevenLines()
    ensures Lines(SEVEN + AFTER_SEVEN) == [SEVEN, AFTER_SEVEN]
  {
    var lines := [SEVEN, AFTER_SEVEN];
    assert IsLine(SEVEN) && EndsLine(SEVEN) && IsLine(AFTER_SEVEN);
    hide Lines, IsLine, EndsLine;
    LinesOfLines(lines);
    JoinTwo(SEVEN, AFTER_SEVEN);
  }

  lemma JoinTwo(a: string, b: string)
    ensures Join([a, b]) == a + b
  {
    assert [a, b][1..] == [b] && [b][1..] == [];
    assert Join([b]) == b + Join([]) && b + "" == b;
  }

  lemma SevenCloses()
    ensures RunLength(SEVEN, 7, '\'') == 4 && ClosesByExtra(SEVEN, 7, LONG_LITERAL)
    ensures Opening(SEVEN, 4) == LONG_LITERAL
  {
    var s := SEVEN;
    RunOf(s, 7, '\'', 4);
    QuoteStands(s, 4, '\'');
    QuoteStands(s, 4, '"');
    QuoteStands(s, 7, '\'');
  }

  lemma SevenOpens()
    ensures FirstExtra(SEVEN, 4, "", 0) == Some((7, 0))
  {
    SevenCloses();
    hide RunLength, ClosesByExtra, StartsAt, Opening, QuoteStep;
    assert FirstExtra(SEVEN, 7, LONG_LITERAL, 0) == Some((7, 0));
  }

  lemma SevenIsExtra()
    ensures FirstExtra(SEVEN, 0, "", 0) == Some((7, 0)) && RunLength(SEVEN, 7, '\'') == 4
  {
    hide FirstExtra, RunLength, Opening, QuoteStep, ClosesByExtra, StartsAt;
    SevenCloses();
    SevenOpens();
    PlainIsPassed(SEVEN, 3);
    PlainIsPassed(SEVEN, 2);
    PlainIsPassed(SEVEN, 1);
    PlainIsPassed(SEVEN, 0);
  }

  lemma PlainIsPassed(s: string, i: nat)
    requires i < |s| && !IsMark(s[i]) && s[i] != '#' && Nesting(s[i]) == 0
    ensures FirstExtra(s, i, "", 0) == FirstExtra(s, i + 1, "", 0)
  {
    NotQuoted(s, i);
    hide Opening, Nesting, QuoteStep, ClosesByExtra;
  }

  lemma NotQuoted(s: string, i: nat)
    requires i < |s| && !IsMark(s[i])
    ensures Opening(s, i) == ""
  {
    QuoteStands(s, i, '\'');
    QuoteStands(s, i, '"');
  }

  lemma SevenAssignsA()
    ensures HeaderOf(SEVEN) == Ok(None) && KeyText(SEVEN) == Some("a")
  {
    var s := SEVEN;
    SevenSeparates();
    StrippedA();
    hide FirstStop, Strip, IsWhite;
    assert s[..2] == "a " && !IsWhite(s[0]) && s[0..] == s;
  }

  lemma SevenSeparates()
    ensures Separator(SEVEN) == Some(2) && !IsWhite(SEVEN[0])
  {
    var s := SEVEN;
    assert FirstStop(s, 2, "", SEPARATING) == Some(2);
    assert FirstStop(s, 1, "", SEPARATING) == Some(2);
  }

  lemma StrippedA()
    ensures Strip("a ") == "a"
  {
    assert WhiteLength("a ") == 0 && "a "[0..] == "a " && "a "[..1] == "a";
    assert StripRight("a ") == StripRight("a") == "a";
  }

  /**
   * An empty triple-quoted string with one mark before its end is a document by the TOML grammar, and the
   * line behind it stands outside of strings. The scanner takes that line for the inside of a string and
   * finds no assignment.
   */
  lemma SevenMarks(keyOf: string -> Option<Path>, target: Path)
    requires keyOf("b") == Some(target) && keyOf("a").Some? && keyOf("a").value != target
    ensures LexLines([SEVEN], true) == ("", 0) && LexLines([SEVEN], false) == (LITERAL, 0)
    ensures var after := After(keyOf, Lines(SEVEN + AFTER_SEVEN), target); after.Some? && after.value.found == []
  {
    SevenIsRead();
    SevenIsMissed(keyOf, target);
  }

  lemma SevenIsRead()
    ensures LexLines([SEVEN], true) == ("", 0) && LexLines([SEVEN], false) == (LITERAL, 0)
    ensures LexLine(SEVEN, 0, "", 0, false) == (LITERAL, 0)
  {
    SevenIsExtra();
    hide RunLength, FirstExtra, ReadsAlike, LexLine;
    FourMarksLeaveOpen(SEVEN, "", 0, 7, 0);
    ReadUpTo(SEVEN, 0, "", 0);
    GrammarEndsSeven();
    LexNext([SEVEN], 0, false);
    LexNext([SEVEN], 0, true);
    assert [SEVEN][..0] == [] && [SEVEN][..1] == [SEVEN];
    StartReached("", false);
    StartReached("", true);
  }

  lemma SevenIsMissed(keyOf: string -> Option<Path>, target: Path)
    requires keyOf("b") == Some(target) && keyOf("a").Some? && keyOf("a").value != target
    requires LexLine(SEVEN, 0, "", 0, false) == (LITERAL, 0)
    ensures var after := After(keyOf, Lines(SEVEN + AFTER_SEVEN), target); after.Some? && after.value.found == []
  {
    SevenLines();
    SevenAssignsA();
    var lines := [SEVEN, AFTER_SEVEN];
    hide HeaderOf, KeyText, HasScalar, ValueSpan, TurnLine, After, LexLines, LexLine, Lines;
    assert lines[..0] == [] && lines[..1] == [SEVEN] && lines[..2] == lines;
    AfterNothing(keyOf, lines, target);
    NextLine(keyOf, lines, target, 0);
    TurnsAssignment(keyOf, BEGIN, SEVEN, target);
    assert [] + keyOf("a").value == keyOf("a").value;
    NextLine(keyOf, lines, target, 1);
    TurnsOver(keyOf, Passed(BEGIN, SEVEN), AFTER_SEVEN, target);
  }

  lemma GrammarEndsSeven()
    ensures LexLine(SEVEN, 11, "", 0, true) == ("", 0)
  {
    NotQuoted(SEVEN, 11);
    hide StartsAt, Opening;
    assert LexLine(SEVEN, 12, "", 0, true) == ("", 0);
  }
}

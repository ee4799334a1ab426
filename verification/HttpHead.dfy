/**
 * What the header blocks of scripts/release_control.py are, said by the texts they are put together
 * from: the status line, the header lines, their line breaks and the blank line at the end.
 */
module HttpHead {
  import opened Wrappers
  import opened Text
  import opened HttpPages

  // ---- Blank lines -----------------------------------------------------------------------------

  ghost predicate IsBlank(s: string) {
    s == "\n\n" || s == "\r\n\n" || s == "\n\r\n" || s == "\r\n\r\n"
  }

  lemma BlankLineMeans(s: string, i: nat, end: nat)
    ensures BlankLineAt(s, i) == Some(end) <==> i <= end <= |s| && IsBlank(s[i..end])
  {
    if BlankLineAt(s, i) == Some(end) {
      var t := s[i..end];
      assert t == "\n\n" || t == "\r\n\n" || t == "\n\r\n" || t == "\r\n\r\n";
    }
  }

  // ---- Lines -------------------------------------------------------------------------------------

  ghost predicate IsBreak(s: string) {
    s == "\n" || s == "\r" || s == "\r\n"
  }

  ghost predicate Unbroken(line: string) {
    forall i | 0 <= i < |line| :: line[i] != '\r' && line[i] != '\n'
  }

  function Spelled(lines: seq<string>, ends: seq<string>): string
    requires |ends| == |lines|
  {
    if lines == [] then "" else lines[0] + (ends[0] + Spelled(lines[1..], ends[1..]))
  }

  /** A text line by line, each with its own break; the last one may go without unless it is empty. */
  ghost predicate IsListing(s: string, lines: seq<string>, ends: seq<string>) {
    && |ends| == |lines| && s == Spelled(lines, ends)
    && (forall i | 0 <= i < |lines| :: Unbroken(lines[i]))
    && (forall i | 0 <= i < |lines| :: IsBreak(ends[i]) || (i == |lines| - 1 && ends[i] == "" && lines[i] != ""))
    && forall i | 0 <= i < |lines| - 1 :: ends[i] == "\r" && lines[i + 1] == "" ==> ends[i + 1] != "\n"
  }

  /** The first break of a text, behind its first line. */
  function BreakAt(s: string): string {
    if LineEnd(s) == |s| then "" else s[LineEnd(s)..NextLine(s, LineEnd(s))]
  }

  lemma Cut(s: string, n: nat, m: nat)
    requires n <= m <= |s|
    ensures s == s[..n] + (s[n..m] + s[m..])
  {
  }

  lemma BreakIs(s: string, n: nat)
    requires n < |s| && (s[n] == '\r' || s[n] == '\n')
    ensures IsBreak(s[n..NextLine(s, n)])
    ensures s[n..NextLine(s, n)] == "\r" && n + 1 < |s| ==> s[n + 1] != '\n'
  {
  }

  lemma LineIsUnbroken(s: string)
    ensures Unbroken(s[..LineEnd(s)])
  {
    hide LineEnd;
  }

  lemma BreakThere(s: string)
    ensures var n, end := LineEnd(s), BreakAt(s);
            && n + |end| <= |s| && s == s[..n] + (end + s[n + |end|..]) && Unbroken(s[..n])
            && (IsBreak(end) || (end == "" && n == |s|))
            && (end == "\r" && n + 1 < |s| ==> s[n + 1] != '\n')
  {
    hide LineEnd, NextLine, Unbroken, IsBreak;
    LineIsUnbroken(s);
    var n := LineEnd(s);
    if n < |s| {
      BreakIs(s, n);
      Cut(s, n, NextLine(s, n));
    } else {
      Cut(s, n, n);
    }
  }

  lemma SplitUnfolds(s: string)
    requires s != ""
    ensures SplitLines(s) == if LineEnd(s) == |s| then [s] else [s[..LineEnd(s)]] + SplitLines(s[NextLine(s, LineEnd(s))..])
  {
    hide LineEnd, NextLine;
  }

  lemma SplitStep(s: string)
    requires s != ""
    ensures LineEnd(s) + |BreakAt(s)| <= |s|
    ensures SplitLines(s) == [s[..LineEnd(s)]] + SplitLines(s[LineEnd(s) + |BreakAt(s)|..])
  {
    hide LineEnd, NextLine, SplitLines;
    var n := LineEnd(s);
    SplitUnfolds(s);
    if n == |s| {
      LastSplit(s, n);
    } else {
      assert n + |BreakAt(s)| == NextLine(s, n);
    }
  }

  lemma LastSplit(s: string, n: nat)
    requires n == |s|
    ensures s[..n] == s && SplitLines(s[n..]) == [] && [s] + [] == [s]
  {
    hide LineEnd;
    assert s[n..] == "";
  }

  lemma ListingTail(s: string, lines: seq<string>, ends: seq<string>, line: string, end: string)
    requires IsListing(s, lines, ends) && Unbroken(line) && (IsBreak(end) || (end == "" && line != "" && s == ""))
    requires end == "\r" && s != "" ==> s[0] != '\n'
    ensures IsListing(line + (end + s), [line] + lines, [end] + ends)
  {
    var all, breaks := [line] + lines, [end] + ends;
    assert all[1..] == lines && breaks[1..] == ends;
    if lines != [] {
      ListingStart(s, lines, ends);
    }
    hide Spelled, Unbroken, IsBreak;
    assert Spelled(all, breaks) == line + (end + s) by { SpelledStep(line, lines, end, ends); }
    assert forall i | 0 < i < |all| :: all[i] == lines[i - 1] && breaks[i] == ends[i - 1];
  }

  lemma SpelledStep(line: string, lines: seq<string>, end: string, ends: seq<string>)
    requires |lines| == |ends|
    ensures Spelled([line] + lines, [end] + ends) == line + (end + Spelled(lines, ends))
  {
    assert ([line] + lines)[1..] == lines && ([end] + ends)[1..] == ends;
  }

  lemma ListingStart(s: string, lines: seq<string>, ends: seq<string>)
    requires IsListing(s, lines, ends) && lines != []
    ensures s != "" && (lines[0] == "" ==> ends[0] != "" && s[0] == ends[0][0])
  {
    assert s == lines[0] + (ends[0] + Spelled(lines[1..], ends[1..]));
    assert IsBreak(ends[0]) || lines[0] != "";
  }

  lemma {:induction false} SplitLists(s: string) returns (ends: seq<string>)
    ensures IsListing(s, SplitLines(s), ends)
    decreases |s|
  {
    hide LineEnd, BreakAt, Unbroken, IsBreak, SplitLines, IsListing, Spelled;
    if s == "" {
      ends := [];
      EmptyLists();
    } else {
      var n, end := LineEnd(s), BreakAt(s);
      BreakThere(s);
      SplitStep(s);
      var line, rest := s[..n], s[n + |end|..];
      NextLetter(s, n, end);
      var more := SplitLists(rest);
      ListingTail(rest, SplitLines(rest), more, line, end);
      ends := [end] + more;
    }
  }

  lemma EmptyLists()
    ensures IsListing("", SplitLines(""), [])
  {
  }

  lemma NextLetter(s: string, n: nat, end: string)
    requires n + |end| <= |s| && s != ""
    ensures end == "\r" && s[n + |end|..] != "" ==> n + 1 < |s| && s[n + |end|..][0] == s[n + 1]
    ensures n == |s| ==> s[..n] != "" && s[n + |end|..] == ""
  {
  }

  lemma ListingRest(s: string, lines: seq<string>, ends: seq<string>)
    requires |ends| == |lines| > 0 && IsListing(s, lines, ends)
    ensures var rest := Spelled(lines[1..], ends[1..]);
            s == lines[0] + (ends[0] + rest) && IsListing(rest, lines[1..], ends[1..])
    ensures Unbroken(lines[0]) && (IsBreak(ends[0]) || (ends[0] == "" && lines[0] != "" && |lines| == 1))
    ensures ends[0] == "\r" && |lines| > 1 && lines[1] == "" ==> ends[1] != "\n"
  {
    hide Unbroken, IsBreak;
    assert forall i | 0 <= i < |lines| - 1 :: lines[1..][i] == lines[i + 1] && ends[1..][i] == ends[i + 1];
  }

  lemma LineEndsThere(line: string, tail: string)
    requires Unbroken(line) && (tail == "" || tail[0] == '\r' || tail[0] == '\n')
    ensures LineEnd(line + tail) == |line|
  {
    hide LineEnd;
    var s := line + tail;
    assert forall i | 0 <= i < |line| :: s[i] == line[i];
    assert tail != "" ==> s[|line|] == tail[0];
  }

  lemma BreakEndsThere(line: string, end: string, rest: string)
    requires IsBreak(end) && (end == "\r" && rest != "" ==> rest[0] != '\n')
    ensures NextLine(line + (end + rest), |line|) == |line| + |end|
    ensures (line + (end + rest))[|line|..|line| + |end|] == end
  {
    var s, tail := line + (end + rest), end + rest;
    assert forall i | 0 <= i < |tail| :: s[|line| + i] == tail[i];
    assert tail[0] == end[0];
    if end == "\r" {
      assert rest != "" ==> tail[1] == rest[0];
    } else if end == "\r\n" {
      assert tail[1] == '\n';
    }
  }

  /** A line and its break are the first of what they stand in front of. */
  lemma FirstLine(line: string, end: string, rest: string)
    requires Unbroken(line) && (IsBreak(end) || (end == "" && line != "" && rest == ""))
    requires end == "\r" && rest != "" ==> rest[0] != '\n'
    ensures var s := line + (end + rest); s != "" && LineEnd(s) == |line| && BreakAt(s) == end
  {
    hide Unbroken, NextLine, LineEnd;
    assert end != "" ==> (end + rest)[0] == end[0];
    LineEndsThere(line, end + rest);
    if end != "" { BreakEndsThere(line, end, rest); }
  }

  lemma ListingHead(s: string, lines: seq<string>, ends: seq<string>)
    requires |ends| == |lines| > 0 && IsListing(s, lines, ends)
    ensures var rest := Spelled(lines[1..], ends[1..]);
            && s == lines[0] + (ends[0] + rest) && IsListing(rest, lines[1..], ends[1..])
            && s != "" && LineEnd(s) == |lines[0]| && BreakAt(s) == ends[0]
  {
    hide Spelled, Unbroken, IsListing, LineEnd, BreakAt;
    ListingRest(s, lines, ends);
    if |lines| > 1 { NextStarts(lines[1..], ends[1..]); } else { NothingSpelled(lines[1..], ends[1..]); }
    FirstLine(lines[0], ends[0], Spelled(lines[1..], ends[1..]));
  }

  lemma NothingSpelled(lines: seq<string>, ends: seq<string>)
    requires lines == [] && ends == []
    ensures Spelled(lines, ends) == ""
  {
  }

  lemma NextStarts(lines: seq<string>, ends: seq<string>)
    requires |ends| == |lines| > 0 && IsListing(Spelled(lines, ends), lines, ends)
    ensures Spelled(lines, ends) != "" && (lines[0] != "" || ends[0] != "\n" ==> Spelled(lines, ends)[0] != '\n')
  {
    var s, line, end, rest := Spelled(lines, ends), lines[0], ends[0], Spelled(lines[1..], ends[1..]);
    assert s == line + (end + rest) && Unbroken(line) && (IsBreak(end) || line != "");
    hide IsListing, Spelled;
  }

  lemma {:induction false} ListingSplits(s: string, lines: seq<string>, ends: seq<string>)
    requires |ends| == |lines| && IsListing(s, lines, ends)
    ensures SplitLines(s) == lines
    decreases |lines|
  {
    hide LineEnd, SplitLines, BreakAt, IsListing, Spelled, Unbroken;
    if lines == [] {
      NothingSplits(s, lines, ends);
    } else {
      ListingHead(s, lines, ends);
      SplitStep(s);
      var rest := Spelled(lines[1..], ends[1..]);
      CutThere(s, lines[0], ends[0], rest);
      ListingSplits(rest, lines[1..], ends[1..]);
      assert lines == [lines[0]] + lines[1..];
    }
  }

  lemma NothingSplits(s: string, lines: seq<string>, ends: seq<string>)
    requires lines == [] && IsListing(s, lines, ends)
    ensures SplitLines(s) == []
  {
  }

  lemma CutThere(s: string, line: string, end: string, rest: string)
    requires s == line + (end + rest)
    ensures s[..|line|] == line && s[|line| + |end|..] == rest
  {
  }

  /** The lines of a text are those of its one listing. */
  lemma SplitMeans(s: string, lines: seq<string>)
    ensures SplitLines(s) == lines <==> exists ends :: IsListing(s, lines, ends)
  {
    var ends := SplitLists(s);
    forall other | IsListing(s, lines, other) ensures SplitLines(s) == lines {
      ListingSplits(s, lines, other);
    }
  }

  // ---- Status lines and header lines ---------------------------------------------------------------

  /** Three digits from 100 to 599, and the number they spell. */
  ghost predicate IsCode(code: string, status: nat) {
    && |code| == 3 && '1' <= code[0] <= '5' && '0' <= code[1] <= '9' && '0' <= code[2] <= '9'
    && status == 100 * (code[0] as int - '0' as int) + 10 * (code[1] as int - '0' as int) + (code[2] as int - '0' as int)
  }

  function StatusLine(version: string, code: string, reason: string): string {
    "HTTP/" + (version + (" " + (code + reason)))
  }

  ghost predicate HasStatus(line: string, version: string, status: nat) {
    exists code, reason ::
      line == StatusLine(version, code, reason) && IsCode(code, status) && (reason == "" || reason[0] == ' ')
  }

  /** HTTP 1.0, 1.1 or 2, the status, and perhaps a reason behind a space. */
  ghost predicate IsStatusLine(line: string, status: nat) {
    || HasStatus(line, "1.0", status) || HasStatus(line, "1.1", status)
    || HasStatus(line, "2", status) || HasStatus(line, "2.0", status)
  }

  lemma CodeMeans(code: string, status: nat)
    requires |code| == 3
    ensures IsCode(code, status) <==> AllDigits(code) && '1' <= code[0] <= '5' && ParseDecimal(code) == status
  {
    if AllDigits(code) {
      var front := code[..2];
      assert code[..|code| - 1] == front && front[..|front| - 1] == code[..1];
      assert code[..1][..|code[..1]| - 1] == "";
      assert ParseDecimal("") == 0;
      assert ParseDecimal(code[..1]) == DigitValue(code[0]);
      assert ParseDecimal(front) == 10 * DigitValue(code[0]) + DigitValue(code[1]);
    }
  }

  lemma StatusLineParts(line: string, version: string, code: string, reason: string)
    requires |code| == 3
    ensures var start := "HTTP/" + (version + " ");
            line == StatusLine(version, code, reason) <==>
              && start <= line && |line| >= |start| + 3
              && line[|start|..|start| + 3] == code && line[|start| + 3..] == reason
  {
    var start := "HTTP/" + (version + " ");
    assert StatusLine(version, code, reason) == start + (code + reason);
    if start <= line && |line| >= |start| + 3 && line[|start|..|start| + 3] == code && line[|start| + 3..] == reason {
      assert line == start + (code + reason);
    }
  }

  lemma StatusAfterMeans(line: string, version: string, status: nat)
    ensures StatusAfter(line, "HTTP/" + (version + " ")) == Some(status) <==> HasStatus(line, version, status)
  {
    hide StatusLine, IsCode, ParseDecimal;
    var start := "HTTP/" + (version + " ");
    if StatusAfter(line, start) == Some(status) {
      var code, reason := line[|start|..|start| + 3], line[|start| + 3..];
      CodeMeans(code, status);
      StatusLineParts(line, version, code, reason);
    }
    if HasStatus(line, version, status) {
      var code, reason :| line == StatusLine(version, code, reason) && IsCode(code, status) && (reason == "" || reason[0] == ' ');
      CodeIsThree(code, status);
      CodeMeans(code, status);
      StatusLineParts(line, version, code, reason);
    }
  }

  lemma CodeIsThree(code: string, status: nat)
    requires IsCode(code, status)
    ensures |code| == 3
  {
  }

  predicate IsVersion(v: string) {
    v == "1.0" || v == "1.1" || v == "2" || v == "2.0"
  }

  lemma StatusVersion(line: string, version: string, status: nat) returns (rest: string)
    requires HasStatus(line, version, status)
    ensures line == "HTTP/" + (version + ([' '] + rest))
  {
    var code, reason :| line == StatusLine(version, code, reason) && IsCode(code, status) && (reason == "" || reason[0] == ' ');
    rest := code + reason;
    assert [' '] + rest == " " + rest;
  }

  /** The versions are told apart by what stands in front of the first space. */
  lemma OneVersion(line: string, v: string, m: nat, w: string, n: nat)
    requires HasStatus(line, v, m) && HasStatus(line, w, n) && IsVersion(v) && IsVersion(w)
    ensures v == w
  {
    hide HasStatus;
    var x := StatusVersion(line, v, m);
    var y := StatusVersion(line, w, n);
    VersionHasNoSpace(v);
    VersionHasNoSpace(w);
    hide IsVersion;
    assert v + [' '] + x == line[5..] == w + [' '] + y;
    UniqueSplit(v, w, x, y, ' ');
  }

  lemma VersionHasNoSpace(v: string)
    requires IsVersion(v)
    ensures ' ' !in v
  {
  }

  lemma StatusMeans(line: string, status: nat)
    ensures StatusOf(line) == Some(status) <==> IsStatusLine(line, status)
  {
    hide StatusAfter, HasStatus;
    assert VERSIONS[0] == "HTTP/" + ("1.0" + " ") && VERSIONS[1] == "HTTP/" + ("1.1" + " ");
    assert VERSIONS[2] == "HTTP/" + ("2" + " ") && VERSIONS[3] == "HTTP/" + ("2.0" + " ");
    forall n: nat
      ensures StatusAfter(line, VERSIONS[0]) == Some(n) <==> HasStatus(line, "1.0", n)
      ensures StatusAfter(line, VERSIONS[1]) == Some(n) <==> HasStatus(line, "1.1", n)
      ensures StatusAfter(line, VERSIONS[2]) == Some(n) <==> HasStatus(line, "2", n)
      ensures StatusAfter(line, VERSIONS[3]) == Some(n) <==> HasStatus(line, "2.0", n)
    {
      StatusAfterMeans(line, "1.0", n);
      StatusAfterMeans(line, "1.1", n);
      StatusAfterMeans(line, "2", n);
      StatusAfterMeans(line, "2.0", n);
    }
    forall v, w, m: nat, n: nat | HasStatus(line, v, m) && HasStatus(line, w, n) && IsVersion(v) && IsVersion(w)
      ensures v == w
    {
      OneVersion(line, v, m, w, n);
    }
  }

  function FieldLine(name: string, value: string): string {
    name + (":" + value)
  }

  ghost predicate IsTokenLetter(c: char) {
    || c in "!#$%&'*+-.^_`|~" || c in "0123456789"
    || c in "ABCDEFGHIJKLMNOPQRSTUVWXYZ" || c in "abcdefghijklmnopqrstuvwxyz"
  }

  /** A name made of token characters, a colon, and any value. */
  ghost predicate IsField(line: string) {
    exists name, value ::
      line == FieldLine(name, value) && name != "" && forall i | 0 <= i < |name| :: IsTokenLetter(name[i])
  }

  lemma TokenChars(c: char)
    ensures IsTokenChar(c) <==> IsTokenLetter(c)
  {
    Capitals(c);
    SmallLetters(c);
    DigitLetters(c);
    assert c in "!#$%&'*+.^_`|~-" <==> c in "!#$%&'*+-.^_`|~";
  }

  lemma FieldMeans(line: string)
    ensures IsHeaderLine(line) <==> IsField(line)
  {
    hide IsTokenChar, IsTokenLetter;
    if IsHeaderLine(line) {
      var n :| 0 < n < |line| && line[n] == ':' && forall k | 0 <= k < n :: IsTokenChar(line[k]);
      var name, value := line[..n], line[n + 1..];
      assert line == FieldLine(name, value);
      forall i | 0 <= i < |name| ensures IsTokenLetter(name[i]) { TokenChars(line[i]); }
    }
    if IsField(line) {
      var name, value :| line == FieldLine(name, value) && name != "" && forall i | 0 <= i < |name| :: IsTokenLetter(name[i]);
      assert line[|name|] == ':';
      forall k | 0 <= k < |name| ensures IsTokenChar(line[k]) {
        assert line[k] == name[k];
        TokenChars(name[k]);
      }
    }
  }

  // ---- Header blocks -------------------------------------------------------------------------------

  /** A status line and header lines, up to the first blank line of the text. */
  ghost predicate IsHeader(header: string, n: nat, lines: seq<string>, ends: seq<string>, status: nat) {
    && n <= |header| && IsBlank(header[n..])
    && (forall i, end | 0 <= i < n && i <= end <= |header| :: !IsBlank(header[i..end]))
    && IsListing(header[..n], lines, ends)
    && lines != [] && IsStatusLine(lines[0], status) && forall i | 1 <= i < |lines| :: IsField(lines[i])
  }

  lemma SeparatorMeans(s: string, n: nat, end: nat)
    ensures Separator(s, 0) == Some((n, end)) <==>
              && n <= end <= |s| && IsBlank(s[n..end])
              && forall i, e | 0 <= i < n && i <= e <= |s| :: !IsBlank(s[i..e])
  {
    hide IsBlank, BlankLineAt;
    forall i: nat, e: nat ensures BlankLineAt(s, i) == Some(e) <==> i <= e <= |s| && IsBlank(s[i..e]) {
      BlankLineMeans(s, i, e);
    }
    if n <= end <= |s| && IsBlank(s[n..end]) && forall i, e | 0 <= i < n && i <= e <= |s| :: !IsBlank(s[i..e]) {
      BlankLineMeans(s, n, end);
      forall i: nat | i < n ensures BlankLineAt(s, i).None? {
        if BlankLineAt(s, i).Some? { BlankLineMeans(s, i, BlankLineAt(s, i).value); }
      }
    }
  }

  /** A header block announces a status exactly when it is put together as one with that status. */
  lemma HeaderMeans(header: string, status: nat)
    ensures Announces(header, status) <==> exists n: nat, lines, ends :: IsHeader(header, n, lines, ends, status)
  {
    hide IsBlank, Separator, SplitLines, StatusOf, IsHeaderLine, IsListing, IsStatusLine, IsField;
    if Announces(header, status) {
      var (n, end) := Separator(header, 0).value;
      WholeHeader(header, n, end, status);
      SeparatorMeans(header, n, end);
      var lines := SplitLines(header[..n]);
      SplitMeans(header[..n], lines);
      var ends :| IsListing(header[..n], lines, ends);
      StatusMeans(lines[0], status);
      forall i | 1 <= i < |lines| ensures IsField(lines[i]) { FieldMeans(lines[i]); }
      assert header[n..end] == header[n..];
      assert IsHeader(header, n, lines, ends, status);
    }
    forall n: nat, lines, ends | IsHeader(header, n, lines, ends, status) ensures Announces(header, status) {
      assert header[n..|header|] == header[n..];
      SeparatorMeans(header, n, |header|);
      SplitMeans(header[..n], lines);
      StatusMeans(lines[0], status);
      forall i | 1 <= i < |lines| ensures IsHeaderLine(lines[i]) { FieldMeans(lines[i]); }
      assert header[|header|..] == "";
    }
  }

  lemma WholeHeader(header: string, n: nat, end: nat, status: nat)
    requires Announces(header, status) && Separator(header, 0) == Some((n, end))
    ensures end == |header| && SplitLines(header[..n]) != [] && StatusOf(SplitLines(header[..n])[0]) == Some(status)
    ensures forall i | 1 <= i < |SplitLines(header[..n])| :: IsHeaderLine(SplitLines(header[..n])[i])
  {
    hide SplitLines, StatusOf, IsHeaderLine;
  }
}

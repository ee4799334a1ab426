/**
 * The decoder of scripts/release_control.py for included response headers (_github_http_head,
 * github_http_response): header blocks and JSON pages in turn.
 */
module HttpPages {
  import opened Wrappers
  import opened Text
  import opened Json
  import opened JsonRoundTrip

  // ---- Header blocks ---------------------------------------------------------------------------

  /** The end of a match of `\r?\n\r?\n` at an offset. */
  function BlankLineAt(s: string, i: nat): (end: Option<nat>)
    ensures end.Some? ==> i + 2 <= end.value <= i + 4 && end.value <= |s|
  {
    var a := if i < |s| && s[i] == '\r' then i + 1 else i;
    if a >= |s| || s[a] != '\n' then None
    else
      var b := if a + 1 < |s| && s[a + 1] == '\r' then a + 2 else a + 1;
      if b >= |s| || s[b] != '\n' then None else Some(b + 1)
  }

  /** The first such match from an offset on: its start and its end. */
  function Separator(s: string, from: nat): (r: Option<(nat, nat)>)
    ensures r.Some? ==> from <= r.value.0 < r.value.1 <= |s| && BlankLineAt(s, r.value.0) == Some(r.value.1)
    ensures forall i | from <= i && (r.None? || i < r.value.0) :: BlankLineAt(s, i).None?
    decreases |s| - from
  {
    if from >= |s| then None
    else
      var end := BlankLineAt(s, from);
      if end.Some? then Some((from, end.value)) else Separator(s, from + 1)
  }

  function LineEnd(s: string): (n: nat)
    ensures n <= |s| && (forall k | 0 <= k < n :: s[k] != '\r' && s[k] != '\n')
    ensures n < |s| ==> s[n] == '\r' || s[n] == '\n'
  {
    if s == "" || s[0] == '\r' || s[0] == '\n' then 0 else 1 + LineEnd(s[1..])
  }

  /** The start of the next line: a carriage return and a line feed in this order end a line together. */
  function NextLine(s: string, n: nat): (next: nat)
    requires n < |s|
    ensures n < next <= |s|
  {
    if s[n] == '\r' && n + 1 < |s| && s[n + 1] == '\n' then n + 2 else n + 1
  }

  /** Python's splitlines on bytes: carriage return, line feed, or both in this order end a line. */
  function SplitLines(s: string): seq<string>
    decreases |s|
  {
    if s == "" then []
    else
      var n := LineEnd(s);
      if n == |s| then [s] else [s[..n]] + SplitLines(s[NextLine(s, n)..])
  }

  const VERSIONS := ["HTTP/1.0 ", "HTTP/1.1 ", "HTTP/2 ", "HTTP/2.0 "]

  function StatusAfter(line: string, version: string): Option<nat> {
    if !(version <= line) || |line| < |version| + 3 then None
    else
      var code, reason := line[|version|..|version| + 3], line[|version| + 3..];
      if AllDigits(code) && '1' <= code[0] <= '5' && (reason == "" || reason[0] == ' ')
      then Some(ParseDecimal(code)) else None
  }

  function StatusOf(line: string): Option<nat> {
    var first := StatusAfter(line, VERSIONS[0]);
    var second := StatusAfter(line, VERSIONS[1]);
    var third := StatusAfter(line, VERSIONS[2]);
    if first.Some? then first else if second.Some? then second
    else if third.Some? then third else StatusAfter(line, VERSIONS[3])
  }

  predicate IsTokenChar(c: char) {
    IsDigit(c) || 'a' <= c <= 'z' || 'A' <= c <= 'Z' || c in "!#$%&'*+.^_`|~-"
  }

  predicate IsHeaderLine(line: string) {
    exists n :: 0 < n < |line| && line[n] == ':' && forall k | 0 <= k < n :: IsTokenChar(line[k])
  }

  /** The status of a header block at the start of a text, and what follows the block. */
  function Head(s: string): Option<(nat, string)> {
    var separator := Separator(s, 0);
    if separator.None? then None
    else
      var lines := SplitLines(s[..separator.value.0]);
      if lines == [] || StatusOf(lines[0]).None? || exists i :: 1 <= i < |lines| && !IsHeaderLine(lines[i]) then None
      else Some((StatusOf(lines[0]).value, s[separator.value.1..]))
  }

  predicate IsSuccess(status: nat) {
    200 <= status < 300
  }

  // ---- Pages -----------------------------------------------------------------------------------

  /** Pages of a complete answer, or the status of the first answer that is no success. */
  datatype Response =
    | Pages(status: nat, pages: seq<Value>)
    | Failure(status: nat)

  /** The pages from behind a header block on. */
  function PagesFrom(status: nat, s: string, pages: seq<Value>): Option<Response>
    decreases |s|
  {
    if !IsSuccess(status) then Some(Failure(status))
    else
      var page := ParseNode(Skip(s));
      if page.None? then None
      else
        var found, t := pages + [Tree(page.value.0)], Skip(page.value.1);
        if t == "" then Some(Pages(status, found))
        else
          var separator := Separator(t, 0);
          if separator.None? then None
          else
            var head := Head(t[..separator.value.1]);
            if head.None? then None else PagesFrom(head.value.0, t[separator.value.1..], found)
  }

  function Decode(stdout: string): Option<Response> {
    var head := Head(stdout);
    if head.None? then None else PagesFrom(head.value.0, head.value.1, [])
  }

  // ---- Framing ------------------------------------------------------------------------------------

  /** A whole header block, with its blank line at the end, that announces a status. */
  predicate Announces(header: string, status: nat) {
    Head(header) == Some((status, ""))
  }

  datatype Block = Block(header: string, status: nat, page: Document)

  /** One page of a successful answer. */
  predicate IsBlock(b: Block) {
    Announces(b.header, b.status) && 200 <= b.status <= 299 && WellFormedDocument(b.page)
  }

  function Framed(blocks: seq<Block>): string {
    if blocks == [] then "" else blocks[0].header + (PrintDocument(blocks[0].page) + Framed(blocks[1..]))
  }

  function PageTrees(blocks: seq<Block>): seq<Value> {
    if blocks == [] then [] else [Tree(blocks[0].page.root)] + PageTrees(blocks[1..])
  }

  /** A blank line that ends a header is found there whatever follows. */
  lemma SeparatorStays(header: string, rest: string)
    requires Separator(header, 0).Some? && Separator(header, 0).value.1 == |header|
    ensures Separator(header + rest, 0) == Separator(header, 0)
  {
    var s := header + rest;
    var (start, end) := Separator(header, 0).value;
    assert header[|header| - 1] == '\n';
    assert BlankLineAt(s, start) == Some(end);
    forall i | 0 <= i < start ensures BlankLineAt(s, i).None? {
      assert BlankLineAt(header, i).None?;
    }
  }

  lemma HeadStays(header: string, status: nat, rest: string)
    requires Announces(header, status)
    ensures Separator(header + rest, 0).Some? && Separator(header + rest, 0).value.1 == |header|
    ensures Head(header + rest) == Some((status, rest)) && Head((header + rest)[..|header|]) == Some((status, ""))
  {
    hide SplitLines, StatusOf, IsHeaderLine, BlankLineAt;
    SeparatorStays(header, rest);
    var start := Separator(header, 0).value.0;
    assert (header + rest)[..start] == header[..start];
    assert (header + rest)[|header|..] == rest && (header + rest)[..|header|] == header;
  }

  lemma HeadStart(header: string, status: nat)
    requires Announces(header, status)
    ensures header != "" && header[0] == 'H'
  {
    var start := Separator(header, 0).value.0;
    assert SplitLines(header[..start]) != [];
    var first := SplitLines(header[..start])[0];
    assert first == header[..start][..LineEnd(header[..start])];
    assert StatusOf(first).Some?;
    assert first[0] == 'H';
  }

  /** Reading one page, up to the text behind it. */
  lemma PageRead(page: Document, rest: string)
    requires WellFormedDocument(page) && Stops(rest) && (rest != "" ==> !IsSpace(rest[0]))
    ensures var s := PrintDocument(page) + rest;
            && ParseNode(Skip(s)) == Some((page.root, page.after + rest)) && Skip(page.after + rest) == rest
  {
    var t := Print(page.root) + (page.after + rest);
    assert PrintDocument(page) + rest == page.before + t;
    PrintStart(page.root);
    assert t[0] == Print(page.root)[0];
    SpaceAt(page.before, t);
    SpaceAt(page.after, rest);
    assert page.after != "" ==> (page.after + rest)[0] == page.after[0];
    PrintedIsParsed(page.root, page.after + rest);
  }

  lemma LastPage(page: Document, status: nat, pages: seq<Value>)
    requires WellFormedDocument(page) && IsSuccess(status)
    ensures PagesFrom(status, PrintDocument(page), pages) == Some(Pages(status, pages + [Tree(page.root)]))
  {
    PageRead(page, "");
    assert PrintDocument(page) + "" == PrintDocument(page) && page.after + "" == page.after;
  }

  /** A page, then another header block. */
  lemma NextHead(page: Document, status: nat, pages: seq<Value>, header: string, code: nat, next: string)
    requires WellFormedDocument(page) && IsSuccess(status) && Announces(header, code)
    ensures PagesFrom(status, PrintDocument(page) + (header + next), pages)
         == PagesFrom(code, next, pages + [Tree(page.root)])
  {
    HeadStart(header, code);
    assert (header + next)[0] == header[0];
    PageRead(page, header + next);
    HeadStays(header, code, next);
    hide ScanScalar, ParseNode, Print, Head, Separator;
    assert (header + next)[|header|..] == next;
  }

  lemma BlockFacts(blocks: seq<Block>)
    requires blocks != [] && forall b | b in blocks :: IsBlock(b)
    ensures var b := blocks[0];
            Announces(b.header, b.status) && IsSuccess(b.status) && WellFormedDocument(b.page)
    ensures forall b | b in blocks[1..] :: IsBlock(b)
  {
    assert IsBlock(blocks[0]);
  }

  lemma FramedFirst(blocks: seq<Block>, tail: string)
    requires blocks != []
    ensures Framed(blocks) + tail
         == blocks[0].header + (PrintDocument(blocks[0].page) + (Framed(blocks[1..]) + tail))
    ensures PageTrees(blocks) == [Tree(blocks[0].page.root)] + PageTrees(blocks[1..])
  {
    var x, y := PrintDocument(blocks[0].page), Framed(blocks[1..]);
    assert (blocks[0].header + (x + y)) + tail == blocks[0].header + (x + (y + tail));
  }

  lemma Collected(pages: seq<Value>, page: Value, more: seq<Value>)
    ensures (pages + [page]) + more == pages + ([page] + more)
  {
  }

  lemma {:induction false} BlocksDecode(blocks: seq<Block>, pages: seq<Value>, header: string, failed: Option<nat>, rest: string)
    requires blocks != [] && forall b | b in blocks :: IsBlock(b)
    requires match failed
             case None => header == "" && rest == ""
             case Some(code) => Announces(header, code) && !IsSuccess(code)
    ensures PagesFrom(blocks[0].status,
                      PrintDocument(blocks[0].page) + (Framed(blocks[1..]) + (header + rest)), pages) ==
              match failed
              case None => Some(Pages(blocks[|blocks| - 1].status, pages + PageTrees(blocks)))
              case Some(code) => Some(Failure(code))
    decreases |blocks|
  {
    hide ScanScalar, ParseNode, Print, Head, Separator, PagesFrom, PrintDocument, Announces, IsBlock, IsSuccess,
         WellFormedDocument, Tree, Framed, PageTrees;
    var b, tail, found := blocks[0], header + rest, pages + [Tree(blocks[0].page.root)];
    BlockFacts(blocks);
    FramedFirst(blocks, tail);
    NothingFramed(tail);
    if |blocks| == 1 {
      assert blocks[1..] == [] && [Tree(b.page.root)] + [] == [Tree(b.page.root)];
      match failed
      case None =>
        LastPage(b.page, b.status, pages);
        assert PrintDocument(b.page) + tail == PrintDocument(b.page);
      case Some(code) =>
        NextHead(b.page, b.status, pages, header, code, rest);
        FailureStops(code, rest, found);
    } else {
      var c, next := blocks[1], PrintDocument(blocks[1].page) + (Framed(blocks[1..][1..]) + tail);
      BlockFacts(blocks[1..]);
      FramedFirst(blocks[1..], tail);
      NextHead(b.page, b.status, pages, c.header, c.status, next);
      BlocksDecode(blocks[1..], found, header, failed, rest);
      Collected(pages, Tree(b.page.root), PageTrees(blocks[1..]));
    }
  }

  lemma NothingFramed(tail: string)
    ensures Framed([]) + tail == tail && PageTrees([]) == []
  {
  }

  lemma FailureStops(status: nat, s: string, pages: seq<Value>)
    requires !IsSuccess(status)
    ensures PagesFrom(status, s, pages) == Some(Failure(status))
  {
  }

  /** Successful blocks, framed one after the other, decode to exactly their pages, in order. */
  lemma PagesComeBack(blocks: seq<Block>)
    requires blocks != [] && forall b | b in blocks :: IsBlock(b)
    ensures Decode(Framed(blocks)) == Some(Pages(blocks[|blocks| - 1].status, PageTrees(blocks)))
  {
    hide Head, PagesFrom, PrintDocument, Announces, IsBlock, IsSuccess, WellFormedDocument, Tree, Framed, PageTrees;
    var b := blocks[0];
    BlockFacts(blocks);
    FramedFirst(blocks, "");
    assert Framed(blocks) + "" == Framed(blocks) && "" + "" == "";
    HeadStays(b.header, b.status, PrintDocument(b.page) + (Framed(blocks[1..]) + ""));
    BlocksDecode(blocks, [], "", None, "");
    assert [] + PageTrees(blocks) == PageTrees(blocks);
  }

  /** A failure behind any number of pages decodes to its status alone, whatever its body is. */
  lemma FailureDropsPages(blocks: seq<Block>, header: string, status: nat, body: string)
    requires (forall b | b in blocks :: IsBlock(b)) && Announces(header, status) && !IsSuccess(status)
    ensures Decode(Framed(blocks) + (header + body)) == Some(Failure(status))
  {
    hide Head, PagesFrom, PrintDocument, Announces, IsBlock, IsSuccess, WellFormedDocument, Tree, Framed, PageTrees;
    if blocks == [] {
      NothingFramed(header + body);
      HeadStays(header, status, body);
      FailureStops(status, body, []);
    } else {
      var b := blocks[0];
      BlockFacts(blocks);
      FramedFirst(blocks, header + body);
      HeadStays(b.header, b.status, PrintDocument(b.page) + (Framed(blocks[1..]) + (header + body)));
      BlocksDecode(blocks, [], header, Some(status), body);
    }
  }

  /** Which framing a decoded answer stands for. */
  predicate Frames(stdout: string, r: Response, blocks: seq<Block>, header: string, body: string) {
    && (forall b | b in blocks :: IsBlock(b)) && stdout == Framed(blocks) + (header + body)
    && match r
       case Pages(status, pages) =>
         blocks != [] && header + body == "" && status == blocks[|blocks| - 1].status && pages == PageTrees(blocks)
       case Failure(status) => Announces(header, status) && !(200 <= status <= 299)
  }

  /** From a header on, what can be decoded was framed. */
  lemma {:induction false} DecodedFrom(first: string, status: nat, s: string, pages: seq<Value>)
    returns (blocks: seq<Block>, header: string, body: string)
    requires Announces(first, status) && PagesFrom(status, s, pages).Some?
    ensures (forall b | b in blocks :: IsBlock(b)) && first + s == Framed(blocks) + (header + body)
    ensures match PagesFrom(status, s, pages).value
            case Pages(code, found) =>
              && blocks != [] && header + body == "" && code == blocks[|blocks| - 1].status
              && found == pages + PageTrees(blocks)
            case Failure(code) => Announces(header, code) && !IsSuccess(code)
    decreases |s|
  {
    hide Head, Announces, WellFormedDocument, PrintDocument, Tree, Framed, PageTrees, ParseNode, Separator,
         SpaceLength, Skip;
    if !IsSuccess(status) {
      blocks, header, body := [], first, s;
      NothingFramed(first + s);
      return;
    }
    PageFound(status, s, pages);
    var (node, rest) := ParseNode(Skip(s)).value;
    var t, page := Skip(rest), Document(Space(s), node, Space(rest));
    var b := Block(first, status, page);
    if t == "" {
      blocks, header, body := [b], "", "";
      OneFramed(b, "", pages);
    } else {
      var end := Separator(t, 0).value.1;
      var code := Head(t[..end]).value.0;
      HeadIsWhole(t, end);
      var more, header', body' := DecodedFrom(t[..end], code, t[end..], pages + [Tree(node)]);
      blocks, header, body := [b] + more, header', body';
      assert t == t[..end] + t[end..];
      FramedFirst(blocks, header + body);
      assert blocks[0] == b && blocks[1..] == more;
      if PagesFrom(status, s, pages).value.Pages? {
        Collected(pages, Tree(node), PageTrees(more));
      }
    }
  }

  lemma OneFramed(b: Block, tail: string, pages: seq<Value>)
    ensures Framed([b]) + tail == b.header + (PrintDocument(b.page) + tail)
    ensures pages + PageTrees([b]) == pages + [Tree(b.page.root)]
  {
    FramedFirst([b], tail);
    assert [b][1..] == [] && [Tree(b.page.root)] + [] == [Tree(b.page.root)];
    NothingFramed(tail);
  }

  /** Exactly the framed answers decode, and each to what was framed. */
  lemma DecodesExactlyFramed(stdout: string, r: Response)
    ensures Decode(stdout) == Some(r) <==>
              exists blocks: seq<Block>, header: string, body: string :: Frames(stdout, r, blocks, header, body)
  {
    hide Head, PagesFrom, PrintDocument, Announces, IsBlock, WellFormedDocument, Tree, Framed, PageTrees;
    if Decode(stdout) == Some(r) {
      var blocks, header, body := DecodedWasFramed(stdout);
      assert Frames(stdout, r, blocks, header, body);
    }
    forall blocks: seq<Block>, header: string, body: string | Frames(stdout, r, blocks, header, body)
      ensures Decode(stdout) == Some(r)
    {
      match r
      case Pages(status, pages) =>
        assert Framed(blocks) + (header + body) == Framed(blocks);
        PagesComeBack(blocks);
      case Failure(status) =>
        FailureDropsPages(blocks, header, status, body);
    }
  }

  /** What has been decoded was framed: pages never come from anywhere but successful blocks. */
  lemma DecodedWasFramed(stdout: string) returns (blocks: seq<Block>, header: string, body: string)
    requires Decode(stdout).Some?
    ensures Frames(stdout, Decode(stdout).value, blocks, header, body)
  {
    hide PagesFrom, PrintDocument, Announces, IsBlock, WellFormedDocument, Tree, Framed, PageTrees, SplitLines,
         StatusOf, IsHeaderLine;
    var (status, rest) := Head(stdout).value;
    var end := Separator(stdout, 0).value.1;
    SameHead(stdout, end);
    HeadIsWhole(stdout, end);
    blocks, header, body := DecodedFrom(stdout[..end], status, rest, []);
    assert stdout == stdout[..end] + rest;
    assert [] + PageTrees(blocks) == PageTrees(blocks);
  }

  /** A header block read from a longer text is the same block by itself. */
  lemma SameHead(t: string, end: nat)
    requires Separator(t, 0).Some? && Separator(t, 0).value.1 == end && Head(t).Some?
    ensures Head(t[..end]) == Some((Head(t).value.0, ""))
  {
    hide SplitLines, StatusOf, IsHeaderLine, BlankLineAt;
    SeparatorCut(t, end);
    assert t[..end][..Separator(t, 0).value.0] == t[..Separator(t, 0).value.0] && t[..end][end..] == "";
  }

  lemma SeparatorCut(t: string, end: nat)
    requires Separator(t, 0).Some? && Separator(t, 0).value.1 == end
    ensures Separator(t[..end], 0) == Separator(t, 0)
  {
    hide BlankLineAt;
    forall i: nat ensures BlankLineAt(t[..end], i).Some? ==> BlankLineAt(t, i) == BlankLineAt(t[..end], i) {
      BlankLineInside(t, end, i);
    }
    BlankLineInside(t, end, Separator(t, 0).value.0);
  }

  lemma PageFound(status: nat, s: string, pages: seq<Value>)
    requires PagesFrom(status, s, pages).Some? && IsSuccess(status)
    ensures ParseNode(Skip(s)).Some?
    ensures var (node, rest) := ParseNode(Skip(s)).value;
            var page := Document(Space(s), node, Space(rest));
            && WellFormedDocument(page) && s == PrintDocument(page) + Skip(rest) && |Skip(rest)| <= |s|
  {
    hide ScanScalar, ParseNode, Print, WellFormed, Head, Separator, SpaceLength, Tree;
    ParsedIsPrinted(Skip(s));
    SkipSplits(s);
    SkipSplits(ParseNode(Skip(s)).value.1);
  }

  lemma BlankLineInside(t: string, end: nat, i: nat)
    requires end <= |t|
    ensures BlankLineAt(t[..end], i).Some? ==> BlankLineAt(t, i) == BlankLineAt(t[..end], i)
    ensures BlankLineAt(t, i).Some? && BlankLineAt(t, i).value <= end ==> BlankLineAt(t[..end], i) == BlankLineAt(t, i)
  {
  }

  lemma HeadIsWhole(t: string, end: nat)
    requires Separator(t, 0).Some? && Separator(t, 0).value.1 == end && Head(t[..end]).Some?
    ensures Announces(t[..end], Head(t[..end]).value.0)
  {
    hide SplitLines, StatusOf, IsHeaderLine, BlankLineAt;
    var header := t[..end];
    forall i: nat ensures BlankLineAt(header, i).Some? ==> BlankLineAt(t, i) == BlankLineAt(header, i) {
      BlankLineInside(t, end, i);
    }
    BlankLineInside(t, end, Separator(t, 0).value.0);
    assert header[|header|..] == "";
  }

  // ---- The decoder's loop ------------------------------------------------------------------------

  lemma SkipTurn(s: string, i: nat)
    requires i < |s| && IsSpace(s[i])
    ensures Skip(s[i..]) == Skip(s[i + 1..])
  {
    assert s[i..][1..] == s[i + 1..];
  }

  lemma SkipDone(s: string, i: nat)
    requires i <= |s| && (i == |s| || !IsSpace(s[i]))
    ensures Skip(s[i..]) == s[i..]
  {
  }

  method SkipSpace(s: string, from: nat) returns (position: nat)
    requires from <= |s|
    ensures from <= position <= |s| && s[position..] == Skip(s[from..])
  {
    hide Skip;
    position := from;
    while position < |s| && IsSpace(s[position])
      invariant from <= position <= |s| && Skip(s[position..]) == Skip(s[from..])
    {
      SkipTurn(s, position);
      position := position + 1;
    }
    SkipDone(s, position);
  }

  /** The whole answer, decoded with one position that moves over the body. */
  method DecodeAnswer(stdout: string) returns (r: Option<Response>)
    ensures r == Decode(stdout)
  {
    hide Head, ParseNode, Skip, Separator, Tree;
    var head := Head(stdout);
    if head.None? {
      return None;
    }
    var (status, text) := head.value;
    var position: nat, pages := 0, [];
    assert text[0..] == text;
    while IsSuccess(status)
      invariant position <= |text|
      invariant Decode(stdout) == PagesFrom(status, text[position..], pages)
      decreases |text| - position
    {
      var start := SkipSpace(text, position);
      var page := ParseNode(text[start..]);
      if page.None? {
        return None;
      }
      pages := pages + [Tree(page.value.0)];
      var behind := |text| - |page.value.1|;
      PageIsSuffix(text, start);
      var next := SkipSpace(text, behind);
      if next == |text| {
        return Some(Pages(status, pages));
      }
      var separator := Separator(text[next..], 0);
      if separator.None? {
        return None;
      }
      var header := Head(text[next..][..separator.value.1]);
      if header.None? {
        return None;
      }
      status := header.value.0;
      position := next + separator.value.1;
      assert text[next..][separator.value.1..] == text[position..];
    }
    return Some(Failure(status));
  }

  lemma PageIsSuffix(text: string, start: nat)
    requires start <= |text| && ParseNode(text[start..]).Some?
    ensures var rest := ParseNode(text[start..]).value.1;
            |rest| <= |text| - start && text[|text| - |rest|..] == rest
  {
    hide ScanScalar, ParseNode, Print, WellFormed;
    ParsedIsPrinted(text[start..]);
    var (node, rest) := ParseNode(text[start..]).value;
    assert text[start..][|Print(node)|..] == rest;
    assert text[start..][|Print(node)|..] == text[start + |Print(node)|..];
  }
}
/**
 * What the lexical state behind a TOML line means, said by offsets: which brackets stand outside of strings and
 * comments, and which string is still open. The state is that of scripts/version_plan.py (_toml_lexical_state)
 * or of the grammar, which differ in how long a closing quote is.
 */
module TomlLex {
  import opened Text
  import opened Toml

  /** A line from an offset on, inside a quote or outside of quotes, read by the scanner or by the grammar. */
  datatype Reading = Reading(line: string, start: nat, carried: Quote, grammar: bool)

  // ---- Outside of strings and comments ---------------------------------------------------------------------

  /** A quote that can end the string whose text begins at an offset: in a basic string, one not escaped. */
  predicate EndsAt(line: string, from: nat, quote: Quote, e: nat) {
    && quote != "" && from <= e < |line| && StartsAt(line, e, quote)
    && (quote[0] == '"' ==> Backslashes(line, from, e) % 2 == 0)
  }

  ghost predicate FirstEnd(line: string, from: nat, quote: Quote, e: nat) {
    EndsAt(line, from, quote, e) && forall f: nat | f < e :: !EndsAt(line, from, quote, f)
  }

  /** The first such quote, in its whole length, stands in front of an offset. */
  ghost predicate Ended(r: Reading, from: nat, quote: Quote, p: nat) {
    exists e: nat :: FirstEnd(r.line, from, quote, e) && e + CloseLength(r.line, e, quote, r.grammar) <= p
  }

  /** What stands at an offset is over at a later one: no comment, and no string that has not ended. */
  ghost predicate Over(r: Reading, q: nat, p: nat)
    requires q < |r.line|
  {
    r.line[q] != '#' && (Opening(r.line, q) != "" ==> Ended(r, q + |Opening(r.line, q)|, Opening(r.line, q), p))
  }

  /** Every string that is carried in or is opened at a free offset has ended, and no comment has begun at one. */
  ghost predicate Free(r: Reading, p: nat)
    decreases p
  {
    && r.start <= p && (r.carried != "" ==> Ended(r, r.start, r.carried, p))
    && forall q: nat | q < p && q < |r.line| && Free(r, q) :: Over(r, q, p)
  }

  /** The text of a string begins at an offset: it is carried in there, or opened at a free offset in front. */
  ghost predicate Begins(r: Reading, from: nat, quote: Quote) {
    && quote != ""
    && ((from == r.start && quote == r.carried) || exists o: nat :: OpenedAt(r, o, from, quote))
  }

  ghost predicate OpenedAt(r: Reading, o: nat, from: nat, quote: Quote) {
    o < |r.line| && Free(r, o) && Opening(r.line, o) == quote && from == o + |quote|
  }

  /** A string that begins on the line and does not end on it. */
  ghost predicate StillOpen(r: Reading, quote: Quote) {
    exists from: nat :: Begins(r, from, quote) && forall e: nat :: !EndsAt(r.line, from, quote, e)
  }

  /** The opening brackets less the closing ones among the free offsets in front of an offset. */
  ghost function Brackets(r: Reading, p: nat): int {
    if p == 0 then 0
    else
      Brackets(r, p - 1) +
      if p - 1 < |r.line| && Free(r, p - 1) then
        if r.line[p - 1] in {'[', '{'} then 1 else if r.line[p - 1] in {']', '}'} then 0 - 1 else 0
      else 0
  }

  // ---- Inside a string ---------------------------------------------------------------------------------------

  ghost predicate Inside(r: Reading, from: nat, quote: Quote, i: nat) {
    && Begins(r, from, quote) && from <= i
    && (forall e: nat | e < i :: !EndsAt(r.line, from, quote, e))
    && (i <= |r.line| && quote[0] == '"' ==> Backslashes(r.line, from, i) % 2 == 0)
  }

  lemma EndedLater(r: Reading, from: nat, quote: Quote, p: nat, later: nat)
    requires Ended(r, from, quote, p) && p <= later
    ensures Ended(r, from, quote, later)
  {
    hide FirstEnd, CloseLength;
  }

  lemma EndIsBehind(r: Reading, from: nat, quote: Quote, i: nat, p: nat)
    requires (forall e: nat | e < i :: !EndsAt(r.line, from, quote, e)) && p <= i
    ensures !Ended(r, from, quote, p)
  {
  }

  /** Between its begin and its end no offset of a string is free. */
  lemma NotFree(r: Reading, from: nat, quote: Quote, i: nat, j: nat)
    requires Inside(r, from, quote, i) && from <= j <= i
    ensures !Free(r, j)
  {
    hide EndsAt, Ended, Opening;
    EndIsBehind(r, from, quote, i, j);
    if !(from == r.start && quote == r.carried) {
      var o: nat :| OpenedAt(r, o, from, quote);
      assert o < j;
    }
  }

  /** Nor is one inside its opening quote. */
  lemma NotFreeOpening(r: Reading, o: nat, from: nat, quote: Quote, j: nat)
    requires OpenedAt(r, o, from, quote) && quote != "" && o < j < from
    ensures !Free(r, j)
  {
    hide Opening;
    EndIsBehind(r, from, quote, from, j);
  }

  lemma FreeStart(r: Reading)
    requires r.carried == ""
    ensures Free(r, r.start)
  {
    forall q: nat | q < r.start ensures !Free(r, q) {}
  }

  lemma InsideStart(r: Reading)
    requires r.carried != ""
    ensures Inside(r, r.start, r.carried, r.start)
  {
  }

  lemma StartIsFirst(r: Reading, p: nat)
    requires p < r.start
    ensures !Free(r, p)
  {
  }

  lemma OverLater(r: Reading, q: nat, p: nat, later: nat)
    requires q < |r.line| && Over(r, q, p) && p <= later
    ensures Over(r, q, later)
  {
    hide Ended, Opening;
    if Opening(r.line, q) != "" { EndedLater(r, q + |Opening(r.line, q)|, Opening(r.line, q), p, later); }
  }

  /** A free offset passes its freedom on over a stretch in which nothing is free. */
  lemma FreePasses(r: Reading, p: nat, next: nat)
    requires p < |r.line| && Free(r, p) && p < next && Over(r, p, next)
    requires forall q: nat | p < q < next && q < |r.line| :: !Free(r, q)
    ensures Free(r, next)
  {
    hide Ended, Over;
    if r.carried != "" { EndedLater(r, r.start, r.carried, p, next); }
    forall q: nat | q < next && q < |r.line| && Free(r, q) ensures Over(r, q, next) {
      if q < p { OverLater(r, q, p, next); }
    }
  }

  /** The string that is carried in passes on freedom where it ends. */
  lemma FreeBehindCarried(r: Reading, next: nat)
    requires r.carried != "" && r.start < next && Ended(r, r.start, r.carried, next)
    requires forall q: nat | r.start <= q < next :: !Free(r, q)
    ensures Free(r, next)
  {
    hide Ended, Opening;
    forall q: nat | q < next ensures !Free(r, q) {
      if q < r.start { StartIsFirst(r, q); }
    }
  }

  lemma CommentIsLast(r: Reading, c: nat, p: nat)
    requires c < |r.line| && Free(r, c) && r.line[c] == '#' && c < p
    ensures !Free(r, p)
  {
  }

  lemma OpensInside(r: Reading, i: nat)
    requires i < |r.line| && Free(r, i) && Opening(r.line, i) != ""
    ensures Inside(r, i + |Opening(r.line, i)|, Opening(r.line, i), i + |Opening(r.line, i)|)
  {
    hide Free;
    assert OpenedAt(r, i, i + |Opening(r.line, i)|, Opening(r.line, i));
  }

  lemma QuoteHead(line: string, i: nat, quote: Quote)
    requires quote != "" && StartsAt(line, i, quote)
    ensures i < |line| && line[i] == quote[0]
  {
    assert line[i] == line[i..i + |quote|][0];
  }

  lemma EscapeInside(r: Reading, from: nat, quote: Quote, i: nat)
    requires Inside(r, from, quote, i) && i < |r.line| && quote[0] == '"' && r.line[i] == '\\'
    ensures Inside(r, from, quote, i + 2)
  {
    hide Begins, StartsAt;
    if EndsAt(r.line, from, quote, i) { QuoteHead(r.line, i, quote); }
    if i + 1 <= |r.line| { assert Backslashes(r.line, from, i + 1) == 1 + Backslashes(r.line, from, i); }
    assert !EndsAt(r.line, from, quote, i) && !EndsAt(r.line, from, quote, i + 1);
  }

  lemma MoreInside(r: Reading, from: nat, quote: Quote, i: nat)
    requires Inside(r, from, quote, i) && i < |r.line| && !StartsAt(r.line, i, quote)
    requires !(quote[0] == '"' && r.line[i] == '\\')
    ensures Inside(r, from, quote, i + 1)
  {
    hide Begins, StartsAt;
    assert !EndsAt(r.line, from, quote, i);
  }

  /** A string ends with the first quote that can end it. */
  lemma ClosedThere(r: Reading, from: nat, quote: Quote, i: nat)
    requires Inside(r, from, quote, i) && i < |r.line| && StartsAt(r.line, i, quote)
    ensures var next := i + CloseLength(r.line, i, quote, r.grammar);
            && i < next <= |r.line| && Ended(r, from, quote, next)
            && forall p: nat | p < next :: !Ended(r, from, quote, p)
  {
    InsideBegins(r, from, quote, i);
    hide Begins, StartsAt, CloseLength;
    CloseFits(r.line, i, quote, r.grammar);
    assert EndsAt(r.line, from, quote, i);
    assert FirstEnd(r.line, from, quote, i);
    forall e: nat | FirstEnd(r.line, from, quote, e) ensures e == i {
    }
  }

  lemma CloseFits(line: string, i: nat, quote: Quote, grammar: bool)
    requires quote != "" && StartsAt(line, i, quote)
    ensures 0 < CloseLength(line, i, quote, grammar) && i + CloseLength(line, i, quote, grammar) <= |line|
  {
    RunIsLong(line, i, quote);
  }

  lemma OpenedNotFree(r: Reading, o: nat, from: nat, quote: Quote, p: nat)
    requires OpenedAt(r, o, from, quote) && quote != "" && o < p && !Ended(r, from, quote, p)
    ensures !Free(r, p)
  {
    hide Ended, Opening;
  }

  lemma CarriedNotFree(r: Reading, p: nat)
    requires r.carried != "" && !Ended(r, r.start, r.carried, p)
    ensures !Free(r, p)
  {
    hide Ended;
  }

  lemma ClosedFree(r: Reading, from: nat, quote: Quote, i: nat)
    requires Inside(r, from, quote, i) && i < |r.line| && StartsAt(r.line, i, quote)
    ensures var next := i + CloseLength(r.line, i, quote, r.grammar);
            && i < next && Free(r, next) && forall p: nat | from <= p < next :: !Free(r, p)
  {
    hide EndsAt, Ended, CloseLength, StartsAt, Opening, Inside, Free;
    InsideBegins(r, from, quote, i);
    ClosedThere(r, from, quote, i);
    var next := i + CloseLength(r.line, i, quote, r.grammar);
    if from == r.start && quote == r.carried {
      forall p: nat | from <= p < next ensures !Free(r, p) { CarriedNotFree(r, p); }
      FreeBehindCarried(r, next);
    } else {
      var o: nat :| OpenedAt(r, o, from, quote);
      forall p: nat | o < p < next ensures !Free(r, p) { OpenedNotFree(r, o, from, quote, p); }
      FreeBehindOpened(r, o, from, quote, next);
    }
  }

  lemma FreeBehindOpened(r: Reading, o: nat, from: nat, quote: Quote, next: nat)
    requires OpenedAt(r, o, from, quote) && quote != "" && o < next && Ended(r, from, quote, next)
    requires forall p: nat | o < p < next :: !Free(r, p)
    ensures Free(r, next)
  {
    hide Ended, Opening, Free;
    if r.line[o] == '#' { HashOpensNothing(r.line, o); }
    FreePasses(r, o, next);
  }

  lemma HashOpensNothing(line: string, i: nat)
    requires i < |line| && line[i] == '#'
    ensures Opening(line, i) == ""
  {
    NoMarkOpens(line, i);
  }

  // ---- The scan ------------------------------------------------------------------------------------------------

  lemma {:induction false} NoneCounted(r: Reading, i: nat, j: nat)
    requires i <= j && forall k: nat | i <= k < j :: k >= |r.line| || !Free(r, k)
    ensures Brackets(r, j) == Brackets(r, i)
  {
    hide Free;
    if i < j { NoneCounted(r, i, j - 1); }
  }

  /** Where a reading stands: at a free offset, or inside the string that begins at one. */
  ghost predicate Stands(r: Reading, from: nat, i: nat, quote: Quote) {
    if quote == "" then Free(r, i) else Inside(r, from, quote, i)
  }

  /** What comes of a reading: it ends free or in a comment, or inside a string that has no end. */
  ghost predicate Leaves(r: Reading, quote: Quote) {
    if quote != "" then StillOpen(r, quote)
    else Free(r, |r.line|) || exists c: nat :: CommentAt(r, c)
  }

  ghost predicate CommentAt(r: Reading, c: nat) {
    c < |r.line| && Free(r, c) && r.line[c] == '#'
  }

  /** The scan leaves a line as its free offsets say, whichever of them it has come to. */
  lemma {:induction false} ScanLeaves(r: Reading, from: nat, i: nat, quote: Quote, depth: int)
    requires Stands(r, from, i, quote)
    requires i > |r.line| ==> quote != ""
    ensures var (q, d) := LexLine(r.line, i, quote, depth, r.grammar);
            Leaves(r, q) && d == depth + Brackets(r, |r.line|) - Brackets(r, if i <= |r.line| then i else |r.line|)
    decreases |r.line| - i
  {
    hide Free, Inside, LexLine, QuoteStep, Leaves, Brackets, Opening, Nesting;
    var line := r.line;
    if i >= |line| {
      LexEnds(line, i, quote, depth);
      EndLeaves(r, from, i, quote);
    } else if quote != "" {
      QuotedTurn(line, i, quote, depth, r.grammar);
      QuoteAdvances(line, i, quote, r.grammar);
      InsideTurn(r, from, i, quote);
      var (next, after) := QuoteStep(line, i, quote, r.grammar);
      ScanLeaves(r, from, next, after, depth);
    } else if line[i] == '#' {
      CommentTurn(line, i, depth, r.grammar);
      CommentLeaves(r, i);
    } else {
      PlainTurn(line, i, depth, r.grammar);
      FreeTurn(r, i);
      var opening := Opening(line, i);
      if opening != "" {
        OpeningFits(line, i);
        ScanLeaves(r, i + |opening|, i + |opening|, opening, depth);
      } else {
        ScanLeaves(r, from, i + 1, "", depth + Nesting(line[i]));
      }
    }
  }

  lemma OpeningFits(line: string, i: nat)
    requires i < |line|
    ensures i + |Opening(line, i)| <= |line|
  {
  }

  lemma EndLeaves(r: Reading, from: nat, i: nat, quote: Quote)
    requires Stands(r, from, i, quote) && i >= |r.line| && (i > |r.line| ==> quote != "")
    ensures Leaves(r, quote)
  {
    hide Free, Begins;
    if quote != "" {
      forall e: nat ensures !EndsAt(r.line, from, quote, e) {
      }
    }
  }

  lemma CommentLeaves(r: Reading, i: nat)
    requires i < |r.line| && Free(r, i) && r.line[i] == '#'
    ensures Leaves(r, "") && Brackets(r, |r.line|) == Brackets(r, i)
  {
    assert CommentAt(r, i);
    forall k: nat | i < k < |r.line| ensures !Free(r, k) { CommentIsLast(r, i, k); }
    hide Free;
    NoneCounted(r, i + 1, |r.line|);
    assert Nesting('#') == 0;
  }

  lemma InsideTurn(r: Reading, from: nat, i: nat, quote: Quote)
    requires quote != "" && Inside(r, from, quote, i) && i < |r.line|
    ensures var (next, after) := QuoteStep(r.line, i, quote, r.grammar);
            && Stands(r, from, next, after) && (next > |r.line| ==> after != "")
            && Brackets(r, if next <= |r.line| then next else |r.line|) == Brackets(r, i)
  {
    hide Free, Inside, CloseLength, StartsAt, Brackets;
    var (next, after) := QuoteStep(r.line, i, quote, r.grammar);
    InsideBegins(r, from, quote, i);
    if quote[0] == '"' && r.line[i] == '\\' {
      EscapeInside(r, from, quote, i);
      StretchCounts(r, from, quote, i, i + 2);
    } else if StartsAt(r.line, i, quote) {
      ClosedFree(r, from, quote, i);
      CloseFits(r.line, i, quote, r.grammar);
      NoneCounted(r, i, next);
    } else {
      MoreInside(r, from, quote, i);
      StretchCounts(r, from, quote, i, i + 1);
    }
  }

  lemma InsideBegins(r: Reading, from: nat, quote: Quote, i: nat)
    requires Inside(r, from, quote, i)
    ensures from <= i && quote != "" && Begins(r, from, quote)
  {
  }

  lemma StretchCounts(r: Reading, from: nat, quote: Quote, i: nat, next: nat)
    requires Inside(r, from, quote, next) && from <= i <= next && i <= |r.line|
    ensures Brackets(r, if next <= |r.line| then next else |r.line|) == Brackets(r, i)
  {
    hide Inside, Free;
    forall k: nat | i <= k < next ensures !Free(r, k) { NotFree(r, from, quote, next, k); }
    NoneCounted(r, i, if next <= |r.line| then next else |r.line|);
  }

  lemma FreeTurn(r: Reading, i: nat)
    requires i < |r.line| && Free(r, i) && r.line[i] != '#'
    ensures var opening := Opening(r.line, i);
            if opening == "" then Free(r, i + 1) && Brackets(r, i + 1) == Brackets(r, i) + Nesting(r.line[i])
            else Inside(r, i + |opening|, opening, i + |opening|) && Brackets(r, i + |opening|) == Brackets(r, i)
  {
    hide Free, Opening, Inside;
    var opening := Opening(r.line, i);
    if opening == "" {
      FreePasses(r, i, i + 1);
    } else {
      OpensInside(r, i);
      assert OpenedAt(r, i, i + |opening|, opening);
      forall k: nat | i < k < i + |opening| ensures !Free(r, k) {
        NotFreeOpening(r, i, i + |opening|, opening, k);
      }
      MarkIsNoBracket(r.line, i);
      NoneCounted(r, i + 1, i + |opening|);
    }
  }

  lemma MarkIsNoBracket(line: string, i: nat)
    requires i < |line| && Opening(line, i) != ""
    ensures Nesting(line[i]) == 0
  {
    if !IsMark(line[i]) { NoMarkOpens(line, i); }
  }

  // ---- The state behind a line -----------------------------------------------------------------------------

  lemma OpenIsLast(r: Reading, from: nat, quote: Quote, p: nat)
    requires Begins(r, from, quote) && (forall e: nat :: !EndsAt(r.line, from, quote, e))
    requires from <= p
    ensures !Free(r, p)
  {
    hide EndsAt, Opening;
    EndIsBehind(r, from, quote, p, p);
    if !(from == r.start && quote == r.carried) {
      var o: nat :| OpenedAt(r, o, from, quote);
    }
  }

  /** At most one string is still open, and none where the line ends free or in a comment. */
  lemma OneOpen(r: Reading, a: Quote, b: Quote)
    requires StillOpen(r, a) && Leaves(r, b) && r.start <= |r.line|
    ensures a == b
  {
    hide Free, EndsAt, Opening;
    var from: nat :| Begins(r, from, a) && forall e: nat :: !EndsAt(r.line, from, a, e);
    if b == "" {
      EndsNowhere(r, from, a);
    } else {
      var from': nat :| Begins(r, from', b) && forall e: nat :: !EndsAt(r.line, from', b, e);
      SameOpen(r, from, a, from', b);
    }
  }

  lemma EndsNowhere(r: Reading, from: nat, quote: Quote)
    requires Begins(r, from, quote) && (forall e: nat :: !EndsAt(r.line, from, quote, e)) && r.start <= |r.line|
    ensures !Leaves(r, "")
  {
    hide EndsAt;
    BeginsInside(r, from, quote);
    OpenIsLast(r, from, quote, |r.line|);
    forall c: nat ensures !CommentAt(r, c) { NoCommentBeside(r, from, quote, c); }
  }

  lemma BeginsInside(r: Reading, from: nat, quote: Quote)
    requires Begins(r, from, quote) && r.start <= |r.line|
    ensures from <= |r.line|
  {
    hide Free;
    if !(from == r.start && quote == r.carried) {
      var o: nat :| OpenedAt(r, o, from, quote);
      OpeningFits(r.line, o);
    }
  }

  lemma NoCommentBeside(r: Reading, from: nat, quote: Quote, c: nat)
    requires Begins(r, from, quote) && (forall e: nat :: !EndsAt(r.line, from, quote, e))
    ensures !CommentAt(r, c)
  {
    hide EndsAt, Opening, Free;
    if c < |r.line| && r.line[c] == '#' {
      if from <= c {
        OpenIsLast(r, from, quote, c);
      } else if from == r.start && quote == r.carried {
        StartIsFirst(r, c);
      } else {
        var o: nat :| OpenedAt(r, o, from, quote);
        if o < c {
          NotFreeOpening(r, o, from, quote, c);
        } else if c == o {
          HashOpensNothing(r.line, c);
        } else if Free(r, c) {
          CommentIsLast(r, c, o);
        }
      }
    }
  }

  lemma SameOpen(r: Reading, from: nat, quote: Quote, from': nat, quote': Quote)
    requires Begins(r, from, quote) && (forall e: nat :: !EndsAt(r.line, from, quote, e))
    requires Begins(r, from', quote') && (forall e: nat :: !EndsAt(r.line, from', quote', e))
    ensures quote == quote'
  {
    hide Free, EndsAt, Opening;
    if from == r.start && quote == r.carried {
      FirstOpen(r, from, quote, from', quote');
    } else if from' == r.start && quote' == r.carried {
      FirstOpen(r, from', quote', from, quote);
    } else {
      var o: nat :| OpenedAt(r, o, from, quote);
      var o': nat :| OpenedAt(r, o', from', quote');
      if o < o' {
        OpenStops(r, o, from, quote, o');
      } else if o' < o {
        OpenStops(r, o', from', quote', o);
      }
    }
  }

  lemma OpenStops(r: Reading, o: nat, from: nat, quote: Quote, p: nat)
    requires OpenedAt(r, o, from, quote) && quote != "" && (forall e: nat :: !EndsAt(r.line, from, quote, e)) && o < p
    ensures !Free(r, p)
  {
    hide Free, EndsAt, Opening;
    if p < from {
      NotFreeOpening(r, o, from, quote, p);
    } else {
      OpenIsLast(r, from, quote, p);
    }
  }

  lemma FirstOpen(r: Reading, from: nat, quote: Quote, from': nat, quote': Quote)
    requires quote != "" && from == r.start && quote == r.carried && (forall e: nat :: !EndsAt(r.line, from, quote, e))
    requires Begins(r, from', quote')
    ensures quote == quote'
  {
    hide EndsAt, Opening, Free;
    forall o: nat ensures !OpenedAt(r, o, from', quote') {
      if o < r.start { StartIsFirst(r, o); } else { OpenIsLast(r, from, quote, o); }
    }
  }

  /**
   * Behind a line the depth has changed by the brackets outside of strings and comments, and exactly the
   * string is open that begins on the line and does not end on it.
   */
  lemma LexLineMeans(r: Reading, depth: int)
    requires r.start <= |r.line|
    ensures var (quote, after) := LexLine(r.line, r.start, r.carried, depth, r.grammar);
            && after == depth + Brackets(r, |r.line|)
            && forall q: Quote | q != "" :: quote == q <==> StillOpen(r, q)
  {
    hide Free, LexLine, StillOpen, Inside, Brackets;
    if r.carried == "" { FreeStart(r); } else { InsideStart(r); }
    ScanLeaves(r, r.start, r.start, r.carried, depth);
    NoneBefore(r);
    var (quote, after) := LexLine(r.line, r.start, r.carried, depth, r.grammar);
    forall q: Quote | q != "" ensures quote == q <==> StillOpen(r, q) {
      if StillOpen(r, q) { OneOpen(r, q, quote); }
    }
  }

  lemma NoneBefore(r: Reading)
    ensures Brackets(r, r.start) == 0
  {
    forall k: nat | k < r.start ensures !Free(r, k) { StartIsFirst(r, k); }
    hide Free;
    NoneCounted(r, 0, r.start);
  }

  // ---- Where scanner and grammar read alike, by offsets -----------------------------------------------------

  /** Two readings leave the same string open and count the same brackets. */
  ghost predicate EndAlike(a: Reading, b: Reading) {
    && Brackets(a, |a.line|) == Brackets(b, |b.line|)
    && forall quote: Quote | quote != "" :: StillOpen(a, quote) <==> StillOpen(b, quote)
  }

  /**
   * Behind the first extra marks of a line: scanner and grammar leave the same string open and find the same
   * balance of brackets outside of strings and comments, though the scanner starts inside a string of one mark,
   * or two offsets earlier.
   */
  ghost predicate RestEndsAlike(line: string, i: nat) {
    && i < |line| && IsMark(line[i])
    && if RunLength(line, i, line[i]) == 4
       then EndAlike(Reading(line, i + 4, Mark(line[i]), false), Reading(line, i + 4, "", true))
       else EndAlike(Reading(line, i + 3, "", false), Reading(line, i + 5, "", true))
  }

  lemma AlikeMeans(a: Reading, b: Reading, depth: int)
    requires a.start <= |a.line| && b.start <= |b.line|
    ensures LexLine(a.line, a.start, a.carried, depth, a.grammar) == LexLine(b.line, b.start, b.carried, depth, b.grammar)
       <==> EndAlike(a, b)
  {
    hide LexLine, StillOpen, Brackets;
    LexLineMeans(a, depth);
    LexLineMeans(b, depth);
    var (p, d) := LexLine(a.line, a.start, a.carried, depth, a.grammar);
    var (q, e) := LexLine(b.line, b.start, b.carried, depth, b.grammar);
    if EndAlike(a, b) {
      if p != "" { assert StillOpen(b, p); }
      if q != "" { assert StillOpen(a, q); }
    }
  }

  // ---- Extra marks, by offsets ----------------------------------------------------------------------------------

  predicate ExtraRun(line: string, i: nat) {
    i < |line| && (RunLength(line, i, line[i]) == 4 || RunLength(line, i, line[i]) > 5)
  }

  ghost predicate EndsByExtra(r: Reading, from: nat, quote: Quote, i: nat) {
    Begins(r, from, quote) && |quote| == 3 && FirstEnd(r.line, from, quote, i) && ExtraRun(r.line, i)
  }

  /** A string of three marks ends there, with four marks or more than five in a row. */
  ghost predicate ExtraAt(r: Reading, i: nat) {
    exists from: nat, quote: Quote :: EndsByExtra(r, from, quote, i)
  }

  lemma OneFirstEnd(r: Reading, from: nat, quote: Quote, i: nat, p: nat)
    requires FirstEnd(r.line, from, quote, i) && Ended(r, from, quote, p)
    ensures i < p
  {
    var e: nat :| FirstEnd(r.line, from, quote, e) && e + CloseLength(r.line, e, quote, r.grammar) <= p;
    CloseFits(r.line, e, quote, r.grammar);
    hide CloseLength, StartsAt, Backslashes;
    assert e == i;
  }

  /** A string that ends behind a free offset is opened there or later. */
  lemma OpenedLater(r: Reading, from: nat, quote: Quote, i: nat, p: nat) returns (o: nat)
    requires Begins(r, from, quote) && FirstEnd(r.line, from, quote, i) && Free(r, p) && p <= i
    ensures p <= o && OpenedAt(r, o, from, quote)
  {
    hide FirstEnd, Ended, Opening;
    if from == r.start && quote == r.carried {
      OneFirstEnd(r, from, quote, i, p);
      assert false;
    } else {
      o :| OpenedAt(r, o, from, quote);
      if o < p { OneFirstEnd(r, from, quote, i, p); }
    }
  }

  /** Where nothing is free between the begin of a string and an end, that is the end of no other string. */
  lemma OnlyOwnEnd(r: Reading, from: nat, quote: Quote, from': nat, quote': Quote, j: nat)
    requires Begins(r, from, quote) && Begins(r, from', quote') && FirstEnd(r.line, from', quote', j)
    requires from <= j && forall p: nat | from <= p <= j :: !Free(r, p)
    ensures from' == from && quote' == quote
  {
    hide Ended, Opening, Free, FirstEnd;
    EndBehindBegin(r.line, from', quote', j);
    if from == r.start && quote == r.carried {
      forall o: nat ensures !OpenedAt(r, o, from', quote') {
        if o < r.start { StartIsFirst(r, o); }
      }
    } else {
      var o: nat :| OpenedAt(r, o, from, quote);
      var o' := OpenedLater(r, from', quote', j, o);
      if o < o' < from { NotFreeOpening(r, o, from, quote, o'); }
    }
  }

  lemma EndBehindBegin(line: string, from: nat, quote: Quote, e: nat)
    requires FirstEnd(line, from, quote, e)
    ensures from <= e < |line| && quote != "" && EndsAt(line, from, quote, e)
  {
    hide Backslashes, StartsAt;
  }

  lemma ExtraThere(r: Reading, from: nat, quote: Quote, i: nat)
    requires Inside(r, from, quote, i) && i < |r.line| && quote != "" && ClosesByExtra(r.line, i, quote)
    ensures ExtraAt(r, i)
  {
    hide Begins, RunLength, StartsAt;
    QuoteHead(r.line, i, quote);
    assert FirstEnd(r.line, from, quote, i);
    assert EndsByExtra(r, from, quote, i);
  }

  /** One step inside a string passes no extra marks, unless it stands at them. */
  lemma NoExtraInside(r: Reading, from: nat, quote: Quote, i: nat, j: nat)
    requires quote != "" && Inside(r, from, quote, i) && i < |r.line| && r.grammar && !ClosesByExtra(r.line, i, quote)
    requires i <= j < QuoteStep(r.line, i, quote, true).0
    ensures !ExtraAt(r, j)
  {
    hide Free, Inside, CloseLength, StartsAt, Begins, Backslashes, RunLength;
    InsideBegins(r, from, quote, i);
    forall from': nat, quote': Quote ensures !EndsByExtra(r, from', quote', j) {
      if EndsByExtra(r, from', quote', j) {
        EndBehindBegin(r.line, from', quote', j);
        StepNotFree(r, from, quote, i, j);
        OnlyOwnEnd(r, from, quote, from', quote', j);
        OwnEndIsHere(r, from, quote, i, j);
        QuoteHead(r.line, i, quote);
      }
    }
  }

  lemma StepNotFree(r: Reading, from: nat, quote: Quote, i: nat, j: nat)
    requires quote != "" && Inside(r, from, quote, i) && i <= j < |r.line| && r.grammar
    requires j < QuoteStep(r.line, i, quote, true).0
    ensures from <= j && forall p: nat | from <= p <= j :: !Free(r, p)
  {
    hide Free, Inside, CloseLength, StartsAt;
    InsideBegins(r, from, quote, i);
    if quote[0] == '"' && r.line[i] == '\\' {
      EscapeInside(r, from, quote, i);
      forall p: nat | from <= p <= j ensures !Free(r, p) { NotFree(r, from, quote, i + 2, p); }
    } else if StartsAt(r.line, i, quote) {
      ClosedFree(r, from, quote, i);
    } else {
      forall p: nat | from <= p <= j ensures !Free(r, p) { NotFree(r, from, quote, i, p); }
    }
  }

  lemma OwnEndIsHere(r: Reading, from: nat, quote: Quote, i: nat, j: nat)
    requires quote != "" && Inside(r, from, quote, i) && i <= j < |r.line| && r.grammar
    requires j < QuoteStep(r.line, i, quote, true).0 && FirstEnd(r.line, from, quote, j)
    ensures i == j && StartsAt(r.line, i, quote) && !(quote[0] == '"' && r.line[i] == '\\')
  {
    hide Free, Begins, CloseLength, StartsAt;
    if quote[0] == '"' && r.line[i] == '\\' {
      EscapeInside(r, from, quote, i);
    } else if StartsAt(r.line, i, quote) {
      assert EndsAt(r.line, from, quote, i);
    } else {
      MoreInside(r, from, quote, i);
    }
  }

  /** Nor does one at a free offset. */
  lemma NoExtraFree(r: Reading, i: nat, j: nat)
    requires i < |r.line| && Free(r, i)
    requires i <= j && (r.line[i] != '#' ==> j <= i || j < i + |Opening(r.line, i)|)
    ensures !ExtraAt(r, j)
  {
    hide Free, FirstEnd, Opening, ExtraRun;
    forall from: nat, quote: Quote ensures !EndsByExtra(r, from, quote, j) {
      if EndsByExtra(r, from, quote, j) {
        EndBehindBegin(r.line, from, quote, j);
        var o := OpenedLater(r, from, quote, j, i);
        if o == i {
          if r.line[i] == '#' { HashOpensNothing(r.line, i); }
        } else if r.line[i] == '#' {
          CommentIsLast(r, i, o);
        } else {
          OpensInside(r, i);
          assert OpenedAt(r, i, i + |Opening(r.line, i)|, Opening(r.line, i));
          NotFreeOpening(r, i, i + |Opening(r.line, i)|, Opening(r.line, i), o);
        }
      }
    }
  }

  /** The scan for extra marks finds the first offset at which a string of three marks ends by them. */
  lemma {:induction false} ExtraIsFirst(r: Reading, from: nat, i: nat, quote: Quote, depth: int)
    requires r.grammar && Stands(r, from, i, quote) && forall j: nat | j < i :: !ExtraAt(r, j)
    ensures var extra := FirstExtra(r.line, i, quote, depth);
            if extra.None? then forall j: nat :: !ExtraAt(r, j)
            else ExtraAt(r, extra.value.0) && forall j: nat | j < extra.value.0 :: !ExtraAt(r, j)
    decreases |r.line| - i
  {
    hide Free, Inside, QuoteStep, Opening, Nesting, ClosesByExtra, ExtraAt;
    var line := r.line;
    if i >= |line| {
      forall j: nat | j >= i ensures !ExtraAt(r, j) { NoExtraBehind(r, j); }
    } else if quote != "" {
      if ClosesByExtra(line, i, quote) {
        ExtraThere(r, from, quote, i);
      } else {
        InsideTurn(r, from, i, quote);
        QuoteAdvances(line, i, quote, true);
        var (next, after) := QuoteStep(line, i, quote, true);
        forall j: nat | i <= j < next ensures !ExtraAt(r, j) { NoExtraInside(r, from, quote, i, j); }
        ExtraIsFirst(r, from, next, after, depth);
      }
    } else if line[i] == '#' {
      forall j: nat | i <= j ensures !ExtraAt(r, j) { NoExtraFree(r, i, j); }
    } else {
      FreeTurn(r, i);
      var opening := Opening(line, i);
      forall j: nat | i <= j && (j <= i || j < i + |opening|) ensures !ExtraAt(r, j) { NoExtraFree(r, i, j); }
      if opening != "" {
        ExtraIsFirst(r, i + |opening|, i + |opening|, opening, depth);
      } else {
        ExtraIsFirst(r, from, i + 1, "", depth + Nesting(line[i]));
      }
    }
  }

  lemma NoExtraBehind(r: Reading, j: nat)
    requires j >= |r.line|
    ensures !ExtraAt(r, j)
  {
  }

  /** The first extra marks of a line are the first at which, by the grammar, a string of three marks ends so. */
  lemma FirstExtraMeans(line: string, quote: Quote, depth: int)
    ensures var extra, r := FirstExtra(line, 0, quote, depth), Reading(line, 0, quote, true);
            if extra.None? then forall j: nat :: !ExtraAt(r, j)
            else ExtraAt(r, extra.value.0) && forall j: nat | j < extra.value.0 :: !ExtraAt(r, j)
  {
    hide FirstExtra, ExtraAt, Free, Inside;
    var r := Reading(line, 0, quote, true);
    if quote == "" { FreeStart(r); } else { InsideStart(r); }
    ExtraIsFirst(r, 0, 0, quote, depth);
  }

  ghost predicate FirstExtraAt(line: string, quote: Quote, i: nat) {
    var r := Reading(line, 0, quote, true);
    ExtraAt(r, i) && forall j: nat | j < i :: !ExtraAt(r, j)
  }

  /**
   * Scanner and grammar come out of a line alike exactly when no string of three marks ends by extra marks on
   * it, or the rest behind the first that does ends alike.
   */
  lemma LineAlikeByOffsets(line: string, quote: Quote, depth: int)
    ensures LexLine(line, 0, quote, depth, false) == LexLine(line, 0, quote, depth, true)
       <==> forall i: nat | FirstExtraAt(line, quote, i) :: RestEndsAlike(line, i)
  {
    hide FirstExtra, RunLength, LexLine, EndAlike, ExtraAt, RestEndsAlike, ReadsAlike;
    LineReadsAlike(line, quote, depth);
    FirstExtraMeans(line, quote, depth);
    RestMeans(line, quote, depth);
    var extra := FirstExtra(line, 0, quote, depth);
    if extra.Some? {
      assert FirstExtraAt(line, quote, extra.value.0);
      forall i: nat | FirstExtraAt(line, quote, i) ensures i == extra.value.0 {
      }
    }
  }

  lemma RestMeans(line: string, quote: Quote, depth: int)
    ensures var extra := FirstExtra(line, 0, quote, depth);
            ReadsAlike(line, quote, depth) <==> extra.None? || RestEndsAlike(line, extra.value.0)
  {
    hide FirstExtra, RunLength, LexLine, EndAlike;
    var extra := FirstExtra(line, 0, quote, depth);
    if extra.Some? {
      var (i, d) := extra.value;
      ExtraFits(line, quote, depth);
      if RunLength(line, i, line[i]) == 4 {
        AlikeMeans(Reading(line, i + 4, Mark(line[i]), false), Reading(line, i + 4, "", true), d);
      } else {
        AlikeMeans(Reading(line, i + 3, "", false), Reading(line, i + 5, "", true), d);
      }
    }
  }

  lemma ExtraFits(line: string, quote: Quote, depth: int)
    ensures var extra := FirstExtra(line, 0, quote, depth);
            extra.Some? ==> var i := extra.value.0;
              i < |line| && RunLength(line, i, line[i]) >= 4
              && (RunLength(line, i, line[i]) != 4 ==> RunLength(line, i, line[i]) > 5)
  {
    hide FirstExtra, RunLength, FirstEnd, Begins;
    FirstExtraMeans(line, quote, depth);
  }

  /** Every line of a text ends alike by its offsets, from the grammar's quote in front of it. */
  ghost predicate AllEndAlike(lines: seq<string>) {
    forall i, k: nat | 0 <= i < |lines| && FirstExtraAt(lines[i], LexLines(lines[..i], true).0, k) :: RestEndsAlike(lines[i], k)
  }

  /** The states in front of all lines are those of the grammar exactly when every line ends alike. */
  lemma FollowsByOffsets(lines: seq<string>)
    ensures (forall i | 0 <= i <= |lines| :: LexLines(lines[..i], false) == LexLines(lines[..i], true))
       <==> AllEndAlike(lines)
  {
    hide LexLines, ReadsAlike, FirstExtraAt, RestEndsAlike;
    FollowsGrammar(lines);
    forall i | 0 <= i < |lines|
      ensures ReadsAlike(lines[i], LexLines(lines[..i], true).0, LexLines(lines[..i], true).1)
         <==> forall k: nat | FirstExtraAt(lines[i], LexLines(lines[..i], true).0, k) :: RestEndsAlike(lines[i], k)
    {
      LineReadsAlike(lines[i], LexLines(lines[..i], true).0, LexLines(lines[..i], true).1);
      LineAlikeByOffsets(lines[i], LexLines(lines[..i], true).0, LexLines(lines[..i], true).1);
    }
  }
}

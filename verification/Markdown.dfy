/**
 * The release-note scanner of scripts/release_control.py: inline code, comments, fences, headings
 * and sections, all with offsets into the original text.
 */
module Markdown {
  import opened Wrappers
  import opened Text

  // ---- Inline code ---------------------------------------------------------------------------

  const TICK := '`'

  datatype Run = Run(start: nat, end: nat)

  function TicksFrom(line: string, at: nat): (n: nat)
    requires at <= |line|
    ensures at + n <= |line|
    ensures forall k | at <= k < at + n :: line[k] == TICK
    ensures at + n < |line| ==> line[at + n] != TICK
    decreases |line| - at
  {
    if at < |line| && line[at] == TICK then 1 + TicksFrom(line, at + 1) else 0
  }

  /** A maximal run of backticks. */
  predicate IsRun(line: string, start: int, end: int) {
    && 0 <= start < end <= |line| && (forall k | start <= k < end :: line[k] == TICK)
    && (start > 0 ==> line[start - 1] != TICK) && (end < |line| ==> line[end] != TICK)
  }

  predicate NoTicks(line: string, from: int, to: int)
    requires 0 <= from && to <= |line|
  {
    forall k | from <= k < to :: line[k] != TICK
  }

  /** Not in the middle of a run. */
  predicate BesideRuns(line: string, at: nat) {
    0 < at < |line| ==> line[at - 1] != TICK || line[at] != TICK
  }

  /** The runs from an offset on, as the regular expression finds them. */
  function Runs(line: string, at: nat): (runs: seq<Run>)
    requires at <= |line|
    decreases |line| - at
  {
    if at == |line| then []
    else
      var n := TicksFrom(line, at);
      if n == 0 then Runs(line, at + 1) else [Run(at, at + n)] + Runs(line, at + n)
  }

  function StartOf(line: string, runs: seq<Run>, i: nat): nat
    requires i <= |runs|
  {
    if i == |runs| then |line| else runs[i].start
  }

  /** The runs behind an offset, with nothing but other characters between them. */
  predicate RunsCover(line: string, runs: seq<Run>, at: nat)
    requires at <= |line|
  {
    if runs == [] then NoTicks(line, at, |line|)
    else
      && at <= runs[0].start && IsRun(line, runs[0].start, runs[0].end)
      && NoTicks(line, at, runs[0].start) && RunsCover(line, runs[1..], runs[0].end)
  }

  lemma {:induction false} RunsAreMaximal(line: string, at: nat)
    requires at <= |line| && BesideRuns(line, at)
    ensures RunsCover(line, Runs(line, at), at)
    decreases |line| - at
  {
    if at < |line| {
      var n := TicksFrom(line, at);
      if n == 0 {
        RunsAreMaximal(line, at + 1);
        CoverEarlier(line, Runs(line, at + 1), at);
      } else {
        assert IsRun(line, at, at + n);
        RunsAreMaximal(line, at + n);
        CoverRun(line, at, at + n, Runs(line, at + n));
      }
    }
  }

  lemma CoverEarlier(line: string, runs: seq<Run>, at: nat)
    requires at < |line| && line[at] != TICK && RunsCover(line, runs, at + 1)
    ensures RunsCover(line, runs, at)
  {
    hide IsRun;
  }

  lemma CoverRun(line: string, start: nat, end: nat, rest: seq<Run>)
    requires end <= |line| && IsRun(line, start, end) && RunsCover(line, rest, end)
    ensures RunsCover(line, [Run(start, end)] + rest, start)
  {
    hide IsRun;
    assert ([Run(start, end)] + rest)[1..] == rest;
  }

  lemma {:induction false} CoverAt(line: string, runs: seq<Run>, at: nat, i: nat)
    requires at <= |line| && RunsCover(line, runs, at) && i <= |runs|
    ensures var from := if i == 0 then at else runs[i - 1].end;
            from <= StartOf(line, runs, i) <= |line| && NoTicks(line, from, StartOf(line, runs, i))
    ensures i < |runs| ==> runs[i].start < runs[i].end && IsRun(line, runs[i].start, runs[i].end)
  {
    if i > 0 {
      CoverAt(line, runs[1..], runs[0].end, i - 1);
      assert i > 1 ==> runs[1..][i - 2] == runs[i - 1];
      assert StartOf(line, runs, i) == StartOf(line, runs[1..], i - 1);
    }
  }

  /** The forward search of a closing run: the end of the nearest run of a length. */
  function FindRun(line: string, at: nat, length: int): (r: Option<nat>)
    requires at <= |line| && BesideRuns(line, at)
    ensures r.Some? ==> at <= r.value - length && IsRun(line, r.value - length, r.value)
    decreases |line| - at
  {
    if at == |line| then None
    else
      var n := TicksFrom(line, at);
      if n == 0 then FindRun(line, at + 1, length)
      else
        assert IsRun(line, at, at + n);
        if n == length then Some(at + n) else FindRun(line, at + n, length)
  }

  lemma RunBehind(line: string, at: nat, s: int, e: int)
    requires at < |line| && BesideRuns(line, at) && at <= s && IsRun(line, s, e)
    ensures var n := TicksFrom(line, at);
            && (if n == 0 then s > at else (s == at && e == at + n) || s >= at + n)
            && BesideRuns(line, if n == 0 then at + 1 else at + n)
  {
  }

  lemma RunBounds(line: string, s: int, e: int)
    requires IsRun(line, s, e)
    ensures 0 <= s < e <= |line|
  {
  }

  /** No run of the length ends earlier, and none is missed. */
  lemma {:induction false} FindRunIsFirst(line: string, at: nat, length: int, s: int, e: int)
    requires at <= |line| && BesideRuns(line, at) && at <= s && IsRun(line, s, e) && e - s == length
    ensures FindRun(line, at, length).Some? && FindRun(line, at, length).value <= e
    decreases |line| - at
  {
    hide IsRun, BesideRuns;
    RunBounds(line, s, e);
    RunBehind(line, at, s, e);
    var n := TicksFrom(line, at);
    if n == 0 {
      FindRunIsFirst(line, at + 1, length, s, e);
    } else if s >= at + n {
      FindRunIsFirst(line, at + n, length, s, e);
    }
  }

  /** Where the code span that starts at an offset ends, if one starts there. */
  function CodeEnd(line: string, p: nat): Option<nat> {
    if p < |line| && line[p] == TICK && (p == 0 || line[p - 1] != TICK) then
      var n := TicksFrom(line, p);
      FindRun(line, p + n, n)
    else None
  }

  /**
   * A code span starts at a maximal run of backticks that a later run of the same length follows,
   * and it ends with the nearest such run.
   */
  lemma CodeSpanMeans(line: string, p: nat, end: nat)
    ensures CodeEnd(line, p) == Some(end) <==>
              exists t: int, u: int :: Pairs(line, p, t, u, end)
  {
    if CodeEnd(line, p) == Some(end) {
      hide FindRun;
      var n := TicksFrom(line, p);
      assert IsRun(line, p, p + n) && IsRun(line, end - n, end);
      forall v: int, w: int | p + n <= v && IsRun(line, v, w) && w - v == n ensures end <= w {
        FindRunIsFirst(line, p + n, n, v, w);
      }
      assert Pairs(line, p, p + n, end - n, end);
    }
    if t: int, u: int :| Pairs(line, p, t, u, end) {
      PairIsSpan(line, p, t, u, end);
    }
  }

  ghost predicate Pairs(line: string, p: nat, t: int, u: int, end: nat) {
    && IsRun(line, p, t) && IsRun(line, u, end) && t <= u && t - p == end - u
    && forall v: int, w: int | t <= v && IsRun(line, v, w) && w - v == end - u :: end <= w
  }

  lemma PairIsSpan(line: string, p: nat, t: int, u: int, end: nat)
    requires Pairs(line, p, t, u, end)
    ensures CodeEnd(line, p) == Some(end)
  {
    hide FindRun;
    var n := TicksFrom(line, p);
    assert t == p + n;
    FindRunIsFirst(line, t, n, u, end);
    var found := FindRun(line, t, n);
    assert found.Some? && found.value <= end;
    assert IsRun(line, found.value - n, found.value);
  }

  lemma {:induction false} FindRunSkips(line: string, at: nat, to: nat, length: int)
    requires at <= to <= |line| && NoTicks(line, at, to) && BesideRuns(line, at)
    ensures BesideRuns(line, to) && FindRun(line, at, length) == FindRun(line, to, length)
    decreases |line| - at
  {
    if at < to {
      FindRunSkips(line, at + 1, to, length);
    }
  }

  function Get(m: map<int, nat>, k: int): Option<nat> {
    if k in m then Some(m[k]) else None
  }

  lemma GetPut(m: map<int, nat>, k: int, v: nat)
    ensures Get(m[k := v], k) == Some(v)
    ensures forall q: int | q != k :: Get(m[k := v], q) == Get(m, q)
  {
    forall q: int | q != k ensures Get(m[k := v], q) == Get(m, q) {
      assert q in m[k := v] <==> q in m;
    }
  }

  /** One run further to the left, what a forward search from there finds. */
  lemma RunStepFor(line: string, run: Run, next: nat, length: int)
    requires IsRun(line, run.start, run.end) && run.end <= next <= |line| && NoTicks(line, run.end, next)
    ensures BesideRuns(line, run.start) && BesideRuns(line, next)
    ensures FindRun(line, run.start, length)
         == if length == run.end - run.start then Some(run.end) else FindRun(line, next, length)
  {
    assert TicksFrom(line, run.start) == run.end - run.start;
    FindRunSkips(line, run.end, next, length);
  }

  lemma RunStep(line: string, run: Run, next: nat)
    requires IsRun(line, run.start, run.end) && run.end <= next <= |line| && NoTicks(line, run.end, next)
    ensures BesideRuns(line, run.start) && BesideRuns(line, next)
    ensures forall length: int ::
              FindRun(line, run.start, length) ==
                if length == run.end - run.start then Some(run.end) else FindRun(line, next, length)
  {
    RunStepFor(line, run, next, 0);
    hide FindRun, IsRun, NoTicks, BesideRuns;
    forall length: int
      ensures FindRun(line, run.start, length)
           == if length == run.end - run.start then Some(run.end) else FindRun(line, next, length)
    {
      RunStepFor(line, run, next, length);
    }
  }

  lemma OneSpanMore(line: string, run: Run, next: nat)
    requires IsRun(line, run.start, run.end) && run.end <= next <= |line| && NoTicks(line, run.end, next)
    ensures BesideRuns(line, next) && CodeEnd(line, run.start) == FindRun(line, next, run.end - run.start)
    ensures forall p: nat | run.start < p < next :: CodeEnd(line, p) == None
  {
    hide FindRun;
    assert TicksFrom(line, run.start) == run.end - run.start;
    FindRunSkips(line, run.end, next, run.end - run.start);
    forall p: nat | run.start < p < next ensures CodeEnd(line, p) == None {
      assert p < run.end ==> line[p - 1] == TICK;
    }
  }

  /** What the reverse pass knows of the lengths behind an offset is what forward searches find. */
  ghost predicate FollowingFrom(line: string, at: nat, following: map<int, nat>) {
    && at <= |line| && BesideRuns(line, at)
    && forall length: int :: Get(following, length) == FindRun(line, at, length)
  }

  ghost predicate EndsFrom(line: string, at: nat, ends: map<int, nat>) {
    && (forall p: nat | p < at :: p !in ends)
    && (forall p: nat | p >= at :: Get(ends, p) == CodeEnd(line, p))
  }

  lemma FollowingRun(line: string, run: Run, at: nat, following: map<int, nat>)
    requires FollowingFrom(line, at, following)
    requires IsRun(line, run.start, run.end) && run.end <= at && NoTicks(line, run.end, at)
    ensures FollowingFrom(line, run.start, following[run.end as int - run.start := run.end])
  {
    assert run.start <= run.end <= |line|;
    hide FindRun, NoTicks, BesideRuns, IsRun, Get;
    var length: int := run.end as int - run.start;
    RunStep(line, run, at);
    GetPut(following, length, run.end);
    forall k: int ensures Get(following[length := run.end], k) == FindRun(line, run.start, k) {
      assert Get(following, k) == FindRun(line, at, k);
    }
  }

  lemma KnownLength(line: string, at: nat, following: map<int, nat>, length: int)
    requires FollowingFrom(line, at, following)
    ensures at <= |line| && BesideRuns(line, at) && Get(following, length) == FindRun(line, at, length)
  {
  }

  lemma NotIn(m: map<int, nat>, k: int)
    ensures k !in m ==> Get(m, k) == None
  {
  }

  lemma EndsUpdated(ends: map<int, nat>, start: nat, following: map<int, nat>, length: int)
    requires start !in ends
    ensures var ends' := if length in following then ends[start as int := following[length]] else ends;
            && Get(ends', start) == Get(following, length)
            && (forall p: int | p != start :: Get(ends', p) == Get(ends, p) && (p in ends' <==> p in ends))
  {
    if length in following { GetPut(ends, start, following[length]); }
  }

  lemma EndsRun(line: string, run: Run, at: nat, following: map<int, nat>, ends: map<int, nat>)
    requires at <= |line| && BesideRuns(line, at) && EndsFrom(line, at, ends)
    requires IsRun(line, run.start, run.end) && run.end <= at && NoTicks(line, run.end, at)
    requires Get(following, run.end as int - run.start) == FindRun(line, at, run.end as int - run.start)
    ensures var length := run.end as int - run.start;
            EndsFrom(line, run.start, if length in following then ends[run.start as int := following[length]] else ends)
  {
    hide FindRun, CodeEnd, IsRun, NoTicks, BesideRuns, Get;
    RunBounds(line, run.start, run.end);
    var length: int := run.end as int - run.start;
    OneSpanMore(line, run, at);
    EndsUpdated(ends, run.start, following, length);
    var ends' := if length in following then ends[run.start as int := following[length]] else ends;
    forall p: nat | p >= run.start ensures Get(ends', p) == CodeEnd(line, p) {
      if p >= at {
        assert Get(ends, p) == CodeEnd(line, p);
      } else if p > run.start {
        assert Get(ends, p) == None == CodeEnd(line, p) by { NotIn(ends, p); }
      }
    }
  }

  /** The reverse pass over the runs of one line finds what the forward search finds at each offset. */
  method CodeSpanEnds(line: string) returns (ends: map<int, nat>)
    ensures forall p: nat :: Get(ends, p) == CodeEnd(line, p)
  {
    hide FindRun, CodeEnd, IsRun, NoTicks, BesideRuns, RunsCover, Runs, FollowingFrom, EndsFrom;
    var runs := Runs(line, 0);
    RunsAreMaximal(line, 0);
    var following: map<int, nat> := map[];
    ends := map[];
    NothingPassed(line);
    CoverAt(line, runs, 0, |runs|);
    for i := |runs| downto 0
      invariant FollowingFrom(line, StartOf(line, runs, i), following)
      invariant EndsFrom(line, StartOf(line, runs, i), ends)
    {
      CoverAt(line, runs, 0, i);
      CoverAt(line, runs, 0, i + 1);
      KnownLength(line, StartOf(line, runs, i + 1), following, runs[i].end as int - runs[i].start);
      FollowingRun(line, runs[i], StartOf(line, runs, i + 1), following);
      EndsRun(line, runs[i], StartOf(line, runs, i + 1), following, ends);
      var start, end := runs[i].start, runs[i].end;
      var length: int := end - start;
      if length in following {
        ends := ends[start as int := following[length]];
      }
      following := following[length := end];
    }
    CoverAt(line, runs, 0, 0);
    AllPassed(line, StartOf(line, runs, 0), ends);
  }

  lemma NothingPassed(line: string)
    ensures FollowingFrom(line, |line|, map[]) && EndsFrom(line, |line|, map[])
  {
  }

  lemma AllPassed(line: string, at: nat, ends: map<int, nat>)
    requires at <= |line| && EndsFrom(line, at, ends) && NoTicks(line, 0, at)
    ensures forall p: nat :: Get(ends, p) == CodeEnd(line, p)
  {
    forall p: nat ensures Get(ends, p) == CodeEnd(line, p) {
      if p < at { assert CodeEnd(line, p) == None; }
    }
  }

  lemma SpansAdvance(line: string)
    ensures forall p: nat | CodeEnd(line, p).Some? :: p < CodeEnd(line, p).value <= |line|
  {
  }

  // ---- Comments -----------------------------------------------------------------------------------

  /** Python's line.find(pattern, p). */
  function Find(line: string, pattern: string, p: nat): (r: Option<nat>)
    ensures r.Some? ==> p <= r.value && StartsAt(line, r.value, pattern)
    ensures forall k | p <= k && (r.None? || k < r.value) :: !StartsAt(line, k, pattern)
    decreases |line| - p
  {
    if p > |line| then None
    else if StartsAt(line, p, pattern) then Some(p)
    else if p == |line| then None
    else Find(line, pattern, p + 1)
  }

  function Blank(c: char): char {
    if c == '\r' || c == '\n' then c else ' '
  }

  function Blanks(s: string): (b: string)
    ensures |b| == |s| && forall k | 0 <= k < |s| :: b[k] == Blank(s[k])
  {
    seq(|s|, k requires 0 <= k < |s| => Blank(s[k]))
  }

  function CommentStop(line: string, p: nat): (stop: nat)
    requires p < |line|
    ensures p < stop <= |line|
  {
    var end := Find(line, "-->", p);
    if end.None? then |line| else end.value + 3
  }

  /** The line from an offset on with its comments blanked, and whether a comment is still open behind it. */
  function Mask(line: string, p: nat, comment: bool): (m: (string, bool))
    ensures |m.0| == if p <= |line| then |line| - p else 0
    decreases |line| - p, if comment then 0 else 1
  {
    if p >= |line| then ("", comment)
    else if comment then
      var stop := CommentStop(line, p);
      var rest := Mask(line, stop, Find(line, "-->", p).None?);
      (Blanks(line[p..stop]) + rest.0, rest.1)
    else if line[p] == '\\' then
      var rest := Mask(line, p + 2, false);
      (if p + 2 <= |line| then line[p..p + 2] + rest.0 else line[p..], rest.1)
    else if CodeEnd(line, p).Some? then
      SpansAdvance(line);
      var end := CodeEnd(line, p).value;
      var rest := Mask(line, end, false);
      (line[p..end] + rest.0, rest.1)
    else if StartsAt(line, p, "<!--") then Mask(line, p, true)
    else
      var rest := Mask(line, p + 1, false);
      ([line[p]] + rest.0, rest.1)
  }

  /** Every character stays or becomes a blank, and no line break is lost or added. */
  predicate MasksOnly(line: string, visible: string) {
    && |visible| == |line|
    && forall k | 0 <= k < |line| :: visible[k] == line[k] || visible[k] == Blank(line[k])
  }

  lemma {:induction false} MaskKeepsLayout(line: string, p: nat, comment: bool)
    requires p <= |line|
    ensures MasksOnly(line[p..], Mask(line, p, comment).0)
    decreases |line| - p, if comment then 0 else 1
  {
    hide CodeEnd;
    if p < |line| {
      if comment {
        MaskKeepsLayout(line, CommentStop(line, p), Find(line, "-->", p).None?);
      } else if line[p] == '\\' {
        if p + 2 <= |line| { MaskKeepsLayout(line, p + 2, false); }
      } else if CodeEnd(line, p).Some? {
        SpansAdvance(line);
        MaskKeepsLayout(line, CodeEnd(line, p).value, false);
      } else if StartsAt(line, p, "<!--") {
        MaskKeepsLayout(line, p, true);
      } else {
        MaskKeepsLayout(line, p + 1, false);
      }
    }
  }

  // ---- What is a comment, said by offsets -----------------------------------------------------------

  /** A comment that is open at an offset has ended before another one. */
  predicate Closed(line: string, from: nat, k: nat) {
    exists e: nat :: from <= e && e + 3 <= k && StartsAt(line, e, "-->")
  }

  /**
   * An offset is live when no live backslash stands right in front of it, no live code span reaches over
   * it, and no comment that was opened live, or is open where the line starts, is still open there.
   */
  ghost predicate Live(line: string, open: bool, p: nat)
    decreases p
  {
    && (open ==> Closed(line, 0, p))
    && forall q: nat | q < p && q < |line| && Live(line, open, q) ::
         && (line[q] == '\\' ==> q + 1 != p)
         && (line[q] != '\\' && CodeEnd(line, q).Some? ==> CodeEnd(line, q).value <= p)
         && (StartsAt(line, q, "<!--") ==> Closed(line, q, p))
  }

  /** Behind a live opener, or behind the start of a line that begins inside, and not yet closed. */
  ghost predicate InComment(line: string, open: bool, k: nat) {
    || (open && !Closed(line, 0, k))
    || exists o: nat :: o <= k && StartsAt(line, o, "<!--") && Live(line, open, o) && !Closed(line, o, k)
  }

  /** A stretch of a visible line: comments are blanked, everything else is as it was. */
  ghost predicate Hides(line: string, open: bool, from: nat, visible: string) {
    && from + |visible| <= |line|
    && forall k | 0 <= k < |visible| ::
         visible[k] == if InComment(line, open, from + k) then Blank(line[from + k]) else line[from + k]
  }

  lemma ClosedLater(line: string, from: nat, k: nat, l: nat)
    requires Closed(line, from, k) && k <= l
    ensures Closed(line, from, l)
  {
  }

  /** What is live passes its liveness on over a stretch in which nothing is live. */
  lemma LivePasses(line: string, open: bool, p: nat, next: nat)
    requires Live(line, open, p) && p < next && p < |line|
    requires forall q: nat | p < q < next && q < |line| :: !Live(line, open, q)
    requires line[p] == '\\' ==> p + 1 != next
    requires line[p] != '\\' && CodeEnd(line, p).Some? ==> CodeEnd(line, p).value <= next
    requires StartsAt(line, p, "<!--") ==> Closed(line, p, next)
    ensures Live(line, open, next)
  {
    hide CodeEnd, StartsAt, Closed;
    forall q: nat | q < next && q < |line| && Live(line, open, q)
      ensures line[q] == '\\' ==> q + 1 != next
      ensures line[q] != '\\' && CodeEnd(line, q).Some? ==> CodeEnd(line, q).value <= next
      ensures StartsAt(line, q, "<!--") ==> Closed(line, q, next)
    {
      if q < p && StartsAt(line, q, "<!--") { ClosedLater(line, q, p, next); }
    }
    if open { ClosedLater(line, 0, p, next); }
  }

  /** Behind a live offset, up to the next one, only a comment opened at it can be open. */
  lemma OnlyOwnComment(line: string, open: bool, p: nat, k: nat)
    requires Live(line, open, p) && p <= k && p < |line|
    requires forall q: nat | p < q <= k && q < |line| :: !Live(line, open, q)
    ensures InComment(line, open, k) <==> StartsAt(line, p, "<!--") && !Closed(line, p, k)
  {
    hide Live, Closed;
    if open {
      CarriedClosed(line, p);
      ClosedLater(line, 0, p, k);
    }
    forall o: nat | o < p && StartsAt(line, o, "<!--") && Live(line, open, o) ensures Closed(line, o, k) {
      OpenerClosed(line, open, o, p);
      ClosedLater(line, o, p, k);
    }
  }

  lemma CarriedClosed(line: string, p: nat)
    requires Live(line, true, p)
    ensures Closed(line, 0, p)
  {
  }

  lemma OpenerClosed(line: string, open: bool, o: nat, p: nat)
    requires Live(line, open, p) && o < p && o < |line| && StartsAt(line, o, "<!--") && Live(line, open, o)
    ensures Closed(line, o, p)
  {
    hide Closed, StartsAt, CodeEnd;
  }

  lemma BehindEnd(line: string, open: bool, p: nat)
    requires Live(line, open, p) && p >= |line|
    ensures !InComment(line, open, |line|)
  {
  }

  lemma HidesJoin(line: string, open: bool, from: nat, a: string, b: string)
    requires Hides(line, open, from, a) && Hides(line, open, from + |a|, b)
    ensures Hides(line, open, from, a + b)
  {
    hide InComment, Blank;
  }

  /** A stretch without a comment stays as it is. */
  lemma PlainStretch(line: string, open: bool, p: nat, next: nat)
    requires Live(line, open, p) && p < next <= |line| && !StartsAt(line, p, "<!--")
    requires forall q: nat | p < q < next :: !Live(line, open, q)
    ensures Hides(line, open, p, line[p..next])
  {
    hide Live, InComment, Blank;
    forall k: nat | p <= k < next ensures !InComment(line, open, k) {
      OnlyOwnComment(line, open, p, k);
    }
  }

  /** A comment that is open at an offset, up to its end. */
  lemma CommentStretch(line: string, open: bool, p: nat)
    requires p < |line| && ((p == 0 && open) || (Live(line, open, p) && StartsAt(line, p, "<!--")))
    ensures var stop := CommentStop(line, p);
            && Hides(line, open, p, Blanks(line[p..stop]))
            && (Find(line, "-->", p).None? ==> stop == |line| && InComment(line, open, |line|))
            && (Find(line, "-->", p).Some? ==> Live(line, open, stop))
  {
    hide Live, Blank, CodeEnd;
    var stop := CommentStop(line, p);
    forall k: nat | p <= k < stop || (k == stop && Find(line, "-->", p).None?) ensures !Closed(line, p, k) {
    }
    assert Hides(line, open, p, Blanks(line[p..stop])) by {
      forall k: nat | p <= k < stop ensures InComment(line, open, k) { assert !Closed(line, p, k); }
    }
    if Find(line, "-->", p).Some? {
      assert Closed(line, p, stop);
      LiveBehindComment(line, open, p, stop);
    }
  }

  lemma LiveBehindComment(line: string, open: bool, p: nat, stop: nat)
    requires p < stop && p < |line| && ((p == 0 && open) || (Live(line, open, p) && StartsAt(line, p, "<!--")))
    requires Closed(line, p, stop) && forall k: nat | p <= k < stop :: !Closed(line, p, k)
    ensures Live(line, open, stop)
  {
    hide Closed;
    if !Live(line, open, p) || !StartsAt(line, p, "<!--") {
      assert forall q: nat | q < stop :: !Live(line, open, q);
    } else {
      OpenerStart(line, p);
      assert forall q: nat | p < q < stop :: !Live(line, open, q);
      LivePasses(line, open, p, stop);
    }
  }

  lemma OpenerStart(line: string, p: nat)
    ensures StartsAt(line, p, "<!--") ==> line[p] == '<'
  {
    if StartsAt(line, p, "<!--") { assert line[p] == line[p..p + 4][0]; }
  }

  lemma AfterEscape(line: string, open: bool, p: nat)
    requires Live(line, open, p) && p < |line| && line[p] == '\\'
    ensures !Live(line, open, p + 1) && Live(line, open, p + 2) && !StartsAt(line, p, "<!--")
  {
    OpenerStart(line, p);
    LivePasses(line, open, p, p + 2);
  }

  lemma AfterCode(line: string, open: bool, p: nat)
    requires Live(line, open, p) && p < |line| && line[p] != '\\' && CodeEnd(line, p).Some?
    ensures var end := CodeEnd(line, p).value;
            && p < end <= |line| && Live(line, open, end) && !StartsAt(line, p, "<!--")
            && forall q: nat | p < q < end :: !Live(line, open, q)
  {
    SpansAdvance(line);
    OpenerStart(line, p);
    LivePasses(line, open, p, CodeEnd(line, p).value);
  }

  /**
   * Exactly the characters inside comments are blanked, from any offset the scanner comes to, and a comment
   * is reported open exactly when one is open behind the line.
   */
  lemma {:induction false} MaskHides(line: string, open: bool, p: nat, comment: bool)
    requires if comment then p <= |line| && ((p == 0 && open) || (Live(line, open, p) && StartsAt(line, p, "<!--")))
             else Live(line, open, p)
    ensures var m := Mask(line, p, comment);
            && (p <= |line| ==> Hides(line, open, p, m.0)) && (m.1 <==> InComment(line, open, |line|))
    decreases |line| - p, if comment then 0 else 1
  {
    hide Live, InComment, CodeEnd, Blank, Hides, Find, CommentStop, Mask;
    if p >= |line| {
      MaskPast(line, p, comment);
      NothingHidden(line, open);
      if comment { OpenAtEnd(line, open); } else { BehindEnd(line, open, p); }
    } else {
      MaskTurn(line, p, comment);
      if comment {
        CommentStretch(line, open, p);
        var stop := CommentStop(line, p);
        if Find(line, "-->", p).None? {
          MaskPast(line, stop, true);
          InFrontOfNothing(Blanks(line[p..stop]), true);
        } else {
          MaskHides(line, open, stop, false);
          HidesJoin(line, open, p, Blanks(line[p..stop]), Mask(line, stop, false).0);
        }
      } else if line[p] == '\\' {
        AfterEscape(line, open, p);
        PlainStretch(line, open, p, Upto(line, p + 2));
        MaskHides(line, open, p + 2, false);
        EscapeStretch(line, open, p);
      } else if CodeEnd(line, p).Some? {
        AfterCode(line, open, p);
        var end := CodeEnd(line, p).value;
        PlainStretch(line, open, p, end);
        MaskHides(line, open, end, false);
        HidesJoin(line, open, p, line[p..end], Mask(line, end, false).0);
      } else if StartsAt(line, p, "<!--") {
        MaskHides(line, open, p, true);
      } else {
        LivePasses(line, open, p, p + 1);
        PlainStretch(line, open, p, p + 1);
        MaskHides(line, open, p + 1, false);
        HidesJoin(line, open, p, line[p..p + 1], Mask(line, p + 1, false).0);
      }
    }
  }

  lemma NothingHidden(line: string, open: bool)
    ensures Hides(line, open, |line|, "")
  {
  }

  lemma OpenAtEnd(line: string, open: bool)
    requires (|line| == 0 && open) || StartsAt(line, |line|, "<!--")
    ensures InComment(line, open, |line|)
  {
  }

  lemma EscapeStretch(line: string, open: bool, p: nat)
    requires p < |line| && Hides(line, open, p, line[p..Upto(line, p + 2)])
    requires p + 2 <= |line| ==> Hides(line, open, p + 2, Mask(line, p + 2, false).0)
    ensures Hides(line, open, p, line[p..Upto(line, p + 2)] + Mask(line, p + 2, false).0)
  {
    hide InComment, CodeEnd, Blank, Hides;
    if p + 2 <= |line| {
      HidesJoin(line, open, p, line[p..p + 2], Mask(line, p + 2, false).0);
    } else {
      assert line[p..Upto(line, p + 2)] + "" == line[p..Upto(line, p + 2)];
    }
  }

  /** In the visible line exactly what is inside a comment is blank, and the state behind it says if one is open. */
  lemma CommentsAreHidden(line: string, open: bool)
    ensures var (visible, still) := Mask(line, 0, open);
            && |visible| == |line| && (still <==> InComment(line, open, |line|))
            && forall k | 0 <= k < |line| ::
                 visible[k] == if InComment(line, open, k) && line[k] != '\r' && line[k] != '\n' then ' ' else line[k]
  {
    hide InComment, CodeEnd, Mask;
    LiveAtStart(line, open);
    MaskHides(line, open, 0, open);
  }

  lemma LiveAtStart(line: string, open: bool)
    ensures !open ==> Live(line, open, 0)
  {
  }

  /** What is already masked, in front of what is still to be scanned. */
  function Behind(done: string, rest: (string, bool)): (string, bool) {
    (done + rest.0, rest.1)
  }

  lemma BehindTwice(a: string, b: string, rest: (string, bool))
    ensures Behind(a, Behind(b, rest)) == Behind(a + b, rest)
  {
    assert a + (b + rest.0) == (a + b) + rest.0;
  }

  lemma BehindNothing(rest: (string, bool))
    ensures Behind("", rest) == rest
  {
    assert "" + rest.0 == rest.0;
  }

  lemma InFrontOfNothing(done: string, comment: bool)
    ensures Behind(done, ("", comment)) == (done, comment)
  {
    assert done + "" == done;
  }

  function Upto(line: string, p: nat): nat {
    if p <= |line| then p else |line|
  }

  lemma MaskPast(line: string, p: nat, comment: bool)
    requires p >= |line|
    ensures Mask(line, p, comment) == ("", comment)
  {
  }

  /** One turn of the comment scanner. */
  lemma MaskTurn(line: string, p: nat, comment: bool)
    requires p < |line|
    ensures comment ==>
              Mask(line, p, true) == Behind(Blanks(line[p..CommentStop(line, p)]),
                                            Mask(line, CommentStop(line, p), Find(line, "-->", p).None?))
    ensures !comment && line[p] == '\\' ==>
              Mask(line, p, false) == Behind(line[p..Upto(line, p + 2)], Mask(line, p + 2, false))
    ensures !comment && line[p] != '\\' && CodeEnd(line, p).Some? ==>
              && p < CodeEnd(line, p).value <= |line|
              && Mask(line, p, false) == Behind(line[p..CodeEnd(line, p).value], Mask(line, CodeEnd(line, p).value, false))
    ensures !comment && line[p] != '\\' && CodeEnd(line, p).None? && StartsAt(line, p, "<!--") ==>
              Mask(line, p, false) == Mask(line, p, true)
    ensures !comment && line[p] != '\\' && CodeEnd(line, p).None? && !StartsAt(line, p, "<!--") ==>
              Mask(line, p, false) == Behind(line[p..p + 1], Mask(line, p + 1, false))
  {
    SpansAdvance(line);
    hide CodeEnd, CommentStop, Find, Blanks;
    assert line[p..p + 1] == [line[p]] && line[p..|line|] == line[p..] && line[p..] + "" == line[p..];
  }

  /** The characters of the line are blanked where they stand. */
  method CommentLine(line: string, comment: bool) returns (visible: string, still: bool)
    ensures (visible, still) == Mask(line, 0, comment)
  {
    hide CodeEnd, CommentStop, Mask, Find, StartsAt, Behind, Blanks, Blank;
    var chars := new char[|line|](k requires 0 <= k < |line| => line[k]);
    var codeEnds := CodeSpanEnds(line);
    var position := 0;
    still := comment;
    ghost var done := "";
    BehindNothing(Mask(line, 0, comment));
    while position < |line|
      invariant chars[..] == done + line[Upto(line, position)..] && |done| == Upto(line, position)
      invariant Mask(line, 0, comment) == Behind(done, Mask(line, position, still))
      decreases |line| - position, if still then 0 else 1
    {
      ghost var from, was := position, chars[..];
      MaskTurn(line, position, still);
      if still {
        var end := Find(line, "-->", position);
        var stop := CommentStop(line, position);
        forall k | position <= k < stop {
          chars[k] := Blank(line[k]);
        }
        position := stop;
        still := end.None?;
        BlankedOut(line, done, from, stop, was, chars[..]);
        BehindTwice(done, Blanks(line[from..stop]), Mask(line, position, still));
        done := done + Blanks(line[from..stop]);
      } else if line[position] == '\\' {
        position := position + 2;
        BehindTwice(done, line[from..Upto(line, position)], Mask(line, position, still));
        Untouched(line, done, from, Upto(line, position));
        done := done + line[from..Upto(line, position)];
      } else if position in codeEnds {
        position := codeEnds[position];
        BehindTwice(done, line[from..position], Mask(line, position, still));
        Untouched(line, done, from, position);
        done := done + line[from..position];
      } else if StartsAt(line, position, "<!--") {
        still := true;
      } else {
        position := position + 1;
        BehindTwice(done, line[from..position], Mask(line, position, still));
        Untouched(line, done, from, position);
        done := done + line[from..position];
      }
    }
    MaskPast(line, position, still);
    visible := chars[..];
    assert line[Upto(line, position)..] == "" && visible == done;
    InFrontOfNothing(visible, still);
  }

  lemma Untouched(line: string, done: string, from: nat, to: nat)
    requires from <= to <= |line|
    ensures done + line[from..] == (done + line[from..to]) + line[to..]
  {
  }

  lemma BlankedOut(line: string, done: string, from: nat, stop: nat, was: string, chars: string)
    requires from <= stop <= |line| && |done| == from && was == done + line[from..] && |chars| == |was|
    requires forall k | 0 <= k < |chars| :: chars[k] == if from <= k < stop then Blank(line[k]) else was[k]
    ensures chars == (done + Blanks(line[from..stop])) + line[stop..]
  {
  }

  // ---- Lines and fences ----------------------------------------------------------------------------

  function LeadingCount(s: string, c: char): (n: nat)
    ensures n <= |s| && (forall k | 0 <= k < n :: s[k] == c) && (n < |s| ==> s[n] != c)
  {
    if s == "" || s[0] != c then 0 else 1 + LeadingCount(s[1..], c)
  }

  datatype Fence = Fence(marker: char, length: nat, info: string)

  /** A fence with at most three leading spaces. */
  function FenceOf(line: string): (f: Option<Fence>)
    ensures f.Some? ==> f.value.length >= 3 && f.value.marker in "`~"
  {
    var indent := LeadingCount(line, ' ');
    if indent > 3 || indent == |line| || line[indent] !in "`~" then None
    else
      var content := line[indent..];
      var length := LeadingCount(content, content[0]);
      if length < 3 then None else Some(Fence(content[0], length, content[length..]))
  }

  predicate IsBlankText(s: string) {
    forall k | 0 <= k < |s| :: s[k] in " \t\r\n"
  }

  predicate Closes(candidate: Option<Fence>, fence: Fence) {
    && candidate.Some? && candidate.value.marker == fence.marker
    && candidate.value.length >= fence.length && IsBlankText(candidate.value.info)
  }

  predicate Opens(candidate: Option<Fence>) {
    candidate.Some? && (candidate.value.marker == '~' || TICK !in candidate.value.info)
  }

  function Repeated(c: char, n: nat): string {
    seq(n, _ => c)
  }

  /** A line that is a fence: at most three spaces, three or more of one marker, and the rest. */
  ghost predicate IsFence(line: string, fence: Fence) {
    && (fence.marker == '`' || fence.marker == '~') && fence.length >= 3
    && (fence.info == "" || fence.info[0] != fence.marker)
    && exists indent | 0 <= indent <= 3 ::
         line == Repeated(' ', indent) + (Repeated(fence.marker, fence.length) + fence.info)
  }

  lemma CountRepeated(c: char, n: nat, rest: string)
    requires rest == "" || rest[0] != c
    ensures LeadingCount(Repeated(c, n) + rest, c) == n
    ensures (Repeated(c, n) + rest)[n..] == rest
  {
    hide LeadingCount;
    var s := Repeated(c, n) + rest;
    assert forall k | 0 <= k < n :: s[k] == c;
    assert n < |s| ==> s[n] == rest[0];
  }

  lemma CountSplits(s: string, c: char)
    ensures var n := LeadingCount(s, c); s == Repeated(c, n) + s[n..] && (s[n..] == "" || s[n..][0] != c)
  {
    hide LeadingCount;
  }

  lemma FenceIs(line: string, fence: Fence)
    ensures FenceOf(line) == Some(fence) <==> IsFence(line, fence)
  {
    hide LeadingCount;
    if FenceOf(line) == Some(fence) {
      CountSplits(line, ' ');
      CountSplits(line[LeadingCount(line, ' ')..], fence.marker);
    }
    forall indent | 0 <= indent <= 3 && IsFence(line, fence)
                    && line == Repeated(' ', indent) + (Repeated(fence.marker, fence.length) + fence.info)
      ensures FenceOf(line) == Some(fence)
    {
      var content := Repeated(fence.marker, fence.length) + fence.info;
      assert content[0] == fence.marker;
      CountRepeated(' ', indent, content);
      CountRepeated(fence.marker, fence.length, fence.info);
    }
  }

  /** A fence that opens code: behind backticks no backtick follows. */
  ghost predicate IsOpening(line: string, fence: Fence) {
    IsFence(line, fence) && (fence.marker == '`' ==> forall k | 0 <= k < |fence.info| :: fence.info[k] != '`')
  }

  /** A fence that closes it: as long or longer, of the same marker, with nothing but white space behind. */
  ghost predicate IsClosing(line: string, fence: Fence) {
    exists f :: && IsFence(line, f) && f.marker == fence.marker && f.length >= fence.length
                && forall k | 0 <= k < |f.info| :: f.info[k] in {' ', '\t', '\r', '\n'}
  }

  lemma OpeningMeans(line: string, fence: Fence)
    ensures FenceOf(line) == Some(fence) && Opens(Some(fence)) <==> IsOpening(line, fence)
  {
    hide FenceOf, IsFence;
    FenceIs(line, fence);
    assert fence.marker == '~' || fence.marker == '`' || (FenceOf(line) != Some(fence) && !IsFence(line, fence)) by {
      MarkerIs(line, fence);
    }
  }

  lemma MarkerIs(line: string, fence: Fence)
    ensures IsFence(line, fence) || FenceOf(line) == Some(fence) ==> fence.marker == '~' || fence.marker == '`'
  {
    FenceIs(line, fence);
    hide FenceOf;
  }

  lemma BlankMeans(s: string)
    ensures IsBlankText(s) <==> forall k | 0 <= k < |s| :: s[k] in {' ', '\t', '\r', '\n'}
  {
    assert forall c: char :: c in " \t\r\n" <==> c in {' ', '\t', '\r', '\n'};
  }

  lemma ClosingMeans(line: string, fence: Fence)
    ensures Closes(FenceOf(line), fence) <==> IsClosing(line, fence)
  {
    hide FenceOf, IsFence, IsBlankText;
    if FenceOf(line).Some? {
      FenceIs(line, FenceOf(line).value);
      BlankMeans(FenceOf(line).value.info);
    }
    forall f | IsFence(line, f) ensures FenceOf(line) == Some(f) { FenceIs(line, f); }
  }

  predicate IsIndentedCode(line: string) {
    StartsAt(line, 0, "    ") || StartsAt(line, 0, "\t")
  }

  datatype State = State(fence: Option<Fence>, comment: bool)

  /** A line with its comments blanked, whether it may be a heading, and whether it is guidance. */
  datatype Scanned = Scanned(visible: string, mayBeHeading: bool, guidance: bool)

  function ScanLine(state: State, line: string): (State, Scanned) {
    var candidate := FenceOf(line);
    if state.fence.Some? then
      var closes := Closes(candidate, state.fence.value);
      (if closes then State(None, state.comment) else state, Scanned(line, false, !closes))
    else if !state.comment && Opens(candidate) then (State(candidate, state.comment), Scanned(line, false, false))
    else if !state.comment && IsIndentedCode(line) then (state, Scanned(line, false, true))
    else
      var (visible, comment) := Mask(line, 0, state.comment);
      (State(None, comment), Scanned(visible, true, true))
  }

  /** Four spaces or a tab at the start of a line. */
  ghost predicate IsIndented(line: string) {
    || (|line| >= 4 && line[0] == ' ' && line[1] == ' ' && line[2] == ' ' && line[3] == ' ')
    || (|line| >= 1 && line[0] == '\t')
  }

  lemma IndentedMeans(line: string)
    ensures IsIndentedCode(line) <==> IsIndented(line)
  {
    if |line| >= 4 { assert line[0..4] == [line[0], line[1], line[2], line[3]]; }
    if |line| >= 1 { assert line[0..1] == [line[0]]; }
  }

  /**
   * What becomes of one line. In a fence it is shown as it is until a fence closes it; a fence that opens
   * outside of comments is shown and carried on; indented code outside of comments is shown as it is; in any
   * other line comments are blanked, and it alone may be a heading.
   */
  lemma LineMeans(state: State, line: string)
    ensures var (next, scanned) := ScanLine(state, line);
            if state.fence.Some? then
              && next.comment == state.comment
              && next.fence == (if IsClosing(line, state.fence.value) then None else state.fence)
              && scanned == Scanned(line, false, !IsClosing(line, state.fence.value))
            else if !state.comment && (exists fence :: IsOpening(line, fence)) then
              && !next.comment && next.fence.Some? && IsOpening(line, next.fence.value)
              && scanned == Scanned(line, false, false)
            else if !state.comment && IsIndented(line) then
              next == state && scanned == Scanned(line, false, true)
            else
              && next == State(None, Mask(line, 0, state.comment).1)
              && scanned == Scanned(Mask(line, 0, state.comment).0, true, true)
  {
    hide FenceOf, Closes, Opens, IsOpening, IsClosing, IsIndentedCode, IsIndented, Mask;
    IndentedMeans(line);
    if state.fence.Some? {
      ClosingMeans(line, state.fence.value);
    } else {
      OpensAFence(line);
      if FenceOf(line).Some? { OpeningMeans(line, FenceOf(line).value); }
      OpenerIsSome(FenceOf(line));
    }
  }

  lemma OpenerIsSome(candidate: Option<Fence>)
    ensures Opens(candidate) ==> candidate.Some?
  {
  }

  lemma OpensAFence(line: string)
    ensures Opens(FenceOf(line)) <==> exists fence :: IsOpening(line, fence)
  {
    hide FenceOf, Opens, IsOpening;
    forall fence ensures FenceOf(line) == Some(fence) && Opens(Some(fence)) <==> IsOpening(line, fence) {
      OpeningMeans(line, fence);
    }
    OpenerIsSome(FenceOf(line));
  }

  function Scan(state: State, lines: seq<string>): (scanned: seq<Scanned>)
    ensures |scanned| == |lines|
    decreases |lines|
  {
    if lines == [] then []
    else
      var (next, first) := ScanLine(state, lines[0]);
      [first] + Scan(next, lines[1..])
  }

  const START := State(None, false)

  function ReleaseLines(text: string): seq<Scanned> {
    Scan(START, Lines(text))
  }

  /** Fence and comment state in front of a line. */
  function StateFrom(state: State, lines: seq<string>, i: nat): State
    requires i <= |lines|
  {
    if i == 0 then state else ScanLine(StateFrom(state, lines, i - 1), lines[i - 1]).0
  }

  lemma {:induction false} StateFromNext(state: State, lines: seq<string>, i: nat)
    requires lines != [] && i < |lines|
    ensures StateFrom(state, lines, i + 1) == StateFrom(ScanLine(state, lines[0]).0, lines[1..], i)
  {
    hide ScanLine;
    if i > 0 {
      StateFromNext(state, lines, i - 1);
    }
  }

  lemma {:induction false} ScannedAt(state: State, lines: seq<string>, i: nat)
    requires i < |lines|
    ensures Scan(state, lines)[i] == ScanLine(StateFrom(state, lines, i), lines[i]).1
    decreases i
  {
    hide ScanLine;
    if i > 0 {
      StateFromNext(state, lines, i - 1);
      ScannedAt(ScanLine(state, lines[0]).0, lines[1..], i - 1);
    }
  }

  ghost predicate OpensAt(lines: seq<string>, j: nat, fence: Fence) {
    j < |lines| && StateFrom(START, lines, j) == START && IsOpening(lines[j], fence)
  }

  ghost predicate ClosesAt(lines: seq<string>, k: nat, fence: Fence) {
    k < |lines| && IsClosing(lines[k], fence)
  }

  /** An earlier line outside of fences and comments opened the fence, and no line since has closed it. */
  ghost predicate InFence(lines: seq<string>, i: nat, fence: Fence) {
    exists j :: 0 <= j < i && OpensAt(lines, j, fence) && forall k | j < k < i :: !ClosesAt(lines, k, fence)
  }

  lemma {:induction false} FenceMeans(lines: seq<string>, i: nat, fence: Fence)
    requires i <= |lines|
    ensures StateFrom(START, lines, i).fence == Some(fence) <==> InFence(lines, i, fence)
  {
    hide Mask, FenceOf, Closes, Opens, IsOpening, IsClosing;
    if i > 0 {
      FenceMeans(lines, i - 1, fence);
      OpeningMeans(lines[i - 1], fence);
      ClosingMeans(lines[i - 1], fence);
      var before, line := StateFrom(START, lines, i - 1), lines[i - 1];
      if InFence(lines, i - 1, fence) && !ClosesAt(lines, i - 1, fence) {
        var j :| 0 <= j < i - 1 && OpensAt(lines, j, fence) && forall k | j < k < i - 1 :: !ClosesAt(lines, k, fence);
        assert InFence(lines, i, fence);
      }
      if OpensAt(lines, i - 1, fence) {
        assert InFence(lines, i, fence);
      }
      if InFence(lines, i, fence) {
        var j :| 0 <= j < i && OpensAt(lines, j, fence) && forall k | j < k < i :: !ClosesAt(lines, k, fence);
        if j < i - 1 {
          assert InFence(lines, i - 1, fence) && !ClosesAt(lines, i - 1, fence);
        }
      }
    }
  }

  function Visible(scanned: seq<Scanned>): string {
    if scanned == [] then "" else scanned[0].visible + Visible(scanned[1..])
  }

  /** The generator, collected: line by line, with the fence and comment state carried along. */
  method ScanLines(text: string) returns (scanned: seq<Scanned>)
    ensures scanned == ReleaseLines(text)
  {
    hide Mask, FenceOf, Lines;
    var lines := Lines(text);
    var fence: Option<Fence>, comment := None, false;
    scanned := [];
    assert lines[0..] == lines;
    for i := 0 to |lines|
      invariant scanned + Scan(State(fence, comment), lines[i..]) == Scan(START, lines)
    {
      var line := lines[i];
      assert lines[i..][0] == line && lines[i..][1..] == lines[i + 1..];
      ghost var before := scanned;
      ghost var step := ScanLine(State(fence, comment), line);
      ghost var state := State(fence, comment);
      var candidate := FenceOf(line);
      if fence.Some? {
        var closes := Closes(candidate, fence.value);
        scanned := scanned + [Scanned(line, false, !closes)];
        if closes {
          fence := None;
        }
      } else if !comment && Opens(candidate) {
        fence := candidate;
        scanned := scanned + [Scanned(line, false, false)];
      } else if !comment && IsIndentedCode(line) {
        scanned := scanned + [Scanned(line, false, true)];
      } else {
        var visible;
        visible, comment := CommentLine(line, comment);
        scanned := scanned + [Scanned(visible, true, true)];
      }
      ScanFrom(before, state, lines[i..], step);
    }
  }

  lemma ScanFrom(done: seq<Scanned>, state: State, lines: seq<string>, step: (State, Scanned))
    requires lines != [] && step == ScanLine(state, lines[0])
    ensures done + Scan(state, lines) == (done + [step.1]) + Scan(step.0, lines[1..])
  {
  }

  /** The masked line keeps the layout of the original one. */
  lemma ScanLineKeepsLayout(state: State, line: string)
    ensures MasksOnly(line, ScanLine(state, line).1.visible)
  {
    hide Mask;
    MaskKeepsLayout(line, 0, state.comment);
    assert line[0..] == line;
  }

  lemma MasksTogether(a: string, seenA: string, b: string, seenB: string)
    requires MasksOnly(a, seenA) && MasksOnly(b, seenB)
    ensures MasksOnly(a + b, seenA + seenB)
  {
    hide Blank;
  }

  lemma {:induction false} ScanKeepsLayout(state: State, lines: seq<string>)
    ensures MasksOnly(Join(lines), Visible(Scan(state, lines)))
    ensures forall i | 0 <= i < |lines| :: MasksOnly(lines[i], Scan(state, lines)[i].visible)
    decreases |lines|
  {
    hide ScanLine, MasksOnly;
    if lines == [] {
      MasksNothing();
    } else {
      var (next, first) := ScanLine(state, lines[0]);
      ScanLineKeepsLayout(state, lines[0]);
      ScanKeepsLayout(next, lines[1..]);
      MasksTogether(lines[0], first.visible, Join(lines[1..]), Visible(Scan(next, lines[1..])));
    }
  }

  lemma MasksNothing()
    ensures MasksOnly("", "")
  {
  }

  /** Masking shifts nothing: the visible text has every line break where the original has it. */
  lemma VisibleKeepsLayout(text: string)
    ensures MasksOnly(text, Visible(ReleaseLines(text)))
  {
    LinesJoin(text);
    ScanKeepsLayout(START, Lines(text));
  }

  // ---- Headings ------------------------------------------------------------------------------------

  datatype Heading = Heading(level: nat, title: string, start: nat, end: nat)

  function DropFirst(s: string, chars: string): string {
    if s != "" && s[0] in chars then DropFirst(s[1..], chars) else s
  }

  function DropLast(s: string, chars: string): (r: string)
    ensures |r| <= |s| && r == s[..|r|] && forall k | |r| <= k < |s| :: s[k] in chars
    ensures r != "" ==> r[|r| - 1] !in chars
  {
    if s != "" && s[|s| - 1] in chars then DropLast(s[..|s| - 1], chars) else s
  }

  /** The title without an optional closing sequence of hashes that white space sets apart. */
  function HeadingTitle(content: string): string {
    var title := DropLast(DropFirst(content, " \t\r\n"), " \t\r\n");
    var beforeHashes := DropLast(title, "#");
    if beforeHashes == "" || beforeHashes[|beforeHashes| - 1] in " \t" then DropLast(beforeHashes, " \t") else title
  }

  predicate Only(s: string, chars: string) {
    forall k | 0 <= k < |s| :: s[k] in chars
  }

  lemma {:induction false} DropLastExactly(s: string, tail: string, chars: string)
    requires Only(tail, chars) && (s != "" ==> s[|s| - 1] !in chars)
    ensures DropLast(s + tail, chars) == s
  {
    if tail == "" {
      assert s + tail == s;
    } else {
      var front := tail[..|tail| - 1];
      assert (s + tail)[..|s + tail| - 1] == s + front;
      DropLastExactly(s, front, chars);
    }
  }

  lemma {:induction false} DropFirstExactly(head: string, s: string, chars: string)
    requires Only(head, chars) && (s != "" ==> s[0] !in chars)
    ensures DropFirst(head + s, chars) == s
  {
    if head == "" {
      assert head + s == s;
    } else {
      assert (head + s)[1..] == head[1..] + s;
      DropFirstExactly(head[1..], s, chars);
    }
  }

  /**
   * A closing sequence of hashes is dropped exactly when white space sets it apart from the title; hashes
   * that touch the title belong to it, and white space around a title never does.
   */
  lemma ClosingHashes(left: string, title: string, gap: string, hashes: string, right: string)
    requires Only(left, " \t\r\n") && Only(right, " \t\r\n") && Only(gap, " \t") && Only(hashes, "#")
    requires title != "" && title[0] !in " \t\r\n" && title[|title| - 1] !in " \t\r\n"
    requires title[|title| - 1] != '#' || (gap != "" && hashes != "")
    ensures HeadingTitle(left + ((title + gap + hashes) + right)) == if gap == "" then title + hashes else title
  {
    hide DropFirst, DropLast;
    var inner := title + gap + hashes;
    assert inner[0] == title[0];
    DropFirstExactly(left, inner + right, " \t\r\n");
    assert (inner + right)[0] == inner[0];
    if hashes == "" {
      assert inner + right == title + (gap + right);
      DropLastExactly(title, gap + right, " \t\r\n");
      DropLastExactly(title, "", "#");
      assert title + "" == title && title + hashes == title;
    } else {
      assert inner[|inner| - 1] == hashes[|hashes| - 1];
      DropLastExactly(inner, right, " \t\r\n");
      if gap == "" {
        assert inner == title + hashes;
        DropLastExactly(title, hashes, "#");
      } else {
        assert (title + gap)[|title + gap| - 1] == gap[|gap| - 1];
        DropLastExactly(title + gap, hashes, "#");
        DropLastExactly(title, gap, " \t");
      }
    }
  }

  /** Hashes alone, or nothing, are no title. */
  lemma NoTitle(left: string, hashes: string, right: string)
    requires Only(left, " \t\r\n") && Only(right, " \t\r\n") && Only(hashes, "#") && (hashes == "" ==> left == "")
    ensures HeadingTitle(left + (hashes + right)) == ""
  {
    hide DropFirst, DropLast;
    if hashes == "" {
      assert left + (hashes + right) == right + "" && "" + "" == "";
      DropFirstExactly(right, "", " \t\r\n");
      DropLastExactly("", "", " \t\r\n");
      DropLastExactly("", "", "#");
      DropLastExactly("", "", " \t");
    } else {
      assert (hashes + right)[0] == hashes[0];
      DropFirstExactly(left, hashes + right, " \t\r\n");
      DropLastExactly(hashes, right, " \t\r\n");
      assert "" + hashes == hashes && "" + "" == "";
      DropLastExactly("", hashes, "#");
      DropLastExactly("", "", " \t");
    }
  }

  /** Level and title of a visible line that is an ATX heading. */
  function HeadingIn(s: Scanned): (h: Option<(nat, string)>)
    ensures h.Some? ==> 1 <= h.value.0 <= 6 && s.visible != ""
  {
    var indent := LeadingCount(s.visible, ' ');
    var heading := if indent <= 3 then s.visible[indent..] else s.visible;
    var level := LeadingCount(heading, '#');
    if s.mayBeHeading && 1 <= level <= 6 && (level == |heading| || heading[level] in " \t\r\n")
    then Some((level, HeadingTitle(heading[level..]))) else None
  }

  function HeadingAt(s: Scanned, offset: nat): seq<Heading> {
    var h := HeadingIn(s);
    if h.Some? then [Heading(h.value.0, h.value.1, offset, offset + |s.visible|)] else []
  }

  function HeadingsFrom(scanned: seq<Scanned>, offset: nat): seq<Heading> {
    if scanned == [] then []
    else HeadingAt(scanned[0], offset) + HeadingsFrom(scanned[1..], offset + |scanned[0].visible|)
  }

  function Headings(text: string): seq<Heading> {
    HeadingsFrom(ReleaseLines(text), 0)
  }

  lemma HeadingTurn(scanned: seq<Scanned>, i: nat, offset: nat, found: seq<Heading>)
    requires i < |scanned|
    ensures var h := HeadingIn(scanned[i]);
            var next := offset + |scanned[i].visible|;
            found + HeadingsFrom(scanned[i..], offset) ==
              (if h.Some? then found + [Heading(h.value.0, h.value.1, offset, next)] else found)
              + HeadingsFrom(scanned[i + 1..], next)
  {
    hide HeadingIn;
    var rest := HeadingsFrom(scanned[i + 1..], offset + |scanned[i].visible|);
    assert scanned[i..][1..] == scanned[i + 1..];
    assert found + (HeadingAt(scanned[i], offset) + rest) == (found + HeadingAt(scanned[i], offset)) + rest;
    assert found + [] == found;
  }

  method ReleaseHeadings(text: string) returns (headings: seq<Heading>)
    ensures headings == Headings(text)
  {
    hide ReleaseLines, HeadingIn;
    var scanned := ScanLines(text);
    headings := [];
    var offset: nat := 0;
    assert scanned[0..] == scanned && [] + HeadingsFrom(scanned, 0) == HeadingsFrom(scanned, 0);
    for i := 0 to |scanned|
      invariant headings + HeadingsFrom(scanned[i..], offset) == HeadingsFrom(scanned, 0)
    {
      HeadingTurn(scanned, i, offset, headings);
      var h := HeadingIn(scanned[i]);
      if h.Some? {
        headings := headings + [Heading(h.value.0, h.value.1, offset, offset + |scanned[i].visible|)];
      }
      offset := offset + |scanned[i].visible|;
    }
  }

  /** Slices of a stretch of text, one behind the other. */
  predicate Ordered(headings: seq<Heading>, from: nat, to: nat) {
    if headings == [] then from <= to
    else from <= headings[0].start < headings[0].end <= to && Ordered(headings[1..], headings[0].end, to)
  }

  lemma OneMoreHeading(h: seq<Heading>, rest: seq<Heading>, from: nat, mid: nat, to: nat)
    requires |h| <= 1 && from <= mid && (h != [] ==> h[0].start == from < h[0].end == mid)
    requires Ordered(rest, mid, to)
    ensures Ordered(h + rest, from, to)
  {
    if h == [] {
      assert h + rest == rest;
      OrderedEarlier(rest, from, mid, to);
    } else {
      OrderedEnds(rest, mid, to);
      assert (h + rest)[1..] == rest;
    }
  }

  lemma {:induction false} OrderedEnds(headings: seq<Heading>, from: nat, to: nat)
    requires Ordered(headings, from, to)
    ensures from <= to
  {
  }

  lemma {:induction false} HeadingsOrdered(scanned: seq<Scanned>, offset: nat)
    ensures Ordered(HeadingsFrom(scanned, offset), offset, offset + |Visible(scanned)|)
  {
    hide HeadingIn, Ordered;
    if scanned == [] {
      OrderedNone(offset);
    } else {
      var next := offset + |scanned[0].visible|;
      HeadingsOrdered(scanned[1..], next);
      OneMoreHeading(HeadingAt(scanned[0], offset), HeadingsFrom(scanned[1..], next), offset, next,
                     offset + |Visible(scanned)|);
    }
  }

  lemma OrderedNone(offset: nat)
    ensures Ordered([], offset, offset)
  {
  }

  lemma OrderedEarlier(headings: seq<Heading>, earlier: nat, from: nat, to: nat)
    requires Ordered(headings, from, to) && earlier <= from
    ensures Ordered(headings, earlier, to)
  {
  }

  /** A heading is one whole line of the original text. */
  lemma {:induction false} HeadingIsLine(text: string, state: State, lines: seq<string>, offset: nat, i: nat)
    requires offset + |Join(lines)| == |text| && text[offset..] == Join(lines) && forall l | l in lines :: IsLine(l)
    requires i < |HeadingsFrom(Scan(state, lines), offset)|
    ensures var h := HeadingsFrom(Scan(state, lines), offset)[i];
            offset <= h.start < h.end <= |text| && text[h.start..h.end] in lines
    decreases |lines|
  {
    hide ScanLine, HeadingIn;
    if lines != [] {
      var (next, first) := ScanLine(state, lines[0]);
      ScanLineKeepsLayout(state, lines[0]);
      var n := |HeadingAt(first, offset)|;
      assert text[offset + |lines[0]|..] == Join(lines[1..]) by {
        assert text[offset..][|lines[0]|..] == text[offset + |lines[0]|..];
      }
      if i < n {
        assert text[offset..][..|lines[0]|] == text[offset..offset + |lines[0]|];
      } else {
        HeadingIsLine(text, next, lines[1..], offset + |lines[0]|, i - n);
      }
    }
  }

  /** What is seen at an offset: the character, or a blank inside a comment. */
  ghost function Seen(line: string, open: bool, k: nat): char
    requires k < |line|
  {
    if InComment(line, open, k) && line[k] != '\r' && line[k] != '\n' then ' ' else line[k]
  }

  ghost function SeenFrom(line: string, open: bool, from: nat): string
    requires from <= |line|
  {
    seq(|line| - from, k requires 0 <= k < |line| - from => Seen(line, open, from + k))
  }

  /**
   * An ATX heading at an offset: at most three spaces in, one to six hashes, a space or the end behind them,
   * and the rest of the line as title.
   */
  ghost predicate HeadsAt(line: string, open: bool, at: nat, level: nat, title: string) {
    && at <= 3 && 1 <= level <= 6 && at + level <= |line|
    && (forall k | 0 <= k < at :: Seen(line, open, k) == ' ')
    && (forall k | at <= k < at + level :: line[k] == '#' && !InComment(line, open, k))
    && (at + level < |line| ==> Seen(line, open, at + level) in " \t\r\n")
    && title == HeadingTitle(SeenFrom(line, open, at + level))
  }

  /** A line that is a heading: not inside a fence, opening none, with what is seen of it of that form. */
  ghost predicate IsHeadingLine(lines: seq<string>, h: Heading, i: nat) {
    && i < |lines| && h.start == |Join(lines[..i])| && h.end == h.start + |lines[i]|
    && (forall fence :: !InFence(lines, i, fence))
    && ((exists fence :: IsOpening(lines[i], fence)) ==> StateFrom(START, lines, i).comment)
    && exists at: nat :: HeadsAt(lines[i], StateFrom(START, lines, i).comment, at, h.level, h.title)
  }

  lemma {:induction false} HeadingOfLine(scanned: seq<Scanned>, offset: nat, h: Heading) returns (i: nat)
    requires h in HeadingsFrom(scanned, offset)
    ensures i < |scanned| && HeadingIn(scanned[i]) == Some((h.level, h.title))
    ensures h.start == offset + |Visible(scanned[..i])| && h.end == h.start + |scanned[i].visible|
  {
    hide HeadingIn;
    if h in HeadingAt(scanned[0], offset) {
      i := 0;
    } else {
      var n := HeadingOfLine(scanned[1..], offset + |scanned[0].visible|, h);
      i := n + 1;
      assert scanned[..i][0] == scanned[0] && scanned[..i][1..] == scanned[1..][..n];
    }
  }

  lemma {:induction false} SameLength(scanned: seq<Scanned>, lines: seq<string>, i: nat)
    requires |scanned| == |lines| && i <= |lines| && forall k | 0 <= k < |lines| :: |scanned[k].visible| == |lines[k]|
    ensures |Visible(scanned[..i])| == |Join(lines[..i])|
    decreases |lines|
  {
    if i > 0 {
      SameLength(scanned[1..], lines[1..], i - 1);
      assert scanned[..i][1..] == scanned[1..][..i - 1] && lines[..i][1..] == lines[1..][..i - 1];
    }
  }

  lemma HeadingsFirst(scanned: seq<Scanned>, offset: nat)
    requires scanned != []
    ensures HeadingsFrom(scanned, offset)
         == HeadingAt(scanned[0], offset) + HeadingsFrom(scanned[1..], offset + |scanned[0].visible|)
  {
  }

  lemma VisiblePrefix(scanned: seq<Scanned>, i: nat)
    requires 0 < i <= |scanned|
    ensures |Visible(scanned[..i])| == |scanned[0].visible| + |Visible(scanned[1..][..i - 1])|
  {
    assert scanned[..i][0] == scanned[0] && scanned[..i][1..] == scanned[1..][..i - 1];
  }

  lemma FirstIsListed(scanned: seq<Scanned>, offset: nat, h: Heading)
    requires scanned != [] && HeadingIn(scanned[0]) == Some((h.level, h.title))
    requires h.start == offset && h.end == offset + |scanned[0].visible|
    ensures h in HeadingsFrom(scanned, offset)
  {
    HeadingsFirst(scanned, offset);
    hide HeadingIn, HeadingsFrom;
    assert HeadingAt(scanned[0], offset)[0] == h;
  }

  lemma InBack<T>(front: seq<T>, back: seq<T>)
    ensures forall x | x in back :: x in front + back
  {
  }

  lemma {:induction false} LineIsListed(scanned: seq<Scanned>, offset: nat, i: nat, h: Heading)
    requires i < |scanned| && HeadingIn(scanned[i]) == Some((h.level, h.title))
    requires h.start == offset + |Visible(scanned[..i])| && h.end == h.start + |scanned[i].visible|
    ensures h in HeadingsFrom(scanned, offset)
  {
    hide HeadingIn, HeadingsFrom, HeadingAt;
    if i == 0 {
      assert scanned[..0] == [];
      FirstIsListed(scanned, offset, h);
    } else {
      hide Visible;
      HeadingsFirst(scanned, offset);
      VisiblePrefix(scanned, i);
      assert scanned[1..][i - 1] == scanned[i];
      LineIsListed(scanned[1..], offset + |scanned[0].visible|, i - 1, h);
      InBack(HeadingAt(scanned[0], offset), HeadingsFrom(scanned[1..], offset + |scanned[0].visible|));
    }
  }

  /** A heading's form, on the visible line. */
  predicate HasForm(visible: string, at: nat, level: nat, title: string) {
    && at <= 3 && 1 <= level <= 6 && at + level <= |visible|
    && (forall k | 0 <= k < at :: visible[k] == ' ') && (forall k | at <= k < at + level :: visible[k] == '#')
    && (at + level < |visible| ==> visible[at + level] in " \t\r\n")
    && title == HeadingTitle(visible[at + level..])
  }

  lemma LeadingIs(s: string, c: char, n: nat)
    requires n <= |s| && (forall k | 0 <= k < n :: s[k] == c) && (n < |s| ==> s[n] != c)
    ensures LeadingCount(s, c) == n
  {
  }

  lemma FormIsHeading(visible: string, guidance: bool, at: nat, level: nat, title: string)
    requires HasForm(visible, at, level, title)
    ensures HeadingIn(Scanned(visible, true, guidance)) == Some((level, title))
  {
    hide HeadingTitle;
    assert visible[at] == '#';
    LeadingIs(visible, ' ', at);
    var heading := visible[at..];
    assert forall k | 0 <= k < level :: heading[k] == visible[at + k];
    if at + level < |visible| { assert heading[level] == visible[at + level]; }
    LeadingIs(heading, '#', level);
    assert heading[level..] == visible[at + level..];
  }

  lemma HeadingParts(visible: string, guidance: bool, level: nat, title: string)
    requires HeadingIn(Scanned(visible, true, guidance)) == Some((level, title))
    ensures var at := LeadingCount(visible, ' ');
            && at <= 3 && level == LeadingCount(visible[at..], '#') && 1 <= level <= 6
            && (level == |visible[at..]| || visible[at..][level] in " \t\r\n")
            && title == HeadingTitle(visible[at..][level..])
  {
    hide HeadingTitle;
  }

  lemma HeadingHasForm(visible: string, guidance: bool, level: nat, title: string)
    requires HeadingIn(Scanned(visible, true, guidance)) == Some((level, title))
    ensures HasForm(visible, LeadingCount(visible, ' '), level, title)
  {
    hide HeadingTitle, HeadingIn, LeadingCount;
    HeadingParts(visible, guidance, level, title);
    var at := LeadingCount(visible, ' ');
    assert visible[at..][level..] == visible[at + level..];
    forall k | at <= k < at + level ensures visible[k] == '#' {
      assert visible[at..][k - at] == visible[k];
    }
  }

  /** The visible line has the form exactly when what is seen of the line has it. */
  lemma FormIsSeen(line: string, open: bool, visible: string, at: nat, level: nat, title: string)
    requires visible == Mask(line, 0, open).0
    ensures HasForm(visible, at, level, title) <==> HeadsAt(line, open, at, level, title)
  {
    CommentsAreHidden(line, open);
    hide InComment, Mask, HeadingTitle;
    assert forall k | 0 <= k < |line| :: visible[k] == Seen(line, open, k);
    if at + level <= |line| {
      assert visible[at + level..] == SeenFrom(line, open, at + level);
    }
    assert forall k | 0 <= k < |line| :: Seen(line, open, k) == '#' <==> line[k] == '#' && !InComment(line, open, k);
  }

  /** A comment starts only behind an angle bracket. */
  lemma NoCommentYet(line: string, k: nat)
    requires forall o | 0 <= o <= k && o < |line| :: line[o] != '<'
    ensures !InComment(line, false, k)
  {
    hide Live, Closed;
    forall o: nat | o <= k ensures !StartsAt(line, o, "<!--") { OpenerStart(line, o); }
  }

  lemma IndentIsSeen(line: string)
    requires IsIndentedCode(line)
    ensures (|line| >= 4 && forall k | 0 <= k < 4 :: line[k] == ' ')
         || (line != "" && line[0] == Seen(line, false, 0) == '\t')
  {
    hide InComment;
    if StartsAt(line, 0, "    ") {
      assert forall k | 0 <= k < 4 :: line[k] == line[0..4][k];
    } else {
      assert line[0] == line[0..1][0];
      NoCommentYet(line, 0);
    }
  }

  /** An indented line outside of comments has no heading. */
  lemma IndentedHeadsNothing(line: string, at: nat, level: nat, title: string)
    requires IsIndentedCode(line)
    ensures !HeadsAt(line, false, at, level, title)
  {
    hide InComment, HeadingTitle, IsIndentedCode, Seen;
    IndentIsSeen(line);
    assert at <= 3 && at < |line| ==> line[at] == ' ' || line[0] == '\t';
  }

  /** A line outside of fences is a heading exactly when it has the form. */
  lemma ScannedHeading(state: State, line: string, level: nat, title: string)
    ensures HeadingIn(ScanLine(state, line).1) == Some((level, title))
       <==> && state.fence.None? && (Opens(FenceOf(line)) ==> state.comment)
            && exists at: nat :: HeadsAt(line, state.comment, at, level, title)
  {
    hide Mask, FenceOf, Opens, HeadsAt, HasForm, HeadingTitle, IsIndentedCode;
    var s := ScanLine(state, line).1;
    OnlyScannedLines(state, line);
    if state.fence.None? && (Opens(FenceOf(line)) ==> state.comment) {
      hide HeadingIn;
      if !state.comment && IsIndentedCode(line) {
        forall at: nat ensures !HeadsAt(line, state.comment, at, level, title) {
          IndentedHeadsNothing(line, at, level, title);
        }
      } else {
        if HeadingIn(s) == Some((level, title)) {
          HeadingHasForm(s.visible, true, level, title);
          FormIsSeen(line, state.comment, s.visible, LeadingCount(s.visible, ' '), level, title);
        }
        forall at: nat | HeadsAt(line, state.comment, at, level, title) ensures HeadingIn(s) == Some((level, title)) {
          FormIsSeen(line, state.comment, s.visible, at, level, title);
          FormIsHeading(s.visible, true, at, level, title);
        }
      }
    }
  }

  lemma OnlyScannedLines(state: State, line: string)
    ensures var s := ScanLine(state, line).1;
            if state.fence.None? && (Opens(FenceOf(line)) ==> state.comment) && (IsIndentedCode(line) ==> state.comment)
            then s == Scanned(Mask(line, 0, state.comment).0, true, true)
            else HeadingIn(s).None?
  {
    hide Mask, FenceOf, Opens, IsIndentedCode;
  }

  lemma IsInside(lines: seq<string>, h: Heading, i: nat)
    requires IsHeadingLine(lines, h, i)
    ensures i < |lines|
  {
  }

  lemma LineHeads(lines: seq<string>, i: nat, h: Heading)
    requires i < |lines|
    ensures var scanned := Scan(START, lines);
            && |scanned[i].visible| == |lines[i]| && |Visible(scanned[..i])| == |Join(lines[..i])|
            && (IsHeadingLine(lines, h, i) <==>
                  HeadingIn(scanned[i]) == Some((h.level, h.title))
                  && h.start == |Join(lines[..i])| && h.end == h.start + |lines[i]|)
  {
    hide Mask, HeadingIn, FenceOf, InFence, HeadsAt, ScanLine, StateFrom, Opens, IsOpening;
    ScanKeepsLayout(START, lines);
    SameLength(Scan(START, lines), lines, i);
    ScannedAt(START, lines, i);
    var state := StateFrom(START, lines, i);
    ScannedHeading(state, lines[i], h.level, h.title);
    forall fence ensures state.fence == Some(fence) <==> InFence(lines, i, fence) { FenceMeans(lines, i, fence); }
    if state.fence.Some? { assert InFence(lines, i, state.fence.value); }
    OpensAFence(lines[i]);
  }

  lemma HeadingIsSeen(text: string, h: Heading) returns (i: nat)
    requires h in Headings(text)
    ensures IsHeadingLine(Lines(text), h, i)
  {
    hide HeadingIn, Lines, Scan, HeadingsFrom, IsHeadingLine, Join, Visible;
    i := HeadingOfLine(ReleaseLines(text), 0, h);
    LineHeads(Lines(text), i, h);
  }

  lemma SeenIsHeading(text: string, h: Heading, i: nat)
    requires IsHeadingLine(Lines(text), h, i)
    ensures h in Headings(text)
  {
    hide HeadingIn, Lines, Scan, HeadingsFrom, IsHeadingLine, InFence, StateFrom, FenceOf, Opens, HeadsAt, Join, Visible;
    IsInside(Lines(text), h, i);
    LineHeads(Lines(text), i, h);
    LineIsListed(ReleaseLines(text), 0, i, h);
  }

  /**
   * The headings are exactly the lines outside of fences that have the form of one where comments are
   * blanked: none comes from inside a fence or comment, and none is missed.
   */
  lemma HeadingsAreVisible(text: string, h: Heading)
    ensures h in Headings(text) <==> exists i: nat :: IsHeadingLine(Lines(text), h, i)
  {
    hide Headings, Lines, InFence, FenceOf, Opens, StateFrom, HeadsAt, Join;
    if h in Headings(text) {
      var i := HeadingIsSeen(text, h);
      assert IsHeadingLine(Lines(text), h, i);
    }
    forall i: nat | IsHeadingLine(Lines(text), h, i) ensures h in Headings(text) {
      SeenIsHeading(text, h, i);
    }
  }

  // ---- Sections ------------------------------------------------------------------------------------

  datatype Section = Section(title: string, start: nat, end: nat)

  /** The headings that can end a section of a level. */
  function Tops(headings: seq<Heading>, level: nat): (tops: seq<Heading>)
    ensures forall h :: h in tops <==> h in headings && h.level <= level
  {
    if headings == [] then []
    else (if headings[0].level <= level then [headings[0]] else []) + Tops(headings[1..], level)
  }

  function SectionsOf(tops: seq<Heading>, level: nat, total: nat): seq<Section> {
    if tops == [] then []
    else
      (if tops[0].level == level
       then [Section(tops[0].title, tops[0].end, if |tops| > 1 then tops[1].start else total)] else [])
      + SectionsOf(tops[1..], level, total)
  }

  function Sections(text: string, level: nat): seq<Section> {
    SectionsOf(Tops(Headings(text), level), level, |text|)
  }

  /** Python's text[start:end]. */
  function Slice(text: string, start: nat, end: nat): string {
    if start <= end <= |text| then text[start..end]
    else if start <= |text| < end then text[start..]
    else ""
  }

  /** The sections of a level: title, stripped body of the original text, body of the visible text. */
  method ReleaseSections(text: string, level: nat) returns (sections: seq<(string, string, string)>)
    ensures |sections| == |Sections(text, level)|
    ensures forall i | 0 <= i < |sections| ::
              var s := Sections(text, level)[i];
              sections[i] == (s.title, Strip(Slice(text, s.start, s.end)),
                              Slice(Visible(ReleaseLines(text)), s.start, s.end))
  {
    hide Strip, ReleaseLines, HeadingsFrom, Slice, Visible, Headings, Tops, SectionsOf;
    var scanned := ScanLines(text);
    var visible := Visible(scanned);
    var all := ReleaseHeadings(text);
    var headings := Tops(all, level);
    sections := [];
    ghost var found: seq<Section> := [];
    AllAhead(headings, level, |text|);
    for index := 0 to |headings|
      invariant found + SectionsOf(headings[index..], level, |text|) == SectionsOf(headings, level, |text|)
      invariant |sections| == |found|
      invariant forall i | 0 <= i < |found| ::
                  sections[i] == (found[i].title, Strip(Slice(text, found[i].start, found[i].end)),
                                  Slice(visible, found[i].start, found[i].end))
    {
      SectionTurn(headings, level, |text|, index, found);
      var h := headings[index];
      if h.level == level {
        var end := if index + 1 < |headings| then headings[index + 1].start else |text|;
        sections := sections + [(h.title, Strip(Slice(text, h.end, end)), Slice(visible, h.end, end))];
        found := found + [Section(h.title, h.end, end)];
      }
    }
    assert found + [] == found;
  }

  lemma AllAhead(headings: seq<Heading>, level: nat, total: nat)
    ensures [] + SectionsOf(headings[0..], level, total) == SectionsOf(headings, level, total)
    ensures SectionsOf(headings[|headings|..], level, total) == []
  {
    assert headings[0..] == headings;
  }

  lemma SectionTurn(headings: seq<Heading>, level: nat, total: nat, index: nat, found: seq<Section>)
    requires index < |headings|
    ensures var h := headings[index];
            var end := if index + 1 < |headings| then headings[index + 1].start else total;
            found + SectionsOf(headings[index..], level, total) ==
              (if h.level == level then found + [Section(h.title, h.end, end)] else found)
              + SectionsOf(headings[index + 1..], level, total)
  {
    var rest := SectionsOf(headings[index + 1..], level, total);
    assert headings[index..][1..] == headings[index + 1..];
    assert found + ([] + rest) == found + rest;
  }

  lemma {:induction false} TopsOrdered(headings: seq<Heading>, level: nat, from: nat, to: nat)
    requires Ordered(headings, from, to)
    ensures Ordered(Tops(headings, level), from, to)
  {
    if headings != [] {
      TopsOrdered(headings[1..], level, headings[0].end, to);
      if headings[0].level <= level {
        assert Tops(headings, level)[1..] == Tops(headings[1..], level);
      } else {
        assert Tops(headings, level) == Tops(headings[1..], level);
        OrderedEarlier(Tops(headings[1..], level), from, headings[0].end, to);
      }
    }
  }

  lemma {:induction false} OrderedAt(headings: seq<Heading>, from: nat, to: nat, i: nat)
    requires Ordered(headings, from, to) && i < |headings|
    ensures from <= headings[i].start < headings[i].end <= to
    ensures i + 1 < |headings| ==> headings[i].end <= headings[i + 1].start <= to
  {
    if i > 0 {
      OrderedAt(headings[1..], headings[0].end, to, i - 1);
    }
  }

  lemma {:induction false} OrderedStarts(headings: seq<Heading>, from: nat, to: nat, h: Heading)
    requires Ordered(headings, from, to) && h in headings
    ensures from <= h.start < h.end <= to
  {
    if h != headings[0] {
      OrderedStarts(headings[1..], headings[0].end, to, h);
    }
  }

  /** No heading that could end the section starts inside it, and its own heading ends where it starts. */
  ghost predicate IsSection(s: Section, tops: seq<Heading>, level: nat, total: nat) {
    && s.start <= s.end <= total
    && (exists h :: h in tops && h.level == level && h.end == s.start && h.title == s.title)
    && (forall h | h in tops :: !(s.start <= h.start < s.end))
    && (s.end == total || exists h :: h in tops && h.start == s.end)
  }

  lemma SectionLater(s: Section, tops: seq<Heading>, level: nat, total: nat)
    requires tops != [] && IsSection(s, tops[1..], level, total) && tops[0].start < s.start
    ensures IsSection(s, tops, level, total)
  {
    var h :| h in tops[1..] && h.level == level && h.end == s.start && h.title == s.title;
    assert h in tops;
    forall g | g in tops ensures !(s.start <= g.start < s.end) {
      assert g == tops[0] || g in tops[1..];
    }
    if s.end != total {
      var g :| g in tops[1..] && g.start == s.end;
      assert g in tops;
    }
  }

  lemma {:induction false} SectionsAre(tops: seq<Heading>, level: nat, from: nat, total: nat, i: nat)
    requires Ordered(tops, from, total) && i < |SectionsOf(tops, level, total)|
    ensures from < SectionsOf(tops, level, total)[i].start
    ensures IsSection(SectionsOf(tops, level, total)[i], tops, level, total)
  {
    hide Ordered, IsSection, SectionsOf;
    SectionsStep(tops, level, from, total, i);
    var rest := SectionsOf(tops[1..], level, total);
    var own := |SectionsOf(tops, level, total)| - |rest|;
    if i >= own {
      SectionsAre(tops[1..], level, tops[0].end, total, i - own);
      SectionLater(rest[i - own], tops, level, total);
    }
  }

  lemma SectionsStep(tops: seq<Heading>, level: nat, from: nat, total: nat, i: nat)
    requires Ordered(tops, from, total) && i < |SectionsOf(tops, level, total)|
    ensures tops != [] && from <= tops[0].start < tops[0].end && Ordered(tops[1..], tops[0].end, total)
    ensures var rest := SectionsOf(tops[1..], level, total);
            var own := |SectionsOf(tops, level, total)| - |rest|;
            && own in {0, 1} && (own == 1 ==> tops[0].level == level)
            && (i >= own ==> SectionsOf(tops, level, total)[i] == rest[i - own])
            && (i < own ==> IsSection(SectionsOf(tops, level, total)[i], tops, level, total)
                            && from < SectionsOf(tops, level, total)[i].start)
  {
    SectionsSplit(tops, level, total, i);
    OrderedFirst(tops, from, total);
    hide IsSection, Ordered, SectionsOf;
    if tops[0].level == level {
      FirstSection(tops, level, from, total);
    }
  }

  lemma OrderedFirst(headings: seq<Heading>, from: nat, to: nat)
    requires Ordered(headings, from, to) && headings != []
    ensures from <= headings[0].start < headings[0].end && Ordered(headings[1..], headings[0].end, to)
  {
  }

  lemma SectionsSplit(tops: seq<Heading>, level: nat, total: nat, i: nat)
    requires i < |SectionsOf(tops, level, total)|
    ensures tops != []
    ensures var rest := SectionsOf(tops[1..], level, total);
            var own := |SectionsOf(tops, level, total)| - |rest|;
            && own == (if tops[0].level == level then 1 else 0)
            && (i >= own ==> SectionsOf(tops, level, total)[i] == rest[i - own])
            && (i < own ==> SectionsOf(tops, level, total)[i]
                            == Section(tops[0].title, tops[0].end, if |tops| > 1 then tops[1].start else total))
  {
  }

  lemma FirstSection(tops: seq<Heading>, level: nat, from: nat, total: nat)
    requires tops != [] && Ordered(tops, from, total) && tops[0].level == level
    ensures var end := if |tops| > 1 then tops[1].start else total;
            IsSection(Section(tops[0].title, tops[0].end, end), tops, level, total) && from < tops[0].end
  {
    OrderedAt(tops, from, total, 0);
    assert tops[0] in tops;
    if |tops| > 1 {
      assert tops[1] in tops && tops[1..][0] == tops[1];
      OrderedTighter(tops[1..], tops[0].end, total);
    }
    hide Ordered;
    forall h | h in tops ensures !(tops[0].end <= h.start < if |tops| > 1 then tops[1].start else total) {
      if h != tops[0] {
        assert h in tops[1..];
        OrderedStarts(tops[1..], tops[1].start, total, h);
      }
    }
  }

  lemma OrderedTighter(headings: seq<Heading>, from: nat, to: nat)
    requires headings != [] && Ordered(headings, from, to)
    ensures Ordered(headings, headings[0].start, to)
  {
  }

  lemma {:induction false} SectionsApart(tops: seq<Heading>, level: nat, from: nat, total: nat, i: nat, j: nat)
    requires Ordered(tops, from, total) && i < j < |SectionsOf(tops, level, total)|
    ensures SectionsOf(tops, level, total)[i].end < SectionsOf(tops, level, total)[j].start
  {
    hide Ordered, IsSection;
    SectionsStep(tops, level, from, total, i);
    SectionsStep(tops, level, from, total, j);
    var rest := SectionsOf(tops[1..], level, total);
    var own := |SectionsOf(tops, level, total)| - |rest|;
    if i >= own {
      SectionsApart(tops[1..], level, tops[0].end, total, i - own, j - own);
    } else {
      FirstSectionEnds(tops, level, from, total, j);
    }
  }

  lemma FirstSectionEnds(tops: seq<Heading>, level: nat, from: nat, total: nat, j: nat)
    requires tops != [] && Ordered(tops, from, total) && tops[0].level == level
    requires 0 < j < |SectionsOf(tops, level, total)|
    ensures SectionsOf(tops, level, total)[0].end < SectionsOf(tops, level, total)[j].start
  {
    var rest := SectionsOf(tops[1..], level, total);
    assert SectionsOf(tops, level, total)[j] == rest[j - 1];
    OrderedTighter(tops[1..], tops[0].end, total);
    SectionsAre(tops[1..], level, tops[1].start, total, j - 1);
  }

  lemma {:induction false} EveryTopHasSection(tops: seq<Heading>, level: nat, total: nat, h: Heading)
    requires h in tops && h.level == level
    ensures exists s :: s in SectionsOf(tops, level, total) && s.start == h.end && s.title == h.title
  {
    if h == tops[0] {
      assert SectionsOf(tops, level, total)[0].start == h.end;
    } else {
      EveryTopHasSection(tops[1..], level, total, h);
      var s :| s in SectionsOf(tops[1..], level, total) && s.start == h.end && s.title == h.title;
      assert s in SectionsOf(tops, level, total);
    }
  }

  lemma SectionInside(s: Section, tops: seq<Heading>, level: nat, total: nat)
    requires IsSection(s, tops, level, total)
    ensures s.start <= s.end <= total
  {
  }

  lemma BodyIsSlice(text: string, start: nat, end: nat)
    requires start <= end <= |text|
    ensures Trims(text[start..end], Strip(Slice(text, start, end)))
  {
    StripMeans(text[start..end]);
  }

  /**
   * The sections of one level: each runs from behind its own heading to the next heading of that
   * level or above, or to the end; none contains such a heading; they follow one another without
   * touching; no heading of the level is without one; and of the body only white space at its ends goes.
   */
  lemma SectionsMean(text: string, level: nat)
    ensures forall i | 0 <= i < |Sections(text, level)| ::
              IsSection(Sections(text, level)[i], Tops(Headings(text), level), level, |text|)
    ensures forall s | s in Sections(text, level) ::
              s.start <= s.end <= |text| && Trims(text[s.start..s.end], Strip(Slice(text, s.start, s.end)))
    ensures forall i, j | 0 <= i < j < |Sections(text, level)| ::
              Sections(text, level)[i].end < Sections(text, level)[j].start
    ensures forall h | h in Headings(text) && h.level == level ::
              exists s :: s in Sections(text, level) && s.start == h.end && s.title == h.title
  {
    hide IsSection, Ordered, Headings, SectionsOf, Trims, Strip, Slice;
    var tops := Tops(Headings(text), level);
    HeadingsFit(text);
    TopsOrdered(Headings(text), level, 0, |text|);
    forall i | 0 <= i < |Sections(text, level)|
      ensures IsSection(Sections(text, level)[i], tops, level, |text|)
    {
      SectionsAre(tops, level, 0, |text|, i);
    }
    forall s | s in Sections(text, level)
      ensures s.start <= s.end <= |text| && Trims(text[s.start..s.end], Strip(Slice(text, s.start, s.end)))
    {
      SectionInside(s, tops, level, |text|);
      BodyIsSlice(text, s.start, s.end);
    }
    forall i, j | 0 <= i < j < |Sections(text, level)|
      ensures Sections(text, level)[i].end < Sections(text, level)[j].start
    {
      SectionsApart(tops, level, 0, |text|, i, j);
    }
    forall h | h in Headings(text) && h.level == level
      ensures exists s :: s in Sections(text, level) && s.start == h.end && s.title == h.title
    {
      EveryTopHasSection(tops, level, |text|, h);
    }
  }

  /** Headings are whole lines of the original text, from left to right. */
  lemma HeadingsFit(text: string)
    ensures Ordered(Headings(text), 0, |text|)
    ensures forall i | 0 <= i < |Headings(text)| ::
              var h := Headings(text)[i]; h.start < h.end <= |text| && text[h.start..h.end] in Lines(text)
  {
    hide Scan, HeadingsFrom, Visible, Ordered, Lines;
    VisibleKeepsLayout(text);
    HeadingsOrdered(ReleaseLines(text), 0);
    LinesJoin(text);
    assert text[0..] == text;
    forall i | 0 <= i < |Headings(text)|
      ensures var h := Headings(text)[i]; h.start < h.end <= |text| && text[h.start..h.end] in Lines(text)
    {
      HeadingIsLine(text, START, Lines(text), 0, i);
    }
  }
}

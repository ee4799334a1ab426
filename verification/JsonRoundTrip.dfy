/** The parser and the printer of Json are inverse to each other on all texts. */
module JsonRoundTrip {
  import opened Wrappers
  import opened Text
  import opened Json

  // ---- Scanning depends on the scanned characters only ---------------------------------------

  lemma {:induction false} SpaceAt(space: string, t: string)
    requires AllSpace(space) && (t == "" || !IsSpace(t[0]))
    ensures SpaceLength(space + t) == |space| && Space(space + t) == space && Skip(space + t) == t
  {
    if space == "" {
      assert space + t == t;
    } else {
      assert (space + t)[1..] == space[1..] + t;
      SpaceAt(space[1..], t);
    }
    assert (space + t)[..|space|] == space && (space + t)[|space|..] == t;
  }

  lemma SkipSplits(s: string)
    ensures s == Space(s) + Skip(s) && AllSpace(Space(s))
  {
  }

  lemma DigitsAt(s: string, n: nat)
    requires n <= |s| && AllDigits(s[..n]) && (n < |s| ==> !IsDigit(s[n]))
    ensures DigitsLength(s) == n
  {
    var d := DigitsLength(s);
    forall i | 0 <= i < n ensures IsDigit(s[i]) { assert s[..n][i] == s[i]; }
    forall i | 0 <= i < d ensures IsDigit(s[i]) { assert s[..d][i] == s[i]; }
  }

  /** Two texts that agree up to n, the second of which stops there, have the same digits in front. */
  lemma DigitsLocal(s: string, t: string, n: nat)
    requires n <= |s| && n <= |t| && s[..n] == t[..n] && DigitsLength(s) <= n && Stops(t[n..])
    ensures DigitsLength(t) == DigitsLength(s)
  {
    var d := DigitsLength(s);
    assert t[..d] == t[..n][..d] == s[..n][..d] == s[..d];
    if d < n {
      assert t[d] == t[..n][d] == s[d];
    } else if d < |t| {
      assert t[d] == t[n..][0];
    }
    DigitsAt(t, d);
  }

  lemma TailsMatch(s: string, t: string, n: nat, k: nat)
    requires k <= n <= |s| && n <= |t| && s[..n] == t[..n]
    ensures s[k..][..n - k] == t[k..][..n - k] && t[k..][n - k..] == t[n..]
  {
    assert s[k..][..n - k] == s[..n][k..] && t[k..][..n - k] == t[..n][k..];
  }

  lemma TailsAgree(s: string, t: string, n: nat, k: nat)
    requires k <= n <= |s| && n <= |t| && s[..n] == t[..n]
    ensures s[k..][..n - k] == t[k..][..n - k] && t[k..][n - k..] == t[n..]
    ensures forall i | 0 <= i < n :: s[i] == t[i]
  {
    TailsMatch(s, t, n, k);
    assert forall i | 0 <= i < n :: s[i] == s[..n][i] && t[i] == t[..n][i];
  }

  lemma IntegerLocal(s: string, t: string, n: nat)
    requires n <= |s| && n <= |t| && s[..n] == t[..n] && 0 < IntegerLength(s) <= n && Stops(t[n..])
    ensures IntegerLength(t) == IntegerLength(s)
  {
    TailsAgree(s, t, n, 0);
    var sign := if s[0] == '-' then 1 else 0;
    if s[sign] != '0' {
      TailsAgree(s, t, n, sign);
      DigitsLocal(s[sign..], t[sign..], n - sign);
    }
  }

  lemma FractionLocal(s: string, t: string, n: nat)
    requires n <= |s| && n <= |t| && s[..n] == t[..n] && FractionLength(s) <= n && Stops(t[n..])
    ensures FractionLength(t) == FractionLength(s)
  {
    TailsAgree(s, t, n, 0);
    if FractionLength(s) > 0 {
      TailsAgree(s, t, n, 1);
      DigitsLocal(s[1..], t[1..], n - 1);
    } else if n == 0 {
      assert t[n..] == t;
    } else if n == 1 {
      assert |t| > 1 ==> t[n..][0] == t[1];
    }
  }

  lemma ExponentLocal(s: string, t: string, n: nat)
    requires n == ExponentLength(s) && n <= |t| && s[..n] == t[..n] && Stops(t[n..])
    ensures ExponentLength(t) == n
  {
    TailsAgree(s, t, n, 0);
    if n > 0 {
      var sign := if |s| > 1 && (s[1] == '+' || s[1] == '-') then 2 else 1;
      TailsAgree(s, t, n, sign);
      DigitsLocal(s[sign..], t[sign..], n - sign);
    } else {
      assert t[n..] == t;
    }
  }

  lemma NumberParts(s: string, i: nat, f: nat, e: nat)
    requires 0 < i == IntegerLength(s)
    requires f == FractionLength(s[i..]) && i + f <= |s| && e == ExponentLength(s[i + f..])
    ensures NumberLength(s) == i + f + e
  {
    hide IntegerLength, FractionLength, ExponentLength;
  }

  lemma NumberLocal(s: string, t: string, n: nat)
    requires n == NumberLength(s) > 0 && n <= |t| && s[..n] == t[..n] && Stops(t[n..])
    ensures NumberLength(t) == n && IntegerLength(t) == IntegerLength(s)
  {
    hide IntegerLength, FractionLength, ExponentLength, Stops;
    var i := IntegerLength(s);
    var f := FractionLength(s[i..]);
    IntegerLocal(s, t, n);
    TailsMatch(s, t, n, i);
    FractionLocal(s[i..], t[i..], n - i);
    TailsMatch(s, t, n, i + f);
    ExponentLocal(s[i + f..], t[i + f..], n - i - f);
    NumberParts(t, i, f, n - i - f);
  }

  lemma UnitLocal(s: string, t: string, n: nat)
    requires s != "" && s[0] != '"' && ScanString(s).Some? && n == ScanString(s).value.1
    requires n <= |t| && s[..n] == t[..n]
    ensures t != "" && t[0] == s[0] && ScanUnit(t) == ScanUnit(s)
  {
    TailsAgree(s, t, n, 0);
    var (code, k) := ScanUnit(s).value;
    assert n == k + ScanString(s[k..]).value.1;
    if s[0] == '\\' && s[1] == 'u' {
      EscapeLocal(s, t, n);
    }
  }

  lemma EscapeLocal(s: string, t: string, n: nat)
    requires IsUnicodeEscape(s)
    requires var k := ScanUnit(s).value.1; ScanString(s[k..]).Some? && n == k + ScanString(s[k..]).value.1
    requires n <= |t| && s[..n] == t[..n]
    ensures ScanUnit(t) == ScanUnit(s)
  {
    TailsAgree(s, t, n, 0);
    assert IsUnicodeEscape(t) && EscapedCode(t) == EscapedCode(s);
    if IsSurrogatePair(s) {
      assert forall i | 0 <= i < 6 :: t[6..][i] == t[6 + i] && s[6..][i] == s[6 + i];
    } else if IsUnicodeEscape(t[6..]) {
      LowHalfLocal(s, t, n);
    }
  }

  /** Whether a second escape follows is decided inside the string, before its closing quote. */
  lemma LowHalfLocal(s: string, t: string, n: nat)
    requires IsUnicodeEscape(s) && ScanString(s[6..]).Some? && n == 6 + ScanString(s[6..]).value.1
    requires n <= |t| && s[..n] == t[..n] && IsUnicodeEscape(t[6..])
    ensures IsUnicodeEscape(s[6..]) && EscapedCode(s[6..]) == EscapedCode(t[6..])
  {
    TailsAgree(s, t, n, 6);
    var rest := s[6..];
    assert rest[0] == t[6..][0];
    var (code, k) := ScanUnit(rest).value;
    assert n - 6 > k;
    assert rest[1] == t[6..][1];
    assert forall i | 0 <= i < 6 :: rest[i] == t[6..][i];
  }

  lemma {:induction false} StringLocal(s: string, t: string)
    requires ScanString(s).Some?
    requires var n := ScanString(s).value.1; n <= |t| && s[..n] == t[..n]
    ensures ScanString(t) == ScanString(s)
    decreases |s|
  {
    hide ScanUnit;
    var n := ScanString(s).value.1;
    TailsAgree(s, t, n, 0);
    if s[0] != '"' {
      UnitLocal(s, t, n);
      var (code, k) := ScanUnit(s).value;
      TailsAgree(s, t, n, k);
      StringLocal(s[k..], t[k..]);
    }
  }

  lemma KeywordLocal(s: string, t: string, n: nat)
    requires n == KeywordLength(s) > 0 && n <= |t| && s[..n] == t[..n]
    ensures KeywordLength(t) == n
  {
    TailsAgree(s, t, n, 0);
    assert KeywordFor(s[0]) == s[..n];
  }

  lemma NumberIsNoKeyword(s: string, t: string, n: nat)
    requires n == NumberLength(s) > 0 && n <= |t| && s[..n] == t[..n]
    ensures KeywordLength(t) == 0
  {
    TailsAgree(s, t, n, 0);
    if s[0] == '-' {
      assert n >= 2 && t[1] == s[1];
      assert "-Infinity"[1] == 'I' && t[1] != 'I';
    }
  }

  /** A scalar is found again in any text that has the same characters and then stops. */
  lemma ScalarLocal(s: string, t: string, n: nat)
    requires ScanScalar(s).Some? && n == ScanScalar(s).value.1
    requires n <= |t| && s[..n] == t[..n] && Stops(t[n..])
    ensures ScanScalar(t) == ScanScalar(s)
  {
    TailsAgree(s, t, n, 0);
    if s[0] == '"' {
      KeyLocal(s, t, n);
    } else if KeywordLength(s) > 0 {
      KeywordLocal(s, t, n);
    } else {
      NumberLocal(s, t, n);
      NumberIsNoKeyword(s, t, n);
    }
  }

  lemma KeyLocal(s: string, t: string, n: nat)
    requires s != "" && s[0] == '"' && ScanScalar(s).Some? && n == ScanScalar(s).value.1
    requires n <= |t| && s[..n] == t[..n]
    ensures ScanScalar(t) == ScanScalar(s)
  {
    TailsAgree(s, t, n, 0);
    TailsAgree(s, t, n, 1);
    StringLocal(s[1..], t[1..]);
  }

  lemma TokenInContext(token: string, value: Value, rest: string)
    requires Spells(token, value) && token != "" && (token[0] == '"' || Stops(rest))
    ensures ScanScalar(token + rest) == Some((value, |token|))
  {
    assert (token + rest)[..|token|] == token[..|token|] && (token + rest)[|token|..] == rest;
    if token[0] == '"' {
      KeyLocal(token, token + rest, |token|);
    } else {
      ScalarLocal(token, token + rest, |token|);
    }
  }

  lemma ScannedIsToken(s: string)
    requires ScanScalar(s).Some?
    ensures var (value, n) := ScanScalar(s).value; Spells(s[..n], value) && s == s[..n] + s[n..]
  {
    var n := ScanScalar(s).value.1;
    assert s[..n][..n] == s[..n] && s[..n][n..] == "";
    ScalarLocal(s, s[..n], n);
  }

  // ---- Printing after parsing ----------------------------------------------------------------

  lemma KeyPrinted(s: string, seen: set<CodePoints>)
    requires ParseKey(s, seen).Some?
    ensures var (token, name, beforeColon, rest) := ParseKey(s, seen).value;
            && SpellsKey(token, name) && name !in seen && AllSpace(beforeColon)
            && s == token + (beforeColon + ([':'] + rest))
  {
    ScannedIsToken(s);
    var (token, name, beforeColon, rest) := ParseKey(s, seen).value;
    assert token[0] == s[0];
    SkipSplits(s[|token|..]);
    assert Skip(s[|token|..]) == [':'] + rest;
  }

  lemma {:induction false} ParsedIsPrinted(s: string)
    requires ParseNode(s).Some?
    ensures var (node, rest) := ParseNode(s).value; WellFormed(node) && s == Print(node) + rest
    decreases |s|, 0
  {
    assert s == [s[0]] + s[1..];
    var (node, rest) := ParseNode(s).value;
    if s[0] == '{' {
      ObjectPrinted(s[1..]);
    } else if s[0] == '[' {
      ArrayPrinted(s[1..]);
    } else {
      ScannedIsToken(s);
    }
  }

  lemma Enclose(open: char, body: string, rest: string, s: string)
    requires s == [open] + (body + rest)
    ensures s == ([open] + body) + rest
  {
  }

  lemma {:induction false} ObjectPrinted(t: string)
    requires ParseObject(t).Some?
    ensures var (node, rest) := ParseObject(t).value; WellFormed(node) && ['{'] + t == Print(node) + rest
    decreases |t|, 3
  {
    var (node, rest) := ParseObject(t).value;
    if node.EmptyObject? {
      SkipSplits(t);
      assert Skip(t) == ['}'] + rest;
      assert t == (Space(t) + ['}']) + rest;
      Enclose('{', Space(t) + ['}'], rest, ['{'] + t);
    } else {
      MembersPrinted(t, {});
      Enclose('{', PrintMembers(node.members), rest, ['{'] + t);
    }
  }

  lemma {:induction false} ArrayPrinted(t: string)
    requires ParseArray(t).Some?
    ensures var (node, rest) := ParseArray(t).value; WellFormed(node) && ['['] + t == Print(node) + rest
    decreases |t|, 3
  {
    var (node, rest) := ParseArray(t).value;
    if node.EmptyArray? {
      SkipSplits(t);
      assert Skip(t) == [']'] + rest;
      assert t == (Space(t) + [']']) + rest;
      Enclose('[', Space(t) + [']'], rest, ['['] + t);
    } else {
      ItemsPrinted(t);
      Enclose('[', PrintItems(node.items), rest, ['['] + t);
    }
  }

  /** Joining the pieces of one member again. */
  lemma MemberJoins(m: Members, s: string, t: string, u: string, v: string)
    requires m.Member?
    requires s == m.before + (m.key + (m.beforeColon + ([':'] + t)))
    requires t == m.beforeValue + (Print(m.value) + u)
    requires u == m.after + v
    ensures s == (Head(m) + (Print(m.value) + m.after)) + v
  {
    var x := Print(m.value) + m.after;
    assert Print(m.value) + u == x + v;
    assert t == m.beforeValue + (x + v);
    Regroup(m.before, m.key, m.beforeColon, [':'], m.beforeValue, x + v);
    assert Head(m) + (x + v) == (Head(m) + x) + v;
  }

  lemma Regroup(a: string, b: string, c: string, d: string, e: string, rest: string)
    ensures a + (b + (c + (d + (e + rest)))) == (a + (b + (c + (d + e)))) + rest
  {
    assert d + (e + rest) == (d + e) + rest;
    assert c + ((d + e) + rest) == (c + (d + e)) + rest;
    assert b + ((c + (d + e)) + rest) == (b + (c + (d + e))) + rest;
  }

  lemma {:induction false} MemberPrinted(s: string, seen: set<CodePoints>)
    requires ParseMember(s, seen).Some?
    ensures var (m, v) := ParseMember(s, seen).value;
            && WellFormedFrame(m) && m.name !in seen && WellFormed(m.value)
            && s == (Head(m) + (Print(m.value) + m.after)) + v
    decreases |s|, 1
  {
    var (m, v) := ParseMember(s, seen).value;
    KeyPrinted(Skip(s), seen);
    var (_, _, _, t) := ParseKey(Skip(s), seen).value;
    ParsedIsPrinted(Skip(t));
    var (_, u) := ParseNode(Skip(t)).value;
    SkipSplits(s);
    SkipSplits(t);
    SkipSplits(u);
    MemberJoins(m, s, t, u, v);
  }

  lemma TailJoins(front: string, tail: string, v: string, rest: string, s: string)
    requires v == tail + rest && s == front + v
    ensures s == (front + tail) + rest
  {
  }

  /** One more member in front of members that are already put together. */
  lemma MemberAdded(m: Members, next: Members, v: string, rest: string, seen: set<CodePoints>)
    requires m.Member? && WellFormedFrame(m) && WellFormed(m.value) && m.name !in seen
    requires WellFormedMembers(next) && Keys(next) !! seen + {m.name}
    requires v == MembersTail(next) + rest
    ensures var all := m.(next := next);
            && WellFormedMembers(all) && Keys(all) !! seen
            && (Head(m) + (Print(m.value) + m.after)) + v == PrintMembers(all) + rest
  {
    var all := m.(next := next);
    assert Head(all) == Head(m);
    TailJoins(Head(m) + (Print(m.value) + m.after), MembersTail(next), v, rest,
              (Head(m) + (Print(m.value) + m.after)) + v);
  }

  /** What a successful turn of the member loop has found. */
  lemma MembersTurn(s: string, seen: set<CodePoints>) returns (m: Members, v: string, next: Members, rest: string)
    requires ParseMembers(s, seen).Some?
    ensures m.Member? && ParseMember(s, seen) == Some((m, v)) && v != "" && |v| < |s|
    ensures ParseMembers(s, seen) == Some((m.(next := next), rest))
    ensures if v[0] == '}' then next == EndObject && rest == v[1..]
            else v[0] == ',' && ParseMembers(v[1..], seen + {m.name}) == Some((next, rest))
                 && next.Member?
  {
    m, v := ParseMember(s, seen).value.0, ParseMember(s, seen).value.1;
    next, rest := ParseMembers(s, seen).value.0.next, ParseMembers(s, seen).value.1;
  }

  lemma {:induction false} MembersPrinted(s: string, seen: set<CodePoints>)
    requires ParseMembers(s, seen).Some?
    ensures var (members, rest) := ParseMembers(s, seen).value;
            WellFormedMembers(members) && Keys(members) !! seen && s == PrintMembers(members) + rest
    decreases |s|, 2
  {
    hide ScanScalar, SpaceLength, ParseKey, ParseMember, ParseMembers, WellFormedFrame, WellFormed;
    var m, v, next, rest := MembersTurn(s, seen);
    MemberPrinted(s, seen);
    if v[0] == ',' {
      MembersPrinted(v[1..], seen + {m.name});
      CommaTail(next, v, rest);
    } else {
      assert v == ['}'] + v[1..];
    }
    MemberAdded(m, next, v, rest, seen);
  }

  lemma CommaTail(next: Members, v: string, rest: string)
    requires next.Member? && v != "" && v[0] == ',' && v[1..] == PrintMembers(next) + rest
    ensures v == MembersTail(next) + rest
  {
    assert v == [','] + v[1..];
    Enclose(',', PrintMembers(next), rest, v);
  }

  lemma {:induction false} ItemPrinted(s: string)
    requires ParseItem(s).Some?
    ensures var (i, v) := ParseItem(s).value;
            && AllSpace(i.before) && AllSpace(i.after) && WellFormed(i.value)
            && s == (i.before + (Print(i.value) + i.after)) + v
    decreases |s|, 1
  {
    var (i, v) := ParseItem(s).value;
    ParsedIsPrinted(Skip(s));
    var (node, u) := ParseNode(Skip(s)).value;
    SkipSplits(s);
    SkipSplits(u);
    assert Print(node) + u == (Print(node) + i.after) + v;
  }

  lemma {:induction false} ItemsPrinted(s: string)
    requires ParseItems(s).Some?
    ensures var (items, rest) := ParseItems(s).value; WellFormedItems(items) && s == PrintItems(items) + rest
    decreases |s|, 2
  {
    var (items, rest) := ParseItems(s).value;
    ItemPrinted(s);
    var (i, v) := ParseItem(s).value;
    assert v == [v[0]] + v[1..];
    if v[0] == ',' {
      ItemsPrinted(v[1..]);
      assert v == ([','] + PrintItems(items.next)) + rest;
    }
    TailJoins(i.before + (Print(i.value) + i.after), ItemsTail(items.next), v, rest, s);
  }

  // ---- Parsing after printing -------------------------------------------------------------------

  lemma PrintStart(node: Node)
    requires WellFormed(node)
    ensures Print(node) != "" && !IsSpace(Print(node)[0])
    ensures Print(node)[0] != '}' && Print(node)[0] != ']'
    ensures Print(node)[0] == '{' <==> node.Object? || node.EmptyObject?
    ensures Print(node)[0] == '[' <==> node.Array? || node.EmptyArray?
  {
  }

  lemma TailStops(next: Members, rest: string)
    ensures Stops(MembersTail(next) + rest) && !IsSpace((MembersTail(next) + rest)[0])
  {
  }

  lemma ItemsTailStops(next: Items, rest: string)
    ensures Stops(ItemsTail(next) + rest) && !IsSpace((ItemsTail(next) + rest)[0])
  {
  }

  lemma SpaceStops(space: string, rest: string)
    requires AllSpace(space) && Stops(rest)
    ensures Stops(space + rest)
  {
    if space != "" {
      assert (space + rest)[0] == space[0];
    } else {
      assert space + rest == rest;
    }
  }

  lemma {:induction false} PrintedIsParsed(node: Node, rest: string)
    requires WellFormed(node) && Stops(rest)
    ensures ParseNode(Print(node) + rest) == Some((node, rest))
    decreases node, 2
  {
    match node
    case Scalar(token, decoded) => ScalarParsed(token, decoded, rest);
    case EmptyObject(inner) =>
      Unwrap('{', inner + ['}'], rest);
      EmptyParsed(inner, '}', rest);
    case EmptyArray(inner) =>
      Unwrap('[', inner + [']'], rest);
      EmptyParsed(inner, ']', rest);
    case Object(members) =>
      Unwrap('{', PrintMembers(members), rest);
      MembersParsed(members, rest, {});
      ObjectParsed(members, rest);
    case Array(items) =>
      Unwrap('[', PrintItems(items), rest);
      ItemsParsed(items, rest);
      ArrayParsed(items, rest);
  }

  /** A bracketed text is parsed by what stands behind its bracket. */
  lemma Unwrap(open: char, body: string, rest: string)
    requires open == '{' || open == '['
    ensures ParseNode(([open] + body) + rest) == if open == '{' then ParseObject(body + rest) else ParseArray(body + rest)
  {
    Divide(open, body, rest);
  }

  lemma ScalarParsed(token: string, value: Value, rest: string)
    requires Spells(token, value) && Stops(rest)
    ensures ParseNode(token + rest) == Some((Scalar(token, value), rest))
  {
    var s := token + rest;
    PrintStart(Scalar(token, value));
    TokenInContext(token, value, rest);
    assert s[0] == token[0] && s[..|token|] == token && s[|token|..] == rest;
  }

  lemma EmptyParsed(inner: string, close: char, rest: string)
    requires AllSpace(inner)
    ensures close == '}' ==> ParseObject((inner + [close]) + rest) == Some((EmptyObject(inner), rest))
    ensures close == ']' ==> ParseArray((inner + [close]) + rest) == Some((EmptyArray(inner), rest))
  {
    assert (inner + [close]) + rest == inner + ([close] + rest);
    if close == '}' || close == ']' { SpaceAt(inner, [close] + rest); }
    assert ([close] + rest)[1..] == rest;
  }

  lemma ObjectParsed(m: Members, rest: string)
    requires m.Member? && WellFormedMembers(m)
    requires ParseMembers(PrintMembers(m) + rest, {}) == Some((m, rest))
    ensures ParseObject(PrintMembers(m) + rest) == Some((Object(m), rest))
  {
    MembersStart(m, rest);
  }

  lemma ArrayParsed(i: Items, rest: string)
    requires i.Item? && WellFormedItems(i)
    requires ParseItems(PrintItems(i) + rest) == Some((i, rest))
    ensures ParseArray(PrintItems(i) + rest) == Some((Array(i), rest))
  {
    ItemsStart(i, rest);
  }

  lemma MembersStart(m: Members, rest: string)
    requires m.Member? && WellFormedMembers(m)
    ensures var t := Skip(PrintMembers(m) + rest); t != "" && t[0] == '"'
  {
    var u := (Print(m.value) + m.after) + MembersTail(m.next) + rest;
    var k := m.key + (m.beforeColon + ([':'] + (m.beforeValue + u)));
    Regroup(m.before, m.key, m.beforeColon, [':'], m.beforeValue, u);
    assert PrintMembers(m) + rest == m.before + k;
    assert k[0] == m.key[0];
    SpaceAt(m.before, k);
  }

  lemma ItemsStart(i: Items, rest: string)
    requires i.Item? && WellFormedItems(i)
    ensures var t := Skip(PrintItems(i) + rest); t != "" && t[0] != ']'
  {
    var t := Print(i.value) + (i.after + (ItemsTail(i.next) + rest));
    PrintStart(i.value);
    assert PrintItems(i) + rest == i.before + t;
    assert t[0] == Print(i.value)[0];
    SpaceAt(i.before, t);
  }

  lemma KeyParsed(token: string, name: CodePoints, beforeColon: string, rest: string, seen: set<CodePoints>)
    requires SpellsKey(token, name) && AllSpace(beforeColon) && name !in seen
    ensures ParseKey(token + (beforeColon + ([':'] + rest)), seen) == Some((token, name, beforeColon, rest))
  {
    var s := token + (beforeColon + ([':'] + rest));
    TokenInContext(token, JString(name), beforeColon + ([':'] + rest));
    assert s[..|token|] == token && s[|token|..] == beforeColon + ([':'] + rest);
    SpaceAt(beforeColon, [':'] + rest);
    assert ([':'] + rest)[1..] == rest;
  }

  /** After a value: the space and the delimiter that follow it are found again. */
  lemma AfterValue(before: string, value: Node, after: string, v: string)
    requires AllSpace(before) && WellFormed(value) && AllSpace(after)
    requires v != "" && Stops(v) && !IsSpace(v[0])
    ensures Space(before + (Print(value) + (after + v))) == before
    ensures Skip(before + (Print(value) + (after + v))) == Print(value) + (after + v)
    ensures Space(after + v) == after && Skip(after + v) == v && Stops(after + v)
  {
    PrintStart(value);
    assert (Print(value) + (after + v))[0] == Print(value)[0];
    SpaceAt(before, Print(value) + (after + v));
    SpaceStops(after, v);
    SpaceAt(after, v);
  }

  lemma {:induction false} MemberParsed(m: Members, v: string, seen: set<CodePoints>)
    requires m.Member? && WellFormedFrame(m) && WellFormed(m.value) && m.name !in seen
    requires v != "" && Stops(v) && !IsSpace(v[0])
    ensures ParseMember((Head(m) + (Print(m.value) + m.after)) + v, seen)
         == Some((m.(next := EndObject), v))
    decreases m, 1
  {
    hide Print, ParseNode, ParseKey, SpaceLength, WellFormed, Stops, Spells, ScanScalar;
    var u := m.after + v;
    var t := m.beforeValue + (Print(m.value) + u);
    var k := m.key + (m.beforeColon + ([':'] + t));
    MemberJoins(m, m.before + k, t, u, v);
    assert k[0] == m.key[0];
    SpaceAt(m.before, k);
    KeyParsed(m.key, m.name, m.beforeColon, t, seen);
    AfterValue(m.beforeValue, m.value, m.after, v);
    PrintedIsParsed(m.value, u);
  }

  lemma {:induction false} MembersParsed(m: Members, rest: string, seen: set<CodePoints>)
    requires m.Member? && WellFormedMembers(m) && Keys(m) !! seen
    ensures ParseMembers(PrintMembers(m) + rest, seen) == Some((m, rest))
    decreases m, 2
  {
    hide Head, Print, ParseMember, Stops, WellFormed, WellFormedFrame, IsSpace;
    var v := MembersTail(m.next) + rest;
    TailJoins(Head(m) + (Print(m.value) + m.after), MembersTail(m.next), v, rest,
              (Head(m) + (Print(m.value) + m.after)) + v);
    TailStops(m.next, rest);
    TailSplits(m.next, rest);
    MemberParsed(m, v, seen);
    if m.next.Member? {
      MembersParsed(m.next, rest, seen + {m.name});
    }
  }

  lemma Divide(c: char, text: string, rest: string)
    ensures var v := ([c] + text) + rest; v[0] == c && v[1..] == text + rest
  {
    assert ([c] + text) + rest == [c] + (text + rest);
  }

  lemma TailSplits(next: Members, rest: string)
    ensures var v := MembersTail(next) + rest;
            if next.EndObject? then v[0] == '}' && v[1..] == rest
            else v[0] == ',' && v[1..] == PrintMembers(next) + rest
  {
    if next.EndObject? { Divide('}', "", rest); } else { Divide(',', PrintMembers(next), rest); }
  }

  lemma ItemsTailSplits(next: Items, rest: string)
    ensures var v := ItemsTail(next) + rest;
            if next.EndArray? then v[0] == ']' && v[1..] == rest
            else v[0] == ',' && v[1..] == PrintItems(next) + rest
  {
    if next.EndArray? { Divide(']', "", rest); } else { Divide(',', PrintItems(next), rest); }
  }

  lemma {:induction false} ItemParsed(i: Items, v: string)
    requires i.Item? && AllSpace(i.before) && AllSpace(i.after) && WellFormed(i.value)
    requires v != "" && Stops(v) && !IsSpace(v[0])
    ensures ParseItem((i.before + (Print(i.value) + i.after)) + v) == Some((i.(next := EndArray), v))
    decreases i, 1
  {
    var u := i.after + v;
    assert (i.before + (Print(i.value) + i.after)) + v == i.before + (Print(i.value) + u);
    AfterValue(i.before, i.value, i.after, v);
    PrintedIsParsed(i.value, u);
  }

  lemma {:induction false} ItemsParsed(i: Items, rest: string)
    requires i.Item? && WellFormedItems(i)
    ensures ParseItems(PrintItems(i) + rest) == Some((i, rest))
    decreases i, 2
  {
    hide Print, ParseItem, Stops, WellFormed, IsSpace;
    var v := ItemsTail(i.next) + rest;
    TailJoins(i.before + (Print(i.value) + i.after), ItemsTail(i.next), v, rest,
              (i.before + (Print(i.value) + i.after)) + v);
    ItemsTailStops(i.next, rest);
    ItemsTailSplits(i.next, rest);
    ItemParsed(i, v);
    if i.next.Item? {
      ItemsParsed(i.next, rest);
    }
  }

  // ---- Main results ------------------------------------------------------------------------------

  /** A text is accepted with a document exactly when the document is well formed and prints as the text. */
  lemma AcceptsExactlyPrints(text: string, doc: Document)
    ensures ParseDocument(text) == Some(doc) <==> WellFormedDocument(doc) && PrintDocument(doc) == text
  {
    if ParseDocument(text) == Some(doc) {
      SkipSplits(text);
      ParsedIsPrinted(Skip(text));
      SkipSplits(doc.after);
    }
    if WellFormedDocument(doc) && PrintDocument(doc) == text {
      PrintStart(doc.root);
      assert (Print(doc.root) + doc.after)[0] == Print(doc.root)[0];
      SpaceAt(doc.before, Print(doc.root) + doc.after);
      SpaceStops(doc.after, "");
      assert doc.after + "" == doc.after;
      PrintedIsParsed(doc.root, doc.after);
      SpaceAt(doc.after, "");
    }
  }
}

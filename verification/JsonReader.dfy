/**
 * The parser of scripts/version_plan.py in its own form: index loops that fill a table of spans.
 * Between the loops and the concrete syntax of Json stands a recursive reader that carries the
 * same accumulators as the loops.
 */
module JsonReader {
  import opened Wrappers
  import opened Json
  import opened JsonRoundTrip

  // ---- The reader --------------------------------------------------------------------------------

  type Reading = Option<(Value, string, Spans)>

  /** The value at the start of s, the end of a text of a total length: tree, rest and new spans. */
  function ReadNode(s: string, total: nat, path: Path): (r: Reading)
    requires |s| <= total
    ensures r.Some? ==> |r.value.1| < |s|
    decreases |s|, 0
  {
    if s == "" then None
    else if s[0] == '{' then ReadObject(s[1..], total, path)
    else if s[0] == '[' then ReadArray(s[1..], total, path)
    else ReadScalar(s, total, path)
  }

  function ReadScalar(s: string, total: nat, path: Path): (r: Reading)
    requires |s| <= total
    ensures r.Some? ==> |r.value.1| < |s|
  {
    var scalar := ScanScalar(s);
    if scalar.None? then None
    else
      var start := total - |s|;
      Some((scalar.value.0, s[scalar.value.1..], map[path := (start, start + scalar.value.1)]))
  }

  function ReadObject(s: string, total: nat, path: Path): (r: Reading)
    requires |s| <= total
    ensures r.Some? ==> |r.value.1| < |s|
    decreases |s|, 3
  {
    var t := Skip(s);
    if t != "" && t[0] == '}' then Some((JObject(map[]), t[1..], map[]))
    else
      var members := ReadMembers(s, total, path, {});
      if members.None? then None
      else Some((JObject(members.value.0), members.value.1, members.value.2))
  }

  /** One member up to its delimiter: name, value, the rest from the delimiter on, new spans. */
  function ReadMember(s: string, total: nat, path: Path, seen: set<CodePoints>):
    (r: Option<(CodePoints, Value, string, Spans)>)
    requires |s| <= total
    ensures r.Some? ==> |r.value.2| < |s|
    decreases |s|, 1
  {
    var key := ParseKey(Skip(s), seen);
    if key.None? then None
    else
      var (_, name, _, t) := key.value;
      var value := ReadNode(Skip(t), total, path + [Key(name)]);
      if value.None? then None
      else Some((name, value.value.0, Skip(value.value.1), value.value.2))
  }

  /** The members from here to the closing brace, given the keys already seen. */
  function ReadMembers(s: string, total: nat, path: Path, seen: set<CodePoints>):
    (r: Option<(map<CodePoints, Value>, string, Spans)>)
    requires |s| <= total
    ensures r.Some? ==> |r.value.1| < |s|
    decreases |s|, 2
  {
    var member := ReadMember(s, total, path, seen);
    if member.None? then None
    else
      var (name, value, v, more) := member.value;
      if v == "" then None
      else if v[0] == '}' then Some((map[name := value], v[1..], more))
      else if v[0] != ',' then None
      else
        var tail := ReadMembers(v[1..], total, path, seen + {name});
        if tail.None? then None
        else Some((map[name := value] + tail.value.0, tail.value.1, more + tail.value.2))
  }

  function ReadArray(s: string, total: nat, path: Path): (r: Reading)
    requires |s| <= total
    ensures r.Some? ==> |r.value.1| < |s|
    decreases |s|, 3
  {
    var t := Skip(s);
    if t != "" && t[0] == ']' then Some((JArray([]), t[1..], map[]))
    else
      var items := ReadItems(s, total, path, 0);
      if items.None? then None
      else Some((JArray(items.value.0), items.value.1, items.value.2))
  }

  function ReadItem(s: string, total: nat, path: Path): (r: Reading)
    requires |s| <= total
    ensures r.Some? ==> |r.value.1| < |s|
    decreases |s|, 1
  {
    var value := ReadNode(Skip(s), total, path);
    if value.None? then None else Some((value.value.0, Skip(value.value.1), value.value.2))
  }

  function ReadItems(s: string, total: nat, path: Path, index: nat): (r: Option<(seq<Value>, string, Spans)>)
    requires |s| <= total
    ensures r.Some? ==> |r.value.1| < |s|
    decreases |s|, 2
  {
    var item := ReadItem(s, total, path + [Index(index)]);
    if item.None? then None
    else
      var (value, v, more) := item.value;
      if v == "" then None
      else if v[0] == ']' then Some(([value], v[1..], more))
      else if v[0] != ',' then None
      else
        var tail := ReadItems(v[1..], total, path, index + 1);
        if tail.None? then None
        else Some(([value] + tail.value.0, tail.value.1, more + tail.value.2))
  }

  // ---- The reader computes tree and spans of the parsed syntax ---------------------------------------

  lemma NodeLength(s: string)
    requires ParseNode(s).Some?
    ensures |Print(ParseNode(s).value.0)| + |ParseNode(s).value.1| == |s|
  {
    ParsedIsPrinted(s);
  }

  lemma MemberLength(s: string, seen: set<CodePoints>)
    requires ParseMember(s, seen).Some?
    ensures var (m, v) := ParseMember(s, seen).value;
            NextOffset(m) - 1 + |v| == |s| && |s| - |Skip(ParseKey(Skip(s), seen).value.3)| == ValueOffset(m)
  {
    MemberPrinted(s, seen);
    var t := Skip(ParseKey(Skip(s), seen).value.3);
    NodeLength(t);
    SkipSplits(ParseNode(t).value.1);
  }

  lemma ItemLength(s: string)
    requires ParseItem(s).Some?
    ensures var (i, v) := ParseItem(s).value; ItemOffset(i) - 1 + |v| == |s|
  {
    ItemPrinted(s);
  }

  predicate Reads(reading: Reading, parsed: Option<(Node, string)>, at: nat, path: Path) {
    match parsed
    case None => reading.None?
    case Some((node, rest)) => reading == Some((Tree(node), rest, SpansOf(node, at, path)))
  }

  predicate ReadsOneMember(reading: Option<(CodePoints, Value, string, Spans)>, parsed: Option<(Members, string)>,
                           at: nat, path: Path)
    requires parsed.Some? ==> parsed.value.0.Member?
  {
    match parsed
    case None => reading.None?
    case Some((m, v)) =>
      reading == Some((m.name, Tree(m.value), v, SpansOf(m.value, at + ValueOffset(m), path + [Key(m.name)])))
  }

  predicate ReadsAllMembers(reading: Option<(map<CodePoints, Value>, string, Spans)>, parsed: Option<(Members, string)>,
                            at: nat, path: Path)
  {
    match parsed
    case None => reading.None?
    case Some((m, rest)) => reading == Some((Fields(m), rest, MemberSpans(m, at, path)))
  }

  predicate ReadsOneItem(reading: Reading, parsed: Option<(Items, string)>, at: nat, path: Path)
    requires parsed.Some? ==> parsed.value.0.Item?
  {
    match parsed
    case None => reading.None?
    case Some((i, v)) => reading == Some((Tree(i.value), v, SpansOf(i.value, at + |i.before|, path)))
  }

  predicate ReadsAllItems(reading: Option<(seq<Value>, string, Spans)>, parsed: Option<(Items, string)>,
                          at: nat, path: Path, index: nat)
  {
    match parsed
    case None => reading.None?
    case Some((i, rest)) => reading == Some((Elements(i), rest, ItemSpans(i, at, path, index)))
  }

  lemma {:induction false} ReadsNode(s: string, total: nat, path: Path)
    requires |s| <= total
    ensures Reads(ReadNode(s, total, path), ParseNode(s), total - |s|, path)
    decreases |s|, 0
  {
    hide ScanScalar, ParseKey, SpaceLength;
    if s != "" && s[0] == '{' {
      ReadsObject(s[1..], total, path);
    } else if s != "" && s[0] == '[' {
      ReadsArray(s[1..], total, path);
    }
  }

  lemma {:induction false} ReadsObject(s: string, total: nat, path: Path)
    requires |s| < total
    ensures Reads(ReadObject(s, total, path), ParseObject(s), total - |s| - 1, path)
    decreases |s|, 3
  {
    ReadsMembers(s, total, path, {});
  }

  lemma {:induction false} ReadsArray(s: string, total: nat, path: Path)
    requires |s| < total
    ensures Reads(ReadArray(s, total, path), ParseArray(s), total - |s| - 1, path)
    decreases |s|, 3
  {
    ReadsItems(s, total, path, 0);
  }

  lemma {:induction false} ReadsMember(s: string, total: nat, path: Path, seen: set<CodePoints>)
    requires |s| <= total
    ensures ReadsOneMember(ReadMember(s, total, path, seen), ParseMember(s, seen), total - |s|, path)
    decreases |s|, 1
  {
    hide ScanScalar, ParseKey, SpaceLength;
    var key := ParseKey(Skip(s), seen);
    if key.Some? {
      var (_, name, _, t) := key.value;
      ReadsNode(Skip(t), total, path + [Key(name)]);
      ReadsValue(s, total, path, seen, name, t);
    }
  }

  lemma ReadsValue(s: string, total: nat, path: Path, seen: set<CodePoints>, name: CodePoints, t: string)
    requires |s| <= total && ParseKey(Skip(s), seen).Some?
    requires ParseKey(Skip(s), seen).value.1 == name && ParseKey(Skip(s), seen).value.3 == t
    requires Reads(ReadNode(Skip(t), total, path + [Key(name)]), ParseNode(Skip(t)), total - |Skip(t)|, path + [Key(name)])
    ensures ReadsOneMember(ReadMember(s, total, path, seen), ParseMember(s, seen), total - |s|, path)
  {
    hide ScanScalar, ParseKey, SpaceLength;
    if ParseNode(Skip(t)).Some? {
      var (node, u) := ParseNode(Skip(t)).value;
      var (m, v) := ParseMember(s, seen).value;
      assert m.value == node && m.name == name && v == Skip(u);
      MemberLength(s, seen);
      assert total - |s| + ValueOffset(m) == total - |Skip(t)|;
      assert ReadMember(s, total, path, seen)
          == Some((name, Tree(node), Skip(u), SpansOf(node, total - |Skip(t)|, path + [Key(name)])));
    }
  }

  lemma {:induction false} ReadsItem(s: string, total: nat, path: Path)
    requires |s| <= total
    ensures ReadsOneItem(ReadItem(s, total, path), ParseItem(s), total - |s|, path)
    decreases |s|, 1
  {
    hide ScanScalar, SpaceLength, ReadNode, ParseNode, Tree, SpansOf;
    ReadsNode(Skip(s), total, path);
  }

  lemma NothingAdded<A, B>(a: map<A, B>)
    ensures a + map[] == a && map[] + a == a
  {
  }

  lemma {:induction false} ReadsMembers(s: string, total: nat, path: Path, seen: set<CodePoints>)
    requires |s| <= total
    ensures ReadsAllMembers(ReadMembers(s, total, path, seen), ParseMembers(s, seen), total - |s|, path)
    decreases |s|, 2
  {
    hide ScanScalar, ParseKey, SpaceLength, ParseMember, ReadMember, Tree, SpansOf, Fields, MemberSpans;
    ReadsMember(s, total, path, seen);
    var member := ParseMember(s, seen);
    if member.Some? && member.value.1 != "" {
      var (m, v) := member.value;
      if v[0] == ',' {
        ReadsMembers(v[1..], total, path, seen + {m.name});
        ReadsComma(s, total, path, seen, m, v);
      } else if v[0] == '}' {
        ReadsBrace(s, total, path, seen, m, v);
      }
    }
  }

  /** A turn of the member loop that stops at a comma, in the parser and in the reader. */
  lemma CommaTurn(s: string, total: nat, path: Path, seen: set<CodePoints>, m: Members, v: string,
                  value: Value, spans: Spans)
    requires |v| < |s| <= total && v != "" && v[0] == ','
    requires ParseMember(s, seen) == Some((m, v)) && m.Member?
    requires ReadMember(s, total, path, seen) == Some((m.name, value, v, spans))
    ensures var tail := ParseMembers(v[1..], seen + {m.name});
            ParseMembers(s, seen) == if tail.None? then None else Some((m.(next := tail.value.0), tail.value.1))
    ensures var tail := ReadMembers(v[1..], total, path, seen + {m.name});
            ReadMembers(s, total, path, seen) ==
              if tail.None? then None
              else Some((map[m.name := value] + tail.value.0, tail.value.1, spans + tail.value.2))
  {
    hide ScanScalar, ParseKey, SpaceLength;
  }

  lemma JoinMember(m: Members, tail: Option<(Members, string)>, reading: Option<(map<CodePoints, Value>, string, Spans)>,
                   at: nat, path: Path)
    requires m.Member? && ReadsAllMembers(reading, tail, at + NextOffset(m), path)
    ensures ReadsAllMembers(
              if reading.None? then None
              else Some((map[m.name := Tree(m.value)] + reading.value.0, reading.value.1,
                         SpansOf(m.value, at + ValueOffset(m), path + [Key(m.name)]) + reading.value.2)),
              if tail.None? then None else Some((m.(next := tail.value.0), tail.value.1)), at, path)
  {
    hide SpansOf, MemberSpans, Tree, Fields, ValueOffset, NextOffset;
    if tail.Some? { MemberInFront(m, tail.value.0, at, path); }
  }

  lemma ReadsComma(s: string, total: nat, path: Path, seen: set<CodePoints>, m: Members, v: string)
    requires |v| < |s| <= total && ParseMember(s, seen) == Some((m, v)) && m.Member? && v != "" && v[0] == ','
    requires ReadsOneMember(ReadMember(s, total, path, seen), ParseMember(s, seen), total - |s|, path)
    requires ReadsAllMembers(ReadMembers(v[1..], total, path, seen + {m.name}),
                             ParseMembers(v[1..], seen + {m.name}), total - |v[1..]|, path)
    ensures ReadsAllMembers(ReadMembers(s, total, path, seen), ParseMembers(s, seen), total - |s|, path)
  {
    hide ParseMember, ParseMembers, ReadMember, ReadMembers, SpansOf, MemberSpans, Tree, Fields, ValueOffset, NextOffset,
         ReadsAllMembers;
    CommaTurn(s, total, path, seen, m, v, Tree(m.value),
              SpansOf(m.value, total - |s| + ValueOffset(m), path + [Key(m.name)]));
    MemberLength(s, seen);
    JoinMember(m, ParseMembers(v[1..], seen + {m.name}), ReadMembers(v[1..], total, path, seen + {m.name}),
               total - |s|, path);
  }

  lemma ReadsBrace(s: string, total: nat, path: Path, seen: set<CodePoints>, m: Members, v: string)
    requires |v| < |s| <= total && ParseMember(s, seen) == Some((m, v)) && v != "" && v[0] == '}'
    requires m.Member? && m.next.EndObject?
    requires ReadsOneMember(ReadMember(s, total, path, seen), ParseMember(s, seen), total - |s|, path)
    ensures ReadsAllMembers(ReadMembers(s, total, path, seen), ParseMembers(s, seen), total - |s|, path)
  {
    hide ScanScalar, ParseKey, SpaceLength;
    assert ParseMembers(s, seen) == Some((m, v[1..]));
    MemberInFront(m, EndObject, total - |s|, path);
    assert m.(next := EndObject) == m;
    NothingAdded(map[m.name := Tree(m.value)]);
    NothingAdded(SpansOf(m.value, total - |s| + ValueOffset(m), path + [Key(m.name)]));
  }

  lemma MemberInFront(m: Members, next: Members, at: nat, path: Path)
    requires m.Member?
    ensures Fields(m.(next := next)) == map[m.name := Tree(m.value)] + Fields(next)
    ensures MemberSpans(m.(next := next), at, path)
         == SpansOf(m.value, at + ValueOffset(m), path + [Key(m.name)]) + MemberSpans(next, at + NextOffset(m), path)
  {
  }

  lemma ItemsTurn(s: string, total: nat, path: Path, index: nat, i: Items, v: string, value: Value, spans: Spans)
    requires |v| < |s| <= total && v != ""
    requires ParseItem(s) == Some((i, v)) && i.Item?
    requires ReadItem(s, total, path + [Index(index)]) == Some((value, v, spans))
    ensures v[0] == ',' ==>
              var tail := ParseItems(v[1..]);
              ParseItems(s) == if tail.None? then None else Some((i.(next := tail.value.0), tail.value.1))
    ensures v[0] == ',' ==>
              var tail := ReadItems(v[1..], total, path, index + 1);
              ReadItems(s, total, path, index) ==
                if tail.None? then None
                else Some(([value] + tail.value.0, tail.value.1, spans + tail.value.2))
    ensures v[0] == ']' ==> ParseItems(s) == Some((i, v[1..]))
                            && ReadItems(s, total, path, index) == Some(([value], v[1..], spans))
    ensures v[0] != ',' && v[0] != ']' ==> ParseItems(s).None? && ReadItems(s, total, path, index).None?
  {
    hide ScanScalar, ParseNode, ReadNode, SpaceLength, ParseItem, ReadItem;
  }

  lemma ItemInFront(i: Items, next: Items, at: nat, path: Path, index: nat)
    requires i.Item?
    ensures Elements(i.(next := next)) == [Tree(i.value)] + Elements(next)
    ensures ItemSpans(i.(next := next), at, path, index)
         == SpansOf(i.value, at + |i.before|, path + [Index(index)])
            + ItemSpans(next, at + ItemOffset(i), path, index + 1)
  {
  }

  lemma {:induction false} ReadsItems(s: string, total: nat, path: Path, index: nat)
    requires |s| <= total
    ensures ReadsAllItems(ReadItems(s, total, path, index), ParseItems(s), total - |s|, path, index)
    decreases |s|, 2
  {
    hide ScanScalar, ParseNode, ReadNode, SpaceLength, ParseItem, ReadItem;
    ReadsItem(s, total, path + [Index(index)]);
    var item := ParseItem(s);
    if item.Some? && item.value.1 != "" {
      var (i, v) := item.value;
      var spans := SpansOf(i.value, total - |s| + |i.before|, path + [Index(index)]);
      ItemLength(s);
      ItemsTurn(s, total, path, index, i, v, Tree(i.value), spans);
      if v[0] == ',' {
        ReadsItems(v[1..], total, path, index + 1);
        ReadsNextItems(s, total, path, index, i, v, spans);
      } else {
        ItemInFront(i, EndArray, total - |s|, path, index);
        NothingAdded(spans);
        assert i.(next := EndArray) == i && [Tree(i.value)] + [] == [Tree(i.value)];
      }
    }
  }

  lemma ReadsNextItems(s: string, total: nat, path: Path, index: nat, i: Items, v: string, spans: Spans)
    requires |v| < |s| <= total && v != "" && v[0] == ','
    requires ParseItem(s) == Some((i, v)) && i.Item? && ItemOffset(i) - 1 + |v| == |s|
    requires spans == SpansOf(i.value, total - |s| + |i.before|, path + [Index(index)])
    requires ReadItem(s, total, path + [Index(index)]) == Some((Tree(i.value), v, spans))
    requires ReadsAllItems(ReadItems(v[1..], total, path, index + 1), ParseItems(v[1..]), total - |v[1..]|, path, index + 1)
    ensures ReadsAllItems(ReadItems(s, total, path, index), ParseItems(s), total - |s|, path, index)
  {
    hide ParseItem, ParseItems, ReadItem, ReadItems, SpansOf, ItemSpans, Tree, Elements;
    ItemsTurn(s, total, path, index, i, v, Tree(i.value), spans);
    var tail := ParseItems(v[1..]);
    if tail.Some? {
      ItemInFront(i, tail.value.0, total - |s|, path, index);
    }
  }

  // ---- The loops -------------------------------------------------------------------------------------

  type MemberReading = Option<(map<CodePoints, Value>, string, Spans)>

  type ItemReading = Option<(seq<Value>, string, Spans)>

  /** What has been collected, and what is still to be read. */
  function WithMembers(result: map<CodePoints, Value>, gathered: Spans, reading: MemberReading): MemberReading {
    if reading.None? then None
    else Some((result + reading.value.0, reading.value.1, gathered + reading.value.2))
  }

  function WithItems(result: seq<Value>, gathered: Spans, reading: ItemReading): ItemReading {
    if reading.None? then None
    else Some((result + reading.value.0, reading.value.1, gathered + reading.value.2))
  }

  lemma MembersAlone(reading: MemberReading)
    ensures WithMembers(map[], map[], reading) == reading
  {
    if reading.Some? {
      NothingAdded(reading.value.0);
      NothingAdded(reading.value.2);
    }
  }

  lemma ItemsAlone(reading: ItemReading)
    ensures WithItems([], map[], reading) == reading
  {
    if reading.Some? {
      assert [] + reading.value.0 == reading.value.0;
      NothingAdded(reading.value.2);
    }
  }

  lemma MergeLater<A, B>(a: map<A, B>, b: map<A, B>, c: map<A, B>)
    ensures a + (b + c) == (a + b) + c
  {
  }

  lemma MemberCollected(s: string, total: nat, path: Path, result: map<CodePoints, Value>, gathered: Spans,
                        name: CodePoints, value: Value, v: string, spans: Spans)
    requires |v| < |s| <= total && v != ""
    requires ReadMember(s, total, path, result.Keys) == Some((name, value, v, spans))
    ensures result[name := value].Keys == result.Keys + {name}
    ensures var whole := WithMembers(result, gathered, ReadMembers(s, total, path, result.Keys));
            if v[0] == '}' then whole == Some((result[name := value], v[1..], gathered + spans))
            else if v[0] != ',' then whole.None?
            else whole == WithMembers(result[name := value], gathered + spans,
                                      ReadMembers(v[1..], total, path, result.Keys + {name}))
  {
    hide ReadMember, ScanScalar, SpaceLength;
    assert result + map[name := value] == result[name := value];
    if v[0] == ',' {
      var tail := ReadMembers(v[1..], total, path, result.Keys + {name});
      if tail.Some? {
        MergeLater(result, map[name := value], tail.value.0);
        MergeLater(gathered, spans, tail.value.2);
      }
    }
  }

  lemma ItemCollected(s: string, total: nat, path: Path, result: seq<Value>, gathered: Spans,
                      value: Value, v: string, spans: Spans)
    requires |v| < |s| <= total && v != ""
    requires ReadItem(s, total, path + [Index(|result|)]) == Some((value, v, spans))
    ensures var whole := WithItems(result, gathered, ReadItems(s, total, path, |result|));
            if v[0] == ']' then whole == Some((result + [value], v[1..], gathered + spans))
            else if v[0] != ',' then whole.None?
            else whole == WithItems(result + [value], gathered + spans, ReadItems(v[1..], total, path, |result| + 1))
  {
    hide ReadItem, ScanScalar, SpaceLength;
    if v[0] == ',' {
      var tail := ReadItems(v[1..], total, path, |result| + 1);
      if tail.Some? {
        assert result + ([value] + tail.value.0) == (result + [value]) + tail.value.0;
        MergeLater(gathered, spans, tail.value.2);
      }
    }
  }

  lemma NodeStart(s: string, total: nat, path: Path)
    requires |s| <= total
    ensures s == "" ==> ReadNode(s, total, path).None?
    ensures s != "" ==>
              ReadNode(s, total, path) == if s[0] == '{' then ReadObject(s[1..], total, path)
                                          else if s[0] == '[' then ReadArray(s[1..], total, path)
                                          else ReadScalar(s, total, path)
  {
  }

  lemma ObjectStart(s: string, total: nat, path: Path)
    requires |s| <= total
    ensures var t, members := Skip(s), ReadMembers(s, total, path, {});
            ReadObject(s, total, path) ==
              if t != "" && t[0] == '}' then Some((JObject(map[]), t[1..], map[]))
              else if members.None? then None
              else Some((JObject(members.value.0), members.value.1, members.value.2))
  {
  }

  lemma ArrayStart(s: string, total: nat, path: Path)
    requires |s| <= total
    ensures var t, items := Skip(s), ReadItems(s, total, path, 0);
            ReadArray(s, total, path) ==
              if t != "" && t[0] == ']' then Some((JArray([]), t[1..], map[]))
              else if items.None? then None
              else Some((JArray(items.value.0), items.value.1, items.value.2))
  {
  }

  lemma NoKey(s: string, seen: set<CodePoints>)
    requires var key := ScanScalar(s); key.None? || !key.value.0.JString? || key.value.0.text in seen
    ensures ParseKey(s, seen).None?
  {
  }

  lemma KeyFound(text: string, i: nat, end: nat, colon: nat, seen: set<CodePoints>)
    requires i <= end <= colon < |text| && ScanScalar(text[i..]).Some?
    requires var (key, length) := ScanScalar(text[i..]).value; key.JString? && key.text !in seen && end == i + length
    requires text[colon..] == Skip(text[end..]) && text[colon] == ':'
    ensures ParseKey(text[i..], seen).Some?
    ensures var (_, name, _, rest) := ParseKey(text[i..], seen).value;
            name == ScanScalar(text[i..]).value.0.text && rest == text[colon + 1..]
  {
    assert text[i..][end - i..] == text[end..];
    assert text[colon..][1..] == text[colon + 1..];
  }

  lemma KeyRefused(text: string, i: nat, end: nat, colon: nat, seen: set<CodePoints>)
    requires i <= end <= colon <= |text| && ScanScalar(text[i..]).Some?
    requires end == i + ScanScalar(text[i..]).value.1
    requires text[colon..] == Skip(text[end..]) && (colon < |text| ==> text[colon] != ':')
    ensures ParseKey(text[i..], seen).None?
  {
    assert text[i..][end - i..] == text[end..];
  }

  lemma MemberRefused(s: string, total: nat, path: Path, seen: set<CodePoints>)
    requires |s| <= total && ParseKey(Skip(s), seen).None?
    ensures ReadMember(s, total, path, seen).None?
  {
  }

  /** A member that is refused, or behind which the text ends, ends the reading. */
  lemma MembersRefused(s: string, total: nat, path: Path, seen: set<CodePoints>)
    requires |s| <= total
    requires ReadMember(s, total, path, seen).None? || ReadMember(s, total, path, seen).value.2 == ""
    ensures ReadMembers(s, total, path, seen).None?
  {
    hide ReadMember;
  }

  lemma MemberRead(s: string, total: nat, path: Path, seen: set<CodePoints>, name: CodePoints, t: string)
    requires |t| < |s| <= total && ParseKey(Skip(s), seen).Some?
    requires name == ParseKey(Skip(s), seen).value.1 && t == ParseKey(Skip(s), seen).value.3
    ensures var reading := ReadNode(Skip(t), total, path + [Key(name)]);
            ReadMember(s, total, path, seen) ==
              if reading.None? then None
              else Some((name, reading.value.0, Skip(reading.value.1), reading.value.2))
  {
    hide ScanScalar, SpaceLength, ParseKey, ReadNode;
  }

  lemma ItemsRefused(s: string, total: nat, path: Path, index: nat)
    requires |s| <= total
    requires ReadItem(s, total, path + [Index(index)]).None? || ReadItem(s, total, path + [Index(index)]).value.1 == ""
    ensures ReadItems(s, total, path, index).None?
  {
    hide ReadNode, SpaceLength;
  }

  lemma SpaceOnce(s: string)
    ensures Skip(Skip(s)) == Skip(s)
  {
  }

  class JsonDocument {
    const text: string
    var spans: Spans

    constructor (text: string)
      ensures this.text == text && spans == map[]
    {
      this.text := text;
      spans := map[];
    }

    method Whitespace(index: nat) returns (i: nat)
      requires index <= |text|
      ensures index <= i <= |text| && text[i..] == Skip(text[index..])
    {
      i := index;
      while i < |text| && IsSpace(text[i])
        invariant index <= i <= |text|
        invariant Skip(text[i..]) == Skip(text[index..])
      {
        assert text[i..][1..] == text[i + 1..];
        i := i + 1;
      }
    }

    /** The value, the index behind it, and the spans it adds are those of the reader. */
    ghost predicate Found(r: Option<(Value, nat)>, reading: Reading, before: Spans)
      reads this
    {
      match r
      case None => reading.None?
      case Some((value, end)) =>
        && end <= |text|
        && reading.Some? && reading.value.0 == value && reading.value.1 == text[end..]
        && spans == before + reading.value.2
    }

    method ParseAt(index: nat, path: Path) returns (r: Option<(Value, nat)>)
      requires index <= |text|
      modifies this`spans
      ensures Found(r, ReadNode(Skip(text[index..]), |text|, path), old(spans))
      ensures r.Some? ==> index < r.value.1
      decreases |text| - index, 1
    {
      hide ReadNode, ReadObject, ReadArray, ScanScalar, SpaceLength, Skip;
      NodeStart(Skip(text[index..]), |text|, path);
      var i := Whitespace(index);
      if i == |text| {
        return None;
      }
      assert text[i..][1..] == text[i + 1..];
      if text[i] == '{' {
        r := ObjectAt(i, path);
      } else if text[i] == '[' {
        r := ArrayAt(i, path);
      } else {
        var scalar := ScanScalar(text[i..]);
        if scalar.None? {
          return None;
        }
        var end := i + scalar.value.1;
        assert text[i..][scalar.value.1..] == text[end..];
        spans := spans[path := (i, end)];
        assert spans == old(spans) + map[path := (i, end)];
        return Some((scalar.value.0, end));
      }
    }

    method ObjectAt(index: nat, path: Path) returns (r: Option<(Value, nat)>)
      requires index < |text| && text[index] == '{'
      modifies this`spans
      ensures Found(r, ReadObject(text[index + 1..], |text|, path), old(spans))
      ensures r.Some? ==> index < r.value.1
      decreases |text| - index, 0
    {
      hide ScanScalar, SpaceLength, Skip, ParseKey, ReadNode, ReadObject, ReadMember, ReadMembers;
      ObjectStart(text[index + 1..], |text|, path);
      var result := map[];
      var i := Whitespace(index + 1);
      if i < |text| && text[i] == '}' {
        return Some((JObject(result), i + 1));
      }
      ghost var from, gathered := index + 1, map[];
      ghost var whole := ReadMembers(text[index + 1..], |text|, path, {});
      MembersAlone(whole);
      NothingAdded(spans);
      assert result.Keys == {};
      while true
        invariant index < from <= i <= |text| && text[i..] == Skip(text[from..])
        invariant spans == old(spans) + gathered
        invariant whole == WithMembers(result, gathered, ReadMembers(text[from..], |text|, path, result.Keys))
        decreases |text| - i
      {
        var member := MemberAt(from, i, path, result);
        if member.None? || member.value.2 == |text| {
          MembersRefused(text[from..], |text|, path, result.Keys);
          return None;
        }
        var (name, value, end) := member.value;
        ghost var added := ReadMember(text[from..], |text|, path, result.Keys).value.3;
        assert text[end..][1..] == text[end + 1..];
        MemberCollected(text[from..], |text|, path, result, gathered, name, value, text[end..], added);
        MergeLater(old(spans), gathered, added);
        result, gathered := result[name := value], gathered + added;
        if text[end] == '}' {
          return Some((JObject(result), end + 1));
        }
        if text[end] != ',' {
          return None;
        }
        from := end + 1;
        i := Whitespace(end + 1);
      }
    }

    /** One turn of the loop of ObjectAt, from the key to the delimiter behind the value. */
    method MemberAt(ghost from: nat, index: nat, path: Path, result: map<CodePoints, Value>)
      returns (r: Option<(CodePoints, Value, nat)>)
      requires from <= index <= |text| && text[index..] == Skip(text[from..])
      modifies this`spans
      ensures match r
              case None => ReadMember(text[from..], |text|, path, result.Keys).None?
              case Some((name, value, end)) =>
                && index < end <= |text|
                && ReadMember(text[from..], |text|, path, result.Keys).Some?
                && var reading := ReadMember(text[from..], |text|, path, result.Keys).value;
                && reading.0 == name && reading.1 == value && reading.2 == text[end..]
                && spans == old(spans) + reading.3
      decreases |text| - index
    {
      hide ScanScalar, SpaceLength, Skip, ParseKey, ReadNode, ReadMember;
      var key := ScanScalar(text[index..]);
      if key.None? || !key.value.0.JString? || key.value.0.text in result {
        NoKey(text[index..], result.Keys);
        MemberRefused(text[from..], |text|, path, result.Keys);
        return None;
      }
      var name := key.value.0.text;
      var colon := Whitespace(index + key.value.1);
      if colon == |text| || text[colon] != ':' {
        KeyRefused(text, index, index + key.value.1, colon, result.Keys);
        MemberRefused(text[from..], |text|, path, result.Keys);
        return None;
      }
      KeyFound(text, index, index + key.value.1, colon, result.Keys);
      MemberRead(text[from..], |text|, path, result.Keys, name, text[colon + 1..]);
      var found := ParseAt(colon + 1, path + [Key(name)]);
      if found.None? {
        return None;
      }
      var end := Whitespace(found.value.1);
      return Some((name, found.value.0, end));
    }

    method ArrayAt(index: nat, path: Path) returns (r: Option<(Value, nat)>)
      requires index < |text| && text[index] == '['
      modifies this`spans
      ensures Found(r, ReadArray(text[index + 1..], |text|, path), old(spans))
      ensures r.Some? ==> index < r.value.1
      decreases |text| - index, 0
    {
      hide ScanScalar, SpaceLength, Skip, ReadNode, ReadArray, ReadItems;
      ArrayStart(text[index + 1..], |text|, path);
      var result := [];
      var i := Whitespace(index + 1);
      if i < |text| && text[i] == ']' {
        return Some((JArray(result), i + 1));
      }
      ghost var from, gathered := index + 1, map[];
      ghost var whole := ReadItems(text[index + 1..], |text|, path, 0);
      ItemsAlone(whole);
      NothingAdded(spans);
      while true
        invariant index < from <= i <= |text| && text[i..] == Skip(text[from..])
        invariant spans == old(spans) + gathered
        invariant whole == WithItems(result, gathered, ReadItems(text[from..], |text|, path, |result|))
        decreases |text| - i
      {
        SpaceOnce(text[from..]);
        var found := ParseAt(i, path + [Index(|result|)]);
        if found.None? {
          ItemsRefused(text[from..], |text|, path, |result|);
          return None;
        }
        ghost var added := ReadNode(text[i..], |text|, path + [Index(|result|)]).value.2;
        var value, behind := found.value.0, found.value.1;
        i := Whitespace(behind);
        if i == |text| {
          ItemsRefused(text[from..], |text|, path, |result|);
          return None;
        }
        assert ReadItem(text[from..], |text|, path + [Index(|result|)]) == Some((value, text[i..], added));
        assert text[i..][1..] == text[i + 1..];
        ItemCollected(text[from..], |text|, path, result, gathered, value, text[i..], added);
        MergeLater(old(spans), gathered, added);
        result, gathered := result + [value], gathered + added;
        if text[i] == ']' {
          return Some((JArray(result), i + 1));
        }
        if text[i] != ',' {
          return None;
        }
        from := i + 1;
        i := Whitespace(i + 1);
      }
    }
  }

  /** The whole text: exactly the tree and the spans of its concrete syntax, or nothing. */
  method Load(text: string) returns (r: Option<(Value, Spans)>)
    ensures match ParseDocument(text)
            case None => r.None?
            case Some(doc) => r == Some((Tree(doc.root), DocumentSpans(doc)))
  {
    hide ScanScalar, ParseNode, ReadNode, SpansOf, Tree;
    var document := new JsonDocument(text);
    var found := document.ParseAt(0, []);
    assert text[0..] == text;
    ReadsNode(Skip(text), |text|, []);
    assert |Space(text)| == |text| - |Skip(text)|;
    if found.None? {
      return None;
    }
    var end := document.Whitespace(found.value.1);
    if end != |text| {
      return None;
    }
    NothingAdded(ReadNode(Skip(text), |text|, []).value.2);
    r := Some((found.value.0, document.spans));
  }
}

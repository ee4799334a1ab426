/**
 * What writing a new token over recorded scalar spans does to a JSON text: the text outside
 * stays, and the tree changes at the spans' paths only.
 */
module JsonSplice {
  import opened Wrappers
  import opened Text
  import opened Json

  function Lookup(value: Value, path: Path): Option<Value>
    decreases |path|
  {
    if path == [] then Some(value)
    else
      match path[0]
      case Key(name) =>
        if value.JObject? && name in value.fields then Lookup(value.fields[name], path[1..]) else None
      case Index(i) =>
        if value.JArray? && i < |value.items| then Lookup(value.items[i], path[1..]) else None
  }

  /** The tree with another value at an existing path. */
  function Put(value: Value, path: Path, update: Value): Value
    decreases |path|
  {
    if path == [] then update
    else
      match path[0]
      case Key(name) =>
        if value.JObject? && name in value.fields
        then JObject(value.fields[name := Put(value.fields[name], path[1..], update)]) else value
      case Index(i) =>
        if value.JArray? && i < |value.items|
        then JArray(value.items[i := Put(value.items[i], path[1..], update)]) else value
  }

  // ---- Replacing one token in the syntax -----------------------------------------------------

  function Replace(node: Node, path: Path, token: string, decoded: Value): Node
    decreases node
  {
    match node
    case Scalar(_, _) => if path == [] then Scalar(token, decoded) else node
    case Object(members) =>
      if path != [] && path[0].Key? then Object(ReplaceMember(members, path[0].name, path[1..], token, decoded)) else node
    case Array(items) =>
      if path != [] && path[0].Index? then Array(ReplaceItem(items, path[0].index, path[1..], token, decoded)) else node
    case _ => node
  }

  function ReplaceMember(members: Members, name: CodePoints, path: Path, token: string, decoded: Value): (r: Members)
    ensures members.Member? <==> r.Member?
    decreases members
  {
    match members
    case EndObject => EndObject
    case Member(_, _, _, _, _, value, _, next) =>
      if members.name == name then members.(value := Replace(value, path, token, decoded))
      else members.(next := ReplaceMember(next, name, path, token, decoded))
  }

  function ReplaceItem(items: Items, index: nat, path: Path, token: string, decoded: Value): (r: Items)
    ensures items.Item? <==> r.Item?
    decreases items
  {
    match items
    case EndArray => EndArray
    case Item(_, value, _, next) =>
      if index == 0 then items.(value := Replace(value, path, token, decoded))
      else items.(next := ReplaceItem(next, index - 1, path, token, decoded))
  }

  lemma {:induction false} ReplaceWellFormed(node: Node, path: Path, token: string, decoded: Value)
    requires WellFormed(node) && Spells(token, decoded)
    ensures WellFormed(Replace(node, path, token, decoded))
    decreases node
  {
    match node
    case Object(members) =>
      if path != [] && path[0].Key? { ReplaceMemberWellFormed(members, path[0].name, path[1..], token, decoded); }
    case Array(items) =>
      if path != [] && path[0].Index? { ReplaceItemWellFormed(items, path[0].index, path[1..], token, decoded); }
    case _ =>
  }

  lemma {:induction false} ReplaceMemberWellFormed(members: Members, name: CodePoints, path: Path, token: string, decoded: Value)
    requires WellFormedMembers(members) && Spells(token, decoded)
    ensures WellFormedMembers(ReplaceMember(members, name, path, token, decoded))
    ensures Keys(ReplaceMember(members, name, path, token, decoded)) == Keys(members)
    decreases members
  {
    if members.Member? {
      ReplaceWellFormed(members.value, path, token, decoded);
      ReplaceMemberWellFormed(members.next, name, path, token, decoded);
    }
  }

  lemma {:induction false} ReplaceItemWellFormed(items: Items, index: nat, path: Path, token: string, decoded: Value)
    requires WellFormedItems(items) && Spells(token, decoded)
    ensures WellFormedItems(ReplaceItem(items, index, path, token, decoded))
    decreases items
  {
    if items.Item? {
      ReplaceWellFormed(items.value, path, token, decoded);
      if index > 0 { ReplaceItemWellFormed(items.next, index - 1, path, token, decoded); }
    }
  }

  // ---- Whose span is it -------------------------------------------------------------------------

  predicate Below(q: Path, path: Path) {
    |path| < |q| && q[..|path|] == path
  }

  lemma {:induction false} SpanPaths(node: Node, at: nat, path: Path, q: Path)
    requires WellFormed(node) && q in SpansOf(node, at, path)
    ensures path <= q && (node.Scalar? <==> q == path)
    ensures node.Object? ==> Below(q, path) && q[|path|].Key? && q[|path|].name in Keys(node.members)
    ensures node.Array? ==> Below(q, path) && q[|path|].Index?
    decreases node
  {
    match node
    case Object(members) => MemberSpanPaths(members, at + 1, path, q);
    case Array(items) => ItemSpanPaths(items, at + 1, path, 0, q);
    case _ =>
  }

  lemma {:induction false} MemberSpanPaths(members: Members, at: nat, path: Path, q: Path)
    requires WellFormedMembers(members) && q in MemberSpans(members, at, path)
    ensures Below(q, path) && q[|path|].Key? && q[|path|].name in Keys(members)
    ensures members.Member?
    ensures if q[|path|] == Key(members.name)
            then q in SpansOf(members.value, at + ValueOffset(members), path + [q[|path|]])
                 && MemberSpans(members, at, path)[q]
                    == SpansOf(members.value, at + ValueOffset(members), path + [q[|path|]])[q]
            else q in MemberSpans(members.next, at + NextOffset(members), path)
                 && MemberSpans(members, at, path)[q] == MemberSpans(members.next, at + NextOffset(members), path)[q]
    decreases members
  {
    var name := Key(members.name);
    if q in MemberSpans(members.next, at + NextOffset(members), path) {
      MemberSpanPaths(members.next, at + NextOffset(members), path, q);
    } else {
      SpanPaths(members.value, at + ValueOffset(members), path + [name], q);
      assert q[|path|] == (path + [name])[|path|] && q[..|path|] == (path + [name])[..|path|];
    }
  }

  lemma {:induction false} ItemSpanPaths(items: Items, at: nat, path: Path, index: nat, q: Path)
    requires WellFormedItems(items) && q in ItemSpans(items, at, path, index)
    ensures Below(q, path) && q[|path|].Index? && q[|path|].index >= index
    ensures items.Item?
    ensures if q[|path|].index == index
            then q in SpansOf(items.value, at + |items.before|, path + [q[|path|]])
                 && ItemSpans(items, at, path, index)[q]
                    == SpansOf(items.value, at + |items.before|, path + [q[|path|]])[q]
            else q in ItemSpans(items.next, at + ItemOffset(items), path, index + 1)
                 && ItemSpans(items, at, path, index)[q] == ItemSpans(items.next, at + ItemOffset(items), path, index + 1)[q]
    decreases items
  {
    if q in ItemSpans(items.next, at + ItemOffset(items), path, index + 1) {
      ItemSpanPaths(items.next, at + ItemOffset(items), path, index + 1, q);
    } else {
      SpanPaths(items.value, at + |items.before|, path + [Index(index)], q);
      assert q[|path|] == (path + [Index(index)])[|path|] && q[..|path|] == (path + [Index(index)])[..|path|];
    }
  }

  lemma RestOfPath(q: Path, path: Path)
    requires Below(q, path)
    ensures path + [q[|path|]] <= q && q[|path|..] == [q[|path|]] + q[|path| + 1..]
    ensures q[|path| + 1..] == q[|path + [q[|path|]]|..]
  {
  }

  // ---- Text around a value ------------------------------------------------------------------------

  lemma Ungroup(a: string, b: string, c: string, d: string)
    ensures (a + (b + c)) + d == a + b + (c + d)
  {
  }

  lemma CommaBelongs(part: string, rest: string)
    ensures part + ([','] + rest) == (part + [',']) + rest + ""
  {
  }

  lemma MemberJoins(m: Members)
    requires m.Member?
    ensures PrintMembers(m) == (Head(m) + (Print(m.value) + m.after)) + MembersTail(m.next)
    ensures m.next.Member? ==> MembersTail(m.next) == [','] + PrintMembers(m.next)
    ensures |Head(m)| == ValueOffset(m)
    ensures |Head(m) + (Print(m.value) + m.after) + [',']| == NextOffset(m)
  {
    hide Print;
  }

  lemma MemberParts(m: Members)
    requires m.Member?
    ensures |Head(m)| == ValueOffset(m)
    ensures PrintMembers(m) == Head(m) + Print(m.value) + (m.after + MembersTail(m.next))
    ensures m.next.Member? ==> |Head(m) + (Print(m.value) + m.after) + [',']| == NextOffset(m)
    ensures m.next.Member? ==>
              PrintMembers(m) == (Head(m) + (Print(m.value) + m.after) + [',']) + PrintMembers(m.next) + ""
  {
    MemberJoins(m);
    hide Print, Head, PrintMembers, MembersTail, ValueOffset, NextOffset;
    Ungroup(Head(m), Print(m.value), m.after, MembersTail(m.next));
    CommaBelongs(Head(m) + (Print(m.value) + m.after), PrintMembers(m.next));
  }

  lemma ItemJoins(i: Items)
    requires i.Item?
    ensures PrintItems(i) == (i.before + (Print(i.value) + i.after)) + ItemsTail(i.next)
    ensures i.next.Item? ==> ItemsTail(i.next) == [','] + PrintItems(i.next)
    ensures |i.before + (Print(i.value) + i.after) + [',']| == ItemOffset(i)
  {
    hide Print;
  }

  lemma ItemParts(i: Items)
    requires i.Item?
    ensures PrintItems(i) == i.before + Print(i.value) + (i.after + ItemsTail(i.next))
    ensures i.next.Item? ==> |i.before + (Print(i.value) + i.after) + [',']| == ItemOffset(i)
    ensures i.next.Item? ==>
              PrintItems(i) == (i.before + (Print(i.value) + i.after) + [',']) + PrintItems(i.next) + ""
  {
    ItemJoins(i);
    hide Print, PrintItems, ItemsTail, ItemOffset;
    Ungroup(i.before, Print(i.value), i.after, ItemsTail(i.next));
    CommaBelongs(i.before + (Print(i.value) + i.after), PrintItems(i.next));
  }

  lemma SpliceInside(front: string, middle: string, back: string, start: nat, end: nat, token: string)
    requires start <= end <= |middle|
    ensures Splice(front + middle + back, |front| + start, |front| + end, token)
         == front + Splice(middle, start, end, token) + back
    ensures (front + middle + back)[|front| + start..|front| + end] == middle[start..end]
  {
    SplitInside(front, middle, back, start);
    SplitInside(front, middle, back, end);
    var text, a := front + middle + back, front + middle[..start];
    assert text[|front| + start..|front| + end] == middle[start..end] by {
      assert (middle[start..] + back)[..end - start] == middle[start..end];
    }
    assert a + token + (middle[end..] + back) == front + (middle[..start] + token + middle[end..]) + back;
  }

  lemma SplitInside(front: string, middle: string, back: string, k: nat)
    requires k <= |middle|
    ensures var text := front + middle + back;
            text[..|front| + k] == front + middle[..k] && text[|front| + k..] == middle[k..] + back
  {
  }

  // ---- The token at a path -------------------------------------------------------------------------

  function TokenAt(node: Node, path: Path): Option<string>
    decreases node
  {
    match node
    case Scalar(token, _) => if path == [] then Some(token) else None
    case Object(members) =>
      if path != [] && path[0].Key? then MemberToken(members, path[0].name, path[1..]) else None
    case Array(items) =>
      if path != [] && path[0].Index? then ItemToken(items, path[0].index, path[1..]) else None
    case _ => None
  }

  function MemberToken(members: Members, name: CodePoints, path: Path): Option<string>
    decreases members
  {
    match members
    case EndObject => None
    case Member(_, _, _, _, _, value, _, next) =>
      if members.name == name then TokenAt(value, path) else MemberToken(next, name, path)
  }

  function ItemToken(items: Items, index: nat, path: Path): Option<string>
    decreases items
  {
    match items
    case EndArray => None
    case Item(_, value, _, next) =>
      if index == 0 then TokenAt(value, path) else ItemToken(next, index - 1, path)
  }

  lemma {:induction false} TokenIsValue(node: Node, path: Path)
    requires WellFormed(node) && TokenAt(node, path).Some?
    ensures Lookup(Tree(node), path).Some? && Spells(TokenAt(node, path).value, Lookup(Tree(node), path).value)
    decreases node
  {
    match node
    case Scalar(token, _) =>
    case Object(members) => MemberTokenIsValue(members, path[0].name, path[1..]);
    case Array(items) => ItemTokenIsValue(items, path[0].index, path[1..]);
  }

  lemma {:induction false} MemberTokenIsValue(members: Members, name: CodePoints, path: Path)
    requires WellFormedMembers(members) && MemberToken(members, name, path).Some?
    ensures name in Fields(members) && Lookup(Fields(members)[name], path).Some?
    ensures Spells(MemberToken(members, name, path).value, Lookup(Fields(members)[name], path).value)
    decreases members
  {
    hide ScanScalar, WellFormed, Tree, TokenAt, Lookup;
    if members.name == name {
      TokenIsValue(members.value, path);
    } else {
      MemberTokenIsValue(members.next, name, path);
    }
  }

  lemma {:induction false} ItemTokenIsValue(items: Items, index: nat, path: Path)
    requires WellFormedItems(items) && ItemToken(items, index, path).Some?
    ensures index < |Elements(items)| && Lookup(Elements(items)[index], path).Some?
    ensures Spells(ItemToken(items, index, path).value, Lookup(Elements(items)[index], path).value)
    decreases items
  {
    hide ScanScalar, WellFormed, Tree, TokenAt, Lookup;
    if index == 0 {
      TokenIsValue(items.value, path);
    } else {
      ItemTokenIsValue(items.next, index - 1, path);
    }
  }

  // ---- A span is where its token stands ---------------------------------------------------------------

  predicate Holds(text: string, at: nat, span: (nat, nat), token: Option<string>) {
    at <= span.0 <= span.1 <= at + |text| && token == Some(text[span.0 - at..span.1 - at])
  }

  lemma HoldsInside(front: string, middle: string, back: string, at: nat, span: (nat, nat), token: Option<string>)
    requires Holds(middle, at + |front|, span, token)
    ensures Holds(front + middle + back, at, span, token)
  {
    SpliceInside(front, middle, back, span.0 - at - |front|, span.1 - at - |front|, "");
  }

  /** Inside the brackets of an object or array. */
  lemma HoldsInBrackets(open: char, body: string, at: nat, span: (nat, nat), token: Option<string>)
    requires Holds(body, at + 1, span, token)
    ensures Holds([open] + body, at, span, token)
  {
    assert [open] + body == [open] + body + "";
    HoldsInside([open], body, "", at, span, token);
  }

  lemma {:induction false} SpanHolds(node: Node, at: nat, path: Path, q: Path)
    requires WellFormed(node) && q in SpansOf(node, at, path)
    ensures |path| <= |q| && Holds(Print(node), at, SpansOf(node, at, path)[q], TokenAt(node, q[|path|..]))
    decreases node, 1
  {
    hide WellFormedMembers, WellFormedItems, MemberSpans, ItemSpans, PrintMembers, PrintItems, MemberToken, ItemToken, Spells;
    SpanPaths(node, at, path, q);
    var span, token := SpansOf(node, at, path)[q], TokenAt(node, q[|path|..]);
    match node
    case Scalar(t, _) => assert t[..|t|] == t;
    case Object(members) =>
      MemberSpanHolds(members, at + 1, path, q);
      RestOfPath(q, path);
      HoldsInBrackets('{', PrintMembers(members), at, span, token);
    case Array(items) =>
      ItemSpanHolds(items, at + 1, path, 0, q);
      RestOfPath(q, path);
      HoldsInBrackets('[', PrintItems(items), at, span, token);
  }

  lemma HoldsInMember(m: Members, at: nat, span: (nat, nat), token: Option<string>)
    requires m.Member?
    requires Holds(Print(m.value), at + ValueOffset(m), span, token)
             || (m.next.Member? && Holds(PrintMembers(m.next), at + NextOffset(m), span, token))
    ensures Holds(PrintMembers(m), at, span, token)
  {
    MemberParts(m);
    if Holds(Print(m.value), at + ValueOffset(m), span, token) {
      HoldsInside(Head(m), Print(m.value), m.after + MembersTail(m.next), at, span, token);
    } else {
      HoldsInside(Head(m) + (Print(m.value) + m.after) + [','], PrintMembers(m.next), "", at, span, token);
    }
  }

  lemma {:induction false} MemberSpanHolds(m: Members, at: nat, path: Path, q: Path)
    requires WellFormedMembers(m) && q in MemberSpans(m, at, path)
    ensures Below(q, path) && q[|path|].Key?
    ensures Holds(PrintMembers(m), at, MemberSpans(m, at, path)[q], MemberToken(m, q[|path|].name, q[|path| + 1..]))
    decreases m, 1
  {
    MemberSpanPaths(m, at, path, q);
    RestOfPath(q, path);
    if q[|path|] == Key(m.name) {
      SpanHolds(m.value, at + ValueOffset(m), path + [q[|path|]], q);
      HoldsInMember(m, at, MemberSpans(m, at, path)[q], TokenAt(m.value, q[|path| + 1..]));
    } else {
      LaterMemberHolds(m, at, path, q);
    }
  }

  lemma {:induction false} LaterMemberHolds(m: Members, at: nat, path: Path, q: Path)
    requires m.Member? && WellFormedMembers(m) && Below(q, path) && q[|path|].Key? && q[|path|] != Key(m.name)
    requires q in MemberSpans(m.next, at + NextOffset(m), path)
    ensures Holds(PrintMembers(m), at, MemberSpans(m.next, at + NextOffset(m), path)[q],
                  MemberToken(m, q[|path|].name, q[|path| + 1..]))
    decreases m, 0
  {
    MemberSpanHolds(m.next, at + NextOffset(m), path, q);
    HoldsInMember(m, at, MemberSpans(m.next, at + NextOffset(m), path)[q],
                  MemberToken(m.next, q[|path|].name, q[|path| + 1..]));
  }

  lemma HoldsInItem(i: Items, at: nat, span: (nat, nat), token: Option<string>)
    requires i.Item?
    requires Holds(Print(i.value), at + |i.before|, span, token)
             || (i.next.Item? && Holds(PrintItems(i.next), at + ItemOffset(i), span, token))
    ensures Holds(PrintItems(i), at, span, token)
  {
    ItemParts(i);
    if Holds(Print(i.value), at + |i.before|, span, token) {
      HoldsInside(i.before, Print(i.value), i.after + ItemsTail(i.next), at, span, token);
    } else {
      HoldsInside(i.before + (Print(i.value) + i.after) + [','], PrintItems(i.next), "", at, span, token);
    }
  }

  lemma {:induction false} ItemSpanHolds(i: Items, at: nat, path: Path, index: nat, q: Path)
    requires WellFormedItems(i) && q in ItemSpans(i, at, path, index)
    ensures Below(q, path) && q[|path|].Index? && index <= q[|path|].index
    ensures Holds(PrintItems(i), at, ItemSpans(i, at, path, index)[q],
                  ItemToken(i, q[|path|].index - index, q[|path| + 1..]))
    decreases i, 1
  {
    ItemSpanPaths(i, at, path, index, q);
    RestOfPath(q, path);
    if q[|path|].index == index {
      SpanHolds(i.value, at + |i.before|, path + [q[|path|]], q);
      HoldsInItem(i, at, ItemSpans(i, at, path, index)[q], TokenAt(i.value, q[|path| + 1..]));
    } else {
      LaterItemHolds(i, at, path, index, q);
    }
  }

  lemma {:induction false} LaterItemHolds(i: Items, at: nat, path: Path, index: nat, q: Path)
    requires i.Item? && WellFormedItems(i) && Below(q, path) && q[|path|].Index? && index < q[|path|].index
    requires q in ItemSpans(i.next, at + ItemOffset(i), path, index + 1)
    ensures Holds(PrintItems(i), at, ItemSpans(i.next, at + ItemOffset(i), path, index + 1)[q],
                  ItemToken(i, q[|path|].index - index, q[|path| + 1..]))
    decreases i, 0
  {
    ItemSpanHolds(i.next, at + ItemOffset(i), path, index + 1, q);
    HoldsInItem(i, at, ItemSpans(i.next, at + ItemOffset(i), path, index + 1)[q],
                ItemToken(i.next, q[|path|].index - index - 1, q[|path| + 1..]));
  }

  // ---- Replacing a token is splicing its span ------------------------------------------------------------

  predicate Spliced(before: string, after: string, at: nat, span: (nat, nat), token: string) {
    at <= span.0 <= span.1 <= at + |before| && after == Splice(before, span.0 - at, span.1 - at, token)
  }

  lemma SplicedInside(front: string, middle: string, middle': string, back: string, at: nat,
                      span: (nat, nat), token: string)
    requires Spliced(middle, middle', at + |front|, span, token)
    ensures Spliced(front + middle + back, front + middle' + back, at, span, token)
  {
    SpliceInside(front, middle, back, span.0 - at - |front|, span.1 - at - |front|, token);
  }

  lemma SplicedInBrackets(open: char, body: string, body': string, at: nat, span: (nat, nat), token: string)
    requires Spliced(body, body', at + 1, span, token)
    ensures Spliced([open] + body, [open] + body', at, span, token)
  {
    assert [open] + body == [open] + body + "" && [open] + body' == [open] + body' + "";
    SplicedInside([open], body, body', "", at, span, token);
  }

  lemma {:induction false} ReplaceIsSplice(node: Node, at: nat, path: Path, q: Path, token: string, decoded: Value)
    requires WellFormed(node) && q in SpansOf(node, at, path)
    ensures |path| <= |q|
    ensures Spliced(Print(node), Print(Replace(node, q[|path|..], token, decoded)), at, SpansOf(node, at, path)[q], token)
    decreases node, 1
  {
    SpanPaths(node, at, path, q);
    var span := SpansOf(node, at, path)[q];
    match node
    case Scalar(t, _) => assert t[..0] + token + t[|t|..] == token;
    case Object(members) =>
      RestOfPath(q, path);
      ReplaceMemberIsSplice(members, at + 1, path, q, token, decoded);
      SplicedInBrackets('{', PrintMembers(members),
                        PrintMembers(ReplaceMember(members, q[|path|].name, q[|path| + 1..], token, decoded)), at, span, token);
    case Array(items) =>
      RestOfPath(q, path);
      ReplaceItemIsSplice(items, at + 1, path, 0, q, token, decoded);
      SplicedInBrackets('[', PrintItems(items),
                        PrintItems(ReplaceItem(items, q[|path|].index, q[|path| + 1..], token, decoded)), at, span, token);
  }

  lemma SpliceMemberValue(m: Members, value: Node, at: nat, span: (nat, nat), token: string)
    requires m.Member? && Spliced(Print(m.value), Print(value), at + ValueOffset(m), span, token)
    ensures Spliced(PrintMembers(m), PrintMembers(m.(value := value)), at, span, token)
  {
    MemberParts(m);
    MemberParts(m.(value := value));
    SplicedInside(Head(m), Print(m.value), Print(value), m.after + MembersTail(m.next), at, span, token);
  }

  lemma SpliceLaterMember(m: Members, next: Members, at: nat, span: (nat, nat), token: string)
    requires m.Member? && m.next.Member? && next.Member?
    requires Spliced(PrintMembers(m.next), PrintMembers(next), at + NextOffset(m), span, token)
    ensures Spliced(PrintMembers(m), PrintMembers(m.(next := next)), at, span, token)
  {
    hide Print, PrintMembers, MembersTail, Splice, ValueOffset;
    MemberParts(m);
    MemberParts(m.(next := next));
    SplicedInside(Head(m) + (Print(m.value) + m.after) + [','], PrintMembers(m.next), PrintMembers(next), "",
                  at, span, token);
  }

  lemma SpliceItemValue(i: Items, value: Node, at: nat, span: (nat, nat), token: string)
    requires i.Item? && Spliced(Print(i.value), Print(value), at + |i.before|, span, token)
    ensures Spliced(PrintItems(i), PrintItems(i.(value := value)), at, span, token)
  {
    ItemParts(i);
    ItemParts(i.(value := value));
    SplicedInside(i.before, Print(i.value), Print(value), i.after + ItemsTail(i.next), at, span, token);
  }

  lemma SpliceLaterItem(i: Items, next: Items, at: nat, span: (nat, nat), token: string)
    requires i.Item? && i.next.Item? && next.Item?
    requires Spliced(PrintItems(i.next), PrintItems(next), at + ItemOffset(i), span, token)
    ensures Spliced(PrintItems(i), PrintItems(i.(next := next)), at, span, token)
  {
    hide Print, PrintItems, ItemsTail, Splice;
    ItemParts(i);
    ItemParts(i.(next := next));
    SplicedInside(i.before + (Print(i.value) + i.after) + [','], PrintItems(i.next), PrintItems(next), "",
                  at, span, token);
  }

  lemma {:induction false} ReplaceMemberIsSplice(m: Members, at: nat, path: Path, q: Path, token: string, decoded: Value)
    requires WellFormedMembers(m) && q in MemberSpans(m, at, path)
    ensures Below(q, path) && q[|path|].Key?
    ensures Spliced(PrintMembers(m), PrintMembers(ReplaceMember(m, q[|path|].name, q[|path| + 1..], token, decoded)),
                    at, MemberSpans(m, at, path)[q], token)
    decreases m, 1
  {
    MemberSpanPaths(m, at, path, q);
    RestOfPath(q, path);
    if q[|path|] == Key(m.name) {
      ReplaceIsSplice(m.value, at + ValueOffset(m), path + [q[|path|]], q, token, decoded);
      SpliceMemberValue(m, Replace(m.value, q[|path| + 1..], token, decoded), at, MemberSpans(m, at, path)[q], token);
    } else {
      ReplaceLaterMember(m, at, path, q, token, decoded);
    }
  }

  lemma {:induction false} ReplaceLaterMember(m: Members, at: nat, path: Path, q: Path, token: string, decoded: Value)
    requires m.Member? && WellFormedMembers(m) && Below(q, path) && q[|path|].Key? && q[|path|] != Key(m.name)
    requires q in MemberSpans(m.next, at + NextOffset(m), path)
    ensures Spliced(PrintMembers(m), PrintMembers(ReplaceMember(m, q[|path|].name, q[|path| + 1..], token, decoded)),
                    at, MemberSpans(m.next, at + NextOffset(m), path)[q], token)
    decreases m, 0
  {
    hide ScanScalar, SpansOf, MemberSpans, Print, PrintMembers, WellFormed;
    var span, name, rest := MemberSpans(m.next, at + NextOffset(m), path)[q], q[|path|].name, q[|path| + 1..];
    MemberSpanPaths(m.next, at + NextOffset(m), path, q);
    ReplaceMemberIsSplice(m.next, at + NextOffset(m), path, q, token, decoded);
    assert ReplaceMember(m, name, rest, token, decoded) == m.(next := ReplaceMember(m.next, name, rest, token, decoded));
    SpliceLaterMember(m, ReplaceMember(m.next, name, rest, token, decoded), at, span, token);
  }

  lemma {:induction false} ReplaceItemIsSplice(i: Items, at: nat, path: Path, index: nat, q: Path, token: string, decoded: Value)
    requires WellFormedItems(i) && q in ItemSpans(i, at, path, index)
    ensures Below(q, path) && q[|path|].Index? && index <= q[|path|].index
    ensures Spliced(PrintItems(i), PrintItems(ReplaceItem(i, q[|path|].index - index, q[|path| + 1..], token, decoded)),
                    at, ItemSpans(i, at, path, index)[q], token)
    decreases i, 1
  {
    ItemSpanPaths(i, at, path, index, q);
    RestOfPath(q, path);
    if q[|path|].index == index {
      ReplaceIsSplice(i.value, at + |i.before|, path + [q[|path|]], q, token, decoded);
      SpliceItemValue(i, Replace(i.value, q[|path| + 1..], token, decoded), at, ItemSpans(i, at, path, index)[q], token);
    } else {
      ReplaceLaterItem(i, at, path, index, q, token, decoded);
    }
  }

  lemma {:induction false} ReplaceLaterItem(i: Items, at: nat, path: Path, index: nat, q: Path, token: string, decoded: Value)
    requires i.Item? && WellFormedItems(i) && Below(q, path) && q[|path|].Index? && index < q[|path|].index
    requires q in ItemSpans(i.next, at + ItemOffset(i), path, index + 1)
    ensures Spliced(PrintItems(i), PrintItems(ReplaceItem(i, q[|path|].index - index, q[|path| + 1..], token, decoded)),
                    at, ItemSpans(i.next, at + ItemOffset(i), path, index + 1)[q], token)
    decreases i, 0
  {
    hide ScanScalar, SpansOf, ItemSpans, Print, PrintItems, WellFormed;
    ItemSpanPaths(i.next, at + ItemOffset(i), path, index + 1, q);
    ReplaceItemIsSplice(i.next, at + ItemOffset(i), path, index + 1, q, token, decoded);
    SpliceLaterItem(i, ReplaceItem(i.next, q[|path|].index - index - 1, q[|path| + 1..], token, decoded), at,
                    ItemSpans(i.next, at + ItemOffset(i), path, index + 1)[q], token);
  }
}

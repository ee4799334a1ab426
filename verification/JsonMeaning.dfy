/** Splicing tokens over spans keeps a document acceptable and changes only the selected values. */
module JsonMeaning {
  import opened Wrappers
  import opened Text
  import opened Json
  import opened JsonRoundTrip
  import opened JsonSplice

  // ---- The tree -------------------------------------------------------------------------------

  lemma {:induction false} ReplaceTree(node: Node, path: Path, token: string, decoded: Value)
    requires WellFormed(node) && TokenAt(node, path).Some? && Spells(token, decoded)
    ensures WellFormed(Replace(node, path, token, decoded))
    ensures Tree(Replace(node, path, token, decoded)) == Put(Tree(node), path, decoded)
    decreases node
  {
    ReplaceWellFormed(node, path, token, decoded);
    match node
    case Scalar(_, _) =>
    case Object(members) => ReplaceFields(members, path[0].name, path[1..], token, decoded);
    case Array(items) => ReplaceElements(items, path[0].index, path[1..], token, decoded);
  }

  lemma UpdateBehind<K, V>(k: K, v: V, rest: map<K, V>, name: K, update: V)
    requires name in rest && name != k
    ensures (map[k := v] + rest)[name := update] == map[k := v] + rest[name := update]
    ensures (map[k := v] + rest)[name] == rest[name]
  {
  }

  lemma UpdateShifted<V>(v: V, rest: seq<V>, index: nat, update: V)
    requires index < |rest|
    ensures ([v] + rest)[index + 1 := update] == [v] + rest[index := update]
    ensures ([v] + rest)[index + 1] == rest[index]
  {
  }

  lemma {:induction false} ReplaceFields(members: Members, name: CodePoints, path: Path, token: string, decoded: Value)
    requires WellFormedMembers(members) && MemberToken(members, name, path).Some? && Spells(token, decoded)
    ensures WellFormedMembers(ReplaceMember(members, name, path, token, decoded)) && name in Fields(members)
    ensures Fields(ReplaceMember(members, name, path, token, decoded))
         == Fields(members)[name := Put(Fields(members)[name], path, decoded)]
    decreases members
  {
    hide ScanScalar, Spells, TokenAt, Put, WellFormed, Tree, Replace;
    ReplaceMemberWellFormed(members, name, path, token, decoded);
    if members.name == name {
      ReplaceTree(members.value, path, token, decoded);
    } else {
      ReplaceFields(members.next, name, path, token, decoded);
      UpdateBehind(members.name, Tree(members.value), Fields(members.next), name,
                   Put(Fields(members.next)[name], path, decoded));
    }
  }

  lemma {:induction false} ReplaceElements(items: Items, index: nat, path: Path, token: string, decoded: Value)
    requires WellFormedItems(items) && ItemToken(items, index, path).Some? && Spells(token, decoded)
    ensures WellFormedItems(ReplaceItem(items, index, path, token, decoded)) && index < |Elements(items)|
    ensures Elements(ReplaceItem(items, index, path, token, decoded))
         == Elements(items)[index := Put(Elements(items)[index], path, decoded)]
    decreases items
  {
    hide ScanScalar, Spells, TokenAt, Put, WellFormed, Tree, Replace;
    ReplaceItemWellFormed(items, index, path, token, decoded);
    if index == 0 {
      ReplaceTree(items.value, path, token, decoded);
    } else {
      ReplaceElements(items.next, index - 1, path, token, decoded);
      UpdateShifted(Tree(items.value), Elements(items.next), index - 1,
                    Put(Elements(items.next)[index - 1], path, decoded));
    }
  }

  lemma {:induction false} LookupAfterPut(value: Value, path: Path, update: Value)
    requires Lookup(value, path).Some?
    ensures Lookup(Put(value, path, update), path) == Some(update)
    decreases |path|
  {
    if path != [] {
      match path[0]
      case Key(name) => LookupAfterPut(value.fields[name], path[1..], update);
      case Index(i) => LookupAfterPut(value.items[i], path[1..], update);
    }
  }

  /** A path that is neither above nor below the changed one still leads to the same value. */
  lemma {:induction false} LookupElsewhere(value: Value, path: Path, update: Value, other: Path)
    requires !(path <= other) && !(other <= path)
    ensures Lookup(Put(value, path, update), other) == Lookup(value, other)
    decreases |path|
  {
    if path[0] == other[0] {
      assert path == [path[0]] + path[1..] && other == [other[0]] + other[1..];
      match path[0]
      case Key(name) =>
        if value.JObject? && name in value.fields {
          LookupElsewhere(value.fields[name], path[1..], update, other[1..]);
        }
      case Index(i) =>
        if value.JArray? && i < |value.items| {
          LookupElsewhere(value.items[i], path[1..], update, other[1..]);
        }
    }
  }

  // ---- Spans in front of an edit stay -----------------------------------------------------------

  lemma {:induction false} SpansDisjoint(node: Node, at: nat, path: Path, p: Path, q: Path)
    requires WellFormed(node) && p != q
    requires p in SpansOf(node, at, path) && q in SpansOf(node, at, path)
    ensures var spans := SpansOf(node, at, path); spans[p].1 <= spans[q].0 || spans[q].1 <= spans[p].0
    decreases node
  {
    match node
    case Scalar(_, _) =>
    case Object(members) => MemberSpansDisjoint(members, at + 1, path, p, q);
    case Array(items) => ItemSpansDisjoint(items, at + 1, path, 0, p, q);
  }

  ghost predicate KeepsSpan(before: Spans, after: Spans, p: Path) {
    p in before && p in after && before[p] == after[p]
  }

  /** On which side of a member's comma a span lies. */
  lemma MemberSide(m: Members, at: nat, path: Path, q: Path)
    requires WellFormedMembers(m) && q in MemberSpans(m, at, path)
    ensures m.Member? && Below(q, path) && MemberSpans(m, at, path)[q].0 <= MemberSpans(m, at, path)[q].1
    ensures q[|path|] == Key(m.name) ==>
              && KeepsSpan(MemberSpans(m, at, path), SpansOf(m.value, at + ValueOffset(m), path + [q[|path|]]), q)
              && MemberSpans(m, at, path)[q].1 <= at + ValueOffset(m) + |Print(m.value)|
    ensures q[|path|] != Key(m.name) ==>
              && KeepsSpan(MemberSpans(m, at, path), MemberSpans(m.next, at + NextOffset(m), path), q)
              && at + NextOffset(m) <= MemberSpans(m, at, path)[q].0
  {
    MemberSpanPaths(m, at, path, q);
    if q[|path|] == Key(m.name) {
      SpanHolds(m.value, at + ValueOffset(m), path + [q[|path|]], q);
    } else {
      MemberSpanHolds(m.next, at + NextOffset(m), path, q);
    }
  }

  lemma ItemSide(i: Items, at: nat, path: Path, index: nat, q: Path)
    requires WellFormedItems(i) && q in ItemSpans(i, at, path, index)
    ensures i.Item? && Below(q, path) && q[|path|].Index? && index <= q[|path|].index
    ensures ItemSpans(i, at, path, index)[q].0 <= ItemSpans(i, at, path, index)[q].1
    ensures q[|path|] == Index(index) ==>
              && KeepsSpan(ItemSpans(i, at, path, index), SpansOf(i.value, at + |i.before|, path + [q[|path|]]), q)
              && ItemSpans(i, at, path, index)[q].1 <= at + |i.before| + |Print(i.value)|
    ensures q[|path|] != Index(index) ==>
              && KeepsSpan(ItemSpans(i, at, path, index), ItemSpans(i.next, at + ItemOffset(i), path, index + 1), q)
              && at + ItemOffset(i) <= ItemSpans(i, at, path, index)[q].0
  {
    ItemSpanPaths(i, at, path, index, q);
    if q[|path|] == Index(index) {
      SpanHolds(i.value, at + |i.before|, path + [q[|path|]], q);
    } else {
      ItemSpanHolds(i.next, at + ItemOffset(i), path, index + 1, q);
    }
  }

  lemma {:induction false} MemberSpansDisjoint(m: Members, at: nat, path: Path, p: Path, q: Path)
    requires WellFormedMembers(m) && p != q
    requires p in MemberSpans(m, at, path) && q in MemberSpans(m, at, path)
    ensures var spans := MemberSpans(m, at, path); spans[p].1 <= spans[q].0 || spans[q].1 <= spans[p].0
    decreases m
  {
    hide Print, SpansOf, MemberSpans, WellFormed, ScanScalar, ValueOffset, Below;
    MemberSide(m, at, path, p);
    MemberSide(m, at, path, q);
    var name := Key(m.name);
    if p[|path|] == name && q[|path|] == name {
      SpansDisjoint(m.value, at + ValueOffset(m), path + [name], p, q);
    } else if p[|path|] != name && q[|path|] != name {
      MemberSpansDisjoint(m.next, at + NextOffset(m), path, p, q);
    }
  }

  lemma {:induction false} ItemSpansDisjoint(i: Items, at: nat, path: Path, index: nat, p: Path, q: Path)
    requires WellFormedItems(i) && p != q
    requires p in ItemSpans(i, at, path, index) && q in ItemSpans(i, at, path, index)
    ensures var spans := ItemSpans(i, at, path, index); spans[p].1 <= spans[q].0 || spans[q].1 <= spans[p].0
    decreases i
  {
    hide Print, SpansOf, ItemSpans, WellFormed, ScanScalar;
    ItemSide(i, at, path, index, p);
    ItemSide(i, at, path, index, q);
    if p[|path|] == Index(index) && q[|path|] == Index(index) {
      SpansDisjoint(i.value, at + |i.before|, path + [Index(index)], p, q);
    } else if p[|path|] != Index(index) && q[|path|] != Index(index) {
      ItemSpansDisjoint(i.next, at + ItemOffset(i), path, index + 1, p, q);
    }
  }

  // ---- One more value, or one more tail, behind the span of p ---------------------------------------

  /** A span of a member's own value is not shadowed by one of the later members. */
  lemma OutsideNext(m: Members, at: nat, path: Path, p: Path)
    requires m.Member? && WellFormedMembers(m) && Below(p, path) && p[|path|] == Key(m.name)
    ensures p !in MemberSpans(m.next, at + NextOffset(m), path)
  {
    if p in MemberSpans(m.next, at + NextOffset(m), path) {
      MemberSpanPaths(m.next, at + NextOffset(m), path, p);
    }
  }

  lemma OutsideNextItem(i: Items, at: nat, path: Path, index: nat, p: Path)
    requires i.Item? && WellFormedItems(i) && Below(p, path) && p[|path|] == Index(index)
    ensures p !in ItemSpans(i.next, at + ItemOffset(i), path, index + 1)
  {
    if p in ItemSpans(i.next, at + ItemOffset(i), path, index + 1) {
      ItemSpanPaths(i.next, at + ItemOffset(i), path, index + 1, p);
    }
  }

  lemma MemberValueSpan(m: Members, at: nat, path: Path, p: Path)
    requires m.Member? && WellFormedMembers(m) && Below(p, path) && p[|path|] == Key(m.name)
    requires p in SpansOf(m.value, at + ValueOffset(m), path + [p[|path|]])
    ensures KeepsSpan(SpansOf(m.value, at + ValueOffset(m), path + [p[|path|]]), MemberSpans(m, at, path), p)
  {
    OutsideNext(m, at, path, p);
  }

  lemma MemberValueStays(m: Members, m': Members, at: nat, path: Path, p: Path)
    requires m.Member? && m'.Member? && WellFormedMembers(m) && WellFormedMembers(m') && Below(p, path)
    requires p[|path|] == Key(m.name)
    requires m'.key == m.key && ValueOffset(m') == ValueOffset(m)
    requires KeepsSpan(SpansOf(m.value, at + ValueOffset(m), path + [p[|path|]]),
                       SpansOf(m'.value, at + ValueOffset(m), path + [p[|path|]]), p)
    ensures KeepsSpan(MemberSpans(m, at, path), MemberSpans(m', at, path), p)
  {
    MemberValueSpan(m, at, path, p);
    MemberValueSpan(m', at, path, p);
  }

  lemma LaterMemberSpan(m: Members, at: nat, path: Path, p: Path)
    requires m.Member? && WellFormedMembers(m) && p in MemberSpans(m.next, at + NextOffset(m), path)
    ensures KeepsSpan(MemberSpans(m.next, at + NextOffset(m), path), MemberSpans(m, at, path), p)
  {
  }

  lemma LaterMemberStays(m: Members, m': Members, at: nat, path: Path, p: Path)
    requires m.Member? && m'.Member? && WellFormedMembers(m) && WellFormedMembers(m') && NextOffset(m) == NextOffset(m')
    requires KeepsSpan(MemberSpans(m.next, at + NextOffset(m), path), MemberSpans(m'.next, at + NextOffset(m), path), p)
    ensures KeepsSpan(MemberSpans(m, at, path), MemberSpans(m', at, path), p)
  {
    LaterMemberSpan(m, at, path, p);
    LaterMemberSpan(m', at, path, p);
  }

  lemma ItemValueSpan(i: Items, at: nat, path: Path, index: nat, p: Path)
    requires i.Item? && WellFormedItems(i) && Below(p, path) && p[|path|] == Index(index)
    requires p in SpansOf(i.value, at + |i.before|, path + [p[|path|]])
    ensures KeepsSpan(SpansOf(i.value, at + |i.before|, path + [p[|path|]]), ItemSpans(i, at, path, index), p)
  {
    OutsideNextItem(i, at, path, index, p);
  }

  lemma ItemValueStays(i: Items, i': Items, at: nat, path: Path, index: nat, p: Path)
    requires i.Item? && i'.Item? && WellFormedItems(i) && WellFormedItems(i') && Below(p, path)
    requires p[|path|] == Index(index) && |i'.before| == |i.before|
    requires KeepsSpan(SpansOf(i.value, at + |i.before|, path + [p[|path|]]),
                       SpansOf(i'.value, at + |i.before|, path + [p[|path|]]), p)
    ensures KeepsSpan(ItemSpans(i, at, path, index), ItemSpans(i', at, path, index), p)
  {
    ItemValueSpan(i, at, path, index, p);
    ItemValueSpan(i', at, path, index, p);
  }

  lemma LaterItemSpan(i: Items, at: nat, path: Path, index: nat, p: Path)
    requires i.Item? && WellFormedItems(i) && p in ItemSpans(i.next, at + ItemOffset(i), path, index + 1)
    ensures KeepsSpan(ItemSpans(i.next, at + ItemOffset(i), path, index + 1), ItemSpans(i, at, path, index), p)
  {
  }

  lemma LaterItemStays(i: Items, i': Items, at: nat, path: Path, index: nat, p: Path)
    requires i.Item? && i'.Item? && WellFormedItems(i) && WellFormedItems(i') && ItemOffset(i) == ItemOffset(i')
    requires KeepsSpan(ItemSpans(i.next, at + ItemOffset(i), path, index + 1),
                       ItemSpans(i'.next, at + ItemOffset(i), path, index + 1), p)
    ensures KeepsSpan(ItemSpans(i, at, path, index), ItemSpans(i', at, path, index), p)
  {
    LaterItemSpan(i, at, path, index, p);
    LaterItemSpan(i', at, path, index, p);
  }

  lemma TokenNotEmpty(token: string, value: Value)
    requires Spells(token, value)
    ensures token != ""
  {
  }

  lemma {:induction false} EarlierSpanStays(node: Node, at: nat, path: Path, p: Path, q: Path, token: string, decoded: Value)
    requires WellFormed(node) && Spells(token, decoded)
    requires p in SpansOf(node, at, path) && q in SpansOf(node, at, path) && |path| <= |q|
    requires SpansOf(node, at, path)[p].1 <= SpansOf(node, at, path)[q].0
    ensures WellFormed(Replace(node, q[|path|..], token, decoded))
    ensures KeepsSpan(SpansOf(node, at, path), SpansOf(Replace(node, q[|path|..], token, decoded), at, path), p)
    decreases node, 1
  {
    hide ScanScalar, Print, MemberSpans, ItemSpans;
    ReplaceWellFormed(node, q[|path|..], token, decoded);
    SpanPaths(node, at, path, q);
    match node
    case Scalar(t, _) =>
      SpanPaths(node, at, path, p);
      TokenNotEmpty(t, node.decoded);
    case Object(members) =>
      RestOfPath(q, path);
      EarlierMemberSpanStays(members, at + 1, path, p, q, token, decoded);
    case Array(items) =>
      RestOfPath(q, path);
      EarlierItemSpanStays(items, at + 1, path, 0, p, q, token, decoded);
  }

  lemma {:induction false} EarlierMemberSpanStays(m: Members, at: nat, path: Path, p: Path, q: Path, token: string, decoded: Value)
    requires WellFormedMembers(m) && Spells(token, decoded)
    requires p in MemberSpans(m, at, path) && q in MemberSpans(m, at, path) && Below(q, path) && q[|path|].Key?
    requires MemberSpans(m, at, path)[p].1 <= MemberSpans(m, at, path)[q].0
    ensures WellFormedMembers(ReplaceMember(m, q[|path|].name, q[|path| + 1..], token, decoded))
    ensures KeepsSpan(MemberSpans(m, at, path),
                      MemberSpans(ReplaceMember(m, q[|path|].name, q[|path| + 1..], token, decoded), at, path), p)
    decreases m, 1
  {
    hide ScanScalar, Spells, SpansOf, MemberSpans, Print, WellFormed, WellFormedFrame;
    ReplaceMemberWellFormed(m, q[|path|].name, q[|path| + 1..], token, decoded);
    hide Print, SpansOf, MemberSpans, WellFormed, ScanScalar, ValueOffset, Below;
    MemberSide(m, at, path, p);
    MemberSide(m, at, path, q);
    var name := Key(m.name);
    var m' := ReplaceMember(m, q[|path|].name, q[|path| + 1..], token, decoded);
    if q[|path|] == name {
      RestOfPath(q, path);
      EarlierSpanStays(m.value, at + ValueOffset(m), path + [name], p, q, token, decoded);
      MemberValueStays(m, m', at, path, p);
    } else if p[|path|] == name {
      MemberValueStays(m, m', at, path, p);
    } else {
      EarlierMemberSpanStays(m.next, at + NextOffset(m), path, p, q, token, decoded);
      LaterMemberStays(m, m', at, path, p);
    }
  }

  lemma {:induction false} EarlierItemSpanStays(i: Items, at: nat, path: Path, index: nat, p: Path, q: Path, token: string, decoded: Value)
    requires WellFormedItems(i) && Spells(token, decoded)
    requires p in ItemSpans(i, at, path, index) && q in ItemSpans(i, at, path, index)
    requires Below(q, path) && q[|path|].Index? && index <= q[|path|].index
    requires ItemSpans(i, at, path, index)[p].1 <= ItemSpans(i, at, path, index)[q].0
    ensures WellFormedItems(ReplaceItem(i, q[|path|].index - index, q[|path| + 1..], token, decoded))
    ensures KeepsSpan(ItemSpans(i, at, path, index),
                      ItemSpans(ReplaceItem(i, q[|path|].index - index, q[|path| + 1..], token, decoded), at, path, index), p)
    decreases i, 1
  {
    hide ScanScalar, Spells, SpansOf, ItemSpans, Print, WellFormed;
    ReplaceItemWellFormed(i, q[|path|].index - index, q[|path| + 1..], token, decoded);
    hide Print, SpansOf, ItemSpans, WellFormed, ScanScalar;
    ItemSide(i, at, path, index, p);
    ItemSide(i, at, path, index, q);
    if q[|path|] == Index(index) {
      RestOfPath(q, path);
      EarlierSpanStays(i.value, at + |i.before|, path + [Index(index)], p, q, token, decoded);
      ItemValueStays(i, ReplaceItem(i, 0, q[|path| + 1..], token, decoded), at, path, index, p);
    } else if p[|path|] == Index(index) {
      ItemValueStays(i, ReplaceItem(i, q[|path|].index - index, q[|path| + 1..], token, decoded), at, path, index, p);
    } else {
      LaterItemsSpanStays(i, at, path, index, p, q, token, decoded);
    }
  }

  lemma {:induction false} LaterItemsSpanStays(i: Items, at: nat, path: Path, index: nat, p: Path, q: Path, token: string, decoded: Value)
    requires i.Item? && WellFormedItems(i) && Spells(token, decoded)
    requires var later := ItemSpans(i.next, at + ItemOffset(i), path, index + 1);
             p in later && q in later && later[p].1 <= later[q].0
    requires Below(q, path) && q[|path|].Index? && index < q[|path|].index
    requires WellFormedItems(ReplaceItem(i, q[|path|].index - index, q[|path| + 1..], token, decoded))
    ensures KeepsSpan(ItemSpans(i, at, path, index),
                      ItemSpans(ReplaceItem(i, q[|path|].index - index, q[|path| + 1..], token, decoded), at, path, index), p)
    decreases i, 0
  {
    EarlierItemSpanStays(i.next, at + ItemOffset(i), path, index + 1, p, q, token, decoded);
    LaterItemStays(i, ReplaceItem(i, q[|path|].index - index, q[|path| + 1..], token, decoded), at, path, index, p);
  }

  // ---- Whole documents ------------------------------------------------------------------------------

  datatype Edit = Edit(path: Path, token: string, value: Value)

  function SpliceAll(text: string, spans: Spans, edits: seq<Edit>): Option<string>
    decreases |edits|
  {
    if edits == [] then Some(text)
    else if edits[0].path !in spans then None
    else
      var (start, end) := spans[edits[0].path];
      if start <= end <= |text| then SpliceAll(Splice(text, start, end, edits[0].token), spans, edits[1..]) else None
  }

  function PutAll(value: Value, edits: seq<Edit>): Value
    decreases |edits|
  {
    if edits == [] then value
    else PutAll(Put(value, edits[0].path, edits[0].value), edits[1..])
  }

  function ReplaceAll(node: Node, edits: seq<Edit>): Node
    decreases |edits|
  {
    if edits == [] then node else ReplaceAll(Replace(node, edits[0].path, edits[0].token, edits[0].value), edits[1..])
  }

  /** Edits of known spans, the last one of the text first. */
  ghost predicate Descending(spans: Spans, edits: seq<Edit>) {
    && (forall e | e in edits :: e.path in spans && Spells(e.token, e.value))
    && forall i, j | 0 <= i < j < |edits| :: spans[edits[j].path].1 <= spans[edits[i].path].0
  }

  lemma DocumentSpanText(doc: Document, q: Path)
    requires WellFormedDocument(doc) && q in DocumentSpans(doc)
    ensures Holds(PrintDocument(doc), 0, DocumentSpans(doc)[q], TokenAt(doc.root, q))
    ensures |doc.before| <= DocumentSpans(doc)[q].0
  {
    hide Print, SpansOf, TokenAt, WellFormed;
    SpanHolds(doc.root, |doc.before|, [], q);
    assert q[0..] == q;
    assert PrintDocument(doc) == doc.before + Print(doc.root) + doc.after;
    hide PrintDocument;
    HoldsInside(doc.before, Print(doc.root), doc.after, 0, DocumentSpans(doc)[q], TokenAt(doc.root, q));
  }

  /** Facts about one recorded span: inside the text, and spelled by a token of the value at its path. */
  lemma DocumentSpan(doc: Document, q: Path)
    requires WellFormedDocument(doc) && q in DocumentSpans(doc)
    ensures var (start, end) := DocumentSpans(doc)[q];
      && start < end <= |PrintDocument(doc)|
      && Lookup(Tree(doc.root), q).Some?
      && Spells(PrintDocument(doc)[start..end], Lookup(Tree(doc.root), q).value)
  {
    DocumentSpanText(doc, q);
    TokenIsValue(doc.root, q);
  }

  lemma ReplaceInDocumentText(doc: Document, q: Path, token: string, decoded: Value)
    requires WellFormedDocument(doc) && q in DocumentSpans(doc)
    ensures Spliced(PrintDocument(doc), PrintDocument(doc.(root := Replace(doc.root, q, token, decoded))), 0,
                    DocumentSpans(doc)[q], token)
  {
    ReplaceIsSplice(doc.root, |doc.before|, [], q, token, decoded);
    assert q[0..] == q;
    var root' := Replace(doc.root, q, token, decoded);
    assert PrintDocument(doc) == doc.before + Print(doc.root) + doc.after;
    assert PrintDocument(doc.(root := root')) == doc.before + Print(root') + doc.after;
    SplicedInside(doc.before, Print(doc.root), Print(root'), doc.after, 0, DocumentSpans(doc)[q], token);
  }

  lemma ReplaceInDocument(doc: Document, q: Path, token: string, decoded: Value)
    requires WellFormedDocument(doc) && q in DocumentSpans(doc) && Spells(token, decoded)
    ensures var doc' := doc.(root := Replace(doc.root, q, token, decoded));
      && WellFormedDocument(doc')
      && Spliced(PrintDocument(doc), PrintDocument(doc'), 0, DocumentSpans(doc)[q], token)
      && Tree(doc'.root) == Put(Tree(doc.root), q, decoded)
  {
    DocumentSpanText(doc, q);
    ReplaceTree(doc.root, q, token, decoded);
    ReplaceInDocumentText(doc, q, token, decoded);
  }

  lemma {:induction false} SpliceAllMeaning(doc: Document, spans: Spans, edits: seq<Edit>)
    requires WellFormedDocument(doc) && Descending(spans, edits)
    requires forall e | e in edits :: KeepsSpan(spans, DocumentSpans(doc), e.path)
    ensures var doc' := doc.(root := ReplaceAll(doc.root, edits));
      && WellFormedDocument(doc')
      && SpliceAll(PrintDocument(doc), spans, edits) == Some(PrintDocument(doc'))
      && Tree(doc'.root) == PutAll(Tree(doc.root), edits)
    decreases |edits|
  {
    if edits != [] {
      var first := edits[0];
      var doc1 := doc.(root := Replace(doc.root, first.path, first.token, first.value));
      ReplaceInDocument(doc, first.path, first.token, first.value);
      forall e | e in edits[1..] ensures KeepsSpan(spans, DocumentSpans(doc1), e.path) {
        var j :| 1 <= j < |edits| && edits[j] == e;
        assert spans[edits[j].path].1 <= spans[edits[0].path].0;
        assert first.path[0..] == first.path;
        EarlierSpanStays(doc.root, |doc.before|, [], e.path, first.path, first.token, first.value);
      }
      assert Descending(spans, edits[1..]) by {
        forall i, j | 0 <= i < j < |edits[1..]|
          ensures spans[edits[1..][j].path].1 <= spans[edits[1..][i].path].0
        {
          assert edits[1..][i] == edits[i + 1] && edits[1..][j] == edits[j + 1];
        }
      }
      SpliceAllMeaning(doc1, spans, edits[1..]);
    }
  }

  /** One copying pass: the text up to an offset with the tokens in place of their spans. */
  function CopyWith(text: string, spans: Spans, edits: seq<Edit>, upto: nat): string
    requires Descending(spans, edits) && upto <= |text|
    requires forall e | e in edits :: spans[e.path].0 <= spans[e.path].1 <= upto
  {
    if edits == [] then text[..upto]
    else
      var (start, end) := spans[edits[0].path];
      RestFits(spans, edits);
      CopyWith(text, spans, edits[1..], start) + edits[0].token + text[end..upto]
  }

  lemma RestFits(spans: Spans, edits: seq<Edit>)
    requires edits != [] && Descending(spans, edits)
    ensures Descending(spans, edits[1..])
    ensures forall e | e in edits[1..] :: spans[e.path].1 <= spans[edits[0].path].0
  {
    hide ScanScalar, Spells;
    var rest := edits[1..];
    assert forall i | 0 <= i < |rest| :: rest[i] == edits[i + 1];
  }

  lemma SpliceInFront(text: string, upto: nat, tail: string, start: nat, end: nat, token: string)
    requires start <= end <= upto <= |text|
    ensures Splice(text[..upto] + tail, start, end, token) == text[..start] + (token + (text[end..upto] + tail))
  {
    assert (text[..upto] + tail)[..start] == text[..start];
    assert (text[..upto] + tail)[end..] == text[end..upto] + tail;
  }

  lemma CopiedParts(copy: string, token: string, middle: string, tail: string)
    ensures copy + (token + (middle + tail)) == copy + token + middle + tail
  {
  }

  lemma {:induction false} SpliceAllCopies(text: string, spans: Spans, edits: seq<Edit>, upto: nat, tail: string)
    requires Descending(spans, edits) && upto <= |text|
    requires forall e | e in edits :: spans[e.path].0 <= spans[e.path].1 <= upto
    ensures SpliceAll(text[..upto] + tail, spans, edits) == Some(CopyWith(text, spans, edits, upto) + tail)
    decreases |edits|
  {
    hide ScanScalar, Spells;
    if edits != [] {
      var (start, end) := spans[edits[0].path];
      var token := edits[0].token;
      assert edits[0] in edits;
      RestFits(spans, edits);
      hide Descending, Splice;
      SpliceInFront(text, upto, tail, start, end, token);
      SpliceAllCopies(text, spans, edits[1..], start, token + (text[end..upto] + tail));
      CopiedParts(CopyWith(text, spans, edits[1..], start), token, text[end..upto], tail);
    }
  }

  /** Splicing last span first is the copying pass: between and around the spans every character stays. */
  lemma OnlySpansChange(text: string, doc: Document, edits: seq<Edit>)
    requires ParseDocument(text) == Some(doc) && Descending(DocumentSpans(doc), edits)
    ensures forall e | e in edits :: DocumentSpans(doc)[e.path].0 <= DocumentSpans(doc)[e.path].1 <= |text|
    ensures SpliceAll(text, DocumentSpans(doc), edits) == Some(CopyWith(text, DocumentSpans(doc), edits, |text|))
  {
    AcceptsExactlyPrints(text, doc);
    forall e | e in edits ensures DocumentSpans(doc)[e.path].0 <= DocumentSpans(doc)[e.path].1 <= |text| {
      DocumentSpan(doc, e.path);
    }
    SpliceAllCopies(text, DocumentSpans(doc), edits, |text|, "");
    assert text[..|text|] + "" == text;
    var copy := CopyWith(text, DocumentSpans(doc), edits, |text|);
    assert copy + "" == copy;
  }

  /**
   * For every accepted text and every set of recorded spans: the spliced text is accepted again,
   * and its tree is the old tree with the new values at the edited paths.
   */
  lemma SplicedTextMeans(text: string, doc: Document, edits: seq<Edit>)
    requires ParseDocument(text) == Some(doc)
    requires WellFormedDocument(doc) && Descending(DocumentSpans(doc), edits)
    ensures SpliceAll(text, DocumentSpans(doc), edits).Some?
    ensures var doc' := ParseDocument(SpliceAll(text, DocumentSpans(doc), edits).value);
      && doc'.Some? && WellFormedDocument(doc'.value)
      && Tree(doc'.value.root) == PutAll(Tree(doc.root), edits)
      && doc'.value == doc.(root := ReplaceAll(doc.root, edits))
  {
    AcceptsExactlyPrints(text, doc);
    SpliceAllMeaning(doc, DocumentSpans(doc), edits);
    var doc' := doc.(root := ReplaceAll(doc.root, edits));
    AcceptsExactlyPrints(PrintDocument(doc'), doc');
  }

  /** All recorded spans of an accepted text: in bounds, disjoint, each spelling the value at its path. */
  lemma RecordedSpans(text: string, doc: Document, p: Path, q: Path)
    requires ParseDocument(text) == Some(doc) && WellFormedDocument(doc)
    requires p in DocumentSpans(doc) && q in DocumentSpans(doc)
    ensures var (start, end) := DocumentSpans(doc)[q];
      && start < end <= |text|
      && Lookup(Tree(doc.root), q).Some?
      && Spells(text[start..end], Lookup(Tree(doc.root), q).value)
    ensures p != q ==> DocumentSpans(doc)[p].1 <= DocumentSpans(doc)[q].0
                       || DocumentSpans(doc)[q].1 <= DocumentSpans(doc)[p].0
  {
    AcceptsExactlyPrints(text, doc);
    DocumentSpan(doc, q);
    if p != q {
      SpansDisjoint(doc.root, |doc.before|, [], p, q);
    }
  }

  // ---- Every scalar has a span --------------------------------------------------------------------

  predicate IsScalar(value: Value) {
    !value.JObject? && !value.JArray?
  }

  lemma {:induction false} ScalarHasSpan(node: Node, at: nat, path: Path, q: Path)
    requires WellFormed(node) && Lookup(Tree(node), q).Some? && IsScalar(Lookup(Tree(node), q).value)
    ensures path + q in SpansOf(node, at, path)
    decreases node
  {
    match node
    case Scalar(token, decoded) => assert path + [] == path;
    case Object(members) => MemberScalarHasSpan(members, at + 1, path, q);
    case Array(items) => ItemScalarHasSpan(items, at + 1, path, 0, q[0].index, q);
    case _ =>
  }

  lemma {:induction false} MemberScalarHasSpan(m: Members, at: nat, path: Path, q: Path)
    requires WellFormedMembers(m) && Lookup(JObject(Fields(m)), q).Some? && IsScalar(Lookup(JObject(Fields(m)), q).value)
    ensures path + q in MemberSpans(m, at, path)
    decreases m
  {
    hide ScanScalar, Spells, Print, SpansOf, Tree, WellFormed, WellFormedFrame;
    assert q == [q[0]] + q[1..] && path + q == (path + [q[0]]) + q[1..];
    if q[0].name == m.name {
      ScalarHasSpan(m.value, at + ValueOffset(m), path + [q[0]], q[1..]);
    } else {
      MemberScalarHasSpan(m.next, at + NextOffset(m), path, q);
    }
  }

  lemma {:induction false} ItemScalarHasSpan(i: Items, at: nat, path: Path, index: nat, k: nat, q: Path)
    requires WellFormedItems(i) && q != [] && q[0] == Index(index + k)
    requires k < |Elements(i)| && Lookup(Elements(i)[k], q[1..]).Some? && IsScalar(Lookup(Elements(i)[k], q[1..]).value)
    ensures path + q in ItemSpans(i, at, path, index)
    decreases i
  {
    hide ScanScalar, Spells, Print, SpansOf, Tree, WellFormed, Lookup;
    assert path + q == (path + [q[0]]) + q[1..];
    if k == 0 {
      ScalarHasSpan(i.value, at + |i.before|, path + [q[0]], q[1..]);
    } else {
      ItemScalarHasSpan(i.next, at + ItemOffset(i), path, index + 1, k - 1, q);
    }
  }

  /** The recorded spans are those of the scalars of the tree: none is missing and none is left over. */
  lemma SpansAreScalars(doc: Document, q: Path)
    requires WellFormedDocument(doc)
    ensures q in DocumentSpans(doc) <==> Lookup(Tree(doc.root), q).Some? && IsScalar(Lookup(Tree(doc.root), q).value)
  {
    if q in DocumentSpans(doc) {
      DocumentSpan(doc, q);
    } else if Lookup(Tree(doc.root), q).Some? && IsScalar(Lookup(Tree(doc.root), q).value) {
      assert [] + q == q;
      ScalarHasSpan(doc.root, |doc.before|, [], q);
    }
  }

  // ---- Many changes at once -------------------------------------------------------------------------

  predicate Comparable(p: Path, q: Path) {
    p <= q || q <= p
  }

  lemma {:induction false} NothingBelowScalar(value: Value, p: Path, q: Path)
    requires Lookup(value, p).Some? && IsScalar(Lookup(value, p).value) && Lookup(value, q).Some? && p <= q
    ensures p == q
    decreases |p|
  {
    if p == [] {
      assert q != [] ==> Lookup(value, q).None?;
    } else {
      assert p[0] == q[0] && p[1..] <= q[1..];
      match p[0]
      case Key(name) => NothingBelowScalar(value.fields[name], p[1..], q[1..]);
      case Index(i) => NothingBelowScalar(value.items[i], p[1..], q[1..]);
      assert p == [p[0]] + p[1..] && q == [q[0]] + q[1..];
    }
  }

  lemma {:induction false} PutAllElsewhere(value: Value, edits: seq<Edit>, other: Path)
    requires forall e | e in edits :: !Comparable(e.path, other)
    ensures Lookup(PutAll(value, edits), other) == Lookup(value, other)
    decreases |edits|
  {
    if edits != [] {
      assert edits[0] in edits;
      LookupElsewhere(value, edits[0].path, edits[0].value, other);
      PutAllElsewhere(Put(value, edits[0].path, edits[0].value), edits[1..], other);
    }
  }

  lemma {:induction false} PutAllThere(value: Value, edits: seq<Edit>, k: nat)
    requires k < |edits| && Lookup(value, edits[k].path).Some?
    requires forall i, j | 0 <= i < j < |edits| :: !Comparable(edits[i].path, edits[j].path)
    ensures Lookup(PutAll(value, edits), edits[k].path) == Some(edits[k].value)
    decreases |edits|
  {
    var e, rest := edits[0], edits[1..];
    var value1 := Put(value, e.path, e.value);
    assert forall i | 0 <= i < |rest| :: rest[i] == edits[i + 1];
    if k == 0 {
      LookupAfterPut(value, e.path, e.value);
      forall x | x in rest ensures !Comparable(x.path, e.path) {
        var j :| 0 <= j < |rest| && rest[j] == x;
        assert !Comparable(edits[0].path, edits[j + 1].path);
      }
      PutAllElsewhere(value1, rest, e.path);
    } else {
      assert !Comparable(edits[0].path, edits[k].path);
      LookupElsewhere(value, e.path, e.value, edits[k].path);
      PutAllThere(value1, rest, k - 1);
    }
  }

  /** A change inside an object, or beside it, leaves an object with the same keys. */
  lemma {:induction false} PutKeepsObject(value: Value, path: Path, update: Value, p: Path)
    requires Lookup(value, p).Some? && Lookup(value, p).value.JObject? && !(path <= p)
    ensures Lookup(Put(value, path, update), p).Some? && Lookup(Put(value, path, update), p).value.JObject?
    ensures Lookup(Put(value, path, update), p).value.fields.Keys == Lookup(value, p).value.fields.Keys
    decreases |p|
  {
    if p != [] && path[0] == p[0] {
      assert path == [path[0]] + path[1..] && p == [p[0]] + p[1..];
      match p[0]
      case Key(name) => PutKeepsObject(value.fields[name], path[1..], update, p[1..]);
      case Index(i) => PutKeepsObject(value.items[i], path[1..], update, p[1..]);
    }
  }

  lemma {:induction false} PutAllKeepsObject(value: Value, edits: seq<Edit>, p: Path)
    requires Lookup(value, p).Some? && Lookup(value, p).value.JObject? && forall e | e in edits :: !(e.path <= p)
    ensures Lookup(PutAll(value, edits), p).Some? && Lookup(PutAll(value, edits), p).value.JObject?
    ensures Lookup(PutAll(value, edits), p).value.fields.Keys == Lookup(value, p).value.fields.Keys
    decreases |edits|
  {
    if edits != [] {
      assert edits[0] in edits;
      PutKeepsObject(value, edits[0].path, edits[0].value, p);
      PutAllKeepsObject(Put(value, edits[0].path, edits[0].value), edits[1..], p);
    }
  }
}

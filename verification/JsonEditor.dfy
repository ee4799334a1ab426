/**
 * The JSON editor of scripts/version_plan.py (_json_edit): which fields a declaration owns, the
 * tokens written for a projected version, and what one edit and a repeated edit do to a text.
 */
module JsonEditor {
  import opened Wrappers
  import opened Text
  import opened Json
  import opened JsonRoundTrip
  import opened JsonReader
  import opened JsonSplice
  import opened JsonMeaning

  datatype Declaration =
    | JsonFile(field: seq<CodePoints>, package: Option<CodePoints>)
    | NpmLock(owner: CodePoints)

  /** A projected version: text, or the build number. */
  type Projected = v: Value | v.JString? || v.JInt? witness JInt(0)

  function Codes(s: string): CodePoints {
    seq(|s|, i requires 0 <= i < |s| => s[i] as int)
  }

  function KeyPath(names: seq<CodePoints>): (path: Path)
    ensures |path| == |names|
  {
    seq(|names|, i requires 0 <= i < |names| => Key(names[i]))
  }

  const NAME := Codes("name")
  const VERSION := Codes("version")
  const PACKAGES := Codes("packages")

  // ---- Tokens written by the standard encoder ------------------------------------------------

  function HexChar(v: nat): (c: char)
    requires v < 16
    ensures IsHexDigit(c) && HexValue(c) == v
  {
    if v < 10 then ('0' as int + v) as char else ('a' as int + (v - 10)) as char
  }

  predicate IsCharCode(code: int) {
    0 <= code < 0xD800 || 0xE000 <= code < 0x110000
  }

  /** Text that UTF-8 can encode. */
  predicate Encodable(text: CodePoints) {
    forall i | 0 <= i < |text| :: IsCharCode(text[i])
  }

  function EscapeCode(code: int): (s: string)
    requires IsCharCode(code)
    ensures s != "" && s[0] != '"'
  {
    if code == '"' as int then ['\\', '"']
    else if code == '\\' as int then ['\\', '\\']
    else if code == 8 then ['\\', 'b']
    else if code == 12 then ['\\', 'f']
    else if code == 10 then ['\\', 'n']
    else if code == 13 then ['\\', 'r']
    else if code == 9 then ['\\', 't']
    else if code < 32 then ['\\', 'u', '0', '0', HexChar(code / 16), HexChar(code % 16)]
    else [code as char]
  }

  function EscapeAll(text: CodePoints): string
    requires Encodable(text)
  {
    if text == [] then "" else EscapeCode(text[0]) + EscapeAll(text[1..])
  }

  function SignedDecimal(n: int): string {
    if n < 0 then ['-'] + Decimal(-n) else Decimal(n)
  }

  /** The replacement token; text with a lone surrogate cannot be written back. */
  function Dump(value: Projected): Option<string> {
    match value
    case JInt(n) => Some(SignedDecimal(n))
    case JString(text) => if Encodable(text) then Some(['"'] + (EscapeAll(text) + ['"'])) else None
  }

  lemma UnitOfCode(code: int, rest: string)
    requires IsCharCode(code) && rest != ""
    ensures ScanUnit(EscapeCode(code) + rest) == Some((code, |EscapeCode(code)|))
  {
    var s := EscapeCode(code) + rest;
    if code < 32 && code !in {8, 9, 10, 12, 13} {
      assert IsUnicodeEscape(s) && EscapedCode(s) == code;
    }
  }

  /** No other way of writing a character is shorter. */
  lemma EscapeIsShortest(code: int, s: string)
    requires IsCharCode(code) && s != "" && s[0] != '"'
    requires ScanUnit(s).Some? && ScanUnit(s).value.0 == code
    ensures |EscapeCode(code)| <= ScanUnit(s).value.1
  {
    hide EscapedCode, IsUnicodeEscape, IsSurrogatePair, HexChar;
  }

  lemma {:induction false} StringOfCodes(text: CodePoints)
    requires Encodable(text)
    ensures ScanString(EscapeAll(text) + ['"']) == Some((text, |EscapeAll(text)| + 1))
  {
    hide EscapeCode, ScanUnit;
    if text != [] {
      var rest := EscapeAll(text[1..]) + ['"'];
      var s := EscapeCode(text[0]) + rest;
      assert EscapeAll(text) + ['"'] == s;
      UnitOfCode(text[0], rest);
      StringOfCodes(text[1..]);
      assert s[|EscapeCode(text[0])|..] == rest;
      assert [text[0]] + text[1..] == text;
    }
  }

  lemma DigitsOnly(s: string)
    requires AllDigits(s)
    ensures DigitsLength(s) == |s|
  {
    assert s[..|s|] == s;
    DigitsAt(s, |s|);
  }

  lemma NegativeToken(n: nat)
    requires n > 0
    ensures var s := ['-'] + Decimal(n);
            IntegerLength(s) == |s| && KeywordLength(s) == 0 && IntegerValue(s) == 0 - n && s[0] != '"'
  {
    hide Decimal, DigitsLength;
    var s := ['-'] + Decimal(n);
    ParseOfDecimal(n);
    DigitsOnly(Decimal(n));
    assert s[1..] == Decimal(n);
    assert "-Infinity"[1] == 'I' && s[1] == Decimal(n)[0];
  }

  lemma IntegerToken(n: int)
    ensures var s := SignedDecimal(n);
            && IntegerLength(s) == |s| && KeywordLength(s) == 0 && IntegerValue(s) == n && s[0] != '"'
  {
    hide Decimal, IntegerLength, KeywordLength, IntegerValue;
    if n < 0 { NegativeToken(-n); } else { PositiveToken(n); }
  }

  lemma PositiveToken(n: nat)
    ensures var s := Decimal(n);
            IntegerLength(s) == |s| && KeywordLength(s) == 0 && IntegerValue(s) == n && s[0] != '"'
  {
    hide Decimal, DigitsLength;
    ParseOfDecimal(n);
    DigitsOnly(Decimal(n));
    assert Decimal(n)[0..] == Decimal(n);
  }

  /** What is written reads back as the value it was written for. */
  lemma DumpSpells(value: Projected)
    requires Dump(value).Some?
    ensures Spells(Dump(value).value, value)
  {
    var token := Dump(value).value;
    match value
    case JInt(n) =>
      IntegerToken(n);
      assert token[|token|..] == "" && token[..|token|] == token;
      NumberParts(token, |token|, 0, 0);
    case JString(text) =>
      StringOfCodes(text);
      assert token[1..] == EscapeAll(text) + ['"'];
  }

  // ---- Owned fields ----------------------------------------------------------------------------

  /** The fields a declaration selects in a tree, or nothing when the tree is not the declared package. */
  function FieldsOf(data: Value, declaration: Declaration): Option<seq<Path>> {
    match declaration
    case JsonFile(field, package) =>
      if package.Some? && Lookup(data, [Key(NAME)]) != Some(JString(package.value)) then None
      else Some([KeyPath(field)])
    case NpmLock(package) =>
      if Lookup(data, [Key(NAME)]) != Some(JString(package)) then None
      else if Lookup(data, [Key(PACKAGES)]).None? then Some([[Key(VERSION)]])
      else if !OwnsRoot(data, package) then None
      else Some([[Key(VERSION)], [Key(PACKAGES), Key([]), Key(VERSION)]])
  }

  /** The lock's root package: an object whose name, when it has one, is the declared package. */
  predicate OwnsRoot(data: Value, package: CodePoints) {
    var own := Lookup(data, [Key(PACKAGES), Key([])]);
    && own.Some? && own.value.JObject?
    && var name := Lookup(data, [Key(PACKAGES), Key([]), Key(NAME)]);
    && name in {None, Some(JString(package))}
  }

  function Replacement(value: Projected, current: Value): (r: Option<Projected>)
    ensures r.Some? ==> (r.value.JInt? <==> current.JInt?) && (r.value.JString? <==> current.JString?)
  {
    match current
    case JInt(_) => if value.JInt? then Some(value) else None
    case JString(_) => if value.JString? then Some(value) else Some(JString(Codes(SignedDecimal(value.number))))
    case _ => None
  }

  /** At most one edit for one field; nothing when the field cannot be edited. */
  function EditOf(data: Value, spans: Spans, field: Path, value: Projected): (r: Option<seq<Edit>>)
    ensures r.Some? ==> forall e | e in r.value :: e.path in spans
  {
    var current := Lookup(data, field);
    if current.None? || field !in spans then None
    else
      var replacement := Replacement(value, current.value);
      if replacement.None? then None
      else if current.value == replacement.value then Some([])
      else
        var token := Dump(replacement.value);
        if token.None? then None else Some([Edit(field, token.value, replacement.value)])
  }

  function EditsOf(data: Value, spans: Spans, fields: seq<Path>, value: Projected): (r: Option<seq<Edit>>)
    ensures r.Some? ==> forall e | e in r.value :: e.path in spans
  {
    if fields == [] then Some([])
    else
      var edits := EditsOf(data, spans, fields[..|fields| - 1], value);
      var last := EditOf(data, spans, fields[|fields| - 1], value);
      if edits.None? || last.None? then None else Some(edits.value + last.value)
  }

  lemma {:induction false} EditsRefused(data: Value, spans: Spans, fields: seq<Path>, value: Projected, n: nat)
    requires n <= |fields| && EditsOf(data, spans, fields[..n], value).None?
    ensures EditsOf(data, spans, fields, value).None?
  {
    if n < |fields| {
      assert fields[..|fields| - 1][..n] == fields[..n];
      EditsRefused(data, spans, fields[..|fields| - 1], value, n);
    } else {
      assert fields[..n] == fields;
    }
  }

  /** Python's sorted(..., reverse=True) on edits of distinct spans: the last span first. */
  function SortedLastFirst(spans: Spans, edits: seq<Edit>): (sorted: seq<Edit>)
    requires forall e | e in edits :: e.path in spans
    ensures forall e :: e in sorted <==> e in edits
    ensures |sorted| == |edits|
  {
    if edits == [] then [] else Insert(spans, edits[0], SortedLastFirst(spans, edits[1..]))
  }

  function Insert(spans: Spans, e: Edit, sorted: seq<Edit>): (r: seq<Edit>)
    requires e.path in spans && forall x | x in sorted :: x.path in spans
    ensures forall x :: x in r <==> x == e || x in sorted
    ensures |r| == |sorted| + 1
  {
    if sorted == [] || spans[sorted[0].path].0 < spans[e.path].0 then [e] + sorted
    else [sorted[0]] + Insert(spans, e, sorted[1..])
  }

  predicate Separate(a: (nat, nat), b: (nat, nat)) {
    a.0 < a.1 && b.0 < b.1 && (a.1 <= b.0 || b.1 <= a.0)
  }

  /** Descending, said from the front. */
  lemma DescendingFront(spans: Spans, e: Edit, sorted: seq<Edit>)
    requires Descending(spans, sorted) && e.path in spans && Spells(e.token, e.value)
    requires forall x | x in sorted :: spans[x.path].1 <= spans[e.path].0
    ensures Descending(spans, [e] + sorted)
  {
    hide ScanScalar, Spells;
    var r := [e] + sorted;
    forall i, j | 0 <= i < j < |r| ensures spans[r[j].path].1 <= spans[r[i].path].0 {
      assert r[j] == sorted[j - 1] && (i > 0 ==> r[i] == sorted[i - 1]);
    }
  }

  lemma DescendingRest(spans: Spans, sorted: seq<Edit>)
    requires sorted != [] && Descending(spans, sorted)
    ensures Descending(spans, sorted[1..])
    ensures forall x | x in sorted[1..] :: spans[x.path].1 <= spans[sorted[0].path].0
  {
    hide ScanScalar, Spells;
    var rest := sorted[1..];
    assert forall i | 0 <= i < |rest| :: rest[i] == sorted[i + 1];
  }

  lemma {:induction false} InsertDescends(spans: Spans, e: Edit, sorted: seq<Edit>)
    requires Descending(spans, sorted) && e.path in spans && Spells(e.token, e.value)
    requires forall x | x in sorted :: Separate(spans[e.path], spans[x.path])
    ensures Descending(spans, Insert(spans, e, sorted))
  {
    hide ScanScalar, Spells;
    if sorted == [] {
      DescendingFront(spans, e, sorted);
    } else {
      DescendingRest(spans, sorted);
      assert sorted == [sorted[0]] + sorted[1..] && sorted[0] in sorted;
      if spans[sorted[0].path].0 < spans[e.path].0 {
        assert forall x | x in sorted :: x == sorted[0] || x in sorted[1..];
        DescendingFront(spans, e, sorted);
      } else {
        InsertDescends(spans, e, sorted[1..]);
        DescendingFront(spans, sorted[0], Insert(spans, e, sorted[1..]));
      }
    }
  }

  /** Edits of different spans of one document. */
  ghost predicate Editable(spans: Spans, edits: seq<Edit>) {
    && (forall e | e in edits :: e.path in spans && Spells(e.token, e.value))
    && forall i, j | 0 <= i < j < |edits| :: edits[i].path != edits[j].path
  }

  lemma SpansSeparate(doc: Document, p: Path, q: Path)
    requires WellFormedDocument(doc) && p in DocumentSpans(doc) && q in DocumentSpans(doc) && p != q
    ensures Separate(DocumentSpans(doc)[p], DocumentSpans(doc)[q])
  {
    DocumentSpan(doc, p);
    DocumentSpan(doc, q);
    SpansDisjoint(doc.root, |doc.before|, [], p, q);
  }

  lemma {:induction false} SortedDescends(doc: Document, edits: seq<Edit>)
    requires WellFormedDocument(doc) && Editable(DocumentSpans(doc), edits)
    ensures Descending(DocumentSpans(doc), SortedLastFirst(DocumentSpans(doc), edits))
  {
    hide ScanScalar, Spells, DocumentSpans, WellFormedDocument;
    if edits != [] {
      var e, rest := edits[0], edits[1..];
      assert forall i | 0 <= i < |rest| :: rest[i] == edits[i + 1];
      SortedDescends(doc, rest);
      forall x | x in rest ensures Separate(DocumentSpans(doc)[e.path], DocumentSpans(doc)[x.path]) {
        SpansSeparate(doc, e.path, x.path);
      }
      InsertDescends(DocumentSpans(doc), e, SortedLastFirst(DocumentSpans(doc), rest));
    }
  }

  // ---- The edit -----------------------------------------------------------------------------------

  /** The edited text with the previous values of the selected fields. */
  function EditJson(text: string, declaration: Declaration, value: Projected): Option<string> {
    var doc := ParseDocument(text);
    if doc.None? then None
    else
      var data, spans := Tree(doc.value.root), DocumentSpans(doc.value);
      var fields := FieldsOf(data, declaration);
      if fields.None? then None
      else
        var edits := EditsOf(data, spans, fields.value, value);
        if edits.None? then None
        else SpliceAll(text, spans, SortedLastFirst(spans, edits.value))
  }

  lemma {:induction false} EditsFit(data: Value, spans: Spans, fields: seq<Path>, value: Projected)
    requires EditsOf(data, spans, fields, value).Some?
    ensures forall e | e in EditsOf(data, spans, fields, value).value ::
              e.path in fields && e.path in spans && Spells(e.token, e.value)
              && Lookup(data, e.path).Some? && Replacement(value, Lookup(data, e.path).value) == Some(e.value)
    ensures (forall i, j | 0 <= i < j < |fields| :: fields[i] != fields[j]) ==>
              var edits := EditsOf(data, spans, fields, value).value;
              forall i, j | 0 <= i < j < |edits| :: edits[i].path != edits[j].path
  {
    if fields != [] {
      var front, last := fields[..|fields| - 1], fields[|fields| - 1];
      EditsFit(data, spans, front, value);
      var replacement := Replacement(value, Lookup(data, last).value).value;
      if Lookup(data, last).value != replacement { DumpSpells(replacement); }
    }
  }

  lemma FieldsDiffer(data: Value, declaration: Declaration)
    requires FieldsOf(data, declaration).Some?
    ensures var fields := FieldsOf(data, declaration).value;
            forall i, j | 0 <= i < j < |fields| :: fields[i] != fields[j]
  {
  }

  /** What the edits are for an accepted text: selected fields that differ, each with its new value. */
  lemma EditsAre(doc: Document, declaration: Declaration, value: Projected)
    returns (fields: seq<Path>, edits: seq<Edit>, sorted: seq<Edit>)
    requires WellFormedDocument(doc) && EditJson(PrintDocument(doc), declaration, value).Some?
    requires ParseDocument(PrintDocument(doc)) == Some(doc)
    ensures FieldsOf(Tree(doc.root), declaration) == Some(fields)
    ensures EditsOf(Tree(doc.root), DocumentSpans(doc), fields, value) == Some(edits)
    ensures sorted == SortedLastFirst(DocumentSpans(doc), edits) && Descending(DocumentSpans(doc), sorted)
    ensures EditJson(PrintDocument(doc), declaration, value) == SpliceAll(PrintDocument(doc), DocumentSpans(doc), sorted)
  {
    hide Spells, ScanScalar, ParseNode;
    var data, spans := Tree(doc.root), DocumentSpans(doc);
    fields := FieldsOf(data, declaration).value;
    edits := EditsOf(data, spans, fields, value).value;
    sorted := SortedLastFirst(spans, edits);
    FieldsDiffer(data, declaration);
    EditsFit(data, spans, fields, value);
    SortedDescends(doc, edits);
  }

  /** Scalars at different paths lie beside each other. */
  lemma ScalarsApart(doc: Document, p: Path, q: Path)
    requires WellFormedDocument(doc) && p in DocumentSpans(doc) && q in DocumentSpans(doc) && p != q
    ensures !Comparable(p, q)
  {
    SpansAreScalars(doc, p);
    SpansAreScalars(doc, q);
    if p <= q { NothingBelowScalar(Tree(doc.root), p, q); }
    if q <= p { NothingBelowScalar(Tree(doc.root), q, p); }
  }

  lemma {:induction false} EveryFieldEdited(data: Value, spans: Spans, fields: seq<Path>, value: Projected, f: Path)
    requires EditsOf(data, spans, fields, value).Some? && f in fields
    ensures f in spans && Lookup(data, f).Some? && Replacement(value, Lookup(data, f).value).Some?
    ensures var current := Lookup(data, f).value;
            var updated := Replacement(value, current).value;
            var edits := EditsOf(data, spans, fields, value).value;
            current == updated || exists e :: e in edits && e.path == f && e.value == updated
  {
    var front, last := fields[..|fields| - 1], fields[|fields| - 1];
    if f == last {
      if Lookup(data, f).value != Replacement(value, Lookup(data, f).value).value {
        var edits := EditOf(data, spans, f, value).value;
        assert edits[0] in edits && edits[0].path == f;
      }
    } else {
      EveryFieldEdited(data, spans, front, value, f);
    }
  }

  /** The document an edit writes, and how its tree comes from the old one. */
  lemma EditedDocument(text: string, doc: Document, declaration: Declaration, value: Projected, result: string)
    returns (doc': Document, fields: seq<Path>, edits: seq<Edit>, sorted: seq<Edit>)
    requires ParseDocument(text) == Some(doc) && EditJson(text, declaration, value) == Some(result)
    ensures WellFormedDocument(doc) && ParseDocument(result) == Some(doc') && WellFormedDocument(doc')
    ensures FieldsOf(Tree(doc.root), declaration) == Some(fields)
    ensures EditsOf(Tree(doc.root), DocumentSpans(doc), fields, value) == Some(edits)
    ensures Descending(DocumentSpans(doc), sorted) && forall e :: e in sorted <==> e in edits
    ensures Tree(doc'.root) == PutAll(Tree(doc.root), sorted)
    ensures SpliceAll(text, DocumentSpans(doc), sorted) == Some(result)
  {
    hide Spells, ScanScalar, ParseNode, ParseDocument, EditJson;
    AcceptsExactlyPrints(text, doc);
    fields, edits, sorted := EditsAre(doc, declaration, value);
    SplicedTextMeans(text, doc, sorted);
    doc' := ParseDocument(result).value;
  }

  lemma SortedApart(doc: Document, sorted: seq<Edit>, i: nat, j: nat)
    requires WellFormedDocument(doc) && Descending(DocumentSpans(doc), sorted) && i < j < |sorted|
    ensures !Comparable(sorted[i].path, sorted[j].path)
  {
    var p, q := sorted[i].path, sorted[j].path;
    assert sorted[i] in sorted && sorted[j] in sorted;
    DocumentSpan(doc, p);
    DocumentSpan(doc, q);
    if p != q { ScalarsApart(doc, p, q); }
  }

  lemma FieldHolds(doc: Document, fields: seq<Path>, edits: seq<Edit>, sorted: seq<Edit>, value: Projected, f: Path)
    requires WellFormedDocument(doc) && f in fields
    requires EditsOf(Tree(doc.root), DocumentSpans(doc), fields, value) == Some(edits)
    requires Descending(DocumentSpans(doc), sorted) && forall e :: e in sorted <==> e in edits
    ensures f in DocumentSpans(doc) && Lookup(Tree(doc.root), f).Some?
    ensures Replacement(value, Lookup(Tree(doc.root), f).value).Some?
    ensures Lookup(PutAll(Tree(doc.root), sorted), f) == Some(Replacement(value, Lookup(Tree(doc.root), f).value).value)
  {
    hide Spells, ScanScalar, Tree, DocumentSpans;
    var data, spans := Tree(doc.root), DocumentSpans(doc);
    EveryFieldEdited(data, spans, fields, value, f);
    EditsFit(data, spans, fields, value);
    var updated := Replacement(value, Lookup(data, f).value).value;
    if k :| 0 <= k < |sorted| && sorted[k].path == f {
      forall i, j | 0 <= i < j < |sorted| ensures !Comparable(sorted[i].path, sorted[j].path) {
        SortedApart(doc, sorted, i, j);
      }
      assert sorted[k] in edits;
      PutAllThere(data, sorted, k);
    } else {
      forall e | e in sorted ensures !Comparable(e.path, f) {
        ScalarsApart(doc, e.path, f);
      }
      PutAllElsewhere(data, sorted, f);
    }
  }

  /**
   * An edited text is accepted again; every selected field holds the projected value, and every
   * path beside the selected fields leads to what it led to before.
   */
  lemma EditMeans(text: string, declaration: Declaration, value: Projected, result: string)
    requires EditJson(text, declaration, value) == Some(result)
    ensures ParseDocument(text).Some? && ParseDocument(result).Some?
    ensures FieldsOf(Tree(ParseDocument(text).value.root), declaration).Some?
    ensures var before, after := Tree(ParseDocument(text).value.root), Tree(ParseDocument(result).value.root);
            var fields := FieldsOf(before, declaration).value;
            && (forall f | f in fields :: Lookup(before, f).Some? && Replacement(value, Lookup(before, f).value).Some?)
            && (forall f | f in fields :: Lookup(after, f) == Some(Replacement(value, Lookup(before, f).value).value))
            && (forall other: Path | (forall f | f in fields :: !Comparable(f, other)) ::
                  Lookup(after, other) == Lookup(before, other))
  {
    hide Spells, ScanScalar, ParseNode, DocumentSpans, Tree;
    var doc := ParseDocument(text).value;
    var doc', fields, edits, sorted := EditedDocument(text, doc, declaration, value, result);
    var before := Tree(doc.root);
    forall f | f in fields
      ensures Lookup(before, f).Some? && Replacement(value, Lookup(before, f).value).Some?
      ensures Lookup(PutAll(before, sorted), f) == Some(Replacement(value, Lookup(before, f).value).value)
    {
      FieldHolds(doc, fields, edits, sorted, value, f);
    }
    forall other: Path | forall f | f in fields :: !Comparable(f, other)
      ensures Lookup(PutAll(before, sorted), other) == Lookup(before, other)
    {
      EditsFit(before, DocumentSpans(doc), fields, value);
      PutAllElsewhere(before, sorted, other);
    }
  }

  // ---- Editing twice ---------------------------------------------------------------------------------

  /** A declaration that is to overwrite the very name by which it is recognised. */
  predicate Renames(declaration: Declaration, value: Projected) {
    && declaration.JsonFile? && declaration.package.Some? && declaration.field == [NAME]
    && Replacement(value, JString(declaration.package.value)) != Some(JString(declaration.package.value))
  }

  lemma {:induction false} NoEdits(data: Value, spans: Spans, fields: seq<Path>, value: Projected)
    requires forall f | f in fields ::
               f in spans && Lookup(data, f).Some? && Replacement(value, Lookup(data, f).value) == Some(Lookup(data, f).value)
    ensures EditsOf(data, spans, fields, value) == Some([])
  {
    if fields != [] {
      var last := fields[|fields| - 1];
      NoEdits(data, spans, fields[..|fields| - 1], value);
      assert last in fields && EditOf(data, spans, last, value) == Some([]);
      assert EditsOf(data, spans, fields, value).value == [] + [];
    }
  }

  lemma NamesDiffer()
    ensures NAME != VERSION && NAME != PACKAGES && VERSION != PACKAGES
  {
    assert |NAME| == 4 && |VERSION| == 7 && |PACKAGES| == 8;
  }

  lemma PrefixFound(value: Value, p: Path)
    requires |p| == 2 && Lookup(value, p).Some?
    ensures Lookup(value, [p[0]]).Some?
  {
    assert [p[0]][1..] == [];
  }

  /** What recognises the lock's package is untouched, so the same fields are selected again. */
  lemma NpmNameKept(before: Value, package: CodePoints, edits: seq<Edit>)
    requires forall e | e in edits :: e.path in [[Key(VERSION)], [Key(PACKAGES), Key([]), Key(VERSION)]]
    ensures Lookup(PutAll(before, edits), [Key(NAME)]) == Lookup(before, [Key(NAME)])
    ensures (forall e | e in edits :: e.path == [Key(VERSION)]) ==>
              Lookup(PutAll(before, edits), [Key(PACKAGES)]) == Lookup(before, [Key(PACKAGES)])
  {
    NamesDiffer();
    forall e | e in edits ensures !Comparable(e.path, [Key(NAME)]) {
      assert e.path[0] != [Key(NAME)][0];
    }
    PutAllElsewhere(before, edits, [Key(NAME)]);
    if forall e | e in edits :: e.path == [Key(VERSION)] {
      forall e | e in edits ensures !Comparable(e.path, [Key(PACKAGES)]) {
        assert e.path[0] != [Key(PACKAGES)][0];
      }
      PutAllElsewhere(before, edits, [Key(PACKAGES)]);
    }
  }

  lemma NpmRootKept(before: Value, package: CodePoints, edits: seq<Edit>)
    requires OwnsRoot(before, package)
    requires forall e | e in edits :: e.path in [[Key(VERSION)], [Key(PACKAGES), Key([]), Key(VERSION)]]
    ensures OwnsRoot(PutAll(before, edits), package) && Lookup(PutAll(before, edits), [Key(PACKAGES)]).Some?
  {
    NamesDiffer();
    var own, name := [Key(PACKAGES), Key([])], [Key(PACKAGES), Key([]), Key(NAME)];
    forall e | e in edits ensures !(e.path <= own) && !Comparable(e.path, name) {
      if e.path == [Key(VERSION)] {
        assert e.path[0] != own[0] && e.path[0] != name[0];
      } else {
        assert e.path[2] != name[2];
      }
    }
    PutAllKeepsObject(before, edits, own);
    PutAllElsewhere(before, edits, name);
    PrefixFound(PutAll(before, edits), own);
  }

  lemma NpmFieldsKept(before: Value, declaration: Declaration, edits: seq<Edit>)
    requires declaration.NpmLock? && FieldsOf(before, declaration).Some?
    requires forall e | e in edits :: e.path in FieldsOf(before, declaration).value
    ensures FieldsOf(PutAll(before, edits), declaration) == FieldsOf(before, declaration)
  {
    hide Lookup, PutAll, OwnsRoot;
    NpmNameKept(before, declaration.owner, edits);
    if Lookup(before, [Key(PACKAGES)]).Some? {
      NpmRootKept(before, declaration.owner, edits);
    }
  }

  lemma KeyPathOfName(field: seq<CodePoints>)
    ensures KeyPath(field) == [Key(NAME)] <==> field == [NAME]
  {
    assert |field| > 0 ==> KeyPath(field)[0] == Key(field[0]);
    assert field == [NAME] ==> KeyPath(field) == [Key(NAME)];
    assert [Key(NAME)][0] == Key(NAME);
  }

  lemma JsonFieldsKept(doc: Document, declaration: Declaration, edits: seq<Edit>)
    requires WellFormedDocument(doc) && Descending(DocumentSpans(doc), edits)
    requires declaration.JsonFile? && FieldsOf(Tree(doc.root), declaration).Some?
    requires forall e | e in edits :: e.path == KeyPath(declaration.field)
    requires declaration.field != [NAME]
    ensures FieldsOf(PutAll(Tree(doc.root), edits), declaration) == FieldsOf(Tree(doc.root), declaration)
  {
    var before, name := Tree(doc.root), [Key(NAME)];
    KeyPathOfName(declaration.field);
    if declaration.package.Some? {
      SpansAreScalars(doc, name);
      forall e | e in edits ensures !Comparable(e.path, name) {
        ScalarsApart(doc, e.path, name);
      }
      PutAllElsewhere(before, edits, name);
    }
  }

  /** A package that is renamed is not found again; any other declaration selects its fields again. */
  lemma FieldsAgain(doc: Document, declaration: Declaration, value: Projected, fields: seq<Path>, edits: seq<Edit>)
    requires WellFormedDocument(doc) && Descending(DocumentSpans(doc), edits)
    requires FieldsOf(Tree(doc.root), declaration) == Some(fields) && forall e | e in edits :: e.path in fields
    requires forall f | f in fields :: Lookup(Tree(doc.root), f).Some?
               && Lookup(PutAll(Tree(doc.root), edits), f) == Replacement(value, Lookup(Tree(doc.root), f).value)
    ensures FieldsOf(PutAll(Tree(doc.root), edits), declaration)
         == if Renames(declaration, value) then None else Some(fields)
  {
    hide Tree, DocumentSpans, WellFormedDocument, Lookup, PutAll, Replacement;
    if declaration.NpmLock? {
      NpmFieldsKept(Tree(doc.root), declaration, edits);
    } else if declaration.field == [NAME] {
      KeyPathOfName(declaration.field);
      assert fields[0] in fields && fields[0] == [Key(NAME)];
    } else {
      JsonFieldsKept(doc, declaration, edits);
    }
  }

  lemma ReplacedAgain(value: Projected, current: Value)
    requires Replacement(value, current).Some?
    ensures var updated := Replacement(value, current).value;
            IsScalar(updated) && Replacement(value, updated) == Some(updated)
  {
  }

  lemma AllFieldsHold(doc: Document, fields: seq<Path>, edits: seq<Edit>, sorted: seq<Edit>, value: Projected)
    requires WellFormedDocument(doc)
    requires EditsOf(Tree(doc.root), DocumentSpans(doc), fields, value) == Some(edits)
    requires Descending(DocumentSpans(doc), sorted) && forall e :: e in sorted <==> e in edits
    ensures forall e | e in sorted :: e.path in fields
    ensures forall f | f in fields ::
              var before, after := Lookup(Tree(doc.root), f), Lookup(PutAll(Tree(doc.root), sorted), f);
              && before.Some? && after == Replacement(value, before.value) && after.Some?
              && IsScalar(after.value) && Replacement(value, after.value) == Some(after.value)
  {
    EditsFit(Tree(doc.root), DocumentSpans(doc), fields, value);
    hide Tree, DocumentSpans, WellFormedDocument, Lookup, PutAll, Replacement, EditsOf, Descending, IsScalar;
    forall f | f in fields
      ensures var before, after := Lookup(Tree(doc.root), f), Lookup(PutAll(Tree(doc.root), sorted), f);
              && before.Some? && after == Replacement(value, before.value) && after.Some?
              && IsScalar(after.value) && Replacement(value, after.value) == Some(after.value)
    {
      FieldHolds(doc, fields, edits, sorted, value, f);
      ReplacedAgain(value, Lookup(Tree(doc.root), f).value);
    }
  }

  /**
   * Editing an edited text again gives it back unchanged, with one exception: a declaration that
   * renames its own package no longer finds that package.
   */
  lemma EditTwice(text: string, declaration: Declaration, value: Projected, result: string)
    requires EditJson(text, declaration, value) == Some(result)
    ensures EditJson(result, declaration, value) == if Renames(declaration, value) then None else Some(result)
  {
    EditsADocument(text, declaration, value);
    hide EditJson, ParseDocument, DocumentSpans, Tree, PutAll, FieldsOf, Lookup, Replacement, IsScalar, EditsOf, SpliceAll,
         Descending, WellFormedDocument, Renames;
    var doc := ParseDocument(text).value;
    var doc', fields, edits, sorted := EditedDocument(text, doc, declaration, value, result);
    AllFieldsHold(doc, fields, edits, sorted, value);
    FieldsAgain(doc, declaration, value, fields, sorted);
    if Renames(declaration, value) {
      NothingSelected(result, doc', declaration, value);
    } else {
      UnchangedAgain(doc', declaration, fields, value, result);
    }
  }

  lemma EditsADocument(text: string, declaration: Declaration, value: Projected)
    requires EditJson(text, declaration, value).Some?
    ensures ParseDocument(text).Some?
  {
    hide ParseDocument;
  }

  lemma NothingSelected(text: string, doc: Document, declaration: Declaration, value: Projected)
    requires ParseDocument(text) == Some(doc) && FieldsOf(Tree(doc.root), declaration).None?
    ensures EditJson(text, declaration, value).None?
  {
    hide ParseDocument, FieldsOf;
  }

  /** An object with one field: its key, and its token and text. */
  function OneField(key: string, name: CodePoints, token: string, text: CodePoints): Document {
    Document("", Object(Member("", key, name, "", "", Scalar(token, JString(text)), "", EndObject)), "")
  }

  lemma OneFieldIsParsed(key: string, name: CodePoints, token: string, text: CodePoints)
    requires SpellsKey(key, name) && Spells(token, JString(text))
    ensures var doc, printed := OneField(key, name, token, text), ['{'] + (key + ([':'] + (token + ['}'])));
            && WellFormedDocument(doc) && ParseDocument(printed) == Some(doc) && PrintDocument(doc) == printed
            && Lookup(Tree(doc.root), [Key(name)]) == Some(JString(text))
  {
    hide Spells, SpellsKey, ParseDocument;
    var doc, printed := OneField(key, name, token, text), ['{'] + (key + ([':'] + (token + ['}'])));
    var m := doc.root.members;
    assert Head(m) == key + [':'] && PrintMembers(m) == (Head(m) + token) + ['}'];
    assert PrintDocument(doc) == printed;
    assert m.next == EndObject && WellFormedMembers(m.next) && WellFormed(m.value) && WellFormedFrame(m);
    assert WellFormed(doc.root);
    AcceptsExactlyPrints(printed, doc);
    var value := Tree(doc.root);
    assert Fields(m) == map[name := JString(text)] && value == JObject(Fields(m));
    assert [Key(name)][1..] == [] && Lookup(JString(text), []) == Some(JString(text));
  }

  /** The package named "a", declared as itself, whose name is to become "b". */
  const NAMED_A := "{\"name\":\"a\"}"
  const OWN_NAME := JsonFile([NAME], Some(Codes("a")))
  const NAMED_B := JString(Codes("b"))

  lemma NamedTokens()
    ensures SpellsKey("\"name\"", NAME) && Spells("\"a\"", JString(Codes("a")))
  {
    var s := NAME;
    assert EscapeAll(s[1..][1..][1..]) == "e" && EscapeAll(s[1..][1..]) == "me" && EscapeAll(s[1..]) == "ame";
    assert EscapeAll(s) == "name" && EscapeAll(Codes("a")) == "a";
    assert ['"'] + ("name" + ['"']) == "\"name\"" && ['"'] + ("a" + ['"']) == "\"a\"";
    hide EscapeAll, Codes, ScanScalar;
    DumpSpells(JString(s));
    DumpSpells(JString(Codes("a")));
  }

  /** The exception occurs: renaming the package works once and is refused the second time. */
  lemma RenameOccurs()
    ensures Renames(OWN_NAME, NAMED_B) && EditJson(NAMED_A, OWN_NAME, NAMED_B).Some?
    ensures EditJson(EditJson(NAMED_A, OWN_NAME, NAMED_B).value, OWN_NAME, NAMED_B).None?
  {
    hide Renames, Encodable, Codes, OneField, EditJson, ParseDocument, Lookup, Tree, Spells, SpellsKey, EscapeAll;
    NamedTokens();
    NamedAIsParsed();
    NamesAreText();
    NameIsEdited(NAMED_A, OneField("\"name\"", NAME, "\"a\"", Codes("a")), Codes("a"), Codes("b"));
  }

  lemma NamesAreText()
    ensures Codes("a") != Codes("b") && Encodable(Codes("b"))
  {
    assert Codes("a")[0] != Codes("b")[0];
  }

  lemma NamedAIsParsed()
    requires SpellsKey("\"name\"", NAME) && Spells("\"a\"", JString(Codes("a")))
    ensures var doc := OneField("\"name\"", NAME, "\"a\"", Codes("a"));
            ParseDocument(NAMED_A) == Some(doc) && Lookup(Tree(doc.root), [Key(NAME)]) == Some(JString(Codes("a")))
  {
    hide Codes, OneField, EditJson, ParseDocument, Lookup, Tree, Spells, SpellsKey;
    OneFieldIsParsed("\"name\"", NAME, "\"a\"", Codes("a"));
    assert ['{'] + ("\"name\"" + ([':'] + ("\"a\"" + ['}']))) == NAMED_A;
  }

  lemma NameIsEdited(text: string, doc: Document, name: CodePoints, other: CodePoints)
    requires ParseDocument(text) == Some(doc) && Lookup(Tree(doc.root), [Key(NAME)]) == Some(JString(name))
    requires Encodable(other) && other != name
    ensures var declaration, value := JsonFile([NAME], Some(name)), JString(other);
            && Renames(declaration, value) && EditJson(text, declaration, value).Some?
            && EditJson(EditJson(text, declaration, value).value, declaration, value).None?
  {
    var path, value := [Key(NAME)], JString(other);
    AcceptsExactlyPrints(text, doc);
    SpansAreScalars(doc, path);
    KeyPathOfName([NAME]);
    hide ParseDocument, Tree, DocumentSpans, Lookup, Codes, WellFormedDocument, SpliceAll, EscapeAll, SortedLastFirst;
    var data, spans, fields := Tree(doc.root), DocumentSpans(doc), [path];
    assert fields[..0] == [] && EditsOf(data, spans, [], value) == Some([]);
    assert EditOf(data, spans, path, value).Some?;
    SplicesSucceed(text, doc, fields, value, EditsOf(data, spans, fields, value).value);
    var declaration := JsonFile([NAME], Some(name));
    EditTwice(text, declaration, value, EditJson(text, declaration, value).value);
  }

  lemma UnchangedAgain(doc: Document, declaration: Declaration, fields: seq<Path>, value: Projected, text: string)
    requires ParseDocument(text) == Some(doc) && WellFormedDocument(doc)
    requires FieldsOf(Tree(doc.root), declaration) == Some(fields)
    requires forall f | f in fields :: Lookup(Tree(doc.root), f).Some?
               && IsScalar(Lookup(Tree(doc.root), f).value)
               && Replacement(value, Lookup(Tree(doc.root), f).value) == Some(Lookup(Tree(doc.root), f).value)
    ensures EditJson(text, declaration, value) == Some(text)
  {
    hide ParseDocument;
    forall f | f in fields ensures f in DocumentSpans(doc) {
      SpansAreScalars(doc, f);
    }
    NoEdits(Tree(doc.root), DocumentSpans(doc), fields, value);
  }

  // ---- The editor's loops --------------------------------------------------------------------------

  lemma PrefixEdits(data: Value, spans: Spans, fields: seq<Path>, value: Projected, i: nat)
    requires i < |fields|
    ensures var edits := EditsOf(data, spans, fields[..i], value);
            var last := EditOf(data, spans, fields[i], value);
            EditsOf(data, spans, fields[..i + 1], value) ==
              if edits.None? || last.None? then None else Some(edits.value + last.value)
    ensures EditOf(data, spans, fields[i], value).Some? ==> Lookup(data, fields[i]).Some?
  {
    assert fields[..i + 1][..i] == fields[..i];
  }

  lemma NoFields(data: Value, spans: Spans, fields: seq<Path>, value: Projected)
    ensures EditsOf(data, spans, fields[..0], value) == Some([]) && fields[..|fields|] == fields
  {
  }

  /** The splices from one position on always have their spans in bounds. */
  lemma SplicesSucceed(text: string, doc: Document, fields: seq<Path>, value: Projected, edits: seq<Edit>)
    requires ParseDocument(text) == Some(doc)
    requires forall i, j | 0 <= i < j < |fields| :: fields[i] != fields[j]
    requires EditsOf(Tree(doc.root), DocumentSpans(doc), fields, value) == Some(edits)
    ensures SpliceAll(text, DocumentSpans(doc), SortedLastFirst(DocumentSpans(doc), edits)).Some?
  {
    hide Spells, ScanScalar, ParseNode, ParseDocument, Tree, DocumentSpans;
    AcceptsExactlyPrints(text, doc);
    EditsFit(Tree(doc.root), DocumentSpans(doc), fields, value);
    SortedDescends(doc, edits);
    SplicedTextMeans(text, doc, SortedLastFirst(DocumentSpans(doc), edits));
  }

  lemma FieldsAre(data: Value, declaration: Declaration)
    requires FieldsOf(data, declaration).Some?
    ensures var fields := FieldsOf(data, declaration).value;
            match declaration
            case JsonFile(field, _) => fields == [KeyPath(field)]
            case NpmLock(_) =>
              && |fields| == (if Lookup(data, [Key(PACKAGES)]).Some? then 2 else 1) && fields[0] == [Key(VERSION)]
              && (|fields| == 2 ==> fields[1] == [Key(PACKAGES), Key([]), Key(VERSION)])
  {
    hide Lookup;
  }

  /** The edited text, and the values that the selected fields held before. */
  method EditText(text: string, declaration: Declaration, value: Projected) returns (r: Option<(string, seq<Value>)>)
    ensures match EditJson(text, declaration, value)
            case None => r.None?
            case Some(result) =>
              && r.Some? && r.value.0 == result
              && var data := Tree(ParseDocument(text).value.root);
              && var fields := FieldsOf(data, declaration).value;
              && |r.value.1| == |fields|
              && (forall i | 0 <= i < |fields| :: Some(r.value.1[i]) == Lookup(data, fields[i]))
    ensures r.Some? && declaration.JsonFile? ==>
              var data := Tree(ParseDocument(text).value.root);
              |r.value.1| == 1 && Some(r.value.1[0]) == Lookup(data, KeyPath(declaration.field))
    ensures r.Some? && declaration.NpmLock? ==>
              var data := Tree(ParseDocument(text).value.root);
              && |r.value.1| == (if Lookup(data, [Key(Codes("packages"))]).Some? then 2 else 1)
              && Some(r.value.1[0]) == Lookup(data, [Key(Codes("version"))])
              && (|r.value.1| == 2 ==>
                    Some(r.value.1[1]) == Lookup(data, [Key(Codes("packages")), Key([]), Key(Codes("version"))]))
  {
    hide ScanScalar, ParseDocument, Tree, DocumentSpans, Lookup, FieldsOf, EditOf, EditsOf, SortedLastFirst, Insert;
    var loaded := Load(text);
    if loaded.None? {
      return None;
    }
    var (data, spans) := loaded.value;
    ghost var doc := ParseDocument(text).value;
    var selected := FieldsOf(data, declaration);
    if selected.None? {
      return None;
    }
    var fields := selected.value;
    FieldsDiffer(data, declaration);
    FieldsAre(data, declaration);
    NoFields(data, spans, fields, value);
    var edits: seq<Edit> := [];
    var previous := [];
    for i := 0 to |fields|
      invariant EditsOf(data, spans, fields[..i], value) == Some(edits)
      invariant |previous| == i && forall k | 0 <= k < i :: Some(previous[k]) == Lookup(data, fields[k])
    {
      PrefixEdits(data, spans, fields, value, i);
      var edit := EditOf(data, spans, fields[i], value);
      if edit.None? {
        EditsRefused(data, spans, fields, value, i + 1);
        return None;
      }
      edits := edits + edit.value;
      previous := previous + [Lookup(data, fields[i]).value];
    }
    SplicesSucceed(text, doc, fields, value, edits);
    var sorted, current := SortedLastFirst(spans, edits), text;
    assert sorted[0..] == sorted;
    for i := 0 to |sorted|
      invariant SpliceAll(current, spans, sorted[i..]) == SpliceAll(text, spans, sorted)
    {
      assert sorted[i..][1..] == sorted[i + 1..] && sorted[i] in sorted;
      var (start, end) := spans[sorted[i].path];
      current := current[..start] + sorted[i].token + current[end..];
    }
    return Some((current, previous));
  }
}

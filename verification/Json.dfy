/**
 * JSON text as scripts/version_plan.py reads it (_JsonDocument and the standard decoder's
 * scalars): a concrete syntax that keeps every character, its parser, and the tree and the
 * scalar spans that the parser records.
 */
module Json {
  import opened Wrappers
  import opened Text

  /** Decoded text is a sequence of code points, because escapes can denote lone surrogates. */
  type CodePoints = seq<int>

  datatype Value =
    | JString(text: CodePoints)
    | JInt(number: int)
    | JOther(token: string)
    | JObject(fields: map<CodePoints, Value>)
    | JArray(items: seq<Value>)

  datatype Step = Key(name: CodePoints) | Index(index: nat)

  type Path = seq<Step>

  /** Every character of an accepted value has its place in one of these; tokens stand with what they spell. */
  datatype Node =
    | Scalar(token: string, decoded: Value)
    | EmptyObject(inner: string)
    | Object(members: Members)
    | EmptyArray(inner: string)
    | Array(items: Items)

  datatype Members =
    | EndObject
    | Member(before: string, key: string, name: CodePoints, beforeColon: string, beforeValue: string,
             value: Node, after: string, next: Members)

  datatype Items =
    | EndArray
    | Item(before: string, value: Node, after: string, next: Items)

  datatype Document = Document(before: string, root: Node, after: string)

  // ---- Scalars ---------------------------------------------------------------------------

  predicate IsSpace(c: char) {
    c == ' ' || c == '\n' || c == '\r' || c == '\t'
  }

  predicate AllSpace(s: string) {
    forall i | 0 <= i < |s| :: IsSpace(s[i])
  }

  function SpaceLength(s: string): (n: nat)
    ensures n <= |s| && AllSpace(s[..n]) && (n < |s| ==> !IsSpace(s[n]))
  {
    if s == "" || !IsSpace(s[0]) then 0 else 1 + SpaceLength(s[1..])
  }

  predicate IsHexDigit(c: char) {
    IsDigit(c) || 'a' <= c <= 'f' || 'A' <= c <= 'F'
  }

  function HexValue(c: char): (v: nat)
    requires IsHexDigit(c)
    ensures v < 16
  {
    if IsDigit(c) then c as int - '0' as int
    else if 'a' <= c <= 'f' then c as int - 'a' as int + 10
    else c as int - 'A' as int + 10
  }

  predicate IsUnicodeEscape(s: string) {
    |s| >= 6 && s[0] == '\\' && s[1] == 'u' && forall i | 2 <= i < 6 :: IsHexDigit(s[i])
  }

  function EscapedCode(s: string): nat
    requires IsUnicodeEscape(s)
  {
    4096 * HexValue(s[2]) + 256 * HexValue(s[3]) + 16 * HexValue(s[4]) + HexValue(s[5])
  }

  predicate IsSurrogatePair(s: string) {
    && IsUnicodeEscape(s)
    && 0xD800 <= EscapedCode(s) < 0xDC00
    && IsUnicodeEscape(s[6..])
    && 0xDC00 <= EscapedCode(s[6..]) < 0xE000
  }

  function SimpleEscape(c: char): Option<int> {
    match c
    case '"' => Some('"' as int)
    case '\\' => Some('\\' as int)
    case '/' => Some('/' as int)
    case 'b' => Some(8)
    case 'f' => Some(12)
    case 'n' => Some(10)
    case 'r' => Some(13)
    case 't' => Some(9)
    case _ => None
  }

  /** The first code point of string content and the number of characters that spell it. */
  function ScanUnit(s: string): (r: Option<(int, nat)>)
    requires s != "" && s[0] != '"'
    ensures r.Some? ==> 0 < r.value.1 <= |s|
  {
    if s[0] == '\\' then
      if |s| < 2 then None
      else if s[1] == 'u' then
        if !IsUnicodeEscape(s) then None
        else if IsSurrogatePair(s) then
          Some((0x10000 + (EscapedCode(s) - 0xD800) * 1024 + (EscapedCode(s[6..]) - 0xDC00), 12))
        else Some((EscapedCode(s), 6))
      else
        var code := SimpleEscape(s[1]);
        if code.Some? then Some((code.value, 2)) else None
    else if s[0] as int < 32 then None
    else Some((s[0] as int, 1))
  }

  /** String content up to and including the closing quote. */
  function ScanString(s: string): (r: Option<(CodePoints, nat)>)
    ensures r.Some? ==> 0 < r.value.1 <= |s|
    decreases |s|
  {
    if s == "" then None
    else if s[0] == '"' then Some(([], 1))
    else
      var unit := ScanUnit(s);
      if unit.None? then None
      else
        var (code, n) := unit.value;
        var rest := ScanString(s[n..]);
        if rest.None? then None else Some(([code] + rest.value.0, n + rest.value.1))
  }

  function DigitsLength(s: string): (n: nat)
    ensures n <= |s| && AllDigits(s[..n]) && (n < |s| ==> !IsDigit(s[n]))
  {
    if s == "" || !IsDigit(s[0]) then 0 else 1 + DigitsLength(s[1..])
  }

  function IntegerLength(s: string): (n: nat)
    ensures n <= |s|
  {
    var sign := if s != "" && s[0] == '-' then 1 else 0;
    if |s| <= sign || !IsDigit(s[sign]) then 0
    else if s[sign] == '0' then sign + 1
    else sign + DigitsLength(s[sign..])
  }

  function FractionLength(s: string): (n: nat)
    ensures n <= |s|
  {
    if |s| >= 2 && s[0] == '.' && IsDigit(s[1]) then 1 + DigitsLength(s[1..]) else 0
  }

  function ExponentLength(s: string): (n: nat)
    ensures n <= |s|
  {
    if s == "" || (s[0] != 'e' && s[0] != 'E') then 0
    else
      var sign := if |s| > 1 && (s[1] == '+' || s[1] == '-') then 2 else 1;
      if |s| > sign && IsDigit(s[sign]) then sign + DigitsLength(s[sign..]) else 0
  }

  function NumberLength(s: string): (n: nat)
    ensures n <= |s|
  {
    var i := IntegerLength(s);
    if i == 0 then 0
    else
      var f := FractionLength(s[i..]);
      i + f + ExponentLength(s[i + f..])
  }

  function IntegerValue(token: string): int {
    if token != "" && token[0] == '-' then
      if AllDigits(token[1..]) then 0 - ParseDecimal(token[1..]) else 0
    else if AllDigits(token) then ParseDecimal(token)
    else 0
  }

  function KeywordFor(c: char): string {
    match c
    case 'n' => "null"
    case 't' => "true"
    case 'f' => "false"
    case 'N' => "NaN"
    case 'I' => "Infinity"
    case '-' => "-Infinity"
    case _ => ""
  }

  function KeywordLength(s: string): (n: nat)
    ensures n <= |s|
  {
    if s != "" && KeywordFor(s[0]) <= s then |KeywordFor(s[0])| else 0
  }

  /** The scalar at the start of a text: its value and its length. */
  function ScanScalar(s: string): (r: Option<(Value, nat)>)
    ensures r.Some? ==> 0 < r.value.1 <= |s|
  {
    if s != "" && s[0] == '"' then
      var content := ScanString(s[1..]);
      if content.None? then None else Some((JString(content.value.0), 1 + content.value.1))
    else if KeywordLength(s) > 0 then Some((JOther(s[..KeywordLength(s)]), KeywordLength(s)))
    else
      var n := NumberLength(s);
      if n == 0 then None
      else if IntegerLength(s) == n then Some((JInt(IntegerValue(s[..n])), n))
      else Some((JOther(s[..n]), n))
  }

  /** The token is one scalar from its first to its last character, and this is its value. */
  predicate Spells(token: string, value: Value) {
    ScanScalar(token) == Some((value, |token|))
  }

  predicate SpellsKey(token: string, name: CodePoints) {
    token != "" && token[0] == '"' && Spells(token, JString(name))
  }

  /** Nothing, or a character that cannot continue a number. */
  predicate Stops(rest: string) {
    rest == "" || (!IsDigit(rest[0]) && rest[0] != '.' && rest[0] != 'e' && rest[0] != 'E')
  }

  // ---- Printing ---------------------------------------------------------------------------

  function Print(node: Node): string
    decreases node, 0
  {
    match node
    case Scalar(token, _) => token
    case EmptyObject(inner) => ['{'] + (inner + ['}'])
    case Object(members) => ['{'] + PrintMembers(members)
    case EmptyArray(inner) => ['['] + (inner + [']'])
    case Array(items) => ['['] + PrintItems(items)
  }

  /** Everything of a member before its value. */
  function Head(m: Members): string
    requires m.Member?
  {
    m.before + (m.key + (m.beforeColon + ([':'] + m.beforeValue)))
  }

  function PrintMembers(members: Members): string
    decreases members, 0
  {
    if members.EndObject? then ['}']
    else (Head(members) + (Print(members.value) + members.after)) + MembersTail(members.next)
  }

  function MembersTail(next: Members): string
    decreases next, 1
  {
    if next.EndObject? then ['}'] else [','] + PrintMembers(next)
  }

  function PrintItems(items: Items): string
    decreases items, 0
  {
    if items.EndArray? then [']']
    else (items.before + (Print(items.value) + items.after)) + ItemsTail(items.next)
  }

  function ItemsTail(next: Items): string
    decreases next, 1
  {
    if next.EndArray? then [']'] else [','] + PrintItems(next)
  }

  function PrintDocument(doc: Document): string {
    doc.before + (Print(doc.root) + doc.after)
  }

  // ---- Well-formed syntax -------------------------------------------------------------------

  function Keys(members: Members): set<CodePoints> {
    if members.EndObject? then {} else {members.name} + Keys(members.next)
  }

  predicate WellFormed(node: Node) {
    match node
    case Scalar(token, decoded) => Spells(token, decoded)
    case EmptyObject(inner) => AllSpace(inner)
    case Object(members) => members.Member? && WellFormedMembers(members)
    case EmptyArray(inner) => AllSpace(inner)
    case Array(items) => items.Item? && WellFormedItems(items)
  }

  /** The parts of a member around its value. */
  predicate WellFormedFrame(m: Members)
    requires m.Member?
  {
    && AllSpace(m.before) && AllSpace(m.beforeColon) && AllSpace(m.beforeValue) && AllSpace(m.after)
    && SpellsKey(m.key, m.name)
  }

  predicate WellFormedMembers(members: Members) {
    members.Member? ==>
      && WellFormedFrame(members) && members.name !in Keys(members.next)
      && WellFormed(members.value) && WellFormedMembers(members.next)
  }

  predicate WellFormedItems(items: Items) {
    match items
    case EndArray => true
    case Item(before, value, after, next) =>
      AllSpace(before) && AllSpace(after) && WellFormed(value) && WellFormedItems(next)
  }

  predicate WellFormedDocument(doc: Document) {
    AllSpace(doc.before) && AllSpace(doc.after) && WellFormed(doc.root)
  }

  // ---- Parsing ------------------------------------------------------------------------------

  function Skip(s: string): (rest: string)
    ensures |rest| <= |s|
  {
    s[SpaceLength(s)..]
  }

  function Space(s: string): string {
    s[..SpaceLength(s)]
  }

  /** The value at the start of a text, and the text that follows it. */
  function ParseNode(s: string): (r: Option<(Node, string)>)
    ensures r.Some? ==> |r.value.1| < |s|
    decreases |s|, 0
  {
    if s == "" then None
    else if s[0] == '{' then ParseObject(s[1..])
    else if s[0] == '[' then ParseArray(s[1..])
    else ParseScalar(s)
  }

  function ParseScalar(s: string): (r: Option<(Node, string)>)
    ensures r.Some? ==> |r.value.1| < |s|
  {
    var scalar := ScanScalar(s);
    if scalar.None? then None else Some((Scalar(s[..scalar.value.1], scalar.value.0), s[scalar.value.1..]))
  }

  /** An object after its opening brace. */
  function ParseObject(s: string): (r: Option<(Node, string)>)
    ensures r.Some? ==> |r.value.1| < |s|
    decreases |s|, 3
  {
    var t := Skip(s);
    if t != "" && t[0] == '}' then Some((EmptyObject(Space(s)), t[1..]))
    else
      var members := ParseMembers(s, {});
      if members.None? then None else Some((Object(members.value.0), members.value.1))
  }

  /** An array after its opening bracket. */
  function ParseArray(s: string): (r: Option<(Node, string)>)
    ensures r.Some? ==> |r.value.1| < |s|
    decreases |s|, 3
  {
    var t := Skip(s);
    if t != "" && t[0] == ']' then Some((EmptyArray(Space(s)), t[1..]))
    else
      var items := ParseItems(s);
      if items.None? then None else Some((Array(items.value.0), items.value.1))
  }

  /** A key token and what follows its colon; keys already seen are refused. */
  function ParseKey(s: string, seen: set<CodePoints>): (r: Option<(string, CodePoints, string, string)>)
    ensures r.Some? ==> |r.value.3| < |s|
  {
    var key := ScanScalar(s);
    if s == "" || s[0] != '"' || key.None? || key.value.0.text in seen then None
    else
      var t := s[key.value.1..];
      var colon := Skip(t);
      if colon == "" || colon[0] != ':' then None
      else Some((s[..key.value.1], key.value.0.text, Space(t), colon[1..]))
  }

  /** One member without its delimiter, and the text from that delimiter on. */
  function ParseMember(s: string, seen: set<CodePoints>): (r: Option<(Members, string)>)
    ensures r.Some? ==> r.value.0.Member? && r.value.0.next.EndObject? && |r.value.1| < |s|
    decreases |s|, 1
  {
    var key := ParseKey(Skip(s), seen);
    if key.None? then None
    else
      var (token, name, beforeColon, t) := key.value;
      var value := ParseNode(Skip(t));
      if value.None? then None
      else
        var (node, u) := value.value;
        Some((Member(Space(s), token, name, beforeColon, Space(t), node, Space(u), EndObject), Skip(u)))
  }

  function ParseMembers(s: string, seen: set<CodePoints>): (r: Option<(Members, string)>)
    ensures r.Some? ==> |r.value.1| < |s| && r.value.0.Member?
    decreases |s|, 2
  {
    var member := ParseMember(s, seen);
    if member.None? then None
    else
      var (m, v) := member.value;
      if v == "" then None
      else if v[0] == '}' then Some((m, v[1..]))
      else if v[0] != ',' then None
      else
        var rest := ParseMembers(v[1..], seen + {m.name});
        if rest.None? then None else Some((m.(next := rest.value.0), rest.value.1))
  }

  function ParseItem(s: string): (r: Option<(Items, string)>)
    ensures r.Some? ==> r.value.0.Item? && r.value.0.next.EndArray? && |r.value.1| < |s|
    decreases |s|, 1
  {
    var value := ParseNode(Skip(s));
    if value.None? then None
    else
      var (node, u) := value.value;
      Some((Item(Space(s), node, Space(u), EndArray), Skip(u)))
  }

  function ParseItems(s: string): (r: Option<(Items, string)>)
    ensures r.Some? ==> |r.value.1| < |s| && r.value.0.Item?
    decreases |s|, 2
  {
    var item := ParseItem(s);
    if item.None? then None
    else
      var (i, v) := item.value;
      if v == "" then None
      else if v[0] == ']' then Some((i, v[1..]))
      else if v[0] != ',' then None
      else
        var rest := ParseItems(v[1..]);
        if rest.None? then None else Some((i.(next := rest.value.0), rest.value.1))
  }

  /** A whole text: one value with nothing but space around it. */
  function ParseDocument(text: string): Option<Document> {
    var root := ParseNode(Skip(text));
    if root.None? || Skip(root.value.1) != "" then None
    else Some(Document(Space(text), root.value.0, root.value.1))
  }

  // ---- Tree and spans --------------------------------------------------------------------------

  function Tree(node: Node): Value {
    match node
    case Scalar(_, decoded) => decoded
    case EmptyObject(_) => JObject(map[])
    case Object(members) => JObject(Fields(members))
    case EmptyArray(_) => JArray([])
    case Array(items) => JArray(Elements(items))
  }

  function Fields(members: Members): (fields: map<CodePoints, Value>)
    ensures fields.Keys == Keys(members)
  {
    if members.EndObject? then map[]
    else map[members.name := Tree(members.value)] + Fields(members.next)
  }

  function Elements(items: Items): seq<Value> {
    if items.EndArray? then [] else [Tree(items.value)] + Elements(items.next)
  }

  type Spans = map<Path, (nat, nat)>

  /** Start and end of every scalar below a node that begins at an offset, by its path. */
  function SpansOf(node: Node, at: nat, path: Path): Spans {
    match node
    case Scalar(token, _) => map[path := (at, at + |token|)]
    case EmptyObject(_) => map[]
    case Object(members) => MemberSpans(members, at + 1, path)
    case EmptyArray(_) => map[]
    case Array(items) => ItemSpans(items, at + 1, path, 0)
  }

  function ValueOffset(m: Members): nat
    requires m.Member?
  {
    |m.before| + |m.key| + |m.beforeColon| + 1 + |m.beforeValue|
  }

  function NextOffset(m: Members): nat
    requires m.Member?
  {
    ValueOffset(m) + |Print(m.value)| + |m.after| + 1
  }

  function MemberSpans(m: Members, at: nat, path: Path): Spans {
    if m.EndObject? then map[]
    else SpansOf(m.value, at + ValueOffset(m), path + [Key(m.name)]) + MemberSpans(m.next, at + NextOffset(m), path)
  }

  function ItemOffset(i: Items): nat
    requires i.Item?
  {
    |i.before| + |Print(i.value)| + |i.after| + 1
  }

  function ItemSpans(i: Items, at: nat, path: Path, index: nat): Spans {
    if i.EndArray? then map[]
    else SpansOf(i.value, at + |i.before|, path + [Index(index)])
         + ItemSpans(i.next, at + ItemOffset(i), path, index + 1)
  }

  function DocumentSpans(doc: Document): Spans {
    SpansOf(doc.root, |doc.before|, [])
  }
}

/**
 * The TOML editor of scripts/version_plan.py (_toml_edit): which field a declaration selects, the token that
 * is written for a value, and what one edit and a repeated edit do to a text.
 */
module TomlEditor {
  import opened Wrappers
  import opened Text
  import opened Json
  import opened JsonSplice
  import opened JsonEditor
  import JsonMeaning
  import TomlScan
  import TomlSplice

  /** The readers of TOML that the editor calls: of one key, and of a whole document. */
  datatype Reader = Reader(keyOf: string -> Option<Path>, load: string -> Option<Value>)

  datatype Selector =
    | Manifest(field: seq<CodePoints>, package: Option<CodePoints>)
    | CargoLock(owner: CodePoints)
    | UvLock(owner: CodePoints)

  const PACKAGE := Codes("package")
  const SOURCE := Codes("source")

  // ---- The selected field ------------------------------------------------------------------------------

  predicate IsLocalSource(source: Value) {
    && source.JObject? && |source.fields| == 1
    && (Codes("editable") in source.fields || Codes("virtual") in source.fields || Codes("directory") in source.fields)
  }

  /** An entry of the lock's package array that is the declared package and comes from no registry. */
  predicate Owns(entry: Value, owner: CodePoints, cargo: bool) {
    && entry.JObject? && NAME in entry.fields && entry.fields[NAME] == JString(owner)
    && if cargo then SOURCE !in entry.fields else SOURCE in entry.fields && IsLocalSource(entry.fields[SOURCE])
  }

  function OwnedFrom(entries: seq<Value>, owner: CodePoints, cargo: bool, from: nat): seq<nat>
    requires from <= |entries|
    decreases |entries| - from
  {
    if from == |entries| then []
    else (if Owns(entries[from], owner, cargo) then [from] else []) + OwnedFrom(entries, owner, cargo, from + 1)
  }

  function LockTarget(data: Value, owner: CodePoints, cargo: bool): Option<Path> {
    if !data.JObject? || PACKAGE !in data.fields || !data.fields[PACKAGE].JArray? then None
    else
      var entries := data.fields[PACKAGE].items;
      if exists i :: 0 <= i < |entries| && !entries[i].JObject? then None
      else
        var owned := OwnedFrom(entries, owner, cargo, 0);
        if |owned| != 1 then None else Some([Key(PACKAGE), Index(owned[0]), Key(VERSION)])
  }

  /** The field beside a field that holds the package's name. */
  function NameBeside(path: Path): Path {
    (if path == [] then [] else path[..|path| - 1]) + [Key(NAME)]
  }

  function Target(data: Value, selector: Selector): Option<Path> {
    match selector
    case CargoLock(owner) => LockTarget(data, owner, true)
    case UvLock(owner) => LockTarget(data, owner, false)
    case Manifest(field, package) =>
      if package.Some? && Lookup(data, NameBeside(KeyPath(field))) != Some(JString(package.value)) then None
      else Some(KeyPath(field))
  }

  // ---- The written token ---------------------------------------------------------------------------------

  function Hex4(v: nat): string
    requires v < 0x10000
  {
    ['\\', 'u', HexChar(v / 4096), HexChar(v / 256 % 16), HexChar(v / 16 % 16), HexChar(v % 16)]
  }

  /** One code point as the encoder writes it in ASCII. */
  function AsciiEscape(code: int): string
    requires IsCharCode(code)
  {
    if code == '"' as int then ['\\', '"']
    else if code == '\\' as int then ['\\', '\\']
    else if code == 8 then ['\\', 'b']
    else if code == 12 then ['\\', 'f']
    else if code == 10 then ['\\', 'n']
    else if code == 13 then ['\\', 'r']
    else if code == 9 then ['\\', 't']
    else if 32 <= code < 127 then [code as char]
    else if code < 0x10000 then Hex4(code)
    else Hex4(0xD800 + (code - 0x10000) / 1024) + Hex4(0xDC00 + (code - 0x10000) % 1024)
  }

  function AsciiEscapes(text: CodePoints): string
    requires Encodable(text)
  {
    if text == [] then "" else AsciiEscape(text[0]) + AsciiEscapes(text[1..])
  }

  function Plain(text: CodePoints): (s: string)
    requires Encodable(text)
    ensures |s| == |text|
  {
    seq(|text|, i requires 0 <= i < |text| => text[i] as char)
  }

  /** A literal string stays one, unless the text holds its mark; text with a lone surrogate is refused. */
  function Token(value: Projected, original: string): Option<string> {
    match value
    case JInt(n) => Some(SignedDecimal(n))
    case JString(text) =>
      if !Encodable(text) then None
      else if original != "" && original[0] == '\'' && '\'' as int !in text then Some(['\''] + (Plain(text) + ['\'']))
      else Some(['"'] + (AsciiEscapes(text) + ['"']))
  }

  /** Declared prefixes and version texts hold no line break. */
  predicate IsOneLine(value: Projected) {
    value.JString? ==> 10 !in value.text && 13 !in value.text
  }

  lemma EscapeIsUnits(code: int, rest: string)
    requires IsCharCode(code) && TomlScan.BasicRest(rest) > 0
    ensures TomlScan.BasicRest(AsciiEscape(code) + rest) == |AsciiEscape(code)| + TomlScan.BasicRest(rest)
  {
    hide HexChar, HexValue, Hex4;
    var s := AsciiEscape(code);
    HexLength();
    if |s| == 1 {
      assert (s + rest)[1..] == rest;
    } else if |s| == 2 {
      assert (s + rest)[2..] == rest;
    } else if |s| == 6 {
      HexIsUnits(code, rest);
    } else {
      PairIsUnits(0xD800 + (code - 0x10000) / 1024, 0xDC00 + (code - 0x10000) % 1024, rest);
    }
  }

  lemma HexLength()
    ensures forall v: nat | v < 0x10000 :: |Hex4(v)| == 6
  {
  }

  lemma PairIsUnits(high: nat, low: nat, rest: string)
    requires high < 0x10000 && low < 0x10000 && TomlScan.BasicRest(rest) > 0
    ensures TomlScan.BasicRest((Hex4(high) + Hex4(low)) + rest) == |Hex4(high) + Hex4(low)| + TomlScan.BasicRest(rest)
  {
    hide Hex4, TomlScan.BasicRest;
    HexLength();
    HexIsUnits(low, rest);
    HexIsUnits(high, Hex4(low) + rest);
    assert (Hex4(high) + Hex4(low)) + rest == Hex4(high) + (Hex4(low) + rest);
  }

  lemma HexIsUnits(v: nat, rest: string)
    requires v < 0x10000 && TomlScan.BasicRest(rest) > 0
    ensures TomlScan.BasicRest(Hex4(v) + rest) == 6 + TomlScan.BasicRest(rest)
  {
    var a, b, c, d := HexChar(v / 4096), HexChar(v / 256 % 16), HexChar(v / 16 % 16), HexChar(v % 16);
    hide HexChar, HexValue, IsHexDigit;
    var tail := [a] + ([b] + ([c] + ([d] + rest)));
    assert Hex4(v) + rest == ['\\', 'u'] + tail;
    hide TomlScan.BasicRest, Hex4;
    OneUnit(d, rest);
    OneUnit(c, [d] + rest);
    OneUnit(b, [c] + ([d] + rest));
    OneUnit(a, [b] + ([c] + ([d] + rest)));
    EscapedUnit(tail);
  }

  lemma EscapedUnit(rest: string)
    requires TomlScan.BasicRest(rest) > 0
    ensures TomlScan.BasicRest(['\\', 'u'] + rest) == 2 + TomlScan.BasicRest(rest)
  {
    assert (['\\', 'u'] + rest)[2..] == rest;
  }

  lemma OneUnit(c: char, rest: string)
    requires IsHexDigit(c) && TomlScan.BasicRest(rest) > 0
    ensures TomlScan.BasicRest([c] + rest) == 1 + TomlScan.BasicRest(rest)
  {
    assert ([c] + rest)[1..] == rest;
  }

  lemma {:induction false} EscapesAreBasic(text: CodePoints)
    requires Encodable(text)
    ensures TomlScan.BasicRest(AsciiEscapes(text) + ['"']) == |AsciiEscapes(text)| + 1
  {
    if text == [] {
      assert AsciiEscapes(text) + ['"'] == ['"'];
    } else {
      EscapesAreBasic(text[1..]);
      EscapeIsUnits(text[0], AsciiEscapes(text[1..]) + ['"']);
      assert AsciiEscapes(text) + ['"'] == AsciiEscape(text[0]) + (AsciiEscapes(text[1..]) + ['"']);
    }
  }

  lemma {:induction false} PlainIsLiteral(text: CodePoints)
    requires Encodable(text) && '\'' as int !in text && 10 !in text && 13 !in text
    ensures TomlScan.LiteralRest(Plain(text) + ['\'']) == |text| + 1
  {
    if text == [] {
      assert Plain(text) + ['\''] == ['\''];
    } else {
      PlainIsLiteral(text[1..]);
      assert text[0] in text;
      assert (Plain(text) + ['\''])[1..] == Plain(text[1..]) + ['\''];
    }
  }

  lemma {:induction false} AllDigitsLength(s: string)
    requires AllDigits(s)
    ensures TomlScan.DigitsLength(s) == |s|
  {
    if s != "" { AllDigitsLength(s[1..]); }
  }

  lemma NumberIsScalar(n: int)
    ensures TomlSplice.IsScalar(SignedDecimal(n))
  {
    hide Decimal;
    ParseOfDecimal(if n < 0 then -n else n);
    var s := SignedDecimal(n);
    if n < 0 {
      assert s[1..] == Decimal(-n);
      AllDigitsLength(Decimal(-n));
    } else {
      assert s[0..] == Decimal(n);
      AllDigitsLength(Decimal(n));
    }
  }

  /** What is written is one single-line scalar. */
  lemma TokenIsScalar(value: Projected, original: string)
    requires IsOneLine(value) && Token(value, original).Some?
    ensures TomlSplice.IsScalar(Token(value, original).value)
  {
    hide TomlScan.BasicRest, TomlScan.LiteralRest, Decimal, AsciiEscapes, Plain;
    var token := Token(value, original).value;
    match value
    case JInt(n) => NumberIsScalar(n);
    case JString(text) =>
      if token[0] == '\'' {
        PlainIsLiteral(text);
        assert token[1..] == Plain(text) + ['\''];
      } else {
        EscapesAreBasic(text);
        assert token[1..] == AsciiEscapes(text) + ['"'];
      }
  }

  /** Written over itself, a value is written the same way. */
  lemma TokenAgain(value: Projected, original: string)
    requires Token(value, original).Some?
    ensures Token(value, Token(value, original).value) == Token(value, original)
  {
  }

  // ---- The edit --------------------------------------------------------------------------------------------

  /** The one place that the search finds. */
  function OnlyPlace(keyOf: string -> Option<Path>, text: string, target: Path): Option<TomlScan.Span> {
    var after := TomlScan.After(keyOf, Lines(text), target);
    if after.None? || |after.value.found| != 1 then None else Some(after.value.found[0])
  }

  /** What is to stand in the selected field of a document. */
  function Update(data: Value, target: Path, value: Projected): Option<Projected> {
    var current := Lookup(data, target);
    if current.None? then None else Replacement(value, current.value)
  }

  /** The spliced text, if its reader finds the new value in the selected field. */
  function EditToml(reader: Reader, text: string, selector: Selector, value: Projected): Option<string> {
    var data := reader.load(text);
    var target := if data.None? then None else Target(data.value, selector);
    if target.None? then None
    else
      var update, place := Update(data.value, target.value, value), OnlyPlace(reader.keyOf, text, target.value);
      if update.None? || place.None? || !(place.value.start <= place.value.end <= |text|) then None
      else
        var token := Token(update.value, text[place.value.start..place.value.end]);
        if token.None? then None
        else
          var result := Splice(text, place.value.start, place.value.end, token.value);
          var loaded := reader.load(result);
          if loaded.None? || Lookup(loaded.value, target.value) != Some(update.value) then None else Some(result)
  }

  lemma UpdateIsOneLine(data: Value, target: Path, value: Projected)
    requires IsOneLine(value) && Update(data, target, value).Some?
    ensures IsOneLine(Update(data, target, value).value)
  {
    if value.JInt? {
      NumberHasNoBreak(value.number);
    }
  }

  lemma NumberHasNoBreak(n: int)
    ensures var text := Codes(SignedDecimal(n)); 10 !in text && 13 !in text
  {
    hide Decimal;
    ParseOfDecimal(if n < 0 then -n else n);
    var s := SignedDecimal(n);
    forall i | 0 <= i < |s| ensures Codes(s)[i] != 10 && Codes(s)[i] != 13 {
      assert s[i] == '-' || IsDigit(s[i]);
    }
  }

  lemma UpdateAgain(value: Projected, current: Value)
    requires Replacement(value, current).Some?
    ensures Replacement(value, Replacement(value, current).value) == Replacement(value, current)
  {
  }

  /**
   * An accepted edit changes one line: the selected assignment, whose value becomes the token. The search
   * then finds exactly that token, and the reader the projected value.
   */
  lemma EditMeans(reader: Reader, text: string, selector: Selector, value: Projected, result: string)
    returns (target: Path, update: Projected, place: TomlScan.Span, token: string, i: nat)
    requires TomlSplice.ReadsKeys(reader.keyOf) && IsOneLine(value)
    requires EditToml(reader, text, selector, value) == Some(result)
    ensures reader.load(text).Some? && Target(reader.load(text).value, selector) == Some(target)
    ensures Update(reader.load(text).value, target, value) == Some(update)
    ensures TomlScan.Selects(reader.keyOf, Lines(text), target, i) && TomlScan.Separator(Lines(text)[i]).Some?
    ensures place == TomlScan.PlaceAt(Lines(text), i) && place.start <= place.end <= |text|
    ensures Token(update, text[place.start..place.end]) == Some(token) && TomlSplice.IsScalar(token)
    ensures result == Splice(text, place.start, place.end, token)
    ensures Lines(result) == Lines(text)[i := TomlSplice.Revalued(Lines(text)[i], token)]
    ensures OnlyPlace(reader.keyOf, result, target) == Some(TomlScan.Span(place.start, place.start + |token|))
    ensures reader.load(result).Some? && Lookup(reader.load(result).value, target) == Some(update)
  {
    hide Lines, TomlScan.After, TomlScan.Selects, TomlScan.PlaceAt, TomlSplice.Revalued, TomlSplice.IsScalar, Lookup, Target,
         Token, Splice, Update, TomlSplice.ReadsKeys;
    var data := reader.load(text).value;
    target := Target(data, selector).value;
    update := Update(data, target, value).value;
    place := OnlyPlace(reader.keyOf, text, target).value;
    token := Token(update, text[place.start..place.end]).value;
    UpdateIsOneLine(data, target, value);
    TokenIsScalar(update, text[place.start..place.end]);
    i := TomlSplice.SplicedIsFound(reader.keyOf, text, target, token);
  }

  /** Editing an edited text gives it back whenever the declaration selects the same field in it. */
  lemma EditAgain(reader: Reader, text: string, selector: Selector, value: Projected, result: string)
    requires TomlSplice.ReadsKeys(reader.keyOf) && IsOneLine(value)
    requires EditToml(reader, text, selector, value) == Some(result)
    ensures reader.load(text).Some? && reader.load(result).Some?
    ensures Target(reader.load(result).value, selector) == Target(reader.load(text).value, selector) ==>
              EditToml(reader, result, selector, value) == Some(result)
    ensures Target(reader.load(result).value, selector).None? ==> EditToml(reader, result, selector, value).None?
  {
    hide Lines, TomlScan.After, TomlScan.Selects, TomlScan.PlaceAt, TomlScan.Separator, TomlSplice.Revalued,
         TomlSplice.IsScalar, TomlSplice.ReadsKeys, IsOneLine, Lookup, Target, Token, Splice, OnlyPlace, Replacement;
    var target, update, place, token, i := EditMeans(reader, text, selector, value, result);
    var current := Lookup(reader.load(text).value, target).value;
    UpdateAgain(value, current);
    TokenAgain(update, text[place.start..place.end]);
    SplicedToken(text, place, token);
    assert Target(reader.load(result).value, selector) == Some(target) ==>
             Update(reader.load(result).value, target, value) == Some(update);
  }

  lemma SplicedToken(text: string, place: TomlScan.Span, token: string)
    requires place.start <= place.end <= |text|
    ensures var result, end := Splice(text, place.start, place.end, token), place.start + |token|;
            && end <= |result| && result[place.start..end] == token
            && Splice(result, place.start, end, token) == result
  {
  }

  // ---- Editing twice -----------------------------------------------------------------------------------------

  /** A declaration that is to overwrite the very name by which it is recognised. */
  predicate Renames(selector: Selector, value: Projected) {
    && selector.Manifest? && selector.package.Some? && selector.field != []
    && selector.field[|selector.field| - 1] == NAME
    && Replacement(value, JString(selector.package.value)) != Some(JString(selector.package.value))
  }

  lemma {:induction false} OwnedStays(entries: seq<Value>, others: seq<Value>, owner: CodePoints, cargo: bool, from: nat)
    requires from <= |entries| == |others|
    requires forall i | 0 <= i < |entries| :: Owns(entries[i], owner, cargo) == Owns(others[i], owner, cargo)
    ensures OwnedFrom(entries, owner, cargo, from) == OwnedFrom(others, owner, cargo, from)
    decreases |entries| - from
  {
    hide Owns;
    if from < |entries| { OwnedStays(entries, others, owner, cargo, from + 1); }
  }

  lemma OwnedInBounds(entries: seq<Value>, owner: CodePoints, cargo: bool, from: nat)
    requires from <= |entries|
    ensures forall k | k in OwnedFrom(entries, owner, cargo, from) :: from <= k < |entries|
    decreases |entries| - from
  {
    hide Owns;
    if from < |entries| { OwnedInBounds(entries, owner, cargo, from + 1); }
  }

  lemma KeysDiffer()
    ensures VERSION != NAME && VERSION != SOURCE
  {
    assert |VERSION| == 7 && |NAME| == 4 && |SOURCE| == 6;
  }

  /** A new version in the owned entry leaves it, and every other entry, as owned as it was. */
  lemma LockTargetStays(data: Value, owner: CodePoints, cargo: bool, target: Path, update: Value)
    requires LockTarget(data, owner, cargo) == Some(target) && Lookup(data, target).Some?
    ensures LockTarget(Put(data, target, update), owner, cargo) == Some(target)
  {
    KeysDiffer();
    var entries := data.fields[PACKAGE].items;
    var m := target[1].index;
    OwnedInBounds(entries, owner, cargo, 0);
    assert m in OwnedFrom(entries, owner, cargo, 0);
    var entry := entries[m];
    assert target[1..] == [Index(m), Key(VERSION)] && target[1..][1..] == [Key(VERSION)] && target[1..][1..][1..] == [];
    assert Lookup(JArray(entries), target[1..]) == Lookup(entry, target[1..][1..]);
    assert [Key(VERSION)][1..] == [] && VERSION in entry.fields;
    var other := JObject(entry.fields[VERSION := update]);
    var others := entries[m := other];
    assert Put(entry, [Key(VERSION)], update) == other;
    assert Put(data, target, update) == JObject(data.fields[PACKAGE := JArray(others)]);
    OwnedStays(entries, others, owner, cargo, 0);
  }

  /**
   * The reader finds unchanged by what the declaration recognises its field: nothing, for a declaration
   * without a package or of the name itself; the name beside the field; for a lock, everything but the field.
   */
  predicate KeepsSelection(reader: Reader, text: string, selector: Selector, value: Projected, result: string) {
    match selector
    case Manifest(field, package) =>
      || package.None? || NameBeside(KeyPath(field)) == KeyPath(field)
      || (reader.load(text).Some? && reader.load(result).Some?
          && Lookup(reader.load(result).value, NameBeside(KeyPath(field)))
             == Lookup(reader.load(text).value, NameBeside(KeyPath(field))))
    case _ => OnlyChanges(reader, text, selector, value, result)
  }

  /** The document that the reader makes of the result is that of the text with the selected field updated. */
  predicate OnlyChanges(reader: Reader, text: string, selector: Selector, value: Projected, result: string) {
    var data := reader.load(text);
    && data.Some? && Target(data.value, selector).Some?
    && var target := Target(data.value, selector).value;
    && Update(data.value, target, value).Some?
    && reader.load(result) == Some(Put(data.value, target, Update(data.value, target, value).value))
  }

  /** A reader that finds nothing changed but the selected field keeps every selection. */
  lemma OnlyChangesKeeps(reader: Reader, text: string, selector: Selector, value: Projected, result: string)
    requires OnlyChanges(reader, text, selector, value, result)
    ensures KeepsSelection(reader, text, selector, value, result)
  {
    if selector.Manifest? {
      var data, target := reader.load(text).value, KeyPath(selector.field);
      var update, beside := Update(data, target, value).value, NameBeside(target);
      if beside != target && target != [] {
        assert beside[|target| - 1] != target[|target| - 1];
        JsonMeaning.LookupElsewhere(data, target, update, beside);
      }
    }
  }

  lemma ManifestTargetStays(data: Value, after: Value, selector: Selector, value: Projected, target: Path, update: Projected)
    requires selector.Manifest? && Target(data, selector) == Some(target) && Update(data, target, value) == Some(update)
    requires Lookup(after, target) == Some(update)
    requires || selector.package.None? || NameBeside(target) == target
             || Lookup(after, NameBeside(target)) == Lookup(data, NameBeside(target))
    ensures Target(after, selector) == if Renames(selector, value) then None else Some(target)
  {
    hide Lookup;
    var field := selector.field;
    if field != [] {
      assert NameBeside(target) == target <==> field[|field| - 1] == NAME by {
        assert target[|field| - 1] == Key(field[|field| - 1]);
        assert NameBeside(target)[|field| - 1] == Key(NAME);
      }
    }
  }

  /**
   * Where the reader keeps the selection, editing an edited text again gives it back unchanged, with one
   * exception: a declaration that renames its own package no longer finds that package.
   */
  lemma EditTwice(reader: Reader, text: string, selector: Selector, value: Projected, result: string)
    requires TomlSplice.ReadsKeys(reader.keyOf) && IsOneLine(value)
    requires EditToml(reader, text, selector, value) == Some(result)
    requires KeepsSelection(reader, text, selector, value, result)
    ensures EditToml(reader, result, selector, value) == if Renames(selector, value) then None else Some(result)
  {
    var target, update, place, token, i := EditMeans(reader, text, selector, value, result);
    hide TomlSplice.ReadsKeys, IsOneLine, Lookup, Put;
    EditAgain(reader, text, selector, value, result);
    var data := reader.load(text).value;
    if selector.Manifest? {
      ManifestTargetStays(data, reader.load(result).value, selector, value, target, update);
    } else {
      LockTargetStays(data, selector.owner, selector.CargoLock?, target, update);
    }
  }

  // ---- A package that is renamed -----------------------------------------------------------------------------

  const NAME_A := "name = \"a\"\n"
  const NAME_B := "name = \"b\"\n"
  const OWN_FIELD := Manifest([NAME], Some(Codes("a")))

  lemma NamedLine()
    ensures Lines(NAME_A) == [NAME_A]
  {
    var lines := [NAME_A];
    assert lines[1..] == [] && NAME_A + "" == NAME_A && Join(lines) == NAME_A;
    LinesOfLines(lines);
  }

  lemma NameStripped()
    ensures Strip("name ") == "name"
  {
    assert WhiteLength("name ") == 0 && "name "[0..] == "name " && "name "[..4] == "name";
    assert StripRight("name ") == StripRight("name") == "name";
  }

  lemma NameSeparates()
    ensures TomlScan.Separator(NAME_A) == Some(5)
  {
    var s, stops := NAME_A, TomlScan.SEPARATING;
    assert TomlScan.FirstStop(s, 4, "", stops) == Some(5);
    assert TomlScan.FirstStop(s, 2, "", stops) == Some(5);
    assert TomlScan.FirstStop(s, 1, "", stops) == Some(5);
  }

  lemma NameIsKey()
    ensures TomlScan.HeaderOf(NAME_A) == Ok(None) && TomlScan.KeyText(NAME_A) == Some("name")
  {
    NameSeparates();
    NameStripped();
    assert NAME_A[..5] == "name " && NAME_A[0..] == NAME_A;
  }

  lemma ValueOfA()
    ensures WhiteLength(" \"a\"\n") == 1 && TomlScan.ScalarLength("\"a\"\n") == 3 && TomlScan.EndsValue("\n")
  {
    assert WhiteLength("\"a\"\n") == 0 && " \"a\"\n"[1..] == "\"a\"\n";
    assert "\"a\"\n"[1..] == "a\"\n" && "a\"\n"[1..] == "\"\n";
    assert TomlScan.BasicRest("\"\n") == 1 && TomlScan.BasicRest("a\"\n") == 2;
    assert "\n"[1..] == "" && WhiteLength("\n") == 1;
  }

  lemma NameHasScalar()
    ensures TomlScan.Separator(NAME_A).Some? && TomlScan.HasScalar(NAME_A)
    ensures TomlScan.ValueSpan(NAME_A) == TomlScan.Span(7, 10)
  {
    NameSeparates();
    ValueOfA();
    hide TomlScan.Separator, WhiteLength, TomlScan.ScalarLength, TomlScan.EndsValue;
    assert NAME_A[6..] == " \"a\"\n" && NAME_A[7..] == "\"a\"\n" && NAME_A[10..] == "\n";
  }

  lemma OneAssignment(keyOf: string -> Option<Path>, line: string, target: Path)
    requires TomlScan.HeaderOf(line) == Ok(None) && TomlScan.KeyText(line).Some? && TomlScan.HasScalar(line)
    requires keyOf(TomlScan.KeyText(line).value) == Some(target)
    ensures var after := TomlScan.After(keyOf, [line], target); after.Some? && after.value.found == [TomlScan.ValueSpan(line)]
  {
    hide TomlScan.HeaderOf, TomlScan.KeyText, TomlScan.HasScalar, TomlScan.ValueSpan, TomlScan.TurnLine, TomlScan.After,
         TomlScan.Separator, TomlScan.AssignmentIn;
    var lines := [line];
    assert lines[..0] == [] && lines[..1] == lines && [] + target == target;
    TomlScan.AfterNothing(keyOf, lines, target);
    TomlScan.NextLine(keyOf, lines, target, 0);
    TomlSplice.AssignsSelected(keyOf, line, [], target);
    TomlScan.TurnsAssignment(keyOf, TomlScan.BEGIN, line, target);
  }

  lemma NameIsPlaced(keyOf: string -> Option<Path>)
    requires keyOf("name") == Some([Key(NAME)])
    ensures OnlyPlace(keyOf, NAME_A, [Key(NAME)]) == Some(TomlScan.Span(7, 10))
  {
    NamedLine();
    NameIsKey();
    NameHasScalar();
    hide TomlScan.HeaderOf, TomlScan.KeyText, TomlScan.HasScalar, TomlScan.ValueSpan, TomlScan.After, TomlScan.Separator, Lines;
    OneAssignment(keyOf, NAME_A, [Key(NAME)]);
  }

  lemma NameIsWritten()
    ensures Token(JString(Codes("b")), NAME_A[7..10]) == Some("\"b\"")
    ensures Splice(NAME_A, 7, 10, "\"b\"") == NAME_B
  {
    var text := Codes("b");
    assert text == [98] && text[1..] == [] && Encodable(text);
    assert AsciiEscape(98) == "b" && AsciiEscapes([]) == "";
    assert AsciiEscapes(text) == "b";
    assert ['"'] + ("b" + ['"']) == "\"b\"" && NAME_A[7..10] == "\"a\"";
  }

  /**
   * The exception occurs: for every reader of the two documents, the package named "a" is renamed to "b" once,
   * and the second edit is refused.
   */
  lemma RenameOccurs(reader: Reader)
    requires reader.keyOf("name") == Some([Key(NAME)])
    requires reader.load(NAME_A) == Some(JObject(map[NAME := JString(Codes("a"))]))
    requires reader.load(NAME_B) == Some(JObject(map[NAME := JString(Codes("b"))]))
    ensures Renames(OWN_FIELD, JString(Codes("b")))
    ensures EditToml(reader, NAME_A, OWN_FIELD, JString(Codes("b"))) == Some(NAME_B)
    ensures EditToml(reader, NAME_B, OWN_FIELD, JString(Codes("b"))) == None
  {
    NameIsPlaced(reader.keyOf);
    NameIsWritten();
    NamedField(Codes("a"));
    NamedField(Codes("b"));
    assert Codes("a")[0] != Codes("b")[0];
    hide Lookup, Token, Splice, OnlyPlace, Codes;
  }

  lemma NamedField(name: CodePoints)
    ensures KeyPath([NAME]) == NameBeside(KeyPath([NAME])) == [Key(NAME)]
    ensures Lookup(JObject(map[NAME := JString(name)]), [Key(NAME)]) == Some(JString(name))
  {
    assert [Key(NAME)][1..] == [];
  }
}

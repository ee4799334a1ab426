/**
 * Which field the TOML editor of scripts/version_plan.py owns, said by looking into the document: the
 * one local entry of a lock, or the declared field of a manifest.
 */
module TomlFields {
  import opened Wrappers
  import opened Json
  import opened JsonSplice
  import opened JsonEditor
  import opened JsonFields
  import opened TomlEditor
  import opened Text
  import opened JsonTokens

  function EntryPath(i: nat): Path {
    [Key(Codes("package")), Index(i)]
  }

  /** A source that names nothing but one local kind of package. */
  ghost predicate IsLocal(source: Value) {
    source.JObject? && exists kind | kind in {"editable", "virtual", "directory"} :: source.fields.Keys == {Codes(kind)}
  }

  /** The entry has the declared name; in a Cargo lock it has no source, in a uv lock a local one. */
  ghost predicate OwnedAt(data: Value, i: nat, owner: CodePoints, cargo: bool) {
    var source := Lookup(data, EntryPath(i) + [Key(Codes("source"))]);
    && Lookup(data, EntryPath(i) + [Key(Codes("name"))]) == Some(JString(owner))
    && if cargo then source.None? else source.Some? && IsLocal(source.value)
  }

  /** The version of the one owned entry among the lock's packages, which are all tables. */
  ghost predicate IsLockField(data: Value, owner: CodePoints, cargo: bool, field: Path) {
    var packages := Lookup(data, [Key(Codes("package"))]);
    && packages.Some? && packages.value.JArray?
    && (forall p | p in packages.value.items :: p.JObject?)
    && exists i | 0 <= i < |packages.value.items| ::
         && OwnedAt(data, i, owner, cargo)
         && (forall j | 0 <= j < |packages.value.items| :: OwnedAt(data, j, owner, cargo) ==> j == i)
         && field == EntryPath(i) + [Key(Codes("version"))]
  }

  /** The declared field, beside which the declared package is named if there is one. */
  ghost predicate IsManifestField(data: Value, declared: seq<CodePoints>, package: Option<CodePoints>, field: Path) {
    && field == KeyPath(declared)
    && (package.Some? ==>
          var table := if declared == [] then [] else declared[..|declared| - 1];
          Lookup(data, KeyPath(table) + [Key(Codes("name"))]) == Some(JString(package.value)))
  }

  ghost predicate IsField(data: Value, selector: Selector, field: Path) {
    match selector
    case CargoLock(owner) => IsLockField(data, owner, true, field)
    case UvLock(owner) => IsLockField(data, owner, false, field)
    case Manifest(declared, package) => IsManifestField(data, declared, package, field)
  }

  lemma LocalMeans(source: Value)
    ensures IsLocalSource(source) <==> IsLocal(source)
  {
    hide Codes;
    if source.JObject? {
      OnlyKey(source.fields, Codes("editable"));
      OnlyKey(source.fields, Codes("virtual"));
      OnlyKey(source.fields, Codes("directory"));
    }
  }

  lemma OnlyKey(fields: map<CodePoints, Value>, key: CodePoints)
    ensures fields.Keys == {key} <==> |fields| == 1 && key in fields
  {
    if |fields| == 1 && key in fields {
      assert |fields.Keys - {key}| == 0;
      assert fields.Keys == {key} + (fields.Keys - {key});
    }
  }

  lemma EntryFound(data: Value, i: nat, key: CodePoints)
    requires data.JObject? && Codes("package") in data.fields && data.fields[Codes("package")].JArray?
    requires i < |data.fields[Codes("package")].items| && data.fields[Codes("package")].items[i].JObject?
    ensures var entry := data.fields[Codes("package")].items[i];
            Lookup(data, EntryPath(i) + [Key(key)]) == if key in entry.fields then Some(entry.fields[key]) else None
  {
    hide Codes;
    var packages := data.fields[Codes("package")];
    var path := EntryPath(i) + [Key(key)];
    assert path[1..] == [Index(i), Key(key)] && path[1..][1..] == [Key(key)] && path[1..][1..][1..] == [];
    assert Lookup(packages.items[i], path[1..][1..]) ==
             if key in packages.items[i].fields then Some(packages.items[i].fields[key]) else None;
    assert Lookup(packages, path[1..]) == Lookup(packages.items[i], path[1..][1..]);
  }

  lemma OwnsMeans(data: Value, i: nat, owner: CodePoints, cargo: bool)
    requires data.JObject? && Codes("package") in data.fields && data.fields[Codes("package")].JArray?
    requires i < |data.fields[Codes("package")].items| && data.fields[Codes("package")].items[i].JObject?
    ensures Owns(data.fields[Codes("package")].items[i], owner, cargo) <==> OwnedAt(data, i, owner, cargo)
  {
    hide Codes, Lookup, IsLocal, IsLocalSource;
    EntryFound(data, i, Codes("name"));
    EntryFound(data, i, Codes("source"));
    var entry := data.fields[Codes("package")].items[i];
    if Codes("source") in entry.fields { LocalMeans(entry.fields[Codes("source")]); }
  }

  predicate Rising(indices: seq<nat>) {
    forall a, b | 0 <= a < b < |indices| :: indices[a] < indices[b]
  }

  lemma {:induction false} OwnedFromMeans(entries: seq<Value>, owner: CodePoints, cargo: bool, from: nat)
    requires from <= |entries|
    ensures forall i: nat :: i in OwnedFrom(entries, owner, cargo, from) <==>
                               from <= i < |entries| && Owns(entries[i], owner, cargo)
    decreases |entries| - from
  {
    hide Owns;
    if from < |entries| { OwnedFromMeans(entries, owner, cargo, from + 1); }
  }

  lemma {:induction false} OwnedRises(entries: seq<Value>, owner: CodePoints, cargo: bool, from: nat)
    requires from <= |entries|
    ensures Rising(OwnedFrom(entries, owner, cargo, from))
    decreases |entries| - from
  {
    hide Owns;
    if from < |entries| {
      OwnedRises(entries, owner, cargo, from + 1);
      OwnedFromMeans(entries, owner, cargo, from + 1);
      var rest := OwnedFrom(entries, owner, cargo, from + 1);
      forall a | 0 <= a < |rest| ensures from < rest[a] { assert rest[a] in rest; }
      hide Rising;
      RisesBehind(rest, from);
      NoneInFront(rest);
    }
  }

  lemma RisesAt(indices: seq<nat>, a: nat, b: nat)
    requires Rising(indices) && a < b < |indices|
    ensures indices[a] < indices[b]
  {
  }

  lemma RisesBehind(rest: seq<nat>, first: nat)
    requires Rising(rest) && forall a | 0 <= a < |rest| :: first < rest[a]
    ensures Rising([first] + rest)
  {
    var all := [first] + rest;
    forall a, b | 0 <= a < b < |all| ensures all[a] < all[b] {
      hide Rising;
      if a > 0 { RisesAt(rest, a - 1, b - 1); }
    }
  }

  lemma NoneInFront(rest: seq<nat>)
    ensures [] + rest == rest
  {
  }

  lemma FirstTwoDiffer(owned: seq<nat>)
    requires Rising(owned) && |owned| > 1
    ensures owned[0] != owned[1]
  {
    RisesAt(owned, 0, 1);
  }

  /** Exactly one is listed when exactly one is owned. */
  lemma OneIsOwned(entries: seq<Value>, owner: CodePoints, cargo: bool)
    ensures |OwnedFrom(entries, owner, cargo, 0)| == 1 <==>
              exists i | 0 <= i < |entries| ::
                Owns(entries[i], owner, cargo) && forall j | 0 <= j < |entries| :: Owns(entries[j], owner, cargo) ==> j == i
  {
    hide Owns, OwnedFrom, Rising;
    OwnedFromMeans(entries, owner, cargo, 0);
    OwnedRises(entries, owner, cargo, 0);
    var owned := OwnedFrom(entries, owner, cargo, 0);
    if |owned| == 1 {
      var i := owned[0];
      assert i in owned && Owns(entries[i], owner, cargo);
      forall j | 0 <= j < |entries| && Owns(entries[j], owner, cargo) ensures j == i { assert j in owned; }
    }
    if i :| 0 <= i < |entries| && Owns(entries[i], owner, cargo)
            && forall j | 0 <= j < |entries| :: Owns(entries[j], owner, cargo) ==> j == i {
      assert i in owned;
      forall k | 0 <= k < |owned| ensures owned[k] == i { assert owned[k] in owned; }
      if |owned| > 1 { FirstTwoDiffer(owned); }
    }
  }

  lemma LockFieldMeans(data: Value, owner: CodePoints, cargo: bool, field: Path)
    ensures LockTarget(data, owner, cargo) == Some(field) <==> IsLockField(data, owner, cargo, field)
  {
    PackagesFound(data);
    hide Lookup, Codes, OwnedFrom, Owns, OwnedAt;
    if data.JObject? && Codes("package") in data.fields && data.fields[Codes("package")].JArray? {
      var entries := data.fields[Codes("package")].items;
      if forall p | p in entries :: p.JObject? {
        OwnedFromMeans(entries, owner, cargo, 0);
        OneIsOwned(entries, owner, cargo);
        forall i | 0 <= i < |entries| ensures Owns(entries[i], owner, cargo) <==> OwnedAt(data, i, owner, cargo) {
          OwnsMeans(data, i, owner, cargo);
        }
        var owned := OwnedFrom(entries, owner, cargo, 0);
        if |owned| == 1 {
          assert owned[0] in owned && OwnedAt(data, owned[0], owner, cargo);
          assert EntryPath(owned[0]) + [Key(Codes("version"))] == [Key(PACKAGE), Index(owned[0]), Key(VERSION)];
        }
      }
    }
  }

  lemma PackagesFound(data: Value)
    ensures Lookup(data, [Key(Codes("package"))]) ==
              if data.JObject? && Codes("package") in data.fields then Some(data.fields[Codes("package")]) else None
  {
    assert [Key(Codes("package"))][1..] == [];
    hide Codes;
  }

  /** The editor selects a field exactly when it is the one that the declaration owns. */
  lemma TargetMeans(data: Value, selector: Selector, field: Path)
    ensures Target(data, selector) == Some(field) <==> IsField(data, selector, field)
  {
    match selector
    case CargoLock(owner) => LockFieldMeans(data, owner, true, field);
    case UvLock(owner) => LockFieldMeans(data, owner, false, field);
    case Manifest(declared, _) =>
      var table := if declared == [] then [] else declared[..|declared| - 1];
      assert NameBeside(KeyPath(declared)) == KeyPath(table) + [Key(Codes("name"))];
  }

  /** An accepted edit leaves the projected version in the owned field. */
  lemma EditHolds(reader: Reader, text: string, selector: Selector, value: Projected, result: string) returns (field: Path)
    requires EditToml(reader, text, selector, value) == Some(result)
    ensures reader.load(text).Some? && reader.load(result).Some?
    ensures IsField(reader.load(text).value, selector, field)
    ensures Carries(Lookup(reader.load(text).value, field), value, Lookup(reader.load(result).value, field))
  {
    hide Lookup, IsField, Target, Replacement, Token, Carries, OnlyPlace;
    var before, after := reader.load(text).value, reader.load(result).value;
    field := Target(before, selector).value;
    TargetMeans(before, selector, field);
    HeldAfter(value, Lookup(before, field), Lookup(after, field));
  }

  // ---- The written token -------------------------------------------------------------------------

  ghost predicate IsPrintable(s: string) {
    forall i | 0 <= i < |s| :: ' ' <= s[i] <= '~'
  }

  lemma HexIs(v: nat)
    requires v < 0x10000
    ensures IsHexEscape(Hex4(v), v) && IsPrintable(Hex4(v)) && |Hex4(v)| == 6
  {
    hide HexValue, IsHexDigit;
    FourDigits(v);
    HexPrints(v / 4096);
    HexPrints(v / 256 % 16);
    HexPrints(v / 16 % 16);
    HexPrints(v % 16);
    hide HexChar;
    assert v == HexNumber(HexChar(v / 4096), HexChar(v / 256 % 16), HexChar(v / 16 % 16), HexChar(v % 16));
  }

  lemma FourDigits(v: nat)
    requires v < 0x10000
    ensures v / 4096 < 16 && v == ((v / 4096 * 16 + v / 256 % 16) * 16 + v / 16 % 16) * 16 + v % 16
  {
  }

  lemma HexPrints(d: nat)
    requires d < 16
    ensures ' ' <= HexChar(d) <= '~'
  {
  }

  /** Each character is written as one unit of a JSON string, in printable ASCII. */
  lemma AsciiUnit(code: int)
    requires IsCharCode(code)
    ensures IsUnit(AsciiEscape(code), code) && IsPrintable(AsciiEscape(code)) && !IsHalf(AsciiEscape(code), code, 0xD800)
  {
    hide Hex4, IsHexEscape;
    if code >= 0x10000 {
      var high, low := 0xD800 + (code - 0x10000) / 1024, 0xDC00 + (code - 0x10000) % 1024;
      HexIs(high);
      HexIs(low);
      var s := AsciiEscape(code);
      assert s[..6] == Hex4(high) && s[6..] == Hex4(low);
      assert IsPair(s, code);
    } else {
      HexIs(code);
    }
  }

  lemma {:induction false} AsciiUnits(text: CodePoints) returns (units: seq<string>)
    requires Encodable(text)
    ensures IsContent(AsciiEscapes(text) + ['"'], text, units) && IsPrintable(AsciiEscapes(text))
  {
    if text == [] {
      units := [];
      assert Join(units) == "";
    } else {
      var more := AsciiUnits(text[1..]);
      AsciiUnit(text[0]);
      hide AsciiEscape, IsUnit, IsPrintable;
      AsciiJoins(text, more);
      units := [AsciiEscape(text[0])] + more;
    }
  }

  lemma AsciiJoins(text: CodePoints, more: seq<string>)
    requires Encodable(text) && text != [] && IsContent(AsciiEscapes(text[1..]) + ['"'], text[1..], more)
    requires IsUnit(AsciiEscape(text[0]), text[0]) && !IsHalf(AsciiEscape(text[0]), text[0], 0xD800)
    requires IsPrintable(AsciiEscape(text[0])) && IsPrintable(AsciiEscapes(text[1..]))
    ensures IsContent(AsciiEscapes(text) + ['"'], text, [AsciiEscape(text[0])] + more) && IsPrintable(AsciiEscapes(text))
  {
    hide AsciiEscape, IsUnit;
    var first, rest, units := AsciiEscape(text[0]), AsciiEscapes(text[1..]), [AsciiEscape(text[0])] + more;
    assert units[1..] == more && AsciiEscapes(text) == first + rest;
    assert Join(units) + ['"'] == first + (Join(more) + ['"']) == first + (rest + ['"']);
    assert forall i | 0 < i < |units| :: units[i] == more[i - 1] && text[i] == text[1..][i - 1];
  }

  /**
   * The written token spells the version: a number by its decimal text, a text as a JSON string in printable
   * ASCII, or where a literal string stood and the text holds no mark of its own, between such marks.
   */
  lemma TokenMeans(value: Projected, original: string)
    requires Token(value, original).Some?
    ensures var token := Token(value, original).value;
            match value
            case JInt(n) => Json.Spells(token, value)
            case JString(text) =>
              if original != "" && original[0] == '\'' && forall i | 0 <= i < |text| :: text[i] != 39 then
                && |token| == |text| + 2 && token[0] == '\'' == token[|text| + 1]
                && forall i | 0 <= i < |text| :: token[i + 1] as int == text[i]
              else Json.Spells(token, value) && IsPrintable(token)
  {
    hide AsciiEscapes, IsContent;
    match value
    case JInt(_) =>
      DumpSpells(value);
    case JString(text) =>
      assert '\'' as int in text <==> exists i :: 0 <= i < |text| && text[i] == 39;
      var units := AsciiUnits(text);
      var token := ['"'] + (AsciiEscapes(text) + ['"']);
      assert token[1..] == AsciiEscapes(text) + ['"'];
      StringMeans(token, text);
  }
}

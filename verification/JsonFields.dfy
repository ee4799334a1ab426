/**
 * Which fields the JSON editor of scripts/version_plan.py owns, said by looking into the tree before
 * and the tree after: when an edit is refused, and what an accepted one leaves where.
 */
module JsonFields {
  import opened Wrappers
  import opened Json
  import opened JsonRoundTrip
  import opened JsonSplice
  import opened JsonMeaning
  import opened JsonEditor

  /** The paths of a lock: its own name and version, its packages, and the root package's name and version. */
  const OWN_NAME_PATH: Path := [Key(Codes("name"))]
  const OWN_VERSION_PATH: Path := [Key(Codes("version"))]
  const PACKAGES_PATH: Path := [Key(Codes("packages"))]
  const ROOT_PATH: Path := [Key(Codes("packages")), Key([])]
  const ROOT_NAME_PATH: Path := [Key(Codes("packages")), Key([]), Key(Codes("name"))]
  const ROOT_VERSION_PATH: Path := [Key(Codes("packages")), Key([]), Key(Codes("version"))]

  /**
   * A field that takes a projected version: a number takes a number; text takes a number, and text
   * that it already holds or that can be written in UTF-8.
   */
  ghost predicate Takes(was: Option<Value>, value: Projected) {
    match was
    case Some(JInt(_)) => value.JInt?
    case Some(JString(text)) => value.JString? ==> value.text == text || Encodable(value.text)
    case _ => false
  }

  /** A number stays a number and text stays text; apart from that the field holds the projected version. */
  ghost predicate Carries(was: Option<Value>, value: Projected, now: Option<Value>) {
    && was.Some?
    && now == if was.value.JString? && value.JInt? then Some(JString(Codes(SignedDecimal(value.number)))) else Some(value)
  }

  ghost predicate NamedInTree(data: Value, package: CodePoints) {
    Lookup(data, OWN_NAME_PATH) == Some(JString(package))
  }

  /** When a lock lists packages, the one at "" is an object that has no other name. */
  ghost predicate RootIsOwn(data: Value, package: CodePoints) {
    Lookup(data, PACKAGES_PATH).Some? ==>
      && Lookup(data, ROOT_PATH).Some? && Lookup(data, ROOT_PATH).value.JObject?
      && (Lookup(data, ROOT_NAME_PATH).Some? ==> Lookup(data, ROOT_NAME_PATH) == Some(JString(package)))
  }

  ghost predicate LockTakes(data: Value, value: Projected) {
    && Takes(Lookup(data, OWN_VERSION_PATH), value)
    && (Lookup(data, PACKAGES_PATH).Some? ==> Takes(Lookup(data, ROOT_VERSION_PATH), value))
  }

  /** The version at the top and, exactly when there are packages, the root package's; nothing beside them. */
  ghost predicate LockCarries(before: Value, value: Projected, after: Value) {
    && Carries(Lookup(before, OWN_VERSION_PATH), value, Lookup(after, OWN_VERSION_PATH))
    && (Lookup(before, PACKAGES_PATH).Some? ==>
          Carries(Lookup(before, ROOT_VERSION_PATH), value, Lookup(after, ROOT_VERSION_PATH)))
    && forall other: Path |
         && !Comparable(OWN_VERSION_PATH, other)
         && (Lookup(before, PACKAGES_PATH).Some? ==> !Comparable(ROOT_VERSION_PATH, other)) ::
         Lookup(after, other) == Lookup(before, other)
  }

  // ---- When the selected fields are edited -----------------------------------------------------------

  lemma EditedField(doc: Document, f: Path, value: Projected)
    requires WellFormedDocument(doc)
    ensures EditOf(Tree(doc.root), DocumentSpans(doc), f, value).Some? <==> Takes(Lookup(Tree(doc.root), f), value)
  {
    SpansAreScalars(doc, f);
    hide Encodable, EscapeAll, SignedDecimal, Codes, Lookup, Tree, DocumentSpans, WellFormedDocument;
    if value.JInt? { NumeralEncodes(value.number); }
  }

  lemma NumeralEncodes(n: int)
    ensures Encodable(Codes(SignedDecimal(n)))
  {
    hide SignedDecimal;
    var s := SignedDecimal(n);
    forall i | 0 <= i < |s| ensures IsCharCode(Codes(s)[i]) {
      assert Codes(s)[i] == s[i] as int;
    }
  }

  lemma {:induction false} EditedFields(doc: Document, fields: seq<Path>, value: Projected)
    requires WellFormedDocument(doc)
    ensures EditsOf(Tree(doc.root), DocumentSpans(doc), fields, value).Some?
       <==> forall f | f in fields :: Takes(Lookup(Tree(doc.root), f), value)
  {
    hide EditOf, Takes, Lookup, Tree, DocumentSpans, WellFormedDocument;
    if fields != [] {
      var front, last := fields[..|fields| - 1], fields[|fields| - 1];
      EditedFields(doc, front, value);
      EditedField(doc, last, value);
      assert forall f | f in fields :: f in front || f == last;
      assert forall f | f in front :: f in fields;
    }
  }

  /** A text is edited exactly when it is a document whose selected fields all take the version. */
  lemma EditedExactly(text: string, declaration: Declaration, value: Projected, fields: seq<Path>)
    requires ParseDocument(text).Some?
    requires FieldsOf(Tree(ParseDocument(text).value.root), declaration) == Some(fields)
    ensures EditJson(text, declaration, value).Some?
       <==> forall f | f in fields :: Takes(Lookup(Tree(ParseDocument(text).value.root), f), value)
  {
    var doc := ParseDocument(text).value;
    FieldsDiffer(Tree(doc.root), declaration);
    AcceptsExactlyPrints(text, doc);
    hide ParseDocument, FieldsOf, EditsOf, Takes, Lookup, Tree, DocumentSpans, WellFormedDocument, SortedLastFirst, SpliceAll;
    EditedFields(doc, fields, value);
    var edits := EditsOf(Tree(doc.root), DocumentSpans(doc), fields, value);
    if edits.Some? {
      SplicesSucceed(text, doc, fields, value, edits.value);
    }
  }

  lemma HeldAfter(value: Projected, was: Option<Value>, now: Option<Value>)
    requires was.Some? && Replacement(value, was.value).Some? && now == Some(Replacement(value, was.value).value)
    ensures Carries(was, value, now)
  {
  }

  // ---- The two kinds of declaration --------------------------------------------------------------------

  /** What a lock's declaration selects. */
  lemma LockFields(data: Value, owner: CodePoints)
    ensures FieldsOf(data, NpmLock(owner)).Some? <==> NamedInTree(data, owner) && RootIsOwn(data, owner)
    ensures FieldsOf(data, NpmLock(owner)).Some? ==>
              FieldsOf(data, NpmLock(owner)).value ==
                if Lookup(data, PACKAGES_PATH).Some? then [OWN_VERSION_PATH, ROOT_VERSION_PATH] else [OWN_VERSION_PATH]
  {
    hide Lookup, Codes;
  }

  lemma ManifestFields(data: Value, field: seq<CodePoints>, package: Option<CodePoints>)
    ensures var fields := FieldsOf(data, JsonFile(field, package));
            && (fields.Some? <==> (package.Some? ==> NamedInTree(data, package.value)))
            && (fields.Some? ==> fields.value == [KeyPath(field)])
  {
    hide Lookup, Codes, KeyPath;
  }

  /**
   * An npm lock is edited exactly when it is a document that names the declared package, whose root
   * package is that package when there are packages, and whose version fields take the version.
   */
  lemma LockEdit(text: string, owner: CodePoints, value: Projected)
    ensures EditJson(text, NpmLock(owner), value).Some?
       <==> ParseDocument(text).Some?
            && var before := Tree(ParseDocument(text).value.root);
               NamedInTree(before, owner) && RootIsOwn(before, owner) && LockTakes(before, value)
    ensures match EditJson(text, NpmLock(owner), value)
            case None => true
            case Some(result) =>
              && ParseDocument(text).Some? && ParseDocument(result).Some?
              && LockCarries(Tree(ParseDocument(text).value.root), value, Tree(ParseDocument(result).value.root))
  {
    hide ParseDocument, EditJson, Lookup, Tree, Takes, Carries, NamedInTree, RootIsOwn, LockTakes, LockCarries,
         Replacement, Codes, Comparable, FieldsOf;
    var declaration := NpmLock(owner);
    if EditJson(text, declaration, value).Some? { EditsADocument(text, declaration, value); }
    if ParseDocument(text).Some? {
      var doc := ParseDocument(text).value;
      var before := Tree(doc.root);
      LockFields(before, owner);
      if FieldsOf(before, declaration).None? {
        NothingSelected(text, doc, declaration, value);
      } else {
        var fields := FieldsOf(before, declaration).value;
        EditedExactly(text, declaration, value, fields);
        LockFieldsTake(before, value, fields);
        if EditJson(text, declaration, value).Some? {
          var result := EditJson(text, declaration, value).value;
          EditMeans(text, declaration, value, result);
          LockHeld(before, value, Tree(ParseDocument(result).value.root), fields);
        }
      }
    }
  }

  lemma LockFieldsTake(data: Value, value: Projected, fields: seq<Path>)
    requires fields == if Lookup(data, PACKAGES_PATH).Some? then [OWN_VERSION_PATH, ROOT_VERSION_PATH] else [OWN_VERSION_PATH]
    ensures LockTakes(data, value) <==> forall f | f in fields :: Takes(Lookup(data, f), value)
  {
    hide Lookup, Takes, Codes;
    assert OWN_VERSION_PATH in fields;
    if Lookup(data, PACKAGES_PATH).Some? { assert ROOT_VERSION_PATH in fields; }
    assert forall f | f in fields :: f == OWN_VERSION_PATH || (f == ROOT_VERSION_PATH && Lookup(data, PACKAGES_PATH).Some?);
  }

  lemma LockHeld(before: Value, value: Projected, after: Value, fields: seq<Path>)
    requires fields == if Lookup(before, PACKAGES_PATH).Some? then [OWN_VERSION_PATH, ROOT_VERSION_PATH] else [OWN_VERSION_PATH]
    requires forall f | f in fields :: Lookup(before, f).Some? && Replacement(value, Lookup(before, f).value).Some?
    requires forall f | f in fields :: Lookup(after, f) == Some(Replacement(value, Lookup(before, f).value).value)
    requires forall other: Path | (forall f | f in fields :: !Comparable(f, other)) ::
               Lookup(after, other) == Lookup(before, other)
    ensures LockCarries(before, value, after)
  {
    hide Lookup, Carries, Replacement, Codes, Comparable;
    forall f | f in fields ensures Carries(Lookup(before, f), value, Lookup(after, f)) {
      HeldAfter(value, Lookup(before, f), Lookup(after, f));
    }
    assert OWN_VERSION_PATH in fields && (Lookup(before, PACKAGES_PATH).Some? ==> ROOT_VERSION_PATH in fields);
    forall other: Path | && !Comparable(OWN_VERSION_PATH, other)
                         && (Lookup(before, PACKAGES_PATH).Some? ==> !Comparable(ROOT_VERSION_PATH, other))
      ensures Lookup(after, other) == Lookup(before, other)
    {
      OnlyFields(before, fields, other);
    }
  }

  lemma OnlyFields(before: Value, fields: seq<Path>, other: Path)
    requires fields == if Lookup(before, PACKAGES_PATH).Some? then [OWN_VERSION_PATH, ROOT_VERSION_PATH] else [OWN_VERSION_PATH]
    requires !Comparable(OWN_VERSION_PATH, other)
    requires Lookup(before, PACKAGES_PATH).Some? ==> !Comparable(ROOT_VERSION_PATH, other)
    ensures forall f | f in fields :: !Comparable(f, other)
  {
    hide Lookup, Codes, Comparable;
  }

  /**
   * A JSON manifest is edited exactly when it is a document that names the declared package, if one
   * is declared, and whose declared field takes the version; only that field changes.
   */
  lemma ManifestEdit(text: string, field: seq<CodePoints>, package: Option<CodePoints>, value: Projected)
    ensures EditJson(text, JsonFile(field, package), value).Some?
       <==> ParseDocument(text).Some?
            && var before := Tree(ParseDocument(text).value.root);
               (package.Some? ==> NamedInTree(before, package.value)) && Takes(Lookup(before, KeyPath(field)), value)
    ensures match EditJson(text, JsonFile(field, package), value)
            case None => true
            case Some(result) =>
              && ParseDocument(text).Some? && ParseDocument(result).Some?
              && var before, after := Tree(ParseDocument(text).value.root), Tree(ParseDocument(result).value.root);
              && Carries(Lookup(before, KeyPath(field)), value, Lookup(after, KeyPath(field)))
              && forall other: Path | !Comparable(KeyPath(field), other) :: Lookup(after, other) == Lookup(before, other)
  {
    hide ParseDocument, EditJson, Lookup, Tree, Takes, Carries, NamedInTree, Replacement, Codes, Comparable, FieldsOf, KeyPath;
    var declaration := JsonFile(field, package);
    if EditJson(text, declaration, value).Some? { EditsADocument(text, declaration, value); }
    if ParseDocument(text).Some? {
      var doc := ParseDocument(text).value;
      var before := Tree(doc.root);
      ManifestFields(before, field, package);
      if FieldsOf(before, declaration).None? {
        NothingSelected(text, doc, declaration, value);
      } else {
        var fields := FieldsOf(before, declaration).value;
        EditedExactly(text, declaration, value, fields);
        if EditJson(text, declaration, value).Some? {
          var result := EditJson(text, declaration, value).value;
          EditMeans(text, declaration, value, result);
          var after := Tree(ParseDocument(result).value.root);
          assert KeyPath(field) in fields;
          HeldAfter(value, Lookup(before, KeyPath(field)), Lookup(after, KeyPath(field)));
        }
      }
    }
  }
}

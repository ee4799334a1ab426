/**
 * What the toolchain comparison of scripts/release_versioned.py reports, said by walking down both
 * trees: which labels are listed, and what is said about each.
 */
module ToolchainMeaning {
  import opened Wrappers
  import opened Text
  import opened ToolchainDiff

  // ---- Labels ------------------------------------------------------------------------------------

  datatype Hop = Field(key: string) | Item(index: nat)

  ghost predicate IsHarmless(c: char) {
    || c in "ABCDEFGHIJKLMNOPQRSTUVWXYZ" || c in "abcdefghijklmnopqrstuvwxyz"
    || c in "0123456789" || c in "_./~-"
  }

  /** At most 200 harmless characters stand for themselves, anything else is shown by its hash. */
  ghost function Shown(hash: string -> string, s: string): string {
    if 0 < |s| <= 200 && forall i | 0 <= i < |s| :: IsHarmless(s[i]) then s else "redacted-sha256-" + hash(s)
  }

  /** The label at the end of a walk down the trees. */
  ghost function LabelAt(hash: string -> string, path: string, hops: seq<Hop>): string
    decreases |hops|
  {
    if hops == [] then path
    else
      var name := match hops[0] case Field(key) => Escape(key) case Item(index) => Decimal(index);
      LabelAt(hash, Shown(hash, path + (['/'] + name)), hops[1..])
  }

  /** A name read from its label as section 4 of RFC 6901 has it: `~1` is `/`, then `~0` is `~`. */
  function Unescape(s: string): string {
    if s == "" then ""
    else if |s| >= 2 && s[0] == '~' && s[1] == '1' then "/" + Unescape(s[2..])
    else if |s| >= 2 && s[0] == '~' && s[1] == '0' then "~" + Unescape(s[2..])
    else [s[0]] + Unescape(s[1..])
  }

  /** A key comes back from its place, which has no slash of its own. */
  lemma {:induction false} UnescapeOfEscape(key: string)
    ensures Unescape(Escape(key)) == key && '/' !in Escape(key)
  {
    if key != "" {
      UnescapeOfEscape(key[1..]);
      var s, rest := Escape(key), Escape(key[1..]);
      if key[0] == '~' {
        assert s == "~0" + rest && s[2..] == rest;
      } else if key[0] == '/' {
        assert s == "~1" + rest && s[2..] == rest;
      } else {
        assert s == [key[0]] + rest && s[1..] == rest;
      }
      assert key == [key[0]] + key[1..];
    }
  }

  lemma LabelShown(hash: string -> string, s: string)
    ensures DiagnosticLabel(hash, s) == Shown(hash, s)
  {
    forall c ensures IsSafe(c) <==> IsHarmless(c) {
      Capitals(c);
      SmallLetters(c);
      DigitLetters(c);
    }
    hide IsSafe, IsHarmless;
  }

  // ---- Differences -------------------------------------------------------------------------------

  ghost predicate HasType(v: Value, name: string) {
    || (v.Null? && name == "NoneType") || (v.Bool? && name == "bool") || (v.Int? && name == "int")
    || (v.Float? && name == "float") || (v.Str? && name == "str") || (v.List? && name == "list")
    || (v.Dict? && name == "dict")
  }

  /** What a number, or a truth value as Python counts it, is worth. */
  ghost predicate IsWorth(v: Value, x: real) {
    (v.Int? && x == v.number as real) || (v.Float? && x == v.decimal) || (v.Bool? && x == if v.flag then 1.0 else 0.0)
  }

  /** Two values without parts that Python holds equal: both nothing, the same text, or worth the same. */
  ghost predicate Alike(a: Value, b: Value) {
    (a.Null? && b.Null?) || (a.Str? && b.Str? && a.text == b.text) || exists x :: IsWorth(a, x) && IsWorth(b, x)
  }

  /** What is said where a walk ends. */
  ghost predicate EndsIn(before: Option<Value>, after: Option<Value>, change: Change) {
    match (before, after)
    case (None, Some(_)) => change == MissingBefore
    case (Some(_), None) => change == MissingAfter
    case (None, None) => false
    case (Some(a), Some(b)) =>
      && !Alike(a, b) && !(a.Dict? && b.Dict?) && !(a.List? && b.List?)
      && exists s, t :: && HasType(a, s) && HasType(b, t)
                        && change == if s == t then ValueChanged else TypeChanged(s, t)
  }

  /** A walk down both trees at once, through mappings and lists that both have, to a difference. */
  ghost predicate LeadsTo(before: Option<Value>, after: Option<Value>, hops: seq<Hop>, change: Change)
    decreases |hops|
  {
    if hops == [] then EndsIn(before, after, change)
    else
      && before.Some? && after.Some?
      && match hops[0]
         case Field(k) =>
           && before.value.Dict? && after.value.Dict?
           && LeadsTo(Get(before.value.fields, k), Get(after.value.fields, k), hops[1..], change)
         case Item(i) =>
           && before.value.List? && after.value.List?
           && LeadsTo(At(before.value.items, i), At(after.value.items, i), hops[1..], change)
  }

  ghost predicate Shows(hash: string -> string, path: string, before: Option<Value>, after: Option<Value>, place: string,
                        change: Change)
  {
    exists hops :: place == LabelAt(hash, path, hops) && LeadsTo(before, after, hops, change)
  }

  lemma {:induction false} NothingLeadsNowhere(hops: seq<Hop>, change: Change)
    ensures !LeadsTo(None, None, hops, change)
  {
  }

  lemma EqualEnds(a: Value, b: Value, change: Change)
    requires Equal(a, b)
    ensures !EndsIn(Some(a), Some(b), change)
  {
    if IsNumber(a) && IsNumber(b) {
      assert IsWorth(a, Number(a)) && IsWorth(b, Number(a));
    }
  }

  /** Nothing below equal values differs. */
  lemma {:induction false} EqualShowsNothing(a: Value, b: Value, hops: seq<Hop>, change: Change)
    requires Equal(a, b)
    ensures !LeadsTo(Some(a), Some(b), hops, change)
    decreases |hops|
  {
    hide EndsIn;
    if hops == [] {
      EqualEnds(a, b, change);
    } else {
      match hops[0]
      case Field(k) =>
        if a.Dict? && b.Dict? {
          if k in a.fields {
            EqualShowsNothing(a.fields[k], b.fields[k], hops[1..], change);
          } else {
            NothingLeadsNowhere(hops[1..], change);
            assert k !in b.fields.Keys;
          }
        }
      case Item(i) =>
        if a.List? && b.List? {
          if i < |a.items| {
            EqualShowsNothing(a.items[i], b.items[i], hops[1..], change);
          } else {
            NothingLeadsNowhere(hops[1..], change);
          }
        }
    }
  }

  // ---- One step of a walk --------------------------------------------------------------------------

  lemma FieldHop(hash: string -> string, path: string, a: Value, b: Value, k: string, hops: seq<Hop>, change: Change)
    requires a.Dict? && b.Dict?
    ensures LabelAt(hash, path, [Field(k)] + hops) == LabelAt(hash, KeyLabel(hash, path, k), hops)
    ensures LeadsTo(Some(a), Some(b), [Field(k)] + hops, change) <==>
              LeadsTo(Get(a.fields, k), Get(b.fields, k), hops, change)
  {
    assert ([Field(k)] + hops)[1..] == hops;
    assert path + ['/'] + Escape(k) == path + (['/'] + Escape(k));
    LabelShown(hash, path + ['/'] + Escape(k));
    hide EndsIn, DiagnosticLabel, Shown;
  }

  lemma ItemHop(hash: string -> string, path: string, a: Value, b: Value, i: nat, hops: seq<Hop>, change: Change)
    requires a.List? && b.List?
    ensures LabelAt(hash, path, [Item(i)] + hops) == LabelAt(hash, IndexLabel(hash, path, i), hops)
    ensures LeadsTo(Some(a), Some(b), [Item(i)] + hops, change) <==> LeadsTo(At(a.items, i), At(b.items, i), hops, change)
  {
    assert ([Item(i)] + hops)[1..] == hops;
    assert path + ['/'] + Decimal(i) == path + (['/'] + Decimal(i));
    LabelShown(hash, path + ['/'] + Decimal(i));
    hide EndsIn, DiagnosticLabel, Shown;
  }

  /** Below two mappings, what any of their keys shows. */
  lemma FieldsShow(hash: string -> string, path: string, a: Value, b: Value, place: string, change: Change)
    requires a.Dict? && b.Dict?
    ensures Shows(hash, path, Some(a), Some(b), place, change) <==>
              exists k | k in AllKeys(a, b) ::
                Shows(hash, KeyLabel(hash, path, k), Get(a.fields, k), Get(b.fields, k), place, change)
  {
    hide LabelAt, LeadsTo, KeyLabel;
    if hops: seq<Hop> :| place == LabelAt(hash, path, hops) && LeadsTo(Some(a), Some(b), hops, change) {
      FirstHop(a, b, hops, change);
      var k, rest := hops[0].key, hops[1..];
      assert hops == [Field(k)] + rest;
      FieldHop(hash, path, a, b, k, rest, change);
      NothingLeadsNowhere(rest, change);
      assert Shows(hash, KeyLabel(hash, path, k), Get(a.fields, k), Get(b.fields, k), place, change);
    }
    forall k, hops | place == LabelAt(hash, KeyLabel(hash, path, k), hops)
                     && LeadsTo(Get(a.fields, k), Get(b.fields, k), hops, change)
      ensures Shows(hash, path, Some(a), Some(b), place, change)
    {
      FieldHop(hash, path, a, b, k, hops, change);
    }
  }

  lemma FirstHop(a: Value, b: Value, hops: seq<Hop>, change: Change)
    requires LeadsTo(Some(a), Some(b), hops, change)
    ensures a.Dict? && b.Dict? ==> hops != [] && hops[0].Field?
    ensures a.List? && b.List? ==> hops != [] && hops[0].Item?
  {
  }

  /** Below two lists, what any of their positions shows. */
  lemma ItemsShow(hash: string -> string, path: string, a: Value, b: Value, place: string, change: Change)
    requires a.List? && b.List?
    ensures Shows(hash, path, Some(a), Some(b), place, change) <==>
              exists i: nat | i < Longest(a, b) ::
                Shows(hash, IndexLabel(hash, path, i), At(a.items, i), At(b.items, i), place, change)
  {
    hide LabelAt, LeadsTo, IndexLabel;
    if hops: seq<Hop> :| place == LabelAt(hash, path, hops) && LeadsTo(Some(a), Some(b), hops, change) {
      FirstHop(a, b, hops, change);
      var i, rest := hops[0].index, hops[1..];
      assert hops == [Item(i)] + rest;
      ItemHop(hash, path, a, b, i, rest, change);
      NothingLeadsNowhere(rest, change);
      assert Shows(hash, IndexLabel(hash, path, i), At(a.items, i), At(b.items, i), place, change);
    }
    forall i: nat, hops | place == LabelAt(hash, IndexLabel(hash, path, i), hops)
                          && LeadsTo(At(a.items, i), At(b.items, i), hops, change)
      ensures Shows(hash, path, Some(a), Some(b), place, change)
    {
      ItemHop(hash, path, a, b, i, hops, change);
    }
  }

  /** Everything else shows itself alone. */
  lemma EndShows(hash: string -> string, path: string, before: Option<Value>, after: Option<Value>, place: string,
                 change: Change)
    requires before.Some? && after.Some? ==>
               !(before.value.Dict? && after.value.Dict?) && !(before.value.List? && after.value.List?)
    ensures Shows(hash, path, before, after, place, change) <==> place == path && EndsIn(before, after, change)
  {
    hide EndsIn;
    assert LabelAt(hash, path, []) == path;
    assert LeadsTo(before, after, [], change) <==> EndsIn(before, after, change);
    forall hops | hops != [] ensures !LeadsTo(before, after, hops, change) {
    }
  }

  lemma ReportSays(e: Entry, place: string, change: Change)
    requires e.before.Some? || e.after.Some?
    requires e.before.Some? && e.after.Some? ==>
               !(e.before.value.Dict? && e.after.value.Dict?) && !(e.before.value.List? && e.after.value.List?)
    ensures (place, change) in Report(e) <==> place == e.place && EndsIn(e.before, e.after, change)
  {
    hide Equal, Alike, TypeName, HasType;
    if e.before.Some? && e.after.Some? {
      var a, b := e.before.value, e.after.value;
      TypesNamed(a);
      TypesNamed(b);
      EqualAlike(a, b);
      SameType(a, b);
    }
  }

  lemma SameType(a: Value, b: Value)
    ensures TypeName(a) == TypeName(b) ==> (a.Dict? <==> b.Dict?) && (a.List? <==> b.List?)
  {
  }

  lemma TypesNamed(v: Value)
    ensures forall s :: HasType(v, s) <==> s == TypeName(v)
  {
  }

  lemma EqualAlike(a: Value, b: Value)
    requires !(a.Dict? && b.Dict?) && !(a.List? && b.List?)
    ensures Equal(a, b) <==> Alike(a, b)
  {
    if IsNumber(a) && IsNumber(b) {
      assert IsWorth(a, Number(a)) && IsWorth(b, Number(b));
    }
  }

  // ---- The listing -----------------------------------------------------------------------------------

  lemma Listed(a: seq<Entry>, b: seq<Entry>, x: (string, Change))
    ensures x in Reports(a + b) <==> x in Reports(a) || x in Reports(b)
  {
    ReportsAppend(a, b);
  }

  lemma OneListed(e: Entry, x: (string, Change))
    ensures x in Reports([e]) <==> x in Report(e)
  {
    ReportsOne(e);
  }

  /**
   * A label is listed with a change exactly when some walk down both trees ends there at that change:
   * on which side something is missing, between which types it changed, or that its value changed.
   */
  lemma {:induction false} ListsDifferences(hash: string -> string, path: string, before: Value, after: Value, place: string,
                                            change: Change)
    ensures (place, change) in Reports(Preorder(hash, path, before, after)) <==>
              Shows(hash, path, Some(before), Some(after), place, change)
    decreases before, 2, 0
  {
    hide Equal, Shows, Report, PreorderFields, PreorderItems, Reports, EndsIn;
    var e := Entry(path, Some(before), Some(after));
    var below := Preorder(hash, path, before, after)[1..];
    assert Preorder(hash, path, before, after) == [e] + below;
    Listed([e], below, (place, change));
    OneListed(e, (place, change));
    if Equal(before, after) {
      EqualListsNothing(hash, path, before, after, place, change);
    } else if before.Dict? && after.Dict? {
      ContainerReports(e);
      FieldsShow(hash, path, before, after, place, change);
      FieldsListed(hash, path, before, after, AllKeys(before, after), place, change);
    } else if before.List? && after.List? {
      ContainerReports(e);
      ItemsShow(hash, path, before, after, place, change);
      ItemsListed(hash, path, before, after, 0, place, change);
    } else {
      ReportSays(e, place, change);
      EndShows(hash, path, Some(before), Some(after), place, change);
      NothingListed();
    }
  }

  lemma NothingListed()
    ensures Reports([]) == []
  {
  }

  lemma ContainerReports(e: Entry)
    requires e.before.Some? && e.after.Some? && !Equal(e.before.value, e.after.value)
    requires (e.before.value.Dict? && e.after.value.Dict?) || (e.before.value.List? && e.after.value.List?)
    ensures Report(e) == []
  {
    hide Equal;
  }

  lemma EqualListsNothing(hash: string -> string, path: string, before: Value, after: Value, place: string, change: Change)
    requires Equal(before, after)
    ensures !Shows(hash, path, Some(before), Some(after), place, change)
    ensures Report(Entry(path, Some(before), Some(after))) == [] && Preorder(hash, path, before, after)[1..] == []
    ensures Reports([]) == []
  {
    forall hops ensures !LeadsTo(Some(before), Some(after), hops, change) {
      EqualShowsNothing(before, after, hops, change);
    }
    hide Equal, LeadsTo;
  }

  lemma {:induction false} FieldsListed(hash: string -> string, path: string, before: Value, after: Value, keys: seq<string>,
                                        place: string, change: Change)
    requires before.Dict? && after.Dict? && forall k | k in keys :: k in before.fields || k in after.fields
    ensures (place, change) in Reports(PreorderFields(hash, path, before, after, keys)) <==>
              exists k | k in keys ::
                Shows(hash, KeyLabel(hash, path, k), Get(before.fields, k), Get(after.fields, k), place, change)
    decreases before, 1, |keys|
  {
    hide Equal, Shows, Report, PreorderField, KeyLabel, Get, Reports;
    if keys == [] {
      NothingListed();
    } else {
      FieldListed(hash, path, before, after, keys[0], place, change);
      FieldsListed(hash, path, before, after, keys[1..], place, change);
      Listed(PreorderField(hash, path, before, after, keys[0]), PreorderFields(hash, path, before, after, keys[1..]),
             (place, change));
      assert forall x | x in keys :: x == keys[0] || x in keys[1..];
      assert keys[0] in keys && forall x | x in keys[1..] :: x in keys;
    }
  }

  lemma {:induction false} FieldListed(hash: string -> string, path: string, before: Value, after: Value, k: string,
                                       place: string, change: Change)
    requires before.Dict? && after.Dict? && (k in before.fields || k in after.fields)
    ensures (place, change) in Reports(PreorderField(hash, path, before, after, k)) <==>
              Shows(hash, KeyLabel(hash, path, k), Get(before.fields, k), Get(after.fields, k), place, change)
    decreases before, 0, 0
  {
    hide Equal, Shows, Report, KeyLabel, Preorder, Reports, EndsIn;
    var e := FieldEntry(hash, path, before, after, k);
    if k in before.fields && k in after.fields {
      ListsDifferences(hash, e.place, before.fields[k], after.fields[k], place, change);
    } else {
      OneListed(e, (place, change));
      ReportSays(e, place, change);
      EndShows(hash, e.place, e.before, e.after, place, change);
    }
  }

  lemma {:induction false} ItemsListed(hash: string -> string, path: string, before: Value, after: Value, index: nat,
                                       place: string, change: Change)
    requires before.List? && after.List? && index <= Longest(before, after)
    ensures (place, change) in Reports(PreorderItems(hash, path, before, after, index)) <==>
              exists i: nat | index <= i < Longest(before, after) ::
                Shows(hash, IndexLabel(hash, path, i), At(before.items, i), At(after.items, i), place, change)
    decreases before, 1, Longest(before, after) - index
  {
    hide Equal, Shows, Report, PreorderItem, PreorderItems, IndexLabel, At, Reports;
    ItemsTurn(hash, path, before, after, index);
    if index < Longest(before, after) {
      ItemListed(hash, path, before, after, index, place, change);
      ItemsListed(hash, path, before, after, index + 1, place, change);
      Listed(PreorderItem(hash, path, before, after, index), PreorderItems(hash, path, before, after, index + 1),
             (place, change));
    }
  }

  lemma {:induction false} ItemListed(hash: string -> string, path: string, before: Value, after: Value, i: nat,
                                      place: string, change: Change)
    requires before.List? && after.List? && i < Longest(before, after)
    ensures (place, change) in Reports(PreorderItem(hash, path, before, after, i)) <==>
              Shows(hash, IndexLabel(hash, path, i), At(before.items, i), At(after.items, i), place, change)
    decreases before, 0, 0
  {
    hide Equal, Shows, Report, IndexLabel, Preorder, Reports, EndsIn;
    var e := ItemEntry(hash, path, before, after, i);
    if i < |before.items| && i < |after.items| {
      ListsDifferences(hash, e.place, before.items[i], after.items[i], place, change);
    } else {
      OneListed(e, (place, change));
      ReportSays(e, place, change);
      EndShows(hash, e.place, e.before, e.after, place, change);
    }
  }
}

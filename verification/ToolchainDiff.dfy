/**
 * The toolchain comparison of scripts/release_versioned.py (toolchain_changes and its helpers):
 * an explicit stack that lists where two JSON trees differ, with printable labels for positions.
 */
module ToolchainDiff {
  import opened Wrappers
  import opened Text
  import opened Ordering

  /** JSON values as Python holds them; floating point numbers are reals. */
  datatype Value =
    | Null
    | Bool(flag: bool)
    | Int(number: int)
    | Float(decimal: real)
    | Str(text: string)
    | List(items: seq<Value>)
    | Dict(fields: map<string, Value>)

  function TypeName(v: Value): string {
    match v
    case Null => "NoneType"
    case Bool(_) => "bool"
    case Int(_) => "int"
    case Float(_) => "float"
    case Str(_) => "str"
    case List(_) => "list"
    case Dict(_) => "dict"
  }

  predicate IsNumber(v: Value) {
    v.Bool? || v.Int? || v.Float?
  }

  function Number(v: Value): real
    requires IsNumber(v)
  {
    match v
    case Bool(flag) => if flag then 1.0 else 0.0
    case Int(n) => n as real
    case Float(r) => r
  }

  /** Python's ==, under which True, 1 and 1.0 are equal. */
  predicate Equal(a: Value, b: Value)
    decreases a
  {
    if IsNumber(a) && IsNumber(b) then Number(a) == Number(b)
    else if a.List? && b.List? then
      |a.items| == |b.items| && forall i | 0 <= i < |a.items| :: Equal(a.items[i], b.items[i])
    else if a.Dict? && b.Dict? then
      a.fields.Keys == b.fields.Keys && forall k | k in a.fields :: Equal(a.fields[k], b.fields[k])
    else a == b
  }

  // ---- Positions and their labels -----------------------------------------------------------------

  datatype Entry = Entry(place: string, before: Option<Value>, after: Option<Value>)

  datatype Change =
    | MissingBefore
    | MissingAfter
    | TypeChanged(from: string, to: string)
    | ValueChanged

  predicate IsSafe(c: char) {
    'A' <= c <= 'Z' || 'a' <= c <= 'z' || IsDigit(c) || c in "_./~-"
  }

  /** A short text of harmless characters as it is, any other by its hash. */
  function DiagnosticLabel(hash: string -> string, s: string): string {
    if 1 <= |s| <= 200 && forall i | 0 <= i < |s| :: IsSafe(s[i]) then s else "redacted-sha256-" + hash(s)
  }

  /** `~` and `/` in a key, as section 3 of RFC 6901 escapes them. */
  function Escape(key: string): (s: string)
    ensures '/' !in s
  {
    if key == "" then ""
    else if key[0] == '~' then "~0" + Escape(key[1..])
    else if key[0] == '/' then "~1" + Escape(key[1..])
    else [key[0]] + Escape(key[1..])
  }

  function KeyLabel(hash: string -> string, path: string, key: string): string {
    DiagnosticLabel(hash, path + ['/'] + Escape(key))
  }

  function IndexLabel(hash: string -> string, path: string, index: nat): string {
    DiagnosticLabel(hash, path + ['/'] + Decimal(index))
  }

  function Get(fields: map<string, Value>, key: string): Option<Value> {
    if key in fields then Some(fields[key]) else None
  }

  function At(items: seq<Value>, index: nat): Option<Value> {
    if index < |items| then Some(items[index]) else None
  }

  function FieldEntry(hash: string -> string, path: string, before: Value, after: Value, key: string): Entry
    requires before.Dict? && after.Dict?
  {
    Entry(KeyLabel(hash, path, key), Get(before.fields, key), Get(after.fields, key))
  }

  function ItemEntry(hash: string -> string, path: string, before: Value, after: Value, index: nat): Entry
    requires before.List? && after.List?
  {
    Entry(IndexLabel(hash, path, index), At(before.items, index), At(after.items, index))
  }

  function Longest(before: Value, after: Value): nat
    requires before.List? && after.List?
  {
    if |before.items| < |after.items| then |after.items| else |before.items|
  }

  function AllKeys(before: Value, after: Value): (keys: seq<string>)
    requires before.Dict? && after.Dict?
    ensures Ascending(keys) && forall k :: k in keys <==> k in before.fields || k in after.fields
  {
    SortedSet(before.fields.Keys + after.fields.Keys)
  }

  // ---- The recursive listing --------------------------------------------------------------------

  /** A position and everything below it that is compared, parents first, keys in order. */
  function Preorder(hash: string -> string, path: string, before: Value, after: Value): (visited: seq<Entry>)
    ensures visited != []
    decreases before, 2, 0
  {
    [Entry(path, Some(before), Some(after))] +
    if Equal(before, after) then []
    else if before.Dict? && after.Dict? then PreorderFields(hash, path, before, after, AllKeys(before, after))
    else if before.List? && after.List? then PreorderItems(hash, path, before, after, 0)
    else []
  }

  function PreorderField(hash: string -> string, path: string, before: Value, after: Value, key: string): (visited: seq<Entry>)
    requires before.Dict? && after.Dict?
    ensures visited != []
    decreases before, 0, 0
  {
    var e := FieldEntry(hash, path, before, after, key);
    if key in before.fields && key in after.fields
    then Preorder(hash, e.place, before.fields[key], after.fields[key]) else [e]
  }

  function PreorderFields(hash: string -> string, path: string, before: Value, after: Value, keys: seq<string>): seq<Entry>
    requires before.Dict? && after.Dict?
    decreases before, 1, |keys|
  {
    if keys == [] then []
    else PreorderField(hash, path, before, after, keys[0]) + PreorderFields(hash, path, before, after, keys[1..])
  }

  function PreorderItem(hash: string -> string, path: string, before: Value, after: Value, index: nat): (visited: seq<Entry>)
    requires before.List? && after.List?
    ensures visited != []
    decreases before, 0, 0
  {
    var e := ItemEntry(hash, path, before, after, index);
    if index < |before.items| && index < |after.items|
    then Preorder(hash, e.place, before.items[index], after.items[index]) else [e]
  }

  function PreorderItems(hash: string -> string, path: string, before: Value, after: Value, index: nat): seq<Entry>
    requires before.List? && after.List?
    decreases before, 1, Longest(before, after) - index
  {
    if index >= Longest(before, after) then []
    else PreorderItem(hash, path, before, after, index) + PreorderItems(hash, path, before, after, index + 1)
  }

  /** What is said about one position. */
  function Report(e: Entry): seq<(string, Change)> {
    if e.before.None? then [(e.place, MissingBefore)]
    else if e.after.None? then [(e.place, MissingAfter)]
    else if Equal(e.before.value, e.after.value) then []
    else if TypeName(e.before.value) != TypeName(e.after.value) then
      [(e.place, TypeChanged(TypeName(e.before.value), TypeName(e.after.value)))]
    else if e.before.value.Dict? || e.before.value.List? then []
    else [(e.place, ValueChanged)]
  }

  function Reports(entries: seq<Entry>): seq<(string, Change)> {
    if entries == [] then [] else Report(entries[0]) + Reports(entries[1..])
  }

  // ---- Nothing is listed exactly when the trees are equal ------------------------------------------

  lemma {:induction false} ReportsAppend(a: seq<Entry>, b: seq<Entry>)
    ensures Reports(a + b) == Reports(a) + Reports(b)
  {
    if a == [] {
      assert a + b == b;
    } else {
      assert (a + b)[1..] == a[1..] + b;
      ReportsAppend(a[1..], b);
    }
  }

  lemma ReportsOne(e: Entry)
    ensures Reports([e]) == Report(e)
  {
    assert Reports([e]) == Report(e) + [];
  }

  /** At least one difference is listed exactly when the two trees are unequal. */
  lemma {:induction false} ListsExactlyUnequal(hash: string -> string, path: string, before: Value, after: Value)
    ensures Reports(Preorder(hash, path, before, after)) == [] <==> Equal(before, after)
    decreases before, 2, 0
  {
    var e := Entry(path, Some(before), Some(after));
    var below := Preorder(hash, path, before, after)[1..];
    assert Preorder(hash, path, before, after) == [e] + below;
    ReportsAppend([e], below);
    ReportsOne(e);
    if !Equal(before, after) && before.Dict? && after.Dict? {
      FieldsListUnequal(hash, path, before, after, AllKeys(before, after));
      FieldwiseEqual(before, after);
    } else if !Equal(before, after) && before.List? && after.List? {
      ItemsListUnequal(hash, path, before, after, 0);
      ItemwiseEqual(before, after);
    }
  }

  lemma SameKeys(before: Value, after: Value)
    requires before.Dict? && after.Dict? && forall k | k in AllKeys(before, after) :: SameField(before, after, k)
    ensures before.fields.Keys == after.fields.Keys
  {
    hide Equal, Ascending;
    forall k ensures k in before.fields.Keys <==> k in after.fields.Keys {
      assert k in AllKeys(before, after) ==> SameField(before, after, k);
    }
  }

  lemma FieldwiseEqual(before: Value, after: Value)
    requires before.Dict? && after.Dict?
    ensures Equal(before, after) <==> forall k | k in AllKeys(before, after) :: SameField(before, after, k)
  {
    if forall k | k in AllKeys(before, after) :: SameField(before, after, k) {
      SameKeys(before, after);
      forall k | k in before.fields ensures Equal(before.fields[k], after.fields[k]) {
        assert SameField(before, after, k);
      }
    }
    hide Ascending;
  }

  lemma ItemwiseEqual(before: Value, after: Value)
    requires before.List? && after.List?
    ensures Equal(before, after) <==> forall i | 0 <= i < Longest(before, after) :: SameItem(before, after, i)
  {
    if forall i | 0 <= i < Longest(before, after) :: SameItem(before, after, i) {
      if Longest(before, after) > 0 { assert SameItem(before, after, Longest(before, after) - 1); }
      forall i | 0 <= i < |before.items| ensures Equal(before.items[i], after.items[i]) {
        assert SameItem(before, after, i);
      }
    }
  }

  predicate SameField(before: Value, after: Value, k: string)
    requires before.Dict? && after.Dict?
  {
    k in before.fields && k in after.fields && Equal(before.fields[k], after.fields[k])
  }

  lemma {:induction false} FieldsListUnequal(hash: string -> string, path: string, before: Value, after: Value,
                                             keys: seq<string>)
    requires before.Dict? && after.Dict? && forall k | k in keys :: k in before.fields || k in after.fields
    ensures Reports(PreorderFields(hash, path, before, after, keys)) == [] <==>
              forall k | k in keys :: SameField(before, after, k)
    decreases before, 1, |keys|
  {
    hide Equal, SameField;
    if keys != [] {
      FieldListsUnequal(hash, path, before, after, keys[0]);
      ReportsAppend(PreorderField(hash, path, before, after, keys[0]), PreorderFields(hash, path, before, after, keys[1..]));
      FieldsListUnequal(hash, path, before, after, keys[1..]);
      assert forall x | x in keys :: x == keys[0] || x in keys[1..];
    }
  }

  lemma {:induction false} FieldListsUnequal(hash: string -> string, path: string, before: Value, after: Value, k: string)
    requires before.Dict? && after.Dict? && (k in before.fields || k in after.fields)
    ensures Reports(PreorderField(hash, path, before, after, k)) == [] <==> SameField(before, after, k)
    decreases before, 0, 0
  {
    hide Equal;
    var e := FieldEntry(hash, path, before, after, k);
    if k in before.fields && k in after.fields {
      ListsExactlyUnequal(hash, e.place, before.fields[k], after.fields[k]);
    } else {
      ReportsOne(e);
    }
  }

  predicate SameItem(before: Value, after: Value, i: nat)
    requires before.List? && after.List?
  {
    i < |before.items| && i < |after.items| && Equal(before.items[i], after.items[i])
  }

  lemma ItemsTurn(hash: string -> string, path: string, before: Value, after: Value, index: nat)
    requires before.List? && after.List? && index <= Longest(before, after)
    ensures Reports([]) == []
    ensures PreorderItems(hash, path, before, after, index) ==
              if index == Longest(before, after) then []
              else PreorderItem(hash, path, before, after, index) + PreorderItems(hash, path, before, after, index + 1)
  {
    hide PreorderItem;
  }

  lemma SameFrom(before: Value, after: Value, index: nat)
    requires before.List? && after.List? && index < Longest(before, after)
    ensures (forall i | index <= i < Longest(before, after) :: SameItem(before, after, i)) <==>
              SameItem(before, after, index) && forall i | index + 1 <= i < Longest(before, after) :: SameItem(before, after, i)
  {
    hide SameItem;
  }

  lemma {:induction false} ItemsListUnequal(hash: string -> string, path: string, before: Value, after: Value, index: nat)
    requires before.List? && after.List? && index <= Longest(before, after)
    ensures Reports(PreorderItems(hash, path, before, after, index)) == [] <==>
              forall i | index <= i < Longest(before, after) :: SameItem(before, after, i)
    decreases before, 1, Longest(before, after) - index
  {
    hide Equal, SameItem, PreorderItems, PreorderItem, Reports;
    ItemsTurn(hash, path, before, after, index);
    if index < Longest(before, after) {
      SameFrom(before, after, index);
      ItemListsUnequal(hash, path, before, after, index);
      ReportsAppend(PreorderItem(hash, path, before, after, index), PreorderItems(hash, path, before, after, index + 1));
      ItemsListUnequal(hash, path, before, after, index + 1);
    }
  }

  lemma {:induction false} ItemListsUnequal(hash: string -> string, path: string, before: Value, after: Value, index: nat)
    requires before.List? && after.List? && index < Longest(before, after)
    ensures Reports(PreorderItem(hash, path, before, after, index)) == [] <==> SameItem(before, after, index)
    decreases before, 0, 0
  {
    hide Equal;
    var e := ItemEntry(hash, path, before, after, index);
    if index < |before.items| && index < |after.items| {
      ListsExactlyUnequal(hash, e.place, before.items[index], after.items[index]);
    } else {
      ReportsOne(e);
    }
  }

  // ---- Labels tell positions apart -----------------------------------------------------------------

  ghost predicate GoodHash(hash: string -> string) {
    (forall s :: '/' !in hash(s)) && forall s, t :: hash(s) == hash(t) ==> s == t
  }

  /** The label reached from another by escaped keys and indices. */
  function Place(hash: string -> string, path: string, steps: seq<string>): string
    decreases |steps|
  {
    if steps == [] then path else Place(hash, DiagnosticLabel(hash, path + ['/'] + steps[0]), steps[1..])
  }

  lemma {:induction false} PlaceFromEnd(hash: string -> string, path: string, steps: seq<string>)
    requires steps != []
    ensures Place(hash, path, steps)
         == DiagnosticLabel(hash, Place(hash, path, steps[..|steps| - 1]) + ['/'] + steps[|steps| - 1])
    decreases |steps|
  {
    hide DiagnosticLabel;
    var next := DiagnosticLabel(hash, path + ['/'] + steps[0]);
    var front, last := steps[..|steps| - 1], steps[|steps| - 1];
    if |steps| > 1 {
      PlaceFromEnd(hash, next, steps[1..]);
      assert steps[1..][..|steps| - 2] == front[1..] && steps[1..][|steps| - 2] == last;
      assert Place(hash, path, front) == Place(hash, next, front[1..]);
    } else {
      assert steps[1..] == [] && front == [];
    }
  }

  lemma RootPlace(hash: string -> string, path: string)
    ensures Place(hash, path, []) == path
  {
  }

  lemma LabelsDiffer(hash: string -> string, s: string, t: string)
    requires GoodHash(hash) && '/' in s && '/' in t && DiagnosticLabel(hash, s) == DiagnosticLabel(hash, t)
    ensures s == t
  {
    var redacted := "redacted-sha256-";
    if DiagnosticLabel(hash, s) != s && DiagnosticLabel(hash, t) != t {
      assert (redacted + hash(s))[|redacted|..] == hash(s) && (redacted + hash(t))[|redacted|..] == hash(t);
    } else {
      assert '/' !in redacted + hash(s) && '/' !in redacted + hash(t);
    }
  }

  lemma BelowRoot(hash: string -> string, s: string)
    requires '/' in s
    ensures DiagnosticLabel(hash, s) != "toolchain"
  {
    assert '/' !in "toolchain";
    assert ("redacted-sha256-" + hash(s))[0] != "toolchain"[0];
  }

  /** Different chains of steps end at different labels. */
  lemma {:induction false} PlaceInjective(hash: string -> string, s: seq<string>, t: seq<string>)
    requires GoodHash(hash) && (forall x | x in s :: '/' !in x) && (forall x | x in t :: '/' !in x)
    requires Place(hash, "toolchain", s) == Place(hash, "toolchain", t)
    ensures s == t
    decreases |s|
  {
    hide DiagnosticLabel, Place, GoodHash;
    var root := "toolchain";
    RootPlace(hash, root);
    if s != [] {
      PlaceFromEnd(hash, root, s);
      BelowRoot(hash, Place(hash, root, s[..|s| - 1]) + ['/'] + s[|s| - 1]);
    }
    if t != [] {
      PlaceFromEnd(hash, root, t);
      BelowRoot(hash, Place(hash, root, t[..|t| - 1]) + ['/'] + t[|t| - 1]);
    }
    if s != [] && t != [] {
      var a, b := Place(hash, root, s[..|s| - 1]), Place(hash, root, t[..|t| - 1]);
      LabelsDiffer(hash, a + ['/'] + s[|s| - 1], b + ['/'] + t[|t| - 1]);
      UniqueLastSplit(a, b, s[|s| - 1], t[|t| - 1], '/');
      PlaceInjective(hash, s[..|s| - 1], t[..|t| - 1]);
      assert s == s[..|s| - 1] + [s[|s| - 1]] && t == t[..|t| - 1] + [t[|t| - 1]];
    }
  }

  lemma {:induction false} EscapeInjective(a: string, b: string)
    requires Escape(a) == Escape(b)
    ensures a == b
  {
    if a != "" && b != "" {
      var m, n := |Escape(a)| - |Escape(a[1..])|, |Escape(b)| - |Escape(b[1..])|;
      assert Escape(a[1..]) == Escape(a)[m..] && Escape(b[1..]) == Escape(b)[n..];
      assert Escape(a)[0] == Escape(b)[0];
      EscapeInjective(a[1..], b[1..]);
      assert a == [a[0]] + a[1..] && b == [b[0]] + b[1..];
    }
  }

  predicate IsSteps(s: seq<string>) {
    forall x | x in s :: '/' !in x
  }

  /** The steps that lead to the i-th listed position. */
  function StepsTo(hash: string -> string, path: string, before: Value, after: Value, i: nat): seq<string>
    requires i < |Preorder(hash, path, before, after)|
    decreases before, 2, 0
  {
    if i == 0 then []
    else if before.Dict? then FieldStepsTo(hash, path, before, after, AllKeys(before, after), i - 1)
    else ItemStepsTo(hash, path, before, after, 0, i - 1)
  }

  function FieldStepsTo(hash: string -> string, path: string, before: Value, after: Value, keys: seq<string>, i: nat): seq<string>
    requires before.Dict? && after.Dict? && i < |PreorderFields(hash, path, before, after, keys)|
    decreases before, 1, |keys|
  {
    var k := keys[0];
    var first := PreorderField(hash, path, before, after, k);
    if i >= |first| then FieldStepsTo(hash, path, before, after, keys[1..], i - |first|)
    else if k in before.fields && k in after.fields then
      [Escape(k)] + StepsTo(hash, KeyLabel(hash, path, k), before.fields[k], after.fields[k], i)
    else [Escape(k)]
  }

  function ItemStepsTo(hash: string -> string, path: string, before: Value, after: Value, index: nat, i: nat): seq<string>
    requires before.List? && after.List? && i < |PreorderItems(hash, path, before, after, index)|
    decreases before, 1, Longest(before, after) - index
  {
    var first := PreorderItem(hash, path, before, after, index);
    if i >= |first| then ItemStepsTo(hash, path, before, after, index + 1, i - |first|)
    else if index < |before.items| && index < |after.items| then
      [Decimal(index)] + StepsTo(hash, IndexLabel(hash, path, index), before.items[index], after.items[index], i)
    else [Decimal(index)]
  }

  lemma StepBelow(hash: string -> string, path: string, segment: string, steps: seq<string>)
    requires '/' !in segment && IsSteps(steps)
    ensures IsSteps([segment] + steps)
    ensures Place(hash, path, [segment] + steps) == Place(hash, DiagnosticLabel(hash, path + ['/'] + segment), steps)
  {
    assert ([segment] + steps)[1..] == steps;
  }

  lemma DecimalHasNoSlash(n: nat)
    ensures '/' !in Decimal(n)
  {
    ParseOfDecimal(n);
  }

  lemma {:induction false} StepsLead(hash: string -> string, path: string, before: Value, after: Value, i: nat)
    requires i < |Preorder(hash, path, before, after)|
    ensures IsSteps(StepsTo(hash, path, before, after, i))
    ensures Preorder(hash, path, before, after)[i].place == Place(hash, path, StepsTo(hash, path, before, after, i))
    decreases before, 2, 0
  {
    hide Equal, DiagnosticLabel, PreorderFields, PreorderItems;
    RootPlace(hash, path);
    if i > 0 && before.Dict? {
      FieldStepsLead(hash, path, before, after, AllKeys(before, after), i - 1);
    } else if i > 0 {
      ItemStepsLead(hash, path, before, after, 0, i - 1);
    }
  }

  lemma {:induction false} FieldStepsLead(hash: string -> string, path: string, before: Value, after: Value,
                                          keys: seq<string>, i: nat)
    requires before.Dict? && after.Dict? && i < |PreorderFields(hash, path, before, after, keys)|
    ensures IsSteps(FieldStepsTo(hash, path, before, after, keys, i))
    ensures PreorderFields(hash, path, before, after, keys)[i].place
         == Place(hash, path, FieldStepsTo(hash, path, before, after, keys, i))
    decreases before, 1, |keys|
  {
    hide Equal, DiagnosticLabel, Preorder, Place, Escape;
    var k := keys[0];
    var first := PreorderField(hash, path, before, after, k);
    if i >= |first| {
      FieldStepsLead(hash, path, before, after, keys[1..], i - |first|);
    } else if k in before.fields && k in after.fields {
      StepsLead(hash, KeyLabel(hash, path, k), before.fields[k], after.fields[k], i);
      StepBelow(hash, path, Escape(k), StepsTo(hash, KeyLabel(hash, path, k), before.fields[k], after.fields[k], i));
    } else {
      StepBelow(hash, path, Escape(k), []);
      RootPlace(hash, KeyLabel(hash, path, k));
      assert [Escape(k)] + [] == [Escape(k)];
    }
  }

  lemma {:induction false} ItemStepsLead(hash: string -> string, path: string, before: Value, after: Value,
                                         index: nat, i: nat)
    requires before.List? && after.List? && i < |PreorderItems(hash, path, before, after, index)|
    ensures IsSteps(ItemStepsTo(hash, path, before, after, index, i))
    ensures PreorderItems(hash, path, before, after, index)[i].place
         == Place(hash, path, ItemStepsTo(hash, path, before, after, index, i))
    decreases before, 1, Longest(before, after) - index
  {
    hide Equal, DiagnosticLabel, Preorder, Place, Decimal;
    var first := PreorderItem(hash, path, before, after, index);
    DecimalHasNoSlash(index);
    if i >= |first| {
      ItemStepsLead(hash, path, before, after, index + 1, i - |first|);
    } else if index < |before.items| && index < |after.items| {
      var place := IndexLabel(hash, path, index);
      StepsLead(hash, place, before.items[index], after.items[index], i);
      StepBelow(hash, path, Decimal(index), StepsTo(hash, place, before.items[index], after.items[index], i));
    } else {
      StepBelow(hash, path, Decimal(index), []);
      RootPlace(hash, IndexLabel(hash, path, index));
      assert [Decimal(index)] + [] == [Decimal(index)];
    }
  }

  lemma {:induction false} StepsDiffer(hash: string -> string, path: string, before: Value, after: Value, i: nat, j: nat)
    requires i < j < |Preorder(hash, path, before, after)|
    ensures StepsTo(hash, path, before, after, i) != StepsTo(hash, path, before, after, j)
    decreases before, 2, 0
  {
    hide Equal, DiagnosticLabel, PreorderFields, PreorderItems, FieldStepsTo, ItemStepsTo, AllKeys;
    if before.Dict? {
      FieldStepsDiffer(hash, path, before, after, AllKeys(before, after), if i == 0 then j - 1 else i - 1, j - 1);
    } else {
      ItemStepsDiffer(hash, path, before, after, 0, if i == 0 then j - 1 else i - 1, j - 1);
    }
  }

  lemma {:induction false} FieldStepsDiffer(hash: string -> string, path: string, before: Value, after: Value,
                                            keys: seq<string>, i: nat, j: nat)
    requires before.Dict? && after.Dict? && Ascending(keys)
    requires i <= j < |PreorderFields(hash, path, before, after, keys)|
    ensures var s, t := FieldStepsTo(hash, path, before, after, keys, i), FieldStepsTo(hash, path, before, after, keys, j);
            && s != [] && t != [] && (i < j ==> s != t)
            && (exists k :: k in keys && s[0] == Escape(k)) && (exists k :: k in keys && t[0] == Escape(k))
    decreases before, 1, |keys|
  {
    hide Equal, DiagnosticLabel, Preorder, Escape, StepsTo;
    var k, rest := keys[0], keys[1..];
    var n := |PreorderField(hash, path, before, after, k)|;
    assert Ascending(rest) by {
      assert forall m | 0 <= m < |rest| :: rest[m] == keys[m + 1];
    }
    assert k in keys && forall x | x in rest :: x in keys;
    if j >= n {
      FieldStepsDiffer(hash, path, before, after, rest, if i < n then j - n else i - n, j - n);
      if i < n { LaterKeyDiffers(keys, FieldStepsTo(hash, path, before, after, rest, j - n)[0]); }
    } else if i < j {
      StepsDiffer(hash, KeyLabel(hash, path, k), before.fields[k], after.fields[k], i, j);
      var s := FieldStepsTo(hash, path, before, after, keys, i);
      var t := FieldStepsTo(hash, path, before, after, keys, j);
      assert s[1..] != t[1..];
    }
  }

  lemma LaterKeyDiffers(keys: seq<string>, segment: string)
    requires keys != [] && Ascending(keys) && exists k :: k in keys[1..] && segment == Escape(k)
    ensures segment != Escape(keys[0])
  {
    var k :| k in keys[1..] && segment == Escape(k);
    var n :| 0 <= n < |keys[1..]| && keys[1..][n] == k;
    assert Less(keys[0], keys[n + 1]);
    LessIsTotal(k, k);
    if Escape(k) == Escape(keys[0]) { EscapeInjective(k, keys[0]); }
  }

  lemma {:induction false} ItemStepsDiffer(hash: string -> string, path: string, before: Value, after: Value,
                                           index: nat, i: nat, j: nat)
    requires before.List? && after.List? && i <= j < |PreorderItems(hash, path, before, after, index)|
    ensures var s, t := ItemStepsTo(hash, path, before, after, index, i), ItemStepsTo(hash, path, before, after, index, j);
            && s != [] && t != [] && (i < j ==> s != t)
            && (exists n: nat :: index <= n && s[0] == Decimal(n)) && (exists n: nat :: index <= n && t[0] == Decimal(n))
    decreases before, 1, Longest(before, after) - index
  {
    hide Equal, DiagnosticLabel, Preorder, Decimal;
    var n := |PreorderItem(hash, path, before, after, index)|;
    if j >= n {
      ItemStepsDiffer(hash, path, before, after, index + 1, if i < n then j - n else i - n, j - n);
      if i < n { LaterIndexDiffers(index, ItemStepsTo(hash, path, before, after, index + 1, j - n)[0]); }
    } else if i < j {
      StepsDiffer(hash, IndexLabel(hash, path, index), before.items[index], after.items[index], i, j);
      var s := ItemStepsTo(hash, path, before, after, index, i);
      var t := ItemStepsTo(hash, path, before, after, index, j);
      assert s[1..] != t[1..];
    }
  }

  lemma LaterIndexDiffers(index: nat, segment: string)
    requires exists n: nat :: index + 1 <= n && segment == Decimal(n)
    ensures segment != Decimal(index)
  {
    var n: nat :| index + 1 <= n && segment == Decimal(n);
    if Decimal(n) == Decimal(index) { DecimalInjective(n, index); }
  }

  /** No two positions of one comparison share a label, however deep, long or odd their names are. */
  lemma LabelsTellApart(hash: string -> string, before: Value, after: Value, i: nat, j: nat)
    requires GoodHash(hash) && i < j < |Preorder(hash, "toolchain", before, after)|
    ensures Preorder(hash, "toolchain", before, after)[i].place != Preorder(hash, "toolchain", before, after)[j].place
  {
    var root := "toolchain";
    StepsLead(hash, root, before, after, i);
    StepsLead(hash, root, before, after, j);
    StepsDiffer(hash, root, before, after, i, j);
    var s, t := StepsTo(hash, root, before, after, i), StepsTo(hash, root, before, after, j);
    if Place(hash, root, s) == Place(hash, root, t) { PlaceInjective(hash, s, t); }
  }

  // ---- The stack -----------------------------------------------------------------------------------

  /** The top of the stack is its last element. */
  function TopFirst(pending: seq<Entry>): (entries: seq<Entry>)
    ensures |entries| == |pending|
  {
    if pending == [] then [] else [pending[|pending| - 1]] + TopFirst(pending[..|pending| - 1])
  }

  function PreorderOf(hash: string -> string, e: Entry): (visited: seq<Entry>)
    ensures visited != []
  {
    if e.before.Some? && e.after.Some? then Preorder(hash, e.place, e.before.value, e.after.value) else [e]
  }

  function PreorderAll(hash: string -> string, entries: seq<Entry>): seq<Entry> {
    if entries == [] then [] else PreorderOf(hash, entries[0]) + PreorderAll(hash, entries[1..])
  }

  function FieldEntries(hash: string -> string, path: string, before: Value, after: Value, keys: seq<string>): seq<Entry>
    requires before.Dict? && after.Dict?
  {
    if keys == [] then []
    else [FieldEntry(hash, path, before, after, keys[0])] + FieldEntries(hash, path, before, after, keys[1..])
  }

  function ItemEntries(hash: string -> string, path: string, before: Value, after: Value, index: nat): seq<Entry>
    requires before.List? && after.List?
    decreases Longest(before, after) - index
  {
    if index >= Longest(before, after) then []
    else [ItemEntry(hash, path, before, after, index)] + ItemEntries(hash, path, before, after, index + 1)
  }

  lemma {:induction false} FieldsTogether(hash: string -> string, path: string, before: Value, after: Value, keys: seq<string>)
    requires before.Dict? && after.Dict?
    ensures PreorderAll(hash, FieldEntries(hash, path, before, after, keys))
         == PreorderFields(hash, path, before, after, keys)
  {
    hide Preorder;
    if keys != [] {
      FieldsTogether(hash, path, before, after, keys[1..]);
    }
  }

  lemma {:induction false} ItemsTogether(hash: string -> string, path: string, before: Value, after: Value, index: nat)
    requires before.List? && after.List?
    ensures PreorderAll(hash, ItemEntries(hash, path, before, after, index))
         == PreorderItems(hash, path, before, after, index)
    decreases Longest(before, after) - index
  {
    hide Preorder;
    if index < Longest(before, after) {
      ItemsTogether(hash, path, before, after, index + 1);
    }
  }

  lemma {:induction false} PreorderAllAppend(hash: string -> string, a: seq<Entry>, b: seq<Entry>)
    ensures PreorderAll(hash, a + b) == PreorderAll(hash, a) + PreorderAll(hash, b)
  {
    hide PreorderOf;
    if a == [] {
      assert a + b == b;
    } else {
      assert (a + b)[1..] == a[1..] + b;
      PreorderAllAppend(hash, a[1..], b);
    }
  }

  lemma TopFirstPush(pending: seq<Entry>, e: Entry)
    ensures TopFirst(pending + [e]) == [e] + TopFirst(pending)
  {
    assert (pending + [e])[..|pending|] == pending;
  }

  /** What the stack still has to list. */
  function Ahead(hash: string -> string, pending: seq<Entry>): seq<Entry> {
    PreorderAll(hash, TopFirst(pending))
  }

  lemma Popped(hash: string -> string, pending: seq<Entry>)
    requires pending != []
    ensures Ahead(hash, pending) == PreorderOf(hash, pending[|pending| - 1]) + Ahead(hash, pending[..|pending| - 1])
  {
    hide PreorderOf;
    var e, rest := pending[|pending| - 1], pending[..|pending| - 1];
    assert TopFirst(pending) == [e] + TopFirst(rest);
    assert TopFirst(pending)[1..] == TopFirst(rest);
  }

  class Comparison {
    const hash: string -> string
    var pending: seq<Entry>

    constructor (hash: string -> string)
      ensures this.hash == hash && pending == []
    {
      this.hash := hash;
      pending := [];
    }

    method QueueMapping(path: string, before: Value, after: Value)
      requires before.Dict? && after.Dict?
      modifies this
      ensures TopFirst(pending) == FieldEntries(hash, path, before, after, AllKeys(before, after)) + old(TopFirst(pending))
    {
      hide FieldEntry, TopFirst, AllKeys;
      var keys := AllKeys(before, after);
      assert keys[|keys|..] == [];
      for i := |keys| downto 0
        invariant TopFirst(pending) == FieldEntries(hash, path, before, after, keys[i..]) + old(TopFirst(pending))
      {
        assert keys[i..][1..] == keys[i + 1..];
        TopFirstPush(pending, FieldEntry(hash, path, before, after, keys[i]));
        pending := pending + [FieldEntry(hash, path, before, after, keys[i])];
      }
    }

    method QueueList(path: string, before: Value, after: Value)
      requires before.List? && after.List?
      modifies this
      ensures TopFirst(pending) == ItemEntries(hash, path, before, after, 0) + old(TopFirst(pending))
    {
      hide ItemEntry, TopFirst;
      for i := Longest(before, after) downto 0
        invariant TopFirst(pending) == ItemEntries(hash, path, before, after, i) + old(TopFirst(pending))
      {
        TopFirstPush(pending, ItemEntry(hash, path, before, after, i));
        pending := pending + [ItemEntry(hash, path, before, after, i)];
      }
    }

    /** The differences, in the order of the recursive listing. */
    method Changes(original: Value, current: Value) returns (changes: seq<(string, Change)>)
      requires pending == []
      modifies this
      ensures changes == Reports(Preorder(hash, "toolchain", original, current))
    {
      hide Preorder, PreorderOf, Ahead, Equal, Reports, TopFirst, FieldEntries, ItemEntries;
      var root := Entry("toolchain", Some(original), Some(current));
      pending := [root];
      changes := [];
      ghost var all := Preorder(hash, "toolchain", original, current);
      OnlyRoot(hash, root);
      NothingReported();
      while pending != []
        invariant changes + Reports(Ahead(hash, pending)) == Reports(all)
        decreases |Ahead(hash, pending)|
      {
        var e := pending[|pending| - 1];
        ghost var before := pending;
        pending := pending[..|pending| - 1];
        Popped(hash, before);
        ghost var rest := pending;
        if e.before.None? {
          Counted(hash, e, rest);
          changes := changes + [(e.place, MissingBefore)];
        } else if e.after.None? {
          Counted(hash, e, rest);
          changes := changes + [(e.place, MissingAfter)];
        } else if Equal(e.before.value, e.after.value) {
          Counted(hash, e, rest);
          assert changes + [] == changes;
        } else if TypeName(e.before.value) != TypeName(e.after.value) {
          Counted(hash, e, rest);
          changes := changes + [(e.place, TypeChanged(TypeName(e.before.value), TypeName(e.after.value)))];
        } else if e.before.value.Dict? {
          QueueMapping(e.place, e.before.value, e.after.value);
          Expanded(hash, e, rest, pending);
        } else if e.before.value.List? {
          QueueList(e.place, e.before.value, e.after.value);
          Expanded(hash, e, rest, pending);
        } else {
          Counted(hash, e, rest);
          changes := changes + [(e.place, ValueChanged)];
        }
      }
      NothingAhead(hash);
    }
  }

  lemma OnlyRoot(hash: string -> string, e: Entry)
    ensures Ahead(hash, [e]) == PreorderOf(hash, e)
    ensures e.before.Some? && e.after.Some? ==>
              Ahead(hash, [e]) == Preorder(hash, e.place, e.before.value, e.after.value)
  {
    Popped(hash, [e]);
    assert PreorderOf(hash, e) + [] == PreorderOf(hash, e);
  }

  lemma NothingReported()
    ensures forall s: seq<(string, Change)> :: [] + s == s
  {
  }

  lemma NothingAhead(hash: string -> string)
    ensures Reports(Ahead(hash, [])) == [] && forall s: seq<(string, Change)> :: s + [] == s
  {
  }

  lemma FieldsAhead(hash: string -> string, e: Entry, rest: seq<Entry>, pending: seq<Entry>)
    requires e.before.Some? && e.after.Some? && !Equal(e.before.value, e.after.value)
    requires e.before.value.Dict? && e.after.value.Dict?
    requires TopFirst(pending) == FieldEntries(hash, e.place, e.before.value, e.after.value,
                                               AllKeys(e.before.value, e.after.value)) + TopFirst(rest)
    ensures PreorderOf(hash, e) + Ahead(hash, rest) == [e] + Ahead(hash, pending)
  {
    hide PreorderFields, FieldEntries, TopFirst, PreorderAll, Equal, AllKeys;
    var before, after, keys := e.before.value, e.after.value, AllKeys(e.before.value, e.after.value);
    assert PreorderOf(hash, e) == [e] + PreorderFields(hash, e.place, before, after, keys);
    FieldsTogether(hash, e.place, before, after, keys);
    PreorderAllAppend(hash, FieldEntries(hash, e.place, before, after, keys), TopFirst(rest));
  }

  lemma ItemsAhead(hash: string -> string, e: Entry, rest: seq<Entry>, pending: seq<Entry>)
    requires e.before.Some? && e.after.Some? && !Equal(e.before.value, e.after.value)
    requires e.before.value.List? && e.after.value.List?
    requires TopFirst(pending) == ItemEntries(hash, e.place, e.before.value, e.after.value, 0) + TopFirst(rest)
    ensures PreorderOf(hash, e) + Ahead(hash, rest) == [e] + Ahead(hash, pending)
  {
    hide PreorderItems, ItemEntries, TopFirst, PreorderAll, Equal;
    var before, after := e.before.value, e.after.value;
    assert PreorderOf(hash, e) == [e] + PreorderItems(hash, e.place, before, after, 0);
    ItemsTogether(hash, e.place, before, after, 0);
    PreorderAllAppend(hash, ItemEntries(hash, e.place, before, after, 0), TopFirst(rest));
  }

  /** Putting the parts of a pair of containers on the stack in its place. */
  lemma Expanded(hash: string -> string, e: Entry, rest: seq<Entry>, pending: seq<Entry>)
    requires e.before.Some? && e.after.Some? && !Equal(e.before.value, e.after.value)
    requires (e.before.value.Dict? && e.after.value.Dict?
              && TopFirst(pending) == FieldEntries(hash, e.place, e.before.value, e.after.value,
                                                   AllKeys(e.before.value, e.after.value)) + TopFirst(rest))
             || (e.before.value.List? && e.after.value.List?
                 && TopFirst(pending) == ItemEntries(hash, e.place, e.before.value, e.after.value, 0) + TopFirst(rest))
    ensures |Ahead(hash, pending)| < |PreorderOf(hash, e) + Ahead(hash, rest)|
    ensures Reports(Ahead(hash, pending)) == Reports(PreorderOf(hash, e) + Ahead(hash, rest))
  {
    hide PreorderOf, Ahead, FieldEntries, ItemEntries, TopFirst, Reports, Equal, AllKeys;
    if e.before.value.Dict? { FieldsAhead(hash, e, rest, pending); } else { ItemsAhead(hash, e, rest, pending); }
    assert Report(e) == [];
    ReportsAppend([e], Ahead(hash, pending));
    ReportsOne(e);
    assert [] + Reports(Ahead(hash, pending)) == Reports(Ahead(hash, pending));
  }

  /** A position with nothing below it that is listed contributes its own report. */
  lemma Counted(hash: string -> string, e: Entry, rest: seq<Entry>)
    requires !(e.before.Some? && e.after.Some? && !Equal(e.before.value, e.after.value)
               && TypeName(e.before.value) == TypeName(e.after.value) && (e.before.value.Dict? || e.before.value.List?))
    ensures |Ahead(hash, rest)| < |PreorderOf(hash, e) + Ahead(hash, rest)|
    ensures Reports(PreorderOf(hash, e) + Ahead(hash, rest)) == Report(e) + Reports(Ahead(hash, rest))
  {
    hide Ahead;
    assert PreorderOf(hash, e) == [e];
    ReportsAppend([e], Ahead(hash, rest));
    ReportsOne(e);
  }
}

/**
 * A reader of TOML documents over their lines: tables, arrays of tables and assignments, with the values left
 * to a parameter (TOML v1.0.0, "Table", "Array of Tables", "Keys"). The editor of scripts/version_plan.py calls
 * a parser that is not part of this model; what is proved here holds of every parser that agrees with this
 * reader on the texts that it accepts.
 */
module TomlDocument {
  import opened Wrappers
  import opened Text
  import opened Json
  import opened JsonSplice
  import opened JsonEditor
  import opened TomlScan
  import opened E = TomlEditor
  import JsonMeaning
  import Toml
  import TomlSplice

  type Names = seq<CodePoints>

  // ---- Documents as they grow ------------------------------------------------------------------------------

  /** A value, which nothing is added to any more, a table, or an array of tables. */
  datatype Tree =
    | Leaf(value: Value)
    | Table(fields: map<CodePoints, Tree>)
    | Tables(items: seq<Tree>)

  function ValueOf(t: Tree): Value {
    match t
    case Leaf(value) => value
    case Table(fields) => JObject(map k | k in fields :: ValueOf(fields[k]))
    case Tables(items) => JArray(seq(|items|, i requires 0 <= i < |items| => ValueOf(items[i])))
  }

  /** What a header or an assignment does: a table, one more table of an array, or a value. */
  datatype Op = Define | Append | Set(value: Value)

  const EMPTY := Table(map[])

  function Placed(fields: map<CodePoints, Tree>, k: CodePoints, op: Op): Option<Tree> {
    match op
    case Set(value) => if k in fields then None else Some(Table(fields[k := Leaf(value)]))
    case Define =>
      if k !in fields then Some(Table(fields[k := EMPTY]))
      else if fields[k].Table? then Some(Table(fields)) else None
    case Append =>
      if k !in fields then Some(Table(fields[k := Tables([EMPTY])]))
      else if fields[k].Tables? then Some(Table(fields[k := Tables(fields[k].items + [EMPTY])])) else None
  }

  function ChildOf(fields: map<CodePoints, Tree>, k: CodePoints): Tree {
    if k in fields then fields[k] else EMPTY
  }

  /** The tree with one thing added at some keys; on the way an array of tables leads to its last one. */
  function Grow(t: Tree, keys: Names, op: Op): Option<Tree>
    decreases |keys|, t
  {
    match t
    case Leaf(_) => None
    case Tables(items) =>
      if items == [] then None
      else
        var last := Grow(items[|items| - 1], keys, op);
        if last.None? then None else Some(Tables(items[|items| - 1 := last.value]))
    case Table(fields) =>
      if keys == [] then None
      else if |keys| == 1 then Placed(fields, keys[0], op)
      else
        var child := Grow(ChildOf(fields, keys[0]), keys[1..], op);
        if child.None? then None else Some(Table(fields[keys[0] := child.value]))
  }

  /** Where a value that is set comes to stand. */
  function SetPath(t: Tree, keys: Names): Path
    decreases |keys|, t
  {
    match t
    case Leaf(_) => []
    case Tables(items) =>
      if items == [] then [] else [Index(|items| - 1)] + SetPath(items[|items| - 1], keys)
    case Table(fields) =>
      if keys == [] then []
      else if |keys| == 1 then [Key(keys[0])]
      else [Key(keys[0])] + SetPath(ChildOf(fields, keys[0]), keys[1..])
  }

  predicate LeafAt(t: Tree, p: Path)
    decreases |p|
  {
    match t
    case Leaf(_) => p == []
    case Table(fields) => p != [] && p[0].Key? && p[0].name in fields && LeafAt(fields[p[0].name], p[1..])
    case Tables(items) => p != [] && p[0].Index? && p[0].index < |items| && LeafAt(items[p[0].index], p[1..])
  }

  function With(t: Tree, p: Path, value: Value): Tree
    requires LeafAt(t, p)
    decreases |p|
  {
    match t
    case Leaf(_) => Leaf(value)
    case Table(fields) => Table(fields[p[0].name := With(fields[p[0].name], p[1..], value)])
    case Tables(items) => Tables(items[p[0].index := With(items[p[0].index], p[1..], value)])
  }

  lemma {:induction false} WithMeans(t: Tree, p: Path, value: Value)
    requires LeafAt(t, p)
    ensures ValueOf(With(t, p, value)) == Put(ValueOf(t), p, value) && Lookup(ValueOf(t), p).Some?
    decreases |p|
  {
    match t
    case Leaf(_) =>
    case Table(fields) =>
      WithMeans(fields[p[0].name], p[1..], value);
      FieldValue(fields, p[0].name, With(fields[p[0].name], p[1..], value));
    case Tables(items) =>
      WithMeans(items[p[0].index], p[1..], value);
      ItemValue(items, p[0].index, With(items[p[0].index], p[1..], value));
  }

  lemma FieldValue(fields: map<CodePoints, Tree>, k: CodePoints, child: Tree)
    requires k in fields
    ensures ValueOf(Table(fields)).JObject? && k in ValueOf(Table(fields)).fields
    ensures ValueOf(Table(fields)).fields[k] == ValueOf(fields[k])
    ensures ValueOf(Table(fields[k := child])) == JObject(ValueOf(Table(fields)).fields[k := ValueOf(child)])
  {
  }

  lemma ItemValue(items: seq<Tree>, i: nat, child: Tree)
    requires i < |items|
    ensures ValueOf(Tables(items)).JArray? && |ValueOf(Tables(items)).items| == |items|
    ensures ValueOf(Tables(items)).items[i] == ValueOf(items[i])
    ensures ValueOf(Tables(items[i := child])) == JArray(ValueOf(Tables(items)).items[i := ValueOf(child)])
  {
  }

  lemma WithKind(t: Tree, p: Path, value: Value)
    requires LeafAt(t, p)
    ensures With(t, p, value).Table? == t.Table? && With(t, p, value).Tables? == t.Tables?
  {
  }

  lemma LongerWith(items: seq<Tree>, p: Path, value: Value)
    requires LeafAt(Tables(items), p)
    ensures var longer := Tables(items + [EMPTY]);
            LeafAt(longer, p) && With(longer, p, value) == Tables(With(Tables(items), p, value).items + [EMPTY])
  {
    hide With, LeafAt;
    WithItem(items, p, value);
    assert (items + [EMPTY])[p[0].index] == items[p[0].index];
    WithItem(items + [EMPTY], p, value);
  }

  lemma WithItem(items: seq<Tree>, p: Path, value: Value)
    ensures LeafAt(Tables(items), p) <==>
              p != [] && p[0].Index? && p[0].index < |items| && LeafAt(items[p[0].index], p[1..])
    ensures LeafAt(Tables(items), p) ==>
              With(Tables(items), p, value) == Tables(items[p[0].index := With(items[p[0].index], p[1..], value)])
  {
  }

  lemma WithField(fields: map<CodePoints, Tree>, p: Path, value: Value)
    ensures LeafAt(Table(fields), p) <==>
              p != [] && p[0].Key? && p[0].name in fields && LeafAt(fields[p[0].name], p[1..])
    ensures LeafAt(Table(fields), p) ==>
              With(Table(fields), p, value) == Table(fields[p[0].name := With(fields[p[0].name], p[1..], value)])
  {
  }

  /** Two results of one step agree but for the value of a leaf. */
  ghost predicate Differ(g: Option<Tree>, h: Option<Tree>, p: Path, value: Value) {
    (g.None? <==> h.None?) && (g.Some? ==> LeafAt(g.value, p) && h.value == With(g.value, p, value))
  }

  lemma OtherField(fields: map<CodePoints, Tree>, p: Path, value: Value, k: CodePoints, child: Tree)
    requires LeafAt(Table(fields), p) && p[0] != Key(k)
    ensures Differ(Some(Table(fields[k := child])), Some(Table(With(Table(fields), p, value).fields[k := child])), p, value)
  {
    hide With, LeafAt;
    WithField(fields, p, value);
    WithField(fields[k := child], p, value);
    var n := p[0].name;
    var w := With(fields[n], p[1..], value);
    assert fields[k := child][n := w] == fields[n := w][k := child];
  }

  lemma SameField(fields: map<CodePoints, Tree>, p: Path, value: Value, child: Option<Tree>, other: Option<Tree>)
    requires LeafAt(Table(fields), p) && Differ(child, other, p[1..], value)
    ensures var k := p[0].name;
            Differ(if child.None? then None else Some(Table(fields[k := child.value])),
                   if other.None? then None else Some(Table(With(Table(fields), p, value).fields[k := other.value])), p, value)
  {
    hide With, LeafAt;
    WithField(fields, p, value);
    if child.Some? {
      WithField(fields[p[0].name := child.value], p, value);
    }
  }

  lemma PlacedWith(fields: map<CodePoints, Tree>, p: Path, value: Value, k: CodePoints, op: Op)
    requires LeafAt(Table(fields), p)
    ensures With(Table(fields), p, value).Table?
    ensures Differ(Placed(fields, k, op), Placed(With(Table(fields), p, value).fields, k, op), p, value)
  {
    hide With, LeafAt;
    WithField(fields, p, value);
    var n := p[0].name;
    if k == n {
      WithKind(fields[n], p[1..], value);
      if op.Append? && fields[n].Tables? {
        LongerWith(fields[n].items, p[1..], value);
        SameField(fields, p, value, Some(Tables(fields[n].items + [EMPTY])),
                  Some(Tables(With(fields[n], p[1..], value).items + [EMPTY])));
      }
    } else if Placed(fields, k, op).Some? {
      OtherField(fields, p, value, k, Placed(fields, k, op).value.fields[k]);
      assert op.Define? && k in fields ==> fields[k := fields[k]] == fields;
    }
  }

  lemma SameItem(items: seq<Tree>, p: Path, value: Value, last: Option<Tree>, other: Option<Tree>)
    requires LeafAt(Tables(items), p) && p[0].index == |items| - 1 && Differ(last, other, p[1..], value)
    ensures Differ(if last.None? then None else Some(Tables(items[|items| - 1 := last.value])),
                   if other.None? then None else
                     Some(Tables(With(Tables(items), p, value).items[|items| - 1 := other.value])), p, value)
  {
    hide With, LeafAt;
    WithItem(items, p, value);
    if last.Some? {
      WithItem(items[|items| - 1 := last.value], p, value);
    }
  }

  lemma OtherItem(items: seq<Tree>, p: Path, value: Value, last: Tree)
    requires LeafAt(Tables(items), p) && p[0].index != |items| - 1
    ensures Differ(Some(Tables(items[|items| - 1 := last])),
                   Some(Tables(With(Tables(items), p, value).items[|items| - 1 := last])), p, value)
  {
    hide With, LeafAt;
    WithItem(items, p, value);
    WithItem(items[|items| - 1 := last], p, value);
    var i := p[0].index;
    var w := With(items[i], p[1..], value);
    assert items[|items| - 1 := last][i := w] == items[i := w][|items| - 1 := last];
  }

  lemma GrowsInItem(items: seq<Tree>, keys: Names, op: Op)
    requires items != []
    ensures Grow(Tables(items), keys, op) ==
              var last := Grow(items[|items| - 1], keys, op);
              if last.None? then None else Some(Tables(items[|items| - 1 := last.value]))
  {
  }

  lemma GrowsInField(fields: map<CodePoints, Tree>, keys: Names, op: Op)
    requires keys != []
    ensures Grow(Table(fields), keys, op) ==
              if |keys| == 1 then Placed(fields, keys[0], op)
              else
                var child := Grow(ChildOf(fields, keys[0]), keys[1..], op);
                if child.None? then None else Some(Table(fields[keys[0] := child.value]))
  {
    hide Placed;
  }

  /** Whatever is added later neither sees nor moves the value of a leaf. */
  lemma {:induction false} GrowWith(t: Tree, p: Path, value: Value, keys: Names, op: Op)
    requires LeafAt(t, p)
    ensures Differ(Grow(t, keys, op), Grow(With(t, p, value), keys, op), p, value)
    decreases |keys|, t
  {
    match t
    case Leaf(_) =>
    case Tables(items) =>
      WithItem(items, p, value);
      hide With, LeafAt, Grow, Differ;
      GrowsInItem(items, keys, op);
      GrowsInItem(With(t, p, value).items, keys, op);
      var i := p[0].index;
      if i == |items| - 1 {
        GrowWith(items[i], p[1..], value, keys, op);
        SameItem(items, p, value, Grow(items[i], keys, op), Grow(With(items[i], p[1..], value), keys, op));
      } else {
        OtherItemGrows(items, p, value, keys, op);
      }
    case Table(fields) =>
      WithField(fields, p, value);
      if keys != [] {
        hide With, LeafAt, Grow, Differ, Placed;
        GrowsInField(fields, keys, op);
        GrowsInField(With(t, p, value).fields, keys, op);
        if |keys| == 1 {
          PlacedWith(fields, p, value, keys[0], op);
        } else if p[0].name == keys[0] {
          GrowWith(fields[keys[0]], p[1..], value, keys[1..], op);
          SameField(fields, p, value, Grow(fields[keys[0]], keys[1..], op),
                    Grow(With(fields[keys[0]], p[1..], value), keys[1..], op));
        } else {
          OtherFieldGrows(fields, p, value, keys, op);
        }
      }
  }

  lemma OtherItemGrows(items: seq<Tree>, p: Path, value: Value, keys: Names, op: Op)
    requires LeafAt(Tables(items), p) && p[0].index != |items| - 1
    ensures With(Tables(items), p, value).Tables? && With(Tables(items), p, value).items != []
    ensures var last := Grow(items[|items| - 1], keys, op);
            Differ(if last.None? then None else Some(Tables(items[|items| - 1 := last.value])),
                   Grow(With(Tables(items), p, value), keys, op), p, value)
  {
    WithItem(items, p, value);
    hide With, LeafAt, Grow;
    GrowsInItem(With(Tables(items), p, value).items, keys, op);
    var last := Grow(items[|items| - 1], keys, op);
    if last.Some? { OtherItem(items, p, value, last.value); }
  }

  lemma OtherFieldGrows(fields: map<CodePoints, Tree>, p: Path, value: Value, keys: Names, op: Op)
    requires LeafAt(Table(fields), p) && |keys| > 1 && p[0] != Key(keys[0])
    ensures var child := Grow(ChildOf(fields, keys[0]), keys[1..], op);
            Differ(if child.None? then None else Some(Table(fields[keys[0] := child.value])),
                   Grow(With(Table(fields), p, value), keys, op), p, value)
  {
    WithField(fields, p, value);
    hide With, LeafAt, Grow;
    GrowsInField(With(Table(fields), p, value).fields, keys, op);
    var child := Grow(ChildOf(fields, keys[0]), keys[1..], op);
    if child.Some? { OtherField(fields, p, value, keys[0], child.value); }
  }

  /** A tree in which a value has been set at a path, and would stand there likewise with another one. */
  ghost predicate IsSet(g: Option<Tree>, h: Option<Tree>, p: Path, other: Value) {
    g.Some? && LeafAt(g.value, p) && h == Some(With(g.value, p, other))
  }

  lemma SetOne(fields: map<CodePoints, Tree>, k: CodePoints, value: Value, other: Value)
    requires k !in fields
    ensures IsSet(Placed(fields, k, Set(value)), Placed(fields, k, Set(other)), [Key(k)], other)
  {
    assert [Key(k)][1..] == [];
    assert fields[k := Leaf(value)][k := Leaf(other)] == fields[k := Leaf(other)];
  }

  lemma SetInField(fields: map<CodePoints, Tree>, k: CodePoints, child: Tree, another: Tree, p: Path, other: Value)
    requires IsSet(Some(child), Some(another), p, other)
    ensures IsSet(Some(Table(fields[k := child])), Some(Table(fields[k := another])), [Key(k)] + p, other)
  {
    hide LeafAt, With;
    WithField(fields[k := child], [Key(k)] + p, other);
    assert ([Key(k)] + p)[1..] == p;
    assert fields[k := child][k := another] == fields[k := another];
  }

  lemma SetInItem(items: seq<Tree>, last: Tree, another: Tree, p: Path, other: Value)
    requires items != [] && IsSet(Some(last), Some(another), p, other)
    ensures var n := |items| - 1;
            IsSet(Some(Tables(items[n := last])), Some(Tables(items[n := another])), [Index(n)] + p, other)
  {
    hide LeafAt, With;
    var n := |items| - 1;
    WithItem(items[n := last], [Index(n)] + p, other);
    assert ([Index(n)] + p)[1..] == p;
    assert items[n := last][n := another] == items[n := another];
  }

  lemma {:induction false} SetThere(t: Tree, keys: Names, value: Value, other: Value)
    requires Grow(t, keys, Set(value)).Some?
    ensures IsSet(Grow(t, keys, Set(value)), Grow(t, keys, Set(other)), SetPath(t, keys), other)
    decreases |keys|, t
  {
    hide LeafAt, With, IsSet;
    match t
    case Tables(items) =>
      var last := items[|items| - 1];
      SetThere(last, keys, value, other);
      IsSetSome(Grow(last, keys, Set(value)), Grow(last, keys, Set(other)), SetPath(last, keys), other);
      SetInItem(items, Grow(last, keys, Set(value)).value, Grow(last, keys, Set(other)).value, SetPath(last, keys), other);
    case Table(fields) =>
      if |keys| > 1 {
        var child, rest := ChildOf(fields, keys[0]), keys[1..];
        SetThere(child, rest, value, other);
        IsSetSome(Grow(child, rest, Set(value)), Grow(child, rest, Set(other)), SetPath(child, rest), other);
        SetInField(fields, keys[0], Grow(child, rest, Set(value)).value, Grow(child, rest, Set(other)).value,
                   SetPath(child, rest), other);
      } else {
        SetOne(fields, keys[0], value, other);
      }
  }

  lemma IsSetSome(g: Option<Tree>, h: Option<Tree>, p: Path, other: Value)
    requires IsSet(g, h, p, other)
    ensures g.Some? && h.Some?
  {
  }

  lemma {:induction false} SetKeys(t: Tree, keys: Names, value: Value)
    requires Grow(t, keys, Set(value)).Some?
    ensures Plain(SetPath(t, keys)) == keys
    decreases |keys|, t
  {
    match t
    case Tables(items) =>
      SetKeys(items[|items| - 1], keys, value);
      PlainFirst(Index(|items| - 1), SetPath(items[|items| - 1], keys));
    case Table(fields) =>
      if |keys| > 1 {
        SetKeys(ChildOf(fields, keys[0]), keys[1..], value);
        PlainFirst(Key(keys[0]), SetPath(ChildOf(fields, keys[0]), keys[1..]));
      } else {
        PlainFirst(Key(keys[0]), []);
        assert [Key(keys[0])] + [] == [Key(keys[0])];
      }
  }

  lemma PlainFirst(first: Step, p: Path)
    ensures Plain([first] + p) == (if first.Key? then [first.name] else []) + Plain(p)
  {
    assert ([first] + p)[1..] == p;
  }

  /** The keys on a path, without its indexes. */
  function Plain(p: Path): Names {
    if p == [] then []
    else (if p[0].Key? then [p[0].name] else []) + Plain(p[1..])
  }

  // ---- Counting the tables of an array -----------------------------------------------------------------------

  /** How many tables the array at some keys has; nothing where the way there leads through another array. */
  function Count(t: Tree, keys: Names): Option<nat>
    decreases |keys|
  {
    if keys == [] then Some(if t.Tables? then |t.items| else 0)
    else if t.Tables? then None
    else if t.Table? && keys[0] in t.fields then Count(t.fields[keys[0]], keys[1..])
    else Some(0)
  }

  /** What a step does to that number. */
  ghost predicate Counts(before: Option<nat>, after: Option<nat>, more: nat) {
    after.None? || (before.Some? && after.value == before.value + more)
  }

  lemma {:induction false} EmptyCounts(keys: Names)
    ensures Count(EMPTY, keys) == Some(0)
  {
  }

  lemma PlacedCounts(fields: map<CodePoints, Tree>, k: CodePoints, op: Op, keys: Names)
    requires Placed(fields, k, op).Some?
    ensures Counts(Count(Table(fields), keys), Count(Placed(fields, k, op).value, keys),
                   if op.Append? && keys == [k] then 1 else 0)
  {
    if keys != [] && keys[0] == k {
      assert keys == [k] <==> keys[1..] == [];
      EmptyCounts(keys[1..]);
    }
  }

  lemma {:induction false} GrowCounts(t: Tree, keys: Names, op: Op, list: Names)
    requires keys != [] && Grow(t, keys, op).Some?
    ensures Counts(Count(t, list), Count(Grow(t, keys, op).value, list), if op.Append? && list == keys then 1 else 0)
    decreases |keys|, t
  {
    match t
    case Tables(items) =>
    case Table(fields) =>
      if |keys| == 1 {
        PlacedCounts(fields, keys[0], op, list);
        assert keys == [keys[0]];
      } else if list != [] && list[0] == keys[0] {
        GrowCounts(ChildOf(fields, keys[0]), keys[1..], op, list[1..]);
        EmptyCounts(list[1..]);
        assert list == keys <==> list[1..] == keys[1..] by {
          assert list == [list[0]] + list[1..] && keys == [keys[0]] + keys[1..];
        }
      }
  }

  /** On the way to a value the index of an array is that of its last table. */
  lemma {:induction false} LastOfArray(t: Tree, list: Names, keys: Names)
    requires keys != [] && |list| < |SetPath(t, list + keys)|
    requires SetPath(t, list + keys)[..|list|] == KeyPath(list) && SetPath(t, list + keys)[|list|].Index?
    ensures Count(t, list) == Some(SetPath(t, list + keys)[|list|].index + 1)
    decreases |list|
  {
    var all := list + keys;
    if list == [] {
      assert all == keys;
    } else {
      var p := SetPath(t, all);
      assert p[0] == p[..|list|][0] == Key(list[0]);
      assert all[0] == list[0] && all[1..] == list[1..] + keys && |all| > 1;
      var child := ChildOf(t.fields, list[0]);
      var rest := SetPath(child, all[1..]);
      assert p == [Key(list[0])] + rest && rest == p[1..];
      assert rest[..|list| - 1] == p[..|list|][1..] == KeyPath(list)[1..] == KeyPath(list[1..]);
      LastOfArray(child, list[1..], keys);
      EmptyCounts(list[1..]);
    }
  }

  // ---- One path for some keys --------------------------------------------------------------------------------

  /** A path with the same keys as a path of keys to a scalar is that path. */
  lemma {:induction false} KeysLeadThere(d: Value, p: Path, keys: Names)
    requires Plain(p) == keys && Lookup(d, p).Some?
    requires Lookup(d, KeyPath(keys)).Some? && JsonMeaning.IsScalar(Lookup(d, KeyPath(keys)).value)
    ensures p == KeyPath(keys)
    decreases |p|
  {
    if p != [] {
      if p[0].Key? {
        assert keys[1..] == Plain(p[1..]) && KeyPath(keys)[1..] == KeyPath(keys[1..]);
        KeysLeadThere(d.fields[p[0].name], p[1..], keys[1..]);
        assert p == [p[0]] + p[1..] && KeyPath(keys) == [Key(keys[0])] + KeyPath(keys[1..]);
      }
    }
  }

  lemma IndexHere(d: Value, p: Path, n: nat, keys: Names)
    requires keys != [] && Plain(p) == keys && Lookup(d, p).Some?
    requires var q := [Index(n)] + KeyPath(keys); Lookup(d, q).Some? && JsonMeaning.IsScalar(Lookup(d, q).value)
    ensures p != [] && p[0].Index? && (p[0].index == n ==> p == [Index(n)] + KeyPath(keys))
  {
    var q := [Index(n)] + KeyPath(keys);
    assert q[0] == Index(n) && q[1..] == KeyPath(keys) && d.JArray?;
    if p[0].index == n {
      KeysLeadThere(d.items[n], p[1..], keys);
      assert p == [p[0]] + p[1..];
    }
  }

  /** Two paths that lead into an object, the one by a key: so does the other one, by its first key. */
  lemma BothIntoField(d: Value, p: Path, q: Path, k: CodePoints, rest: Names)
    requires q != [] && q[0] == Key(k) && Lookup(d, q).Some? && Lookup(d, p).Some? && Plain(p) == [k] + rest
    ensures p != [] && p[0] == Key(k) && Plain(p[1..]) == rest && d.JObject? && k in d.fields
    ensures Lookup(d.fields[k], p[1..]) == Lookup(d, p) && Lookup(d.fields[k], q[1..]) == Lookup(d, q)
  {
    assert Plain(p)[0] == k && Plain(p)[1..] == rest;
  }

  /** The same for a path through one table of an array: only the number of that table can differ. */
  lemma {:induction false} IndexLeadsThere(d: Value, p: Path, list: Names, n: nat, keys: Names)
    requires keys != [] && Plain(p) == list + keys && Lookup(d, p).Some?
    requires var q := KeyPath(list) + ([Index(n)] + KeyPath(keys));
             Lookup(d, q).Some? && JsonMeaning.IsScalar(Lookup(d, q).value)
    ensures |list| < |p| && p[..|list|] == KeyPath(list) && p[|list|].Index?
    ensures p[|list|].index == n ==> p == KeyPath(list) + ([Index(n)] + KeyPath(keys))
    decreases |list|
  {
    hide Lookup, Plain, JsonMeaning.IsScalar;
    var rest := [Index(n)] + KeyPath(keys);
    var q := KeyPath(list) + rest;
    if list == [] {
      assert q == rest && list + keys == keys;
      IndexHere(d, p, n, keys);
    } else {
      assert q[0] == Key(list[0]) && q[1..] == KeyPath(list[1..]) + rest;
      assert list + keys == [list[0]] + (list[1..] + keys);
      BothIntoField(d, p, q, list[0], list[1..] + keys);
      IndexLeadsThere(d.fields[list[0]], p[1..], list[1..], n, keys);
      assert p == [p[0]] + p[1..] && KeyPath(list) == [Key(list[0])] + KeyPath(list[1..]);
      assert p[..|list|] == [p[0]] + p[1..][..|list| - 1];
    }
  }

  // ---- The reader ----------------------------------------------------------------------------------------------

  /** The readers of one key and of the text of one value. */
  datatype LineReader = LineReader(keyOf: string -> Option<Path>, valueOf: string -> Option<Value>)

  function NamesIn(path: Path): Option<Names> {
    if path == [] then Some([])
    else if path[0].Index? then None
    else
      var rest := NamesIn(path[1..]);
      if rest.None? then None else Some([path[0].name] + rest.value)
  }

  /** The keys that are read from a text; there is at least one. */
  function KeysOf(r: LineReader, text: string): Option<Names> {
    var path := r.keyOf(text);
    if path.None? || path.value == [] then None else NamesIn(path.value)
  }

  /** The lines that continue the value of an earlier one. */
  function Continued(lines: seq<string>, i: nat): string
    decreases |lines| - i
  {
    if i >= |lines| || IsTopLevel(lines, i, true) then "" else lines[i] + Continued(lines, i + 1)
  }

  function RawValue(lines: seq<string>, i: nat): string
    requires i < |lines| && Separator(lines[i]).Some?
  {
    lines[i][Separator(lines[i]).value + 1..] + Continued(lines, i + 1)
  }

  /** A document as far as it is read, and the table that the next assignments add to. */
  datatype Doc = Doc(tree: Tree, table: Names)

  function Added(doc: Doc, keys: Names, op: Op, table: Names): Option<Doc> {
    var tree := Grow(doc.tree, keys, op);
    if tree.None? then None else Some(Doc(tree.value, table))
  }

  function Assigned(r: LineReader, doc: Doc, key: string, raw: string): Option<Doc> {
    var keys, value := KeysOf(r, key), r.valueOf(raw);
    if keys.None? || value.None? then None else Added(doc, doc.table + keys.value, Set(value.value), doc.table)
  }

  function TurnDoc(r: LineReader, lines: seq<string>, i: nat, doc: Doc): Option<Doc>
    requires i < |lines|
  {
    if !IsTopLevel(lines, i, true) then Some(doc)
    else
      match HeaderOf(lines[i])
      case Err(_) => None
      case Ok(Some(h)) =>
        var keys := KeysOf(r, h.key);
        if keys.None? then None else Added(doc, keys.value, if h.isArray then Append else Define, keys.value)
      case Ok(None) =>
        if KeyText(lines[i]).None? then Some(doc)
        else Assigned(r, doc, KeyText(lines[i]).value, RawValue(lines, i))
  }

  function DocAfter(r: LineReader, lines: seq<string>, n: nat): Option<Doc>
    requires n <= |lines|
  {
    if n == 0 then Some(Doc(EMPTY, []))
    else
      var before := DocAfter(r, lines, n - 1);
      if before.None? then None else TurnDoc(r, lines, n - 1, before.value)
  }

  function LoadLines(r: LineReader, lines: seq<string>): Option<Value> {
    var doc := DocAfter(r, lines, |lines|);
    if doc.None? then None else Some(ValueOf(doc.value.tree))
  }

  /** A parser that accepts only what the line reader accepts, and then reads the same. */
  ghost predicate ReadsLines(reader: Reader, valueOf: string -> Option<Value>) {
    forall text | reader.load(text).Some? :: reader.load(text) == LoadLines(LineReader(reader.keyOf, valueOf), Lines(text))
  }

  /** The line reader as a parser. */
  function Parser(r: LineReader): (reader: Reader)
    ensures reader.keyOf == r.keyOf && ReadsLines(reader, r.valueOf)
  {
    Reader(r.keyOf, text => LoadLines(r, Lines(text)))
  }

  lemma NamesArePath(path: Path)
    requires NamesIn(path).Some?
    ensures KeyPath(NamesIn(path).value) == path && Plain(path) == NamesIn(path).value
  {
    if path != [] {
      NamesArePath(path[1..]);
      assert path == [path[0]] + path[1..];
    }
  }

  lemma {:induction false} DocPrefix(r: LineReader, lines: seq<string>, m: nat, n: nat)
    requires m <= n <= |lines| && DocAfter(r, lines, n).Some?
    ensures DocAfter(r, lines, m).Some?
  {
    hide TurnDoc;
    if m < n { DocPrefix(r, lines, m, n - 1); }
  }

  lemma NextDoc(r: LineReader, lines: seq<string>, n: nat)
    requires n < |lines| && DocAfter(r, lines, n + 1).Some?
    ensures DocAfter(r, lines, n).Some?
    ensures DocAfter(r, lines, n + 1) == TurnDoc(r, lines, n, DocAfter(r, lines, n).value)
  {
    hide TurnDoc;
  }

  lemma {:induction false} NeverEmpty(t: Tree, op: Op)
    ensures Grow(t, [], op).None?
    decreases t
  {
    if t.Tables? && t.items != [] { NeverEmpty(t.items[|t.items| - 1], op); }
  }

  // ---- The table and the arrays in front of a line ---------------------------------------------------------

  /** The keys of the last header in front of a line. */
  function TableNames(r: LineReader, lines: seq<string>, i: nat): Names
    requires i <= |lines|
  {
    var j := LastHeader(lines, i, true);
    if j.None? then []
    else
      var keys := KeysOf(r, HeaderOf(lines[j.value]).value.value.key);
      if keys.None? then [] else keys.value
  }

  lemma KeySeparates(line: string)
    ensures KeyText(line).Some? ==> Separator(line).Some?
  {
    hide Separator, Strip;
  }

  /** What one line does to a document. */
  lemma TurnedBy(r: LineReader, lines: seq<string>, i: nat, doc: Doc)
    requires i < |lines| && TurnDoc(r, lines, i, doc).Some?
    ensures var next := TurnDoc(r, lines, i, doc).value;
            if HeaderLine(lines, i, true) then
              var h := HeaderOf(lines[i]).value.value;
              && KeysOf(r, h.key).Some? && next.table == KeysOf(r, h.key).value
              && Grow(doc.tree, next.table, if h.isArray then Append else Define) == Some(next.tree)
            else
              && next.table == doc.table
              && (next.tree == doc.tree
                  || exists keys: Names, value: Value :: Grow(doc.tree, keys, Set(value)) == Some(next.tree))
  {
    hide HeaderOf, KeyText, RawValue, IsTopLevel, Grow, KeysOf;
    KeySeparates(lines[i]);
    if IsTopLevel(lines, i, true) && HeaderOf(lines[i]) == Ok(None) && KeyText(lines[i]).Some? {
      var keys := KeysOf(r, KeyText(lines[i]).value).value;
      var value := r.valueOf(RawValue(lines, i)).value;
      assert Grow(doc.tree, doc.table + keys, Set(value)) == Some(TurnDoc(r, lines, i, doc).value.tree);
    }
  }

  lemma {:induction false} TableIs(r: LineReader, lines: seq<string>, n: nat)
    requires n <= |lines| && DocAfter(r, lines, n).Some?
    ensures DocAfter(r, lines, n).value.table == TableNames(r, lines, n)
  {
    hide HeaderOf, KeysOf, TurnDoc, HeaderLine;
    if n > 0 {
      NextDoc(r, lines, n - 1);
      TableIs(r, lines, n - 1);
      TurnedBy(r, lines, n - 1, DocAfter(r, lines, n - 1).value);
    }
  }

  lemma ArraysNext(keyOf: string -> Option<Path>, lines: seq<string>, n: nat, key: Path)
    requires n < |lines|
    ensures ArrayHeaders(keyOf, lines[..n + 1], key, true) ==
              ArrayHeaders(keyOf, lines[..n], key, true)
              + if HeaderLine(lines, n, true) && OpensArray(keyOf, lines[n], key) then 1 else 0
  {
    hide OpensArray, IsTopLevel;
    assert lines[..n + 1][..n] == lines[..n];
    PrefixTop(lines, n + 1, n, true);
    OpensHeader(keyOf, lines[n], key);
  }

  lemma OpensHeader(keyOf: string -> Option<Path>, line: string, key: Path)
    ensures OpensArray(keyOf, line, key) ==> IsHeader(line)
  {
    hide HeaderOf;
  }

  lemma OpensByNames(r: LineReader, line: string, list: Names)
    requires IsHeader(line) && KeysOf(r, HeaderOf(line).value.value.key).Some?
    ensures var h := HeaderOf(line).value.value;
            OpensArray(r.keyOf, line, KeyPath(list)) <==> h.isArray && KeysOf(r, h.key).value == list
  {
    hide HeaderOf;
    var path := r.keyOf(HeaderOf(line).value.value.key).value;
    NamesArePath(path);
    PlainKeys(list);
  }

  lemma PlainKeys(list: Names)
    ensures Plain(KeyPath(list)) == list
  {
    if list != [] {
      assert KeyPath(list)[1..] == KeyPath(list[1..]);
      PlainKeys(list[1..]);
    }
  }

  /** The tables of an array are those of its headers. */
  lemma {:induction false} ArraysInDoc(r: LineReader, lines: seq<string>, n: nat, list: Names)
    requires n <= |lines| && DocAfter(r, lines, n).Some? && list != []
    ensures Counts(Some(0), Count(DocAfter(r, lines, n).value.tree, list), ArrayHeaders(r.keyOf, lines[..n], KeyPath(list), true))
  {
    hide HeaderOf, KeysOf, TurnDoc, HeaderLine, Grow, Count, OpensArray;
    if n == 0 {
      EmptyCounts(list);
      assert lines[..0] == [];
    } else {
      NextDoc(r, lines, n - 1);
      ArraysInDoc(r, lines, n - 1, list);
      ArraysNext(r.keyOf, lines, n - 1, KeyPath(list));
      OneMoreLine(r, lines, n - 1, DocAfter(r, lines, n - 1).value, list);
    }
  }

  lemma OneMoreLine(r: LineReader, lines: seq<string>, i: nat, doc: Doc, list: Names)
    requires i < |lines| && TurnDoc(r, lines, i, doc).Some? && list != []
    ensures Counts(Count(doc.tree, list), Count(TurnDoc(r, lines, i, doc).value.tree, list),
                   if HeaderLine(lines, i, true) && OpensArray(r.keyOf, lines[i], KeyPath(list)) then 1 else 0)
  {
    hide HeaderOf, KeysOf, TurnDoc, Grow, Count, OpensArray, IsTopLevel;
    var next := TurnDoc(r, lines, i, doc).value;
    TurnedBy(r, lines, i, doc);
    if HeaderLine(lines, i, true) {
      var h := HeaderOf(lines[i]).value.value;
      OpensByNames(r, lines[i], list);
      KeysSome(r, h.key);
      GrowCounts(doc.tree, next.table, if h.isArray then Append else Define, list);
    } else if next.tree != doc.tree {
      var keys, value :| Grow(doc.tree, keys, Set(value)) == Some(next.tree);
      NeverEmpty(doc.tree, Set(value));
      GrowCounts(doc.tree, keys, Set(value), list);
    }
  }

  lemma KeysSome(r: LineReader, text: string)
    ensures KeysOf(r, text).Some? ==> KeysOf(r, text).value != []
  {
  }

  /** Between the last header and a line no array gets another table. */
  lemma {:induction false} NoneSince(keyOf: string -> Option<Path>, lines: seq<string>, i: nat, key: Path)
    requires i <= |lines| && LastHeader(lines, i, true).Some?
    ensures ArrayHeaders(keyOf, lines[..i], key, true)
         == ArrayHeaders(keyOf, lines[..LastHeader(lines, i, true).value + 1], key, true)
  {
    hide HeaderLine, OpensArray, ArrayHeaders;
    if i > 0 && !HeaderLine(lines, i - 1, true) {
      NoneSince(keyOf, lines, i - 1, key);
      ArraysNext(keyOf, lines, i - 1, key);
    }
  }

  // ---- One value replaced -------------------------------------------------------------------------------------

  /** Two lists of lines that differ in the value that one line assigns. */
  ghost predicate OtherValue(lines: seq<string>, others: seq<string>, i: nat) {
    && i < |lines| == |others| && others == lines[i := others[i]]
    && IsTopLevel(lines, i, true) && HeaderOf(lines[i]) == HeaderOf(others[i]) == Ok(None)
    && KeyText(lines[i]).Some? && KeyText(others[i]) == KeyText(lines[i])
    && forall depth :: Toml.LexLine(lines[i], 0, "", depth, true) == Toml.LexLine(others[i], 0, "", depth, true)
  }

  lemma OtherLine(lines: seq<string>, others: seq<string>, i: nat, j: nat)
    requires OtherValue(lines, others, i) && j < |lines| && j != i
    ensures others[j] == lines[j]
  {
    hide HeaderOf, KeyText, IsTopLevel;
  }

  lemma {:induction false} StateAlike(lines: seq<string>, others: seq<string>, i: nat, j: nat)
    requires OtherValue(lines, others, i) && j <= |lines|
    ensures Toml.LexLines(others[..j], true) == Toml.LexLines(lines[..j], true)
  {
    hide HeaderOf, KeyText, Toml.LexLine, Toml.LexLines;
    if j == 0 {
      assert others[..0] == lines[..0];
    } else {
      StateAlike(lines, others, i, j - 1);
      Toml.LexNext(lines, j - 1, true);
      Toml.LexNext(others, j - 1, true);
      if j - 1 != i { OtherLine(lines, others, i, j - 1); }
    }
  }

  lemma TopAlike(lines: seq<string>, others: seq<string>, i: nat, j: nat)
    requires OtherValue(lines, others, i) && j <= |lines|
    ensures IsTopLevel(others, j, true) == IsTopLevel(lines, j, true)
  {
    hide HeaderOf, KeyText, Toml.LexLine, Toml.LexLines;
    StateAlike(lines, others, i, j);
  }

  lemma {:induction false} ContinuedAlike(lines: seq<string>, others: seq<string>, i: nat, j: nat)
    requires OtherValue(lines, others, i)
    ensures Continued(others, j) == Continued(lines, j)
    decreases |lines| - j
  {
    hide OtherValue, IsTopLevel;
    SameLength(lines, others, i);
    if j < |lines| {
      TopAlike(lines, others, i, j);
      if !IsTopLevel(lines, j, true) {
        OtherLine(lines, others, i, j);
        ContinuedAlike(lines, others, i, j + 1);
      }
    }
  }

  lemma SameLength(lines: seq<string>, others: seq<string>, i: nat)
    requires OtherValue(lines, others, i)
    ensures i < |lines| == |others| && IsTopLevel(lines, i, true)
  {
    hide HeaderOf, KeyText, IsTopLevel;
  }

  lemma TurnAlike(r: LineReader, lines: seq<string>, others: seq<string>, i: nat, j: nat, doc: Doc)
    requires OtherValue(lines, others, i) && j < |lines| && j != i
    ensures j < |others| && TurnDoc(r, others, j, doc) == TurnDoc(r, lines, j, doc)
  {
    hide OtherValue, IsTopLevel, HeaderOf, KeyText, Added, Assigned, KeysOf, Continued, Separator;
    SameLength(lines, others, i);
    KeySeparates(lines[j]);
    TopAlike(lines, others, i, j);
    OtherLine(lines, others, i, j);
    ContinuedAlike(lines, others, i, j + 1);
  }

  lemma {:induction false} SameInFront(r: LineReader, lines: seq<string>, others: seq<string>, i: nat, n: nat)
    requires OtherValue(lines, others, i) && n <= i
    ensures n <= |others| && DocAfter(r, others, n) == DocAfter(r, lines, n)
  {
    hide OtherValue, TurnDoc;
    SameLength(lines, others, i);
    if n > 0 {
      SameInFront(r, lines, others, i, n - 1);
      if DocAfter(r, lines, n - 1).Some? { TurnAlike(r, lines, others, i, n - 1, DocAfter(r, lines, n - 1).value); }
    }
  }

  /** The document of the one list is that of the other with another value at a leaf. */
  ghost predicate DocsDiffer(doc: Option<Doc>, other: Option<Doc>, p: Path, value: Value) {
    && doc.Some? && other.Some? && LeafAt(doc.value.tree, p)
    && other.value == Doc(With(doc.value.tree, p, value), doc.value.table)
  }

  lemma TurnWith(r: LineReader, lines: seq<string>, j: nat, doc: Doc, p: Path, value: Value)
    requires j < |lines| && LeafAt(doc.tree, p) && TurnDoc(r, lines, j, doc).Some?
    ensures DocsDiffer(TurnDoc(r, lines, j, doc), TurnDoc(r, lines, j, Doc(With(doc.tree, p, value), doc.table)), p, value)
  {
    hide IsTopLevel, HeaderOf, KeyText, KeysOf, Grow, LeafAt, With, RawValue;
    forall keys: Names, op: Op ensures Differ(Grow(doc.tree, keys, op), Grow(With(doc.tree, p, value), keys, op), p, value) {
      GrowWith(doc.tree, p, value, keys, op);
    }
  }

  /** The line that is changed, in both lists. */
  lemma TurnChanged(r: LineReader, lines: seq<string>, others: seq<string>, i: nat, doc: Doc) returns (value: Value)
    requires OtherValue(lines, others, i) && TurnDoc(r, lines, i, doc).Some? && i < |others|
    requires TurnDoc(r, others, i, doc).Some?
    ensures KeysOf(r, KeyText(lines[i]).value).Some?
    ensures DocsDiffer(TurnDoc(r, lines, i, doc), TurnDoc(r, others, i, doc),
                       SetPath(doc.tree, doc.table + KeysOf(r, KeyText(lines[i]).value).value), value)
    ensures Plain(SetPath(doc.tree, doc.table + KeysOf(r, KeyText(lines[i]).value).value))
         == doc.table + KeysOf(r, KeyText(lines[i]).value).value
  {
    TopAlike(lines, others, i, i);
    hide IsTopLevel, HeaderOf, KeyText, KeysOf, Grow, LeafAt, With, RawValue;
    var keys := doc.table + KeysOf(r, KeyText(lines[i]).value).value;
    var was := r.valueOf(RawValue(lines, i)).value;
    value := r.valueOf(RawValue(others, i)).value;
    SetThere(doc.tree, keys, was, value);
    SetKeys(doc.tree, keys, was);
  }

  /** From behind the changed line on, the documents differ in the value that was set there, and in nothing else. */
  lemma {:induction false} DifferBehind(r: LineReader, lines: seq<string>, others: seq<string>, i: nat, n: nat,
                                        p: Path, value: Value)
    requires OtherValue(lines, others, i) && i < n <= |lines| && n <= |others|
    requires DocAfter(r, lines, n).Some?
    requires DocsDiffer(DocAfter(r, lines, i + 1), DocAfter(r, others, i + 1), p, value)
    ensures DocsDiffer(DocAfter(r, lines, n), DocAfter(r, others, n), p, value)
  {
    hide OtherValue, TurnDoc, LeafAt, With;
    if n > i + 1 {
      NextDoc(r, lines, n - 1);
      DifferBehind(r, lines, others, i, n - 1, p, value);
      var doc, other := DocAfter(r, lines, n - 1).value, DocAfter(r, others, n - 1).value;
      TurnAlike(r, lines, others, i, n - 1, other);
      TurnWith(r, lines, n - 1, doc, p, value);
    }
  }

  /** Two documents whose lines differ in one value are one but for the value at the path where it is set. */
  lemma LoadedAlike(r: LineReader, lines: seq<string>, others: seq<string>, i: nat) returns (p: Path, value: Value)
    requires OtherValue(lines, others, i) && LoadLines(r, lines).Some? && LoadLines(r, others).Some?
    ensures i < |lines| && DocAfter(r, lines, i).Some? && KeysOf(r, KeyText(lines[i]).value).Some?
    ensures var doc, keys := DocAfter(r, lines, i).value, KeysOf(r, KeyText(lines[i]).value).value;
            p == SetPath(doc.tree, doc.table + keys) && Plain(p) == doc.table + keys
    ensures Lookup(LoadLines(r, lines).value, p).Some?
    ensures LoadLines(r, others).value == Put(LoadLines(r, lines).value, p, value)
  {
    SameLength(lines, others, i);
    hide OtherValue, TurnDoc, KeysOf, KeyText, SetPath;
    DocPrefix(r, lines, i + 1, |lines|);
    DocPrefix(r, others, i + 1, |others|);
    NextDoc(r, lines, i);
    NextDoc(r, others, i);
    SameInFront(r, lines, others, i, i);
    var doc := DocAfter(r, lines, i).value;
    value := TurnChanged(r, lines, others, i, doc);
    p := SetPath(doc.tree, doc.table + KeysOf(r, KeyText(lines[i]).value).value);
    DifferBehind(r, lines, others, i, |lines|, p, value);
    WithMeans(DocAfter(r, lines, |lines|).value.tree, p, value);
  }

  // ---- The path that is selected -----------------------------------------------------------------------------

  /** The table of a line in the search is that of the reader, with a number where it is one of an array. */
  lemma TableInPath(r: LineReader, lines: seq<string>, i: nat)
    requires i <= |lines| && DocAfter(r, lines, i).Some?
    ensures var j, table := LastHeader(lines, i, true), TableNames(r, lines, i);
            if j.None? then table == [] && TableAt(r.keyOf, lines, i, true) == []
            else
              && table != [] && IsHeader(lines[j.value]) && KeysOf(r, HeaderOf(lines[j.value]).value.value.key) == Some(table)
              && TableAt(r.keyOf, lines, i, true) ==
                   if HeaderOf(lines[j.value]).value.value.isArray
                   then KeyPath(table) + [Index(ArrayHeaders(r.keyOf, lines[..j.value], KeyPath(table), true))]
                   else KeyPath(table)
  {
    hide HeaderOf, TurnDoc, IsTopLevel, ArrayHeaders, KeysOf, LastHeader;
    var j := LastHeader(lines, i, true);
    if j.Some? {
      DocPrefix(r, lines, j.value + 1, i);
      NextDoc(r, lines, j.value);
      TurnedBy(r, lines, j.value, DocAfter(r, lines, j.value).value);
      KeysRead(r, HeaderOf(lines[j.value]).value.value.key);
    }
  }

  lemma KeysRead(r: LineReader, text: string)
    requires KeysOf(r, text).Some?
    ensures KeysOf(r, text).value != [] && r.keyOf(text) == Some(KeyPath(KeysOf(r, text).value))
  {
    NamesArePath(r.keyOf(text).value);
  }

  /** The table of an array that is added to has the number that the search gives it. */
  lemma NumberOfTable(r: LineReader, lines: seq<string>, i: nat)
    requires i <= |lines| && DocAfter(r, lines, i).Some? && LastHeader(lines, i, true).Some?
    requires HeaderOf(lines[LastHeader(lines, i, true).value]).value.value.isArray
    ensures var count, j := Count(DocAfter(r, lines, i).value.tree, TableNames(r, lines, i)), LastHeader(lines, i, true).value;
            count.Some? ==>
              count.value == ArrayHeaders(r.keyOf, lines[..j], KeyPath(TableNames(r, lines, i)), true) + 1
  {
    hide HeaderOf, TurnDoc, IsTopLevel, ArrayHeaders, KeysOf, LastHeader, Count, DocAfter, OpensArray;
    var j, table := LastHeader(lines, i, true).value, TableNames(r, lines, i);
    TableInPath(r, lines, i);
    ArraysInDoc(r, lines, i, table);
    NoneSince(r.keyOf, lines, i, KeyPath(table));
    ArraysNext(r.keyOf, lines, j, KeyPath(table));
    OpensByNames(r, lines[j], table);
  }

  /** A selected scalar stands where its line sets a value. */
  lemma PathIsTarget(r: LineReader, lines: seq<string>, i: nat, target: Path, p: Path, d: Value)
    requires i < |lines| && DocAfter(r, lines, i).Some? && KeyText(lines[i]).Some?
    requires KeysOf(r, KeyText(lines[i]).value).Some?
    requires target == TableAt(r.keyOf, lines, i, true) + KeyPath(KeysOf(r, KeyText(lines[i]).value).value)
    requires var doc, keys := DocAfter(r, lines, i).value, KeysOf(r, KeyText(lines[i]).value).value;
             p == SetPath(doc.tree, doc.table + keys) && Plain(p) == doc.table + keys
    requires Lookup(d, p).Some? && Lookup(d, target).Some? && JsonMeaning.IsScalar(Lookup(d, target).value)
    ensures p == target
  {
    hide TurnDoc, KeyText, HeaderOf, KeysOf, IsTopLevel, ArrayHeaders, LastHeader, TableAt, Lookup, SetPath, Plain, TableNames,
         DocAfter;
    var doc, keys := DocAfter(r, lines, i).value, KeysOf(r, KeyText(lines[i]).value).value;
    var j, table := LastHeader(lines, i, true), doc.table;
    TableIs(r, lines, i);
    TableInPath(r, lines, i);
    KeysRead(r, KeyText(lines[i]).value);
    KeyPathJoins(table, keys);
    if j.Some? && HeaderOf(lines[j.value]).value.value.isArray {
      var n := ArrayHeaders(r.keyOf, lines[..j.value], KeyPath(table), true);
      assert target == KeyPath(table) + ([Index(n)] + KeyPath(keys));
      IndexLeadsThere(d, p, table, n, keys);
      LastOfArray(doc.tree, table, keys);
      NumberOfTable(r, lines, i);
    } else {
      assert target == KeyPath(table + keys);
      KeysLeadThere(d, p, table + keys);
    }
  }

  lemma KeyPathJoins(a: Names, b: Names)
    ensures KeyPath(a) + KeyPath(b) == KeyPath(a + b)
  {
  }

  // ---- An edit changes the selected field only ---------------------------------------------------------------

  lemma ScalarThere(keyOf: string -> Option<Path>, text: string, target: Path, i: nat)
    requires OnlyPlace(keyOf, text, target).Some? && Selects(keyOf, Lines(text), target, i)
    ensures i < |Lines(text)| && HasScalar(Lines(text)[i])
  {
    hide Lines, After, Selects, HasScalar;
    var lines := Lines(text);
    TomlSplice.SelectedSeparates(keyOf, lines, target, i);
    if After(keyOf, lines[..i], target).None? { AfterStuck(keyOf, lines, target, i); }
    if After(keyOf, lines[..i + 1], target).None? { AfterStuck(keyOf, lines, target, i + 1); }
    TomlSplice.SelectedHasScalar(keyOf, lines, target, i);
  }

  lemma SplicedOther(keyOf: string -> Option<Path>, lines: seq<string>, target: Path, i: nat, token: string)
    requires TomlSplice.ReadsKeys(keyOf) && TomlSplice.ReadsKeys(keyOf, true) && Selects(keyOf, lines, target, i)
    requires HasScalar(lines[i]) && TomlSplice.IsScalar(token) && IsLine(lines[i]) && IsTopLevel(lines, i, true)
    ensures OtherValue(lines, lines[i := TomlSplice.Revalued(lines[i], token)], i)
  {
    hide KeyText, HeaderOf, HasScalar, TomlSplice.IsScalar, IsLine, IsTopLevel, Toml.LexLine, TomlSplice.Revalued, Selects,
         TomlSplice.ReadsKeys, TomlSplice.IsKey, Separator;
    TomlSplice.SelectedKey(keyOf, lines, target, i);
    KeyByGrammar(keyOf, lines[i]);
    KeySeparates(lines[i]);
    var line, other := lines[i], TomlSplice.Revalued(lines[i], token);
    TomlSplice.AssignmentIsNoHeader(line);
    TomlSplice.BothLines(line, token, 0);
    TomlSplice.RevaluedLine(line, token);
    forall depth ensures Toml.LexLine(line, 0, "", depth, true) == Toml.LexLine(other, 0, "", depth, true) {
      TomlSplice.AssignmentLexes(line, depth, true);
      TomlSplice.AssignmentLexes(other, depth, true);
    }
  }

  lemma KeyByGrammar(keyOf: string -> Option<Path>, line: string)
    requires TomlSplice.ReadsKeys(keyOf, true) && KeyText(line).Some? && keyOf(KeyText(line).value).Some?
    ensures TomlSplice.IsKey(KeyText(line).value, true)
  {
    hide KeyText, TomlSplice.IsKey;
  }

  lemma SelectedByGrammar(keyOf: string -> Option<Path>, lines: seq<string>, target: Path, i: nat)
    requires Toml.AllReadAlike(lines) && Selects(keyOf, lines, target, i)
    ensures i < |lines| && IsTopLevel(lines, i, true) && KeyText(lines[i]).Some? && keyOf(KeyText(lines[i]).value).Some?
    ensures target == TableAt(keyOf, lines, i, true) + keyOf(KeyText(lines[i]).value).value
  {
    TomlSplice.SelectedSeparates(keyOf, lines, target, i);
    hide KeyText, IsTopLevel, TableAt, HeaderOf, Toml.AllReadAlike;
    LineByGrammar(keyOf, lines, target, i);
    assert Selects(keyOf, lines, target, i, true);
  }

  /** Where scanner and grammar read alike, an accepted edit changes nothing else in the document that is read. */
  lemma EditOnlyChanges(reader: Reader, valueOf: string -> Option<Value>, text: string, selector: Selector,
                        value: Projected, result: string)
    requires TomlSplice.ReadsKeys(reader.keyOf) && TomlSplice.ReadsKeys(reader.keyOf, true) && IsOneLine(value)
    requires ReadsLines(reader, valueOf) && Toml.AllReadAlike(Lines(text))
    requires EditToml(reader, text, selector, value) == Some(result)
    ensures OnlyChanges(reader, text, selector, value, result)
  {
    var target, update, place, token, i := E.EditMeans(reader, text, selector, value, result);
    PlaceOfEdit(reader, text, selector, value, target);
    hide EditToml, Lines, Selects, OnlyPlace, Toml.AllReadAlike, TomlSplice.ReadsKeys, Target, Lookup, Put, Token, Splice,
         PlaceAt, TomlSplice.Revalued, TomlSplice.IsScalar, IsOneLine, Separator, KeyText, HasScalar, TableAt, IsTopLevel,
         OtherValue, DocAfter, SetPath, Plain, KeysOf, IsLine;
    var lines, r, data := Lines(text), LineReader(reader.keyOf, valueOf), reader.load(text).value;
    SelectedByGrammar(reader.keyOf, lines, target, i);
    ScalarThere(reader.keyOf, text, target, i);
    assert lines[i] in lines;
    SplicedOther(reader.keyOf, lines, target, i, token);
    var p, v := LoadedAlike(r, lines, Lines(result), i);
    KeysRead(r, KeyText(lines[i]).value);
    UpdatesScalar(data, target, value);
    PathIsTarget(r, lines, i, target, p, data);
    JsonMeaning.LookupAfterPut(data, target, v);
  }

  lemma PlaceOfEdit(reader: Reader, text: string, selector: Selector, value: Projected, target: Path)
    requires EditToml(reader, text, selector, value).Some? && reader.load(text).Some?
    requires Target(reader.load(text).value, selector) == Some(target)
    ensures OnlyPlace(reader.keyOf, text, target).Some?
  {
    hide OnlyPlace, Target, Update, Token, Splice;
  }

  lemma UpdatesScalar(data: Value, target: Path, value: Projected)
    requires Update(data, target, value).Some?
    ensures Lookup(data, target).Some? && JsonMeaning.IsScalar(Lookup(data, target).value)
  {
    hide Lookup;
  }

  /** Editing twice, for a parser that agrees with the line reader on what it accepts. */
  lemma EditTwiceByLines(reader: Reader, valueOf: string -> Option<Value>, text: string, selector: Selector,
                         value: Projected, result: string)
    requires TomlSplice.ReadsKeys(reader.keyOf) && TomlSplice.ReadsKeys(reader.keyOf, true) && IsOneLine(value)
    requires ReadsLines(reader, valueOf) && Toml.AllReadAlike(Lines(text))
    requires EditToml(reader, text, selector, value) == Some(result)
    ensures EditToml(reader, result, selector, value) == if E.Renames(selector, value) then None else Some(result)
  {
    hide EditToml, OnlyChanges, KeepsSelection, E.Renames, ReadsLines, Toml.AllReadAlike, TomlSplice.ReadsKeys, IsOneLine;
    EditOnlyChanges(reader, valueOf, text, selector, value, result);
    OnlyChangesKeeps(reader, text, selector, value, result);
    E.EditTwice(reader, text, selector, value, result);
  }
}

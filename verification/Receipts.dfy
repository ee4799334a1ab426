/**
 * The build-receipt check of scripts/version_receipt.py (verify_receipts, cover_receipt_artifacts):
 * the receipts of a release divide its payloads among themselves.
 */
module Receipts {
  import opened Wrappers
  import opened Text
  import opened Ordering

  /** A line of an inventory: a name, absent when the receipt gives none, and the rest of the record. */
  datatype Artifact = Artifact(name: Option<string>, record: string)

  /** A payload inventory by name; of two entries with one name the later one stays. */
  type Inventory = map<string, Artifact>

  predicate IsReceiptName(name: string) {
    var prefix, suffix := "release-inputs-", ".json";
    && |name| > |prefix| + |suffix| && prefix <= name && name[|name| - |suffix|..] == suffix
    && forall i | |prefix| <= i < |name| - |suffix| ::
         IsDigit(name[i]) || 'a' <= name[i] <= 'z' || 'A' <= name[i] <= 'Z' || name[i] in "._-"
  }

  lemma Around(name: string, middle: string)
    ensures name == NameAround(middle) <==>
              && |name| == 20 + |middle| && "release-inputs-" <= name
              && name[15..|name| - 5] == middle && name[|name| - 5..] == ".json"
  {
    var prefix, suffix := "release-inputs-", ".json";
    if |name| == 20 + |middle| && prefix <= name && name[15..|name| - 5] == middle && name[|name| - 5..] == suffix {
      assert name == name[..15] + (name[15..|name| - 5] + name[|name| - 5..]);
    }
  }

  /** A receipt is named by something between the two fixed ends: letters, digits, points, underlines and dashes. */
  lemma ReceiptNameMeans(name: string)
    ensures IsReceiptName(name) <==>
              exists middle :: && name == NameAround(middle) && middle != ""
                               && forall i | 0 <= i < |middle| :: IsNameLetter(middle[i])
  {
    hide IsReceiptName, IsNameLetter, NameAround;
    if |name| > 20 {
      var middle := name[15..|name| - 5];
      Around(name, middle);
      MiddleLetters(name, middle);
    } else {
      TooShort(name);
    }
    forall middle | name == NameAround(middle)
      ensures |name| == 20 + |middle| && name[15..|name| - 5] == middle
    {
      Around(name, middle);
    }
  }

  lemma TooShort(name: string)
    requires |name| <= 20
    ensures !IsReceiptName(name)
  {
  }

  lemma MiddleLetters(name: string, middle: string)
    requires |name| > 20 && middle == name[15..|name| - 5]
    ensures IsReceiptName(name) <==> name == NameAround(middle) && forall i | 0 <= i < |middle| :: IsNameLetter(middle[i])
  {
    hide IsNameLetter, NameAround, IsDigit;
    Around(name, middle);
    forall c ensures IsNameLetter(c) <==> IsDigit(c) || 'a' <= c <= 'z' || 'A' <= c <= 'Z' || c in "._-" { NameLetters(c); }
    assert forall i | 0 <= i < |middle| :: middle[i] == name[15 + i];
    assert forall i | 15 <= i < |name| - 5 :: name[i] == middle[i - 15];
  }

  function NameAround(middle: string): string {
    "release-inputs-" + (middle + ".json")
  }

  ghost predicate IsNameLetter(c: char) {
    || c in "ABCDEFGHIJKLMNOPQRSTUVWXYZ" || c in "abcdefghijklmnopqrstuvwxyz"
    || c in "0123456789" || c == '.' || c == '_' || c == '-'
  }

  lemma NameLetters(c: char)
    ensures IsNameLetter(c) <==> IsDigit(c) || 'a' <= c <= 'z' || 'A' <= c <= 'Z' || c in "._-"
  {
    Capitals(c);
    SmallLetters(c);
    DigitLetters(c);
    assert c in "._-" <==> c == '.' || c == '_' || c == '-';
  }

  function ReceiptsIn(expected: Inventory): set<string> {
    set n | n in expected && IsReceiptName(n)
  }

  /** The artifact list of a receipt file, when it can be read, is sound evidence and has a list. */
  type Reader = string -> Option<seq<Artifact>>

  predicate Matches(a: Artifact, expected: Inventory) {
    a.name.Some? && a.name.value in expected && expected[a.name.value] == a
  }

  /** All artifacts of some receipts, one receipt after the other. */
  function Listed(read: Reader, names: seq<string>): seq<Artifact> {
    if names == [] then []
    else
      Listed(read, names[..|names| - 1])
      + var last := read(names[|names| - 1]); if last.Some? then last.value else []
  }

  predicate NoneTwice(artifacts: seq<Artifact>) {
    forall i, j | 0 <= i < j < |artifacts| :: artifacts[i].name != artifacts[j].name
  }

  function NamesOf(artifacts: seq<Artifact>): set<Option<string>> {
    set a | a in artifacts :: a.name
  }

  /** Artifacts that may be added to those already covered. */
  predicate Covers(artifacts: seq<Artifact>, expected: Inventory, covered: set<string>) {
    && NoneTwice(artifacts)
    && forall a | a in artifacts ::
         Matches(a, expected) && !IsReceiptName(a.name.value) && a.name.value !in covered
  }

  /** Readable receipts, none of them empty. */
  predicate Readable(read: Reader, names: seq<string>) {
    forall n | n in names :: read(n).Some? && read(n).value != []
  }

  /**
   * The receipts divide the payloads: identical records, nothing twice, no receipt covered, nothing
   * outside of the inventory and nothing of it left over.
   */
  predicate ExactCover(read: Reader, expected: Inventory) {
    var listed := Listed(read, SortedSet(ReceiptsIn(expected)));
    && ReceiptsIn(expected) != {} && Readable(read, SortedSet(ReceiptsIn(expected)))
    && Covers(listed, expected, {})
    && forall n | n in expected && !IsReceiptName(n) :: Some(n) in NamesOf(listed)
  }

  class Coverage {
    var covered: set<string>
    var results: seq<string>

    constructor ()
      ensures covered == {} && results == []
    {
      covered, results := {}, [];
    }

    method CoverArtifacts(artifacts: seq<Artifact>, expected: Inventory, receipts: set<string>) returns (ok: bool)
      requires receipts == ReceiptsIn(expected)
      modifies this`covered
      ensures ok <==> artifacts != [] && Covers(artifacts, expected, old(covered))
      ensures ok ==> covered == old(covered) + CoveredBy(artifacts)
    {
      hide Covers, IsReceiptName;
      if artifacts == [] {
        return false;
      }
      AnythingCovered(expected, covered);
      assert artifacts[..0] == [];
      for i := 0 to |artifacts|
        invariant Covers(artifacts[..i], expected, old(covered))
        invariant covered == old(covered) + CoveredBy(artifacts[..i])
      {
        var a := artifacts[i];
        NextArtifact(artifacts, expected, old(covered), i);
        if a.name.None? {
          return false;
        }
        if a.name.value in covered || a.name.value in receipts {
          return false;
        }
        if a.name.value !in expected || expected[a.name.value] != a {
          return false;
        }
        covered := covered + {a.name.value};
      }
      assert artifacts[..|artifacts|] == artifacts;
      return true;
    }

    method VerifyReceipts(read: Reader, payloads: seq<(string, string)>) returns (ok: bool)
      requires covered == {} && results == []
      modifies this
      ensures ok <==> ExactCover(read, InventoryOf(payloads))
      ensures ok ==> results == SortedSet(ReceiptsIn(InventoryOf(payloads)))
    {
      hide Covers, IsReceiptName, CoveredBy, Listed, Readable, InventoryOf;
      var expected: Inventory := map[];
      InventoryOfNone(payloads);
      for i := 0 to |payloads|
        invariant expected == InventoryOf(payloads[..i]) && covered == {} && results == []
      {
        InventoryNext(payloads, i);
        expected := expected[payloads[i].0 := Artifact(Some(payloads[i].0), payloads[i].1)];
      }
      assert payloads[..|payloads|] == payloads;
      var receipts := ReceiptsIn(expected);
      if receipts == {} {
        return false;
      }
      var names := SortedSet(receipts);
      NoReceiptYet(read, names, expected);
      for i := 0 to |names|
        invariant Readable(read, names[..i]) && Covers(Listed(read, names[..i]), expected, {})
        invariant covered == CoveredBy(Listed(read, names[..i])) && results == names[..i]
      {
        NextReceipt(read, names, expected, i);
        var artifacts := read(names[i]);
        if artifacts.None? {
          return false;
        }
        ok := CoverArtifacts(artifacts.value, expected, receipts);
        if !ok {
          return false;
        }
        results := results + [names[i]];
      }
      assert names[..|names|] == names;
      CoveredAreNames(Listed(read, names), expected);
      return forall n | n in expected && !IsReceiptName(n) :: n in covered;
    }
  }

  function InventoryOf(payloads: seq<(string, string)>): Inventory {
    if payloads == [] then map[]
    else
      var last := payloads[|payloads| - 1];
      InventoryOf(payloads[..|payloads| - 1])[last.0 := Artifact(Some(last.0), last.1)]
  }

  function CoveredBy(artifacts: seq<Artifact>): set<string> {
    set a | a in artifacts && a.name.Some? :: a.name.value
  }

  lemma InventoryOfNone(payloads: seq<(string, string)>)
    ensures InventoryOf(payloads[..0]) == map[]
  {
  }

  lemma InventoryNext(payloads: seq<(string, string)>, i: nat)
    requires i < |payloads|
    ensures InventoryOf(payloads[..i + 1])
         == InventoryOf(payloads[..i])[payloads[i].0 := Artifact(Some(payloads[i].0), payloads[i].1)]
  {
    assert payloads[..i + 1][..i] == payloads[..i];
  }

  lemma NoReceiptYet(read: Reader, names: seq<string>, expected: Inventory)
    ensures Readable(read, names[..0])
    ensures Covers(Listed(read, names[..0]), expected, {}) && CoveredBy(Listed(read, names[..0])) == {}
  {
  }

  lemma AnythingCovered(expected: Inventory, covered: set<string>)
    ensures Covers([], expected, covered) && CoveredBy([]) == {}
  {
  }

  lemma {:induction false} CoversAppend(a: seq<Artifact>, b: seq<Artifact>, expected: Inventory, covered: set<string>)
    ensures Covers(a + b, expected, covered) <==>
              Covers(a, expected, covered) && Covers(b, expected, covered + CoveredBy(a))
    ensures CoveredBy(a + b) == CoveredBy(a) + CoveredBy(b)
  {
    var all := a + b;
    assert forall x :: x in all <==> x in a || x in b;
    if Covers(all, expected, covered) {
      assert forall i | 0 <= i < |a| :: a[i] == all[i];
      assert forall j | 0 <= j < |b| :: b[j] == all[|a| + j];
      forall y | y in b ensures y.name.value !in CoveredBy(a) {
        var j :| 0 <= j < |b| && b[j] == y;
        forall x | x in a && x.name.Some? ensures x.name.value != y.name.value {
          var i :| 0 <= i < |a| && a[i] == x;
          assert all[i].name != all[|a| + j].name;
        }
      }
    }
    if Covers(a, expected, covered) && Covers(b, expected, covered + CoveredBy(a)) {
      forall i, j | 0 <= i < j < |all| ensures all[i].name != all[j].name {
        if i < |a| <= j {
          assert all[i] in a && all[j] in b;
          assert all[i].name.value in CoveredBy(a);
        }
      }
    }
  }

  lemma NextArtifact(artifacts: seq<Artifact>, expected: Inventory, covered: set<string>, i: nat)
    requires i < |artifacts| && Covers(artifacts[..i], expected, covered)
    ensures var a := artifacts[i];
            var ok := Matches(a, expected) && !IsReceiptName(a.name.value)
                      && a.name.value !in covered + CoveredBy(artifacts[..i]);
            && (ok ==> Covers(artifacts[..i + 1], expected, covered)
                       && CoveredBy(artifacts[..i + 1]) == CoveredBy(artifacts[..i]) + {a.name.value})
            && (!ok ==> !Covers(artifacts, expected, covered))
  {
    var a := artifacts[i];
    CoversOne(a, expected, covered + CoveredBy(artifacts[..i]));
    hide Covers, IsReceiptName;
    assert artifacts[..i + 1] == artifacts[..i] + [a];
    CoversAppend(artifacts[..i], [a], expected, covered);
    assert artifacts == artifacts[..i + 1] + artifacts[i + 1..];
    CoversAppend(artifacts[..i + 1], artifacts[i + 1..], expected, covered);
  }

  lemma CoversOne(a: Artifact, expected: Inventory, covered: set<string>)
    ensures Covers([a], expected, covered) <==>
              Matches(a, expected) && !IsReceiptName(a.name.value) && a.name.value !in covered
    ensures a.name.Some? ==> CoveredBy([a]) == {a.name.value}
  {
    assert a in [a];
  }

  lemma {:induction false} ListedFrom(read: Reader, names: seq<string>, n: nat) returns (rest: seq<Artifact>)
    requires n <= |names|
    ensures Listed(read, names) == Listed(read, names[..n]) + rest
  {
    if n == |names| {
      assert names[..n] == names;
      rest := [];
    } else {
      var before := ListedFrom(read, names[..|names| - 1], n);
      assert names[..|names| - 1][..n] == names[..n];
      var last := read(names[|names| - 1]);
      rest := before + if last.Some? then last.value else [];
    }
  }

  lemma ListedNext(read: Reader, names: seq<string>, i: nat)
    requires i < |names|
    ensures Listed(read, names[..i + 1])
         == Listed(read, names[..i]) + if read(names[i]).Some? then read(names[i]).value else []
  {
    assert names[..i + 1][..i] == names[..i];
  }

  lemma NextReceipt(read: Reader, names: seq<string>, expected: Inventory, i: nat)
    requires i < |names| && Readable(read, names[..i]) && Covers(Listed(read, names[..i]), expected, {})
    ensures var artifacts := read(names[i]);
            var ok := artifacts.Some? && artifacts.value != []
                      && Covers(artifacts.value, expected, CoveredBy(Listed(read, names[..i])));
            && (ok ==> Readable(read, names[..i + 1]) && Covers(Listed(read, names[..i + 1]), expected, {})
                       && CoveredBy(Listed(read, names[..i + 1]))
                          == CoveredBy(Listed(read, names[..i])) + CoveredBy(artifacts.value))
            && (!ok ==> !(Readable(read, names) && Covers(Listed(read, names), expected, {})))
  {
    hide Covers, CoveredBy, Listed, Readable;
    ReadableNext(read, names, i);
    ListedNext(read, names, i);
    var artifacts, before := read(names[i]), Listed(read, names[..i]);
    if artifacts.Some? {
      CoversAppend(before, artifacts.value, expected, {});
      assert {} + CoveredBy(before) == CoveredBy(before);
      var rest := ListedFrom(read, names, i + 1);
      CoversAppend(before + artifacts.value, rest, expected, {});
    }
  }

  lemma ReadableNext(read: Reader, names: seq<string>, i: nat)
    requires i < |names| && Readable(read, names[..i])
    ensures Readable(read, names) ==> read(names[i]).Some? && read(names[i]).value != []
    ensures read(names[i]).Some? && read(names[i]).value != [] ==> Readable(read, names[..i + 1])
  {
    assert names[i] in names && names[..i + 1] == names[..i] + [names[i]];
  }

  lemma CoveredAreNames(artifacts: seq<Artifact>, expected: Inventory)
    requires Covers(artifacts, expected, {})
    ensures forall n :: n in CoveredBy(artifacts) <==> Some(n) in NamesOf(artifacts)
  {
  }

  // ---- Exactly one receipt each ---------------------------------------------------------------------

  lemma {:induction false} ListedComesFrom(read: Reader, names: seq<string>, a: Artifact) returns (n: string)
    requires a in Listed(read, names)
    ensures n in names && read(n).Some? && a in read(n).value
  {
    var front, last := names[..|names| - 1], read(names[|names| - 1]);
    if a in Listed(read, front) {
      n := ListedComesFrom(read, front, a);
    } else {
      n := names[|names| - 1];
    }
  }

  /** Where a receipt's artifacts stand in the list of all. */
  lemma {:induction false} ListedAt(read: Reader, names: seq<string>, k: nat, a: Artifact) returns (i: nat)
    requires k < |names| && read(names[k]).Some? && a in read(names[k]).value
    ensures |Listed(read, names[..k])| <= i < |Listed(read, names[..k + 1])| <= |Listed(read, names)|
    ensures Listed(read, names)[i] == a
  {
    var before, artifacts := Listed(read, names[..k]), read(names[k]).value;
    assert names[..k + 1][..k] == names[..k];
    var rest := ListedFrom(read, names, k + 1);
    var j :| 0 <= j < |artifacts| && artifacts[j] == a;
    i := |before| + j;
  }

  lemma ListedGrows(read: Reader, names: seq<string>, k: nat, l: nat)
    requires k <= l <= |names|
    ensures |Listed(read, names[..k])| <= |Listed(read, names[..l])|
  {
    assert names[..l][..k] == names[..k];
    var rest := ListedFrom(read, names[..l], k);
  }

  /**
   * After a successful check every payload that is no receipt stands in one receipt, with an
   * identical record, and in no other one.
   */
  lemma EveryPayloadOnce(read: Reader, expected: Inventory, n: string) returns (receipt: string)
    requires ExactCover(read, expected) && n in expected && !IsReceiptName(n)
    ensures receipt in ReceiptsIn(expected) && read(receipt).Some? && expected[n] in read(receipt).value
    ensures forall r | r in ReceiptsIn(expected) && read(r).Some? && r != receipt ::
              forall a | a in read(r).value :: a.name != Some(n)
  {
    hide IsReceiptName, Listed;
    var names := SortedSet(ReceiptsIn(expected));
    var listed := Listed(read, names);
    assert Some(n) in NamesOf(listed);
    var a :| a in listed && a.name == Some(n);
    assert Matches(a, expected);
    receipt := ListedComesFrom(read, names, a);
    var k :| 0 <= k < |names| && names[k] == receipt;
    var i := ListedAt(read, names, k, a);
    forall r, b | r in ReceiptsIn(expected) && read(r).Some? && r != receipt && b in read(r).value
      ensures b.name != Some(n)
    {
      assert r in names;
      var l :| 0 <= l < |names| && names[l] == r;
      var j := ListedAt(read, names, l, b);
      if l < k { ListedGrows(read, names, l + 1, k); } else { ListedGrows(read, names, k + 1, l); }
      assert i != j && listed[i].name == Some(n);
    }
  }
}

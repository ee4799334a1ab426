/** The merge of two checked inputs in scripts/merge_oci_archives.py (merge_archives). */
module OciMerge {
  import opened Wrappers
  import opened Ordering
  import opened Oci

  // ---- The order of the merged leaves --------------------------------------------------------------------

  function ArchitectureOf(d: Descriptor): string {
    if d.platform.Some? && d.platform.value.architecture.Some? then d.platform.value.architecture.value else ""
  }

  predicate HasUnknownOs(d: Descriptor) {
    d.platform.Some? && d.platform.value.os == Some("unknown")
  }

  /** Images before attestations, then by architecture and digest. */
  predicate SortsBefore(x: Descriptor, y: Descriptor) {
    if HasUnknownOs(x) != HasUnknownOs(y) then HasUnknownOs(y)
    else if ArchitectureOf(x) != ArchitectureOf(y) then Less(ArchitectureOf(x), ArchitectureOf(y))
    else Less(x.digest, y.digest)
  }

  function InsertLeaf(d: Descriptor, sorted: seq<Descriptor>): (r: seq<Descriptor>)
    ensures multiset(r) == multiset([d]) + multiset(sorted)
  {
    if sorted == [] || !SortsBefore(sorted[0], d) then [d] + sorted
    else
      assert sorted == [sorted[0]] + sorted[1..];
      [sorted[0]] + InsertLeaf(d, sorted[1..])
  }

  function SortLeaves(leaves: seq<Descriptor>): (r: seq<Descriptor>)
    ensures multiset(r) == multiset(leaves)
  {
    if leaves == [] then []
    else
      assert leaves == [leaves[0]] + leaves[1..];
      InsertLeaf(leaves[0], SortLeaves(leaves[1..]))
  }

  lemma SortsTotal(x: Descriptor, y: Descriptor)
    ensures SortsBefore(x, y) || SortsBefore(y, x) || x.digest == y.digest
    ensures !(SortsBefore(x, y) && SortsBefore(y, x))
  {
    LessIsTotal(ArchitectureOf(x), ArchitectureOf(y));
    LessIsTotal(x.digest, y.digest);
  }

  lemma SortsTransitive(x: Descriptor, y: Descriptor, z: Descriptor)
    requires !SortsBefore(y, x) && !SortsBefore(z, y)
    ensures !SortsBefore(z, x)
  {
    NotLessIsTransitive(ArchitectureOf(x), ArchitectureOf(y), ArchitectureOf(z));
    NotLessIsTransitive(x.digest, y.digest, z.digest);
  }

  lemma NotLessIsTransitive(a: string, b: string, c: string)
    ensures !Less(b, a) && !Less(c, b) ==> !Less(c, a) && (a == c ==> a == b)
  {
    hide Less;
    LessIsTotal(a, b);
    LessIsTotal(b, c);
    LessIsTotal(a, c);
    if Less(a, b) && Less(b, c) {
      LessIsTransitive(a, b, c);
    }
  }

  /** Sorted, said from the front. */
  predicate InOrder(leaves: seq<Descriptor>) {
    leaves != [] ==> (forall d | d in leaves[1..] :: !SortsBefore(d, leaves[0])) && InOrder(leaves[1..])
  }

  lemma {:induction false} InsertKeepsOrder(d: Descriptor, sorted: seq<Descriptor>)
    requires InOrder(sorted)
    ensures InOrder(InsertLeaf(d, sorted))
  {
    hide SortsBefore;
    if sorted != [] {
      var first, rest := sorted[0], sorted[1..];
      assert sorted == [first] + rest;
      SortsTotal(first, d);
      if SortsBefore(first, d) {
        InsertKeepsOrder(d, rest);
        var more := InsertLeaf(d, rest);
        forall x | x in more ensures !SortsBefore(x, first) {
          assert x in multiset(more);
          assert x in multiset([d]) || x in multiset(rest);
        }
        assert InsertLeaf(d, sorted)[1..] == more;
      } else {
        forall x | x in sorted ensures !SortsBefore(x, d) {
          if x != first { SortsTransitive(d, first, x); }
        }
        assert ([d] + sorted)[1..] == sorted;
      }
    }
  }

  lemma {:induction false} SortsInOrder(leaves: seq<Descriptor>)
    ensures InOrder(SortLeaves(leaves))
  {
    if leaves != [] {
      SortsInOrder(leaves[1..]);
      InsertKeepsOrder(leaves[0], SortLeaves(leaves[1..]));
    }
  }

  /** The three keys of one leaf are those of another or come before them. */
  ghost predicate KeysAscend(x: Descriptor, y: Descriptor) {
    var unknown := Some("unknown");
    var xs, ys := x.platform.Some? && x.platform.value.os == unknown, y.platform.Some? && y.platform.value.os == unknown;
    var a := if x.platform.Some? && x.platform.value.architecture.Some? then x.platform.value.architecture.value else "";
    var b := if y.platform.Some? && y.platform.value.architecture.Some? then y.platform.value.architecture.value else "";
    && (xs ==> ys)
    && (xs == ys ==> a == b || Less(a, b))
    && (xs == ys && a == b ==> x.digest == y.digest || Less(x.digest, y.digest))
  }

  lemma KeysOrder(x: Descriptor, y: Descriptor)
    ensures KeysAscend(x, y) <==> !SortsBefore(y, x)
  {
    hide Less;
    LessIsTotal(ArchitectureOf(x), ArchitectureOf(y));
    LessIsTotal(x.digest, y.digest);
  }

  /** Images stand before attestations; within each kind by architecture, and with one architecture by digest. */
  lemma {:induction false} OrderMeans(leaves: seq<Descriptor>)
    ensures InOrder(leaves) <==> forall i, j | 0 <= i < j < |leaves| :: KeysAscend(leaves[i], leaves[j])
  {
    hide SortsBefore, KeysAscend;
    if leaves != [] {
      var first, rest := leaves[0], leaves[1..];
      OrderMeans(rest);
      assert forall j | 0 <= j < |rest| :: rest[j] == leaves[j + 1];
      assert forall j | 0 < j < |leaves| :: leaves[j] == rest[j - 1];
      forall d | d in rest ensures KeysAscend(first, d) <==> !SortsBefore(d, first) { KeysOrder(first, d); }
    }
  }

  lemma FrontIsLeast(sorted: seq<Descriptor>, d: Descriptor)
    requires InOrder(sorted) && d in sorted
    ensures !SortsBefore(d, sorted[0])
  {
    hide SortsBefore;
    SortsTotal(sorted[0], sorted[0]);
    assert d == sorted[0] || d in sorted[1..];
  }

  lemma WithoutFirst(s: seq<Descriptor>)
    requires s != []
    ensures multiset(s[1..]) == multiset(s) - multiset{s[0]}
  {
    assert s == [s[0]] + s[1..];
  }

  lemma {:induction false} OneOrder(x: seq<Descriptor>, y: seq<Descriptor>)
    requires InOrder(x) && InOrder(y) && multiset(x) == multiset(y)
    requires forall c, d | c in x && d in x && c != d :: c.digest != d.digest
    ensures x == y
  {
    hide SortsBefore;
    assert |multiset(x)| == |x| && |multiset(y)| == |y|;
    if x != [] {
      assert x[0] in multiset(y) && y[0] in multiset(x);
      FrontIsLeast(x, y[0]);
      FrontIsLeast(y, x[0]);
      SortsTotal(x[0], y[0]);
      WithoutFirst(x);
      WithoutFirst(y);
      OneOrder(x[1..], y[1..]);
      assert x == [x[0]] + x[1..] && y == [y[0]] + y[1..];
    }
  }

  /** The order of the merged leaves does not depend on which input comes first. */
  lemma OrderIsFixed(a: seq<Descriptor>, b: seq<Descriptor>)
    requires forall c, d | c in a + b && d in a + b && c != d :: c.digest != d.digest
    ensures SortLeaves(a + b) == SortLeaves(b + a)
  {
    SortsInOrder(a + b);
    SortsInOrder(b + a);
    assert multiset(a + b) == multiset(b + a);
    forall c, d | c in SortLeaves(a + b) && d in SortLeaves(a + b) && c != d ensures c.digest != d.digest {
      assert c in multiset(a + b) && d in multiset(a + b);
    }
    OneOrder(SortLeaves(a + b), SortLeaves(b + a));
  }

  // ---- Permutations keep what the limits count ---------------------------------------------------------

  lemma DistinctCons(d: Descriptor, leaves: seq<Descriptor>)
    ensures Distinct([d] + leaves) <==> Distinct(leaves) && forall x | x in leaves :: x.digest != d.digest
  {
    var all := [d] + leaves;
    if Distinct(all) {
      forall i, j | 0 <= i < j < |leaves| ensures leaves[i].digest != leaves[j].digest {
        assert all[i + 1] == leaves[i] && all[j + 1] == leaves[j];
      }
      forall x | x in leaves ensures x.digest != d.digest {
        var i :| 0 <= i < |leaves| && leaves[i] == x;
        assert all[0] == d && all[i + 1] == x;
      }
    }
  }

  lemma {:induction false} InsertKeepsDistinct(d: Descriptor, sorted: seq<Descriptor>)
    ensures Distinct(InsertLeaf(d, sorted)) <==> Distinct([d] + sorted)
  {
    hide SortsBefore, Distinct;
    if sorted != [] && SortsBefore(sorted[0], d) {
      var first, rest := sorted[0], sorted[1..];
      assert sorted == [first] + rest;
      InsertKeepsDistinct(d, rest);
      DistinctCons(first, InsertLeaf(d, rest));
      DistinctCons(d, rest);
      DistinctCons(first, rest);
      DistinctCons(d, sorted);
      var more := InsertLeaf(d, rest);
      assert forall x :: x in more <==> x in multiset(more);
      assert forall x :: x in multiset([d]) + multiset(rest) <==> x == d || x in rest;
    }
  }

  lemma {:induction false} SortKeepsDistinct(leaves: seq<Descriptor>)
    ensures Distinct(SortLeaves(leaves)) <==> Distinct(leaves)
  {
    hide Distinct;
    if leaves != [] {
      var first, rest := leaves[0], leaves[1..];
      assert leaves == [first] + rest;
      SortKeepsDistinct(rest);
      InsertKeepsDistinct(first, SortLeaves(rest));
      DistinctCons(first, SortLeaves(rest));
      DistinctCons(first, rest);
      assert forall x :: x in SortLeaves(rest) <==> x in multiset(SortLeaves(rest));
      assert forall x :: x in rest <==> x in multiset(rest);
    }
  }

  predicate Apart(a: seq<Descriptor>, b: seq<Descriptor>) {
    forall c, d | c in a && d in b :: c.digest != d.digest
  }

  lemma {:induction false} DistinctJoins(a: seq<Descriptor>, b: seq<Descriptor>)
    ensures Distinct(a + b) <==> Distinct(a) && Distinct(b) && Apart(a, b)
  {
    hide Distinct;
    if a == [] {
      assert a + b == b;
      assert Distinct(a) by { NothingIsDistinct(); }
    } else {
      var first, rest := a[0], a[1..];
      assert a == [first] + rest && a + b == [first] + (rest + b);
      DistinctJoins(rest, b);
      DistinctCons(first, rest + b);
      DistinctCons(first, rest);
    }
  }

  lemma NothingIsDistinct()
    ensures Distinct([])
  {
  }

  lemma {:induction false} InsertKeepsLoad(codec: Codec, blobs: Blobs, d: Descriptor, sorted: seq<Descriptor>)
    ensures TotalLoad(codec, blobs, InsertLeaf(d, sorted)) == TotalLoad(codec, blobs, [d] + sorted)
  {
    hide SortsBefore, LoadOf, TotalLoad;
    if sorted != [] && SortsBefore(sorted[0], d) {
      var first, rest := sorted[0], sorted[1..];
      assert sorted == [first] + rest;
      InsertKeepsLoad(codec, blobs, d, rest);
      TotalLoadJoins(codec, blobs, [first], InsertLeaf(d, rest));
      TotalLoadJoins(codec, blobs, [d], rest);
      TotalLoadJoins(codec, blobs, [first], rest);
      TotalLoadJoins(codec, blobs, [d], sorted);
    }
  }

  lemma {:induction false} SortKeepsLoad(codec: Codec, blobs: Blobs, leaves: seq<Descriptor>)
    ensures TotalLoad(codec, blobs, SortLeaves(leaves)) == TotalLoad(codec, blobs, leaves)
  {
    hide LoadOf, TotalLoad;
    if leaves != [] {
      var first, rest := leaves[0], leaves[1..];
      assert leaves == [first] + rest;
      SortKeepsLoad(codec, blobs, rest);
      InsertKeepsLoad(codec, blobs, first, SortLeaves(rest));
      TotalLoadJoins(codec, blobs, [first], SortLeaves(rest));
      TotalLoadJoins(codec, blobs, [first], rest);
    }
  }

  // ---- The merged archive ------------------------------------------------------------------------------

  const NO_PLATFORM := Platform(None, None, None, false)
  const AMD64 := ("linux", "amd64")
  const ARM64 := ("linux", "arm64")

  function IndexOf(manifests: seq<Descriptor>): Data {
    Data(true, Some(INDEX), Some(manifests), None, None, None, None, NO_PLATFORM, None, None, false, None, None, [])
  }

  /** The new root: one inner index. */
  function RootOf(digest: string, size: nat): Data {
    IndexOf([Descriptor(INDEX, digest, size, None, map[], None, false, None)])
  }

  predicate ReadsBack(codec: Codec, text: string, manifests: seq<Descriptor>) {
    text != "" && codec.decode(text) == Some(IndexOf(manifests))
  }

  predicate Conflict(a: Blobs, b: Blobs, d: string) {
    d in a && d in b && |a[d]| != |b[d]|
  }

  ghost predicate Includes(more: Blobs, blobs: Blobs) {
    forall d | d in blobs :: d in more && more[d] == blobs[d]
  }

  /** Both sets of blobs, and the inner index under its digest. */
  function MergedBlobs(codec: Codec, a: Blobs, b: Blobs, inner: string): Blobs {
    (a + b)[codec.sha(inner) := inner]
  }

  /** One checked input: its leaves are complete and told apart by their digests. */
  ghost predicate Input(codec: Codec, terms: Terms, blobs: Blobs, leaves: seq<Descriptor>) {
    Checked(codec, blobs) && Distinct(leaves) && forall d | d in leaves :: LeafComplete(codec, terms, blobs, d)
  }

  ghost predicate Injective(codec: Codec) {
    forall x, y :: codec.sha(x) == codec.sha(y) ==> x == y
  }

  /** What an archive of both platforms must be. */
  function BothTerms(version: string, revision: string): Terms {
    Terms({AMD64, ARM64}, version, revision)
  }

  /** What the limits leave of a merge: one visit for the inner index, and the loads of both inputs together. */
  predicate Fits(codec: Codec, a: Blobs, left: seq<Descriptor>, b: Blobs, right: seq<Descriptor>, inner: string, bytes: nat) {
    var x, y := TotalLoad(codec, a, left), TotalLoad(codec, b, right);
    && 0 < |left| + |right| < MAX_VISITED && Apart(left, right) && |inner| <= MAX_JSON
    && x.rootfs + y.rootfs <= MAX_ROOTFS_BYTES
    && bytes + |inner| + x.metadata + y.metadata <= MAX_JSON_TOTAL
  }

  datatype Merged = Merged(blobs: Blobs, root: Data, leaves: seq<Descriptor>)

  /**
   * Merging checked inputs never conflicts and loses nothing. A walk of the result under the terms of
   * both platforms passes exactly when the limits allow it, and then comes to exactly the merged leaves.
   */
  method Merge(a: Archive, b: Archive, version: string, revision: string, encode: seq<Descriptor> -> string)
    returns (r: Option<Merged>)
    requires a.Valid() && b.Valid() && Checked(a.codec, a.blobs) && Checked(b.codec, b.blobs)
    requires a.codec == b.codec && Injective(a.codec)
    requires a.terms == Terms({AMD64}, version, revision) && b.terms == Terms({ARM64}, version, revision)
    requires ReadsBack(a.codec, encode(SortLeaves(a.leaves + b.leaves)), SortLeaves(a.leaves + b.leaves))
    ensures r.Some?
    ensures Checked(a.codec, r.value.blobs) && Includes(r.value.blobs, a.blobs) && Includes(r.value.blobs, b.blobs)
    ensures InOrder(r.value.leaves) && multiset(r.value.leaves) == multiset(a.leaves) + multiset(b.leaves)
    ensures forall d | d in r.value.leaves ::
              LeafComplete(a.codec, BothTerms(version, revision), r.value.blobs, d)
    ensures forall d | d in r.value.leaves ::
              || HoldsImage(a.codec, BothTerms(version, revision), r.value.blobs, d)
              || exists s :: HoldsAttestation(a.codec, BothTerms(version, revision), r.value.blobs, d, s)
    ensures forall bytes: nat ::
              var end := WalkFrom(a.codec, BothTerms(version, revision), r.value.blobs, r.value.root, bytes);
              && (end.Some? <==> Fits(a.codec, a.blobs, a.leaves, b.blobs, b.leaves, encode(r.value.leaves), bytes))
              && (end.Some? ==> end.value.leaves == r.value.leaves)
  {
    hide LeafComplete, BelowIndex, Checked, Includes, Injective, SortLeaves, WalkFrom, Fits, RootOf, InOrder, ReadsBack,
         HoldsImage, HoldsAttestation;
    var leaves := SortLeaves(a.leaves + b.leaves);
    var inner := encode(leaves);
    NoConflict(a.codec, a.blobs, b.blobs);
    if exists d :: d in a.blobs && Conflict(a.blobs, b.blobs, d) {
      return None;
    }
    var blobs := MergedBlobs(a.codec, a.blobs, b.blobs, inner);
    ValidIsInput(a);
    ValidIsInput(b);
    SortsInOrder(a.leaves + b.leaves);
    forall bytes: nat
      ensures var end := WalkFrom(a.codec, BothTerms(version, revision), blobs, RootOf(a.codec.sha(inner), |inner|), bytes);
              && (end.Some? <==> Fits(a.codec, a.blobs, a.leaves, b.blobs, b.leaves, inner, bytes))
              && (end.Some? ==> end.value.leaves == leaves)
    {
      MergedWalk(a.codec, version, revision, a.blobs, a.leaves, b.blobs, b.leaves, inner, bytes);
    }
    MergedIncludes(a.codec, a.blobs, b.blobs, inner);
    MergedComplete(a.codec, version, revision, a.blobs, a.leaves, b.blobs, b.leaves, inner);
    forall d | d in leaves
      ensures || HoldsImage(a.codec, BothTerms(version, revision), blobs, d)
              || exists s :: HoldsAttestation(a.codec, BothTerms(version, revision), blobs, d, s)
    {
      CompleteMeans(a.codec, BothTerms(version, revision), blobs, d);
    }
    return Some(Merged(blobs, RootOf(a.codec.sha(inner), |inner|), leaves));
  }

  lemma ValidIsInput(a: Archive)
    requires a.Valid() && Checked(a.codec, a.blobs)
    ensures Input(a.codec, a.terms, a.blobs, a.leaves)
  {
    hide LeafComplete, CacheTrue, Distinct, Checked, TotalLoad;
  }

  lemma NoConflict(codec: Codec, a: Blobs, b: Blobs)
    requires Checked(codec, a) && Checked(codec, b) && Injective(codec)
    ensures forall d :: !Conflict(a, b, d)
  {
    forall d | d in a && d in b ensures a[d] == b[d] {
      assert codec.sha(a[d]) == codec.sha(b[d]);
    }
  }

  lemma MergedIncludes(codec: Codec, a: Blobs, b: Blobs, inner: string)
    requires Checked(codec, a) && Checked(codec, b) && Injective(codec)
    ensures var merged := MergedBlobs(codec, a, b, inner); Checked(codec, merged) && Includes(merged, a) && Includes(merged, b)
  {
  }

  predicate Wider(terms: Terms, more: Terms) {
    terms.targets <= more.targets && terms.version == more.version && terms.revision == more.revision
  }

  lemma {:induction false} SizeStays(codec: Codec, blobs: Blobs, more: Blobs, layers: seq<Descriptor>)
    requires Includes(more, blobs) && forall layer | layer in layers :: HasBlob(blobs, layer, LAYER_TYPES)
    ensures TotalSize(codec, more, layers) == TotalSize(codec, blobs, layers)
  {
    if layers != [] {
      SizeStays(codec, blobs, more, layers[..|layers| - 1]);
      assert layers[|layers| - 1] in layers;
    }
  }

  /** A leaf that is complete stays so, at the same cost, among more blobs and under wider terms. */
  lemma LeafStaysComplete(codec: Codec, terms: Terms, wider: Terms, blobs: Blobs, more: Blobs, d: Descriptor)
    requires Includes(more, blobs) && Wider(terms, wider) && LeafComplete(codec, terms, blobs, d)
    ensures LeafComplete(codec, wider, more, d) && LoadOf(codec, more, d) == LoadOf(codec, blobs, d)
  {
    var data := Read(codec, blobs, d, {INDEX, MANIFEST}).value;
    assert Read(codec, more, d, {INDEX, MANIFEST}) == Some(data);
    if IsAttestation(d, data) {
      AttestationStays(codec, terms, wider, blobs, more, d, data);
    } else {
      ImageStays(codec, terms, wider, blobs, more, d, data);
      SizeStays(codec, blobs, more, data.layers.value);
    }
    hide Read, IsAttestation, AttestationComplete, ImageComplete, IsPlainImage, TotalSize, SizeOf, Includes;
  }

  lemma AttestationStays(codec: Codec, terms: Terms, wider: Terms, blobs: Blobs, more: Blobs, d: Descriptor, data: Data)
    requires Includes(more, blobs) && Wider(terms, wider) && AttestationComplete(codec, terms, blobs, d, data)
    ensures AttestationComplete(codec, wider, more, d, data)
  {
    hide SaysUnknown;
    if data.artifactType.Some? {
      assert NewStyle(codec, wider, more, d, data, data.config.value);
    } else {
      assert OldStyle(codec, more, d, data, data.config.value);
    }
    hide NewStyle, OldStyle;
    forall layer | layer in data.layers.value ensures StatementAbout(codec, more, layer, SubjectOf(d, data).value) {
      assert StatementAbout(codec, blobs, layer, SubjectOf(d, data).value);
    }
  }

  lemma ImageStays(codec: Codec, terms: Terms, wider: Terms, blobs: Blobs, more: Blobs, d: Descriptor, data: Data)
    requires Includes(more, blobs) && Wider(terms, wider) && ImageComplete(codec, terms, blobs, d, data)
    ensures ImageComplete(codec, wider, more, d, data)
  {
    hide LabelsFit;
    var labels := Read(codec, blobs, data.config.value, {CONFIG}).value.labels;
    LabelsStay(terms, wider, labels);
  }

  lemma LabelsStay(terms: Terms, wider: Terms, labels: Option<map<string, string>>)
    requires Wider(terms, wider) && LabelsFit(terms, labels)
    ensures LabelsFit(wider, labels)
  {
  }

  lemma {:induction false} LoadsStay(codec: Codec, terms: Terms, wider: Terms, blobs: Blobs, more: Blobs,
                                     leaves: seq<Descriptor>)
    requires Includes(more, blobs) && Wider(terms, wider)
    requires forall d | d in leaves :: LeafComplete(codec, terms, blobs, d)
    ensures forall d | d in leaves :: LeafComplete(codec, wider, more, d)
    ensures TotalLoad(codec, more, leaves) == TotalLoad(codec, blobs, leaves)
  {
    hide LeafComplete, LoadOf, Includes, Wider;
    if leaves != [] {
      var front, last := leaves[..|leaves| - 1], leaves[|leaves| - 1];
      LoadsStay(codec, terms, wider, blobs, more, front);
      LeafStaysComplete(codec, terms, wider, blobs, more, last);
      assert leaves == front + [last];
    }
  }

  lemma MergedComplete(codec: Codec, version: string, revision: string, a: Blobs, left: seq<Descriptor>, b: Blobs,
                       right: seq<Descriptor>, inner: string)
    requires Input(codec, Terms({AMD64}, version, revision), a, left) && Injective(codec)
    requires Input(codec, Terms({ARM64}, version, revision), b, right)
    ensures var merged, leaves := MergedBlobs(codec, a, b, inner), SortLeaves(left + right);
            var x, y := TotalLoad(codec, a, left), TotalLoad(codec, b, right);
            && (forall d | d in leaves :: LeafComplete(codec, BothTerms(version, revision), merged, d))
            && TotalLoad(codec, merged, leaves) == Load(x.rootfs + y.rootfs, x.metadata + y.metadata)
  {
    var merged, both := MergedBlobs(codec, a, b, inner), BothTerms(version, revision);
    MergedIncludes(codec, a, b, inner);
    hide LeafComplete, LoadOf, TotalLoad, Distinct, MergedBlobs, Includes, Checked, Injective, SortLeaves;
    LoadsStay(codec, Terms({AMD64}, version, revision), both, a, merged, left);
    LoadsStay(codec, Terms({ARM64}, version, revision), both, b, merged, right);
    hide Input, BothTerms;
    SortedTogether(codec, both, merged, left, right);
  }

  lemma SortedTogether(codec: Codec, terms: Terms, blobs: Blobs, left: seq<Descriptor>, right: seq<Descriptor>)
    requires forall d | d in left :: LeafComplete(codec, terms, blobs, d)
    requires forall d | d in right :: LeafComplete(codec, terms, blobs, d)
    ensures forall d | d in SortLeaves(left + right) :: LeafComplete(codec, terms, blobs, d)
    ensures var x, y := TotalLoad(codec, blobs, left), TotalLoad(codec, blobs, right);
            TotalLoad(codec, blobs, SortLeaves(left + right)) == Load(x.rootfs + y.rootfs, x.metadata + y.metadata)
  {
    hide LeafComplete, TotalLoad, SortLeaves;
    TotalLoadJoins(codec, blobs, left, right);
    SortKeepsLoad(codec, blobs, left + right);
    forall d | d in SortLeaves(left + right) ensures LeafComplete(codec, terms, blobs, d) {
      SortKeepsMembers(left + right, d);
    }
  }

  lemma SortKeepsMembers(leaves: seq<Descriptor>, d: Descriptor)
    ensures d in SortLeaves(leaves) <==> d in leaves
  {
    hide SortLeaves;
    assert d in SortLeaves(leaves) <==> d in multiset(SortLeaves(leaves));
  }

  lemma MergedDistinct(left: seq<Descriptor>, right: seq<Descriptor>)
    requires Distinct(left) && Distinct(right)
    ensures Distinct(SortLeaves(left + right)) <==> Apart(left, right)
    ensures |SortLeaves(left + right)| == |left| + |right|
  {
    hide Distinct, Apart, SortLeaves;
    SortKeepsDistinct(left + right);
    DistinctJoins(left, right);
    assert |multiset(SortLeaves(left + right))| == |multiset(left + right)|;
  }

  /** What a walk needs to find a leaf: its manifest is there and is no index. */
  predicate LeafPresent(codec: Codec, blobs: Blobs, d: Descriptor) {
    var data := Read(codec, blobs, d, {INDEX, MANIFEST});
    d.mediaType == MANIFEST && data.Some? && data.value.isSchema2 && data.value.mediaType in {None, Some(MANIFEST)}
  }

  lemma CompleteIsPresent(codec: Codec, terms: Terms, blobs: Blobs, d: Descriptor)
    requires LeafComplete(codec, terms, blobs, d)
    ensures LeafPresent(codec, blobs, d)
  {
  }

  lemma {:induction false} PresentAreLeaves(codec: Codec, blobs: Blobs, leaves: seq<Descriptor>, depth: nat)
    requires depth <= MAX_DEPTH && forall d | d in leaves :: LeafPresent(codec, blobs, d)
    ensures BelowAll(codec, blobs, leaves, depth) == Some(Survey(leaves, |leaves|, 0))
  {
    hide Read;
    if leaves != [] {
      var front, last := leaves[..|leaves| - 1], leaves[|leaves| - 1];
      PresentAreLeaves(codec, blobs, front, depth);
      assert LeafPresent(codec, blobs, last);
      assert Below(codec, blobs, last, depth) == Some(Survey([last], 1, 0));
      assert leaves == front + [last];
    }
  }

  /** The graph below the new root. */
  lemma RootLeads(codec: Codec, terms: Terms, blobs: Blobs, inner: string, leaves: seq<Descriptor>)
    requires codec.sha(inner) in blobs && blobs[codec.sha(inner)] == inner && ReadsBack(codec, inner, leaves)
    requires forall d | d in leaves :: LeafComplete(codec, terms, blobs, d)
    ensures BelowIndex(codec, blobs, RootOf(codec.sha(inner), |inner|), 0) ==
              if |inner| <= MAX_JSON && 0 < |leaves| <= 1024 then Some(Survey(leaves, |leaves| + 1, |inner|)) else None
  {
    var root := RootOf(codec.sha(inner), |inner|).manifests.value[0];
    assert Read(codec, blobs, root, {INDEX, MANIFEST}) == if |inner| <= MAX_JSON then Some(IndexOf(leaves)) else None;
    hide Read;
    forall d | d in leaves ensures LeafPresent(codec, blobs, d) { CompleteIsPresent(codec, terms, blobs, d); }
    hide LeafComplete, LeafPresent;
    PresentAreLeaves(codec, blobs, leaves, 1);
    hide BelowAll;
    OneChild(codec, blobs, root);
    InnerLeads(codec, blobs, root, leaves);
  }

  lemma InnerLeads(codec: Codec, blobs: Blobs, root: Descriptor, leaves: seq<Descriptor>)
    requires root.mediaType == INDEX && Read(codec, blobs, root, {INDEX, MANIFEST}) in {None, Some(IndexOf(leaves))}
    requires BelowAll(codec, blobs, leaves, 1) == Some(Survey(leaves, |leaves|, 0))
    ensures Below(codec, blobs, root, 0) ==
              if Read(codec, blobs, root, {INDEX, MANIFEST}).Some? && 0 < |leaves| <= 1024
              then Some(Survey(leaves, |leaves| + 1, root.size)) else None
  {
    hide BelowAll, Read;
    assert [] + leaves == leaves;
  }

  lemma OneChild(codec: Codec, blobs: Blobs, d: Descriptor)
    ensures BelowAll(codec, blobs, [d], 0) == Below(codec, blobs, d, 0)
  {
    hide Below;
    assert [d][..0] == [];
    var below := Below(codec, blobs, d, 0);
    if below.Some? { assert [] + below.value.leaves == below.value.leaves; }
  }

  /** When a walk of the merged archive passes, and where it comes to. */
  lemma MergedWalk(codec: Codec, version: string, revision: string, a: Blobs, left: seq<Descriptor>, b: Blobs,
                   right: seq<Descriptor>, inner: string, bytes: nat)
    requires Input(codec, Terms({AMD64}, version, revision), a, left) && Injective(codec)
    requires Input(codec, Terms({ARM64}, version, revision), b, right)
    requires ReadsBack(codec, inner, SortLeaves(left + right))
    ensures var merged, leaves := MergedBlobs(codec, a, b, inner), SortLeaves(left + right);
            var end := WalkFrom(codec, BothTerms(version, revision), merged, RootOf(codec.sha(inner), |inner|), bytes);
            && (end.Some? <==> Fits(codec, a, left, b, right, inner, bytes))
            && (end.Some? ==> end.value.leaves == leaves)
  {
    var merged, leaves := MergedBlobs(codec, a, b, inner), SortLeaves(left + right);
    MergedComplete(codec, version, revision, a, left, b, right, inner);
    MergedDistinct(left, right);
    assert codec.sha(inner) in merged && merged[codec.sha(inner)] == inner;
    hide LeafComplete, MergedBlobs, TotalLoad, Distinct, Apart, SortLeaves, Injective, ReadsBack, RootOf, Input, WalkFrom,
         BothTerms;
    RootWalk(codec, BothTerms(version, revision), merged, inner, leaves, bytes);
  }

  /** When a walk from a new root passes, for an index of complete leaves. */
  lemma RootWalk(codec: Codec, terms: Terms, blobs: Blobs, inner: string, leaves: seq<Descriptor>, bytes: nat)
    requires codec.sha(inner) in blobs && blobs[codec.sha(inner)] == inner && ReadsBack(codec, inner, leaves)
    requires forall d | d in leaves :: LeafComplete(codec, terms, blobs, d)
    ensures var load, end := TotalLoad(codec, blobs, leaves),
                             WalkFrom(codec, terms, blobs, RootOf(codec.sha(inner), |inner|), bytes);
            && (end.Some? <==>
                  && |inner| <= MAX_JSON && 0 < |leaves| < MAX_VISITED && Distinct(leaves)
                  && load.rootfs <= MAX_ROOTFS_BYTES && bytes + |inner| + load.metadata <= MAX_JSON_TOTAL)
            && (end.Some? ==> end.value.leaves == leaves)
  {
    RootLeads(codec, terms, blobs, inner, leaves);
    hide LeafComplete, BelowIndex, TotalLoad, Distinct, ReadsBack, RootOf, Passes, After;
    PassesWhenComplete(codec, terms, blobs, bytes, leaves, |leaves| + 1, |inner|);
  }

  /** Complete leaves pass exactly when no limit is exceeded behind them. */
  lemma PassesWhenComplete(codec: Codec, terms: Terms, blobs: Blobs, bytes: nat, leaves: seq<Descriptor>, visits: nat,
                           indexBytes: nat)
    requires forall d | d in leaves :: LeafComplete(codec, terms, blobs, d)
    ensures var load, at, s := TotalLoad(codec, blobs, leaves), Progress([], 0, 0, bytes), Survey(leaves, visits, indexBytes);
            && After(codec, blobs, at, s).leaves == leaves
            && (Passes(codec, terms, blobs, at, s) <==>
                  && Distinct(leaves) && visits <= MAX_VISITED && load.rootfs <= MAX_ROOTFS_BYTES
                  && bytes + indexBytes + load.metadata <= MAX_JSON_TOTAL)
  {
    hide LeafComplete, TotalLoad, Distinct;
    assert [] + leaves == leaves;
  }
}

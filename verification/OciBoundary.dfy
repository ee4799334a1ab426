/** Inputs of the OCI merge at the limit on visits: one image and any number of attestations a side. */
module OciBoundary {
  import opened Wrappers
  import opened Oci
  import opened OciMerge

  const BLANK := IndexOf([]).(mediaType := None, manifests := None)
  const UNKNOWN := Platform(Some("unknown"), Some("unknown"), None, false)

  /** The version and the revision that the images are labelled with. */
  datatype Tag = Tag(version: string, revision: string)

  function Architecture(side: char): string {
    if side == 'x' then AMD64.1 else ARM64.1
  }

  function RunsOn(side: char): Platform {
    Platform(Some("linux"), Some(Architecture(side)), None, false)
  }

  function TermsOf(side: char, tag: Tag): Terms {
    Terms({("linux", Architecture(side))}, tag.version, tag.revision)
  }

  /** A blob of two characters, named by itself: the side and what it is. */
  function Part(side: char, kind: char, mediaType: string): Descriptor {
    Descriptor(mediaType, [side, kind], 2, None, map[], None, false, None)
  }

  function Image(side: char): Descriptor {
    Part(side, 'm', MANIFEST).(platform := Some(RunsOn(side)))
  }

  function Dots(k: nat): string {
    seq(k, _ => '.')
  }

  /** The attestation with number k, told apart from the others by its length. */
  function Seal(side: char, k: nat): Descriptor {
    Descriptor(MANIFEST, [side, 'a'] + Dots(k), k + 2, Some(UNKNOWN),
               map[REFERENCE_TYPE := "attestation-manifest", REFERENCE_DIGEST := [side, 'm']], None, false, None)
  }

  function Leaves(side: char, n: nat): seq<Descriptor> {
    if n == 0 then [Image(side)] else Leaves(side, n - 1) + [Seal(side, n - 1)]
  }

  function Contents(side: char, n: nat): set<string> {
    {[side, 'm'], [side, 'c'], [side, 'u'], [side, 's']} + set k | 0 <= k < n :: [side, 'a'] + Dots(k)
  }

  function BlobsOf(side: char, n: nat): Blobs {
    map t | t in Contents(side, n) :: t
  }

  /** What the contents say; the text "index" is the merged index. */
  function Decoded(index: seq<Descriptor>, tag: Tag, text: string): Option<Data> {
    if text == "index" then Some(IndexOf(index))
    else if |text| < 2 then None
    else
      var side := text[0];
      match text[1]
      case 'm' => Some(BLANK.(config := Some(Part(side, 'c', CONFIG)), layers := Some([])))
      case 'c' =>
        Some(BLANK.(platform := RunsOn(side), diffIds := Some([]),
                    labels := Some(map[VERSION_LABEL := tag.version, REVISION_LABEL := tag.revision])))
      case 'a' => Some(BLANK.(config := Some(Part(side, 'u', CONFIG)), layers := Some([Part(side, 's', IN_TOTO)])))
      case 'u' => Some(BLANK.(platform := UNKNOWN))
      case 's' => Some(BLANK.(statementType := Some("https://in-toto.io/Statement/v1"),
                              predicateType := Some("https://slsa.dev/provenance/v1"), statementDigests := [[side, 'm']]))
      case _ => None
  }

  function CodecOf(index: seq<Descriptor>, tag: Tag): Codec {
    Codec(text => text, text => Decoded(index, tag, text), (mediaType, text) => Some(text))
  }

  lemma ImageIsComplete(index: seq<Descriptor>, tag: Tag, side: char, n: nat)
    requires side in {'x', 'y'}
    ensures LeafComplete(CodecOf(index, tag), TermsOf(side, tag), BlobsOf(side, n), Image(side))
    ensures LoadOf(CodecOf(index, tag), BlobsOf(side, n), Image(side)) == Load(0, 4)
    ensures Read(CodecOf(index, tag), BlobsOf(side, n), Image(side), {INDEX, MANIFEST})
         == Some(BLANK.(config := Some(Part(side, 'c', CONFIG)), layers := Some([])))
  {
    var codec, blobs, data := CodecOf(index, tag), BlobsOf(side, n), Decoded(index, tag, [side, 'm']).value;
    assert Read(codec, blobs, Image(side), {INDEX, MANIFEST}) == Some(data);
    assert Read(codec, blobs, Part(side, 'c', CONFIG), {CONFIG}) == Decoded(index, tag, [side, 'c']);
    assert ImageComplete(codec, TermsOf(side, tag), blobs, Image(side), data);
  }

  lemma SealIsRead(index: seq<Descriptor>, tag: Tag, side: char, n: nat, k: nat)
    requires side in {'x', 'y'} && k < n < MAX_VISITED
    ensures Read(CodecOf(index, tag), BlobsOf(side, n), Seal(side, k), {INDEX, MANIFEST})
         == Some(BLANK.(config := Some(Part(side, 'u', CONFIG)), layers := Some([Part(side, 's', IN_TOTO)])))
  {
    var text := Seal(side, k).digest;
    assert text in Contents(side, n) && |text| == k + 2 && text[0] == side && text[1] == 'a';
    assert text != "index" by { assert "index"[0] == 'i'; }
    assert Decoded(index, tag, text)
        == Some(BLANK.(config := Some(Part(side, 'u', CONFIG)), layers := Some([Part(side, 's', IN_TOTO)])));
  }

  lemma SealIsOldStyle(index: seq<Descriptor>, tag: Tag, side: char, n: nat, k: nat, data: Data)
    requires side in {'x', 'y'} && k < n < MAX_VISITED && data.subject.None?
    ensures OldStyle(CodecOf(index, tag), BlobsOf(side, n), Seal(side, k), data, Part(side, 'u', CONFIG))
  {
    assert Read(CodecOf(index, tag), BlobsOf(side, n), Part(side, 'u', CONFIG), {CONFIG}) == Decoded(index, tag, [side, 'u']);
  }

  lemma SealIsStated(index: seq<Descriptor>, tag: Tag, side: char, n: nat)
    requires side in {'x', 'y'}
    ensures StatementAbout(CodecOf(index, tag), BlobsOf(side, n), Part(side, 's', IN_TOTO), [side, 'm'])
  {
    assert ReadUpTo(CodecOf(index, tag), BlobsOf(side, n), Part(side, 's', IN_TOTO), {IN_TOTO}, MAX_ATTESTATION_JSON)
        == Decoded(index, tag, [side, 's']);
  }

  lemma SealIsComplete(index: seq<Descriptor>, tag: Tag, side: char, n: nat, k: nat)
    requires side in {'x', 'y'} && k < n < MAX_VISITED
    ensures LeafComplete(CodecOf(index, tag), TermsOf(side, tag), BlobsOf(side, n), Seal(side, k))
  {
    hide OldStyle, StatementAbout, Read, Decoded, BlobsOf, CodecOf, TermsOf;
    SealIsRead(index, tag, side, n, k);
    var codec, blobs, seal := CodecOf(index, tag), BlobsOf(side, n), Seal(side, k);
    var data := Read(codec, blobs, seal, {INDEX, MANIFEST}).value;
    SealIsOldStyle(index, tag, side, n, k, data);
    SealIsStated(index, tag, side, n);
    assert AttestationComplete(codec, TermsOf(side, tag), blobs, seal, data);
  }

  lemma SealIsSmall(index: seq<Descriptor>, tag: Tag, side: char, n: nat, k: nat)
    requires side in {'x', 'y'} && k < n < MAX_VISITED
    ensures LoadOf(CodecOf(index, tag), BlobsOf(side, n), Seal(side, k)) == Load(0, k + 6)
  {
    SealIsRead(index, tag, side, n, k);
    hide Read, Decoded, BlobsOf, CodecOf;
    var layers := [Part(side, 's', IN_TOTO)];
    assert layers[..0] == [] && SizeOf(layers) == 2;
  }

  lemma {:induction false} LeafAt(side: char, n: nat, i: nat)
    requires i <= n
    ensures |Leaves(side, n)| == n + 1 && Leaves(side, n)[i] == if i == 0 then Image(side) else Seal(side, i - 1)
  {
    if n > 0 {
      LeafAt(side, n - 1, if i < n then i else 0);
    }
  }

  lemma LeavesAre(side: char, n: nat)
    ensures |Leaves(side, n)| == n + 1 && Distinct(Leaves(side, n))
    ensures forall d | d in Leaves(side, n) :: d.digest != "" && d.digest[0] == side
  {
    forall i | 0 <= i <= n
      ensures |Leaves(side, n)| == n + 1 && Leaves(side, n)[i] == if i == 0 then Image(side) else Seal(side, i - 1)
    {
      LeafAt(side, n, i);
    }
    LeafAt(side, n, 0);
    forall i, j | 0 <= i < j <= n ensures Leaves(side, n)[i].digest != Leaves(side, n)[j].digest {
      DigestsDiffer(side, i, j);
    }
  }

  lemma DigestsDiffer(side: char, i: nat, j: nat)
    ensures j > 0 && i != j ==> (if i == 0 then Image(side) else Seal(side, i - 1)).digest != Seal(side, j - 1).digest
  {
    if j > 0 {
      var d := Seal(side, j - 1).digest;
      assert d[1] == 'a' && |d| == j + 1;
    }
  }

  lemma FirstRecord(index: seq<Descriptor>, tag: Tag, side: char, n: nat)
    requires side in {'x', 'y'}
    ensures ImagesAmong(CodecOf(index, tag), BlobsOf(side, n), [Image(side)]) == [Image(side)]
    ensures SubjectsAmong(CodecOf(index, tag), BlobsOf(side, n), [Image(side)]) == []
  {
    ImageIsComplete(index, tag, side, n);
    hide Read, CodecOf, BlobsOf, LeafComplete, LoadOf;
    var codec, blobs := CodecOf(index, tag), BlobsOf(side, n);
    RecordsAdded(codec, blobs, [], Image(side), Read(codec, blobs, Image(side), {INDEX, MANIFEST}).value);
    assert [] + [Image(side)] == [Image(side)];
  }

  lemma NextRecord(index: seq<Descriptor>, tag: Tag, side: char, n: nat, k: nat, front: seq<Descriptor>)
    requires side in {'x', 'y'} && k < n < MAX_VISITED
    ensures var codec, blobs := CodecOf(index, tag), BlobsOf(side, n);
            && ImagesAmong(codec, blobs, front + [Seal(side, k)]) == ImagesAmong(codec, blobs, front)
            && SubjectsAmong(codec, blobs, front + [Seal(side, k)]) == SubjectsAmong(codec, blobs, front) + [[side, 'm']]
  {
    SealIsRead(index, tag, side, n, k);
    hide Read, CodecOf, BlobsOf;
    var codec, blobs := CodecOf(index, tag), BlobsOf(side, n);
    RecordsAdded(codec, blobs, front, Seal(side, k), Read(codec, blobs, Seal(side, k), {INDEX, MANIFEST}).value);
  }

  lemma {:induction false} LeavesLoad(index: seq<Descriptor>, tag: Tag, side: char, n: nat, m: nat)
    requires side in {'x', 'y'} && m <= n < MAX_VISITED
    ensures var load := TotalLoad(CodecOf(index, tag), BlobsOf(side, n), Leaves(side, m));
            load.rootfs == 0 && load.metadata <= 2000 * (m + 1)
    ensures forall d | d in Leaves(side, m) :: LeafComplete(CodecOf(index, tag), TermsOf(side, tag), BlobsOf(side, n), d)
    ensures ImagesAmong(CodecOf(index, tag), BlobsOf(side, n), Leaves(side, m)) == [Image(side)]
    ensures forall s | s in SubjectsAmong(CodecOf(index, tag), BlobsOf(side, n), Leaves(side, m)) :: s == [side, 'm']
  {
    hide LoadOf, LeafComplete, Read, CodecOf, BlobsOf, TotalLoad, ImagesAmong, SubjectsAmong, TermsOf, Seal, Image;
    var codec, blobs := CodecOf(index, tag), BlobsOf(side, n);
    if m == 0 {
      ImageIsComplete(index, tag, side, n);
      FirstRecord(index, tag, side, n);
      OneLoad(codec, blobs, Image(side));
    } else {
      var front, seal := Leaves(side, m - 1), Seal(side, m - 1);
      LeavesLoad(index, tag, side, n, m - 1);
      SealIsComplete(index, tag, side, n, m - 1);
      NextRecord(index, tag, side, n, m - 1, front);
      SealIsSmall(index, tag, side, n, m - 1);
      TotalLoadJoins(codec, blobs, front, [seal]);
      OneLoad(codec, blobs, seal);
    }
  }

  /** An index of complete leaves opens when they are few and small enough. */
  lemma FlatOpens(codec: Codec, terms: Terms, blobs: Blobs, leaves: seq<Descriptor>, bytes: nat)
    requires forall d | d in leaves :: LeafComplete(codec, terms, blobs, d)
    requires 0 < |leaves| <= MAX_VISITED && Distinct(leaves)
    requires var load := TotalLoad(codec, blobs, leaves);
             load.rootfs <= MAX_ROOTFS_BYTES && bytes + load.metadata <= MAX_JSON_TOTAL
    requires IsNative(ImagesAmong(codec, blobs, leaves), SubjectsAmong(codec, blobs, leaves))
    ensures Opens(codec, terms, blobs, IndexOf(leaves), bytes)
  {
    hide LeafComplete, Passes, Distinct, TotalLoad, ImagesAmong, SubjectsAmong, IsNative, BelowIndex, After, IndexOf;
    FlatIsBelow(codec, terms, blobs, leaves);
    PassesWhenComplete(codec, terms, blobs, bytes, leaves, |leaves|, 0);
  }

  lemma FlatIsBelow(codec: Codec, terms: Terms, blobs: Blobs, leaves: seq<Descriptor>)
    requires (forall d | d in leaves :: LeafComplete(codec, terms, blobs, d)) && 0 < |leaves| <= MAX_VISITED
    ensures BelowIndex(codec, blobs, IndexOf(leaves), 0) == Some(Survey(leaves, |leaves|, 0))
  {
    forall d | d in leaves ensures LeafPresent(codec, blobs, d) { CompleteIsPresent(codec, terms, blobs, d); }
    hide LeafComplete, LeafPresent, BelowAll;
    PresentAreLeaves(codec, blobs, leaves, 0);
  }

  /** Such an input opens as long as its own walk has room. */
  lemma InputOpens(index: seq<Descriptor>, tag: Tag, side: char, n: nat, bytes: nat)
    requires side in {'x', 'y'} && n < MAX_VISITED && bytes <= MAX_JSON
    ensures Opens(CodecOf(index, tag), TermsOf(side, tag), BlobsOf(side, n), IndexOf(Leaves(side, n)), bytes)
    ensures Input(CodecOf(index, tag), TermsOf(side, tag), BlobsOf(side, n), Leaves(side, n))
    ensures var load := TotalLoad(CodecOf(index, tag), BlobsOf(side, n), Leaves(side, n));
            load.rootfs == 0 && load.metadata <= 2_048_000
  {
    assert Checked(CodecOf(index, tag), BlobsOf(side, n));
    assert Image(side).digest == [side, 'm'];
    hide LeafComplete, CodecOf, TermsOf, BlobsOf, Leaves, Distinct, TotalLoad, ImagesAmong, SubjectsAmong, Checked, Opens,
         Image, IndexOf;
    LeavesAre(side, n);
    LeavesLoad(index, tag, side, n, n);
    FlatOpens(CodecOf(index, tag), TermsOf(side, tag), BlobsOf(side, n), Leaves(side, n), bytes);
  }

  lemma SidesAreApart(m: nat, n: nat)
    ensures Apart(Leaves('x', m), Leaves('y', n)) && |Leaves('x', m)| == m + 1 && |Leaves('y', n)| == n + 1
  {
    LeavesAre('x', m);
    LeavesAre('y', n);
    hide Leaves;
  }

  lemma FitsByCount(codec: Codec, a: Blobs, left: seq<Descriptor>, b: Blobs, right: seq<Descriptor>, inner: string, bytes: nat)
    requires Apart(left, right) && 0 < |left| && |inner| <= MAX_JSON && bytes <= MAX_JSON
    requires TotalLoad(codec, a, left).rootfs == 0 && TotalLoad(codec, a, left).metadata <= 2_048_000
    requires TotalLoad(codec, b, right).rootfs == 0 && TotalLoad(codec, b, right).metadata <= 2_048_000
    ensures Fits(codec, a, left, b, right, inner, bytes) <==> |left| + |right| <= 1023
  {
    hide TotalLoad, Apart;
  }

  /** A walk under the terms of both platforms accepts the merged archive. */
  predicate MergeIsAccepted(codec: Codec, tag: Tag, a: Blobs, b: Blobs, inner: string, bytes: nat) {
    WalkFrom(codec, BothTerms(tag.version, tag.revision), MergedBlobs(codec, a, b, inner),
             RootOf(codec.sha(inner), |inner|), bytes).Some?
  }

  lemma AcceptedWhenFitting(codec: Codec, tag: Tag, a: Blobs, left: seq<Descriptor>, b: Blobs, right: seq<Descriptor>,
                            inner: string, bytes: nat)
    requires Input(codec, Terms({AMD64}, tag.version, tag.revision), a, left) && Injective(codec)
    requires Input(codec, Terms({ARM64}, tag.version, tag.revision), b, right)
    requires ReadsBack(codec, inner, SortLeaves(left + right))
    ensures MergeIsAccepted(codec, tag, a, b, inner, bytes) <==> Fits(codec, a, left, b, right, inner, bytes)
  {
    hide TotalLoad, SortLeaves, WalkFrom, Input, Injective, ReadsBack, MergedBlobs, RootOf, BothTerms, Fits;
    MergedWalk(codec, tag.version, tag.revision, a, left, b, right, inner, bytes);
  }

  lemma TermsAre(tag: Tag)
    ensures TermsOf('x', tag) == Terms({AMD64}, tag.version, tag.revision)
    ensures TermsOf('y', tag) == Terms({ARM64}, tag.version, tag.revision)
  {
  }

  /**
   * Two inputs that both open. Merged, they make an archive that a walk accepts exactly when they have at
   * most 1023 leaves together, so 511 attestations a side are one too many.
   */
  lemma RoomForMerge(tag: Tag, m: nat, n: nat, bytes: nat)
    requires m < MAX_VISITED && n < MAX_VISITED && bytes <= MAX_JSON
    ensures var index := SortLeaves(Leaves('x', m) + Leaves('y', n));
            var codec, a, b := CodecOf(index, tag), BlobsOf('x', m), BlobsOf('y', n);
            && Opens(codec, TermsOf('x', tag), a, IndexOf(Leaves('x', m)), bytes)
            && Opens(codec, TermsOf('y', tag), b, IndexOf(Leaves('y', n)), bytes)
    ensures var index := SortLeaves(Leaves('x', m) + Leaves('y', n));
            var codec, a, b := CodecOf(index, tag), BlobsOf('x', m), BlobsOf('y', n);
            MergeIsAccepted(codec, tag, a, b, "index", bytes) <==> (m + 1) + (n + 1) <= 1023
  {
    var left, right := Leaves('x', m), Leaves('y', n);
    var index := SortLeaves(left + right);
    var codec, a, b := CodecOf(index, tag), BlobsOf('x', m), BlobsOf('y', n);
    assert ReadsBack(codec, "index", index) && Injective(codec);
    hide CodecOf, BlobsOf, Leaves, TotalLoad, SortLeaves, Opens, WalkFrom, Input, Injective, ReadsBack, MergedBlobs, RootOf,
         TermsOf, BothTerms, IndexOf, Apart, MergeIsAccepted, Fits;
    InputOpens(index, tag, 'x', m, bytes);
    InputOpens(index, tag, 'y', n, bytes);
    SidesAreApart(m, n);
    TermsAre(tag);
    AcceptedWhenFitting(codec, tag, a, left, b, right, "index", bytes);
    FitsByCount(codec, a, left, b, right, "index", bytes);
  }
}

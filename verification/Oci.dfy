/**
 * The OCI archive walk of scripts/merge_oci_archives.py. Hashing, JSON decoding and layer decompression
 * are parameters; blobs are named by the digest of their content.
 */
module Oci {
  import opened Wrappers

  const INDEX := "application/vnd.oci.image.index.v1+json"
  const MANIFEST := "application/vnd.oci.image.manifest.v1+json"
  const CONFIG := "application/vnd.oci.image.config.v1+json"
  const EMPTY_CONFIG := "application/vnd.oci.empty.v1+json"
  const ATTESTATION := "application/vnd.docker.attestation.manifest.v1+json"
  const IN_TOTO := "application/vnd.in-toto+json"
  const LAYER_TYPES := {
    "application/vnd.oci.image.layer.v1.tar",
    "application/vnd.oci.image.layer.v1.tar+gzip",
    "application/vnd.oci.image.layer.v1.tar+zstd"
  }
  const STATEMENT_TYPES := {"https://in-toto.io/Statement/v0.1", "https://in-toto.io/Statement/v1"}
  const REFERENCE_TYPE := "vnd.docker.reference.type"
  const REFERENCE_DIGEST := "vnd.docker.reference.digest"
  const VERSION_LABEL := "org.opencontainers.image.version"
  const REVISION_LABEL := "org.opencontainers.image.revision"
  const MAX_JSON := 2_000_000
  const MAX_ATTESTATION_JSON := 16 * 1024 * 1024
  const MAX_JSON_TOTAL := 32_000_000
  const MAX_LAYER_BYTES := 8 * 1024 * 1024 * 1024
  const MAX_ROOTFS_BYTES := 32 * 1024 * 1024 * 1024
  const MAX_DEPTH := 8
  const MAX_VISITED := 1024
  const MAX_LAYERS := 4096

  /** What a descriptor or a configuration says about where an image runs. */
  datatype Platform = Platform(os: Option<string>, architecture: Option<string>, variant: Option<string>,
                               hasRequirements: bool)

  datatype Descriptor = Descriptor(mediaType: string, digest: string, size: nat, platform: Option<Platform>,
                                   annotations: map<string, string>, artifactType: Option<string>,
                                   hasUrls: bool, embedded: Option<string>)

  /** The fields that the walk reads of a decoded document; each is absent or has its right type. */
  datatype Data = Data(isSchema2: bool, mediaType: Option<string>, manifests: Option<seq<Descriptor>>,
                       config: Option<Descriptor>, layers: Option<seq<Descriptor>>, subject: Option<Descriptor>,
                       artifactType: Option<string>, platform: Platform, labels: Option<map<string, string>>,
                       diffIds: Option<seq<string>>, isEmpty: bool, statementType: Option<string>,
                       predicateType: Option<string>, statementDigests: seq<string>)

  type Blobs = map<string, string>

  /** The digest of a content, the decoder of metadata, and the decompression of a layer by media type. */
  datatype Codec = Codec(sha: string -> string, decode: string -> Option<Data>,
                         expand: (string, string) -> Option<string>)

  /** The operating systems and architectures an archive may hold images for, and their labels. */
  datatype Terms = Terms(targets: set<(string, string)>, version: string, revision: string)

  /** The outer inventory: every blob has the digest it is named by. */
  ghost predicate Checked(codec: Codec, blobs: Blobs) {
    forall d | d in blobs :: codec.sha(blobs[d]) == d
  }

  predicate HasBlob(blobs: Blobs, d: Descriptor, types: set<string>) {
    && d.mediaType in types && !d.hasUrls
    && (d.embedded.None? || (d.mediaType == EMPTY_CONFIG && d.embedded == Some("e30=")))
    && d.digest in blobs && |blobs[d.digest]| == d.size
  }

  function ReadUpTo(codec: Codec, blobs: Blobs, d: Descriptor, types: set<string>, limit: nat): Option<Data> {
    if HasBlob(blobs, d, types) && 0 < d.size <= limit then codec.decode(blobs[d.digest]) else None
  }

  function Read(codec: Codec, blobs: Blobs, d: Descriptor, types: set<string>): Option<Data> {
    ReadUpTo(codec, blobs, d, types, MAX_JSON)
  }

  // ---- Layers ----------------------------------------------------------------------------------

  function Expanded(codec: Codec, blobs: Blobs, layer: Descriptor): Option<string> {
    if layer.digest in blobs then codec.expand(layer.mediaType, blobs[layer.digest]) else None
  }

  function ExpandedSize(codec: Codec, blobs: Blobs, layer: Descriptor): nat {
    var x := Expanded(codec, blobs, layer);
    if x.Some? then |x.value| else 0
  }

  function TotalSize(codec: Codec, blobs: Blobs, layers: seq<Descriptor>): nat {
    if layers == [] then 0
    else TotalSize(codec, blobs, layers[..|layers| - 1]) + ExpandedSize(codec, blobs, layers[|layers| - 1])
  }

  /** Expanding a layer anew: its content's digest, unless it cannot be expanded within the limits. */
  function Uncached(codec: Codec, blobs: Blobs, layer: Descriptor, rootfsBytes: nat): Option<string> {
    var x := Expanded(codec, blobs, layer);
    if x.None? || |x.value| > MAX_LAYER_BYTES || rootfsBytes + |x.value| > MAX_ROOTFS_BYTES then None
    else Some(codec.sha(x.value))
  }

  type LayerKey = (string, string)

  /** Every remembered identity is what expanding its layer gives. */
  ghost predicate CacheTrue(codec: Codec, blobs: Blobs, identities: map<LayerKey, (string, nat)>) {
    forall layer: Descriptor | (layer.digest, layer.mediaType) in identities ::
      var x := Expanded(codec, blobs, layer);
      && x.Some? && |x.value| <= MAX_LAYER_BYTES
      && identities[(layer.digest, layer.mediaType)] == (codec.sha(x.value), |x.value|)
  }

  // ---- Leaves ----------------------------------------------------------------------------------

  predicate IsAttestation(d: Descriptor, data: Data) {
    || (REFERENCE_TYPE in d.annotations && d.annotations[REFERENCE_TYPE] == "attestation-manifest")
    || data.artifactType == Some(ATTESTATION)
  }

  predicate IsPlainImage(d: Descriptor, data: Data) {
    d.artifactType.None? && data.artifactType.None? && data.subject.None? && REFERENCE_TYPE !in d.annotations
  }

  predicate LayerIs(codec: Codec, blobs: Blobs, layer: Descriptor, id: string) {
    var x := Expanded(codec, blobs, layer);
    x.Some? && |x.value| <= MAX_LAYER_BYTES && codec.sha(x.value) == id
  }

  function Variants(architecture: string): set<Option<string>> {
    if architecture == "arm64" then {None, Some("v8")} else {None}
  }

  /** Descriptor and configuration name the same expected platform and ask for nothing beyond it. */
  predicate PlatformFits(terms: Terms, platform: Option<Platform>, config: Platform) {
    && platform.Some? && platform.value.os.Some? && platform.value.architecture.Some?
    && platform.value.os == config.os && platform.value.architecture == config.architecture
    && (platform.value.os.value, platform.value.architecture.value) in terms.targets
    && platform.value.variant in Variants(platform.value.architecture.value)
    && config.variant in Variants(platform.value.architecture.value)
    && !platform.value.hasRequirements && !config.hasRequirements
  }

  predicate LabelsFit(terms: Terms, labels: Option<map<string, string>>) {
    && labels.Some? && VERSION_LABEL in labels.value && REVISION_LABEL in labels.value
    && labels.value[VERSION_LABEL] == terms.version && labels.value[REVISION_LABEL] == terms.revision
  }

  /** What an image needs of the blobs: config and layers, each layer expanding to its declared identity. */
  predicate ImageComplete(codec: Codec, terms: Terms, blobs: Blobs, d: Descriptor, data: Data) {
    && data.config.Some? && data.layers.Some? && |data.layers.value| <= MAX_LAYERS
    && (forall layer | layer in data.layers.value :: HasBlob(blobs, layer, LAYER_TYPES))
    && var details := Read(codec, blobs, data.config.value, {CONFIG});
    && details.Some? && PlatformFits(terms, d.platform, details.value.platform) && LabelsFit(terms, details.value.labels)
    && details.value.diffIds.Some? && |details.value.diffIds.value| == |data.layers.value|
    && forall i | 0 <= i < |data.layers.value| ::
         LayerIs(codec, blobs, data.layers.value[i], details.value.diffIds.value[i])
  }

  /** The digest an attestation speaks about. */
  function SubjectOf(d: Descriptor, data: Data): Option<string> {
    if data.artifactType.Some? then (if data.subject.Some? then Some(data.subject.value.digest) else None)
    else if REFERENCE_DIGEST in d.annotations then Some(d.annotations[REFERENCE_DIGEST]) else None
  }

  predicate SaysUnknown(platform: Platform) {
    platform.os == Some("unknown") && platform.architecture == Some("unknown")
  }

  /** A subject may leave its platform out, or parts of it, but not contradict the expected one. */
  predicate SubjectFits(terms: Terms, platform: Option<Platform>) {
    platform.Some? ==>
      && platform.value.os in {None, Some("linux")}
      && exists t :: t in terms.targets && platform.value.architecture in {None, Some(t.1)}
  }

  /** An attestation with an artifact type names its subject itself and has the empty configuration. */
  predicate NewStyle(codec: Codec, terms: Terms, blobs: Blobs, d: Descriptor, data: Data, config: Descriptor) {
    && data.artifactType == Some(ATTESTATION) && d.artifactType in {None, Some(ATTESTATION)}
    && (var details := Read(codec, blobs, config, {EMPTY_CONFIG});
        details.Some? && details.value.isEmpty && config.size == 2 && config.digest == codec.sha("{}"))
    && data.subject.Some? && HasBlob(blobs, data.subject.value, {MANIFEST})
    && SubjectFits(terms, data.subject.value.platform)
    && (REFERENCE_DIGEST in d.annotations ==> d.annotations[REFERENCE_DIGEST] == data.subject.value.digest)
  }

  /** One without is referred to its subject by an annotation and has no runnable configuration. */
  predicate OldStyle(codec: Codec, blobs: Blobs, d: Descriptor, data: Data, config: Descriptor) {
    && d.artifactType.None? && data.subject.None?
    && (var details := Read(codec, blobs, config, {CONFIG}); details.Some? && SaysUnknown(details.value.platform))
    && REFERENCE_DIGEST in d.annotations && d.annotations[REFERENCE_DIGEST] in blobs
  }

  predicate StatementAbout(codec: Codec, blobs: Blobs, layer: Descriptor, subject: string) {
    var statement := ReadUpTo(codec, blobs, layer, {IN_TOTO}, MAX_ATTESTATION_JSON);
    && statement.Some? && statement.value.statementType.Some? && statement.value.statementType.value in STATEMENT_TYPES
    && statement.value.predicateType.Some? && statement.value.predicateType.value != ""
    && subject in statement.value.statementDigests
  }

  predicate AttestationComplete(codec: Codec, terms: Terms, blobs: Blobs, d: Descriptor, data: Data) {
    && d.platform.Some? && SaysUnknown(d.platform.value)
    && (REFERENCE_TYPE in d.annotations ==> d.annotations[REFERENCE_TYPE] == "attestation-manifest")
    && data.config.Some? && data.layers.Some? && 0 < |data.layers.value| <= MAX_LAYERS
    && (if data.artifactType.Some? then NewStyle(codec, terms, blobs, d, data, data.config.value)
        else OldStyle(codec, blobs, d, data, data.config.value))
    && forall layer | layer in data.layers.value :: StatementAbout(codec, blobs, layer, SubjectOf(d, data).value)
  }

  /** A leaf of the graph: its manifest and everything the manifest refers to is in the archive. */
  predicate LeafComplete(codec: Codec, terms: Terms, blobs: Blobs, d: Descriptor) {
    var data := Read(codec, blobs, d, {INDEX, MANIFEST});
    && d.mediaType == MANIFEST && data.Some? && data.value.isSchema2
    && data.value.mediaType in {None, Some(MANIFEST)}
    && (if IsAttestation(d, data.value) then AttestationComplete(codec, terms, blobs, d, data.value)
        else IsPlainImage(d, data.value) && ImageComplete(codec, terms, blobs, d, data.value))
  }

  // ---- What a complete leaf has in the archive -----------------------------------------------------

  /** A blob of the declared size under the declared digest, which is the digest of its content. */
  ghost predicate Stored(codec: Codec, blobs: Blobs, x: Descriptor) {
    x.digest in blobs && |blobs[x.digest]| == x.size && codec.sha(blobs[x.digest]) == x.digest
  }

  /** Content is never fetched from elsewhere, and only the empty configuration may be embedded, as "{}" in base 64. */
  ghost predicate HeldHere(x: Descriptor) {
    && !x.hasUrls
    && (x.embedded.Some? ==> x.mediaType == "application/vnd.oci.empty.v1+json" && x.embedded.value == "e30=")
  }

  ghost predicate IsDocument(codec: Codec, blobs: Blobs, x: Descriptor, mediaType: string, limit: nat, data: Data) {
    && x.mediaType == mediaType && HeldHere(x) && Stored(codec, blobs, x) && 0 < x.size <= limit
    && codec.decode(blobs[x.digest]) == Some(data)
  }

  ghost predicate IsLayer(codec: Codec, blobs: Blobs, x: Descriptor, identity: string) {
    && HeldHere(x) && Stored(codec, blobs, x)
    && (|| x.mediaType == "application/vnd.oci.image.layer.v1.tar"
        || x.mediaType == "application/vnd.oci.image.layer.v1.tar+gzip"
        || x.mediaType == "application/vnd.oci.image.layer.v1.tar+zstd")
    && var content := codec.expand(x.mediaType, blobs[x.digest]);
    && content.Some? && |content.value| <= 8 * 1024 * 1024 * 1024 && codec.sha(content.value) == identity
  }

  /** The same expected system and architecture here and there; arm64 alone may name its variant, v8. */
  ghost predicate RunsAsExpected(terms: Terms, here: Platform, there: Platform) {
    && here.os.Some? && here.architecture.Some? && there.os == here.os && there.architecture == here.architecture
    && (here.os.value, here.architecture.value) in terms.targets
    && (here.variant.Some? ==> here.architecture.value == "arm64" && here.variant.value == "v8")
    && (there.variant.Some? ==> here.architecture.value == "arm64" && there.variant.value == "v8")
    && !here.hasRequirements && !there.hasRequirements
  }

  /** An image: its configuration, with platform and labels as expected, and each layer as the configuration lists it. */
  ghost predicate ImageHolds(codec: Codec, terms: Terms, blobs: Blobs, d: Descriptor, manifest: Data, details: Data) {
    && d.artifactType.None? && manifest.artifactType.None? && manifest.subject.None?
    && "vnd.docker.reference.type" !in d.annotations
    && manifest.config.Some? && manifest.layers.Some? && |manifest.layers.value| <= 4096
    && IsDocument(codec, blobs, manifest.config.value, "application/vnd.oci.image.config.v1+json", 2_000_000, details)
    && d.platform.Some? && RunsAsExpected(terms, d.platform.value, details.platform)
    && details.labels.Some?
    && "org.opencontainers.image.version" in details.labels.value
    && details.labels.value["org.opencontainers.image.version"] == terms.version
    && "org.opencontainers.image.revision" in details.labels.value
    && details.labels.value["org.opencontainers.image.revision"] == terms.revision
    && details.diffIds.Some? && |details.diffIds.value| == |manifest.layers.value|
    && forall i | 0 <= i < |manifest.layers.value| ::
         IsLayer(codec, blobs, manifest.layers.value[i], details.diffIds.value[i])
  }

  ghost predicate IsUnknown(platform: Platform) {
    platform.os == Some("unknown") && platform.architecture == Some("unknown")
  }

  /** A statement of a known type with some predicate about the subject. */
  ghost predicate IsStatement(codec: Codec, blobs: Blobs, x: Descriptor, subject: string, statement: Data) {
    && IsDocument(codec, blobs, x, "application/vnd.in-toto+json", 16 * 1024 * 1024, statement)
    && statement.statementType in {Some("https://in-toto.io/Statement/v0.1"), Some("https://in-toto.io/Statement/v1")}
    && statement.predicateType.Some? && statement.predicateType.value != ""
    && subject in statement.statementDigests
  }

  /** An attestation that names its subject itself, beside an empty configuration. */
  ghost predicate NamesSubject(codec: Codec, terms: Terms, blobs: Blobs, d: Descriptor, manifest: Data, config: Descriptor,
                               details: Data, subject: string)
  {
    && manifest.artifactType == Some("application/vnd.docker.attestation.manifest.v1+json")
    && (d.artifactType.Some? ==> d.artifactType == manifest.artifactType)
    && IsDocument(codec, blobs, config, "application/vnd.oci.empty.v1+json", 2, details)
    && details.isEmpty && config.size == 2 && config.digest == codec.sha("{}")
    && manifest.subject.Some? && manifest.subject.value.digest == subject
    && manifest.subject.value.mediaType == "application/vnd.oci.image.manifest.v1+json"
    && HeldHere(manifest.subject.value) && Stored(codec, blobs, manifest.subject.value)
    && (manifest.subject.value.platform.Some? ==>
          var platform := manifest.subject.value.platform.value;
          && (platform.os.Some? ==> platform.os.value == "linux")
          && exists t | t in terms.targets :: platform.architecture.Some? ==> platform.architecture.value == t.1)
    && ("vnd.docker.reference.digest" in d.annotations ==> d.annotations["vnd.docker.reference.digest"] == subject)
  }

  /** One that an annotation refers to its subject, a blob of the archive, and that cannot be run. */
  ghost predicate IsReferred(codec: Codec, blobs: Blobs, d: Descriptor, manifest: Data, config: Descriptor, details: Data,
                             subject: string)
  {
    && manifest.artifactType.None? && d.artifactType.None? && manifest.subject.None?
    && IsDocument(codec, blobs, config, "application/vnd.oci.image.config.v1+json", 2_000_000, details)
    && IsUnknown(details.platform)
    && "vnd.docker.reference.digest" in d.annotations && d.annotations["vnd.docker.reference.digest"] == subject
    && subject in blobs
  }

  ghost predicate AttestationHolds(codec: Codec, terms: Terms, blobs: Blobs, d: Descriptor, manifest: Data, details: Data,
                                   subject: string)
  {
    && (|| manifest.artifactType == Some("application/vnd.docker.attestation.manifest.v1+json")
        || "vnd.docker.reference.type" in d.annotations)
    && ("vnd.docker.reference.type" in d.annotations ==>
          d.annotations["vnd.docker.reference.type"] == "attestation-manifest")
    && d.platform.Some? && IsUnknown(d.platform.value)
    && manifest.config.Some? && manifest.layers.Some? && 0 < |manifest.layers.value| <= 4096
    && (|| NamesSubject(codec, terms, blobs, d, manifest, manifest.config.value, details, subject)
        || IsReferred(codec, blobs, d, manifest, manifest.config.value, details, subject))
    && forall x | x in manifest.layers.value :: exists statement :: IsStatement(codec, blobs, x, subject, statement)
  }

  ghost predicate IsManifest(codec: Codec, blobs: Blobs, d: Descriptor, manifest: Data) {
    && IsDocument(codec, blobs, d, "application/vnd.oci.image.manifest.v1+json", 2_000_000, manifest)
    && manifest.isSchema2 && (manifest.mediaType.Some? ==> manifest.mediaType.value == d.mediaType)
  }

  ghost predicate HoldsImage(codec: Codec, terms: Terms, blobs: Blobs, d: Descriptor) {
    exists manifest, details ::
      IsManifest(codec, blobs, d, manifest) && ImageHolds(codec, terms, blobs, d, manifest, details)
  }

  ghost predicate HoldsAttestation(codec: Codec, terms: Terms, blobs: Blobs, d: Descriptor, subject: string) {
    exists manifest, details ::
      IsManifest(codec, blobs, d, manifest) && AttestationHolds(codec, terms, blobs, d, manifest, details, subject)
  }

  lemma ReadIsDocument(codec: Codec, blobs: Blobs, x: Descriptor, mediaType: string, limit: nat, data: Data)
    requires Checked(codec, blobs)
    ensures ReadUpTo(codec, blobs, x, {mediaType}, limit) == Some(data) <==>
              IsDocument(codec, blobs, x, mediaType, limit, data)
  {
  }

  lemma LayerIsLayer(codec: Codec, blobs: Blobs, x: Descriptor, identity: string)
    requires Checked(codec, blobs)
    ensures HasBlob(blobs, x, LAYER_TYPES) && LayerIs(codec, blobs, x, identity) <==> IsLayer(codec, blobs, x, identity)
  {
  }

  lemma PlatformRuns(terms: Terms, platform: Option<Platform>, config: Platform)
    ensures PlatformFits(terms, platform, config) <==> platform.Some? && RunsAsExpected(terms, platform.value, config)
  {
    if platform.Some? && platform.value.architecture.Some? {
      VariantAllowed(platform.value.architecture.value, platform.value.variant);
      VariantAllowed(platform.value.architecture.value, config.variant);
    }
    hide Variants;
  }

  lemma VariantAllowed(architecture: string, variant: Option<string>)
    ensures variant in Variants(architecture) <==> (variant.Some? ==> architecture == "arm64" && variant.value == "v8")
  {
  }

  lemma LabelsAre(terms: Terms, labels: Option<map<string, string>>)
    ensures LabelsFit(terms, labels) <==>
              && labels.Some?
              && "org.opencontainers.image.version" in labels.value
              && labels.value["org.opencontainers.image.version"] == terms.version
              && "org.opencontainers.image.revision" in labels.value
              && labels.value["org.opencontainers.image.revision"] == terms.revision
  {
  }

  lemma LayersAre(codec: Codec, blobs: Blobs, layers: seq<Descriptor>, ids: seq<string>)
    requires Checked(codec, blobs) && |ids| == |layers|
    ensures (forall layer | layer in layers :: HasBlob(blobs, layer, LAYER_TYPES))
            && (forall i | 0 <= i < |layers| :: LayerIs(codec, blobs, layers[i], ids[i])) <==>
              forall i | 0 <= i < |layers| :: IsLayer(codec, blobs, layers[i], ids[i])
  {
    hide Checked, HasBlob, LayerIs, IsLayer;
    forall i | 0 <= i < |layers|
      ensures HasBlob(blobs, layers[i], LAYER_TYPES) && LayerIs(codec, blobs, layers[i], ids[i])
         <==> IsLayer(codec, blobs, layers[i], ids[i])
    {
      LayerIsLayer(codec, blobs, layers[i], ids[i]);
    }
  }

  lemma ImageIsHeld(codec: Codec, terms: Terms, blobs: Blobs, d: Descriptor, manifest: Data, details: Data)
    requires Checked(codec, blobs)
    ensures ImageHolds(codec, terms, blobs, d, manifest, details) <==>
              && IsPlainImage(d, manifest) && ImageComplete(codec, terms, blobs, d, manifest)
              && manifest.config.Some? && Read(codec, blobs, manifest.config.value, {CONFIG}) == Some(details)
  {
    hide Checked, HasBlob, ReadUpTo, LayerIs, PlatformFits, LabelsFit, IsDocument, IsLayer, RunsAsExpected, Expanded;
    PlatformRuns(terms, d.platform, details.platform);
    LabelsAre(terms, details.labels);
    if manifest.config.Some? && manifest.layers.Some? {
      ReadIsDocument(codec, blobs, manifest.config.value, CONFIG, MAX_JSON, details);
      if details.diffIds.Some? && |details.diffIds.value| == |manifest.layers.value| {
        LayersAre(codec, blobs, manifest.layers.value, details.diffIds.value);
      }
    }
  }

  lemma StatementIsHeld(codec: Codec, blobs: Blobs, x: Descriptor, subject: string)
    requires Checked(codec, blobs)
    ensures StatementAbout(codec, blobs, x, subject) <==>
              exists statement :: IsStatement(codec, blobs, x, subject, statement)
  {
    hide Checked, ReadUpTo, IsDocument;
    forall statement
      ensures ReadUpTo(codec, blobs, x, {IN_TOTO}, MAX_ATTESTATION_JSON) == Some(statement) <==>
                IsDocument(codec, blobs, x, IN_TOTO, MAX_ATTESTATION_JSON, statement)
    {
      ReadIsDocument(codec, blobs, x, IN_TOTO, MAX_ATTESTATION_JSON, statement);
    }
    if StatementAbout(codec, blobs, x, subject) {
      assert IsStatement(codec, blobs, x, subject, ReadUpTo(codec, blobs, x, {IN_TOTO}, MAX_ATTESTATION_JSON).value);
    }
  }

  lemma EmptyIsDocument(codec: Codec, blobs: Blobs, config: Descriptor, details: Data)
    requires Checked(codec, blobs) && config.size == 2
    ensures Read(codec, blobs, config, {EMPTY_CONFIG}) == Some(details) <==>
              IsDocument(codec, blobs, config, EMPTY_CONFIG, 2, details)
  {
  }

  lemma ManifestIsStored(codec: Codec, blobs: Blobs, x: Descriptor)
    requires Checked(codec, blobs)
    ensures HasBlob(blobs, x, {MANIFEST}) <==> x.mediaType == MANIFEST && HeldHere(x) && Stored(codec, blobs, x)
  {
  }

  lemma SubjectMayRun(terms: Terms, platform: Option<Platform>)
    ensures SubjectFits(terms, platform) <==>
              (platform.Some? ==>
                 && (platform.value.os.Some? ==> platform.value.os.value == "linux")
                 && exists t | t in terms.targets ::
                      platform.value.architecture.Some? ==> platform.value.architecture.value == t.1)
  {
    if platform.Some? {
      assert forall x: Option<string>, s :: x in {None, Some(s)} <==> (x.Some? ==> x.value == s);
    }
  }

  lemma SubjectIsNamed(codec: Codec, terms: Terms, blobs: Blobs, d: Descriptor, data: Data, config: Descriptor,
                       details: Data, subject: string)
    requires Checked(codec, blobs)
    ensures NamesSubject(codec, terms, blobs, d, data, config, details, subject) <==>
              && NewStyle(codec, terms, blobs, d, data, config) && SubjectOf(d, data) == Some(subject)
              && Read(codec, blobs, config, {EMPTY_CONFIG}) == Some(details)
  {
    hide Checked, ReadUpTo, IsDocument, HasBlob, HeldHere, Stored, SubjectFits;
    if config.size == 2 { EmptyIsDocument(codec, blobs, config, details); }
    if data.subject.Some? {
      ManifestIsStored(codec, blobs, data.subject.value);
      SubjectMayRun(terms, data.subject.value.platform);
    }
  }

  lemma SubjectIsReferred(codec: Codec, blobs: Blobs, d: Descriptor, data: Data, config: Descriptor, details: Data,
                          subject: string)
    requires Checked(codec, blobs)
    ensures IsReferred(codec, blobs, d, data, config, details, subject) <==>
              && data.artifactType.None? && OldStyle(codec, blobs, d, data, config) && SubjectOf(d, data) == Some(subject)
              && Read(codec, blobs, config, {CONFIG}) == Some(details)
  {
    hide Checked, ReadUpTo, IsDocument;
    ReadIsDocument(codec, blobs, config, CONFIG, MAX_JSON, details);
  }

  function ConfigTypes(manifest: Data): set<string> {
    if manifest.artifactType.Some? then {EMPTY_CONFIG} else {CONFIG}
  }

  lemma AttestationIsHeld(codec: Codec, terms: Terms, blobs: Blobs, d: Descriptor, manifest: Data, details: Data,
                          subject: string)
    requires Checked(codec, blobs)
    ensures AttestationHolds(codec, terms, blobs, d, manifest, details, subject) <==>
              && IsAttestation(d, manifest) && AttestationComplete(codec, terms, blobs, d, manifest)
              && SubjectOf(d, manifest) == Some(subject) && manifest.config.Some?
              && Read(codec, blobs, manifest.config.value, ConfigTypes(manifest)) == Some(details)
  {
    hide Checked, NewStyle, OldStyle, NamesSubject, IsReferred, StatementAbout, IsStatement, SubjectOf, Read;
    if manifest.config.Some? && manifest.layers.Some? {
      var config, layers := manifest.config.value, manifest.layers.value;
      StyleIs(codec, terms, blobs, d, manifest, config, details, subject);
      forall layer | layer in layers
        ensures StatementAbout(codec, blobs, layer, subject) <==>
                  exists statement :: IsStatement(codec, blobs, layer, subject, statement)
      {
        StatementIsHeld(codec, blobs, layer, subject);
      }
    }
  }

  lemma StyleIs(codec: Codec, terms: Terms, blobs: Blobs, d: Descriptor, manifest: Data, config: Descriptor, details: Data,
                subject: string)
    requires Checked(codec, blobs)
    ensures NamesSubject(codec, terms, blobs, d, manifest, config, details, subject)
            || IsReferred(codec, blobs, d, manifest, config, details, subject) <==>
              && (if manifest.artifactType.Some? then NewStyle(codec, terms, blobs, d, manifest, config)
                  else OldStyle(codec, blobs, d, manifest, config))
              && SubjectOf(d, manifest) == Some(subject)
              && Read(codec, blobs, config, ConfigTypes(manifest)) == Some(details)
    ensures (if manifest.artifactType.Some? then NewStyle(codec, terms, blobs, d, manifest, config)
             else OldStyle(codec, blobs, d, manifest, config)) ==>
              SubjectOf(d, manifest).Some? && Read(codec, blobs, config, ConfigTypes(manifest)).Some?
    ensures manifest.artifactType.Some? && NewStyle(codec, terms, blobs, d, manifest, config) ==>
              manifest.artifactType == Some(ATTESTATION)
  {
    SubjectIsNamed(codec, terms, blobs, d, manifest, config, details, subject);
    SubjectIsReferred(codec, blobs, d, manifest, config, details, subject);
    hide Checked, ReadUpTo, IsDocument, HasBlob, HeldHere, Stored, SubjectFits;
  }

  lemma ManifestIsRead(codec: Codec, blobs: Blobs, d: Descriptor, manifest: Data)
    requires Checked(codec, blobs)
    ensures IsManifest(codec, blobs, d, manifest) <==>
              && d.mediaType == MANIFEST && Read(codec, blobs, d, {INDEX, MANIFEST}) == Some(manifest)
              && manifest.isSchema2 && manifest.mediaType in {None, Some(MANIFEST)}
  {
    assert manifest.mediaType in {None, Some(MANIFEST)} <==>
             (manifest.mediaType.Some? ==> manifest.mediaType.value == MANIFEST);
    hide Checked;
    if d.mediaType == MANIFEST { ManifestTypes(codec, blobs, d, manifest); }
  }

  lemma ManifestTypes(codec: Codec, blobs: Blobs, d: Descriptor, manifest: Data)
    requires Checked(codec, blobs) && d.mediaType == MANIFEST
    ensures Read(codec, blobs, d, {INDEX, MANIFEST}) == Some(manifest) <==>
              IsDocument(codec, blobs, d, MANIFEST, MAX_JSON, manifest)
  {
  }

  /** A complete leaf by the kind its manifest gives it. */
  lemma LeafIsHeld(codec: Codec, terms: Terms, blobs: Blobs, d: Descriptor, manifest: Data)
    requires Checked(codec, blobs) && Read(codec, blobs, d, {INDEX, MANIFEST}) == Some(manifest)
    ensures HoldsImage(codec, terms, blobs, d) <==> LeafComplete(codec, terms, blobs, d) && !IsAttestation(d, manifest)
    ensures forall subject :: HoldsAttestation(codec, terms, blobs, d, subject) <==>
              LeafComplete(codec, terms, blobs, d) && IsAttestation(d, manifest) && SubjectOf(d, manifest) == Some(subject)
  {
    hide Checked, IsManifest, ImageHolds, AttestationHolds, ImageComplete, AttestationComplete, IsAttestation, IsPlainImage,
         SubjectOf, ReadUpTo;
    forall x ensures IsManifest(codec, blobs, d, x) <==>
                       && d.mediaType == MANIFEST && x == manifest && manifest.isSchema2
                       && manifest.mediaType in {None, Some(MANIFEST)}
    {
      ManifestIsRead(codec, blobs, d, x);
    }
    forall details ensures ImageHolds(codec, terms, blobs, d, manifest, details) <==>
                             && IsPlainImage(d, manifest) && ImageComplete(codec, terms, blobs, d, manifest)
                             && manifest.config.Some? && Read(codec, blobs, manifest.config.value, {CONFIG}) == Some(details)
    {
      ImageIsHeld(codec, terms, blobs, d, manifest, details);
    }
    forall details, subject ensures AttestationHolds(codec, terms, blobs, d, manifest, details, subject) <==>
                                      && IsAttestation(d, manifest) && AttestationComplete(codec, terms, blobs, d, manifest)
                                      && SubjectOf(d, manifest) == Some(subject)
                                      && manifest.config.Some?
                                      && Read(codec, blobs, manifest.config.value, ConfigTypes(manifest)) == Some(details)
    {
      AttestationIsHeld(codec, terms, blobs, d, manifest, details, subject);
    }
    KindsExclude(codec, terms, blobs, d, manifest);
  }

  lemma KindsExclude(codec: Codec, terms: Terms, blobs: Blobs, d: Descriptor, manifest: Data)
    ensures IsPlainImage(d, manifest) ==> !IsAttestation(d, manifest)
    ensures ImageComplete(codec, terms, blobs, d, manifest) ==>
              manifest.config.Some? && Read(codec, blobs, manifest.config.value, {CONFIG}).Some?
    ensures AttestationComplete(codec, terms, blobs, d, manifest) ==>
              manifest.config.Some? && Read(codec, blobs, manifest.config.value, ConfigTypes(manifest)).Some?
  {
    hide ReadUpTo, HasBlob, LayerIs, PlatformFits, LabelsFit, StatementAbout;
  }

  /** Complete leaves are exactly the images and the attestations that are held in full. */
  lemma CompleteMeans(codec: Codec, terms: Terms, blobs: Blobs, d: Descriptor)
    requires Checked(codec, blobs)
    ensures LeafComplete(codec, terms, blobs, d) <==>
              || HoldsImage(codec, terms, blobs, d)
              || exists subject :: HoldsAttestation(codec, terms, blobs, d, subject)
  {
    var data := Read(codec, blobs, d, {INDEX, MANIFEST});
    if data.None? {
      forall x ensures !IsManifest(codec, blobs, d, x) { ManifestIsRead(codec, blobs, d, x); }
    } else {
      LeafIsHeld(codec, terms, blobs, d, data.value);
      hide Checked, ImageComplete, AttestationComplete, IsAttestation, IsPlainImage, ReadUpTo, HoldsImage, HoldsAttestation;
      if LeafComplete(codec, terms, blobs, d) && IsAttestation(d, data.value) {
        AttestationHasSubject(codec, terms, blobs, d, data.value);
      }
    }
  }

  lemma AttestationHasSubject(codec: Codec, terms: Terms, blobs: Blobs, d: Descriptor, data: Data)
    requires Read(codec, blobs, d, {INDEX, MANIFEST}) == Some(data) && IsAttestation(d, data)
    requires LeafComplete(codec, terms, blobs, d)
    ensures SubjectOf(d, data).Some?
  {
    hide Read, HasBlob, ImageComplete, StatementAbout, SubjectFits, SaysUnknown;
  }

  /** One image, and every other leaf an attestation about that image's manifest. */
  ghost predicate OneImageAttested(codec: Codec, terms: Terms, blobs: Blobs, leaves: seq<Descriptor>) {
    exists k | 0 <= k < |leaves| ::
      && HoldsImage(codec, terms, blobs, leaves[k])
      && forall j | 0 <= j < |leaves| && j != k :: HoldsAttestation(codec, terms, blobs, leaves[j], leaves[k].digest)
  }

  // ---- The graph below an index ------------------------------------------------------------------

  /** What a walk comes by: leaves in order, visits, and the bytes of the indexes it reads. */
  datatype Survey = Survey(leaves: seq<Descriptor>, visits: nat, indexBytes: nat)

  const NOTHING := Survey([], 0, 0)

  function Joined(s: Survey, t: Survey): Survey {
    Survey(s.leaves + t.leaves, s.visits + t.visits, s.indexBytes + t.indexBytes)
  }

  /** The graph below a descriptor; nothing when an index is missing, malformed or too deep. */
  function Below(codec: Codec, blobs: Blobs, d: Descriptor, depth: nat): Option<Survey>
    decreases 10 - depth, 0, 0
  {
    if depth > MAX_DEPTH then None
    else
      var data := Read(codec, blobs, d, {INDEX, MANIFEST});
      if data.None? || !data.value.isSchema2 || data.value.mediaType !in {None, Some(d.mediaType)} then None
      else if d.mediaType == INDEX then
        var inner := BelowIndex(codec, blobs, data.value, depth + 1);
        if inner.None? then None else Some(Joined(Survey([], 1, d.size), inner.value))
      else Some(Survey([d], 1, 0))
  }

  function BelowIndex(codec: Codec, blobs: Blobs, data: Data, depth: nat): Option<Survey>
    requires depth <= MAX_DEPTH + 1
    decreases 10 - depth, 2, 0
  {
    if !data.isSchema2 || data.mediaType !in {None, Some(INDEX)} || data.subject.Some? || data.artifactType.Some?
       || data.manifests.None? || !(0 < |data.manifests.value| <= 1024) then None
    else BelowAll(codec, blobs, data.manifests.value, depth)
  }

  function BelowAll(codec: Codec, blobs: Blobs, children: seq<Descriptor>, depth: nat): Option<Survey>
    requires depth <= MAX_DEPTH + 1
    decreases 10 - depth, 1, |children|
  {
    if children == [] then Some(NOTHING)
    else
      var front := BelowAll(codec, blobs, children[..|children| - 1], depth);
      var last := Below(codec, blobs, children[|children| - 1], depth);
      if front.None? || last.None? then None else Some(Joined(front.value, last.value))
  }

  // ---- What the limits count ---------------------------------------------------------------------

  predicate Distinct(leaves: seq<Descriptor>) {
    forall i, j | 0 <= i < j < |leaves| :: leaves[i].digest != leaves[j].digest
  }

  /** The expanded layers of an image and the metadata read for a leaf, in bytes. */
  datatype Load = Load(rootfs: nat, metadata: nat)

  function SizeOf(layers: seq<Descriptor>): nat {
    if layers == [] then 0 else SizeOf(layers[..|layers| - 1]) + layers[|layers| - 1].size
  }

  function LoadOf(codec: Codec, blobs: Blobs, d: Descriptor): Load {
    var data := Read(codec, blobs, d, {INDEX, MANIFEST});
    if data.None? || data.value.config.None? || data.value.layers.None? then Load(0, d.size)
    else
      var config, layers := data.value.config.value, data.value.layers.value;
      if IsAttestation(d, data.value) then Load(0, d.size + config.size + SizeOf(layers))
      else Load(TotalSize(codec, blobs, layers), d.size + config.size)
  }

  function TotalLoad(codec: Codec, blobs: Blobs, leaves: seq<Descriptor>): Load {
    if leaves == [] then Load(0, 0)
    else
      var front, last := TotalLoad(codec, blobs, leaves[..|leaves| - 1]), LoadOf(codec, blobs, leaves[|leaves| - 1]);
      Load(front.rootfs + last.rootfs, front.metadata + last.metadata)
  }

  datatype Progress = Progress(leaves: seq<Descriptor>, visited: nat, rootfsBytes: nat, metadataBytes: nat)

  function After(codec: Codec, blobs: Blobs, at: Progress, s: Survey): Progress {
    var load := TotalLoad(codec, blobs, s.leaves);
    Progress(at.leaves + s.leaves, at.visited + s.visits, at.rootfsBytes + load.rootfs,
             at.metadataBytes + s.indexBytes + load.metadata)
  }

  predicate Within(p: Progress) {
    && Distinct(p.leaves) && p.visited <= MAX_VISITED
    && p.rootfsBytes <= MAX_ROOTFS_BYTES && p.metadataBytes <= MAX_JSON_TOTAL
  }

  /** A part of the graph passes: all its leaves are complete, and no limit is exceeded behind it. */
  predicate Passes(codec: Codec, terms: Terms, blobs: Blobs, at: Progress, s: Survey) {
    Within(After(codec, blobs, at, s)) && forall d | d in s.leaves :: LeafComplete(codec, terms, blobs, d)
  }

  lemma {:induction false} TotalLoadJoins(codec: Codec, blobs: Blobs, a: seq<Descriptor>, b: seq<Descriptor>)
    ensures var x, y := TotalLoad(codec, blobs, a), TotalLoad(codec, blobs, b);
            TotalLoad(codec, blobs, a + b) == Load(x.rootfs + y.rootfs, x.metadata + y.metadata)
  {
    hide LoadOf;
    if b == [] {
      assert a + b == a;
    } else {
      assert (a + b)[..|a + b| - 1] == a + b[..|b| - 1];
      TotalLoadJoins(codec, blobs, a, b[..|b| - 1]);
    }
  }

  lemma WithinGrows(p: Progress, q: Progress)
    requires p.leaves <= q.leaves && p.visited <= q.visited && p.rootfsBytes <= q.rootfsBytes
    requires p.metadataBytes <= q.metadataBytes && Within(q)
    ensures Within(p)
  {
  }

  /** Two parts pass together exactly when the second passes behind the first. */
  lemma PassesInSteps(codec: Codec, terms: Terms, blobs: Blobs, at: Progress, s: Survey, t: Survey)
    ensures After(codec, blobs, at, Joined(s, t)) == After(codec, blobs, After(codec, blobs, at, s), t)
    ensures Passes(codec, terms, blobs, at, Joined(s, t)) <==>
              Passes(codec, terms, blobs, at, s) && Passes(codec, terms, blobs, After(codec, blobs, at, s), t)
  {
    hide TotalLoad, LoadOf, LeafComplete;
    TotalLoadJoins(codec, blobs, s.leaves, t.leaves);
    assert at.leaves + (s.leaves + t.leaves) == (at.leaves + s.leaves) + t.leaves;
    var middle, end := After(codec, blobs, at, s), After(codec, blobs, at, Joined(s, t));
    if Within(end) { WithinGrows(middle, end); }
  }

  /** What every step of a walk keeps. */
  ghost predicate WalkInvariant(codec: Codec, terms: Terms, blobs: Blobs, at: Progress,
                                identities: map<LayerKey, (string, nat)>)
  {
    && Within(at) && (forall d | d in at.leaves :: LeafComplete(codec, terms, blobs, d))
    && at.rootfsBytes == TotalLoad(codec, blobs, at.leaves).rootfs
    && CacheTrue(codec, blobs, identities)
  }

  function ImagesAmong(codec: Codec, blobs: Blobs, leaves: seq<Descriptor>): seq<Descriptor> {
    if leaves == [] then []
    else
      var front, last := ImagesAmong(codec, blobs, leaves[..|leaves| - 1]), leaves[|leaves| - 1];
      var data := Read(codec, blobs, last, {INDEX, MANIFEST});
      if data.Some? && !IsAttestation(last, data.value) then front + [last] else front
  }

  function SubjectsAmong(codec: Codec, blobs: Blobs, leaves: seq<Descriptor>): seq<string> {
    if leaves == [] then []
    else
      var front, last := SubjectsAmong(codec, blobs, leaves[..|leaves| - 1]), leaves[|leaves| - 1];
      var data := Read(codec, blobs, last, {INDEX, MANIFEST});
      if data.Some? && IsAttestation(last, data.value) && SubjectOf(last, data.value).Some?
      then front + [SubjectOf(last, data.value).value] else front
  }

  // ---- The walk ----------------------------------------------------------------------------------

  class Archive {
    const codec: Codec
    const terms: Terms
    const blobs: Blobs
    var leaves: seq<Descriptor>
    /** Image descriptors, and the subject digest of each attestation. */
    var images: seq<Descriptor>
    var attestations: seq<string>
    var visited: nat
    var rootfsBytes: nat
    var metadataBytes: nat
    var identities: map<LayerKey, (string, nat)>

    /** An archive whose layout and root index, of so many bytes, have been read. */
    constructor (codec: Codec, terms: Terms, blobs: Blobs, bytes: nat)
      requires bytes <= MAX_JSON_TOTAL
      ensures this.codec == codec && this.terms == terms && this.blobs == blobs
      ensures Now() == Progress([], 0, 0, bytes) && images == [] && attestations == [] && Valid()
    {
      this.codec, this.terms, this.blobs := codec, terms, blobs;
      leaves, images, attestations := [], [], [];
      visited, rootfsBytes, metadataBytes, identities := 0, 0, bytes, map[];
    }

    ghost function Now(): Progress
      reads this
    {
      Progress(leaves, visited, rootfsBytes, metadataBytes)
    }

    ghost predicate Valid()
      reads this
    {
      && WalkInvariant(codec, terms, blobs, Now(), identities)
      && images == ImagesAmong(codec, blobs, leaves) && attestations == SubjectsAmong(codec, blobs, leaves)
    }

    /** With or without the cache: the same layers pass, with the same digest and the same size. */
    method LayerDigest(layer: Descriptor) returns (checked: Option<string>)
      requires CacheTrue(codec, blobs, identities) && layer.digest in blobs
      modifies this`rootfsBytes, this`identities
      ensures checked == Uncached(codec, blobs, layer, old(rootfsBytes))
      ensures checked.Some? ==> rootfsBytes == old(rootfsBytes) + ExpandedSize(codec, blobs, layer) <= MAX_ROOTFS_BYTES
      ensures CacheTrue(codec, blobs, identities)
    {
      var key := (layer.digest, layer.mediaType);
      if key in identities {
        var (known, size) := identities[key];
        rootfsBytes := rootfsBytes + size;
        if rootfsBytes > MAX_ROOTFS_BYTES {
          return None;
        }
        return Some(known);
      }
      var content := codec.expand(layer.mediaType, blobs[layer.digest]);
      if content.None? || |content.value| > MAX_LAYER_BYTES || rootfsBytes + |content.value| > MAX_ROOTFS_BYTES {
        return None;
      }
      rootfsBytes := rootfsBytes + |content.value|;
      identities := identities[key := (codec.sha(content.value), |content.value|)];
      return Some(codec.sha(content.value));
    }

    /** An image passes exactly when it is complete and the limits on layers and metadata are kept. */
    method Image(d: Descriptor, data: Data) returns (ok: bool)
      requires CacheTrue(codec, blobs, identities)
      modifies this`rootfsBytes, this`metadataBytes, this`identities, this`images
      ensures CacheTrue(codec, blobs, identities)
      ensures ok <==> ImageComplete(codec, terms, blobs, d, data)
                      && old(metadataBytes) + data.config.value.size <= MAX_JSON_TOTAL
                      && (data.layers.value != [] ==>
                            old(rootfsBytes) + TotalSize(codec, blobs, data.layers.value) <= MAX_ROOTFS_BYTES)
      ensures ok ==> rootfsBytes == old(rootfsBytes) + TotalSize(codec, blobs, data.layers.value)
      ensures ok ==> metadataBytes == old(metadataBytes) + data.config.value.size
      ensures ok ==> images == old(images) + [d]
    {
      hide CacheTrue, HasBlob, Read, LayerIs, Uncached, TotalSize, PlatformFits, LabelsFit;
      if data.config.None? {
        return false;
      }
      var details := Read(codec, blobs, data.config.value, {CONFIG});
      if details.None? || metadataBytes + data.config.value.size > MAX_JSON_TOTAL {
        return false;
      }
      metadataBytes := metadataBytes + data.config.value.size;
      if !PlatformFits(terms, d.platform, details.value.platform) || !LabelsFit(terms, details.value.labels) {
        return false;
      }
      if data.layers.None? || |data.layers.value| > MAX_LAYERS {
        return false;
      }
      var layers := data.layers.value;
      for i := 0 to |layers|
        invariant forall k | 0 <= k < i :: HasBlob(blobs, layers[k], LAYER_TYPES)
      {
        if !HasBlob(blobs, layers[i], LAYER_TYPES) {
          assert layers[i] in layers;
          return false;
        }
      }
      var diffIds := details.value.diffIds;
      if diffIds.None? || |diffIds.value| != |layers| {
        return false;
      }
      ok := Layers(layers, diffIds.value);
      if ok {
        images := images + [d];
      }
    }

    /** The layers of one image pass exactly when they have the declared identities and fit. */
    method Layers(layers: seq<Descriptor>, diffIds: seq<string>) returns (ok: bool)
      requires CacheTrue(codec, blobs, identities) && |diffIds| == |layers|
      requires forall k | 0 <= k < |layers| :: HasBlob(blobs, layers[k], LAYER_TYPES)
      modifies this`rootfsBytes, this`identities
      ensures CacheTrue(codec, blobs, identities)
      ensures ok <==> (forall k | 0 <= k < |layers| :: LayerIs(codec, blobs, layers[k], diffIds[k]))
                      && (layers != [] ==> old(rootfsBytes) + TotalSize(codec, blobs, layers) <= MAX_ROOTFS_BYTES)
      ensures ok ==> rootfsBytes == old(rootfsBytes) + TotalSize(codec, blobs, layers)
    {
      hide CacheTrue, HasBlob, LayerIs, Uncached, TotalSize;
      NoLayers(codec, blobs, layers);
      for i := 0 to |layers|
        invariant CacheTrue(codec, blobs, identities)
        invariant rootfsBytes == old(rootfsBytes) + TotalSize(codec, blobs, layers[..i])
        invariant i > 0 ==> rootfsBytes <= MAX_ROOTFS_BYTES
        invariant forall k | 0 <= k < i :: LayerIs(codec, blobs, layers[k], diffIds[k])
      {
        LayerTurn(codec, blobs, layers, i, old(rootfsBytes), rootfsBytes, diffIds[i]);
        var checked := LayerDigest(layers[i]);
        if checked != Some(diffIds[i]) {
          return false;
        }
      }
      return true;
    }

    /** An attestation passes exactly when it is complete and the limit on metadata is kept. */
    method Attestation(d: Descriptor, data: Data) returns (ok: bool)
      modifies this`metadataBytes, this`attestations
      ensures ok <==> AttestationComplete(codec, terms, blobs, d, data)
                      && old(metadataBytes) + data.config.value.size + SizeOf(data.layers.value) <= MAX_JSON_TOTAL
      ensures ok ==> metadataBytes == old(metadataBytes) + data.config.value.size + SizeOf(data.layers.value)
      ensures ok ==> attestations == old(attestations) + [SubjectOf(d, data).value]
    {
      hide StatementAbout, NewStyle, OldStyle, SaysUnknown, SizeOf;
      if d.platform.None? || !SaysUnknown(d.platform.value) {
        return false;
      }
      if REFERENCE_TYPE in d.annotations && d.annotations[REFERENCE_TYPE] != "attestation-manifest" {
        return false;
      }
      if data.config.None? {
        return false;
      }
      var config := data.config.value;
      var subject := AttestedSubject(d, data, config);
      if subject.None? || metadataBytes + config.size > MAX_JSON_TOTAL {
        return false;
      }
      metadataBytes := metadataBytes + config.size;
      if data.layers.None? || !(0 < |data.layers.value| <= MAX_LAYERS) {
        return false;
      }
      var layers := data.layers.value;
      NoStatements(layers);
      for i := 0 to |layers|
        invariant metadataBytes == old(metadataBytes) + config.size + SizeOf(layers[..i]) <= MAX_JSON_TOTAL
        invariant attestations == old(attestations)
        invariant forall k | 0 <= k < i :: StatementAbout(codec, blobs, layers[k], subject.value)
      {
        NextStatement(layers, i);
        if !StatementAbout(codec, blobs, layers[i], subject.value) {
          assert layers[i] in layers;
          return false;
        }
        metadataBytes := metadataBytes + layers[i].size;
        if metadataBytes > MAX_JSON_TOTAL {
          return false;
        }
      }
      attestations := attestations + [subject.value];
      return true;
    }

    /** The subject by either style, unless the rules of that style are broken. */
    method AttestedSubject(d: Descriptor, data: Data, config: Descriptor) returns (subject: Option<string>)
      ensures subject == if (if data.artifactType.Some? then NewStyle(codec, terms, blobs, d, data, config)
                             else OldStyle(codec, blobs, d, data, config))
                         then SubjectOf(d, data) else None
      ensures subject.Some? <==> if data.artifactType.Some? then NewStyle(codec, terms, blobs, d, data, config)
                                 else OldStyle(codec, blobs, d, data, config)
    {
      hide Read, HasBlob, SubjectFits, SaysUnknown;
      if data.artifactType.Some? {
        if data.artifactType != Some(ATTESTATION) || d.artifactType !in {None, Some(ATTESTATION)} {
          return None;
        }
        var details := Read(codec, blobs, config, {EMPTY_CONFIG});
        if details.None? || !details.value.isEmpty || config.size != 2 || config.digest != codec.sha("{}") {
          return None;
        }
        if data.subject.None? || !HasBlob(blobs, data.subject.value, {MANIFEST}) {
          return None;
        }
        if !SubjectFits(terms, data.subject.value.platform) {
          return None;
        }
        if REFERENCE_DIGEST in d.annotations && d.annotations[REFERENCE_DIGEST] != data.subject.value.digest {
          return None;
        }
        return Some(data.subject.value.digest);
      }
      if d.artifactType.Some? || data.subject.Some? {
        return None;
      }
      var details := Read(codec, blobs, config, {CONFIG});
      if details.None? || !SaysUnknown(details.value.platform) {
        return None;
      }
      if REFERENCE_DIGEST !in d.annotations || d.annotations[REFERENCE_DIGEST] !in blobs {
        return None;
      }
      return Some(d.annotations[REFERENCE_DIGEST]);
    }

    /** The children of an index, one after the other: they pass exactly when the graph below does. */
    method WalkIndex(data: Data, depth: nat) returns (ok: bool)
      requires Valid() && depth <= MAX_DEPTH + 1
      modifies this
      ensures var s := BelowIndex(codec, blobs, data, depth);
              && (ok <==> s.Some? && Passes(codec, terms, blobs, old(Now()), s.value))
              && (ok ==> Valid() && Now() == After(codec, blobs, old(Now()), s.value))
      decreases 10 - depth, 1
    {
      hide WalkInvariant, ImagesAmong, SubjectsAmong, Below, Passes, After, BelowAll;
      if !data.isSchema2 || data.mediaType !in {None, Some(INDEX)} {
        return false;
      }
      if data.subject.Some? || data.artifactType.Some? {
        return false;
      }
      if data.manifests.None? || !(0 < |data.manifests.value| <= 1024) {
        return false;
      }
      var manifests := data.manifests.value;
      ghost var at := Now();
      NoChildren(codec, terms, blobs, manifests, depth, at, identities);
      for i := 0 to |manifests|
        invariant Valid()
        invariant var s := BelowAll(codec, blobs, manifests[..i], depth);
                  s.Some? && Passes(codec, terms, blobs, at, s.value) && Now() == After(codec, blobs, at, s.value)
      {
        NextChild(codec, terms, blobs, manifests, depth, i, at);
        ok := Walk(manifests[i], depth);
        if !ok {
          return;
        }
      }
      return true;
    }

    /** One descriptor: an index is followed, a leaf is checked against the blobs and recorded. */
    method Walk(d: Descriptor, depth: nat) returns (ok: bool)
      requires Valid() && depth <= MAX_DEPTH + 1
      modifies this
      ensures var s := Below(codec, blobs, d, depth);
              && (ok <==> s.Some? && Passes(codec, terms, blobs, old(Now()), s.value))
              && (ok ==> Valid() && Now() == After(codec, blobs, old(Now()), s.value))
      decreases 10 - depth, 0
    {
      hide WalkInvariant, ImagesAmong, SubjectsAmong, ImageComplete, AttestationComplete, CacheTrue, Read, BelowIndex,
           Passes, After, TotalLoad, LoadOf, LeafComplete, SizeOf, TotalSize, IsAttestation, IsPlainImage;
      ghost var at, was := Now(), identities;
      visited := visited + 1;
      if depth > MAX_DEPTH {
        return false;
      }
      var data := Read(codec, blobs, d, {INDEX, MANIFEST});
      Overrun(codec, terms, blobs, at, d, depth);
      if visited > MAX_VISITED || data.None? || metadataBytes + d.size > MAX_JSON_TOTAL {
        return false;
      }
      metadataBytes := metadataBytes + d.size;
      if !data.value.isSchema2 || data.value.mediaType !in {None, Some(d.mediaType)} {
        return false;
      }
      if d.mediaType == INDEX {
        IndexVisited(codec, terms, blobs, at, was, d, data.value, depth);
        ok := WalkIndex(data.value, depth + 1);
        return;
      }
      LeafVisited(codec, terms, blobs, at, was, d, data.value);
      if IsAttestation(d, data.value) {
        ok := Attestation(d, data.value);
      } else {
        if !IsPlainImage(d, data.value) {
          return false;
        }
        ok := Image(d, data.value);
      }
      if !ok || exists i :: 0 <= i < |leaves| && leaves[i].digest == d.digest {
        return false;
      }
      leaves := leaves + [d];
      LeafAdded(codec, terms, blobs, at, was, d, data.value, identities);
      return true;
    }
  }

  // ---- Steps of the walk ---------------------------------------------------------------------------

  lemma NoChildren(codec: Codec, terms: Terms, blobs: Blobs, children: seq<Descriptor>, depth: nat, at: Progress,
                   identities: map<LayerKey, (string, nat)>)
    requires depth <= MAX_DEPTH + 1 && WalkInvariant(codec, terms, blobs, at, identities)
    ensures BelowAll(codec, blobs, children[..0], depth) == Some(NOTHING) && children[..|children|] == children
    ensures Passes(codec, terms, blobs, at, NOTHING) && After(codec, blobs, at, NOTHING) == at
  {
    assert at.leaves + [] == at.leaves;
  }

  /** One child more: the children so far pass with it exactly when it passes behind them. */
  lemma NextChild(codec: Codec, terms: Terms, blobs: Blobs, children: seq<Descriptor>, depth: nat, i: nat, at: Progress)
    requires depth <= MAX_DEPTH + 1 && i < |children| && BelowAll(codec, blobs, children[..i], depth).Some?
    requires Passes(codec, terms, blobs, at, BelowAll(codec, blobs, children[..i], depth).value)
    ensures var front := BelowAll(codec, blobs, children[..i], depth).value;
            var last, more := Below(codec, blobs, children[i], depth), BelowAll(codec, blobs, children[..i + 1], depth);
            var now := After(codec, blobs, at, front);
            && (last.Some? <==> more.Some?)
            && (last.Some? ==>
                  && After(codec, blobs, at, more.value) == After(codec, blobs, now, last.value)
                  && (Passes(codec, terms, blobs, at, more.value) <==> Passes(codec, terms, blobs, now, last.value)))
    ensures var more, all := BelowAll(codec, blobs, children[..i + 1], depth), BelowAll(codec, blobs, children, depth);
            all.Some? && Passes(codec, terms, blobs, at, all.value) ==>
              more.Some? && Passes(codec, terms, blobs, at, more.value)
  {
    assert children[..i + 1][..i] == children[..i];
    hide Below, Passes, After;
    var front, last := BelowAll(codec, blobs, children[..i], depth).value, Below(codec, blobs, children[i], depth);
    if last.Some? {
      PassesInSteps(codec, terms, blobs, at, front, last.value);
    }
    FirstChildren(codec, terms, blobs, children, depth, i + 1, at);
  }

  lemma {:induction false} FirstChildren(codec: Codec, terms: Terms, blobs: Blobs, children: seq<Descriptor>, depth: nat,
                                         i: nat, at: Progress)
    requires depth <= MAX_DEPTH + 1 && i <= |children|
    ensures var more, all := BelowAll(codec, blobs, children[..i], depth), BelowAll(codec, blobs, children, depth);
            all.Some? && Passes(codec, terms, blobs, at, all.value) ==>
              more.Some? && Passes(codec, terms, blobs, at, more.value)
    decreases |children|
  {
    hide Below, Passes, After;
    if i == |children| {
      assert children[..i] == children;
    } else if BelowAll(codec, blobs, children, depth).Some? {
      var front := children[..|children| - 1];
      assert front[..i] == children[..i];
      FirstChildren(codec, terms, blobs, front, depth, i, at);
      PassesInSteps(codec, terms, blobs, at, BelowAll(codec, blobs, front, depth).value,
                    Below(codec, blobs, children[|children| - 1], depth).value);
    }
  }

  lemma OneLoad(codec: Codec, blobs: Blobs, d: Descriptor)
    ensures TotalLoad(codec, blobs, [d]) == LoadOf(codec, blobs, d) && LoadOf(codec, blobs, d).metadata >= d.size
  {
    hide TotalSize, SizeOf, Read, IsAttestation;
    assert [d][..0] == [];
  }

  /** Every passing graph has room for the visit and the bytes of its own descriptor. */
  lemma Overrun(codec: Codec, terms: Terms, blobs: Blobs, at: Progress, d: Descriptor, depth: nat)
    requires depth <= MAX_DEPTH
    ensures Below(codec, blobs, d, depth).Some? && Passes(codec, terms, blobs, at, Below(codec, blobs, d, depth).value) ==>
              && Read(codec, blobs, d, {INDEX, MANIFEST}).Some? && at.visited + 1 <= MAX_VISITED
              && at.metadataBytes + d.size <= MAX_JSON_TOTAL
  {
    hide TotalLoad, LoadOf, LeafComplete, BelowIndex, Read;
    OneLoad(codec, blobs, d);
  }

  lemma IndexStep(codec: Codec, terms: Terms, blobs: Blobs, at: Progress, identities: map<LayerKey, (string, nat)>,
                  size: nat)
    requires WalkInvariant(codec, terms, blobs, at, identities)
    requires at.visited + 1 <= MAX_VISITED && at.metadataBytes + size <= MAX_JSON_TOTAL
    ensures var now := at.(visited := at.visited + 1, metadataBytes := at.metadataBytes + size);
            && WalkInvariant(codec, terms, blobs, now, identities) && After(codec, blobs, at, Survey([], 1, size)) == now
            && Passes(codec, terms, blobs, at, Survey([], 1, size))
  {
    hide LoadOf, LeafComplete, CacheTrue;
    assert at.leaves + [] == at.leaves;
  }

  lemma IndexVisited(codec: Codec, terms: Terms, blobs: Blobs, at: Progress, identities: map<LayerKey, (string, nat)>,
                     d: Descriptor, data: Data, depth: nat)
    requires WalkInvariant(codec, terms, blobs, at, identities) && depth <= MAX_DEPTH
    requires Read(codec, blobs, d, {INDEX, MANIFEST}) == Some(data) && d.mediaType == INDEX
    requires data.isSchema2 && data.mediaType in {None, Some(INDEX)}
    requires at.visited + 1 <= MAX_VISITED && at.metadataBytes + d.size <= MAX_JSON_TOTAL
    ensures var now := at.(visited := at.visited + 1, metadataBytes := at.metadataBytes + d.size);
            var s, inner := Below(codec, blobs, d, depth), BelowIndex(codec, blobs, data, depth + 1);
            && WalkInvariant(codec, terms, blobs, now, identities) && (s.Some? <==> inner.Some?)
            && (s.Some? ==>
                  && After(codec, blobs, at, s.value) == After(codec, blobs, now, inner.value)
                  && (Passes(codec, terms, blobs, at, s.value) <==> Passes(codec, terms, blobs, now, inner.value)))
  {
    var step := Survey([], 1, d.size);
    IndexStep(codec, terms, blobs, at, identities, d.size);
    hide LoadOf, LeafComplete, BelowIndex, Read, CacheTrue, Passes, After, WalkInvariant;
    var inner := BelowIndex(codec, blobs, data, depth + 1);
    if inner.Some? {
      PassesInSteps(codec, terms, blobs, at, step, inner.value);
    }
  }

  predicate IsNew(d: Descriptor, leaves: seq<Descriptor>) {
    forall i | 0 <= i < |leaves| :: leaves[i].digest != d.digest
  }

  /** When a leaf passes, said by what is checked of it. */
  lemma LeafVisited(codec: Codec, terms: Terms, blobs: Blobs, at: Progress, identities: map<LayerKey, (string, nat)>,
                    d: Descriptor, data: Data)
    requires WalkInvariant(codec, terms, blobs, at, identities) && at.visited + 1 <= MAX_VISITED
    requires Read(codec, blobs, d, {INDEX, MANIFEST}) == Some(data) && d.mediaType != INDEX
    requires data.isSchema2 && data.mediaType in {None, Some(d.mediaType)}
    ensures CacheTrue(codec, blobs, identities) && at.rootfsBytes <= MAX_ROOTFS_BYTES
    ensures Passes(codec, terms, blobs, at, Survey([d], 1, 0)) <==>
              && IsNew(d, at.leaves)
              && if IsAttestation(d, data) then
                   && AttestationComplete(codec, terms, blobs, d, data)
                   && at.metadataBytes + d.size + data.config.value.size + SizeOf(data.layers.value) <= MAX_JSON_TOTAL
                 else
                   && IsPlainImage(d, data) && ImageComplete(codec, terms, blobs, d, data)
                   && at.metadataBytes + d.size + data.config.value.size <= MAX_JSON_TOTAL
                   && (data.layers.value != [] ==>
                         at.rootfsBytes + TotalSize(codec, blobs, data.layers.value) <= MAX_ROOTFS_BYTES)
  {
    LeafLoad(codec, terms, blobs, d, data);
    OneLoad(codec, blobs, d);
    assert d in [d];
    hide LeafComplete, LoadOf, TotalLoad, CacheTrue, SizeOf, AttestationComplete, ImageComplete, Read, IsAttestation,
         IsPlainImage;
    assert Distinct(at.leaves + [d]) ==> IsNew(d, at.leaves) by {
      if Distinct(at.leaves + [d]) {
        forall i | 0 <= i < |at.leaves| ensures at.leaves[i].digest != d.digest {
          assert (at.leaves + [d])[i] == at.leaves[i] && (at.leaves + [d])[|at.leaves|] == d;
        }
      }
    }
  }

  lemma LeafLoad(codec: Codec, terms: Terms, blobs: Blobs, d: Descriptor, data: Data)
    requires Read(codec, blobs, d, {INDEX, MANIFEST}) == Some(data) && d.mediaType != INDEX
    requires data.isSchema2 && data.mediaType in {None, Some(d.mediaType)}
    ensures LeafComplete(codec, terms, blobs, d) <==>
              if IsAttestation(d, data) then AttestationComplete(codec, terms, blobs, d, data)
              else IsPlainImage(d, data) && ImageComplete(codec, terms, blobs, d, data)
    ensures LeafComplete(codec, terms, blobs, d) ==> data.config.Some? && data.layers.Some?
    ensures LeafComplete(codec, terms, blobs, d) ==>
              LoadOf(codec, blobs, d) ==
                if IsAttestation(d, data) then Load(0, d.size + data.config.value.size + SizeOf(data.layers.value))
                else Load(TotalSize(codec, blobs, data.layers.value), d.size + data.config.value.size)
    ensures data.layers == Some([]) ==> TotalSize(codec, blobs, data.layers.value) == 0
    ensures IsAttestation(d, data) && LeafComplete(codec, terms, blobs, d) ==> SubjectOf(d, data).Some?
  {
    assert d.mediaType == MANIFEST;
    hide SizeOf, TotalSize, StatementAbout, PlatformFits, LabelsFit, LayerIs, SubjectFits;
    NoLayers(codec, blobs, []);
  }

  /** A leaf that passes keeps the invariant and joins the records of its kind. */
  lemma LeafAdded(codec: Codec, terms: Terms, blobs: Blobs, at: Progress, was: map<LayerKey, (string, nat)>,
                  d: Descriptor, data: Data, identities: map<LayerKey, (string, nat)>)
    requires WalkInvariant(codec, terms, blobs, at, was) && CacheTrue(codec, blobs, identities)
    requires Read(codec, blobs, d, {INDEX, MANIFEST}) == Some(data) && d.mediaType != INDEX
    requires data.isSchema2 && data.mediaType in {None, Some(d.mediaType)}
    requires Passes(codec, terms, blobs, at, Survey([d], 1, 0))
    ensures WalkInvariant(codec, terms, blobs, After(codec, blobs, at, Survey([d], 1, 0)), identities)
    ensures data.config.Some? && data.layers.Some?
    ensures After(codec, blobs, at, Survey([d], 1, 0)) ==
              Progress(at.leaves + [d], at.visited + 1,
                       at.rootfsBytes + (if IsAttestation(d, data) then 0 else TotalSize(codec, blobs, data.layers.value)),
                       at.metadataBytes + d.size + data.config.value.size
                       + (if IsAttestation(d, data) then SizeOf(data.layers.value) else 0))
    ensures IsAttestation(d, data) ==> SubjectOf(d, data).Some?
    ensures ImagesAmong(codec, blobs, at.leaves + [d])
         == ImagesAmong(codec, blobs, at.leaves) + if IsAttestation(d, data) then [] else [d]
    ensures SubjectsAmong(codec, blobs, at.leaves + [d])
         == SubjectsAmong(codec, blobs, at.leaves) + if IsAttestation(d, data) then [SubjectOf(d, data).value] else []
  {
    LeafLoad(codec, terms, blobs, d, data);
    OneLoad(codec, blobs, d);
    assert d in [d];
    hide LeafComplete, LoadOf, TotalLoad, CacheTrue, SizeOf, AttestationComplete, ImageComplete, Read, IsAttestation,
         IsPlainImage, SubjectOf, Distinct;
    TotalLoadJoins(codec, blobs, at.leaves, [d]);
    RecordsAdded(codec, blobs, at.leaves, d, data);
  }

  lemma RecordsAdded(codec: Codec, blobs: Blobs, leaves: seq<Descriptor>, d: Descriptor, data: Data)
    requires Read(codec, blobs, d, {INDEX, MANIFEST}) == Some(data)
    requires IsAttestation(d, data) ==> SubjectOf(d, data).Some?
    ensures ImagesAmong(codec, blobs, leaves + [d])
         == ImagesAmong(codec, blobs, leaves) + if IsAttestation(d, data) then [] else [d]
    ensures SubjectsAmong(codec, blobs, leaves + [d])
         == SubjectsAmong(codec, blobs, leaves) + if IsAttestation(d, data) then [SubjectOf(d, data).value] else []
  {
    hide Read, IsAttestation, SubjectOf;
    assert (leaves + [d])[..|leaves|] == leaves;
  }

  /** One more layer: when it is refused, the image is. */
  lemma LayerTurn(codec: Codec, blobs: Blobs, layers: seq<Descriptor>, i: nat, from: nat, now: nat, id: string)
    requires i < |layers| && HasBlob(blobs, layers[i], LAYER_TYPES) && now == from + TotalSize(codec, blobs, layers[..i])
    ensures layers[i].digest in blobs
    ensures TotalSize(codec, blobs, layers[..i + 1])
         == TotalSize(codec, blobs, layers[..i]) + ExpandedSize(codec, blobs, layers[i])
    ensures Uncached(codec, blobs, layers[i], now) == Some(id) ==> LayerIs(codec, blobs, layers[i], id)
    ensures Uncached(codec, blobs, layers[i], now) != Some(id) ==>
              !LayerIs(codec, blobs, layers[i], id) || from + TotalSize(codec, blobs, layers) > MAX_ROOTFS_BYTES
  {
    assert layers[..i + 1][..i] == layers[..i];
    TotalSizeGrows(codec, blobs, layers, i + 1);
  }

  lemma NoLayers(codec: Codec, blobs: Blobs, layers: seq<Descriptor>)
    ensures layers[..0] == [] && layers[..|layers|] == layers && TotalSize(codec, blobs, []) == 0
  {
  }

  lemma {:induction false} TotalSizeGrows(codec: Codec, blobs: Blobs, layers: seq<Descriptor>, i: nat)
    requires i <= |layers|
    ensures TotalSize(codec, blobs, layers[..i]) <= TotalSize(codec, blobs, layers)
  {
    if i < |layers| {
      assert layers[..|layers| - 1][..i] == layers[..i];
      TotalSizeGrows(codec, blobs, layers[..|layers| - 1], i);
    } else {
      assert layers[..i] == layers;
    }
  }

  lemma NoStatements(layers: seq<Descriptor>)
    ensures SizeOf(layers[..0]) == 0 && layers[..|layers|] == layers
  {
  }

  lemma NextStatement(layers: seq<Descriptor>, i: nat)
    requires i < |layers|
    ensures SizeOf(layers[..i + 1]) == SizeOf(layers[..i]) + layers[i].size <= SizeOf(layers)
  {
    assert layers[..i + 1][..i] == layers[..i];
    SizeGrows(layers, i + 1);
  }

  lemma {:induction false} SizeGrows(layers: seq<Descriptor>, i: nat)
    requires i <= |layers|
    ensures SizeOf(layers[..i]) <= SizeOf(layers)
  {
    if i < |layers| {
      assert layers[..|layers| - 1][..i] == layers[..i];
      SizeGrows(layers[..|layers| - 1], i);
    } else {
      assert layers[..i] == layers;
    }
  }

  // ---- Opening an archive ------------------------------------------------------------------------------

  /** The state behind a walk from a root index, unless the walk fails. */
  function WalkFrom(codec: Codec, terms: Terms, blobs: Blobs, root: Data, bytes: nat): Option<Progress> {
    var s := BelowIndex(codec, blobs, root, 0);
    var start := Progress([], 0, 0, bytes);
    if s.Some? && Passes(codec, terms, blobs, start, s.value) then Some(After(codec, blobs, start, s.value)) else None
  }

  /** The whole graph of an input: one image, and attestations about nothing else. */
  predicate IsNative(images: seq<Descriptor>, attestations: seq<string>) {
    |images| == 1 && forall s | s in attestations :: s == images[0].digest
  }

  /** What an input must be: a graph that passes, with one image and nothing about anything else. */
  predicate Opens(codec: Codec, terms: Terms, blobs: Blobs, root: Data, bytes: nat) {
    var end := WalkFrom(codec, terms, blobs, root, bytes);
    end.Some? && IsNative(ImagesAmong(codec, blobs, end.value.leaves), SubjectsAmong(codec, blobs, end.value.leaves))
  }

  lemma {:induction false} Recorded(codec: Codec, terms: Terms, blobs: Blobs, leaves: seq<Descriptor>, k: nat)
    requires Checked(codec, blobs) && (forall d | d in leaves :: LeafComplete(codec, terms, blobs, d)) && k < |leaves|
    ensures || (leaves[k] in ImagesAmong(codec, blobs, leaves) && HoldsImage(codec, terms, blobs, leaves[k]))
            || exists s | s in SubjectsAmong(codec, blobs, leaves) :: HoldsAttestation(codec, terms, blobs, leaves[k], s)
  {
    hide LeafComplete, HoldsImage, HoldsAttestation, Read, IsAttestation, SubjectOf;
    var front, last := leaves[..|leaves| - 1], leaves[|leaves| - 1];
    if k < |front| {
      Recorded(codec, terms, blobs, front, k);
    } else {
      CompleteIsRead(codec, terms, blobs, last);
      var data := Read(codec, blobs, last, {INDEX, MANIFEST}).value;
      LeafIsHeld(codec, terms, blobs, last, data);
      if IsAttestation(last, data) {
        AttestationHasSubject(codec, terms, blobs, last, data);
        assert HoldsAttestation(codec, terms, blobs, leaves[k], SubjectOf(last, data).value);
      }
    }
  }

  lemma CompleteIsRead(codec: Codec, terms: Terms, blobs: Blobs, d: Descriptor)
    requires LeafComplete(codec, terms, blobs, d)
    ensures Read(codec, blobs, d, {INDEX, MANIFEST}).Some?
  {
    hide Read, ImageComplete, AttestationComplete;
  }

  lemma {:induction false} ImageIsLeaf(codec: Codec, terms: Terms, blobs: Blobs, leaves: seq<Descriptor>, d: Descriptor)
    requires Checked(codec, blobs) && (forall x | x in leaves :: LeafComplete(codec, terms, blobs, x))
    requires d in ImagesAmong(codec, blobs, leaves)
    ensures d in leaves && HoldsImage(codec, terms, blobs, d)
  {
    hide LeafComplete, HoldsImage, Read, IsAttestation;
    var front, last := leaves[..|leaves| - 1], leaves[|leaves| - 1];
    if d in ImagesAmong(codec, blobs, front) {
      ImageIsLeaf(codec, terms, blobs, front, d);
    } else {
      LeafIsHeld(codec, terms, blobs, last, Read(codec, blobs, last, {INDEX, MANIFEST}).value);
    }
  }

  /** A native input: the one image and the attestations about it, each held in full. */
  lemma NativeMeans(codec: Codec, terms: Terms, blobs: Blobs, leaves: seq<Descriptor>)
    requires Checked(codec, blobs) && Distinct(leaves) && forall d | d in leaves :: LeafComplete(codec, terms, blobs, d)
    requires IsNative(ImagesAmong(codec, blobs, leaves), SubjectsAmong(codec, blobs, leaves))
    ensures OneImageAttested(codec, terms, blobs, leaves)
  {
    hide LeafComplete, HoldsImage, HoldsAttestation, Read, IsAttestation, SubjectOf, ImagesAmong, SubjectsAmong, Checked;
    var image := ImagesAmong(codec, blobs, leaves)[0];
    ImageIsLeaf(codec, terms, blobs, leaves, image);
    var k :| 0 <= k < |leaves| && leaves[k] == image;
    forall j | 0 <= j < |leaves| && j != k ensures HoldsAttestation(codec, terms, blobs, leaves[j], image.digest) {
      Recorded(codec, terms, blobs, leaves, j);
    }
  }

  lemma ArchiveMeans(archive: Archive)
    requires archive.Valid() && IsNative(archive.images, archive.attestations)
    ensures Checked(archive.codec, archive.blobs) ==>
              OneImageAttested(archive.codec, archive.terms, archive.blobs, archive.leaves)
  {
    hide LeafComplete, ImagesAmong, SubjectsAmong, Checked, CacheTrue, TotalLoad, OneImageAttested, IsNative;
    if Checked(archive.codec, archive.blobs) {
      NativeMeans(archive.codec, archive.terms, archive.blobs, archive.leaves);
    }
  }

  method Open(codec: Codec, terms: Terms, blobs: Blobs, root: Data, bytes: nat) returns (r: Option<Archive>)
    requires bytes <= MAX_JSON_TOTAL
    ensures r.Some? <==> Opens(codec, terms, blobs, root, bytes)
    ensures r.Some? ==>
              && fresh(r.value) && r.value.Valid() && r.value.codec == codec && r.value.terms == terms
              && r.value.blobs == blobs && Some(r.value.Now()) == WalkFrom(codec, terms, blobs, root, bytes)
              && IsNative(r.value.images, r.value.attestations)
    ensures r.Some? && Checked(codec, blobs) ==> OneImageAttested(codec, terms, blobs, r.value.leaves)
  {
    hide WalkInvariant, ImagesAmong, SubjectsAmong, BelowIndex, Passes, After, Checked, OneImageAttested;
    var archive := new Archive(codec, terms, blobs, bytes);
    var ok := archive.WalkIndex(root, 0);
    if !ok || |archive.images| != 1 {
      return None;
    }
    for i := 0 to |archive.attestations|
      invariant forall k | 0 <= k < i :: archive.attestations[k] == archive.images[0].digest
    {
      if archive.attestations[i] != archive.images[0].digest {
        assert archive.attestations[i] in archive.attestations;
        return None;
      }
    }
    ArchiveMeans(archive);
    return Some(archive);
  }
}

/**
 * Release identities (scripts/version_plan.py): the tag of a plan, its creation and
 * validation, and its projections onto package and platform version formats.
 */
module Plans {
  import opened Wrappers
  import opened Text

  const MAX_BUILD := 2_100_000_000
  const MAX_APPLE_BUILD := 99_990_000
  const ATTEMPT_SPAN := 1_000_000
  const MAX_PEP440 := 0x1_0000_0000_0000_0000 - 2

  datatype Channel = Nightly | Beta | Rc | Stable | OtherChannel(name: string)

  datatype Promotion = PromoteBytes | FinalBuild | OtherPromotion(name: string)

  /** A nightly stamp is kept in its parts; text that is not of that form is OtherSequence. */
  datatype Sequence =
    | NoSequence
    | Number(value: int)
    | Stamp(time: string, run: nat, attempt: nat)
    | OtherSequence(text: string)

  datatype ValueKind = Base | Full | Package | Build | AppleBuild

  datatype Ecosystem = Semver | Pep440

  datatype Declaration = Declaration(value: ValueKind, ecosystem: Ecosystem, prefix: string)

  type Digest = s: string | IsHex(s, 64) witness seq(64, _ => '0')

  /** `wellFormed` stands for the checks of single policy fields that no plan depends on. */
  datatype Policy = Policy(
    wellFormed: bool,
    promotion: Promotion,
    buildFloor: Option<int>,
    files: seq<Declaration>,
    digest: Digest)

  datatype Plan = Plan(
    baseVersion: string,
    version: string,
    channel: Channel,
    sequence: Sequence,
    tag: string,
    sourceSha: string,
    buildNumber: Option<int>,
    policySha: string,
    promotion: Promotion)

  datatype PlanError =
    | BadPolicy | BadBase | BadChannel | BadSequence | BadSource | BadBuildNumber
    | BelowFloor | BadProjection

  datatype Projected = TextValue(text: string) | BuildValue(number: int)

  // ---- Identity ------------------------------------------------------------

  predicate ValidBase(base: string) {
    var parts := Split(base, '.');
    |parts| == 3 && forall p | p in parts :: IsNumeral(p)
  }

  function DaysIn(year: nat, month: nat): nat {
    if month == 2 then
      if year % 4 == 0 && (year % 100 != 0 || year % 400 == 0) then 29 else 28
    else if month in {4, 6, 9, 11} then 30
    else 31
  }

  /** Fourteen digits `YYYYmmddHHMMSS` that name a moment of the calendar. */
  predicate ValidTimestamp(t: string) {
    && |t| == 14
    && AllDigits(t)
    && var year, month := ParseDecimal(t[..4]), ParseDecimal(t[4..6]);
       && 1 <= year
       && 1 <= month <= 12
       && 1 <= ParseDecimal(t[6..8]) <= DaysIn(year, month)
       && ParseDecimal(t[8..10]) < 24
       && ParseDecimal(t[10..12]) < 60
       && ParseDecimal(t[12..]) < 60
  }

  function StampText(time: string, run: nat, attempt: nat): string {
    time + "." + Decimal(run) + "." + Decimal(attempt)
  }

  function ChannelName(channel: Channel): string {
    match channel
    case Nightly => "nightly"
    case Beta => "beta"
    case Rc => "rc"
    case Stable => "stable"
    case OtherChannel(name) => name
  }

  function SequenceText(sequence: Sequence): string {
    match sequence
    case NoSequence => "None"
    case Number(n) => if n >= 0 then Decimal(n) else "-" + Decimal(-n)
    case Stamp(time, run, attempt) => StampText(time, run, attempt)
    case OtherSequence(text) => text
  }

  predicate ValidSequence(channel: Channel, sequence: Sequence) {
    match channel
    case Stable => sequence.NoSequence?
    case Nightly =>
      sequence.Stamp? && ValidTimestamp(sequence.time) && sequence.run > 0 && sequence.attempt > 0
    case Beta => sequence.Number? && sequence.value > 0
    case Rc => sequence.Number? && sequence.value > 0
    case OtherChannel(_) => false
  }

  /** The full version of a release: `base` or `base-channel.sequence`. */
  function Identity(base: string, channel: Channel, sequence: Sequence): Result<string, PlanError> {
    if !ValidBase(base) then Err(BadBase)
    else if channel.OtherChannel? then Err(BadChannel)
    else if !ValidSequence(channel, sequence) then Err(BadSequence)
    else if channel.Stable? then Ok(base)
    else Ok(base + ['-'] + (ChannelName(channel) + ['.'] + SequenceText(sequence)))
  }

  // ---- Projections -----------------------------------------------------------

  function AppleParts(build: int): (int, int, int)
    requires 0 < build
  {
    ((build - 1) / 10000 + 1, (build - 1) / 100 % 100, (build - 1) % 100)
  }

  function AppleText(build: int): string
    requires 0 < build
  {
    var (major, minor, patch) := AppleParts(build);
    Decimal(major) + "." + Decimal(minor) + "." + Decimal(patch)
  }

  function Pep440Number(run: nat, attempt: nat): nat {
    run * ATTEMPT_SPAN + attempt
  }

  function PackageText(plan: Plan, ecosystem: Ecosystem): Option<string> {
    if plan.channel.Rc? && plan.promotion.PromoteBytes? then Some(plan.baseVersion)
    else if ecosystem.Semver? then Some(plan.version)
    else
      match plan.channel
      case Beta => Some(plan.baseVersion + "b" + SequenceText(plan.sequence))
      case Rc => Some(plan.baseVersion + "rc" + SequenceText(plan.sequence))
      case Nightly =>
        if !plan.sequence.Stamp? then None
        else
          var number := Pep440Number(plan.sequence.run, plan.sequence.attempt);
          if plan.sequence.attempt < ATTEMPT_SPAN && number <= MAX_PEP440
          then Some(plan.baseVersion + ".dev" + Decimal(number)) else None
      case _ => Some(plan.version)
  }

  /** The value written into one declared field; computing the package text may fail for every kind. */
  function ProjectedValue(plan: Plan, item: Declaration): Option<Projected> {
    var package := PackageText(plan, item.ecosystem);
    if package.None? then None
    else
      var result: Option<Projected> := match item.value
        case Base => Some(TextValue(plan.baseVersion))
        case Full => Some(TextValue(plan.version))
        case Package => Some(TextValue(package.value))
        case Build => if plan.buildNumber.Some? then Some(BuildValue(plan.buildNumber.value)) else None
        case AppleBuild =>
          if plan.buildNumber.Some? && 0 < plan.buildNumber.value <= MAX_APPLE_BUILD
          then Some(TextValue(AppleText(plan.buildNumber.value))) else None;
      if result.Some? && item.prefix != "" then
        match result.value
        case TextValue(text) => Some(TextValue(item.prefix + text))
        case BuildValue(n) => Some(TextValue(item.prefix + SequenceText(Number(n))))
      else result
  }

  // ---- Creation and validation -------------------------------------------------

  function FloorOf(policy: Policy): int {
    if policy.buildFloor.Some? then policy.buildFloor.value else 0
  }

  predicate ValidPolicy(policy: Policy) {
    && policy.wellFormed
    && !policy.promotion.OtherPromotion?
    && 0 <= FloorOf(policy) < MAX_BUILD
    && policy.files != []
  }

  predicate Projects(plan: Plan, policy: Policy) {
    forall item | item in policy.files :: ProjectedValue(plan, item).Some?
  }

  function CreatePlan(base: string, channel: Channel, sequence: Sequence, sourceSha: string,
                      policy: Policy, build: Option<int>): Result<Plan, PlanError>
  {
    if !ValidPolicy(policy) then Err(BadPolicy)
    else
      var identity := Identity(base, channel, sequence);
      if identity.Err? then Err(identity.error)
      else if !IsHex(sourceSha, 40) then Err(BadSource)
      else if build.Some? && !(0 < build.value <= MAX_BUILD) then Err(BadBuildNumber)
      else if build.Some? && build.value <= FloorOf(policy) then Err(BelowFloor)
      else
        var plan := Plan(base, identity.value, channel, sequence, "v" + identity.value,
                         sourceSha, build, policy.digest, policy.promotion);
        if Projects(plan, policy) then Ok(plan) else Err(BadProjection)
  }

  /** `validate_plan` without a policy: the check every reader of the ledger makes. */
  predicate ValidPlan(plan: Plan) {
    && Identity(plan.baseVersion, plan.channel, plan.sequence) == Ok(plan.version)
    && plan.tag == "v" + plan.version
    && IsHex(plan.sourceSha, 40)
    && IsHex(plan.policySha, 64)
    && !plan.promotion.OtherPromotion?
    && (plan.buildNumber.Some? ==> 0 < plan.buildNumber.value <= MAX_BUILD)
  }

  /** `validate_plan` bound to a policy and a source commit. */
  predicate ValidPlanFor(plan: Plan, policy: Policy, sourceSha: string) {
    && ValidPlan(plan)
    && ValidPolicy(policy)
    && plan.policySha == policy.digest
    && plan.promotion == policy.promotion
    && (plan.buildNumber.Some? ==> plan.buildNumber.value > FloorOf(policy))
    && Projects(plan, policy)
    && plan.sourceSha == sourceSha
  }

  /** Validation against a policy and a commit accepts exactly the plans that creation makes. */
  lemma ValidExactlyWhenCreated(plan: Plan, policy: Policy, sourceSha: string)
    ensures ValidPlanFor(plan, policy, sourceSha)
       <==> CreatePlan(plan.baseVersion, plan.channel, plan.sequence, sourceSha, policy,
                       plan.buildNumber) == Ok(plan)
  {
  }

  // ---- A tag names one identity ------------------------------------------------

  lemma BaseHasNoDash(base: string)
    requires ValidBase(base)
    ensures '-' !in base
  {
    forall k | 0 <= k < |base| && base[k] != '.' ensures IsDigit(base[k]) {
      var i, j := SplitCovers(base, '.', k);
      assert Split(base, '.')[i] in Split(base, '.');
    }
  }

  lemma SuffixInjective(channel: Channel, sequence: Sequence, channel': Channel, sequence': Sequence)
    requires channel in {Nightly, Beta, Rc} && channel' in {Nightly, Beta, Rc}
    requires ChannelName(channel) + ['.'] + SequenceText(sequence)
          == ChannelName(channel') + ['.'] + SequenceText(sequence')
    ensures channel == channel' && SequenceText(sequence) == SequenceText(sequence')
  {
    UniqueSplit(ChannelName(channel), ChannelName(channel'), SequenceText(sequence), SequenceText(sequence'), '.');
    assert ChannelName(channel)[0] == ChannelName(channel')[0];
  }

  lemma DashMarksPrerelease(base: string, channel: Channel, sequence: Sequence)
    requires Identity(base, channel, sequence).Ok?
    ensures '-' in Identity(base, channel, sequence).value <==> !channel.Stable?
  {
    BaseHasNoDash(base);
    if !channel.Stable? {
      assert Identity(base, channel, sequence).value[|base|] == '-';
    }
  }

  lemma StampInjective(s: Sequence, t: Sequence)
    requires s.Stamp? && t.Stamp? && ValidTimestamp(s.time) && ValidTimestamp(t.time)
    requires SequenceText(s) == SequenceText(t)
    ensures s == t
  {
    var x, y := Decimal(s.run) + ['.'] + Decimal(s.attempt), Decimal(t.run) + ['.'] + Decimal(t.attempt);
    assert SequenceText(s) == s.time + ['.'] + x && SequenceText(t) == t.time + ['.'] + y;
    UniqueSplit(s.time, t.time, x, y, '.');
    UniqueSplit(Decimal(s.run), Decimal(t.run), Decimal(s.attempt), Decimal(t.attempt), '.');
    DecimalInjective(s.run, t.run);
    DecimalInjective(s.attempt, t.attempt);
  }

  /** Two accepted identities with one version text are the same base, channel and sequence. */
  lemma IdentityInjective(base: string, channel: Channel, sequence: Sequence,
                          base': string, channel': Channel, sequence': Sequence)
    requires Identity(base, channel, sequence).Ok?
    requires Identity(base, channel, sequence) == Identity(base', channel', sequence')
    ensures base == base' && channel == channel' && sequence == sequence'
  {
    DashMarksPrerelease(base, channel, sequence);
    DashMarksPrerelease(base', channel', sequence');
    if !channel.Stable? {
      BaseHasNoDash(base);
      BaseHasNoDash(base');
      var x := ChannelName(channel) + ['.'] + SequenceText(sequence);
      var y := ChannelName(channel') + ['.'] + SequenceText(sequence');
      UniqueSplit(base, base', x, y, '-');
      SuffixInjective(channel, sequence, channel', sequence');
      if channel.Nightly? {
        StampInjective(sequence, sequence');
      } else {
        DecimalInjective(sequence.value, sequence'.value);
      }
    }
  }

  /** A tag determines base, channel and sequence of any two plans that carry it. */
  lemma TagDeterminesIdentity(p: Plan, q: Plan)
    requires ValidPlan(p) && ValidPlan(q) && p.tag == q.tag
    ensures p.baseVersion == q.baseVersion && p.channel == q.channel && p.sequence == q.sequence
  {
    assert p.version == p.tag[1..] && q.version == q.tag[1..];
    IdentityInjective(p.baseVersion, p.channel, p.sequence, q.baseVersion, q.channel, q.sequence);
  }

  // ---- What the platform projections keep ----------------------------------------

  predicate PartsBefore(a: (int, int, int), b: (int, int, int)) {
    a.0 < b.0 || (a.0 == b.0 && (a.1 < b.1 || (a.1 == b.1 && a.2 < b.2)))
  }

  /** Apple's component-wise order of projected numbers is the order of the build numbers. */
  lemma AppleKeepsOrder(m: int, n: int)
    requires 0 < m && 0 < n
    ensures m < n <==> PartsBefore(AppleParts(m), AppleParts(n))
  {
    assert m - 1 == (m - 1) / 10000 * 10000 + (m - 1) / 100 % 100 * 100 + (m - 1) % 100;
    assert n - 1 == (n - 1) / 10000 * 10000 + (n - 1) / 100 % 100 * 100 + (n - 1) % 100;
  }

  lemma DecimalStep(n: nat)
    ensures |Decimal(n)| == if n < 10 then 1 else 1 + |Decimal(n / 10)|
  {
  }

  lemma {:induction false} DecimalLength(n: nat, digits: nat)
    requires digits > 0 && n < Power10(digits)
    ensures |Decimal(n)| <= digits
  {
    hide Decimal;
    DecimalStep(n);
    if n >= 10 {
      assert Power10(digits) == 10 * Power10(digits - 1);
      DecimalLength(n / 10, digits - 1);
    }
  }

  function Power10(digits: nat): nat {
    if digits == 0 then 1 else 10 * Power10(digits - 1)
  }

  /** The Apple text of an allowed build number meets the platform's component widths. */
  lemma AppleFits(build: int)
    requires 0 < build <= MAX_APPLE_BUILD
    ensures var (major, minor, patch) := AppleParts(build);
      && AppleText(build) == Decimal(major) + "." + Decimal(minor) + "." + Decimal(patch)
      && IsPositiveNumeral(Decimal(major)) && |Decimal(major)| <= 4
      && |Decimal(minor)| <= 2 && |Decimal(patch)| <= 2
  {
    var (major, minor, patch) := AppleParts(build);
    assert Power10(2) == 100 && Power10(4) == 100 * Power10(2);
    DecimalLength(major, 4);
    DecimalLength(minor, 2);
    DecimalLength(patch, 2);
  }

  /** For attempts the projection accepts, PEP 440 numbers order nightlies by run and then attempt. */
  lemma Pep440KeepsOrder(run: nat, attempt: nat, run': nat, attempt': nat)
    requires attempt < ATTEMPT_SPAN && attempt' < ATTEMPT_SPAN
    ensures Pep440Number(run, attempt) < Pep440Number(run', attempt')
       <==> run < run' || (run == run' && attempt < attempt')
  {
    if run < run' {
      assert (run + 1) * ATTEMPT_SPAN <= run' * ATTEMPT_SPAN;
    } else if run' < run {
      assert (run' + 1) * ATTEMPT_SPAN <= run * ATTEMPT_SPAN;
    }
  }
}

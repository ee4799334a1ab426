/**
 * The texts of a release plan of scripts/version_plan.py, written out: bases, moments of the
 * calendar, versions by channel, and what each kind of declared field is given.
 */
module PlanTexts {
  import opened Wrappers
  import opened Text
  import opened Plans

  // ---- Numerals and bases ------------------------------------------------------------------------

  ghost predicate IsTriple(base: string, x: nat, y: nat, z: nat) {
    base == Decimal(x) + (['.'] + (Decimal(y) + (['.'] + Decimal(z))))
  }

  lemma NumeralHasNoDot(s: string)
    requires IsNumeral(s)
    ensures '.' !in s
  {
  }

  function Joined(parts: seq<string>, c: char): string
    requires parts != []
  {
    if |parts| == 1 then parts[0] else parts[0] + ([c] + Joined(parts[1..], c))
  }

  lemma {:induction false} SplitJoins(s: string, c: char)
    ensures Joined(Split(s, c), c) == s
  {
    if s == "" {
      assert Split(s, c) == [""];
    } else {
      SplitStep(s, c);
      SplitJoins(s[1..], c);
      hide Split;
      assert s == [s[0]] + s[1..];
      if s[0] == c {
        JoinsEmpty(Split(s[1..], c), c);
      } else {
        JoinsLetter(Split(s[1..], c), s[0], c);
      }
    }
  }

  lemma JoinsEmpty(rest: seq<string>, c: char)
    requires rest != []
    ensures Joined([""] + rest, c) == [c] + Joined(rest, c)
  {
    assert ([""] + rest)[1..] == rest;
  }

  lemma JoinsLetter(rest: seq<string>, x: char, c: char)
    requires rest != []
    ensures Joined([[x] + rest[0]] + rest[1..], c) == [x] + Joined(rest, c)
  {
    assert ([[x] + rest[0]] + rest[1..])[1..] == rest[1..];
    if |rest| > 1 {
      var tail := [c] + Joined(rest[1..], c);
      assert ([x] + rest[0]) + tail == [x] + (rest[0] + tail);
    }
  }

  lemma {:induction false} SplitFront(a: string, rest: string, c: char)
    requires c !in a
    ensures Split(a + ([c] + rest), c) == [a] + Split(rest, c)
  {
    var s := a + ([c] + rest);
    SplitStep(s, c);
    hide Split;
    if a == "" {
      assert s[0] == c && s[1..] == rest;
    } else {
      assert s[0] == a[0] && s[1..] == a[1..] + ([c] + rest);
      SplitFront(a[1..], rest, c);
      assert [a[0]] + a[1..] == a;
    }
  }

  lemma {:induction false} SplitNone(a: string, c: char)
    requires c !in a
    ensures Split(a, c) == [a]
  {
    if a != "" {
      SplitNone(a[1..], c);
      assert [a[0]] + a[1..] == a;
    }
  }

  /** A base is three numbers with dots between them. */
  lemma BaseMeans(base: string)
    ensures ValidBase(base) <==> exists x: nat, y: nat, z: nat :: IsTriple(base, x, y, z)
  {
    hide Split, Decimal, IsNumeral;
    if ValidBase(base) {
      var parts := Split(base, '.');
      SplitJoins(base, '.');
      NumeralMeans(parts[0]);
      NumeralMeans(parts[1]);
      NumeralMeans(parts[2]);
      assert parts[1..][1..][0] == parts[2];
      assert Joined(parts[1..], '.') == parts[1] + (['.'] + Joined(parts[1..][1..], '.'));
      assert IsTriple(base, ParseDecimal(parts[0]), ParseDecimal(parts[1]), ParseDecimal(parts[2]));
    }
    if x: nat, y: nat, z: nat :| IsTriple(base, x, y, z) {
      NumeralHasNoDot(Decimal(x));
      NumeralHasNoDot(Decimal(y));
      NumeralHasNoDot(Decimal(z));
      SplitFront(Decimal(x), Decimal(y) + (['.'] + Decimal(z)), '.');
      SplitFront(Decimal(y), Decimal(z), '.');
      SplitNone(Decimal(z), '.');
    }
  }

  // ---- Moments -----------------------------------------------------------------------------------

  /** Days from the start of year 1 to the start of a year: a leap year every four, but 97 in 400. */
  function DaysBefore(year: nat): int
    requires year > 0
  {
    365 * (year - 1) + (year - 1) / 4 - (year - 1) / 100 + (year - 1) / 400
  }

  /** The months of a year fill it, and only February's length depends on the year. */
  lemma CalendarMeans(year: nat)
    requires year > 0
    ensures DaysIn(year, 1) + DaysIn(year, 2) + DaysIn(year, 3) + DaysIn(year, 4) + DaysIn(year, 5) + DaysIn(year, 6)
            + DaysIn(year, 7) + DaysIn(year, 8) + DaysIn(year, 9) + DaysIn(year, 10) + DaysIn(year, 11) + DaysIn(year, 12)
         == DaysBefore(year + 1) - DaysBefore(year)
    ensures DaysIn(year, 1) == DaysIn(year, 3) == DaysIn(year, 5) == DaysIn(year, 7) == DaysIn(year, 8)
         == DaysIn(year, 10) == DaysIn(year, 12) == 31
    ensures DaysIn(year, 4) == DaysIn(year, 6) == DaysIn(year, 9) == DaysIn(year, 11) == 30
  {
    YearGrows(year);
    hide DaysBefore;
  }

  lemma YearGrows(year: nat)
    requires year > 0
    ensures DaysBefore(year + 1) - DaysBefore(year) == 337 + DaysIn(year, 2)
  {
    LeapStep(year, 4);
    LeapStep(year, 100);
    LeapStep(year, 400);
    CenturiesDivide(year);
  }

  lemma CenturiesDivide(year: nat)
    ensures year % 100 == 0 ==> year % 4 == 0
    ensures year % 400 == 0 ==> year % 100 == 0
  {
    if year % 100 == 0 { Multiple(year, 4, 25 * (year / 100)); }
    if year % 400 == 0 { Multiple(year, 100, 4 * (year / 400)); }
  }

  lemma Multiple(x: nat, n: nat, q: nat)
    requires n > 0 && x == n * q
    ensures x % n == 0
  {
    DivideBy(x, n, q, 0);
  }

  lemma LeapStep(year: nat, n: nat)
    requires year > 0 && n > 0
    ensures year / n - (year - 1) / n == if year % n == 0 then 1 else 0
  {
    var q, r := year / n, year % n;
    assert year == n * q + r;
    if r == 0 {
      assert year - 1 == n * (q - 1) + (n - 1);
      DivideBy(year - 1, n, q - 1, n - 1);
    } else {
      assert year - 1 == n * q + (r - 1);
      DivideBy(year - 1, n, q, r - 1);
    }
  }

  lemma DivideBy(x: int, n: int, q: int, r: int)
    requires n > 0 && 0 <= r < n && x == n * q + r
    ensures x / n == q
  {
    var d := x / n - q;
    assert n * d == r - x % n;
  }

  /** A number written with so many digits, zeros in front. */
  function Padded(n: nat, width: nat): string {
    if width == 0 then "" else Padded(n / 10, width - 1) + [DigitChar(n % 10)]
  }

  ghost predicate IsMoment(t: string, year: nat, month: nat, day: nat, hour: nat, minute: nat, second: nat) {
    && 1 <= year <= 9999 && 1 <= month <= 12 && 1 <= day <= DaysIn(year, month)
    && hour <= 23 && minute <= 59 && second <= 59
    && t == Padded(year, 4) + (Padded(month, 2) + (Padded(day, 2) + (Padded(hour, 2) + (Padded(minute, 2) + Padded(second, 2)))))
  }

  lemma {:induction false} PaddedMeans(s: string)
    requires AllDigits(s)
    ensures s == Padded(ParseDecimal(s), |s|) && ParseDecimal(s) < Power10(|s|)
  {
    if s != "" {
      var front := s[..|s| - 1];
      PaddedMeans(front);
      var q, d := ParseDecimal(front), DigitValue(s[|s| - 1]);
      TenTimes(q, d);
      assert ParseDecimal(s) == 10 * q + d;
      assert s == front + [s[|s| - 1]];
    }
  }

  lemma {:induction false} PaddedParses(n: nat, width: nat)
    requires n < Power10(width)
    ensures |Padded(n, width)| == width && AllDigits(Padded(n, width)) && ParseDecimal(Padded(n, width)) == n
  {
    if width > 0 {
      PaddedParses(n / 10, width - 1);
      var s := Padded(n, width);
      assert s[..|s| - 1] == Padded(n / 10, width - 1);
    }
  }

  ghost predicate NamesMoment(t: string) {
    exists year: nat, month: nat, day: nat, hour: nat, minute: nat, second: nat ::
      IsMoment(t, year, month, day, hour, minute, second)
  }

  lemma TwoDigits(t: string, from: nat)
    requires AllDigits(t) && from + 2 <= |t|
    ensures ParseDecimal(t[from..from + 2]) < 100 && t[from..from + 2] == Padded(ParseDecimal(t[from..from + 2]), 2)
  {
    PaddedMeans(t[from..from + 2]);
    assert Power10(2) == 10 * Power10(1) == 100;
  }

  /** A valid timestamp is the text of a moment of the calendar. */
  lemma TimestampMeans(t: string)
    ensures ValidTimestamp(t) <==> NamesMoment(t)
  {
    hide Padded, ParseDecimal, DaysIn;
    if ValidTimestamp(t) {
      PaddedMeans(t[..4]);
      FourDigits();
      TwoDigits(t, 4);
      TwoDigits(t, 6);
      TwoDigits(t, 8);
      TwoDigits(t, 10);
      TwoDigits(t, 12);
      assert t[12..14] == t[12..];
      assert t == t[..4] + (t[4..6] + (t[6..8] + (t[8..10] + (t[10..12] + t[12..]))));
      assert IsMoment(t, ParseDecimal(t[..4]), ParseDecimal(t[4..6]), ParseDecimal(t[6..8]), ParseDecimal(t[8..10]),
                      ParseDecimal(t[10..12]), ParseDecimal(t[12..]));
    }
    if year: nat, month: nat, day: nat, hour: nat, minute: nat, second: nat :|
         IsMoment(t, year, month, day, hour, minute, second) {
      MomentParses(t, year, month, day, hour, minute, second);
    }
  }

  lemma FourDigits()
    ensures Power10(2) == 100 && Power10(4) == 10000
  {
    assert Power10(4) == 10 * Power10(3) && Power10(3) == 10 * Power10(2) && Power10(2) == 10 * Power10(1);
  }

  lemma MonthFits(year: nat, month: nat)
    ensures DaysIn(year, month) <= 31
  {
  }

  lemma MomentParses(t: string, year: nat, month: nat, day: nat, hour: nat, minute: nat, second: nat)
    requires IsMoment(t, year, month, day, hour, minute, second)
    ensures |t| == 14 && AllDigits(t)
    ensures ParseDecimal(t[..4]) == year && ParseDecimal(t[4..6]) == month && ParseDecimal(t[6..8]) == day
    ensures ParseDecimal(t[8..10]) == hour && ParseDecimal(t[10..12]) == minute && ParseDecimal(t[12..]) == second
  {
    FourDigits();
    MonthFits(year, month);
    hide Padded, ParseDecimal, DaysIn;
    PaddedParses(year, 4);
    PaddedParses(month, 2);
    PaddedParses(day, 2);
    PaddedParses(hour, 2);
    PaddedParses(minute, 2);
    PaddedParses(second, 2);
    assert t[..4] == Padded(year, 4) && t[4..6] == Padded(month, 2) && t[6..8] == Padded(day, 2);
    assert t[8..10] == Padded(hour, 2) && t[10..12] == Padded(minute, 2) && t[12..] == Padded(second, 2);
    assert t == t[..4] + (t[4..6] + (t[6..8] + (t[8..10] + (t[10..12] + t[12..]))));
  }

  // ---- Versions ------------------------------------------------------------------------------------

  /** The version of a release, by its channel. */
  ghost predicate IsVersion(base: string, channel: Channel, sequence: Sequence, version: string) {
    match channel
    case Stable => sequence.NoSequence? && version == base
    case Beta => sequence.Number? && sequence.value > 0 && version == base + "-beta." + Decimal(sequence.value)
    case Rc => sequence.Number? && sequence.value > 0 && version == base + "-rc." + Decimal(sequence.value)
    case Nightly =>
      && sequence.Stamp? && NamesMoment(sequence.time) && sequence.run > 0 && sequence.attempt > 0
      && version == base + "-nightly." + sequence.time + "." + Decimal(sequence.run) + "." + Decimal(sequence.attempt)
    case OtherChannel(_) => false
  }

  /** A version is formed exactly of three numbers and a sequence that suits the channel, and is this text. */
  lemma IdentityMeans(base: string, channel: Channel, sequence: Sequence, version: string)
    ensures Identity(base, channel, sequence) == Ok(version) <==>
              && (exists x: nat, y: nat, z: nat :: IsTriple(base, x, y, z))
              && IsVersion(base, channel, sequence, version)
  {
    hide ValidBase, ValidTimestamp, Decimal, NamesMoment, IsTriple;
    BaseMeans(base);
    match channel
    case Nightly => NightlyMeans(base, sequence, version);
    case Beta => if sequence.Number? && sequence.value > 0 { CountedText(base, "beta", Decimal(sequence.value)); }
    case Rc => if sequence.Number? && sequence.value > 0 { CountedText(base, "rc", Decimal(sequence.value)); }
    case Stable =>
    case OtherChannel(_) =>
  }

  lemma NightlyMeans(base: string, sequence: Sequence, version: string)
    ensures Identity(base, Nightly, sequence) == Ok(version) <==>
              ValidBase(base) && IsVersion(base, Nightly, sequence, version)
  {
    hide ValidBase, ValidTimestamp, Decimal, NamesMoment;
    if sequence.Stamp? {
      TimestampMeans(sequence.time);
      NightlyText(base, sequence.time, Decimal(sequence.run), Decimal(sequence.attempt));
    }
  }

  lemma CountedText(base: string, name: string, n: string)
    ensures base + ['-'] + (name + ['.'] + n) == base + ("-" + name + ".") + n
    ensures "-" + "beta" + "." == "-beta." && "-" + "rc" + "." == "-rc."
  {
  }

  lemma NightlyText(base: string, time: string, run: string, attempt: string)
    ensures base + "-nightly." + time + "." + run + "." + attempt
         == base + ['-'] + ("nightly" + ['.'] + (time + "." + run + "." + attempt))
  {
  }

  /** The package version of a valid plan; a promoted candidate already carries the final one. */
  ghost predicate IsPackage(plan: Plan, ecosystem: Ecosystem, text: string) {
    if plan.channel.Rc? && plan.promotion.PromoteBytes? then text == plan.baseVersion
    else if ecosystem.Semver? then text == plan.version
    else
      match plan.channel
      case Stable => text == plan.baseVersion
      case Beta =>
        plan.sequence.Number? && plan.sequence.value > 0 && text == plan.baseVersion + "b" + Decimal(plan.sequence.value)
      case Rc =>
        plan.sequence.Number? && plan.sequence.value > 0 && text == plan.baseVersion + "rc" + Decimal(plan.sequence.value)
      case Nightly =>
        && plan.sequence.Stamp? && plan.sequence.attempt < 1_000_000
        && var number := plan.sequence.run * 1_000_000 + plan.sequence.attempt;
           number <= 18_446_744_073_709_551_614 && text == plan.baseVersion + ".dev" + Decimal(number)
      case OtherChannel(_) => false
  }

  lemma PackageMeans(plan: Plan, ecosystem: Ecosystem, text: string)
    requires ValidPlan(plan)
    ensures PackageText(plan, ecosystem) == Some(text) <==> IsPackage(plan, ecosystem, text)
  {
    assert ValidSequence(plan.channel, plan.sequence) && (plan.channel.Stable? ==> plan.version == plan.baseVersion);
    hide Decimal, ValidBase, ValidTimestamp;
  }

  /** An Apple version counts the build number: hundreds in its last two places, ten thousands in the first. */
  lemma AppleCounts(build: int)
    requires 0 < build
    ensures var (major, minor, patch) := AppleParts(build);
            && 1 <= major && 0 <= minor < 100 && 0 <= patch < 100
            && build == (major - 1) * 10000 + minor * 100 + patch + 1
  {
    var n := build - 1;
    HundredTwice(n);
  }

  lemma HundredTwice(n: int)
    ensures n == n / 10000 * 10000 + n / 100 % 100 * 100 + n % 100
  {
  }

  /** What a declared field of some kind is given, before its prefix. */
  ghost predicate IsPlainValue(plan: Plan, kind: ValueKind, package: string, value: Projected) {
    match kind
    case Base => value == TextValue(plan.baseVersion)
    case Full => value == TextValue(plan.version)
    case Package => value == TextValue(package)
    case Build => plan.buildNumber.Some? && value == BuildValue(plan.buildNumber.value)
    case AppleBuild =>
      && plan.buildNumber.Some? && 0 < plan.buildNumber.value <= 99_990_000
      && value == TextValue(AppleText(plan.buildNumber.value))
  }

  function Prefixed(prefix: string, plain: Projected): Projected {
    if prefix == "" then plain
    else
      match plain
      case TextValue(text) => TextValue(prefix + text)
      case BuildValue(n) => TextValue(prefix + if n >= 0 then Decimal(n) else "")
  }

  /**
   * A field of a valid plan is given the value of its kind, behind its prefix if it has one; nothing is
   * given without a package version, or without the build number that its kind needs.
   */
  lemma ProjectedMeans(plan: Plan, item: Declaration, value: Projected)
    requires ValidPlan(plan)
    ensures ProjectedValue(plan, item) == Some(value) <==>
              exists package, plain ::
                && IsPackage(plan, item.ecosystem, package) && IsPlainValue(plan, item.value, package, plain)
                && value == Prefixed(item.prefix, plain)
  {
    hide PackageText, IsPackage, Decimal, AppleText, Identity;
    forall text ensures PackageText(plan, item.ecosystem) == Some(text) <==> IsPackage(plan, item.ecosystem, text) {
      PackageMeans(plan, item.ecosystem, text);
    }
    var package := PackageText(plan, item.ecosystem);
    if package.Some? {
      forall plain | IsPlainValue(plan, item.value, package.value, plain)
        ensures ProjectedValue(plan, item) == Some(Prefixed(item.prefix, plain))
      {
      }
      if ProjectedValue(plan, item) == Some(value) { PlainExists(plan, item, package.value, value); }
    }
  }

  lemma PlainExists(plan: Plan, item: Declaration, package: string, value: Projected)
    requires ValidPlan(plan) && PackageText(plan, item.ecosystem) == Some(package)
    requires ProjectedValue(plan, item) == Some(value)
    ensures exists plain :: IsPlainValue(plan, item.value, package, plain) && value == Prefixed(item.prefix, plain)
  {
    hide PackageText, Decimal, AppleText, Identity;
    var plain := match item.value
      case Base => TextValue(plan.baseVersion)
      case Full => TextValue(plan.version)
      case Package => TextValue(package)
      case Build => BuildValue(plan.buildNumber.value)
      case AppleBuild => TextValue(AppleText(plan.buildNumber.value));
    assert IsPlainValue(plan, item.value, package, plain) && value == Prefixed(item.prefix, plain);
  }

  // ---- Creation --------------------------------------------------------------------------------------

  ghost predicate IsHexText(s: string, length: nat) {
    |s| == length && forall i | 0 <= i < |s| :: s[i] in "0123456789abcdef"
  }

  lemma HexMeans(s: string, length: nat)
    ensures IsHex(s, length) <==> IsHexText(s, length)
  {
    forall c: char ensures c in "0123456789abcdef" <==> '0' <= c <= '9' || 'a' <= c <= 'f' { HexLetter(c); }
  }

  lemma HexLetter(c: char)
    ensures c in "0123456789abcdef" <==> '0' <= c <= '9' || 'a' <= c <= 'f'
  {
  }

  /** A policy with a known promotion, a floor below the greatest build number, and files. */
  ghost predicate IsUsablePolicy(policy: Policy) {
    && policy.wellFormed && (policy.promotion.PromoteBytes? || policy.promotion.FinalBuild?) && |policy.files| > 0
    && (policy.buildFloor.Some? ==> 0 <= policy.buildFloor.value <= 2_099_999_999)
  }

  ghost predicate IsFilled(plan: Plan, item: Declaration) {
    exists package, plain :: IsPackage(plan, item.ecosystem, package) && IsPlainValue(plan, item.value, package, plain)
  }

  lemma ProjectsMeans(plan: Plan, policy: Policy)
    requires ValidPlan(plan)
    ensures Projects(plan, policy) <==> forall item | item in policy.files :: IsFilled(plan, item)
  {
    hide ValidPlan, IsPackage, IsPlainValue, ProjectedValue;
    forall item, value ensures ProjectedValue(plan, item) == Some(value) <==>
                                 exists package, plain ::
                                   && IsPackage(plan, item.ecosystem, package)
                                   && IsPlainValue(plan, item.value, package, plain)
                                   && value == Prefixed(item.prefix, plain)
    {
      ProjectedMeans(plan, item, value);
    }
    forall item ensures ProjectedValue(plan, item).Some? <==> IsFilled(plan, item) {
      if ProjectedValue(plan, item).Some? { var value := ProjectedValue(plan, item).value; }
      if package, plain :| IsPackage(plan, item.ecosystem, package) && IsPlainValue(plan, item.value, package, plain) {
        assert ProjectedValue(plan, item) == Some(Prefixed(item.prefix, plain));
      }
    }
  }

  /**
   * A plan is created exactly for a usable policy, a version that can be formed, a full commit, a build
   * number above the floor if there is one, and declared files that can all be filled.
   */
  lemma CreateMeans(base: string, channel: Channel, sequence: Sequence, sourceSha: string, policy: Policy,
                    build: Option<int>, plan: Plan)
    ensures CreatePlan(base, channel, sequence, sourceSha, policy, build) == Ok(plan) <==>
              && IsUsablePolicy(policy)
              && (exists x: nat, y: nat, z: nat :: IsTriple(base, x, y, z)) && IsVersion(base, channel, sequence, plan.version)
              && IsHexText(sourceSha, 40)
              && (build.Some? ==> 0 < build.value <= 2_100_000_000)
              && (build.Some? && policy.buildFloor.Some? ==> build.value > policy.buildFloor.value)
              && plan == Plan(base, plan.version, channel, sequence, "v" + plan.version, sourceSha, build, policy.digest,
                              policy.promotion)
              && forall item | item in policy.files :: IsFilled(plan, item)
  {
    hide Identity, IsVersion, IsTriple, IsHex, IsHexText, Projects, IsFilled;
    IdentityMeans(base, channel, sequence, plan.version);
    HexMeans(sourceSha, 40);
    if Identity(base, channel, sequence) == Ok(plan.version) && IsHex(sourceSha, 40) && IsUsablePolicy(policy)
       && (build.Some? ==> 0 < build.value <= MAX_BUILD)
    {
      var made := Plan(base, plan.version, channel, sequence, "v" + plan.version, sourceSha, build, policy.digest,
                       policy.promotion);
      assert IsHex(policy.digest, 64);
      ProjectsMeans(made, policy);
    }
  }

  /** Every refusal to create a plan names what is amiss. */
  lemma RefusedPlanMeans(base: string, channel: Channel, sequence: Sequence, sourceSha: string, policy: Policy,
                         build: Option<int>)
    requires CreatePlan(base, channel, sequence, sourceSha, policy, build).Err?
    ensures match CreatePlan(base, channel, sequence, sourceSha, policy, build).error
            case BadPolicy => !IsUsablePolicy(policy)
            case BadBase => forall x: nat, y: nat, z: nat :: !IsTriple(base, x, y, z)
            case BadChannel => channel.OtherChannel?
            case BadSequence => forall version :: !IsVersion(base, channel, sequence, version)
            case BadSource => !IsHexText(sourceSha, 40)
            case BadBuildNumber => build.Some? && (build.value <= 0 || build.value > 2_100_000_000)
            case BelowFloor => build.Some? && build.value <= if policy.buildFloor.Some? then policy.buildFloor.value else 0
            case BadProjection =>
              exists version :: && IsVersion(base, channel, sequence, version)
                                && exists item | item in policy.files ::
                                     !IsFilled(Plan(base, version, channel, sequence, "v" + version, sourceSha, build,
                                                    policy.digest, policy.promotion), item)
  {
    BaseMeans(base);
    HexMeans(sourceSha, 40);
    forall version ensures Identity(base, channel, sequence) == Ok(version) <==>
                             ValidBase(base) && IsVersion(base, channel, sequence, version)
    {
      IdentityMeans(base, channel, sequence, version);
    }
    hide IsVersion, IsTriple, IsHex, IsHexText, Projects, IsFilled, ValidBase;
    var error := CreatePlan(base, channel, sequence, sourceSha, policy, build).error;
    if error.BadProjection? {
      var version := Identity(base, channel, sequence).value;
      var made := Plan(base, version, channel, sequence, "v" + version, sourceSha, build, policy.digest, policy.promotion);
      assert IsHex(policy.digest, 64);
      ProjectsMeans(made, policy);
    } else if error.BadSequence? {
      assert Identity(base, channel, sequence).Err? && ValidBase(base);
    }
  }
}

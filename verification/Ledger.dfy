/**
 * The version ledger and the decisions taken on it (scripts/release_state.py): what one
 * reservation or one start of a publication does to a complete ledger value.
 */
module Ledgers {
  import opened Wrappers
  import opened Text
  import opened Plans

  /** An accepted RC that a reservation is bound to; only its equality is ever used. */
  type Parent = string

  datatype Reservation = Reservation(plan: Plan, parent: Option<Parent>)

  datatype Ledger = Ledger(counter: int, floor: int, plans: map<int, Reservation>)

  const EMPTY := Ledger(0, 0, map[])

  datatype Operation =
    | Reserve(policy: Policy, base: string, channel: Channel, sourceSha: string,
              runId: int, attempt: int, parent: Option<Parent>)
    | Begin(plan: Plan, runId: int, parent: Option<Parent>, promotion: bool)

  /** What an operation sees of tags, releases and the clock; none of it is atomic with the ledger. */
  datatype Observation = Observation(
    tags: seq<string>,
    now: string,
    tagAbsent: bool,
    published: set<string>)

  datatype Refusal =
    | InvalidRunId | PlanMismatch | DifferentIdentity | DifferentParent | InvalidFloor
    | Refused(reason: PlanError) | TagExists | InvalidPlan | ReservationDiffers | BelowPublished
    | NewerPublished | NotPromotable | NoUniqueReservation | NotPublished
    | MissingFile | UnreadableLedger | Conflict

  datatype Decision =
    | Keep(plan: Plan)
    | Write(plan: Plan, next: Ledger)
    | Reject(why: Refusal)

  // ---- Sequence numbers ------------------------------------------------------------

  function TagPrefix(base: string, channel: Channel): string {
    "v" + base + "-" + ChannelName(channel) + "."
  }

  predicate Numbered(tag: string, prefix: string) {
    prefix <= tag && IsPositiveNumeral(tag[|prefix|..])
  }

  /** One more than the highest number that follows the prefix in any tag. */
  function NextNumber(tags: seq<string>, prefix: string): (n: nat)
    ensures n > 0
  {
    if tags == [] then 1
    else
      var rest, tag := NextNumber(tags[..|tags| - 1], prefix), tags[|tags| - 1];
      if Numbered(tag, prefix) && ParseDecimal(tag[|prefix|..]) >= rest
      then ParseDecimal(tag[|prefix|..]) + 1 else rest
  }

  method NextSequence(tags: seq<string>, base: string, channel: Channel)
    returns (r: Result<nat, PlanError>)
    requires channel in {Beta, Rc}
    ensures r == if ValidBase(base) then Ok(NextNumber(tags, TagPrefix(base, channel))) else Err(BadBase)
  {
    if !ValidBase(base) {
      return Err(BadBase);
    }
    var prefix := TagPrefix(base, channel);
    var next: nat := 1;
    for i := 0 to |tags|
      invariant next == NextNumber(tags[..i], prefix)
    {
      var tag := tags[i];
      assert tags[..i + 1][..i] == tags[..i];
      if Numbered(tag, prefix) && ParseDecimal(tag[|prefix|..]) >= next {
        next := ParseDecimal(tag[|prefix|..]) + 1;
      }
    }
    assert tags[..|tags|] == tags;
    return Ok(next);
  }

  lemma {:induction false} NextNumberBeyond(tags: seq<string>, prefix: string, n: nat)
    requires n >= NextNumber(tags, prefix)
    ensures prefix + Decimal(n) !in tags
  {
    if tags != [] {
      var last := tags[|tags| - 1];
      NextNumberBeyond(tags[..|tags| - 1], prefix, n);
      ParseOfDecimal(n);
      assert (prefix + Decimal(n))[|prefix|..] == Decimal(n);
      assert forall tag | tag in tags :: tag in tags[..|tags| - 1] || tag == last;
    }
  }

  /** The number in front of the chosen one is taken, unless the chosen one is the first. */
  lemma {:induction false} NextNumberIsTight(tags: seq<string>, prefix: string)
    ensures NextNumber(tags, prefix) == 1
            || exists tag :: tag in tags && Numbered(tag, prefix)
                             && ParseDecimal(tag[|prefix|..]) == NextNumber(tags, prefix) - 1
  {
    if tags != [] {
      var front, last := tags[..|tags| - 1], tags[|tags| - 1];
      NextNumberIsTight(front, prefix);
      if NextNumber(tags, prefix) != NextNumber(front, prefix) {
        assert last in tags;
      } else if NextNumber(front, prefix) != 1 {
        var tag :| tag in front && Numbered(tag, prefix)
                   && ParseDecimal(tag[|prefix|..]) == NextNumber(front, prefix) - 1;
        assert tag in tags;
      }
    }
  }

  /** No number from the chosen one upwards belongs to a tag or release that was seen. */
  lemma ChosenTagUnseen(tags: seq<string>, base: string, channel: Channel, n: nat)
    requires channel in {Beta, Rc} && n >= NextNumber(tags, TagPrefix(base, channel))
    ensures Identity(base, channel, Number(n)).Ok? ==>
              "v" + Identity(base, channel, Number(n)).value !in tags
  {
    NextNumberBeyond(tags, TagPrefix(base, channel), n);
    if Identity(base, channel, Number(n)).Ok? {
      assert "v" + Identity(base, channel, Number(n)).value == TagPrefix(base, channel) + Decimal(n);
    }
  }

  predicate Competes(reservation: Reservation, base: string, channel: Channel) {
    && reservation.plan.baseVersion == base
    && reservation.plan.channel == channel
    && reservation.plan.sequence.Number?
  }

  ghost function HighestReserved(plans: map<int, Reservation>, base: string, channel: Channel): (n: int)
    ensures n >= 0
    ensures n == 0 || exists k :: k in plans && Competes(plans[k], base, channel) && plans[k].plan.sequence.value == n
    ensures forall k | k in plans && Competes(plans[k], base, channel) :: plans[k].plan.sequence.value <= n
  {
    if exists k :: k in plans then
      var k :| k in plans;
      var others := plans - {k};
      var rest := HighestReserved(others, base, channel);
      assert forall j | j in plans :: j == k || (j in others && others[j] == plans[j]);
      if Competes(plans[k], base, channel) && plans[k].plan.sequence.value > rest
      then plans[k].plan.sequence.value else rest
    else 0
  }

  lemma HighestIsUnique(plans: map<int, Reservation>, base: string, channel: Channel, n: int)
    requires n >= 0
    requires n == 0 || exists k :: k in plans && Competes(plans[k], base, channel) && plans[k].plan.sequence.value == n
    requires forall k | k in plans && Competes(plans[k], base, channel) :: plans[k].plan.sequence.value <= n
    ensures n == HighestReserved(plans, base, channel)
  {
  }

  // ---- Decisions ----------------------------------------------------------------------

  function Max(a: int, b: int): int {
    if a >= b then a else b
  }

  ghost function ChooseSequence(l: Ledger, op: Operation, seen: Observation): Sequence
    requires op.Reserve?
  {
    match op.channel
    case Beta => Number(Max(NextNumber(seen.tags, TagPrefix(op.base, Beta)), HighestReserved(l.plans, op.base, Beta) + 1))
    case Rc => Number(Max(NextNumber(seen.tags, TagPrefix(op.base, Rc)), HighestReserved(l.plans, op.base, Rc) + 1))
    case Nightly =>
      if op.runId > 0 && op.attempt > 0 then Stamp(seen.now, op.runId, op.attempt)
      else OtherSequence(seen.now)
    case _ => NoSequence
  }

  /** Why a run that already holds a reservation may not reuse it; None when all its inputs are the same. */
  function RetryMismatch(record: Reservation, op: Operation): Option<Refusal>
    requires op.Reserve?
  {
    if !ValidPlanFor(record.plan, op.policy, op.sourceSha) then Some(PlanMismatch)
    else if record.plan.baseVersion != op.base || record.plan.channel != op.channel then Some(DifferentIdentity)
    else if record.parent != op.parent then Some(DifferentParent)
    else None
  }

  /** reserve_plan between its read and its write. */
  ghost function DecideReserve(l: Ledger, op: Operation, seen: Observation): Decision
    requires op.Reserve?
  {
    if op.runId <= 0 then Reject(InvalidRunId)
    else if op.runId in l.plans then
      var mismatch := RetryMismatch(l.plans[op.runId], op);
      if mismatch.Some? then Reject(mismatch.value) else Keep(l.plans[op.runId].plan)
    else if op.channel in {Beta, Rc} && !ValidBase(op.base) then Reject(Refused(BadBase))
    else if FloorOf(op.policy) < 0 then Reject(InvalidFloor)
    else
      var number := Max(l.counter, FloorOf(op.policy)) + 1;
      var plan := CreatePlan(op.base, op.channel, ChooseSequence(l, op, seen), op.sourceSha, op.policy, Some(number));
      if plan.Err? then Reject(Refused(plan.error))
      else if !seen.tagAbsent then Reject(TagExists)
      else Write(plan.value, Ledger(number, l.floor, l.plans[op.runId := Reservation(plan.value, op.parent)]))
  }

  /** The reservations whose plan is already public and passes the test. */
  predicate AnyPublished(l: Ledger, published: set<string>, wanted: Plan -> bool) {
    exists k | k in l.plans :: l.plans[k].plan.tag in published && wanted(l.plans[k].plan)
  }

  /** _verify_reservation; None means that every requirement holds. */
  function VerifyReservation(l: Ledger, plan: Plan, runId: int, parent: Option<Parent>,
                             published: set<string>): Option<Refusal>
  {
    if !ValidPlan(plan) then Some(InvalidPlan)
    else if runId <= 0 then Some(InvalidRunId)
    else if !(runId in l.plans && l.plans[runId] == Reservation(plan, parent)) then Some(ReservationDiffers)
    else if plan.buildNumber.None? then Some(InvalidPlan)
    else if plan.buildNumber.value <= l.floor then Some(BelowPublished)
    else if AnyPublished(l, published, (p: Plan) => p.buildNumber.Some? && p.buildNumber.value >= plan.buildNumber.value)
    then Some(NewerPublished)
    else None
  }

  function Matching(l: Ledger, plan: Plan): set<int> {
    set k | k in l.plans && l.plans[k].plan == plan
  }

  /** _verify_promotion_order; None means that every requirement holds. */
  function VerifyPromotionOrder(l: Ledger, plan: Plan, published: set<string>): Option<Refusal> {
    if !ValidPlan(plan) then Some(InvalidPlan)
    else if !(plan.channel.Rc? && plan.promotion.PromoteBytes?) then Some(NotPromotable)
    else if |Matching(l, plan)| != 1 then Some(NoUniqueReservation)
    else if plan.buildNumber.None? then Some(InvalidPlan)
    else if plan.buildNumber.value < l.floor then Some(BelowPublished)
    else if plan.tag !in published then Some(NotPublished)
    else if AnyPublished(l, published, (p: Plan) => p.tag != plan.tag && p.buildNumber.Some?
                                                    && p.buildNumber.value > plan.buildNumber.value)
    then Some(NewerPublished)
    else None
  }

  /** begin_publication between its read and its write. */
  function DecideBegin(l: Ledger, op: Operation, seen: Observation): Decision
    requires op.Begin?
  {
    if op.runId <= 0 then Reject(InvalidRunId)
    else
      var refusal := if op.promotion then VerifyPromotionOrder(l, op.plan, seen.published)
                     else VerifyReservation(l, op.plan, op.runId, op.parent, seen.published);
      if refusal.Some? then Reject(refusal.value)
      else Write(op.plan, l.(floor := op.plan.buildNumber.value))
  }

  ghost function Decide(l: Ledger, op: Operation, seen: Observation): Decision {
    if op.Reserve? then DecideReserve(l, op, seen) else DecideBegin(l, op, seen)
  }

  // ---- Invariants of a ledger -----------------------------------------------------------

  /** The checks read_state makes on a decoded ledger. */
  predicate Readable(l: Ledger) {
    && 0 <= l.floor <= l.counter
    && forall k | k in l.plans ::
         && k > 0
         && ValidPlan(l.plans[k].plan)
         && l.plans[k].plan.buildNumber.Some?
         && l.plans[k].plan.buildNumber.value <= l.counter
  }

  function BuildOf(l: Ledger, k: int): int
    requires Readable(l) && k in l.plans
  {
    l.plans[k].plan.buildNumber.value
  }

  ghost predicate DistinctBuilds(l: Ledger)
    requires Readable(l)
  {
    forall j, k | j in l.plans && k in l.plans && j != k :: BuildOf(l, j) != BuildOf(l, k)
  }

  ghost predicate SequencesFollowBuilds(l: Ledger)
    requires Readable(l)
  {
    forall j, k | j in l.plans && k in l.plans && l.plans[j].plan.channel in {Beta, Rc}
                  && Competes(l.plans[k], l.plans[j].plan.baseVersion, l.plans[j].plan.channel) ::
      BuildOf(l, j) < BuildOf(l, k) ==> l.plans[j].plan.sequence.value < l.plans[k].plan.sequence.value
  }

  ghost predicate NightliesCarryRun(l: Ledger) {
    forall k | k in l.plans && l.plans[k].plan.channel.Nightly? ::
      l.plans[k].plan.sequence.Stamp? && l.plans[k].plan.sequence.run == k
  }

  ghost predicate FloorIsReserved(l: Ledger)
    requires Readable(l)
  {
    l.floor == 0 || exists k :: k in l.plans && BuildOf(l, k) == l.floor
  }

  ghost predicate Sound(l: Ledger) {
    && Readable(l)
    && DistinctBuilds(l)
    && SequencesFollowBuilds(l)
    && NightliesCarryRun(l)
    && FloorIsReserved(l)
  }

  /** What any later ledger must keep of an earlier one. */
  ghost predicate Extends(later: Ledger, earlier: Ledger) {
    && earlier.counter <= later.counter
    && earlier.floor <= later.floor
    && forall k | k in earlier.plans :: k in later.plans && later.plans[k] == earlier.plans[k]
  }

  /** Adding one reservation whose build number and sequence lie above everything recorded. */
  lemma InsertKeepsSound(l: Ledger, key: int, added: Reservation, number: int)
    requires Sound(l) && key > 0 && key !in l.plans && number > l.counter
    requires ValidPlan(added.plan) && added.plan.buildNumber == Some(number)
    requires added.plan.channel.Nightly? ==> added.plan.sequence.Stamp? && added.plan.sequence.run == key
    requires added.plan.channel in {Beta, Rc} ==>
               added.plan.sequence.Number? && added.plan.sequence.value > HighestReserved(l.plans, added.plan.baseVersion, added.plan.channel)
    ensures Sound(Ledger(number, l.floor, l.plans[key := added]))
  {
    var next := Ledger(number, l.floor, l.plans[key := added]);
    assert Readable(next);
    forall j, k | j in next.plans && k in next.plans && j != k
      ensures BuildOf(next, j) != BuildOf(next, k)
    {
      assert (j != key ==> BuildOf(next, j) == BuildOf(l, j)) && (k != key ==> BuildOf(next, k) == BuildOf(l, k));
    }
    InsertKeepsSequences(l, key, added, number);
    assert FloorIsReserved(next) by {
      if l.floor != 0 {
        var k :| k in l.plans && BuildOf(l, k) == l.floor;
        assert BuildOf(next, k) == l.floor;
      }
    }
  }

  lemma InsertKeepsSequences(l: Ledger, key: int, added: Reservation, number: int)
    requires Readable(l) && SequencesFollowBuilds(l) && key !in l.plans && number > l.counter
    requires Readable(Ledger(number, l.floor, l.plans[key := added])) && added.plan.buildNumber == Some(number)
    requires added.plan.channel in {Beta, Rc} ==>
               added.plan.sequence.Number? && added.plan.sequence.value > HighestReserved(l.plans, added.plan.baseVersion, added.plan.channel)
    ensures SequencesFollowBuilds(Ledger(number, l.floor, l.plans[key := added]))
  {
    var next := Ledger(number, l.floor, l.plans[key := added]);
    forall j, k | j in next.plans && k in next.plans && next.plans[j].plan.channel in {Beta, Rc}
                  && Competes(next.plans[k], next.plans[j].plan.baseVersion, next.plans[j].plan.channel)
                  && BuildOf(next, j) < BuildOf(next, k)
      ensures next.plans[j].plan.sequence.value < next.plans[k].plan.sequence.value
    {
      hide ValidPlan;
      assert j != key;
      assert BuildOf(next, j) == BuildOf(l, j);
      if k != key {
        assert BuildOf(next, k) == BuildOf(l, k);
        assert Competes(l.plans[k], l.plans[j].plan.baseVersion, l.plans[j].plan.channel);
      } else {
        assert Competes(l.plans[j], added.plan.baseVersion, added.plan.channel);
      }
    }
  }

  lemma ReserveKeepsSound(l: Ledger, op: Operation, seen: Observation)
    requires op.Reserve? && Sound(l) && DecideReserve(l, op, seen).Write?
    ensures var next := DecideReserve(l, op, seen).next;
            Sound(next) && Extends(next, l) && next.counter > l.counter && op.runId !in l.plans
    ensures DecideReserve(l, op, seen).plan.buildNumber == Some(DecideReserve(l, op, seen).next.counter)
  {
    var number := Max(l.counter, FloorOf(op.policy)) + 1;
    var plan := DecideReserve(l, op, seen).plan;
    WrittenPlan(l, op, seen);
    hide DecideReserve, Sound, Readable, ValidPlan;
    CounterIsBelow(l);
    InsertKeepsSound(l, op.runId, Reservation(plan, op.parent), number);
  }

  lemma CounterIsBelow(l: Ledger)
    requires Sound(l)
    ensures 0 <= l.counter
  {
  }

  /** What a reservation writes is a valid plan above everything of its base and channel. */
  lemma WrittenPlan(l: Ledger, op: Operation, seen: Observation)
    requires op.Reserve? && DecideReserve(l, op, seen).Write?
    ensures var number, plan := Max(l.counter, FloorOf(op.policy)) + 1, DecideReserve(l, op, seen).plan;
            && op.runId > 0 && op.runId !in l.plans && number > l.counter
            && ValidPlan(plan) && plan.buildNumber == Some(number)
            && DecideReserve(l, op, seen).next == Ledger(number, l.floor, l.plans[op.runId := Reservation(plan, op.parent)])
            && (plan.channel.Nightly? ==> plan.sequence.Stamp? && plan.sequence.run == op.runId)
            && (plan.channel in {Beta, Rc} ==>
                  plan.sequence.Number? && plan.sequence.value > HighestReserved(l.plans, plan.baseVersion, plan.channel))
  {
    hide HighestReserved, NextNumber, ValidBase, IsHex, Projects, ValidPlan;
    ValidExactlyWhenCreated(DecideReserve(l, op, seen).plan, op.policy, op.sourceSha);
  }

  lemma SomeElement<T>(s: set<T>) returns (x: T)
    requires |s| > 0
    ensures x in s
  {
    assert s != {};
    x :| x in s;
  }

  lemma RaiseFloorKeepsSound(l: Ledger, k: int)
    requires Sound(l) && k in l.plans && BuildOf(l, k) >= l.floor
    ensures Sound(l.(floor := BuildOf(l, k)))
  {
    var next := l.(floor := BuildOf(l, k));
    assert next.plans == l.plans && Readable(next);
    assert forall j | j in l.plans :: BuildOf(next, j) == BuildOf(l, j);
  }

  /** A start that is let through belongs to a reservation of the ledger. */
  lemma BeginHasReservation(l: Ledger, op: Operation, seen: Observation) returns (k: int)
    requires op.Begin? && Sound(l) && DecideBegin(l, op, seen).Write?
    ensures k in l.plans && l.plans[k].plan == op.plan
  {
    if op.promotion {
      k := SomeElement(Matching(l, op.plan));
    } else {
      k := op.runId;
    }
  }

  lemma BeginKeepsSound(l: Ledger, op: Operation, seen: Observation)
    requires op.Begin? && Sound(l) && DecideBegin(l, op, seen).Write?
    ensures var next := DecideBegin(l, op, seen).next;
            && Sound(next) && Extends(next, l) && next.counter == l.counter
            && op.plan.buildNumber == Some(next.floor)
            && (if op.promotion then next.floor >= l.floor else next.floor > l.floor)
  {
    var k := BeginHasReservation(l, op, seen);
    RaiseFloorKeepsSound(l, k);
  }

  /** Two reservations share a tag exactly when both are stable plans of one base. */
  lemma SharedTagsAreStable(l: Ledger, j: int, k: int)
    requires Sound(l) && j in l.plans && k in l.plans && j != k
    ensures l.plans[j].plan.tag == l.plans[k].plan.tag
       <==> l.plans[j].plan.channel.Stable? && l.plans[k].plan.channel.Stable?
            && l.plans[j].plan.baseVersion == l.plans[k].plan.baseVersion
  {
    var p, q := l.plans[j].plan, l.plans[k].plan;
    if p.tag == q.tag {
      TagDeterminesIdentity(p, q);
      assert BuildOf(l, j) < BuildOf(l, k) || BuildOf(l, k) < BuildOf(l, j);
    }
  }

  /**
   * A run that holds a reservation never causes another write. It keeps its plan exactly when creating a
   * plan from its inputs, with the recorded sequence and build, would give the recorded plan again.
   */
  lemma RetryKeepsWhatItWouldCreate(l: Ledger, op: Operation, seen: Observation)
    requires op.Reserve? && op.runId in l.plans
    ensures var recorded, decision := l.plans[op.runId], DecideReserve(l, op, seen);
            && !decision.Write?
            && (decision == Keep(recorded.plan) <==>
                  && op.runId > 0 && recorded.parent == op.parent
                  && CreatePlan(op.base, op.channel, recorded.plan.sequence, op.sourceSha, op.policy,
                                recorded.plan.buildNumber) == Ok(recorded.plan))
  {
    ValidExactlyWhenCreated(l.plans[op.runId].plan, op.policy, op.sourceSha);
    hide ValidPlanFor;
  }

  /** After any reservation, the same request repeated against any later ledger yields the same plan. */
  lemma RetryReturnsSamePlan(l: Ledger, op: Operation, seen: Observation, later: Ledger, seen': Observation)
    requires op.Reserve? && DecideReserve(l, op, seen).Write?
    requires Extends(later, DecideReserve(l, op, seen).next)
    ensures DecideReserve(later, op, seen') == Keep(DecideReserve(l, op, seen).plan)
  {
    var plan := DecideReserve(l, op, seen).plan;
    ValidExactlyWhenCreated(plan, op.policy, op.sourceSha);
    assert DecideReserve(l, op, seen).next.plans[op.runId] == Reservation(plan, op.parent);
  }
}

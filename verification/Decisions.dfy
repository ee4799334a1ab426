/**
 * What a reservation and a start of a publication demand (scripts/release_state.py), said of the ledger and of
 * what was seen, one decision at a time and for every write that GitHub has accepted.
 */
module Decisions {
  import opened Wrappers
  import opened Text
  import opened Plans
  import opened Ledgers
  import opened Protocol

  // ---- Starts ------------------------------------------------------------------------------------------------

  /** Exactly one reservation holds the plan. */
  ghost predicate HeldOnce(l: Ledger, plan: Plan) {
    exists k :: k in l.plans && l.plans[k].plan == plan && forall j | j in l.plans && l.plans[j].plan == plan :: j == k
  }

  /** Published, and with a build above the given one. */
  ghost predicate PublishedAbove(r: Reservation, published: set<string>, build: int) {
    r.plan.tag in published && r.plan.buildNumber.Some? && r.plan.buildNumber.value > build
  }

  /** A published RC whose bytes become stable, not overtaken by any other publication. */
  ghost predicate MayPromote(l: Ledger, plan: Plan, published: set<string>) {
    && ValidPlan(plan) && plan.channel == Rc && plan.promotion == PromoteBytes && HeldOnce(l, plan)
    && plan.buildNumber.Some? && plan.buildNumber.value >= l.floor && plan.tag in published
    && forall k | k in l.plans && PublishedAbove(l.plans[k], published, plan.buildNumber.value) ::
         l.plans[k].plan.tag == plan.tag
  }

  /** The run's own reservation, above the floor and above everything that is published. */
  ghost predicate MayStart(l: Ledger, plan: Plan, runId: int, parent: Option<Parent>, published: set<string>) {
    && ValidPlan(plan) && runId in l.plans && l.plans[runId].plan == plan && l.plans[runId].parent == parent
    && plan.buildNumber.Some? && plan.buildNumber.value > l.floor
    && forall k | k in l.plans :: !PublishedAbove(l.plans[k], published, plan.buildNumber.value - 1)
  }

  lemma OneElement<T>(s: set<T>, x: T)
    requires x in s
    ensures |s| == 1 <==> forall y | y in s :: y == x
  {
    var rest := s - {x};
    assert s == rest + {x} && |s| == |rest| + 1;
    if forall y | y in s :: y == x { assert rest == {}; }
    if |s| == 1 { assert rest == {}; }
  }

  lemma HeldByOne(l: Ledger, plan: Plan)
    ensures |Matching(l, plan)| == 1 <==> HeldOnce(l, plan)
  {
    if |Matching(l, plan)| == 1 {
      var k := SomeElement(Matching(l, plan));
      OneElement(Matching(l, plan), k);
      assert forall j | j in l.plans && l.plans[j].plan == plan :: j in Matching(l, plan);
    }
    if HeldOnce(l, plan) {
      var k :| k in l.plans && l.plans[k].plan == plan && forall j | j in l.plans && l.plans[j].plan == plan :: j == k;
      OneElement(Matching(l, plan), k);
    }
  }

  lemma PromotionMeans(l: Ledger, plan: Plan, published: set<string>)
    ensures VerifyPromotionOrder(l, plan, published).None? <==> MayPromote(l, plan, published)
  {
    hide ValidPlan, Matching, HeldOnce;
    HeldByOne(l, plan);
    if plan.buildNumber.Some? {
      var wanted := (p: Plan) => p.tag != plan.tag && p.buildNumber.Some? && p.buildNumber.value > plan.buildNumber.value;
      assert AnyPublished(l, published, wanted) <==>
          exists k :: k in l.plans && PublishedAbove(l.plans[k], published, plan.buildNumber.value)
                      && l.plans[k].plan.tag != plan.tag;
    }
  }

  lemma StartMeans(l: Ledger, plan: Plan, runId: int, parent: Option<Parent>, published: set<string>)
    ensures VerifyReservation(l, plan, runId, parent, published).None?
       <==> runId > 0 && MayStart(l, plan, runId, parent, published)
  {
    hide ValidPlan;
    if plan.buildNumber.Some? {
      var wanted := (p: Plan) => p.buildNumber.Some? && p.buildNumber.value >= plan.buildNumber.value;
      assert AnyPublished(l, published, wanted) <==>
          exists k :: k in l.plans && PublishedAbove(l.plans[k], published, plan.buildNumber.value - 1);
    }
  }

  /** A start is let through exactly when it may be; it then raises the floor to its build and changes nothing else. */
  lemma BeginMeans(l: Ledger, op: Operation, seen: Observation)
    requires op.Begin?
    ensures DecideBegin(l, op, seen).Write?
       <==> op.runId > 0 && if op.promotion then MayPromote(l, op.plan, seen.published)
                            else MayStart(l, op.plan, op.runId, op.parent, seen.published)
    ensures DecideBegin(l, op, seen).Write? ==>
              && op.plan.buildNumber.Some? && DecideBegin(l, op, seen).plan == op.plan
              && DecideBegin(l, op, seen).next == Ledger(l.counter, op.plan.buildNumber.value, l.plans)
    ensures !DecideBegin(l, op, seen).Keep?
  {
    hide VerifyPromotionOrder, VerifyReservation;
    PromotionMeans(l, op.plan, seen.published);
    StartMeans(l, op.plan, op.runId, op.parent, seen.published);
  }

  // ---- Reservations ------------------------------------------------------------------------------------------

  /** A number that some reservation or some seen tag of the base and channel has. */
  ghost predicate TakenNumber(l: Ledger, tags: seq<string>, base: string, channel: Channel, n: int) {
    || (exists k :: k in l.plans && l.plans[k].plan.baseVersion == base && l.plans[k].plan.channel == channel
                    && l.plans[k].plan.sequence == Number(n))
    || (n > 0 && "v" + base + (if channel.Beta? then "-beta." else "-rc.") + Decimal(n) in tags)
  }

  /** The least positive number above all that are taken. */
  ghost predicate NextFree(l: Ledger, tags: seq<string>, base: string, channel: Channel, n: int) {
    && n > 0 && (forall m :: TakenNumber(l, tags, base, channel, m) ==> m < n)
    && (n == 1 || TakenNumber(l, tags, base, channel, n - 1))
  }

  /** The sequence that a reservation is to take. */
  ghost predicate TakesSequence(l: Ledger, op: Operation, seen: Observation, sequence: Sequence)
    requires op.Reserve?
  {
    match op.channel
    case Stable => sequence == NoSequence
    case Nightly => op.runId > 0 && op.attempt > 0 && sequence == Stamp(seen.now, op.runId, op.attempt)
    case OtherChannel(_) => false
    case _ => sequence.Number? && NextFree(l, seen.tags, op.base, op.channel, sequence.value)
  }

  /** The greater of the counter and the policy's floor, and one. */
  ghost predicate TakesBuild(l: Ledger, policy: Policy, build: int) {
    var floor := if policy.buildFloor.Some? then policy.buildFloor.value else 0;
    build > l.counter && build > floor && (build == l.counter + 1 || build == floor + 1)
  }

  /** A plan that a run without a reservation may be given. */
  ghost predicate MayReserve(l: Ledger, op: Operation, seen: Observation, plan: Plan)
    requires op.Reserve?
  {
    && op.runId > 0 && op.runId !in l.plans && seen.tagAbsent
    && ValidPlanFor(plan, op.policy, op.sourceSha) && plan.baseVersion == op.base && plan.channel == op.channel
    && TakesSequence(l, op, seen, plan.sequence) && plan.buildNumber.Some? && TakesBuild(l, op.policy, plan.buildNumber.value)
  }

  lemma NumberedIs(tag: string, prefix: string)
    ensures Numbered(tag, prefix) <==> exists n: nat :: n > 0 && tag == prefix + Decimal(n)
    ensures Numbered(tag, prefix) ==> tag == prefix + Decimal(ParseDecimal(tag[|prefix|..]))
  {
    if Numbered(tag, prefix) {
      var rest := tag[|prefix|..];
      NumeralMeans(rest);
      NotZero(rest);
      assert tag == prefix + rest;
    }
    forall n: nat | n > 0 && tag == prefix + Decimal(n) ensures Numbered(tag, prefix) {
      assert tag[|prefix|..] == Decimal(n);
    }
  }

  lemma TagNumber(tags: seq<string>, base: string, channel: Channel, n: nat)
    requires channel in {Beta, Rc} && n > 0
    ensures "v" + base + (if channel.Beta? then "-beta." else "-rc.") + Decimal(n) == TagPrefix(base, channel) + Decimal(n)
  {
    if channel.Beta? {
      assert "v" + base + "-beta." == TagPrefix(base, channel);
    } else {
      assert "v" + base + "-rc." == TagPrefix(base, channel);
    }
  }

  lemma {:induction false} TagsAreBelow(tags: seq<string>, prefix: string, n: nat)
    requires n > 0 && prefix + Decimal(n) in tags
    ensures n < NextNumber(tags, prefix)
  {
    if n >= NextNumber(tags, prefix) { NextNumberBeyond(tags, prefix, n); }
  }

  lemma TagIsTaken(l: Ledger, tags: seq<string>, base: string, channel: Channel)
    requires channel in {Beta, Rc} && NextNumber(tags, TagPrefix(base, channel)) > 1
    ensures TakenNumber(l, tags, base, channel, NextNumber(tags, TagPrefix(base, channel)) - 1)
  {
    hide Decimal, ParseDecimal, NextNumber;
    var prefix := TagPrefix(base, channel);
    var n := NextNumber(tags, prefix) - 1;
    NextNumberIsTight(tags, prefix);
    var tag :| tag in tags && Numbered(tag, prefix) && ParseDecimal(tag[|prefix|..]) == n;
    NumberedIs(tag, prefix);
    TagNumber(tags, base, channel, n);
  }

  lemma PlanIsTaken(l: Ledger, tags: seq<string>, base: string, channel: Channel)
    requires HighestReserved(l.plans, base, channel) > 0
    ensures TakenNumber(l, tags, base, channel, HighestReserved(l.plans, base, channel))
  {
    var k :| k in l.plans && Competes(l.plans[k], base, channel)
             && l.plans[k].plan.sequence.value == HighestReserved(l.plans, base, channel);
    hide HighestReserved;
  }

  /** The chosen number is the next free one, and there is only one of that kind. */
  lemma ChosenIsNextFree(l: Ledger, op: Operation, seen: Observation)
    requires op.Reserve? && op.channel in {Beta, Rc}
    ensures ChooseSequence(l, op, seen).Number?
    ensures NextFree(l, seen.tags, op.base, op.channel, ChooseSequence(l, op, seen).value)
  {
    hide NextNumber, HighestReserved, TakenNumber, TagPrefix;
    var n := ChooseSequence(l, op, seen).value;
    forall m | TakenNumber(l, seen.tags, op.base, op.channel, m) ensures m < n {
      BelowChosen(l, seen.tags, op.base, op.channel, m);
    }
    if n != 1 {
      if n == NextNumber(seen.tags, TagPrefix(op.base, op.channel)) {
        TagIsTaken(l, seen.tags, op.base, op.channel);
      } else {
        PlanIsTaken(l, seen.tags, op.base, op.channel);
      }
    }
  }

  lemma BelowChosen(l: Ledger, tags: seq<string>, base: string, channel: Channel, m: int)
    requires channel in {Beta, Rc} && TakenNumber(l, tags, base, channel, m)
    ensures m < NextNumber(tags, TagPrefix(base, channel)) || m < HighestReserved(l.plans, base, channel) + 1
  {
    if k :| k in l.plans && l.plans[k].plan.baseVersion == base && l.plans[k].plan.channel == channel
            && l.plans[k].plan.sequence == Number(m) {
      assert Competes(l.plans[k], base, channel);
    } else {
      TagNumber(tags, base, channel, m);
      TagsAreBelow(tags, TagPrefix(base, channel), m);
    }
  }

  lemma OneNextFree(l: Ledger, tags: seq<string>, base: string, channel: Channel, m: int, n: int)
    requires NextFree(l, tags, base, channel, m) && NextFree(l, tags, base, channel, n)
    ensures m == n
  {
    hide TakenNumber;
  }

  lemma SequenceMeans(l: Ledger, op: Operation, seen: Observation, sequence: Sequence)
    requires op.Reserve? && op.runId > 0 && ValidSequence(op.channel, sequence)
    ensures TakesSequence(l, op, seen, sequence) <==> sequence == ChooseSequence(l, op, seen)
  {
    hide NextFree, NextNumber, HighestReserved, ValidTimestamp;
    if op.channel in {Beta, Rc} {
      ChosenIsNextFree(l, op, seen);
      if TakesSequence(l, op, seen, sequence) {
        OneNextFree(l, seen.tags, op.base, op.channel, sequence.value, ChooseSequence(l, op, seen).value);
      }
    }
  }

  lemma BuildMeans(l: Ledger, policy: Policy, build: int)
    ensures TakesBuild(l, policy, build) <==> build == Max(l.counter, FloorOf(policy)) + 1
  {
  }

  /** What the plan of a policy and a commit says of its parts. */
  lemma PlanParts(plan: Plan, policy: Policy, sourceSha: string)
    requires ValidPlanFor(plan, policy, sourceSha)
    ensures ValidBase(plan.baseVersion) && ValidSequence(plan.channel, plan.sequence) && FloorOf(policy) >= 0
  {
    hide ValidBase, Projects, ValidTimestamp, IsHex;
  }

  lemma CreatedParts(base: string, channel: Channel, sequence: Sequence, sourceSha: string, policy: Policy, build: Option<int>)
    requires CreatePlan(base, channel, sequence, sourceSha, policy, build).Ok?
    ensures var plan := CreatePlan(base, channel, sequence, sourceSha, policy, build).value;
            plan.baseVersion == base && plan.channel == channel && plan.sequence == sequence && plan.buildNumber == build
  {
    hide Identity, Projects, IsHex;
  }

  /**
   * A run is given a new plan exactly when there is one that it may be given; it is that plan, and is added to
   * the ledger with its build as the new counter.
   */
  lemma ReserveMeans(l: Ledger, op: Operation, seen: Observation)
    requires op.Reserve?
    ensures DecideReserve(l, op, seen).Write? <==> exists plan :: MayReserve(l, op, seen, plan)
    ensures DecideReserve(l, op, seen).Write? ==>
              var d := DecideReserve(l, op, seen);
              && MayReserve(l, op, seen, d.plan)
              && d.next == Ledger(d.plan.buildNumber.value, l.floor, l.plans[op.runId := Reservation(d.plan, op.parent)])
  {
    hide ValidPlanFor, CreatePlan, ChooseSequence, TakesSequence, TakesBuild, RetryMismatch, ValidBase, ValidSequence, FloorOf;
    if DecideReserve(l, op, seen).Write? {
      var plan := DecideReserve(l, op, seen).plan;
      var number := Max(l.counter, FloorOf(op.policy)) + 1;
      CreatedParts(op.base, op.channel, ChooseSequence(l, op, seen), op.sourceSha, op.policy, Some(number));
      ValidExactlyWhenCreated(plan, op.policy, op.sourceSha);
      PlanParts(plan, op.policy, op.sourceSha);
      SequenceMeans(l, op, seen, plan.sequence);
      BuildMeans(l, op.policy, number);
      assert MayReserve(l, op, seen, plan);
    }
    forall plan | MayReserve(l, op, seen, plan) ensures DecideReserve(l, op, seen).Write? {
      ValidExactlyWhenCreated(plan, op.policy, op.sourceSha);
      PlanParts(plan, op.policy, op.sourceSha);
      SequenceMeans(l, op, seen, plan.sequence);
      BuildMeans(l, op.policy, plan.buildNumber.value);
    }
  }

  // ---- Refusals ------------------------------------------------------------------------------------------------

  /** What is amiss when a reservation or a start is refused for a reason. */
  ghost predicate RefusedFor(l: Ledger, op: Operation, seen: Observation, why: Refusal) {
    match why
    case InvalidRunId => op.runId <= 0
    case PlanMismatch =>
      op.Reserve? && op.runId in l.plans && !ValidPlanFor(l.plans[op.runId].plan, op.policy, op.sourceSha)
    case DifferentIdentity =>
      && op.Reserve? && op.runId in l.plans
      && (l.plans[op.runId].plan.baseVersion != op.base || l.plans[op.runId].plan.channel != op.channel)
    case DifferentParent => op.Reserve? && op.runId in l.plans && l.plans[op.runId].parent != op.parent
    case InvalidFloor => op.Reserve? && op.policy.buildFloor.Some? && op.policy.buildFloor.value < 0
    case Refused(_) => op.Reserve? && forall plan :: !MayReserve(l, op, seen, plan)
    case TagExists => op.Reserve? && !seen.tagAbsent
    case InvalidPlan => op.Begin? && (!ValidPlan(op.plan) || op.plan.buildNumber.None?)
    case ReservationDiffers =>
      op.Begin? && !op.promotion && !(op.runId in l.plans && l.plans[op.runId] == Reservation(op.plan, op.parent))
    case BelowPublished =>
      && op.Begin? && op.plan.buildNumber.Some?
      && if op.promotion then op.plan.buildNumber.value < l.floor else op.plan.buildNumber.value <= l.floor
    case NewerPublished =>
      && op.Begin? && op.plan.buildNumber.Some?
      && exists k :: k in l.plans
                     && PublishedAbove(l.plans[k], seen.published, op.plan.buildNumber.value - if op.promotion then 0 else 1)
    case NotPromotable => op.Begin? && op.promotion && !(op.plan.channel == Rc && op.plan.promotion == PromoteBytes)
    case NoUniqueReservation => op.Begin? && op.promotion && !HeldOnce(l, op.plan)
    case NotPublished => op.Begin? && op.promotion && op.plan.tag !in seen.published
    case _ => false
  }

  /** Every refusal names something that is amiss. */
  lemma RefusalsAreTrue(l: Ledger, op: Operation, seen: Observation)
    requires Decide(l, op, seen).Reject?
    ensures RefusedFor(l, op, seen, Decide(l, op, seen).why)
  {
    hide ValidPlan, ValidPlanFor, Matching, HeldOnce, MayReserve;
    if op.Reserve? {
      ReserveMeans(l, op, seen);
      hide CreatePlan, ChooseSequence;
    } else {
      HeldByOne(l, op.plan);
    }
  }

  // ---- Ledgers that are read ------------------------------------------------------------------------------------

  /** Floor and counter in order, and every recorded run with a valid plan whose build is in reach of the counter. */
  ghost predicate IsKept(l: Ledger) {
    && 0 <= l.floor && l.floor <= l.counter
    && forall run | run in l.plans ::
         && run >= 1 && ValidPlan(l.plans[run].plan)
         && l.plans[run].plan.buildNumber.Some? && 1 <= l.plans[run].plan.buildNumber.value <= l.counter
  }

  lemma ReadableMeans(l: Ledger)
    ensures Readable(l) <==> IsKept(l)
  {
    forall run | run in l.plans ensures ValidPlan(l.plans[run].plan) && l.plans[run].plan.buildNumber.Some? ==>
                                          l.plans[run].plan.buildNumber.value >= 1
    {
    }
  }

  // ---- Every accepted write -----------------------------------------------------------------------------------

  /** A write that was due: what it is based on is the ledger that the writes in front of it have left. */
  ghost predicate IsDue(before: Ledger, entry: Commit) {
    if entry.op.Reserve? then MayReserve(before, entry.op, entry.seen, entry.plan)
    else
      && entry.op.runId > 0 && entry.plan == entry.op.plan
      && if entry.op.promotion then MayPromote(before, entry.plan, entry.seen.published)
         else MayStart(before, entry.plan, entry.op.runId, entry.op.parent, entry.seen.published)
  }

  /** Whatever the interleaving, every accepted write was due in the ledger of its moment. */
  lemma EveryWriteIsDue(host: Host, events: seq<Event>, n: nat)
    requires Injective(host) && n < |Exec(host, START, events).log|
    ensures var log := Exec(host, START, events).log;
            Replay(log[..n]).Some? && IsDue(Replay(log[..n]).value, log[n])
  {
    hide Exec, Replay, Sound, DecideReserve, DecideBegin, MayReserve, MayStart, MayPromote;
    var log := Exec(host, START, events).log;
    LogReplays(host, events);
    ReplayStep(log, n);
    var before := Replay(log[..n]).value;
    if log[n].op.Reserve? {
      ReserveMeans(before, log[n].op, log[n].seen);
    } else {
      BeginMeans(before, log[n].op, log[n].seen);
    }
  }

  // ---- A write whose answer is lost ---------------------------------------------------------------------------

  ghost predicate IsPutting(host: Host, w: World, id: nat) {
    && id in w.runners && w.runners[id].Pending? && w.runners[id].stage.Putting? && w.runners[id].op.Reserve?
    && Accepts(host, w.cell, w.runners[id].sha)
  }

  /** The accepted write itself: the run fails, and its reservation is in the file. */
  lemma LostAnswer(host: Host, w: World, id: nat)
    requires Injective(host) && Valid(host, w) && IsPutting(host, w, id)
    ensures var r, lost := w.runners[id], Next(host, w, Put(id, false));
            && lost.runners[id] == Failed && lost.cell == File(r.next) && Valid(host, lost)
            && r.snapshot == LedgerOf(w.cell) && DecideReserve(LedgerOf(w.cell), r.op, r.seen) == Write(r.plan, r.next)
            && r.op.runId in r.next.plans && r.next.plans[r.op.runId] == Reservation(r.plan, r.op.parent)
  {
    hide Sound, DecideReserve, Replay;
    var r := w.runners[id];
    StepKeepsValid(host, w, Put(id, false));
    AcceptedMeansCurrent(host, w.cell, r.snapshot, r.sha);
    ReserveMeans(r.snapshot, r.op, r.seen);
    hide MayReserve;
  }

  lemma FileStays(host: Host, w: World, more: seq<Event>)
    requires w.cell.File?
    ensures Exec(host, w, more).cell.File?
    decreases |more|
  {
    hide Decide, Readable;
    if more != [] { FileStays(host, Next(host, w, more[0]), more[1..]); }
  }

  /**
   * A reservation whose answer was lost is not lost: whatever happens afterwards, the same request launched
   * again is told the same plan, and writes nothing.
   */
  lemma LostAnswerIsFoundAgain(host: Host, events: seq<Event>, id: nat, more: seq<Event>, again: nat, seen: Observation)
    requires Injective(host) && IsPutting(host, Exec(host, START, events), id)
    requires var later := Exec(host, Next(host, Exec(host, START, events), Put(id, false)), more);
             again !in later.runners && (later.cell.File? ==> !host.oversized(later.cell.content))
    ensures var w := Exec(host, START, events);
            var r, later := w.runners[id], Exec(host, Next(host, w, Put(id, false)), more);
            var done := Exec(host, later, [Launch(again, r.op), GetFile(again), Deciding(again, seen)]);
            && again in done.runners && done.runners[again] == Finished(r.op, r.plan) && done.cell == later.cell
  {
    hide Sound, DecideReserve, Replay, Extends, Exec, Next, Recorded, Readable;
    var w := Exec(host, START, events);
    StartIsValid(host);
    ExecKeepsValid(host, START, events);
    var r := w.runners[id];
    LostAnswer(host, w, id);
    var lost := Next(host, w, Put(id, false));
    ExecKeepsValid(host, lost, more);
    FileStays(host, lost, more);
    var later := Exec(host, lost, more);
    RetryReturnsSamePlan(LedgerOf(w.cell), r.op, r.seen, LedgerOf(later.cell), seen);
    SoundIsReadable(LedgerOf(later.cell));
    Answered(host, later, again, r.op, seen, r.plan);
  }

  lemma StartIsValid(host: Host)
    ensures Valid(host, START)
  {
  }

  lemma SoundIsReadable(l: Ledger)
    requires Sound(l)
    ensures Readable(l)
  {
  }

  lemma Answered(host: Host, w: World, id: nat, op: Operation, seen: Observation, plan: Plan)
    requires id !in w.runners && op.Reserve? && w.cell.File? && !host.oversized(w.cell.content) && Readable(w.cell.content)
    requires DecideReserve(w.cell.content, op, seen) == Keep(plan)
    ensures var done := Exec(host, w, [Launch(id, op), GetFile(id), Deciding(id, seen)]);
            id in done.runners && done.runners[id] == Finished(op, plan) && done.cell == w.cell
  {
    hide DecideReserve, Readable;
    var a := Next(host, w, Launch(id, op));
    var b := Next(host, a, GetFile(id));
    var c := Next(host, b, Deciding(id, seen));
    assert Exec(host, c, []) == c;
    assert Exec(host, b, [Deciding(id, seen)]) == c;
    assert Exec(host, a, [GetFile(id), Deciding(id, seen)]) == c;
  }
}

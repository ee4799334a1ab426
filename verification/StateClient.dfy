/**
 * scripts/release_state.py in its own form: the ledger is a mutable record that is read from
 * GitHub, changed in place and written back. The contracts say what a whole call does when
 * nobody interferes; Protocol says what remains true when everybody does.
 */
module StateClient {
  import opened Wrappers
  import opened Plans
  import opened Ledgers
  import opened Protocol
  import opened Decisions

  class GitHub {
    var cell: Cell
    const host: Host

    constructor (host: Host)
      ensures this.host == host && cell == NoBranch
    {
      this.host := host;
      cell := NoBranch;
    }

    method GetContents() returns (content: Option<(Ledger, Sha)>)
      ensures content == if cell.File? then Some((cell.content, host.sha(cell.content))) else None
    {
      content := match cell case File(l) => Some((l, host.sha(l))) case _ => None;
    }

    method CreateRef() returns (ok: bool)
      modifies this`cell
      ensures ok <==> old(cell).NoBranch?
      ensures cell == if old(cell).NoBranch? then BranchNoFile else old(cell)
    {
      ok := cell.NoBranch?;
      if ok {
        cell := BranchNoFile;
      }
    }

    method PutContents(content: Ledger, sha: Option<Sha>) returns (ok: bool)
      modifies this`cell
      ensures ok <==> Accepts(host, old(cell), sha)
      ensures cell == if ok then File(content) else old(cell)
    {
      ok := Accepts(host, cell, sha);
      if ok {
        cell := File(content);
      }
    }
  }

  /** The decoded ledger dictionary. */
  class LedgerState {
    var counter: int
    var publicationFloor: int
    var plans: map<int, Reservation>

    function Value(): Ledger
      reads this
    {
      Ledger(counter, publicationFloor, plans)
    }

    constructor (l: Ledger)
      ensures Value() == l
    {
      counter, publicationFloor, plans := l.counter, l.floor, l.plans;
    }
  }

  /** The answer of a whole call, and the file it leaves, when no other runner acts meanwhile. */
  ghost function Alone(host: Host, cell: Cell, op: Operation, seen: Observation): (Result<Plan, Refusal>, Cell) {
    if op.runId <= 0 then (Err(InvalidRunId), cell)
    else if cell.BranchNoFile? then (Err(MissingFile), cell)
    else if cell.File? && (host.oversized(cell.content) || !Readable(cell.content)) then (Err(UnreadableLedger), cell)
    else
      match Decide(LedgerOf(cell), op, seen)
      case Keep(plan) => (Ok(plan), cell)
      case Reject(why) => (Err(why), cell)
      case Write(plan, next) => (Ok(plan), File(next))
  }

  method ReadState(gh: GitHub) returns (r: Result<(LedgerState, Option<Sha>), Refusal>)
    ensures r.Err? <==> gh.cell.BranchNoFile?
                        || (gh.cell.File? && (gh.host.oversized(gh.cell.content) || !Readable(gh.cell.content)))
    ensures r.Err? ==> r.error == if gh.cell.BranchNoFile? then MissingFile else UnreadableLedger
    ensures r.Ok? && gh.cell.File? ==> IsKept(gh.cell.content)
    ensures r.Ok? ==> fresh(r.value.0) && r.value.0.Value() == LedgerOf(gh.cell)
                      && r.value.1 == if gh.cell.File? then Some(gh.host.sha(gh.cell.content)) else None
  {
    var content := gh.GetContents();
    if content.None? {
      if !gh.cell.NoBranch? {
        return Err(MissingFile);
      }
      var empty := new LedgerState(EMPTY);
      return Ok((empty, None));
    }
    var (l, sha) := content.value;
    if gh.host.oversized(l) || !Readable(l) {
      return Err(UnreadableLedger);
    }
    ReadableMeans(l);
    var state := new LedgerState(l);
    return Ok((state, Some(sha)));
  }

  method WriteState(gh: GitHub, state: LedgerState, previous: Option<Sha>) returns (ok: bool)
    modifies gh`cell
    ensures ok <==> Accepts(gh.host, old(gh.cell), previous)
    ensures gh.cell == if ok then File(state.Value()) else old(gh.cell)
  {
    ok := gh.PutContents(state.Value(), previous);
  }

  /** The highest sequence already reserved for a base in one channel, or 0. */
  method HighestOf(plans: map<int, Reservation>, base: string, channel: Channel) returns (n: int)
    ensures n == HighestReserved(plans, base, channel)
  {
    n := 0;
    var rest := plans.Keys;
    while |rest| > 0
      invariant rest <= plans.Keys && n >= 0
      invariant n == 0 || exists k :: k in plans && Competes(plans[k], base, channel) && plans[k].plan.sequence.value == n
      invariant forall k | k in plans && k !in rest && Competes(plans[k], base, channel) ::
                  plans[k].plan.sequence.value <= n
      decreases |rest|
    {
      ghost var some := SomeElement(rest);
      var k :| k in rest;
      if Competes(plans[k], base, channel) && plans[k].plan.sequence.value > n {
        n := plans[k].plan.sequence.value;
      }
      rest := rest - {k};
    }
    HighestIsUnique(plans, base, channel, n);
  }

  method SequenceFor(state: LedgerState, op: Operation, seen: Observation) returns (r: Result<Sequence, PlanError>)
    requires op.Reserve? && op.runId > 0
    ensures r == if op.channel in {Beta, Rc} && !ValidBase(op.base) then Err(BadBase)
                 else Ok(ChooseSequence(state.Value(), op, seen))
  {
    if op.channel in {Beta, Rc} {
      var next := NextSequence(seen.tags, op.base, op.channel);
      if next.Err? {
        return Err(next.error);
      }
      var reserved := HighestOf(state.plans, op.base, op.channel);
      return Ok(Number(Max(next.value, reserved + 1)));
    }
    if op.channel.Nightly? {
      return Ok(if op.attempt > 0 then Stamp(seen.now, op.runId, op.attempt) else OtherSequence(seen.now));
    }
    return Ok(NoSequence);
  }

  /** Allocate a new reservation in the ledger record itself; a refusal leaves it as it was. */
  method Allocate(state: LedgerState, op: Operation, seen: Observation) returns (r: Result<Plan, Refusal>)
    requires op.Reserve? && op.runId > 0 && op.runId !in state.plans
    modifies state
    ensures match DecideReserve(old(state.Value()), op, seen)
            case Write(plan, next) => r == Ok(plan) && state.Value() == next
            case Reject(why) => r == Err(why) && state.Value() == old(state.Value())
            case Keep(_) => false
  {
    var sequence := SequenceFor(state, op, seen);
    if sequence.Err? {
      return Err(Refused(sequence.error));
    }
    if FloorOf(op.policy) < 0 {
      return Err(InvalidFloor);
    }
    var number := Max(state.counter, FloorOf(op.policy)) + 1;
    var plan := CreatePlan(op.base, op.channel, sequence.value, op.sourceSha, op.policy, Some(number));
    if plan.Err? {
      return Err(Refused(plan.error));
    }
    if !seen.tagAbsent {
      return Err(TagExists);
    }
    state.counter := number;
    state.plans := state.plans[op.runId := Reservation(plan.value, op.parent)];
    return Ok(plan.value);
  }

  /** A file, or the absence of the whole branch, that a call can start from. */
  ghost predicate CanBeRead(host: Host, cell: Cell) {
    !cell.BranchNoFile? && (cell.File? ==> !host.oversized(cell.content) && IsKept(cell.content))
  }

  /** What a reservation answers and leaves, said by what it demands. */
  ghost predicate IsReserved(host: Host, cell: Cell, op: Operation, seen: Observation, r: Result<Plan, Refusal>, after: Cell)
    requires op.Reserve?
  {
    var l := LedgerOf(cell);
    if op.runId <= 0 || !CanBeRead(host, cell) then r.Err? && after == cell
    else if op.runId in l.plans then
      && after == cell
      && (r.Ok? <==> && ValidPlanFor(l.plans[op.runId].plan, op.policy, op.sourceSha)
                     && l.plans[op.runId].plan.baseVersion == op.base && l.plans[op.runId].plan.channel == op.channel
                     && l.plans[op.runId].parent == op.parent)
      && (r.Ok? ==> r.value == l.plans[op.runId].plan)
    else
      && (r.Ok? <==> exists plan :: MayReserve(l, op, seen, plan))
      && (r.Err? ==> after == cell)
      && (r.Ok? ==>
            && MayReserve(l, op, seen, r.value)
            && after == File(Ledger(r.value.buildNumber.value, l.floor, l.plans[op.runId := Reservation(r.value, op.parent)])))
  }

  lemma AloneReserves(host: Host, cell: Cell, op: Operation, seen: Observation)
    requires op.Reserve?
    ensures IsReserved(host, cell, op, seen, Alone(host, cell, op, seen).0, Alone(host, cell, op, seen).1)
  {
    hide ValidPlanFor, MayReserve, CreatePlan, ChooseSequence, IsKept, Readable;
    if cell.File? { ReadableMeans(cell.content); }
    ReserveMeans(LedgerOf(cell), op, seen);
  }

  /** A start succeeds exactly when the file can be read and lets it through; then the floor is its build. */
  ghost predicate IsBegun(host: Host, cell: Cell, op: Operation, seen: Observation, r: Result<Plan, Refusal>, after: Cell)
    requires op.Begin?
  {
    && (r.Ok? <==>
          && op.runId > 0 && cell.File? && CanBeRead(host, cell)
          && if op.promotion then MayPromote(cell.content, op.plan, seen.published)
             else MayStart(cell.content, op.plan, op.runId, op.parent, seen.published))
    && (r.Err? ==> after == cell)
    && (r.Ok? ==>
          && r.value == op.plan && op.plan.buildNumber.Some?
          && after == File(Ledger(LedgerOf(cell).counter, op.plan.buildNumber.value, LedgerOf(cell).plans)))
  }

  lemma AloneBegins(host: Host, cell: Cell, op: Operation, seen: Observation)
    requires op.Begin?
    ensures IsBegun(host, cell, op, seen, Alone(host, cell, op, seen).0, Alone(host, cell, op, seen).1)
  {
    hide MayPromote, MayStart, IsKept, Readable, DecideBegin;
    if cell.File? { ReadableMeans(cell.content); }
    BeginMeans(LedgerOf(cell), op, seen);
    NothingToBegin(op, seen);
  }

  method ReservePlan(gh: GitHub, op: Operation, seen: Observation) returns (r: Result<Plan, Refusal>)
    requires op.Reserve?
    modifies gh`cell
    ensures (r, gh.cell) == Alone(gh.host, old(gh.cell), op, seen)
    ensures IsReserved(gh.host, old(gh.cell), op, seen, r, gh.cell)
  {
    hide IsReserved, IsKept;
    AloneReserves(gh.host, gh.cell, op, seen);
    if op.runId <= 0 {
      return Err(InvalidRunId);
    }
    var read := ReadState(gh);
    if read.Err? {
      return Err(read.error);
    }
    var (state, previous) := read.value;
    if op.runId in state.plans {
      var mismatch := RetryMismatch(state.plans[op.runId], op);
      return if mismatch.Some? then Err(mismatch.value) else Ok(state.plans[op.runId].plan);
    }
    r := Allocate(state, op, seen);
    if r.Err? {
      return;
    }
    if gh.cell.NoBranch? {
      var created := gh.CreateRef();
      assert created;
    }
    var written := WriteState(gh, state, previous);
    assert written;
  }

  method BeginPublication(gh: GitHub, op: Operation, seen: Observation) returns (r: Result<Plan, Refusal>)
    requires op.Begin?
    modifies gh`cell
    ensures (r, gh.cell) == Alone(gh.host, old(gh.cell), op, seen)
    ensures IsBegun(gh.host, old(gh.cell), op, seen, r, gh.cell)
  {
    hide IsBegun, IsKept;
    AloneBegins(gh.host, gh.cell, op, seen);
    if op.runId <= 0 {
      return Err(InvalidRunId);
    }
    var read := ReadState(gh);
    if read.Err? {
      return Err(read.error);
    }
    var (state, previous) := read.value;
    var refusal := if op.promotion then VerifyPromotionOrder(state.Value(), op.plan, seen.published)
                   else VerifyReservation(state.Value(), op.plan, op.runId, op.parent, seen.published);
    if refusal.Some? {
      return Err(refusal.value);
    }
    NothingToBegin(op, seen);
    state.publicationFloor := op.plan.buildNumber.value;
    var written := WriteState(gh, state, previous);
    assert written;
    return Ok(op.plan);
  }

  /** No publication can start on an empty ledger, so a start never needs to create the branch. */
  lemma NothingToBegin(op: Operation, seen: Observation)
    requires op.Begin?
    ensures DecideBegin(EMPTY, op, seen).Reject?
  {
    assert Matching(EMPTY, op.plan) == {};
  }

  // ---- The call is a run of the protocol -----------------------------------------------------

  function SoloEvents(id: nat, op: Operation, seen: Observation): seq<Event> {
    [Launch(id, op), GetFile(id), GetRef(id), Deciding(id, seen), ProbeRef(id), PostRef(id), Put(id, true)]
  }

  /** Without interference the interleaved machine does exactly what the sequential call does. */
  lemma AloneIsARun(host: Host, w: World, id: nat, op: Operation, seen: Observation)
    requires id !in w.runners && op.runId > 0
    ensures var w' := Exec(host, w, SoloEvents(id, op, seen));
            var (answer, cell) := Alone(host, w.cell, op, seen);
            && w'.cell == cell
            && id in w'.runners
            && w'.runners[id] == if answer.Ok? then Finished(op, answer.value) else Failed
  {
    var w1 := Next(host, w, Launch(id, op));
    var w2 := Next(host, w1, GetFile(id));
    var w3 := Next(host, w2, GetRef(id));
    var w4 := Next(host, w3, Deciding(id, seen));
    var w5 := Next(host, w4, ProbeRef(id));
    var w6 := Next(host, w5, PostRef(id));
    var w7 := Next(host, w6, Put(id, true));
    SoloAnswer(host, w, id, op, seen);
    assert Exec(host, w7, []) == w7;
    assert Exec(host, w6, [Put(id, true)]) == w7;
    assert Exec(host, w5, [PostRef(id), Put(id, true)]) == w7;
    assert Exec(host, w4, [ProbeRef(id), PostRef(id), Put(id, true)]) == w7;
    assert Exec(host, w3, [Deciding(id, seen), ProbeRef(id), PostRef(id), Put(id, true)]) == w7;
    assert Exec(host, w2, [GetRef(id), Deciding(id, seen), ProbeRef(id), PostRef(id), Put(id, true)]) == w7;
    assert Exec(host, w1, [GetFile(id), GetRef(id), Deciding(id, seen), ProbeRef(id), PostRef(id), Put(id, true)]) == w7;
  }

  lemma SoloAnswer(host: Host, w: World, id: nat, op: Operation, seen: Observation)
    requires id !in w.runners && op.runId > 0
    ensures var w3 := Next(host, Next(host, Next(host, w, Launch(id, op)), GetFile(id)), GetRef(id));
            var w7 := Next(host, Next(host, Next(host, Next(host, w3, Deciding(id, seen)), ProbeRef(id)), PostRef(id)), Put(id, true));
            var (answer, cell) := Alone(host, w.cell, op, seen);
            && w7.cell == cell
            && id in w7.runners
            && w7.runners[id] == if answer.Ok? then Finished(op, answer.value) else Failed
  {
    var w3 := Next(host, Next(host, Next(host, w, Launch(id, op)), GetFile(id)), GetRef(id));
    if w3.runners[id].Loaded? {
      SoloDecision(host, w3, id, op, seen);
    }
  }

  /** A runner that has ended takes no further step. */
  lemma EndedStays(host: Host, w: World, id: nat)
    requires id in w.runners && (w.runners[id].Finished? || w.runners[id].Failed?)
    ensures Next(host, w, ProbeRef(id)) == w && Next(host, w, PostRef(id)) == w && Next(host, w, Put(id, true)) == w
  {
  }

  lemma SoloWrite(host: Host, w: World, id: nat)
    requires id in w.runners && w.runners[id].Pending? && !w.cell.BranchNoFile?
    requires w.runners[id].stage == if w.runners[id].op.Reserve? then Probing else Putting
    requires w.runners[id].op.Begin? ==> w.cell.File?
    requires w.runners[id].sha == if w.cell.File? then Some(host.sha(w.cell.content)) else None
    ensures var r, w' := w.runners[id], Next(host, Next(host, Next(host, w, ProbeRef(id)), PostRef(id)), Put(id, true));
            id in w'.runners && w'.cell == File(r.next) && w'.runners[id] == Finished(r.op, r.plan)
  {
  }

  lemma SoloDecision(host: Host, w: World, id: nat, op: Operation, seen: Observation)
    requires id in w.runners && w.runners[id].Loaded? && w.runners[id].op == op && !w.cell.BranchNoFile?
    requires w.runners[id].snapshot == LedgerOf(w.cell)
    requires w.runners[id].sha == if w.cell.File? then Some(host.sha(w.cell.content)) else None
    ensures var w' := Next(host, Next(host, Next(host, Next(host, w, Deciding(id, seen)), ProbeRef(id)), PostRef(id)), Put(id, true));
            id in w'.runners && match Decide(LedgerOf(w.cell), op, seen)
              case Keep(plan) => w'.cell == w.cell && w'.runners[id] == Finished(op, plan)
              case Reject(_) => w'.cell == w.cell && w'.runners[id] == Failed
              case Write(plan, next) => w'.cell == File(next) && w'.runners[id] == Finished(op, plan)
  {
    hide Next, Decide;
    var r := w.runners[id];
    DecidesNext(host, w, id, seen);
    var w' := Next(host, w, Deciding(id, seen));
    if Decide(r.snapshot, op, seen).Write? {
      OnlyWhatIsReserved(r.snapshot, op, seen);
      SoloWrite(host, w', id);
    } else {
      EndedStays(host, w', id);
    }
  }

  lemma DecidesNext(host: Host, w: World, id: nat, seen: Observation)
    requires id in w.runners && w.runners[id].Loaded?
    ensures var w' := Next(host, w, Deciding(id, seen));
            w'.cell == w.cell && id in w'.runners && w'.runners[id] == AfterDecision(w.runners[id], seen)
  {
    hide Decide;
  }

  lemma OnlyWhatIsReserved(l: Ledger, op: Operation, seen: Observation)
    requires Decide(l, op, seen).Write?
    ensures op.Begin? ==> l != EMPTY
  {
    if op.Begin? { NothingToBegin(op, seen); }
  }
}

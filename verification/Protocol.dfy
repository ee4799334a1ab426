/**
 * Any number of runners working on one shared ledger file (scripts/release_state.py).
 * Every GitHub request is one step; the steps of all runners interleave in any order, and a
 * runner may die, or lose the answer of its write, at any moment.
 */
module Protocol {
  import opened Wrappers
  import opened Text
  import opened Plans
  import opened Ledgers

  /** The shared file on its branch. */
  datatype Cell = NoBranch | BranchNoFile | File(content: Ledger)

  type Sha = string

  /** GitHub's content hash, and the size limit that read_state puts on the encoded ledger. */
  datatype Host = Host(sha: Ledger -> Sha, oversized: Ledger -> bool)

  ghost predicate Injective(host: Host) {
    forall a: Ledger, b: Ledger :: host.sha(a) == host.sha(b) ==> a == b
  }

  datatype Stage = Probing | CreatingBranch | Putting

  datatype Runner =
    | Ready(op: Operation)
    | SawNoFile(op: Operation)
    | Loaded(op: Operation, snapshot: Ledger, sha: Option<Sha>)
    | Pending(op: Operation, seen: Observation, snapshot: Ledger, sha: Option<Sha>,
              plan: Plan, next: Ledger, stage: Stage)
    | Finished(op: Operation, result: Plan)
    | Failed

  /** One write that GitHub has accepted, with everything its decision was based on. */
  datatype Commit = Commit(op: Operation, seen: Observation, plan: Plan)

  datatype World = World(cell: Cell, runners: map<nat, Runner>, log: seq<Commit>)

  const START := World(NoBranch, map[], [])

  datatype Event =
    | Launch(id: nat, op: Operation)
    | GetFile(id: nat)
    | GetRef(id: nat)
    | Deciding(id: nat, seen: Observation)
    | ProbeRef(id: nat)
    | PostRef(id: nat)
    | Put(id: nat, acknowledged: bool)
    | Crash(id: nat)

  /** A missing file or branch holds no reservations. */
  function LedgerOf(cell: Cell): Ledger {
    if cell.File? then cell.content else EMPTY
  }

  // ---- One step ---------------------------------------------------------------------

  function SetRunner(w: World, id: nat, r: Runner): World {
    w.(runners := w.runners[id := r])
  }

  /** GitHub accepts a write exactly for the current blob's sha, or for no sha and no file. */
  predicate Accepts(host: Host, cell: Cell, sha: Option<Sha>) {
    match cell
    case NoBranch => false
    case BranchNoFile => sha.None?
    case File(content) => sha == Some(host.sha(content))
  }

  function AfterRead(host: Host, op: Operation, cell: Cell): Runner {
    if !cell.File? then SawNoFile(op)
    else if host.oversized(cell.content) || !Readable(cell.content) then Failed
    else Loaded(op, cell.content, Some(host.sha(cell.content)))
  }

  ghost function AfterDecision(r: Runner, seen: Observation): Runner
    requires r.Loaded?
  {
    match Decide(r.snapshot, r.op, seen)
    case Keep(plan) => Finished(r.op, plan)
    case Reject(_) => Failed
    case Write(plan, next) =>
      Pending(r.op, seen, r.snapshot, r.sha, plan, next, if r.op.Reserve? then Probing else Putting)
  }

  /** An event that does not apply to its runner leaves the world as it is. */
  ghost function Next(host: Host, w: World, e: Event): World {
    if e.Launch? then
      if e.id in w.runners then w else SetRunner(w, e.id, Ready(e.op))
    else if e.id !in w.runners then w
    else
      var r := w.runners[e.id];
      match e
      case GetFile(id) => if r.Ready? then SetRunner(w, id, AfterRead(host, r.op, w.cell)) else w
      case GetRef(id) =>
        if !r.SawNoFile? then w
        else SetRunner(w, id, if w.cell.NoBranch? then Loaded(r.op, EMPTY, None) else Failed)
      case Deciding(id, seen) => if r.Loaded? then SetRunner(w, id, AfterDecision(r, seen)) else w
      case ProbeRef(id) =>
        if !(r.Pending? && r.stage.Probing?) then w
        else SetRunner(w, id, r.(stage := if w.cell.NoBranch? then CreatingBranch else Putting))
      case PostRef(id) =>
        if !(r.Pending? && r.stage.CreatingBranch?) then w
        else if w.cell.NoBranch? then SetRunner(w.(cell := BranchNoFile), id, r.(stage := Putting))
        else SetRunner(w, id, Failed)
      case Put(id, acknowledged) =>
        if !(r.Pending? && r.stage.Putting?) then w
        else if !Accepts(host, w.cell, r.sha) then SetRunner(w, id, Failed)
        else
          World(File(r.next),
                w.runners[id := if acknowledged then Finished(r.op, r.plan) else Failed],
                w.log + [Commit(r.op, r.seen, r.plan)])
      case Crash(id) => SetRunner(w, id, Failed)
  }

  ghost function Exec(host: Host, w: World, events: seq<Event>): World
    decreases |events|
  {
    if events == [] then w else Exec(host, Next(host, w, events[0]), events[1..])
  }

  // ---- The sequential meaning ----------------------------------------------------------

  /** Run the logged operations one at a time, each on the ledger the previous one left. */
  ghost function Replay(log: seq<Commit>): Option<Ledger>
    decreases |log|
  {
    if log == [] then Some(EMPTY)
    else
      var before, last := Replay(log[..|log| - 1]), log[|log| - 1];
      if before.None? then None
      else
        match Decide(before.value, last.op, last.seen)
        case Write(plan, next) => if plan == last.plan then Some(next) else None
        case _ => None
  }

  // ---- Invariant -----------------------------------------------------------------------

  /** A runner's snapshot is the blob that its sha names, or nothing when it holds no sha. */
  predicate HonestSnapshot(host: Host, snapshot: Ledger, sha: Option<Sha>) {
    match sha
    case None => snapshot == EMPTY
    case Some(s) => s == host.sha(snapshot)
  }

  /** A finished reservation is, and stays, recorded under its run. */
  predicate Recorded(l: Ledger, op: Operation, plan: Plan) {
    if op.Reserve? then op.runId in l.plans && l.plans[op.runId] == Reservation(plan, op.parent)
    else op.plan == plan && plan.buildNumber.Some? && plan.buildNumber.value <= l.floor
  }

  ghost predicate RunnerOk(host: Host, l: Ledger, r: Runner) {
    match r
    case Loaded(op, snapshot, sha) => HonestSnapshot(host, snapshot, sha) && Extends(l, snapshot)
    case Pending(op, seen, snapshot, sha, plan, next, stage) =>
      && HonestSnapshot(host, snapshot, sha)
      && Decide(snapshot, op, seen) == Write(plan, next)
    case Finished(op, plan) => Recorded(l, op, plan)
    case _ => true
  }

  ghost predicate Valid(host: Host, w: World) {
    && Sound(LedgerOf(w.cell))
    && Replay(w.log) == Some(LedgerOf(w.cell))
    && forall id | id in w.runners :: RunnerOk(host, LedgerOf(w.cell), w.runners[id])
  }

  lemma WriteExtends(l: Ledger, op: Operation, seen: Observation)
    requires Sound(l) && Decide(l, op, seen).Write?
    ensures var d := Decide(l, op, seen);
            && Sound(d.next) && Extends(d.next, l) && Recorded(d.next, op, d.plan)
  {
    if op.Reserve? { ReserveKeepsSound(l, op, seen); } else { BeginKeepsSound(l, op, seen); }
  }

  lemma RunnerOkExtends(host: Host, earlier: Ledger, later: Ledger, r: Runner)
    requires RunnerOk(host, earlier, r) && Extends(later, earlier)
    ensures RunnerOk(host, later, r)
  {
  }

  /** What an accepted write was computed from is what the cell holds at that very moment. */
  lemma AcceptedMeansCurrent(host: Host, cell: Cell, snapshot: Ledger, sha: Option<Sha>)
    requires Injective(host) && HonestSnapshot(host, snapshot, sha) && Accepts(host, cell, sha)
    ensures snapshot == LedgerOf(cell)
  {
  }

  lemma PutKeepsValid(host: Host, w: World, e: Event)
    requires Injective(host) && Valid(host, w) && e.Put?
    ensures Valid(host, Next(host, w, e)) && Extends(LedgerOf(Next(host, w, e).cell), LedgerOf(w.cell))
  {
    hide Sound, Decide, Recorded;
    var w' := Next(host, w, e);
    if w'.log != w.log {
      var r := w.runners[e.id];
      AcceptedMeansCurrent(host, w.cell, r.snapshot, r.sha);
      WriteExtends(r.snapshot, r.op, r.seen);
      assert w'.log[..|w'.log| - 1] == w.log;
      forall id | id in w'.runners ensures RunnerOk(host, r.next, w'.runners[id]) {
        if id != e.id { RunnerOkExtends(host, LedgerOf(w.cell), r.next, w.runners[id]); }
      }
    }
  }

  lemma StepKeepsValid(host: Host, w: World, e: Event)
    requires Injective(host) && Valid(host, w)
    ensures Valid(host, Next(host, w, e)) && Extends(LedgerOf(Next(host, w, e).cell), LedgerOf(w.cell))
  {
    hide Decide, Sound, Replay;
    if e.Put? {
      PutKeepsValid(host, w, e);
    } else if e.Deciding? && e.id in w.runners && w.runners[e.id].Loaded? {
      DecisionOk(host, LedgerOf(w.cell), w.runners[e.id], e.seen);
    }
  }

  lemma DecisionOk(host: Host, l: Ledger, r: Runner, seen: Observation)
    requires r.Loaded? && RunnerOk(host, l, r)
    ensures RunnerOk(host, l, AfterDecision(r, seen))
  {
  }

  lemma {:induction false} ExecKeepsValid(host: Host, w: World, events: seq<Event>)
    requires Injective(host) && Valid(host, w)
    ensures Valid(host, Exec(host, w, events))
    ensures Extends(LedgerOf(Exec(host, w, events).cell), LedgerOf(w.cell))
    decreases |events|
  {
    if events != [] {
      StepKeepsValid(host, w, events[0]);
      ExecKeepsValid(host, Next(host, w, events[0]), events[1..]);
    }
  }

  // ---- Main results -----------------------------------------------------------------------

  /** No lost update: any interleaving leaves the ledger of the accepted writes run one at a time. */
  lemma Linearizable(host: Host, events: seq<Event>)
    requires Injective(host)
    ensures var w := Exec(host, START, events);
            Replay(w.log) == Some(LedgerOf(w.cell))
  {
    ExecKeepsValid(host, START, events);
  }

  /** In every reachable ledger builds are distinct and bounded, sequences follow builds, the floor is reserved. */
  lemma ReachableIsSound(host: Host, events: seq<Event>)
    requires Injective(host)
    ensures Sound(LedgerOf(Exec(host, START, events).cell))
  {
    ExecKeepsValid(host, START, events);
  }

  /** From any reachable world on, counter and floor never fall and no reservation changes or disappears. */
  lemma NothingIsForgotten(host: Host, events: seq<Event>, more: seq<Event>)
    requires Injective(host)
    ensures var w := Exec(host, START, events);
            Extends(LedgerOf(Exec(host, w, more).cell), LedgerOf(w.cell))
  {
    ExecKeepsValid(host, START, events);
    ExecKeepsValid(host, Exec(host, START, events), more);
  }

  /** A plan that a run was told it reserved is in the ledger then and ever after. */
  lemma AnswersAreDurable(host: Host, events: seq<Event>, more: seq<Event>, id: nat)
    requires Injective(host)
    requires var w := Exec(host, START, events); id in w.runners && w.runners[id].Finished?
    ensures var w := Exec(host, START, events);
            Recorded(LedgerOf(Exec(host, w, more).cell), w.runners[id].op, w.runners[id].result)
  {
    var w := Exec(host, START, events);
    ExecKeepsValid(host, START, events);
    ExecKeepsValid(host, w, more);
    RunnerOkExtends(host, LedgerOf(w.cell), LedgerOf(Exec(host, w, more).cell), w.runners[id]);
  }

  // ---- The log of accepted writes ------------------------------------------------------------

  function BuildOfCommit(c: Commit): int {
    if c.plan.buildNumber.Some? then c.plan.buildNumber.value else 0
  }

  lemma {:induction false} ReplayPrefix(log: seq<Commit>, n: nat)
    requires Replay(log).Some? && n <= |log|
    ensures Replay(log[..n]).Some?
    decreases |log|
  {
    if n < |log| {
      ReplayPrefix(log[..|log| - 1], n);
      assert log[..|log| - 1][..n] == log[..n];
    } else {
      assert log[..n] == log;
    }
  }

  lemma {:induction false} ReplaySound(log: seq<Commit>)
    requires Replay(log).Some?
    ensures Sound(Replay(log).value)
    decreases |log|
  {
    if log != [] {
      var last := log[|log| - 1];
      ReplaySound(log[..|log| - 1]);
      WriteExtends(Replay(log[..|log| - 1]).value, last.op, last.seen);
    }
  }

  /** The ledger just before the n-th accepted write decided exactly that write. */
  lemma ReplayStep(log: seq<Commit>, n: nat)
    requires Replay(log).Some? && n < |log|
    ensures Replay(log[..n]).Some? && Replay(log[..n + 1]).Some? && Sound(Replay(log[..n]).value)
    ensures Decide(Replay(log[..n]).value, log[n].op, log[n].seen)
         == Write(log[n].plan, Replay(log[..n + 1]).value)
  {
    hide Decide, Sound;
    ReplayPrefix(log, n + 1);
    assert log[..n + 1][..n] == log[..n];
    ReplayPrefix(log[..n + 1], n);
    ReplaySound(log[..n]);
  }

  lemma ExtendsTransitive(a: Ledger, b: Ledger, c: Ledger)
    requires Extends(c, b) && Extends(b, a)
    ensures Extends(c, a)
  {
  }

  lemma ReplayStepExtends(log: seq<Commit>, n: nat)
    requires Replay(log).Some? && n < |log|
    ensures Replay(log[..n]).Some? && Replay(log[..n + 1]).Some?
    ensures Extends(Replay(log[..n + 1]).value, Replay(log[..n]).value)
  {
    ReplayStep(log, n);
    WriteExtends(Replay(log[..n]).value, log[n].op, log[n].seen);
  }

  lemma {:induction false} ChainExtends(ledgers: seq<Ledger>, m: nat, n: nat)
    requires m <= n < |ledgers|
    requires forall i | 0 <= i < |ledgers| - 1 :: Extends(ledgers[i + 1], ledgers[i])
    ensures Extends(ledgers[n], ledgers[m])
    decreases n
  {
    if m < n {
      ChainExtends(ledgers, m, n - 1);
      assert Extends(ledgers[n - 1 + 1], ledgers[n - 1]);
      ExtendsTransitive(ledgers[m], ledgers[n - 1], ledgers[n]);
    }
  }

  lemma ReplayExtends(log: seq<Commit>, m: nat, n: nat)
    requires Replay(log).Some? && m <= n <= |log|
    ensures Replay(log[..m]).Some? && Replay(log[..n]).Some?
    ensures Extends(Replay(log[..n]).value, Replay(log[..m]).value)
  {
    var ledgers := seq(|log| + 1, i requires 0 <= i <= |log| =>
      if Replay(log[..i]).Some? then Replay(log[..i]).value else EMPTY);
    forall i | 0 <= i < |log| ensures Extends(ledgers[i + 1], ledgers[i]) {
      ReplayStepExtends(log, i);
    }
    ReplayPrefix(log, m);
    ReplayPrefix(log, n);
    ChainExtends(ledgers, m, n);
  }

  /** The n-th accepted write, if a reservation, carries the new counter and a run not seen before. */
  lemma ReservationStep(log: seq<Commit>, n: nat)
    requires Replay(log).Some? && n < |log| && log[n].op.Reserve?
    ensures Replay(log[..n]).Some? && Replay(log[..n + 1]).Some?
    ensures var before, after := Replay(log[..n]).value, Replay(log[..n + 1]).value;
            && BuildOfCommit(log[n]) == after.counter > before.counter
            && log[n].op.runId !in before.plans && log[n].op.runId in after.plans
  {
    hide Sound, Replay;
    ReplayStep(log, n);
    ReserveKeepsSound(Replay(log[..n]).value, log[n].op, log[n].seen);
  }

  /** The n-th accepted write, if a start, carries the new floor. */
  lemma StartStep(log: seq<Commit>, n: nat)
    requires Replay(log).Some? && n < |log| && log[n].op.Begin?
    ensures Replay(log[..n]).Some? && Replay(log[..n + 1]).Some?
    ensures var before, after := Replay(log[..n]).value, Replay(log[..n + 1]).value;
            && BuildOfCommit(log[n]) == after.floor >= before.floor
            && (!log[n].op.promotion ==> after.floor > before.floor)
  {
    hide Sound, Replay;
    ReplayStep(log, n);
    BeginKeepsSound(Replay(log[..n]).value, log[n].op, log[n].seen);
  }

  lemma LogReplays(host: Host, events: seq<Event>)
    requires Injective(host)
    ensures Replay(Exec(host, START, events).log).Some?
  {
    ExecKeepsValid(host, START, events);
  }

  /** Reservations take strictly increasing build numbers in write order, and each run writes at most one. */
  lemma ReservationsIncrease(host: Host, events: seq<Event>, i: nat, j: nat)
    requires Injective(host)
    requires i < j < |Exec(host, START, events).log|
    requires var log := Exec(host, START, events).log; log[i].op.Reserve? && log[j].op.Reserve?
    ensures var log := Exec(host, START, events).log;
            && BuildOfCommit(log[i]) < BuildOfCommit(log[j])
            && log[i].op.runId != log[j].op.runId
  {
    LogReplays(host, events);
    ReservationsOfLogIncrease(Exec(host, START, events).log, i, j);
  }

  lemma ReservationsOfLogIncrease(log: seq<Commit>, i: nat, j: nat)
    requires Replay(log).Some? && i < j < |log| && log[i].op.Reserve? && log[j].op.Reserve?
    ensures BuildOfCommit(log[i]) < BuildOfCommit(log[j]) && log[i].op.runId != log[j].op.runId
  {
    ReservationStep(log, i);
    ReservationStep(log, j);
    ReplayExtends(log, i + 1, j);
  }

  /**
   * Once build n has begun, no smaller build begins by either path, in any later state; a start
   * that is not a promotion takes a number above every earlier start.
   */
  lemma StartsNeverGoBack(host: Host, events: seq<Event>, i: nat, j: nat)
    requires Injective(host)
    requires i < j < |Exec(host, START, events).log|
    requires var log := Exec(host, START, events).log; log[i].op.Begin? && log[j].op.Begin?
    ensures var log := Exec(host, START, events).log;
            && BuildOfCommit(log[i]) <= BuildOfCommit(log[j])
            && (!log[j].op.promotion ==> BuildOfCommit(log[i]) < BuildOfCommit(log[j]))
  {
    LogReplays(host, events);
    StartsOfLogNeverGoBack(Exec(host, START, events).log, i, j);
  }

  lemma StartsOfLogNeverGoBack(log: seq<Commit>, i: nat, j: nat)
    requires Replay(log).Some? && i < j < |log| && log[i].op.Begin? && log[j].op.Begin?
    ensures BuildOfCommit(log[i]) <= BuildOfCommit(log[j])
    ensures !log[j].op.promotion ==> BuildOfCommit(log[i]) < BuildOfCommit(log[j])
  {
    StartStep(log, i);
    StartStep(log, j);
    ReplayExtends(log, i + 1, j);
  }

  // ---- A branch without its file ------------------------------------------------------------------

  /** A runner that saw neither branch nor file and can still reach an accepted write. */
  ghost predicate MayCreate(r: Runner) {
    || (r.Pending? && r.sha.None? && !r.stage.CreatingBranch?)
    || (r.Loaded? && r.sha.None? && exists seen :: Decide(r.snapshot, r.op, seen).Write?)
  }

  ghost predicate Wedged(w: World) {
    && w.cell.BranchNoFile?
    && forall id | id in w.runners :: !MayCreate(w.runners[id])
  }

  lemma WedgedStep(host: Host, w: World, e: Event)
    requires Wedged(w)
    ensures Wedged(Next(host, w, e)) && Next(host, w, e).log == w.log
  {
  }

  /** Once nobody may create the file, no ledger is ever written again: every later run fails closed. */
  lemma {:induction false} WedgedForever(host: Host, w: World, events: seq<Event>)
    requires Wedged(w)
    ensures Wedged(Exec(host, w, events)) && Exec(host, w, events).log == w.log
    decreases |events|
  {
    if events != [] {
      WedgedStep(host, w, events[0]);
      WedgedForever(host, Next(host, w, events[0]), events[1..]);
    }
  }

  /** While somebody may, the ledger can still come into being: the condition is exact. */
  lemma UnwedgedRecovers(host: Host, w: World)
    requires w.cell.BranchNoFile? && !Wedged(w)
    ensures exists events :: Exec(host, w, events).log != w.log
  {
    var id :| id in w.runners && MayCreate(w.runners[id]);
    var r := w.runners[id];
    if r.Pending? {
      CreatorWrites(host, w, id);
    } else {
      var seen :| Decide(r.snapshot, r.op, seen).Write?;
      var e := Deciding(id, seen);
      var w' := Next(host, w, e);
      CreatorWrites(host, w', id);
      var events := [ProbeRef(id), Put(id, true)];
      assert ([e] + events)[1..] == events;
      assert Exec(host, w, [e] + events).log != w.log;
    }
  }

  lemma CreatorWrites(host: Host, w: World, id: nat)
    requires w.cell.BranchNoFile? && id in w.runners
    requires w.runners[id].Pending? && w.runners[id].sha.None? && !w.runners[id].stage.CreatingBranch?
    ensures Exec(host, w, [ProbeRef(id), Put(id, true)]).log != w.log
  {
    var w' := Next(host, w, ProbeRef(id));
    var w'' := Next(host, w', Put(id, true));
    assert w'.runners[id].stage == Putting && Accepts(host, w'.cell, w'.runners[id].sha);
    assert |w''.log| == |w.log| + 1;
    assert Exec(host, w'', []) == w'';
    assert Exec(host, w', [Put(id, true)]) == w'';
  }

  lemma ExecCons(host: Host, w: World, e: Event, rest: seq<Event>)
    ensures Exec(host, w, [e] + rest) == Exec(host, Next(host, w, e), rest)
  {
    assert ([e] + rest)[1..] == rest;
  }

  lemma Launched(host: Host, w: World, id: nat, op: Operation, rest: seq<Event>)
    requires id !in w.runners
    ensures Exec(host, w, [Launch(id, op)] + rest) == Exec(host, SetRunner(w, id, Ready(op)), rest)
  {
    ExecCons(host, w, Launch(id, op), rest);
  }

  lemma FileAsked(host: Host, w: World, id: nat, rest: seq<Event>)
    requires id in w.runners && w.runners[id].Ready?
    ensures Exec(host, w, [GetFile(id)] + rest)
         == Exec(host, SetRunner(w, id, AfterRead(host, w.runners[id].op, w.cell)), rest)
  {
    ExecCons(host, w, GetFile(id), rest);
  }

  lemma BranchMissed(host: Host, w: World, id: nat, rest: seq<Event>)
    requires id in w.runners && w.runners[id].SawNoFile? && w.cell.NoBranch?
    ensures Exec(host, w, [GetRef(id)] + rest) == Exec(host, SetRunner(w, id, Loaded(w.runners[id].op, EMPTY, None)), rest)
  {
    ExecCons(host, w, GetRef(id), rest);
  }

  lemma ReserveDecided(host: Host, w: World, id: nat, seen: Observation, rest: seq<Event>)
    requires id in w.runners && w.runners[id].Loaded? && w.runners[id].op.Reserve?
    requires DecideReserve(w.runners[id].snapshot, w.runners[id].op, seen).Write?
    ensures var r, d := w.runners[id], DecideReserve(w.runners[id].snapshot, w.runners[id].op, seen);
            var r' := Pending(r.op, seen, r.snapshot, r.sha, d.plan, d.next, Probing);
            Exec(host, w, [Deciding(id, seen)] + rest) == Exec(host, SetRunner(w, id, r'), rest)
  {
    ExecCons(host, w, Deciding(id, seen), rest);
  }

  lemma BranchProbed(host: Host, w: World, id: nat, rest: seq<Event>)
    requires id in w.runners && w.runners[id].Pending? && w.runners[id].stage.Probing?
    ensures var stage := if w.cell.NoBranch? then CreatingBranch else Putting;
            Exec(host, w, [ProbeRef(id)] + rest) == Exec(host, SetRunner(w, id, w.runners[id].(stage := stage)), rest)
  {
    ExecCons(host, w, ProbeRef(id), rest);
  }

  lemma BranchCreated(host: Host, w: World, id: nat, rest: seq<Event>)
    requires id in w.runners && w.runners[id].Pending? && w.runners[id].stage.CreatingBranch? && w.cell.NoBranch?
    ensures Exec(host, w, [PostRef(id)] + rest)
         == Exec(host, SetRunner(w.(cell := BranchNoFile), id, w.runners[id].(stage := Putting)), rest)
  {
    ExecCons(host, w, PostRef(id), rest);
  }

  lemma FilePut(host: Host, w: World, id: nat, rest: seq<Event>)
    requires id in w.runners && w.runners[id].Pending? && w.runners[id].stage.Putting?
    requires Accepts(host, w.cell, w.runners[id].sha)
    ensures var r := w.runners[id];
            var w' := World(File(r.next), w.runners[id := Finished(r.op, r.plan)], w.log + [Commit(r.op, r.seen, r.plan)]);
            Exec(host, w, [Put(id, true)] + rest) == Exec(host, w', rest)
  {
    ExecCons(host, w, Put(id, true), rest);
  }

  /** One runner that dies between creating the branch and writing the file is enough to get there. */
  lemma WedgedIsReachable(host: Host, op: Operation, seen: Observation)
    requires op.Reserve? && Decide(EMPTY, op, seen).Write?
    ensures exists events :: Wedged(Exec(host, START, events))
  {
    hide Exec, DecideReserve, Wedged, Next;
    var d := DecideReserve(EMPTY, op, seen);
    var w0 := SetRunner(START, 0, Ready(op));
    var w1 := SetRunner(w0, 0, SawNoFile(op));
    var w2 := SetRunner(w1, 0, Loaded(op, EMPTY, None));
    var w3 := SetRunner(w2, 0, Pending(op, seen, EMPTY, None, d.plan, d.next, Probing));
    var w4 := SetRunner(w3, 0, w3.runners[0].(stage := CreatingBranch));
    var w5 := SetRunner(w4.(cell := BranchNoFile), 0, w4.runners[0].(stage := Putting));
    var e3 := [ProbeRef(0)] + ([PostRef(0)] + ([Crash(0)] + []));
    var e1 := [GetRef(0)] + ([Deciding(0, seen)] + e3);
    Crashed(host, w5, 0);
    BranchCreated(host, w4, 0, [Crash(0)] + []);
    BranchProbed(host, w3, 0, [PostRef(0)] + ([Crash(0)] + []));
    ReserveDecided(host, w2, 0, seen, e3);
    BranchMissed(host, w1, 0, [Deciding(0, seen)] + e3);
    FileAsked(host, w0, 0, e1);
    Launched(host, START, 0, op, [GetFile(0)] + e1);
    NobodyCreates(SetRunner(w5, 0, Failed));
    assert Wedged(Exec(host, START, [Launch(0, op)] + ([GetFile(0)] + e1)));
  }

  lemma Crashed(host: Host, w: World, id: nat)
    requires id in w.runners
    ensures Exec(host, w, [Crash(id)] + []) == SetRunner(w, id, Failed)
  {
    ExecCons(host, w, Crash(id), []);
    ExecNothing(host, SetRunner(w, id, Failed));
  }

  lemma ExecNothing(host: Host, w: World)
    ensures Exec(host, w, []) == w
  {
  }

  lemma NobodyCreates(w: World)
    requires w.cell.BranchNoFile? && forall id | id in w.runners :: w.runners[id].Failed?
    ensures Wedged(w)
  {
  }

  // ---- The exceptions occur ------------------------------------------------------------------------

  function Zeros(n: nat): (s: string)
    ensures IsHex(s, n)
  {
    if n == 0 then "" else ['0'] + Zeros(n - 1)
  }

  const PERMISSIVE := Policy(true, FinalBuild, None, [Declaration(Base, Semver, "")], Zeros(64))
  const NOTHING_SEEN := Observation([], "", true, {})

  /** A run that reserves the stable version 0.0.0, and the plan it gets with a build number. */
  function StableRun(runId: int): Operation {
    Reserve(PERMISSIVE, "0.0.0", Stable, Zeros(40), runId, 1, None)
  }

  function StablePlan(build: int): Plan {
    Plan("0.0.0", "0.0.0", Stable, NoSequence, "v0.0.0", Zeros(40), Some(build), PERMISSIVE.digest, FinalBuild)
  }

  function After(l: Ledger, runId: int): Ledger {
    Ledger(l.counter + 1, l.floor, l.plans[runId := Reservation(StablePlan(l.counter + 1), None)])
  }

  lemma ZerosAreABase()
    ensures ValidBase("0.0.0")
  {
    var s := "0.0.0";
    assert s[1..] == ".0.0" && s[1..][1..] == "0.0" && s[1..][1..][1..] == ".0" && s[1..][1..][1..][1..] == "0";
    assert "0"[1..] == "" && Split("", '.') == [""] && ['0'] + "" == "0" && [""][1..] == [];
    assert Split("0", '.') == ["0"];
    assert Split(".0", '.') == ["", "0"];
    assert Split("0.0", '.') == ["0", "0"];
    assert Split(".0.0", '.') == ["", "0", "0"];
    assert Split("0.0.0", '.') == ["0", "0", "0"];
  }

  lemma StableIsCreated(build: int)
    requires 0 < build <= MAX_BUILD
    ensures CreatePlan("0.0.0", Stable, NoSequence, Zeros(40), PERMISSIVE, Some(build)) == Ok(StablePlan(build))
  {
    ZerosAreABase();
    hide ValidBase;
    var plan := StablePlan(build);
    assert Identity("0.0.0", Stable, NoSequence) == Ok("0.0.0") && "v" + "0.0.0" == "v0.0.0";
    assert ProjectedValue(plan, PERMISSIVE.files[0]) == Some(TextValue("0.0.0"));
    assert Projects(plan, PERMISSIVE) && ValidPolicy(PERMISSIVE) && IsHex(Zeros(40), 40);
  }

  lemma StableIsReserved(l: Ledger, runId: int)
    requires runId > 0 && runId !in l.plans && 0 <= l.counter < MAX_BUILD
    ensures DecideReserve(l, StableRun(runId), NOTHING_SEEN) == Write(StablePlan(l.counter + 1), After(l, runId))
  {
    hide CreatePlan, Zeros;
    StableIsCreated(l.counter + 1);
  }

  lemma WedgedOccurs(host: Host)
    ensures exists events :: Wedged(Exec(host, START, events))
  {
    StableIsReserved(EMPTY, 1);
    WedgedIsReachable(host, StableRun(1), NOTHING_SEEN);
  }

  const FIRST := Pending(StableRun(1), NOTHING_SEEN, EMPTY, None, StablePlan(1), After(EMPTY, 1), Probing)

  const FIRST_DONE := World(File(After(EMPTY, 1)), map[0 := Finished(StableRun(1), StablePlan(1))],
                            [Commit(StableRun(1), NOTHING_SEEN, StablePlan(1))])

  /** A run that finds neither branch nor file, up to its decision. */
  lemma FirstDecides(host: Host, rest: seq<Event>)
    ensures Exec(host, START, [Launch(0, StableRun(1))] + ([GetFile(0)] + ([GetRef(0)] + ([Deciding(0, NOTHING_SEEN)] + rest))))
         == Exec(host, START.(runners := map[0 := FIRST]), rest)
  {
    StableIsReserved(EMPTY, 1);
    hide Exec, Next, DecideReserve, StablePlan, After, StableRun;
    var op := StableRun(1);
    var w0 := SetRunner(START, 0, Ready(op));
    var w1 := SetRunner(w0, 0, SawNoFile(op));
    var w2 := SetRunner(w1, 0, Loaded(op, EMPTY, None));
    assert SetRunner(w2, 0, FIRST).runners == map[0 := FIRST];
    ReserveDecided(host, w2, 0, NOTHING_SEEN, rest);
    var e := [Deciding(0, NOTHING_SEEN)] + rest;
    BranchMissed(host, w1, 0, e);
    FileAsked(host, w0, 0, [GetRef(0)] + e);
    Launched(host, START, 0, op, [GetFile(0)] + ([GetRef(0)] + e));
  }

  /** And from there to its answer. */
  lemma FirstWrites(host: Host, rest: seq<Event>)
    ensures Exec(host, START.(runners := map[0 := FIRST]), [ProbeRef(0)] + ([PostRef(0)] + ([Put(0, true)] + rest)))
         == Exec(host, FIRST_DONE, rest)
  {
    hide Exec, Next, StablePlan, After, StableRun;
    var w3 := START.(runners := map[0 := FIRST]);
    var w4 := SetRunner(w3, 0, FIRST.(stage := CreatingBranch));
    var w5 := SetRunner(w4.(cell := BranchNoFile), 0, FIRST.(stage := Putting));
    assert w5.runners[0 := Finished(StableRun(1), StablePlan(1))] == FIRST_DONE.runners;
    assert w5.log + [Commit(StableRun(1), NOTHING_SEEN, StablePlan(1))] == FIRST_DONE.log;
    FilePut(host, w5, 0, rest);
    BranchCreated(host, w4, 0, [Put(0, true)] + rest);
    BranchProbed(host, w3, 0, [PostRef(0)] + ([Put(0, true)] + rest));
  }

  lemma SecondRuns(host: Host, w: World) returns (events: seq<Event>)
    requires w.cell == File(After(EMPTY, 1)) && 1 !in w.runners && !host.oversized(After(EMPTY, 1))
    requires Readable(After(EMPTY, 1)) && After(EMPTY, 1).counter == 1
    ensures Exec(host, w, events).cell == File(After(After(EMPTY, 1), 2))
  {
    StableIsReserved(After(EMPTY, 1), 2);
    hide Exec, Next, DecideReserve, Readable, StablePlan, After, StableRun;
    var l, op := After(EMPTY, 1), StableRun(2);
    var e3 := [ProbeRef(1)] + ([Put(1, true)] + []);
    var w1 := SetRunner(w, 1, Ready(op));
    var w2 := SetRunner(w1, 1, Loaded(op, l, Some(host.sha(l))));
    var r := Pending(op, NOTHING_SEEN, l, Some(host.sha(l)), StablePlan(2), After(l, 2), Probing);
    var w3 := SetRunner(w2, 1, r);
    var w4 := SetRunner(w3, 1, r.(stage := Putting));
    ExecNothing(host, World(File(r.next), w4.runners[1 := Finished(op, r.plan)], w4.log + [Commit(op, r.seen, r.plan)]));
    FilePut(host, w4, 1, []);
    BranchProbed(host, w3, 1, [Put(1, true)] + []);
    ReserveDecided(host, w2, 1, NOTHING_SEEN, e3);
    FileAsked(host, w1, 1, [Deciding(1, NOTHING_SEEN)] + e3);
    events := [Launch(1, op)] + ([GetFile(1)] + ([Deciding(1, NOTHING_SEEN)] + e3));
    Launched(host, w, 1, op, [GetFile(1)] + ([Deciding(1, NOTHING_SEEN)] + e3));
  }

  /** Two runs that reserve the same stable version one after the other come to hold one tag. */
  lemma SharedTagOccurs(host: Host)
    requires !host.oversized(After(EMPTY, 1))
    ensures exists events ::
              var l := LedgerOf(Exec(host, START, events).cell);
              && Sound(l) && 1 in l.plans && 2 in l.plans && l.plans[1].plan.channel.Stable?
              && l.plans[1].plan.tag == l.plans[2].plan.tag
              && l.plans[1].plan.buildNumber != l.plans[2].plan.buildNumber
  {
    BothAreSound();
    hide Exec, Sound, Readable;
    var events := TwoRuns(host);
    assert LedgerOf(Exec(host, START, events).cell) == After(After(EMPTY, 1), 2);
  }

  lemma TwoRuns(host: Host) returns (events: seq<Event>)
    requires !host.oversized(After(EMPTY, 1))
    ensures Exec(host, START, events).cell == File(After(After(EMPTY, 1), 2))
  {
    BothAreSound();
    hide Exec, Next, Sound, Readable, StablePlan, StableRun;
    var more := SecondRuns(host, FIRST_DONE);
    var write := [ProbeRef(0)] + ([PostRef(0)] + ([Put(0, true)] + more));
    FirstWrites(host, more);
    FirstDecides(host, write);
    events := [Launch(0, StableRun(1))] + ([GetFile(0)] + ([GetRef(0)] + ([Deciding(0, NOTHING_SEEN)] + write)));
  }

  lemma BothAreSound()
    ensures Readable(After(EMPTY, 1)) && Sound(After(After(EMPTY, 1), 2))
  {
    StableIsReserved(EMPTY, 1);
    ReserveKeepsSound(EMPTY, StableRun(1), NOTHING_SEEN);
    StableIsReserved(After(EMPTY, 1), 2);
    ReserveKeepsSound(After(EMPTY, 1), StableRun(2), NOTHING_SEEN);
  }
}

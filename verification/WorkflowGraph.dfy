/**
 * The workflow graph check of scripts/workflow_contracts.py (_callable_workflow, validate_graph):
 * a depth-first walk that marks a workflow as visited before its jobs are followed.
 */
module WorkflowGraph {
  import opened Wrappers

  datatype Job = Job(uses: string, runsOn: bool, hasTimeout: bool)

  /** The `on` section is None when it is not a mapping; jobs keep their order and names. */
  datatype Workflow = Workflow(triggers: Option<set<string>>, jobs: seq<(string, Job)>)

  type Workflows = map<string, Workflow>

  const LOCAL_WORKFLOW_PREFIX := "./.github/workflows/"

  function LastSegment(s: string): (segment: string)
    ensures '/' !in segment
  {
    if s == "" then ""
    else if '/' in s then LastSegment(s[1..])
    else s
  }

  /** The local workflow a job calls. */
  function Callee(job: Job): Option<string> {
    if LOCAL_WORKFLOW_PREFIX <= job.uses then Some(LastSegment(job.uses)) else None
  }

  lemma {:induction false} LastSegmentIs(s: string)
    ensures s == LastSegment(s) || exists front :: s == Behind(front, LastSegment(s))
  {
    if s != "" && '/' in s {
      LastSegmentIs(s[1..]);
      assert s == [s[0]] + s[1..];
      if s[1..] == LastSegment(s[1..]) {
        assert s[0] == '/' && s == Behind("", LastSegment(s));
      } else {
        var front :| s[1..] == Behind(front, LastSegment(s[1..]));
        assert s == Behind([s[0]] + front, LastSegment(s));
      }
    }
  }

  lemma {:induction false} SegmentBehind(front: string, name: string)
    requires '/' !in name
    ensures LastSegment(Behind(front, name)) == name
  {
    var s := Behind(front, name);
    assert s[|front|] == '/';
    if front == "" {
      assert s[1..] == name;
    } else {
      assert s[1..] == Behind(front[1..], name);
      SegmentBehind(front[1..], name);
    }
  }

  function Behind(front: string, name: string): string {
    front + (['/'] + name)
  }

  /** A job calls a workflow exactly by a local path whose last part, behind the last slash, is its name. */
  lemma CalleeMeans(job: Job, name: string)
    ensures Callee(job) == Some(name) <==>
              && "./.github/workflows/" <= job.uses && '/' !in name && exists front :: job.uses == Behind(front, name)
  {
    if LOCAL_WORKFLOW_PREFIX <= job.uses {
      assert job.uses[1] == '/';
      LastSegmentIs(job.uses);
    }
    forall front | job.uses == Behind(front, name) && '/' !in name ensures LastSegment(job.uses) == name {
      SegmentBehind(front, name);
    }
  }

  // ---- The graph -----------------------------------------------------------------------------

  ghost predicate Calls(g: Workflows, a: string, b: string) {
    a in g && exists k :: 0 <= k < |g[a].jobs| && Callee(g[a].jobs[k].1) == Some(b)
  }

  ghost predicate IsPath(g: Workflows, p: seq<string>) {
    p != [] && forall i | 0 <= i < |p| - 1 :: Calls(g, p[i], p[i + 1])
  }

  ghost predicate IsCycle(g: Workflows, p: seq<string>) {
    IsPath(g, p) && |p| >= 2 && p[0] == p[|p| - 1]
  }

  ghost predicate Leads(g: Workflows, roots: seq<string>, p: seq<string>, to: string) {
    IsPath(g, p) && p[0] in roots && p[|p| - 1] == to
  }

  ghost predicate Reachable(g: Workflows, roots: seq<string>, to: string) {
    exists p :: Leads(g, roots, p, to)
  }

  predicate IsCallable(w: Workflow) {
    w.triggers.Some? && "workflow_call" in w.triggers.value
  }

  predicate OnlyCalled(w: Workflow)
    requires IsCallable(w)
  {
    w.triggers.value <= {"workflow_call", "workflow_dispatch"}
  }

  predicate IsBounded(job: Job) {
    Callee(job).Some? || !job.runsOn || job.hasTimeout
  }

  /** What is demanded of each single workflow. */
  predicate InOrder(g: Workflows, name: string) {
    && name in g && IsCallable(g[name]) && OnlyCalled(g[name])
    && forall k | 0 <= k < |g[name].jobs| :: IsBounded(g[name].jobs[k].1)
  }

  /** What is demanded of the validators: everything they reach is in order, and nothing recurs. */
  ghost predicate Acceptable(g: Workflows, roots: seq<string>) {
    && (forall v | Reachable(g, roots, v) :: InOrder(g, v))
    && (forall p | IsCycle(g, p) :: !Reachable(g, roots, p[0]))
  }

  // ---- Orders without backward calls ------------------------------------------------------------

  /** Each workflow calls only workflows in front of it. */
  ghost predicate CallsBackwards(g: Workflows, finished: seq<string>) {
    forall i, b | 0 <= i < |finished| && Calls(g, finished[i], b) :: b in finished[..i]
  }

  lemma {:induction false} PathDescends(g: Workflows, finished: seq<string>, p: seq<string>, i: nat)
    requires CallsBackwards(g, finished) && i < |finished|
    requires IsPath(g, p) && p[0] == finished[i] && |p| >= 2
    ensures p[|p| - 1] in finished[..i]
    decreases |p|
  {
    assert Calls(g, p[0], p[1]);
    var j :| 0 <= j < i && finished[..i][j] == p[1];
    if |p| > 2 {
      forall k | 0 <= k < |p[1..]| - 1 ensures Calls(g, p[1..][k], p[1..][k + 1]) {
        assert Calls(g, p[k + 1], p[(k + 1) + 1]);
      }
      PathDescends(g, finished, p[1..], j);
      assert finished[..j] <= finished[..i];
    }
  }

  /** The whole walk is closed under calls, and no workflow in it can lead back to itself. */
  lemma NoCycleInside(g: Workflows, finished: seq<string>, p: seq<string>)
    requires CallsBackwards(g, finished) && Distinct(finished) && IsCycle(g, p)
    ensures p[0] !in finished
  {
    if i :| 0 <= i < |finished| && finished[i] == p[0] {
      PathDescends(g, finished, p, i);
      assert false;
    }
  }

  predicate Distinct(s: seq<string>) {
    forall i, j | 0 <= i < j < |s| :: s[i] != s[j]
  }

  lemma {:induction false} ReachableInside(g: Workflows, finished: seq<string>, roots: seq<string>, p: seq<string>, to: string)
    requires CallsBackwards(g, finished) && (forall r | r in roots :: r in finished)
    requires Leads(g, roots, p, to)
    ensures to in finished
  {
    if |p| >= 2 {
      var i :| 0 <= i < |finished| && finished[i] == p[0];
      PathDescends(g, finished, p, i);
    }
  }

  // ---- The walk ----------------------------------------------------------------------------------

  datatype Error =
    | Recursive(chain: seq<string>, name: string)
    | Missing(name: string)
    | NotCallable(name: string)
    | ExtraTriggers(name: string)
    | NoTimeout(name: string, job: string)

  /** Every error names a real defect of a workflow that the validators reach. */
  ghost predicate Justified(g: Workflows, roots: seq<string>, e: Error) {
    match e
    case Recursive(chain, name) =>
      exists i :: 0 <= i < |chain| && IsCycle(g, chain[i..] + [name]) && Reachable(g, roots, name)
    case Missing(name) => Reachable(g, roots, name) && name !in g
    case NotCallable(name) => Reachable(g, roots, name) && name in g && !IsCallable(g[name])
    case ExtraTriggers(name) =>
      Reachable(g, roots, name) && name in g && IsCallable(g[name]) && !OnlyCalled(g[name])
    case NoTimeout(name, job) =>
      && Reachable(g, roots, name) && name in g
      && exists k :: 0 <= k < |g[name].jobs| && g[name].jobs[k].0 == job && !IsBounded(g[name].jobs[k].1)
  }

  lemma JustifiedIsDefect(g: Workflows, roots: seq<string>, e: Error)
    requires Justified(g, roots, e)
    ensures !Acceptable(g, roots)
  {
    if e.Recursive? {
      var i :| 0 <= i < |e.chain| && IsCycle(g, e.chain[i..] + [e.name]) && Reachable(g, roots, e.name);
      assert (e.chain[i..] + [e.name])[0] == e.name;
    }
  }

  ghost function Elements(s: seq<string>): set<string> {
    set x | x in s
  }

  /** In the middle of a walk: visited are the chain being followed and the finished workflows. */
  ghost predicate Consistent(g: Workflows, roots: seq<string>, chain: seq<string>, finished: seq<string>,
                             visited: set<string>)
  {
    && visited == Elements(chain) + Elements(finished) && Distinct(chain + finished)
    && Elements(chain) <= g.Keys
    && CallsBackwards(g, finished)
    && forall v | v in finished :: InOrder(g, v) && Reachable(g, roots, v)
  }

  lemma Entered(g: Workflows, roots: seq<string>, chain: seq<string>, finished: seq<string>, visited: set<string>,
                name: string)
    requires Consistent(g, roots, chain, finished, visited) && name !in visited && name in g
    ensures Consistent(g, roots, chain + [name], finished, visited + {name})
    ensures |g.Keys - Elements(chain + [name])| < |g.Keys - Elements(chain)|
  {
    hide InOrder, Reachable, CallsBackwards;
    assert Elements(chain + [name]) == Elements(chain) + {name};
    assert g.Keys - Elements(chain) == (g.Keys - Elements(chain + [name])) + {name};
    var s := chain + [name] + finished;
    forall i, j | 0 <= i < j < |s| ensures s[i] != s[j] {
      assert forall k | 0 <= k < |s| && k != |chain| :: s[k] == (chain + finished)[if k < |chain| then k else k - 1];
      assert forall k | 0 <= k < |s| && k != |chain| :: s[k] in visited;
    }
  }

  lemma Left(g: Workflows, roots: seq<string>, chain: seq<string>, finished: seq<string>, visited: set<string>,
             name: string)
    requires Consistent(g, roots, chain + [name], finished, visited) && InOrder(g, name) && Reachable(g, roots, name)
    requires forall k | 0 <= k < |g[name].jobs| && Callee(g[name].jobs[k].1).Some? ::
               Callee(g[name].jobs[k].1).value in finished
    ensures Consistent(g, roots, chain, finished + [name], visited)
  {
    hide InOrder, Reachable, Callee;
    assert Elements(chain + [name]) == Elements(chain) + {name};
    assert Elements(finished + [name]) == Elements(finished) + {name};
    var s, was, next := chain + (finished + [name]), (chain + [name]) + finished, finished + [name];
    forall i, j | 0 <= i < j < |s| ensures s[i] != s[j] {
      assert forall k | 0 <= k < |s| ::
          s[k] == was[if k < |chain| then k else if k == |s| - 1 then |chain| else k + 1];
    }
    forall i, b | 0 <= i < |next| && Calls(g, next[i], b) ensures b in next[..i] {
      if i < |finished| {
        assert next[i] == finished[i] && next[..i] == finished[..i];
      } else {
        assert next[..i] == finished;
      }
    }
  }

  lemma CallExtends(g: Workflows, roots: seq<string>, chain: seq<string>, name: string, callee: string)
    requires Leads(g, roots, chain + [name], name) && Calls(g, name, callee)
    ensures Leads(g, roots, (chain + [name]) + [callee], callee)
  {
    hide Calls;
    var p, q := chain + [name], (chain + [name]) + [callee];
    forall i | 0 <= i < |q| - 1 ensures Calls(g, q[i], q[i + 1]) {
      if i < |p| - 1 { assert Calls(g, p[i], p[i + 1]); }
    }
  }

  class Validation {
    const workflows: Workflows
    var visited: set<string>
    ghost const roots: seq<string>
    /** Workflows whose jobs have all been followed, in the order in which that ended. */
    ghost var finished: seq<string>

    constructor (workflows: Workflows, ghost roots: seq<string>)
      ensures this.workflows == workflows && this.roots == roots
      ensures finished == [] && Valid([])
    {
      this.workflows := workflows;
      this.roots := roots;
      visited, finished := {}, [];
    }

    ghost predicate Valid(chain: seq<string>)
      reads this
    {
      Consistent(workflows, roots, chain, finished, visited)
    }

    method Visit(name: string, chain: seq<string>) returns (error: Option<Error>)
      requires Valid(chain) && Leads(workflows, roots, chain + [name], name)
      modifies this
      ensures error.None? ==> Valid(chain) && name in finished && old(finished) <= finished
      ensures error.Some? ==> Justified(workflows, roots, error.value)
      decreases |workflows.Keys - Elements(chain)|
    {
      hide Consistent, Reachable, Leads, Callee, Elements, Calls;
      ChainReaches(workflows, roots, chain, name);
      if name in chain {
        ChainCycles(workflows, chain, name);
        return Some(Recursive(chain, name));
      }
      if name in visited {
        VisitedIsFinished(workflows, roots, chain, finished, visited, name);
        return None;
      }
      if name !in workflows {
        return Some(Missing(name));
      }
      var workflow := workflows[name];
      if !IsCallable(workflow) {
        return Some(NotCallable(name));
      }
      if !OnlyCalled(workflow) {
        return Some(ExtraTriggers(name));
      }
      Entered(workflows, roots, chain, finished, visited, name);
      visited := visited + {name};
      var longer := chain + [name];
      for k := 0 to |workflow.jobs|
        invariant Valid(longer) && old(finished) <= finished
        invariant forall j | 0 <= j < k :: IsBounded(workflow.jobs[j].1)
        invariant forall j | 0 <= j < k && Callee(workflow.jobs[j].1).Some? :: Callee(workflow.jobs[j].1).value in finished
      {
        var job := workflow.jobs[k].1;
        var callee := Callee(job);
        if callee.Some? {
          CallHolds(workflows, name, k);
          CallExtends(workflows, roots, chain, name, callee.value);
          error := Visit(callee.value, longer);
          if error.Some? {
            return;
          }
        } else if job.runsOn && !job.hasTimeout {
          return Some(NoTimeout(name, workflow.jobs[k].0));
        }
      }
      Left(workflows, roots, chain, finished, visited, name);
      finished := finished + [name];
      return None;
    }
  }

  lemma ChainReaches(g: Workflows, roots: seq<string>, chain: seq<string>, name: string)
    requires Leads(g, roots, chain + [name], name)
    ensures IsPath(g, chain + [name]) && Reachable(g, roots, name)
  {
  }

  lemma VisitedIsFinished(g: Workflows, roots: seq<string>, chain: seq<string>, finished: seq<string>,
                          visited: set<string>, name: string)
    requires Consistent(g, roots, chain, finished, visited) && name in visited && name !in chain
    ensures name in finished
  {
  }

  lemma CallHolds(g: Workflows, name: string, k: nat)
    requires name in g && k < |g[name].jobs| && Callee(g[name].jobs[k].1).Some?
    ensures Calls(g, name, Callee(g[name].jobs[k].1).value)
  {
  }

  /** A workflow that is called from a chain it stands in closes a cycle. */
  lemma ChainCycles(g: Workflows, chain: seq<string>, name: string)
    requires IsPath(g, chain + [name]) && name in chain
    ensures exists i :: 0 <= i < |chain| && IsCycle(g, chain[i..] + [name])
  {
    var i :| 0 <= i < |chain| && chain[i] == name;
    var p := chain[i..] + [name];
    forall k | 0 <= k < |p| - 1 ensures Calls(g, p[k], p[k + 1]) {
      assert Calls(g, (chain + [name])[i + k], (chain + [name])[i + k + 1]);
    }
    assert IsCycle(g, p);
  }

  lemma RootReaches(g: Workflows, roots: seq<string>, r: string)
    requires r in roots
    ensures Leads(g, roots, [] + [r], r)
  {
  }

  lemma WholeWalk(g: Workflows, roots: seq<string>, finished: seq<string>, visited: set<string>)
    requires Consistent(g, roots, [], finished, visited) && forall r | r in roots :: r in finished
    ensures Acceptable(g, roots) && forall v :: v in visited <==> Reachable(g, roots, v)
  {
    forall v | Reachable(g, roots, v) ensures v in finished {
      var p :| Leads(g, roots, p, v);
      ReachableInside(g, finished, roots, p, v);
    }
    forall p | IsCycle(g, p) ensures !Reachable(g, roots, p[0]) {
      assert [] + finished == finished;
      NoCycleInside(g, finished, p);
    }
  }

  /**
   * The check succeeds exactly when the validators are acceptable, and then it returns exactly the
   * workflows they reach; otherwise it names a real defect.
   */
  method ValidateGraph(workflows: Workflows, validators: seq<string>) returns (r: Result<set<string>, Error>)
    ensures r.Ok? <==> Acceptable(workflows, validators)
    ensures r.Ok? ==> forall v :: v in r.value <==> Reachable(workflows, validators, v)
    ensures r.Err? ==> Justified(workflows, validators, r.error)
  {
    hide Acceptable, Justified, Reachable, Consistent, Leads;
    var walk := new Validation(workflows, validators);
    for k := 0 to |validators|
      invariant walk.workflows == workflows && walk.roots == validators
      invariant walk.Valid([]) && forall j | 0 <= j < k :: validators[j] in walk.finished
    {
      RootReaches(workflows, validators, validators[k]);
      var error := walk.Visit(validators[k], []);
      if error.Some? {
        JustifiedIsDefect(workflows, validators, error.value);
        return Err(error.value);
      }
    }
    WholeWalk(workflows, validators, walk.finished, walk.visited);
    return Ok(walk.visited);
  }
}

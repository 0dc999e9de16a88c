/** The comb optimizer end to end: depth-first schedule, classification,
    simplification, second classification, plan and threads. What the emitted
    threads compute is what the original schedule computes sequentially. */
module CombEmission {
  import opened Common
  import opened CombGraph
  import opened CombLeads
  import opened CombTyping
  import opened CombPipeline
  import opened CombReclassify
  import CombOptimize
  import CombOptimized
  import CombSchedule
  import CombDynamic
  import CombPlan
  import CombStages
  import CombStageCosts
  import CombRuntime
  import CombRuntimeTheorems

  /** The prepared nodes, their expressions and what is known about them; a
      comb's `cached` says that its own type caches it. */
  datatype Model = Model(language: Language, prepared: seq<CombSchedule.Prepared>, roots: seq<nat>,
                         nodes: seq<Node>, expr: seq<Expr>, facts: CombDynamic.Facts, memoizable: set<nat>,
                         inlinable: set<nat>, work: Expr)

  /** Preparation lists exactly what each expression mentions. */
  ghost predicate ModelOk(m: Model) {
    && LanguageOk(m.language) && CombSchedule.PreparedOk(m.prepared) && |m.prepared| == |m.nodes| == |m.expr|
    && (forall k | 0 <= k < |m.roots| :: m.roots[k] < |m.prepared|)
    && (forall id | 0 <= id < |m.expr| :: Flat(m.expr[id], |m.expr|)) && Flat(m.work, |m.nodes|)
    && forall id: nat, d: nat | id < |m.prepared| && m.prepared[id].Ready? ::
         d in m.prepared[id].dependencies <==> Mentions(m.expr[id], d)
  }

  /** Every node that a root reaches can be prepared. */
  ghost predicate Preparable(m: Model) {
    forall x: nat | CombSchedule.FromRoots(CombSchedule.Discovered(m.prepared), m.roots, x) ::
      !CombSchedule.RejectedAt(m.prepared, x)
  }

  // ----- The graph ---------------------------------------------------------------------------------

  /** The position of every scheduled node. */
  method Ranks(schedule: seq<nat>, n: nat) returns (rank: seq<nat>)
    requires forall i | 0 <= i < |schedule| :: schedule[i] < n
    requires forall i, j | 0 <= i < j < |schedule| :: schedule[i] != schedule[j]
    ensures |rank| == n && forall i | 0 <= i < |schedule| :: rank[schedule[i]] == i
  {
    rank := seq(n, id => 0);
    for k := 0 to |schedule|
      invariant |rank| == n && forall i | 0 <= i < k :: rank[schedule[i]] == i
    {
      rank := rank[schedule[k] := k];
    }
  }

  /** cachesForSystemClock: ports are cached, and combs that are declared so or
      were found to initialize only their own result. */
  function CachedNodes(nodes: seq<Node>, memoized: set<nat>): (r: seq<Node>)
    ensures |r| == |nodes|
  {
    seq(|nodes|, id requires 0 <= id < |nodes| =>
      nodes[id].(cached := nodes[id].kind.Port? || nodes[id].cached || id in memoized))
  }

  /** The first classification leaves a comb the right to be cached exactly if it
      had it and reaches no cycle, unresolved call or mutated field. */
  ghost predicate StaysMemoizable(m: Model, g: Graph, id: nat) {
    id in m.memoizable
    && !CombDynamic.ReachesUnstable(CombSchedule.AllDependencies(m.prepared), g.schedule, m.facts, id)
  }

  /** The graph of the model with what scheduling and classification found. */
  ghost predicate Describes(m: Model, g: Graph, f: Front) {
    && GraphOk(g) && Prepares(g, f) && Classified(g, f)
    && f.prepared == m.prepared && f.roots == m.roots && f.facts == m.facts
    && g.language == m.language && g.expr == m.expr && g.inlinable == m.inlinable && |g.nodes| == |m.nodes|
    && forall id: nat | id < |m.nodes| ::
         g.nodes[id]
         == m.nodes[id].(cached := m.nodes[id].kind.Port? || m.nodes[id].cached || StaysMemoizable(m, g, id))
  }

  /** Scheduling and the first classification. */
  method Classify(m: Model) returns (ok: bool, g: Graph, f: Front, memoized: set<nat>)
    requires ModelOk(m)
    ensures ok <==> Preparable(m)
    ensures ok ==> Describes(m, g, f) && forall id: nat :: id in memoized <==> StaysMemoizable(m, g, id)
  {
    var schedule, kept;
    ok, schedule, kept := CombSchedule.ScheduleNodes(m.prepared, m.roots);
    f := Front(m.prepared, m.roots, kept, m.facts);
    if !ok {
      g, memoized := Graph(m.language, [], [], [], [], {}, {}, []), {};
      return;
    }
    ScheduleInRange(m, schedule, kept);
    var all := CombSchedule.AllDependencies(m.prepared);
    var dynamicNodes;
    dynamicNodes, memoized := CombDynamic.IdentifyDynamicNodes(all, schedule, m.facts, m.memoizable);
    var rank := Ranks(schedule, |m.nodes|);
    var deps := seq(|m.nodes|, id requires 0 <= id < |m.nodes| => if id in schedule then kept[id] else []);
    g := Graph(m.language, CachedNodes(m.nodes, memoized), m.expr, deps, schedule, dynamicNodes, m.inlinable, rank);
    ClassifiedGraph(m, g, f);
  }

  lemma ScheduleInRange(m: Model, schedule: seq<nat>, kept: seq<seq<nat>>)
    requires ModelOk(m) && CombSchedule.ScheduleOk(CombSchedule.Discovered(m.prepared), m.roots, schedule, kept)
    ensures |kept| == |m.nodes| && (forall i | 0 <= i < |schedule| :: schedule[i] < |m.nodes|)
    ensures CombDynamic.GraphIdsOk(CombSchedule.AllDependencies(m.prepared))
    ensures forall id: nat, k: nat | id in schedule && id < |kept| && k < |kept[id]| :: kept[id][k] < |m.nodes|
  {
    var full := CombSchedule.Discovered(m.prepared);
    forall i: nat | i < |schedule| ensures schedule[i] < |m.nodes| {
      assert CombSchedule.PlaceOk(full, schedule, kept, i);
    }
    forall id: nat, k: nat | id in schedule && id < |kept| && k < |kept[id]| ensures kept[id][k] < |m.nodes| {
      var i :| 0 <= i < |schedule| && schedule[i] == id;
      assert CombSchedule.PlaceOk(full, schedule, kept, i);
      assert kept[id][k] in kept[id];
      var j :| 0 <= j < |full.all[id]| && full.all[id][j] == kept[id][k];
    }
  }

  lemma ClassifiedGraph(m: Model, g: Graph, f: Front)
    requires ModelOk(m) && Classified(g, f) && f.prepared == m.prepared
    requires g.language == m.language && g.expr == m.expr && Sized(g) && Keeps(g, f.kept)
    requires forall k | 0 <= k < |g.schedule| :: !CombSchedule.RejectedAt(m.prepared, g.schedule[k])
    ensures GraphOk(g) && Prepares(g, f)
  {
    forall id: nat, d: nat | id in g.schedule && id < |g.expr|
      ensures d in AllOf(f)[id] <==> Mentions(g.expr[id], d)
    {
      var k :| 0 <= k < |g.schedule| && g.schedule[k] == id;
      assert m.prepared[id].Ready?;
    }
    ScheduledGraphOk(g, f);
  }

  // ----- The second classification ---------------------------------------------------------------------

  function Without(ids: seq<nat>, x: nat): (r: seq<nat>)
    ensures forall d: nat :: d in r <==> d in ids && d != x
  {
    if ids == [] then []
    else
      assert ids == [ids[0]] + ids[1..];
      (if ids[0] == x then [] else [ids[0]]) + Without(ids[1..], x)
  }

  /** allDependencies rebuilt from the simplified expressions, without self-edges. */
  method CollectUses(expr: seq<Expr>, schedule: seq<nat>) returns (uses: seq<seq<nat>>)
    requires forall i | 0 <= i < |schedule| :: schedule[i] < |expr|
    ensures |uses| == |expr|
    ensures forall id | 0 <= id < |expr| ::
              uses[id] == if id in schedule then Without(MentionList(expr[id]), id) else []
  {
    uses := seq(|expr|, id => []);
    for k := 0 to |schedule|
      invariant |uses| == |expr|
      invariant forall id | 0 <= id < |expr| ::
                  uses[id] == if id in schedule[..k] then Without(MentionList(expr[id]), id) else []
    {
      uses := uses[schedule[k] := Without(MentionList(expr[schedule[k]]), schedule[k])];
      assert schedule[..k + 1] == schedule[..k] + [schedule[k]];
    }
    assert schedule[..|schedule|] == schedule;
  }

  lemma UsesOk(g: Graph, sharing: bool, r: Optimized, uses: seq<seq<nat>>)
    requires GraphOk(g) && NodesSimplified(g, sharing, r) && |uses| == |g.nodes|
    requires forall id | 0 <= id < |uses| ::
               uses[id] == if id in LeftOf(g, sharing, g.schedule) then Without(MentionList(r.expr[id]), id) else []
    ensures Uses(g, sharing, r, uses) && CombDynamic.GraphIdsOk(uses)
  {
    forall id, k | 0 <= id < |uses| && 0 <= k < |uses[id]| ensures uses[id][k] < |uses| {
      assert uses[id][k] in uses[id];
      MentionsInRange(r.expr[id], |g.nodes|, uses[id][k]);
    }
  }

  /** The classification of the simplified graph. */
  method ClassifyAgain(g: Graph, sharing: bool, r: Optimized, f: Front, facts: CombDynamic.Facts, memoizable: set<nat>)
    returns (p: Passes, memoized: set<nat>)
    requires GraphOk(g) && Prepares(g, f) && Classified(g, f)
    requires NodesSimplified(g, sharing, r) && r.schedule == LeftOf(g, sharing, g.schedule)
    ensures PassesOk(p) && p.g == g && p.sharing == sharing && p.r == r && p.front == f && p.facts == facts
    ensures forall x: nat :: x in memoized <==>
              x in memoizable && !CombDynamic.ReachesUnstable(p.uses, LeftOf(g, sharing, g.schedule), facts, x)
  {
    forall i | 0 <= i < |r.schedule| ensures r.schedule[i] < |r.expr| { assert r.schedule[i] in r.schedule; }
    var uses := CollectUses(r.expr, r.schedule);
    UsesOk(g, sharing, r, uses);
    var again;
    again, memoized := CombDynamic.IdentifyDynamicNodes(uses, r.schedule, facts, memoizable);
    p := Passes(g, sharing, r, f, uses, facts, again);
  }

  // ----- The emitted model ---------------------------------------------------------------------------------

  /** All passes, the combs that may still be cached, and the plan of the threads
      with the expression sizes and the thread count it was made for. */
  datatype Emitted = Emitted(p: Passes, memoized: set<nat>, plan: CombPlan.Plan, sizes: seq<nat>, threads: nat)

  /** The contracts of all passes together. */
  ghost predicate EmittedOk(m: Model, e: Emitted) {
    && Flat(m.work, |m.nodes|) && Describes(m, e.p.g, e.p.front) && PassesOk(e.p)
    && Simplified(e.p.g, e.p.sharing, m.work, e.p.r)
    && (forall x: nat :: x in e.memoized <==>
          StaysMemoizable(m, e.p.g, x)
          && !CombDynamic.ReachesUnstable(e.p.uses, LeftOf(e.p.g, e.p.sharing, e.p.g.schedule), e.p.facts, x))
    && CombPlan.PlanOk(e.plan, e.p.r.deps, EagerAgain(e.p))
    && CombStages.Chosen(e.plan, e.p.r.deps, EagerAgain(e.p), e.sizes, e.threads)
  }

  /** The passes in the order of the source. They fail exactly when a root
      reaches a node that cannot be prepared. */
  method Emit(m: Model, l1Scheduling: bool, facts: CombDynamic.Facts, sizes: seq<nat>, threads: nat)
    returns (ok: bool, e: Emitted)
    requires ModelOk(m) && |sizes| == |m.nodes| && threads >= 1
    ensures ok <==> Preparable(m)
    ensures ok ==> EmittedOk(m, e) && e.p.sharing == l1Scheduling && e.p.facts == facts
    ensures ok ==> e.sizes == sizes && e.threads == threads
  {
    var g, f, memoized;
    ok, g, f, memoized := Classify(m);
    if !ok {
      var r := Optimized([], [], [], m.work);
      e := Emitted(Passes(g, l1Scheduling, r, f, [], facts, {}), {}, CombPlan.Plan(1, []), sizes, threads);
      return;
    }
    var r := CombOptimize.Optimize(g, l1Scheduling, m.work);
    var p, stable := ClassifyAgain(g, l1Scheduling, r, f, facts, memoized);
    var eager := CombDynamic.Eager(r.schedule, p.again);
    SecondTopological(p);
    var plan := CombStages.ChoosePlan(r.deps, eager, sizes, threads);
    e := Emitted(p, stable, plan, sizes, threads);
  }

  /** The emitted plan has a lane for each requested thread as long as there are
      that many eager nodes, at most two stages, and no packing of a stage's
      connected components onto these lanes is better by more than Graham's factor. */
  lemma EmittedPlan(m: Model, e: Emitted, k: nat)
    requires EmittedOk(m, e) && e.threads >= 1 && k < |e.plan.stages|
    ensures e.plan.lanes == Max(1, Min(e.threads, |EagerAgain(e.p)|)) && |e.plan.stages| <= 2
    ensures CombStageCosts.WithinGraham(e.plan, e.p.r.deps, EagerAgain(e.p), e.sizes, k)
  {
    CombStageCosts.ChosenWithinGraham(e.plan, e.p.r.deps, EagerAgain(e.p), e.sizes, e.threads, k);
  }

  // ----- The main theorem --------------------------------------------------------------------------------

  /** What each emitted node evaluates. */
  ghost function Code(p: Passes, worlds: int -> World): CombPlan.Formula
    requires PassesOk(p)
  {
    CombOptimized.FormulaOf(p.g, p.r.expr, p.r.deps, worlds)
  }

  /** The call of `run` that returns in state `t` of an execution: it began with
      event `b`, got this input and this memory, and leaves that one. */
  datatype Call = Call(b: nat, input: int, before: seq<int>, after: seq<int>)

  ghost predicate Returned(p: Passes, trace: seq<CombRuntime.System>, events: seq<CombRuntime.Event>, t: nat, c: Call)
  {
    && c.b < |events| && c.b < t < |trace| && events[c.b].Begin? && |c.before| == |c.after| == |p.g.nodes|
    && CombRuntime.TargetOk(trace[c.b], events[c.b].obj, events[c.b].state)
    && (forall k | c.b < k < t && k < |events| :: events[k].Caller? || events[k].Lane?)
    && c.input == trace[c.b].inputs[events[c.b].obj] && c.before == trace[c.b].memory[events[c.b].state]
    && trace[t].memory == trace[c.b].memory[events[c.b].state := c.after]
  }

  /** In every interleaving, `run` returns with the sequential result in the state
      it was called for, and everything else as it was. */
  lemma ThreadsRun(p: Passes, plan: CombPlan.Plan, worlds: int -> World,
                   trace: seq<CombRuntime.System>, events: seq<CombRuntime.Event>, t: nat)
    returns (c: Call)
    requires PassesOk(p) && CombPlan.PlanOk(plan, p.r.deps, EagerAgain(p))
    requires CombRuntimeTheorems.Execution(plan, p.r.deps, Code(p, worlds), trace, events)
    requires t < |trace| && CombRuntimeTheorems.Returning(plan, trace[t])
    ensures Returned(p, trace, events, t, c) && c.after == RunAgain(p, c.before, worlds, c.input)
  {
    var b := CombRuntimeTheorems.RunReturns(plan, p.r.deps, Code(p, worlds), EagerAgain(p), trace, events, t);
    SecondTopological(p);
    var before, input := trace[b].memory[events[b].state], trace[b].inputs[events[b].obj];
    c := Call(b, input, before, RunAgain(p, before, worlds, input));
  }

  /** The original equation of a node, where its own slot counts as it was
      before the run: a comb that accumulates reads its previous value. */
  ghost predicate Fulfilled(p: Passes, before: seq<int>, after: seq<int>, worlds: int -> World, input: int, id: nat)
    requires GraphOk(p.g) && |before| == |after| == |p.g.nodes| && id < |p.g.nodes|
  {
    after[id] == Assigned(p.g, id, p.g.expr[id],
                          CombOptimized.OriginalValues(p.g, before, worlds, input, after[id := before[id]]),
                          worlds(input))
  }

  /** What a run from `before` to `after` achieves, node by node. */
  ghost predicate Computes(p: Passes, worlds: int -> World, input: int, before: seq<int>, after: seq<int>)
    requires GraphOk(p.g) && |before| == |after| == |p.g.nodes|
  {
    forall id: nat | id < |after| ::
      if id !in EagerAgain(p) then after[id] == before[id]
      else
        && Fulfilled(p, before, after, worlds, input, id)
        && (Eager(p.g, id) ==> after[id] == CombOptimized.RunBefore(p.g, before, worlds, input)[id])
  }

  /** A node holds its original value, which satisfies its original equation
      also on the values after the run unless the node reads itself. */
  ghost predicate AgreesAt(p: Passes, val: seq<int>, after: seq<int>, w: World, id: nat)
    requires GraphOk(p.g) && |p.r.expr| == |val| == |after| == |p.g.nodes| && id < |p.g.nodes|
  {
    val[id] == after[id] && (!Mentions(p.r.expr[id], id) ==> val[id] == Assigned(p.g, id, p.g.expr[id], val, w))
  }

  /** The rewritten work reads on demand or what is eager in the end. */
  ghost predicate WorkReads(p: Passes, work: Expr)
    requires GraphOk(p.g) && Flat(work, |p.g.nodes|)
  {
    forall x: nat | Mentions(Subst(p.g, p.sharing, work), x) && Eager(p.g, x) :: x in EagerAgain(p)
  }

  ghost predicate WorkAgrees(p: Passes, work: Expr, val: seq<int>, after: seq<int>, w: World)
    requires GraphOk(p.g) && |val| == |after| == |p.g.nodes| && Flat(work, |p.g.nodes|)
  {
    Value(p.g, Subst(p.g, p.sharing, work), after, w) == Value(p.g, work, val, w)
  }

  /** The values of the original nodes after the run solve the equations of the
      first eager nodes and of every second-eager node that does not read
      itself, and the rewritten work means the original one on them. */
  ghost predicate Solved(p: Passes, work: Expr, worlds: int -> World, input: int, before: seq<int>, after: seq<int>)
    requires GraphOk(p.g) && |p.r.expr| == |before| == |after| == |p.g.nodes| && Flat(work, |p.g.nodes|)
  {
    var val, w := CombOptimized.OriginalValues(p.g, before, worlds, input, after), worlds(input);
    && Solves(p.g, val, w)
    && (forall id: nat | id < |after| && id in EagerAgain(p) :: AgreesAt(p, val, after, w, id))
    && (WorkReads(p, work) && WorkMatches(p.g, p.sharing, work) ==> WorkAgrees(p, work, val, after, w))
  }

  lemma SequentialComputes(p: Passes, worlds: int -> World, input: int, before: seq<int>)
    requires PassesOk(p) && MatchesAll(p.g, p.sharing) && |before| == |p.g.nodes|
    ensures Computes(p, worlds, input, before, RunAgain(p, before, worlds, input))
  {
    var after := RunAgain(p, before, worlds, input);
    forall id: nat | id < |after|
      ensures id !in EagerAgain(p) ==> after[id] == before[id]
      ensures id in EagerAgain(p) ==> Fulfilled(p, before, after, worlds, input, id)
      ensures id in EagerAgain(p) && Eager(p.g, id) ==>
              after[id] == CombOptimized.RunBefore(p.g, before, worlds, input)[id]
    {
      if id !in EagerAgain(p) {
        AgainKept(p, before, worlds, input, id);
      } else {
        var slots := after[id := before[id]];
        SecondRun(p, before, worlds, input, id, slots);
        if Eager(p.g, id) { EagerTwice(p, before, worlds, input, id); }
      }
    }
  }

  lemma NodeSolved(p: Passes, worlds: int -> World, input: int, before: seq<int>, id: nat)
    requires PassesOk(p) && MatchesAll(p.g, p.sharing) && |before| == |p.g.nodes| && id in EagerAgain(p)
    ensures var after := RunAgain(p, before, worlds, input);
            AgreesAt(p, CombOptimized.OriginalValues(p.g, before, worlds, input, after), after, worlds(input), id)
  {
    var after := RunAgain(p, before, worlds, input);
    OriginalAgrees(p, before, worlds, input, after, id);
    if !Mentions(p.r.expr[id], id) { SecondRun(p, before, worlds, input, id, after); }
  }

  lemma WorkSolved(p: Passes, work: Expr, worlds: int -> World, input: int, before: seq<int>)
    requires PassesOk(p) && MatchesAll(p.g, p.sharing) && |before| == |p.g.nodes| && Flat(work, |p.g.nodes|)
    requires WorkMatches(p.g, p.sharing, work) && WorkReads(p, work)
    ensures var after := RunAgain(p, before, worlds, input);
            WorkAgrees(p, work, CombOptimized.OriginalValues(p.g, before, worlds, input, after), after, worlds(input))
  {
    var after, w := RunAgain(p, before, worlds, input), worlds(input);
    var val := CombOptimized.OriginalValues(p.g, before, worlds, input, after);
    forall x | 0 <= x < |after| && Mentions(Subst(p.g, p.sharing, work), x) ensures val[x] == after[x] {
      CombOptimized.WorkMentions(p.g, p.sharing, work, x);
      OriginalAgrees(p, before, worlds, input, after, x);
    }
    ValueDepends(p.g, Subst(p.g, p.sharing, work), after, val, w);
    CombOptimized.OriginalSolves(p.g, before, worlds, input, after);
    MatchingWork(p.g, p.sharing, work, val, w);
  }

  lemma SequentialSolves(p: Passes, work: Expr, worlds: int -> World, input: int, before: seq<int>)
    requires PassesOk(p) && MatchesAll(p.g, p.sharing) && |before| == |p.g.nodes| && Flat(work, |p.g.nodes|)
    ensures Solved(p, work, worlds, input, before, RunAgain(p, before, worlds, input))
  {
    var after, w := RunAgain(p, before, worlds, input), worlds(input);
    var val := CombOptimized.OriginalValues(p.g, before, worlds, input, after);
    CombOptimized.OriginalSolves(p.g, before, worlds, input, after);
    forall id: nat | id < |after| && id in EagerAgain(p) ensures AgreesAt(p, val, after, w, id) {
      NodeSolved(p, worlds, input, before, id);
    }
    if WorkReads(p, work) && WorkMatches(p.g, p.sharing, work) { WorkSolved(p, work, worlds, input, before); }
  }

  /** Whatever the interleaving of the caller and its workers, when `run`
      returns, the nodes that were eager from the start hold the values of the
      original sequential schedule, and every node that is eager in the end
      satisfies its original equation. The only condition is that static types
      match where simplification puts one expression in place of another. */
  lemma ParallelEqualsOriginal(m: Model, e: Emitted, worlds: int -> World,
                               trace: seq<CombRuntime.System>, events: seq<CombRuntime.Event>, t: nat)
    returns (c: Call)
    requires EmittedOk(m, e) && MatchesAll(e.p.g, e.p.sharing)
    requires CombRuntimeTheorems.Execution(e.plan, e.p.r.deps, Code(e.p, worlds), trace, events)
    requires t < |trace| && CombRuntimeTheorems.Returning(e.plan, trace[t])
    ensures Returned(e.p, trace, events, t, c)
    ensures Computes(e.p, worlds, c.input, c.before, c.after)
    ensures Solved(e.p, m.work, worlds, c.input, c.before, c.after)
  {
    c := ThreadsRun(e.p, e.plan, worlds, trace, events, t);
    SequentialComputes(e.p, worlds, c.input, c.before);
    SequentialSolves(e.p, m.work, worlds, c.input, c.before);
  }
}

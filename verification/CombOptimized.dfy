/** What the simplified graph of Combs.cpp computes: the shortened schedule is
    topological, and sequential evaluation gives the nodes that are left and the
    work expression the values they had before. */
module CombOptimized {
  import opened Common
  import opened CombGraph
  import opened CombLeads
  import opened CombTyping
  import CombPlan
  import CombDynamic

  // ----- Evaluation by schedule -----------------------------------------------------------

  /** A memory that holds the values read from `ids`. */
  function Scatter(n: nat, ids: seq<nat>, values: seq<int>): (r: seq<int>)
    ensures |r| == n
  {
    seq(n, x requires 0 <= x < n => ValueFrom(ids, values, x))
  }

  function ValueFrom(ids: seq<nat>, values: seq<int>, x: nat): int {
    if ids == [] || values == [] then 0
    else if ids[0] == x then values[0]
    else ValueFrom(ids[1..], values[1..], x)
  }

  lemma {:induction false} ValueFromReads(memory: seq<int>, ids: seq<nat>, x: nat)
    requires (forall k | 0 <= k < |ids| :: ids[k] < |memory|) && x in ids
    ensures ValueFrom(ids, CombPlan.ReadAll(memory, ids), x) == memory[x]
  {
    var values := CombPlan.ReadAll(memory, ids);
    if ids[0] != x {
      assert values[1..] == CombPlan.ReadAll(memory, ids[1..]);
      ValueFromReads(memory, ids[1..], x);
    }
  }

  ghost predicate ProgramOk(g: Graph, expr: seq<Expr>, deps: seq<seq<nat>>) {
    |g.nodes| == |expr| == |deps| && forall id | 0 <= id < |expr| :: InRange(expr[id], |g.nodes|)
  }

  /** Each node is assigned its expression on the values it reads; where it
      mentions itself it reads what its slot held before. */
  ghost function FormulaOf(g: Graph, expr: seq<Expr>, deps: seq<seq<nat>>, worlds: int -> World): CombPlan.Formula
    requires ProgramOk(g, expr, deps)
  {
    (id: nat, input: int, own: int, values: seq<int>) =>
      if id < |expr| then Assigned(g, id, expr[id], Scatter(|expr|, deps[id], values)[id := own], worlds(input)) else 0
  }

  lemma FormulaReads(g: Graph, expr: seq<Expr>, deps: seq<seq<nat>>, worlds: int -> World, input: int, own: int,
                     memory: seq<int>, id: nat)
    requires ProgramOk(g, expr, deps) && |memory| == |g.nodes| && id < |expr|
    requires (forall k | 0 <= k < |deps[id]| :: deps[id][k] < |memory|)
             && forall d: nat | Mentions(expr[id], d) && d != id :: d in deps[id]
    ensures FormulaOf(g, expr, deps, worlds)(id, input, own, CombPlan.ReadAll(memory, deps[id]))
         == Assigned(g, id, expr[id], memory[id := own], worlds(input))
  {
    var seen := Scatter(|expr|, deps[id], CombPlan.ReadAll(memory, deps[id]))[id := own];
    forall d | 0 <= d < |memory| && Mentions(expr[id], d) ensures seen[d] == memory[id := own][d] {
      if d != id { ValueFromReads(memory, deps[id], d); }
    }
    ValueDepends(g, expr[id], memory[id := own], seen, worlds(input));
  }

  /** After a topological run each scheduled node holds its expression's value
      on the final values, where its own slot counts as it was before. */
  lemma RunNode(g: Graph, expr: seq<Expr>, deps: seq<seq<nat>>, worlds: int -> World, input: int, memory: seq<int>,
                order: seq<nat>, id: nat)
    requires ProgramOk(g, expr, deps) && |memory| == |g.nodes| && CombPlan.Topological(deps, order) && id in order
             && id < |expr|
    requires forall d: nat | Mentions(expr[id], d) && d != id :: d in deps[id]
    ensures var final := CombPlan.RunSchedule(deps, FormulaOf(g, expr, deps, worlds), input, memory, order);
            final[id] == Assigned(g, id, expr[id], final[id := memory[id]], worlds(input))
  {
    var f := FormulaOf(g, expr, deps, worlds);
    var k :| 0 <= k < |order| && order[k] == id;
    CombPlan.ScheduleFixpoint(deps, f, input, memory, order, k);
    FormulaReads(g, expr, deps, worlds, input, memory[id], CombPlan.RunSchedule(deps, f, input, memory, order), id);
  }

  // ----- Order ------------------------------------------------------------------------------

  lemma {:induction false} LeftOrder(g: Graph, sharing: bool, schedule: seq<nat>, i: nat, j: nat)
    returns (i': nat, j': nat)
    requires GraphOk(g) && i < j < |LeftOf(g, sharing, schedule)|
    ensures i' < j' < |schedule|
    ensures schedule[i'] == LeftOf(g, sharing, schedule)[i] && schedule[j'] == LeftOf(g, sharing, schedule)[j]
    decreases |schedule|
  {
    var last := |schedule| - 1;
    var rest := LeftOf(g, sharing, schedule[..last]);
    if j < |rest| {
      i', j' := LeftOrder(g, sharing, schedule[..last], i, j);
    } else {
      j' := last;
      assert rest[i] in schedule[..last];
      i' :| 0 <= i' < last && schedule[i'] == rest[i];
    }
  }

  /** Nodes in order of rank. */
  ghost predicate Ranked(g: Graph, order: seq<nat>) {
    && (forall i | 0 <= i < |order| :: order[i] < |g.rank|)
    && forall i, j | 0 <= i < j < |order| :: g.rank[order[i]] < g.rank[order[j]]
  }

  function EagerOf(g: Graph): (r: seq<nat>)
    ensures forall x: nat :: x in r <==> Eager(g, x)
  {
    CombDynamic.Eager(g.schedule, g.dynamicNodes)
  }

  /** The nodes that are left without those on demand. */
  function EagerLeft(g: Graph, sharing: bool, onDemand: set<nat>): (r: seq<nat>)
    requires GraphOk(g)
    ensures forall x: nat :: x in r <==> Scheduled(g, x) && Left(g, sharing, x) && x !in onDemand
  {
    CombDynamic.Eager(LeftOf(g, sharing, g.schedule), onDemand)
  }

  lemma EagerRanked(g: Graph)
    requires Sized(g)
    ensures Ranked(g, EagerOf(g))
  {
    var a := EagerOf(g);
    forall i | 0 <= i < |a| ensures a[i] < |g.rank| { assert a[i] in g.schedule; }
    forall i, j | 0 <= i < j < |a| ensures g.rank[a[i]] < g.rank[a[j]] {
      var i', j' := CombDynamic.EagerOrder(g.schedule, g.dynamicNodes, i, j);
    }
  }

  lemma LeftRanked(g: Graph, sharing: bool, onDemand: set<nat>)
    requires GraphOk(g)
    ensures Ranked(g, EagerLeft(g, sharing, onDemand))
  {
    var b := EagerLeft(g, sharing, onDemand);
    forall i | 0 <= i < |b| ensures b[i] < |g.rank| { assert b[i] in g.schedule; }
    forall i, j | 0 <= i < j < |b| ensures g.rank[b[i]] < g.rank[b[j]] {
      var i', j' := CombDynamic.EagerOrder(LeftOf(g, sharing, g.schedule), onDemand, i, j);
      var i'', j'' := LeftOrder(g, sharing, g.schedule, i', j');
    }
  }

  /** Dependencies of lower rank make a ranked order topological. */
  lemma RankedTopological(g: Graph, deps: seq<seq<nat>>, order: seq<nat>)
    requires Ranked(g, order) && CombPlan.DependenciesOk(deps) && |deps| == |g.rank|
    requires forall id, d | id in order && id < |deps| && d in deps[id] :: d < |g.rank| && g.rank[d] < g.rank[id]
    ensures CombPlan.Topological(deps, order)
  {
    forall i, j | 0 <= i < j < |order| ensures order[i] != order[j] {
      assert g.rank[order[i]] < g.rank[order[j]];
    }
    forall i, j | 0 <= i <= j < |order| ensures order[j] !in deps[order[i]] {
      assert order[i] in order;
    }
  }

  // ----- Before -----------------------------------------------------------------------------------

  lemma BeforeTopological(g: Graph)
    requires GraphOk(g)
    ensures CombPlan.Topological(g.deps, EagerOf(g))
  {
    EagerRanked(g);
    forall id, d | id in EagerOf(g) && id < |g.deps| && d in g.deps[id] ensures d < |g.rank| && g.rank[d] < g.rank[id] {
      assert Scheduled(g, id);
    }
    RankedTopological(g, g.deps, EagerOf(g));
  }

  /** The original eager schedule, run sequentially. */
  ghost function RunBefore(g: Graph, memory: seq<int>, worlds: int -> World, input: int): (r: seq<int>)
    requires GraphOk(g) && |memory| == |g.nodes|
    ensures |r| == |memory|
  {
    BeforeTopological(g);
    CombPlan.RunSchedule(g.deps, FormulaOf(g, g.expr, g.deps, worlds), input, memory, EagerOf(g))
  }

  /** An eager node does not read itself, and after the run it satisfies its equation. */
  lemma EagerSolved(g: Graph, memory: seq<int>, worlds: int -> World, input: int, id: nat)
    requires GraphOk(g) && |memory| == |g.nodes| && Eager(g, id) && id < |g.nodes|
    ensures var val := RunBefore(g, memory, worlds, input); val[id] == Assigned(g, id, g.expr[id], val, worlds(input))
  {
    BeforeTopological(g);
    var val := RunBefore(g, memory, worlds, input);
    assert id in EagerOf(g);
    RunNode(g, g.expr, g.deps, worlds, input, memory, EagerOf(g), id);
    ValueDepends(g, g.expr[id], val, val[id := memory[id]], worlds(input));
  }

  // ----- From eager values to all equations -------------------------------------------------------------

  /** On-demand ports that only forward a cached node hold what it assigns. */
  ghost function SettledAt(g: Graph, run: seq<int>, slots: seq<int>, id: nat): int
    requires GraphOk(g) && |run| == |slots| == |g.nodes| && id < |g.nodes|
    decreases g.rank[id]
  {
    if Eager(g, id) then run[id]
    else if Forwarding(g, id) then
      assert g.deps[id][0] in g.deps[id];
      var d := g.deps[id][0];
      g.language.convert(g.nodes[d].storage, g.nodes[id].storage,
                         g.language.read(g.nodes[d].storage, SettledAt(g, run, slots, d)))
    else slots[id]
  }

  /** What the original nodes hold when slots of on-demand nodes are as in
      `slots`: the sequential values of the eager ones, and ports on top. */
  ghost function OriginalValues(g: Graph, memory: seq<int>, worlds: int -> World, input: int,
                                slots: seq<int>): (val: seq<int>)
    requires GraphOk(g) && |memory| == |slots| == |g.nodes|
    ensures |val| == |g.nodes|
    ensures forall id: nat | Eager(g, id) && id < |g.nodes| :: val[id] == RunBefore(g, memory, worlds, input)[id]
    ensures forall id: nat | id < |g.nodes| && !Eager(g, id) && !Forwarding(g, id) :: val[id] == slots[id]
  {
    seq(|g.nodes|, id requires 0 <= id < |g.nodes| => SettledAt(g, RunBefore(g, memory, worlds, input), slots, id))
  }

  /** Whatever on-demand slots hold, the sequential values of the eager nodes
      extend to a solution of all equations. */
  lemma OriginalSolves(g: Graph, memory: seq<int>, worlds: int -> World, input: int, slots: seq<int>)
    requires GraphOk(g) && |memory| == |slots| == |g.nodes|
    ensures Solves(g, OriginalValues(g, memory, worlds, input, slots), worlds(input))
  {
    var run := RunBefore(g, memory, worlds, input);
    var val, w := OriginalValues(g, memory, worlds, input, slots), worlds(input);
    forall id: nat | id < |g.nodes| && Equated(g, id) ensures val[id] == Assigned(g, id, g.expr[id], val, w) {
      if Eager(g, id) {
        EagerSolved(g, memory, worlds, input, id);
        ValueDepends(g, g.expr[id], run, val, w);
      } else {
        assert g.deps[id][0] in g.deps[id];
      }
    }
  }

  /** Cached on-demand ports that only forward a cached node hold what it
      assigns: both are read from the same first demand. */
  ghost predicate ForwardingAgrees(g: Graph, val: seq<int>)
    requires Sized(g) && |val| == |g.nodes|
  {
    forall id: nat | id < |g.nodes| && !Eager(g, id) && Forwarding(g, id) ::
      val[id] == g.language.convert(g.nodes[g.deps[id][0]].storage, g.nodes[id].storage, Held(g, val, g.deps[id][0]))
  }

  /** With on-demand values of that kind in place, the run itself is a solution. */
  lemma RunSolves(g: Graph, memory: seq<int>, worlds: int -> World, input: int)
    requires GraphOk(g) && |memory| == |g.nodes| && ForwardingAgrees(g, RunBefore(g, memory, worlds, input))
    ensures Solves(g, RunBefore(g, memory, worlds, input), worlds(input))
  {
    var val := RunBefore(g, memory, worlds, input);
    forall id: nat | id < |g.nodes| && Equated(g, id)
      ensures val[id] == Assigned(g, id, g.expr[id], val, worlds(input))
    {
      if Eager(g, id) { EagerSolved(g, memory, worlds, input, id); }
    }
  }

  // ----- After ------------------------------------------------------------------------------------

  /** The shortened eager schedule is topological for the concrete dependencies. */
  lemma AfterTopological(g: Graph, sharing: bool, r: Optimized)
    requires GraphOk(g) && NodesSimplified(g, sharing, r)
    ensures CombPlan.Topological(r.deps, EagerLeft(g, sharing, g.dynamicNodes))
  {
    LeftRanked(g, sharing, g.dynamicNodes);
    forall id, d | id in EagerLeft(g, sharing, g.dynamicNodes) && id < |g.nodes| && d in r.deps[id]
      ensures d < |g.rank| && g.rank[d] < g.rank[id]
    {
      FinalNode(g, sharing, r, id);
    }
    RankedTopological(g, r.deps, EagerLeft(g, sharing, g.dynamicNodes));
  }

  ghost function RunAfter(g: Graph, sharing: bool, r: Optimized, memory: seq<int>, worlds: int -> World,
                          input: int): (after: seq<int>)
    requires GraphOk(g) && NodesSimplified(g, sharing, r) && |memory| == |g.nodes|
    ensures |after| == |memory|
  {
    AfterTopological(g, sharing, r);
    CombPlan.RunSchedule(r.deps, FormulaOf(g, r.expr, r.deps, worlds), input, memory,
                         EagerLeft(g, sharing, g.dynamicNodes))
  }

  /** Nodes outside the eager schedules keep what was there. */
  lemma OutsideKept(g: Graph, sharing: bool, r: Optimized, memory: seq<int>, worlds: int -> World, input: int, id: nat)
    requires GraphOk(g) && NodesSimplified(g, sharing, r) && |memory| == |g.nodes| && id < |g.nodes| && !Eager(g, id)
    ensures RunBefore(g, memory, worlds, input)[id] == memory[id]
            && RunAfter(g, sharing, r, memory, worlds, input)[id] == memory[id]
  {
    AfterTopological(g, sharing, r);
    BeforeTopological(g);
    CombPlan.UnscheduledKept(g.deps, FormulaOf(g, g.expr, g.deps, worlds), input, memory, EagerOf(g), id);
    CombPlan.UnscheduledKept(r.deps, FormulaOf(g, r.expr, r.deps, worlds), input, memory,
                             EagerLeft(g, sharing, g.dynamicNodes), id);
  }

  /** A node that is left and eager has the same value after both runs. */
  lemma {:induction false} LeftValue(g: Graph, sharing: bool, r: Optimized, memory: seq<int>, worlds: int -> World,
                                     input: int, id: nat)
    requires GraphOk(g) && MatchesAll(g, sharing) && NodesSimplified(g, sharing, r) && |memory| == |g.nodes|
    requires Eager(g, id) && Left(g, sharing, id)
    ensures RunAfter(g, sharing, r, memory, worlds, input)[id] == RunBefore(g, memory, worlds, input)[id]
    decreases g.rank[id]
  {
    var before := OriginalValues(g, memory, worlds, input, memory);
    var after := RunAfter(g, sharing, r, memory, worlds, input);
    FinalNode(g, sharing, r, id);
    AfterFixpoint(g, sharing, r, memory, worlds, input, id);
    forall d | 0 <= d < |before| && Mentions(r.expr[id], d) ensures after[d] == before[d] {
      LeftValue(g, sharing, r, memory, worlds, input, d);
    }
    ValueDepends(g, r.expr[id], before, after, worlds(input));
    FinalMeans(g, sharing, r, memory, worlds, input, memory, id);
  }

  /** The final expression assigns what the original one does in all original values. */
  lemma FinalMeans(g: Graph, sharing: bool, r: Optimized, memory: seq<int>, worlds: int -> World, input: int,
                   slots: seq<int>, id: nat)
    requires GraphOk(g) && MatchesAll(g, sharing) && NodesSimplified(g, sharing, r) && |memory| == |slots| == |g.nodes|
    requires Scheduled(g, id) && Left(g, sharing, id)
    ensures var val := OriginalValues(g, memory, worlds, input, slots);
            && Assigned(g, id, r.expr[id], val, worlds(input)) == Assigned(g, id, g.expr[id], val, worlds(input))
            && (Eager(g, id) ==> val[id] == Assigned(g, id, g.expr[id], val, worlds(input)))
  {
    var val := OriginalValues(g, memory, worlds, input, slots);
    OriginalSolves(g, memory, worlds, input, slots);
    MatchingKeeps(g, sharing);
    assert KeptAt(g, sharing, id, val, worlds(input));
    assert NodeSimplified(g, sharing, r, id);
  }

  lemma AfterFixpoint(g: Graph, sharing: bool, r: Optimized, memory: seq<int>, worlds: int -> World, input: int,
                      id: nat)
    requires GraphOk(g) && NodesSimplified(g, sharing, r) && |memory| == |g.nodes| && Eager(g, id)
             && Left(g, sharing, id)
    ensures var after := RunAfter(g, sharing, r, memory, worlds, input);
            after[id] == Assigned(g, id, r.expr[id], after, worlds(input))
  {
    AfterTopological(g, sharing, r);
    FinalNode(g, sharing, r, id);
    assert id in EagerLeft(g, sharing, g.dynamicNodes);
    RunNode(g, r.expr, r.deps, worlds, input, memory, EagerLeft(g, sharing, g.dynamicNodes), id);
    var after := RunAfter(g, sharing, r, memory, worlds, input);
    ValueDepends(g, r.expr[id], after, after[id := memory[id]], worlds(input));
  }

  /** Simplification preserves values: running the shortened schedule instead of
      the original one leaves every node that is left with its old value, and
      also the rewritten work if on-demand ports hold what they forward. */
  lemma OptimizedRun(g: Graph, sharing: bool, work: Expr, r: Optimized, memory: seq<int>, worlds: int -> World,
                     input: int)
    requires GraphOk(g) && MatchesAll(g, sharing) && Flat(work, |g.nodes|) && Simplified(g, sharing, work, r)
             && |memory| == |g.nodes|
    ensures forall id: nat | id < |g.nodes| && (Scheduled(g, id) ==> Left(g, sharing, id)) ::
              RunAfter(g, sharing, r, memory, worlds, input)[id] == RunBefore(g, memory, worlds, input)[id]
    ensures WorkMatches(g, sharing, work) && ForwardingAgrees(g, RunBefore(g, memory, worlds, input)) ==>
              Value(g, r.work, RunAfter(g, sharing, r, memory, worlds, input), worlds(input))
              == Value(g, work, RunBefore(g, memory, worlds, input), worlds(input))
  {
    var before, after := RunBefore(g, memory, worlds, input), RunAfter(g, sharing, r, memory, worlds, input);
    forall id: nat | id < |g.nodes| && (Scheduled(g, id) ==> Left(g, sharing, id)) ensures after[id] == before[id] {
      if Eager(g, id) {
        LeftValue(g, sharing, r, memory, worlds, input, id);
      } else { OutsideKept(g, sharing, r, memory, worlds, input, id); }
    }
    forall x: nat | x < |g.nodes| && Mentions(r.work, x) ensures after[x] == before[x] {
      WorkMentions(g, sharing, work, x);
    }
    ValueDepends(g, r.work, before, after, worlds(input));
    if WorkMatches(g, sharing, work) && ForwardingAgrees(g, before) {
      RunSolves(g, memory, worlds, input);
      MatchingWork(g, sharing, work, before, worlds(input));
    }
  }

  /** Rewritten work mentions nothing that is gone. */
  lemma WorkMentions(g: Graph, sharing: bool, work: Expr, x: nat)
    requires GraphOk(g) && Flat(work, |g.nodes|) && Mentions(Subst(g, sharing, work), x)
    ensures Left(g, sharing, x)
  {
    SubstMentions(g, sharing, work, x);
    var d: nat :| d < |g.nodes| && Mentions(work, d) && Mentions(Target(g, sharing, d), x);
    TargetMentions(g, sharing, d, x);
  }
}

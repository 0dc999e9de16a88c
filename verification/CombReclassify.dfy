/** The second classification of Combs.cpp, on the simplified graph without
    self-references: what is eager after it, in which order it may run, and
    what that run computes. */
module CombReclassify {
  import opened Common
  import opened CombGraph
  import opened CombLeads
  import opened CombTyping
  import opened CombPipeline
  import opened DependencyGraph
  import CombOptimized
  import CombPlan
  import CombSchedule
  import CombDynamic

  /** Everything up to the second classification: the graph, its
      simplification, the front end, the edges that were collected again, the
      facts read again and the nodes that stay on demand. */
  datatype Passes = Passes(g: Graph, sharing: bool, r: Optimized, front: Front,
                           uses: seq<seq<nat>>, facts: CombDynamic.Facts, again: set<nat>)

  /** The edges of the simplified graph, without self-references. */
  ghost predicate Uses(g: Graph, sharing: bool, r: Optimized, uses: seq<seq<nat>>)
    requires GraphOk(g)
  {
    && |uses| == |r.expr| == |g.nodes|
    && forall id: nat, d: nat | Scheduled(g, id) && Left(g, sharing, id) ::
         d in uses[id] <==> Mentions(r.expr[id], d) && d != id
  }

  /** The contracts of all passes so far. */
  ghost predicate PassesOk(p: Passes) {
    && GraphOk(p.g) && Prepares(p.g, p.front) && Classified(p.g, p.front)
    && NodesSimplified(p.g, p.sharing, p.r) && Uses(p.g, p.sharing, p.r, p.uses)
    && forall x: nat ::
         x in p.again <==> CombDynamic.ReachesSeed(p.uses, LeftOf(p.g, p.sharing, p.g.schedule), p.facts, x)
  }

  // ----- What nodes mention afterwards --------------------------------------------------------

  /** A node that is left mentions exactly the targets of what it mentioned. */
  lemma FinalMentions(p: Passes, id: nat, r: nat)
    requires PassesOk(p) && Scheduled(p.g, id) && Left(p.g, p.sharing, id)
    ensures Mentions(p.r.expr[id], r) <==> Reaches(p.g, p.sharing, p.g.expr[id], r)
  {
    assert NodeSimplified(p.g, p.sharing, p.r, id);
    SubstMentions(p.g, p.sharing, p.g.expr[id], r);
  }

  lemma MentionedFinally(p: Passes, id: nat, y: nat, r: nat)
    requires PassesOk(p) && Scheduled(p.g, id) && Left(p.g, p.sharing, id)
    requires y < |p.g.nodes| && Mentions(p.g.expr[id], y) && Mentions(Target(p.g, p.sharing, y), r)
    ensures Mentions(p.r.expr[id], r)
  {
    FinalMentions(p, id, r);
  }

  // ----- Cycles survive, unless they shrink to one node -----------------------------------------

  ghost function Members(ids: seq<nat>): (r: set<nat>)
    ensures forall x :: x in r <==> x in ids
  {
    set x | x in ids
  }

  /** The original edges between scheduled nodes. */
  ghost function Before(p: Passes): Digraph { Digraph(AllOf(p.front), Members(p.g.schedule)) }

  /** The edges between the nodes that are left. */
  ghost function After(p: Passes): Digraph
    requires GraphOk(p.g)
  {
    Digraph(p.uses, set x | x in LeftOf(p.g, p.sharing, p.g.schedule))
  }

  lemma CyclicIsDynamic(p: Passes, z: nat)
    requires PassesOk(p) && OnCycle(Before(p), z)
    ensures z in p.g.dynamicNodes && Scheduled(p.g, z)
  {
    assert Members(p.g.schedule) == set x | x in p.g.schedule;
    assert CombDynamic.Seed(AllOf(p.front), p.g.schedule, p.front.facts, z);
    ReachSelf(Before(p), z);
  }

  /** A node after the start of a cycle is on it as well. */
  lemma CycleStep(h: Digraph, x: nat, y: nat)
    requires Edge(h, x, y) && Reach(h, y, x)
    ensures OnCycle(h, y)
  {
    if x == y { return; }
    var z := FirstStep(h, y, x);
    ReachThenEdge(h, z, x, y);
  }

  /** What stands for a cycle node is a cycle node that is left. */
  lemma {:induction false} CycleLeads(p: Passes, x: nat)
    requires PassesOk(p) && OnCycle(Before(p), x) && x < |p.g.nodes|
    ensures var c := Lead(p.g, p.sharing, x);
            Left(p.g, p.sharing, c) && Scheduled(p.g, c) && !Eager(p.g, c) && Target(p.g, p.sharing, x) == Ref(c)
    decreases p.g.rank[x]
  {
    CyclicIsDynamic(p, x);
    if Forwarding(p.g, x) {
      var d := p.g.deps[x][0];
      var y: nat :| Edge(Before(p), x, y) && Reach(Before(p), y, x);
      assert Mentions(p.g.expr[x], y);
      CycleStep(Before(p), x, y);
      assert y == d && d in p.g.deps[x];
      CycleLeads(p, d);
      TargetOfLead(p.g, p.sharing, x);
    }
    TargetIs(p.g, p.sharing, x);
  }

  /** One edge between cycle nodes becomes an edge or disappears. */
  lemma CycleEdge(p: Passes, x: nat, y: nat)
    requires PassesOk(p) && OnCycle(Before(p), x) && OnCycle(Before(p), y) && Edge(Before(p), x, y)
    ensures x < |p.g.nodes| && y < |p.g.nodes| && Reach(After(p), Lead(p.g, p.sharing, x), Lead(p.g, p.sharing, y))
  {
    CycleLeads(p, x);
    CycleLeads(p, y);
    CyclicIsDynamic(p, x);
    var c := Lead(p.g, p.sharing, y);
    assert Mentions(p.g.expr[x], y);
    if Forwarding(p.g, x) {
      assert y == p.g.deps[x][0];
      ReachSelf(After(p), c);
    } else {
      MentionedFinally(p, x, y, c);
      if c == x { ReachSelf(After(p), c); } else { ReachEdge(After(p), x, c); }
    }
  }

  /** The second node of a path around a cycle is on it, and so is the rest. */
  lemma CycleRest(h: Digraph, path: seq<nat>, x: nat, y: nat)
    requires PathBetween(h, path, x, y) && Reach(h, y, x) && |path| > 1
    ensures var z := path[1];
            Edge(h, x, z) && PathBetween(h, path[1..], z, y) && OnCycle(h, z) && Reach(h, y, z) && z < |h.all|
  {
    var z := path[1];
    assert Edge(h, path[0], path[1]);
    assert PathBetween(h, path[1..], z, y);
    ReachTrans(h, z, y, x);
    CycleStep(h, x, z);
    ReachThenEdge(h, y, x, z);
  }

  /** A path around a cycle becomes a path between what stands for its ends. */
  lemma {:induction false} CyclePath(p: Passes, path: seq<nat>, x: nat, y: nat)
    requires PassesOk(p) && PathBetween(Before(p), path, x, y) && Reach(Before(p), y, x) && OnCycle(Before(p), x)
             && x < |p.g.nodes|
    ensures y < |p.g.nodes| && Reach(After(p), Lead(p.g, p.sharing, x), Lead(p.g, p.sharing, y))
    decreases |path|
  {
    var h := Before(p);
    if |path| == 1 {
      ReachSelf(After(p), Lead(p.g, p.sharing, x));
    } else {
      var z := path[1];
      CycleRest(h, path, x, y);
      CycleEdge(p, x, z);
      CyclePath(p, path[1..], z, y);
      ReachTrans(After(p), Lead(p.g, p.sharing, x), Lead(p.g, p.sharing, z), Lead(p.g, p.sharing, y));
    }
  }

  // ----- The eager nodes of the second classification ---------------------------------------------

  /** The eager rest of the second classification. */
  function EagerAgain(p: Passes): (r: seq<nat>)
    requires GraphOk(p.g)
    ensures forall x: nat :: x in r <==> Scheduled(p.g, x) && Left(p.g, p.sharing, x) && x !in p.again
  {
    CombOptimized.EagerLeft(p.g, p.sharing, p.again)
  }

  /** What an eager node still mentions, apart from itself, is eager and earlier,
      although its node may have been on demand before simplification. */
  lemma SecondEager(p: Passes, id: nat, r: nat)
    requires PassesOk(p) && id in EagerAgain(p) && Mentions(p.r.expr[id], r) && r != id
    ensures r in EagerAgain(p) && r < |p.g.nodes| && p.g.rank[r] < p.g.rank[id]
  {
    FinalMentions(p, id, r);
    var y: nat :| y < |p.g.nodes| && Mentions(p.g.expr[id], y) && Mentions(Target(p.g, p.sharing, y), r);
    MentionScheduled(p, id, y);
    TargetMentions(p.g, p.sharing, y, r);
    assert Edge(After(p), id, r);
    if r in p.again { SeedThroughEdge(p, id, r); }
    NeverDropped(p, id, y, r);
    KeptEarlier(p.g, p.front, id, y);
  }

  lemma SeedThroughEdge(p: Passes, id: nat, r: nat)
    requires PassesOk(p) && Edge(After(p), id, r) && r in p.again
    ensures id in p.again
  {
    var schedule := LeftOf(p.g, p.sharing, p.g.schedule);
    var seed: nat :| CombDynamic.Seed(p.uses, schedule, p.facts, seed) && Reach(After(p), r, seed);
    ReachEdge(After(p), id, r);
    ReachTrans(After(p), id, r, seed);
  }

  lemma MentionScheduled(p: Passes, id: nat, y: nat)
    requires PassesOk(p) && Scheduled(p.g, id) && id < |p.g.nodes| && Mentions(p.g.expr[id], y)
    ensures Scheduled(p.g, y) && Edge(FullGraph(p.front), id, y)
  {
    CombDynamic.ScheduleIsClosed(FullGraph(p.front), p.front.roots, p.g.schedule, p.front.kept);
    MentionsInRange(p.g.expr[id], |p.g.nodes|, y);
    assert Edge(FullGraph(p.front), id, y);
  }

  /** A dependency the first search dropped puts the node on a cycle again. */
  lemma DroppedAgain(p: Passes, id: nat, y: nat, r: nat)
    requires PassesOk(p) && Scheduled(p.g, id) && Left(p.g, p.sharing, id) && Edge(After(p), id, r)
    requires y < |p.g.nodes| && Mentions(p.g.expr[id], y) && Mentions(Target(p.g, p.sharing, y), r)
             && y !in p.g.deps[id]
    ensures OnCycle(After(p), id)
  {
    var path := DroppedCycle(p, id, y);
    CycleLeads(p, y);
    CyclePath(p, path, y, id);
    assert r == Lead(p.g, p.sharing, y);
  }

  lemma NeverDropped(p: Passes, id: nat, y: nat, r: nat)
    requires PassesOk(p) && id in EagerAgain(p) && Edge(After(p), id, r)
    requires y < |p.g.nodes| && Mentions(p.g.expr[id], y) && Mentions(Target(p.g, p.sharing, y), r)
    ensures y in p.g.deps[id]
  {
    if y !in p.g.deps[id] {
      DroppedAgain(p, id, y, r);
      OnCycleIsSeed(p.uses, LeftOf(p.g, p.sharing, p.g.schedule), p.facts, id);
    }
  }

  lemma OnCycleIsSeed(uses: seq<seq<nat>>, schedule: seq<nat>, facts: CombDynamic.Facts, id: nat)
    requires id in schedule && OnCycle(Digraph(uses, set x | x in schedule), id)
    ensures CombDynamic.ReachesSeed(uses, schedule, facts, id)
  {
    ReachSelf(Digraph(uses, set x | x in schedule), id);
    assert CombDynamic.Seed(uses, schedule, facts, id);
  }

  lemma DroppedCycle(p: Passes, id: nat, y: nat) returns (path: seq<nat>)
    requires PassesOk(p) && Scheduled(p.g, id) && id < |p.g.nodes| && Mentions(p.g.expr[id], y) && y !in p.g.deps[id]
    ensures PathBetween(Before(p), path, y, id) && Reach(Before(p), id, y) && OnCycle(Before(p), y)
  {
    var full, h := FullGraph(p.front), Before(p);
    var i := PlaceOf(p.g, id);
    assert CombSchedule.PlaceOk(full, p.g.schedule, p.front.kept, i);
    MentionScheduled(p, id, y);
    CombDynamic.ScheduleIsClosed(full, p.front.roots, p.g.schedule, p.front.kept);
    assert Members(p.g.schedule) == set x | x in p.g.schedule;
    var q :| PathBetween(full, q, y, id);
    CombDynamic.PathRestricts(full, Members(p.g.schedule), q, y, id);
    path :| PathBetween(h, path, y, id);
    assert Edge(h, id, y);
    ReachEdge(h, id, y);
    CycleStep(h, id, y);
  }

  // ----- The order of the second eager schedule -----------------------------------------------------

  /** A node's final dependencies stem from kept ones. */
  lemma FinalDepsFrom(p: Passes, id: nat, d: nat) returns (y: nat)
    requires PassesOk(p) && Scheduled(p.g, id) && Left(p.g, p.sharing, id) && d in p.r.deps[id]
    ensures y < |p.g.nodes| && y in p.g.deps[id] && Mentions(Target(p.g, p.sharing, y), d)
    ensures d < |p.g.nodes| && p.g.rank[d] < p.g.rank[id]
  {
    assert NodeSimplified(p.g, p.sharing, p.r, id);
    y :| y in p.g.deps[id] && y < |p.g.nodes| && Mentions(Target(p.g, p.sharing, y), d);
    TargetMentions(p.g, p.sharing, y, d);
  }

  lemma KeptMentioned(p: Passes, id: nat, y: nat)
    requires PassesOk(p) && id < |p.g.nodes| && Scheduled(p.g, id) && y in p.g.deps[id]
    ensures Mentions(p.g.expr[id], y)
  {
    var i := PlaceOf(p.g, id);
    assert CombSchedule.PlaceOk(FullGraph(p.front), p.g.schedule, p.front.kept, i);
  }

  /** The final dependencies of a second-eager node are what its final
      expression mentions, apart from the node itself. */
  lemma FinalDepsExact(p: Passes, id: nat, d: nat)
    requires PassesOk(p) && id in EagerAgain(p)
    ensures d in p.r.deps[id] <==> Mentions(p.r.expr[id], d) && d != id
  {
    if d in p.r.deps[id] {
      var y := FinalDepsFrom(p, id, d);
      KeptMentioned(p, id, y);
      MentionedFinally(p, id, y, d);
    }
    if Mentions(p.r.expr[id], d) && d != id {
      FinalMentions(p, id, d);
      var y: nat :| y < |p.g.nodes| && Mentions(p.g.expr[id], y) && Mentions(Target(p.g, p.sharing, y), d);
      MentionScheduled(p, id, y);
      TargetMentions(p.g, p.sharing, y, d);
      assert Edge(After(p), id, d);
      NeverDropped(p, id, y, d);
      assert NodeSimplified(p.g, p.sharing, p.r, id);
    }
  }

  /** The second eager schedule is always topological for the concrete
      dependencies: cycles that are left are on demand, and a node that reads
      itself does not depend on itself. */
  lemma SecondTopological(p: Passes)
    requires PassesOk(p)
    ensures CombPlan.Topological(p.r.deps, EagerAgain(p))
  {
    CombOptimized.LeftRanked(p.g, p.sharing, p.again);
    forall id, d | id in EagerAgain(p) && id < |p.g.nodes| && d in p.r.deps[id]
      ensures d < |p.g.rank| && p.g.rank[d] < p.g.rank[id]
    {
      var y := FinalDepsFrom(p, id, d);
    }
    CombOptimized.RankedTopological(p.g, p.r.deps, EagerAgain(p));
  }

  /** Exactly when a node that is left reads its own slot: in the original graph
      it is on demand and mentions itself, directly or through forwarding ports. */
  lemma ReadsItself(p: Passes, id: nat)
    requires PassesOk(p) && Scheduled(p.g, id) && Left(p.g, p.sharing, id)
    ensures Mentions(p.r.expr[id], id)
       <==> !Eager(p.g, id) && ReadsThroughPorts(p.g, id)
  {
    FinalMentions(p, id, id);
    if Eager(p.g, id) {
      FinalNode(p.g, p.sharing, p.r, id);
    } else {
      if Mentions(p.r.expr[id], id) {
        var y: nat :| y < |p.g.nodes| && Mentions(p.g.expr[id], y) && Mentions(Target(p.g, p.sharing, y), id);
        LeadsThrough(p.g, p.sharing, y, id);
      }
      if ReadsThroughPorts(p.g, id) { PortsLead(p, id); }
    }
  }

  lemma PortsLead(p: Passes, id: nat)
    requires PassesOk(p) && Scheduled(p.g, id) && Left(p.g, p.sharing, id) && ReadsThroughPorts(p.g, id)
    ensures Mentions(p.r.expr[id], id)
  {
    var y: nat :| y < |p.g.nodes| && Mentions(p.g.expr[id], y) && ForwardedFrom(p.g, y) == id;
    TargetIs(p.g, p.sharing, y);
    LeadOnce(p.g, p.sharing, y);
    MentionedFinally(p, id, y, id);
  }

  ghost predicate ReadsThroughPorts(g: Graph, id: nat)
    requires GraphOk(g) && id < |g.nodes|
  {
    exists y: nat {:trigger Mentions(g.expr[id], y)} ::
      y < |g.nodes| && Mentions(g.expr[id], y) && ForwardedFrom(g, y) == id
  }

  /** Only forwarding ports lead to an on-demand node. */
  lemma LeadsThrough(g: Graph, sharing: bool, y: nat, id: nat)
    requires GraphOk(g) && y < |g.nodes| && !Eager(g, id) && Mentions(Target(g, sharing, y), id)
    ensures ForwardedFrom(g, y) == id
  {
    TargetIs(g, sharing, y);
    var lead := Lead(g, sharing, y);
    if Inlines(g, sharing, lead) { SubstEarlier(g, sharing, lead, id); }
  }

  // ----- Running the second eager schedule ------------------------------------------------------------

  ghost function RunAgain(p: Passes, memory: seq<int>, worlds: int -> World, input: int): (r: seq<int>)
    requires PassesOk(p) && |memory| == |p.g.nodes|
    ensures |r| == |memory|
  {
    SecondTopological(p);
    CombPlan.RunSchedule(p.r.deps, CombOptimized.FormulaOf(p.g, p.r.expr, p.r.deps, worlds), input, memory,
                         EagerAgain(p))
  }

  /** After the run a node holds its final expression's value, where its own
      slot counts as it was before. */
  lemma AgainNode(p: Passes, memory: seq<int>, worlds: int -> World, input: int, id: nat)
    requires PassesOk(p) && |memory| == |p.g.nodes| && id in EagerAgain(p)
    ensures var after := RunAgain(p, memory, worlds, input);
            after[id] == Assigned(p.g, id, p.r.expr[id], after[id := memory[id]], worlds(input))
  {
    SecondTopological(p);
    forall d: nat | Mentions(p.r.expr[id], d) && d != id ensures d in p.r.deps[id] { FinalDepsExact(p, id, d); }
    CombOptimized.RunNode(p.g, p.r.expr, p.r.deps, worlds, input, memory, EagerAgain(p), id);
  }

  lemma AgainKept(p: Passes, memory: seq<int>, worlds: int -> World, input: int, id: nat)
    requires PassesOk(p) && |memory| == |p.g.nodes| && id < |p.g.nodes| && id !in EagerAgain(p)
    ensures RunAgain(p, memory, worlds, input)[id] == memory[id]
  {
    SecondTopological(p);
    CombPlan.UnscheduledKept(p.r.deps, CombOptimized.FormulaOf(p.g, p.r.expr, p.r.deps, worlds), input, memory,
                             EagerAgain(p), id);
  }

  /** A node that is eager both times holds its original sequential value,
      whatever the slots of other nodes hold. */
  lemma {:induction false} EagerTwice(p: Passes, memory: seq<int>, worlds: int -> World, input: int, id: nat)
    requires PassesOk(p) && MatchesAll(p.g, p.sharing) && |memory| == |p.g.nodes| && id in EagerAgain(p)
             && Eager(p.g, id)
    ensures RunAgain(p, memory, worlds, input)[id] == CombOptimized.RunBefore(p.g, memory, worlds, input)[id]
    decreases p.g.rank[id]
  {
    var val := CombOptimized.OriginalValues(p.g, memory, worlds, input, memory);
    var seen := RunAgain(p, memory, worlds, input)[id := memory[id]];
    AgainNode(p, memory, worlds, input, id);
    FinalNode(p.g, p.sharing, p.r, id);
    forall d | 0 <= d < |val| && Mentions(p.r.expr[id], d) ensures seen[d] == val[d] {
      SecondEager(p, id, d);
      EagerTwice(p, memory, worlds, input, d);
    }
    ValueDepends(p.g, p.r.expr[id], val, seen, worlds(input));
    CombOptimized.FinalMeans(p.g, p.sharing, p.r, memory, worlds, input, memory, id);
  }

  /** A node that is left holds in the original values what `slots` says, if
      that is what it holds after the run. */
  lemma OriginalAgrees(p: Passes, memory: seq<int>, worlds: int -> World, input: int, slots: seq<int>, id: nat)
    requires PassesOk(p) && MatchesAll(p.g, p.sharing) && |memory| == |slots| == |p.g.nodes| && Left(p.g, p.sharing, id)
    requires Eager(p.g, id) ==> id in EagerAgain(p) && slots[id] == RunAgain(p, memory, worlds, input)[id]
    ensures CombOptimized.OriginalValues(p.g, memory, worlds, input, slots)[id] == slots[id]
  {
    if Eager(p.g, id) { EagerTwice(p, memory, worlds, input, id); }
  }

  /** `slots` are the values after the run, but for the node's own slot: it is
      as before or, unless the node reads itself, anything. */
  ghost predicate SlotsFor(p: Passes, memory: seq<int>, after: seq<int>, slots: seq<int>, id: nat)
    requires PassesOk(p) && id < |p.g.nodes|
  {
    && |memory| == |after| == |slots| == |p.g.nodes|
    && (forall d | 0 <= d < |slots| && d != id :: slots[d] == after[d])
    && (slots[id] == memory[id] || !Mentions(p.r.expr[id], id))
  }

  /** The node's original expression on these values was assigned to it. */
  ghost predicate Equation(p: Passes, after: seq<int>, val: seq<int>, w: World, id: nat)
    requires GraphOk(p.g) && id < |p.g.nodes| == |after| == |val|
  {
    after[id] == Assigned(p.g, id, p.g.expr[id], val, w)
  }

  /** Every node of the second eager schedule satisfies its original equation:
      the original expression on the original values. */
  lemma SecondRun(p: Passes, memory: seq<int>, worlds: int -> World, input: int, id: nat, slots: seq<int>)
    requires PassesOk(p) && MatchesAll(p.g, p.sharing) && |memory| == |p.g.nodes| && id in EagerAgain(p)
    requires SlotsFor(p, memory, RunAgain(p, memory, worlds, input), slots, id)
    ensures Equation(p, RunAgain(p, memory, worlds, input),
                     CombOptimized.OriginalValues(p.g, memory, worlds, input, slots), worlds(input), id)
  {
    var after := RunAgain(p, memory, worlds, input);
    var val, seen := CombOptimized.OriginalValues(p.g, memory, worlds, input, slots), after[id := memory[id]];
    AgainNode(p, memory, worlds, input, id);
    forall d | 0 <= d < |val| && Mentions(p.r.expr[id], d) ensures seen[d] == val[d] {
      SeenIsOriginal(p, memory, worlds, input, slots, id, d);
    }
    ValueDepends(p.g, p.r.expr[id], val, seen, worlds(input));
    CombOptimized.FinalMeans(p.g, p.sharing, p.r, memory, worlds, input, slots, id);
  }

  lemma SeenIsOriginal(p: Passes, memory: seq<int>, worlds: int -> World, input: int, slots: seq<int>, id: nat, d: nat)
    requires PassesOk(p) && MatchesAll(p.g, p.sharing) && |memory| == |p.g.nodes| && id in EagerAgain(p)
    requires SlotsFor(p, memory, RunAgain(p, memory, worlds, input), slots, id) && d < |p.g.nodes|
             && Mentions(p.r.expr[id], d)
    ensures RunAgain(p, memory, worlds, input)[id := memory[id]][d]
         == CombOptimized.OriginalValues(p.g, memory, worlds, input, slots)[d]
  {
    if d == id {
      if Eager(p.g, id) { FinalNode(p.g, p.sharing, p.r, id); }
    } else {
      SecondEager(p, id, d);
      OriginalAgrees(p, memory, worlds, input, slots, d);
    }
  }
}

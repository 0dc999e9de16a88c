/** visitNode of Combs.cpp: the depth-first schedule of a possibly cyclic
    dependency graph, which drops the edges back into the search stack. */
module CombSchedule {
  import opened DependencyGraph

  /** What prepareNode makes of a node: its dependencies, or an error. */
  datatype Prepared = Ready(dependencies: seq<nat>) | Rejected

  predicate PreparedOk(prepared: seq<Prepared>) {
    forall i, k | 0 <= i < |prepared| && prepared[i].Ready? && 0 <= k < |prepared[i].dependencies| ::
      prepared[i].dependencies[k] < |prepared|
  }

  function AllDependencies(prepared: seq<Prepared>): (all: seq<seq<nat>>)
    ensures |all| == |prepared|
  {
    seq(|prepared|, i requires 0 <= i < |prepared| => if prepared[i].Ready? then prepared[i].dependencies else [])
  }

  function Everything(n: nat): (r: set<nat>)
    ensures forall x: nat :: x in r <==> x < n
  {
    if n == 0 then {} else Everything(n - 1) + {n - 1}
  }

  /** The whole graph that preparation discovers. */
  function Discovered(prepared: seq<Prepared>): Digraph {
    Digraph(AllDependencies(prepared), Everything(|prepared|))
  }

  /** visitState, dependencies, schedule and the stack of open nodes. */
  datatype Visit = Visit(state: seq<int>, kept: seq<seq<nat>>, schedule: seq<nat>, stack: seq<nat>)

  ghost predicate Earlier(schedule: seq<nat>, d: nat, i: nat) {
    exists j | 0 <= j < i && j < |schedule| :: schedule[j] == d
  }

  ghost predicate StatesOk(g: Digraph, v: Visit) {
    && |v.state| == |v.kept| == |g.all|
    && (forall x: nat | x < |v.state| :: v.state[x] == 0 || v.state[x] == 1 || v.state[x] == 2)
    && (forall x: nat :: x in v.schedule <==> x < |v.state| && v.state[x] == 2)
    && (forall x: nat :: x in v.stack <==> x < |v.state| && v.state[x] == 1)
    && (forall i, j | 0 <= i < j < |v.schedule| :: v.schedule[i] != v.schedule[j])
    && forall i, j | 0 <= i < j < |v.stack| :: v.stack[i] != v.stack[j]
  }

  /** A dropped dependency leads back to the node it was dropped from. */
  ghost predicate Dropped(g: Digraph, v: Visit, x: nat, d: nat) {
    Reach(g, d, x) && (d in v.schedule || d in v.stack)
  }

  ghost predicate NodeOk(g: Digraph, v: Visit, i: nat)
    requires StatesOk(g, v) && i < |v.schedule|
  {
    var x := v.schedule[i];
    && x in v.schedule && x < |v.kept| && x < |g.all|
    && (forall d | d in v.kept[x] :: d in g.all[x] && Earlier(v.schedule, d, i))
    && (forall d | d in g.all[x] :: d in v.kept[x] || Dropped(g, v, x, d))
  }

  ghost predicate Inv(g: Digraph, v: Visit) {
    StatesOk(g, v) && forall i: nat | i < |v.schedule| :: NodeOk(g, v, i)
  }

  ghost predicate StackReaches(g: Digraph, v: Visit, id: nat) {
    forall x | x in v.stack :: Reach(g, x, id)
  }

  ghost predicate White(v: Visit, x: nat) { x < |v.state| && v.state[x] == 0 }

  ghost function Whites(v: Visit): set<nat> { set x: nat | x < |v.state| && White(v, x) }

  /** One call leaves the stack alone and schedules only nodes id reaches. */
  ghost predicate Grown(g: Digraph, v: Visit, v': Visit, id: nat) {
    && v'.stack == v.stack && v.schedule <= v'.schedule
    && (forall x: nat | White(v', x) :: White(v, x))
    && forall x | x in v'.schedule :: x in v.schedule || Reach(g, id, x)
  }

  predicate RejectedAt(prepared: seq<Prepared>, x: nat) { x < |prepared| && prepared[x].Rejected? }

  predicate AllReady(prepared: seq<Prepared>, schedule: seq<nat>) {
    forall k | 0 <= k < |schedule| :: !RejectedAt(prepared, schedule[k])
  }

  ghost predicate ReachesRejected(prepared: seq<Prepared>, id: nat) {
    exists f :: RejectedAt(prepared, f) && Reach(Discovered(prepared), id, f)
  }

  // ----- Inside one call ------------------------------------------------------------------------------

  ghost function Opened(v: Visit, id: nat): Visit
    requires id < |v.state|
  {
    v.(state := v.state[id := 1], stack := v.stack + [id])
  }

  ghost function Finished(v: Visit, id: nat, kept: seq<nat>): Visit
    requires id < |v.state| == |v.kept| && |v.stack| > 0
  {
    Visit(v.state[id := 2], v.kept[id := kept], v.schedule + [id], v.stack[..|v.stack| - 1])
  }

  lemma OpenInv(g: Digraph, v: Visit, id: nat)
    requires Inv(g, v) && White(v, id) && StackReaches(g, v, id)
    ensures Inv(g, Opened(v, id)) && StackReaches(g, Opened(v, id), id)
    ensures Whites(Opened(v, id)) < Whites(v)
  {
    var o := Opened(v, id);
    ReachSelf(g, id);
    forall x ensures x in o.stack <==> x in v.stack || x == id {}
    forall i: nat | i < |o.schedule| ensures NodeOk(g, o, i) { assert NodeOk(g, v, i); }
    assert id in Whites(v) && id !in Whites(o);
  }

  /** Half-way through the dependencies of `id`. */
  ghost predicate Scanning(g: Digraph, start: Visit, v: Visit, id: nat, kept: seq<nat>, n: nat) {
    && White(start, id) && id < |g.all| && Inv(g, start) && StackReaches(g, start, id)
    && Inv(g, v) && Grown(g, Opened(start, id), v, id)
    && (forall d | d in kept :: d in g.all[id] && d in v.schedule)
    && forall k | 0 <= k < n && k < |g.all[id]| :: g.all[id][k] in kept || g.all[id][k] in v.stack
  }

  lemma ScanStart(g: Digraph, v: Visit, id: nat)
    requires Inv(g, v) && White(v, id) && StackReaches(g, v, id)
    ensures Scanning(g, v, Opened(v, id), id, [], 0)
  {
    OpenInv(g, v, id);
  }

  lemma ScanSmaller(g: Digraph, start: Visit, v: Visit, id: nat, kept: seq<nat>, n: nat)
    requires Scanning(g, start, v, id, kept, n)
    ensures Whites(v) < Whites(start) && StackReaches(g, v, id)
  {
    OpenInv(g, start, id);
    assert Whites(v) <= Whites(Opened(start, id));
  }

  lemma ScanDropped(g: Digraph, start: Visit, v: Visit, id: nat, kept: seq<nat>, n: nat)
    requires Scanning(g, start, v, id, kept, n) && n < |g.all[id]| && g.all[id][n] in v.stack
    ensures Scanning(g, start, v, id, kept, n + 1)
  {}

  lemma StackReachesNext(g: Digraph, v: Visit, id: nat, d: nat)
    requires StackReaches(g, v, id) && Edge(g, id, d)
    ensures StackReaches(g, v, d)
  {
    forall x | x in v.stack ensures Reach(g, x, d) { ReachThenEdge(g, x, id, d); }
  }

  lemma ScanKept(g: Digraph, start: Visit, v: Visit, v': Visit, id: nat, kept: seq<nat>, n: nat)
    requires Scanning(g, start, v, id, kept, n) && n < |g.all[id]| && Edge(g, id, g.all[id][n])
    requires Inv(g, v') && Grown(g, v, v', g.all[id][n]) && g.all[id][n] in v'.schedule
    ensures Scanning(g, start, v', id, kept + [g.all[id][n]], n + 1)
  {
    var d := g.all[id][n];
    forall x | x in v'.schedule ensures x in start.schedule || Reach(g, id, x) {
      if x !in v.schedule {
        ReachEdge(g, id, d);
        ReachTrans(g, id, d, x);
      }
    }
  }

  lemma ScanFinish(g: Digraph, start: Visit, v: Visit, id: nat, kept: seq<nat>)
    requires id < |g.all| && Scanning(g, start, v, id, kept, |g.all[id]|)
    ensures var f := Finished(v, id, kept); Inv(g, f) && Grown(g, start, f, id) && id in f.schedule
  {
    var f := Finished(v, id, kept);
    FinishStates(g, start, v, id, kept);
    ScanSmaller(g, start, v, id, kept, |g.all[id]|);
    forall i: nat | i < |f.schedule| ensures NodeOk(g, f, i) {
      if i < |v.schedule| { FinishOld(g, v, f, id, i); } else { FinishNew(g, v, f, id, kept); }
    }
    assert f.schedule[|v.schedule|] == id;
    ReachSelf(g, id);
    assert f.stack == start.stack;
  }

  lemma FinishStates(g: Digraph, start: Visit, v: Visit, id: nat, kept: seq<nat>)
    requires StatesOk(g, v) && id < |g.all| && White(start, id) && v.stack == start.stack + [id]
    ensures StatesOk(g, Finished(v, id, kept))
  {
    var f := Finished(v, id, kept);
    assert v.stack[|start.stack|] == id;
    assert id in v.stack;
    forall x ensures x in f.stack <==> x in v.stack && x != id {
      if x in v.stack && x != id {
        var k :| 0 <= k < |v.stack| && v.stack[k] == x;
        assert f.stack[k] == x;
      }
    }
  }

  lemma FinishOld(g: Digraph, v: Visit, f: Visit, id: nat, i: nat)
    requires StatesOk(g, v) && StatesOk(g, f) && i < |v.schedule| && NodeOk(g, v, i)
    requires id in v.stack && |v.stack| > 0 && id < |v.kept| && f.kept == v.kept[id := f.kept[id]]
             && f.schedule == v.schedule + [id]
    requires forall x | x in v.stack :: x in f.stack || x == id
    ensures NodeOk(g, f, i)
  {
    var x := v.schedule[i];
    assert x in v.schedule && f.schedule[i] == x && x != id;
    assert f.schedule[|v.schedule|] == id;
    forall d | d in f.kept[x] ensures Earlier(f.schedule, d, i) {
      var j :| 0 <= j < i && j < |v.schedule| && v.schedule[j] == d;
      assert f.schedule[j] == d;
    }
    forall d | d in g.all[x] ensures d in f.kept[x] || Dropped(g, f, x, d) {
      if d !in v.kept[x] { assert Dropped(g, v, x, d); }
    }
  }

  lemma FinishNew(g: Digraph, v: Visit, f: Visit, id: nat, kept: seq<nat>)
    requires StatesOk(g, v) && StatesOk(g, f) && id < |v.kept| && f.kept == v.kept[id := kept]
             && f.schedule == v.schedule + [id]
    requires forall x | x in v.stack :: x in f.stack || x == id
    requires StackReaches(g, v, id)
    requires forall d | d in kept :: d in g.all[id] && d in v.schedule
    requires forall k | 0 <= k < |g.all[id]| :: g.all[id][k] in kept || g.all[id][k] in v.stack
    ensures NodeOk(g, f, |v.schedule|)
  {
    var i := |v.schedule|;
    assert f.schedule[i] == id;
    forall d | d in kept ensures Earlier(f.schedule, d, i) {
      var j :| 0 <= j < |v.schedule| && v.schedule[j] == d;
      assert f.schedule[j] == d;
    }
    forall d | d in g.all[id] ensures d in kept || Dropped(g, f, id, d) {}
  }

  lemma DependencyEdge(prepared: seq<Prepared>, id: nat, k: nat)
    requires PreparedOk(prepared) && id < |prepared| && prepared[id].Ready? && k < |prepared[id].dependencies|
    ensures Edge(Discovered(prepared), id, prepared[id].dependencies[k])
  {}

  lemma RejectedThrough(prepared: seq<Prepared>, id: nat, d: nat)
    requires Edge(Discovered(prepared), id, d) && ReachesRejected(prepared, d)
    ensures ReachesRejected(prepared, id)
  {
    var f :| RejectedAt(prepared, f) && Reach(Discovered(prepared), d, f);
    ReachEdge(Discovered(prepared), id, d);
    ReachTrans(Discovered(prepared), id, d, f);
  }

  class DependencySearch {
    const prepared: seq<Prepared>
    var visitState: seq<int>
    var dependencies: seq<seq<nat>>
    var schedule: seq<nat>
    var stack: seq<nat>
    var lazyCycleBackEdges: nat

    ghost function View(): Visit
      reads this
    {
      Visit(visitState, dependencies, schedule, stack)
    }

    constructor (nodes: seq<Prepared>)
      ensures prepared == nodes && Inv(Discovered(nodes), View()) && schedule == [] && stack == []
    {
      prepared := nodes;
      visitState := seq(|nodes|, i => 0);
      dependencies := AllDependencies(nodes);
      schedule, stack, lazyCycleBackEdges := [], [], 0;
    }

    /** visitNode. The branch for an open node is the source's cycle error; it
        is taken only for a node that is on the stack already. */
    method VisitNode(id: nat) returns (ok: bool)
      requires PreparedOk(prepared) && Inv(Discovered(prepared), View()) && id < |prepared|
      requires StackReaches(Discovered(prepared), View(), id) && AllReady(prepared, schedule)
      modifies this
      ensures ok ==> AllReady(prepared, schedule) && Inv(Discovered(prepared), View())
                     && Grown(Discovered(prepared), old(View()), View(), id) && id in schedule
      ensures !ok ==> id in old(stack) || ReachesRejected(prepared, id)
      decreases Whites(View()), 1
    {
      ReachSelf(Discovered(prepared), id);
      if visitState[id] == 2 { return true; }
      if visitState[id] == 1 { return false; }
      if prepared[id].Rejected? {
        assert RejectedAt(prepared, id);
        return false;
      }
      ok := ScheduleNode(id);
    }

    /** The part of visitNode that opens a prepared node, visits its
        dependencies and schedules it after them. */
    method ScheduleNode(id: nat) returns (ok: bool)
      requires PreparedOk(prepared) && Inv(Discovered(prepared), View()) && White(View(), id) && prepared[id].Ready?
      requires StackReaches(Discovered(prepared), View(), id) && AllReady(prepared, schedule)
      modifies this
      ensures ok ==> AllReady(prepared, schedule) && Inv(Discovered(prepared), View())
                     && Grown(Discovered(prepared), old(View()), View(), id) && id in schedule
      ensures !ok ==> ReachesRejected(prepared, id)
      decreases Whites(View()), 0
    {
      ghost var g, start := Discovered(prepared), View();
      ScanStart(g, start, id);
      visitState := visitState[id := 1];
      stack := stack + [id];
      var scheduled: seq<nat> := [];
      for k := 0 to |prepared[id].dependencies|
        invariant Scanning(g, start, View(), id, scheduled, k) && AllReady(prepared, schedule)
      {
        ScanSmaller(g, start, View(), id, scheduled, k);
        ok, scheduled := VisitDependency(id, k, start, scheduled);
        if !ok { return; }
      }
      ScanFinish(g, start, View(), id, scheduled);
      dependencies := dependencies[id := scheduled];
      stack := stack[..|stack| - 1];
      visitState := visitState[id := 2];
      schedule := schedule + [id];
      return true;
    }

    /** One dependency of an open node. */
    method VisitDependency(id: nat, k: nat, ghost start: Visit, scheduled: seq<nat>)
      returns (ok: bool, scheduled': seq<nat>)
      requires PreparedOk(prepared) && AllReady(prepared, schedule)
      requires id < |prepared| && prepared[id].Ready? && k < |prepared[id].dependencies|
      requires Scanning(Discovered(prepared), start, View(), id, scheduled, k)
      modifies this
      ensures ok ==>
              AllReady(prepared, schedule) && Scanning(Discovered(prepared), start, View(), id, scheduled', k + 1)
      ensures !ok ==> ReachesRejected(prepared, id)
      decreases Whites(View()), 2
    {
      ghost var g, before := Discovered(prepared), View();
      var d := prepared[id].dependencies[k];
      scheduled' := scheduled;
      DependencyEdge(prepared, id, k);
      if visitState[d] == 1 {
        lazyCycleBackEdges := lazyCycleBackEdges + 1;
        ScanDropped(g, start, before, id, scheduled, k);
        return true, scheduled';
      }
      ScanSmaller(g, start, before, id, scheduled, k);
      StackReachesNext(g, before, id, d);
      ok := VisitNode(d);
      if ok {
        ScanKept(g, start, before, View(), id, scheduled, k);
        scheduled' := scheduled + [d];
      } else {
        RejectedThrough(prepared, id, d);
      }
    }
  }

  // ----- The whole schedule -------------------------------------------------------------------------

  ghost predicate FromRoots(g: Digraph, roots: seq<nat>, x: nat) {
    exists r | r in roots :: Reach(g, r, x)
  }

  /** The finished schedule: exactly the nodes the roots reach, each once; every
      dependency that was kept comes earlier and every other one closes a cycle. */
  ghost predicate ScheduleOk(g: Digraph, roots: seq<nat>, schedule: seq<nat>, kept: seq<seq<nat>>) {
    && |kept| == |g.all|
    && (forall x: nat :: x in schedule <==> FromRoots(g, roots, x))
    && (forall i, j | 0 <= i < j < |schedule| :: schedule[i] != schedule[j])
    && forall i: nat | i < |schedule| :: PlaceOk(g, schedule, kept, i)
  }

  ghost predicate PlaceOk(g: Digraph, schedule: seq<nat>, kept: seq<seq<nat>>, i: nat)
    requires |kept| == |g.all| && i < |schedule|
  {
    var x := schedule[i];
    && x < |g.all|
    && (forall d | d in kept[x] :: d in g.all[x] && Earlier(schedule, d, i))
    && forall d | d in g.all[x] :: d in kept[x] || Reach(g, d, x)
  }

  /** The roots are visited in order. Scheduling fails exactly when some node
      the roots reach cannot be prepared: a cycle never makes it fail. */
  method ScheduleNodes(prepared: seq<Prepared>, roots: seq<nat>)
    returns (ok: bool, schedule: seq<nat>, kept: seq<seq<nat>>)
    requires PreparedOk(prepared) && forall k | 0 <= k < |roots| :: roots[k] < |prepared|
    ensures ok <==> forall x: nat | FromRoots(Discovered(prepared), roots, x) :: !RejectedAt(prepared, x)
    ensures ok ==> ScheduleOk(Discovered(prepared), roots, schedule, kept)
  {
    var search := new DependencySearch(prepared);
    ghost var g := Discovered(prepared);
    for k := 0 to |roots|
      invariant search.prepared == prepared && Inv(g, search.View()) && search.stack == []
      invariant AllReady(prepared, search.schedule)
      invariant forall j | 0 <= j < k :: roots[j] in search.schedule
      invariant forall x | x in search.schedule :: FromRoots(g, roots, x)
    {
      ghost var before := search.View();
      ok := search.VisitNode(roots[k]);
      if !ok {
        assert ReachesRejected(prepared, roots[k]);
        ghost var f :| RejectedAt(prepared, f) && Reach(g, roots[k], f);
        assert FromRoots(g, roots, f);
        return false, [], [];
      }
      forall x | x in search.schedule ensures FromRoots(g, roots, x) {
        if x !in before.schedule { assert Reach(g, roots[k], x); }
      }
    }
    ok, schedule, kept := true, search.schedule, search.dependencies;
    ScheduleComplete(g, roots, search.View());
    forall x: nat | FromRoots(g, roots, x) ensures !RejectedAt(prepared, x) {
      assert x in schedule;
    }
  }

  ghost function Scheduled(v: Visit): set<nat> { set x | x in v.schedule }

  lemma ScheduleClosed(g: Digraph, v: Visit)
    requires Inv(g, v) && v.stack == []
    ensures ClosedUnder(g, Scheduled(v))
  {
    forall x, y | x in v.schedule && Edge(g, x, y) ensures y in v.schedule {
      var i :| 0 <= i < |v.schedule| && v.schedule[i] == x;
      assert NodeOk(g, v, i);
      if y !in v.kept[x] { assert Dropped(g, v, x, y); } else { assert Earlier(v.schedule, y, i); }
    }
  }

  lemma ScheduleComplete(g: Digraph, roots: seq<nat>, v: Visit)
    requires Inv(g, v) && v.stack == []
    requires (forall j | 0 <= j < |roots| :: roots[j] in v.schedule)
             && forall x | x in v.schedule :: FromRoots(g, roots, x)
    ensures ScheduleOk(g, roots, v.schedule, v.kept)
  {
    ScheduleClosed(g, v);
    forall x: nat | FromRoots(g, roots, x) ensures x in v.schedule {
      var r :| r in roots && Reach(g, r, x);
      ReachStaysIn(g, Scheduled(v), r, x);
    }
    forall i: nat | i < |v.schedule| ensures PlaceOk(g, v.schedule, v.kept, i) { assert NodeOk(g, v, i); }
  }
}

/** The driver of the reachability analysis (NativeStateReachability::run):
    finds the wires that reach an observed value, the roots and states each can
    affect, and ties every wire with an accepted proof to zero. */
module ReachabilityRun {
  import opened Common
  import opened NativeGraphs
  import opened NativeRuns
  import opened NativeEquivalence
  import opened Reachability

  const MAX_STATE_BITS := 6
  const MAX_ATTEMPTS := 16

  // ----- The collected roots are complete -------------------------------------

  ghost predicate StateOperand(s: State, bits: seq<Bit>) {
    bits == s.next || bits == s.trigger || bits == s.reset || bits == s.resetValue
  }

  ghost predicate OfStates(states: seq<State>, n: nat, r: Root) {
    r.state.Some? && r.state.value < n && r.state.value < |states| && StateOperand(states[r.state.value], r.bits)
  }

  lemma {:induction false} StateRootsListed(states: seq<State>, n: nat, r: Root)
    requires n <= |states|
    ensures r in StateRoots(states, n) <==> r.bits != [] && OfStates(states, n, r)
  {
    if n > 0 { StateRootsListed(states, n - 1, r); }
  }

  lemma {:induction false} PlainRootsListed(values: seq<seq<Bit>>, r: Root)
    ensures r in PlainRoots(values) <==> r.bits != [] && r.state.None? && r.bits in values
  {
    if values != [] {
      PlainRootsListed(values[1..], r);
      assert values == [values[0]] + values[1..];
    }
  }

  ghost predicate OfAccesses(accesses: seq<Access>, bits: seq<Bit>) {
    exists a | a in accesses :: bits == a.address || bits == a.enabled
  }

  lemma {:induction false} AccessRootsListed(accesses: seq<Access>, r: Root)
    ensures r in AccessRoots(accesses) <==> r.bits != [] && r.state.None? && OfAccesses(accesses, r.bits)
  {
    if accesses != [] {
      AccessRootsListed(accesses[1..], r);
      assert accesses == [accesses[0]] + accesses[1..];
      assert accesses[0] in accesses;
    }
  }

  ghost predicate OfWrites(writes: seq<Write>, bits: seq<Bit>) {
    exists w | w in writes :: bits == w.address || bits == w.data || bits == w.enabled
  }

  lemma {:induction false} WriteRootsListed(writes: seq<Write>, r: Root)
    ensures r in WriteRoots(writes) <==> r.bits != [] && r.state.None? && OfWrites(writes, r.bits)
  {
    if writes != [] {
      WriteRootsListed(writes[1..], r);
      assert writes == [writes[0]] + writes[1..];
      assert writes[0] in writes;
    }
  }

  ghost predicate OfEffects(g: Graph, n: nat, bits: seq<Bit>) {
    exists id: nat | id in g.effects :: id < n && bits == [BitOf(id, 0)]
  }

  lemma {:induction false} EffectRootsListed(g: Graph, n: nat, r: Root)
    requires n <= |g.nodes|
    ensures r in EffectRoots(g, n) <==> r.state.None? && OfEffects(g, n, r.bits)
  {
    if n > 0 { EffectRootsListed(g, n - 1, r); }
  }

  /** What is observed is exactly: every non-empty output, every operand of a
      state as belonging to that state, every operand of a memory access or
      write, and the result of every host effect. */
  lemma RootsAreComplete(g: Graph, r: Root)
    requires forall id | id in g.effects :: id < |g.nodes|
    ensures r in Roots(g) <==>
            r.bits != [] && (if r.state.Some? then OfStates(g.states, |g.states|, r)
                             else r.bits in g.outputs || OfAccesses(g.accesses, r.bits) || OfWrites(g.writes, r.bits)
                                  || OfEffects(g, |g.nodes|, r.bits))
  {
    PlainRootsListed(g.outputs, r);
    StateRootsListed(g.states, |g.states|, r);
    AccessRootsListed(g.accesses, r);
    WriteRootsListed(g.writes, r);
    EffectRootsListed(g, |g.nodes|, r);
  }

  /** So next values, reset values and host effects are observed, which the
      comparison of runs relies on. */
  lemma RootsServe(g: Graph)
    requires forall id | id in g.effects :: id < |g.nodes|
    ensures forall s | 0 <= s < |g.states| ::
              && (g.states[s].next != [] ==> Listed(Roots(g), g.states[s].next))
              && (g.states[s].resetValue != [] ==> Listed(Roots(g), g.states[s].resetValue))
    ensures forall id | id in g.effects :: Listed(Roots(g), [BitOf(id, 0)])
  {
    forall s | 0 <= s < |g.states|
      ensures g.states[s].next != [] ==> Listed(Roots(g), g.states[s].next)
      ensures g.states[s].resetValue != [] ==> Listed(Roots(g), g.states[s].resetValue)
    {
      RootsAreComplete(g, Root(g.states[s].next, Some(s)));
      RootsAreComplete(g, Root(g.states[s].resetValue, Some(s)));
    }
    forall id | id in g.effects ensures Listed(Roots(g), [BitOf(id, 0)]) {
      RootsAreComplete(g, Root([BitOf(id, 0)], None));
    }
  }

  // ----- Owners, users and parents ----------------------------------------------

  function OwnersOf(g: Graph, bits: seq<Bit>): (r: set<nat>)
    ensures forall id: nat :: id in r <==> OwnedBy(g, bits, id)
  {
    var r: set<nat> := set bit | bit in bits && Resolve(g.aliases, bit) > 1 && Owner(Resolve(g.aliases, bit)) >= 0 ::
      Owner(Resolve(g.aliases, bit));
    r
  }

  lemma OwnersExist(g: Graph, bits: seq<Bit>)
    requires AllUsable(g, bits)
    ensures forall id: nat | OwnedBy(g, bits, id) :: id < |g.nodes|
  {}

  ghost predicate Recorded(lists: seq<seq<nat>>, at: nat, item: nat) {
    at < |lists| && item in lists[at]
  }

  ghost predicate Bounded(lists: seq<seq<nat>>, limit: nat) {
    forall i, x | 0 <= i < |lists| && x in lists[i] :: x < limit
  }

  /** users and parents record every edge between observed roots and nodes. */
  ghost predicate Explored(g: Graph, roots: seq<Root>, users: seq<seq<nat>>, parents: seq<seq<nat>>,
                           visited: set<nat>)
  {
    && |users| == |parents| == |g.nodes|
    && Bounded(users, |roots|) && Bounded(parents, |g.nodes|)
    && (forall id | id in visited :: id < |g.nodes|)
    && (forall k, id: nat | 0 <= k < |roots| && OwnedBy(g, roots[k].bits, id) ::
          id in visited && Recorded(users, id, k))
    && forall id: nat, child: nat | id in visited && OperandOf(g, id, child) ::
         child in visited && Recorded(parents, child, id)
  }

  /** Tying a wire only removes edges. */
  lemma ExploredAfterTie(g: Graph, level: seq<nat>, roots: seq<Root>, wire: nat, users: seq<seq<nat>>,
                         parents: seq<seq<nat>>, visited: set<nat>)
    requires GraphOk(g, level, roots) && wire < |g.nodes| && Explored(g, roots, users, parents, visited)
    ensures Explored(Tied(g, wire), roots, users, parents, visited)
  {
    var g' := Tied(g, wire);
    forall bits, id: nat | AllUsable(g, bits) && OwnedBy(g', bits, id) ensures OwnedBy(g, bits, id) {
      var bit :| bit in bits && Resolve(g'.aliases, bit) > 1 && Owner(Resolve(g'.aliases, bit)) == id;
      TiedResolve(g, level, wire, bit);
    }
    forall k, id: nat | 0 <= k < |roots| && OwnedBy(g', roots[k].bits, id)
      ensures id in visited && Recorded(users, id, k)
    {
      assert AllUsable(g, roots[k].bits);
    }
    forall id: nat, child: nat | id in visited && OperandOf(g', id, child)
      ensures child in visited && Recorded(parents, child, id)
    {
      OperandsUsable(g, level, id);
      assert OperandOf(g, id, child);
    }
  }

  method RecordAll(lists: seq<seq<nat>>, at: set<nat>, item: nat) returns (r: seq<seq<nat>>)
    requires forall i | i in at :: i < |lists|
    ensures |r| == |lists|
    ensures forall i, x | 0 <= i < |r| :: x in r[i] <==> x in lists[i] || (i in at && x == item)
  {
    r := lists;
    var rest := at;
    while rest != {}
      invariant rest <= at && |r| == |lists|
      invariant forall i, x | 0 <= i < |r| :: x in r[i] <==> x in lists[i] || (i in at - rest && x == item)
    {
      var i :| i in rest;
      r := r[i := r[i] + [item]];
      rest := rest - {i};
    }
  }

  method Push(pending: seq<nat>, items: set<nat>) returns (r: seq<nat>)
    ensures forall x :: x in r <==> x in pending || x in items
  {
    r := pending;
    var rest := items;
    while rest != {}
      invariant rest <= items
      invariant forall x :: x in r <==> x in pending || x in items - rest
    {
      var x :| x in rest;
      r := r + [x];
      rest := rest - {x};
    }
  }

  /** users of the roots, and the nodes to visit first. */
  method CollectUsers(g: Graph, ghost level: seq<nat>, roots: seq<Root>)
    returns (users: seq<seq<nat>>, pending: seq<nat>)
    requires GraphOk(g, level, roots)
    ensures |users| == |g.nodes| && Bounded(users, |roots|)
    ensures forall k, id: nat | 0 <= k < |roots| && OwnedBy(g, roots[k].bits, id) ::
              id in pending && Recorded(users, id, k)
    ensures forall id | id in pending :: id < |g.nodes|
  {
    users := seq(|g.nodes|, i => []);
    pending := [];
    for k := 0 to |roots|
      invariant |users| == |g.nodes| && Bounded(users, |roots|)
      invariant forall j, id: nat | 0 <= j < k && OwnedBy(g, roots[j].bits, id) ::
                  id in pending && Recorded(users, id, j)
      invariant forall id | id in pending :: id < |g.nodes|
    {
      var owners := OwnersOf(g, roots[k].bits);
      OwnersExist(g, roots[k].bits);
      ghost var before := users;
      users := RecordAll(users, owners, k);
      pending := Push(pending, owners);
      forall j, id: nat | 0 <= j < k + 1 && OwnedBy(g, roots[j].bits, id)
        ensures id in pending && Recorded(users, id, j)
      {
        if j < k { assert Recorded(before, id, j); } else { assert id in owners; }
      }
    }
  }

  function ChildrenOf(g: Graph, id: nat): (r: set<nat>)
    requires id < |g.nodes|
    ensures forall child: nat :: child in r <==> OperandOf(g, id, child)
  {
    var n := g.nodes[id];
    OwnersOf(g, n.left) + OwnersOf(g, n.right) + OwnersOf(g, n.select)
  }

  lemma ChildrenExist(g: Graph, level: seq<nat>, id: nat)
    requires WellFormed(g, level) && id < |g.nodes|
    ensures forall child | child in ChildrenOf(g, id) :: child < |g.nodes|
  {
    OperandsUsable(g, level, id);
    OwnersExist(g, g.nodes[id].left);
    OwnersExist(g, g.nodes[id].right);
    OwnersExist(g, g.nodes[id].select);
  }

  /** Walks down from the roots, recording parents and undriven wires. */
  method Explore(g: Graph, ghost level: seq<nat>, roots: seq<Root>)
    returns (users: seq<seq<nat>>, parents: seq<seq<nat>>, missing: set<nat>, ghost visited: set<nat>)
    requires GraphOk(g, level, roots)
    ensures Explored(g, roots, users, parents, visited)
    ensures forall id | id in missing :: id < |g.nodes| && g.nodes[id].op.Wire?
  {
    var pending;
    users, pending := CollectUsers(g, level, roots);
    ghost var first := pending;
    parents := seq(|g.nodes|, i => []);
    missing := {};
    var done: set<nat> := {};
    while pending != []
      invariant |parents| == |g.nodes| && Bounded(parents, |g.nodes|)
      invariant forall id | id in pending || id in done :: id < |g.nodes|
      invariant forall id | id in first :: id in done || id in pending
      invariant forall id: nat, child: nat | id in done && OperandOf(g, id, child) ::
                  (child in done || child in pending) && Recorded(parents, child, id)
      invariant forall id | id in missing :: id < |g.nodes| && g.nodes[id].op.Wire?
      decreases Range(|g.nodes|) - done, |pending|
    {
      var id := pending[|pending| - 1];
      ghost var before := pending;
      pending := pending[..|pending| - 1];
      assert before == pending + [id];
      assert id in before && forall x | x in pending :: x in before;
      if id in done { continue; }
      done := done + {id};
      if g.nodes[id].op.Wire? { missing := missing + {id}; }
      ChildrenExist(g, level, id);
      parents := RecordAll(parents, ChildrenOf(g, id), id);
      pending := Push(pending, ChildrenOf(g, id));
    }
    visited := done;
  }

  /** Everything above a wire: the roots it can affect and their states. */
  method Above(g: Graph, ghost level: seq<nat>, roots: seq<Root>, wire: nat, users: seq<seq<nat>>,
               parents: seq<seq<nat>>, ghost visited: set<nat>)
    returns (affected: set<nat>, candidates: set<nat>)
    requires GraphOk(g, level, roots) && wire < |g.nodes| && Explored(g, roots, users, parents, visited)
    ensures forall k | k in affected :: k < |roots|
    ensures OthersBlind(g, level, roots, wire, affected)
    ensures candidates == set k | k in affected && roots[k].state.Some? :: roots[k].state.value
  {
    affected := {};
    var seen: set<nat> := {};
    var pending := [wire];
    while pending != []
      invariant forall id | id in pending || id in seen :: id < |g.nodes|
      invariant wire in pending || wire in seen
      invariant forall id, up | id in seen && up in parents[id] :: up in seen || up in pending
      invariant forall id, k | id in seen && k in users[id] :: k in affected
      invariant forall k | k in affected :: k < |roots|
      decreases Range(|g.nodes|) - seen, |pending|
    {
      var id := pending[|pending| - 1];
      ghost var before := pending;
      pending := pending[..|pending| - 1];
      assert before == pending + [id];
      assert id in before && forall x | x in pending :: x in before;
      if id in seen { continue; }
      seen := seen + {id};
      assert forall x | x in parents[id] :: x < |g.nodes|;
      affected := affected + set k | k in users[id];
      pending := pending + parents[id];
    }
    candidates := set k | k in affected && roots[k].state.Some? :: roots[k].state.value;
    ShieldFromExploration(g, level, roots, wire, users, parents, visited, seen, affected);
  }

  lemma ShieldFromExploration(g: Graph, level: seq<nat>, roots: seq<Root>, wire: nat, users: seq<seq<nat>>,
                              parents: seq<seq<nat>>,
                              visited: set<nat>, seen: set<nat>, affected: set<nat>)
    requires GraphOk(g, level, roots) && Explored(g, roots, users, parents, visited) && wire in seen
    requires forall id | id in seen :: id < |g.nodes|
    requires forall id, up | id in seen && up in parents[id] :: up in seen
    requires forall id, k | id in seen && k in users[id] :: k in affected
    ensures OthersBlind(g, level, roots, wire, affected)
  {
    assert Shields(g, wire, visited, seen);
    forall k | 0 <= k < |roots| && k !in affected ensures RootStable(Setting(g, level, map[], wire), roots, k) {
      forall id: nat | OwnedBy(g, roots[k].bits, id) ensures id in visited && id !in seen {
        assert Recorded(users, id, k);
      }
      ShieldedRoot(g, level, roots, wire, visited, seen, k);
    }
  }

  // ----- Tying accepted wires ------------------------------------------------------

  /** Unaliased lanes of the wire become constant zero. */
  method TieWire(g: Graph, wire: nat) returns (aliases: map<Bit, Bit>)
    requires wire < |g.nodes|
    ensures aliases == Tied(g, wire).aliases
  {
    aliases := g.aliases;
    for bit := 0 to g.nodes[wire].width
      invariant aliases == TieLanes(g.aliases, wire, bit)
    {
      var original := BitOf(wire, bit);
      if Resolve(aliases, original) == original {
        aliases := aliases[original := 0];
      }
    }
  }

  /** Tries the candidate states of one wire. */
  method TryStates(analysis: NativeStateReachability, roots: seq<Root>, affected: set<nat>, candidates: set<nat>,
                   ghost level: seq<nat>)
    returns (ok: bool)
    requires GraphOk(analysis.g, level, roots)
    requires forall k | k in affected :: k < |roots|
    requires forall s | s in candidates :: s < |analysis.g.states|
    modifies analysis`visits, analysis`fixed, analysis`cache, analysis`active, analysis`bdd
    ensures fresh(analysis.bdd) || analysis.bdd == old(analysis.bdd)
    ensures ok ==>
            exists state, domain :: ClosedDomain(analysis.g, level, roots, analysis.target, state, affected, domain)
  {
    var attempts := 0;
    var rest := candidates;
    while rest != {}
      invariant rest <= candidates && analysis.g == old(analysis.g) && analysis.target == old(analysis.target)
      invariant fresh(analysis.bdd) || analysis.bdd == old(analysis.bdd)
    {
      var state :| state in rest;
      rest := rest - {state};
      if |analysis.g.states[state].bits| > MAX_STATE_BITS { continue; }
      attempts := attempts + 1;
      if attempts > MAX_ATTEMPTS || analysis.bdd.cost > MAX_TOTAL { return false; }
      ghost var domain;
      ok, domain := analysis.Prove(state, roots, affected, level);
      if ok { return; }
    }
    return false;
  }

  lemma {:induction false} StateRootIndices(states: seq<State>, n: nat, r: Root)
    requires n <= |states| && r in StateRoots(states, n)
    ensures r.state.Some? ==> r.state.value < n
    decreases n
  {
    if n > 0 {
      var s := states[n - 1];
      if r in StateRoots(states, n - 1) {
        StateRootIndices(states, n - 1, r);
      } else {
        assert r in RootOf(s.next, Some(n - 1)) || r in RootOf(s.trigger, Some(n - 1))
               || r in RootOf(s.reset, Some(n - 1)) || r in RootOf(s.resetValue, Some(n - 1));
      }
    }
  }

  lemma {:induction false} PlainRootsStateless(values: seq<seq<Bit>>)
    ensures forall r | r in PlainRoots(values) :: r.state.None?
  {
    if values != [] { PlainRootsStateless(values[1..]); }
  }

  lemma {:induction false} AccessRootsStateless(accesses: seq<Access>)
    ensures forall r | r in AccessRoots(accesses) :: r.state.None?
  {
    if accesses != [] { AccessRootsStateless(accesses[1..]); }
  }

  lemma {:induction false} WriteRootsStateless(writes: seq<Write>)
    ensures forall r | r in WriteRoots(writes) :: r.state.None?
  {
    if writes != [] { WriteRootsStateless(writes[1..]); }
  }

  lemma {:induction false} EffectRootsStateless(g: Graph, n: nat)
    requires n <= |g.nodes|
    ensures forall r | r in EffectRoots(g, n) :: r.state.None?
  {
    if n > 0 { EffectRootsStateless(g, n - 1); }
  }

  lemma RootStatesExist(g: Graph)
    ensures forall r | r in Roots(g) :: r.state.Some? ==> r.state.value < |g.states|
  {
    forall r | r in StateRoots(g.states, |g.states|) ensures r.state.Some? ==> r.state.value < |g.states| {
      StateRootIndices(g.states, |g.states|, r);
    }
    PlainRootsStateless(g.outputs);
    AccessRootsStateless(g.accesses);
    WriteRootsStateless(g.writes);
    EffectRootsStateless(g, |g.nodes|);
  }

  /** Decides one wire and ties it when a proof is accepted. */
  method RemoveWire(analysis: NativeStateReachability, wire: nat, roots: seq<Root>, users: seq<seq<nat>>,
                    parents: seq<seq<nat>>,
                    ghost visited: set<nat>, ghost level: seq<nat>) returns (accepted: bool)
    requires GraphOk(analysis.g, level, roots) && Explored(analysis.g, roots, users, parents, visited)
    requires wire < |analysis.g.nodes| && analysis.g.nodes[wire].op.Wire?
    requires forall r | r in roots :: r.state.Some? ==> r.state.value < |analysis.g.states|
    modifies analysis
    ensures analysis.g == if accepted then Tied(old(analysis.g), wire) else old(analysis.g)
    ensures accepted ==> Justified(old(analysis.g), level, roots, wire)
  {
    analysis.target := wire;
    var affected, candidates := Above(analysis.g, level, roots, wire, users, parents, visited);
    accepted := TryStates(analysis, roots, affected, candidates, level);
    if accepted {
      var aliases := TieWire(analysis.g, wire);
      analysis.g := analysis.g.(aliases := aliases);
    }
  }

  lemma AppendTying(graphs: seq<Graph>, wires: seq<nat>, level: seq<nat>, roots: seq<Root>, wire: nat)
    requires TyingSequence(graphs, wires, level, roots) && wire < |graphs[|wires|].nodes|
    requires Justified(graphs[|wires|], level, roots, wire)
    ensures TyingSequence(graphs + [Tied(graphs[|wires|], wire)], wires + [wire], level, roots)
  {
    var graphs', wires' := graphs + [Tied(graphs[|wires|], wire)], wires + [wire];
    forall k | 0 <= k < |wires'|
      ensures Justified(graphs'[k], level, roots, wires'[k]) && graphs'[k + 1] == Tied(graphs'[k], wires'[k])
    {
      assert graphs'[k] == graphs[k];
      if k < |wires| { assert wires'[k] == wires[k]; }
    }
  }

  /** run: ties every wire whose proof is accepted. The ghost results are the
      graph after each removal, so that the removals compose over whole runs. */
  method Run(analysis: NativeStateReachability, ghost level: seq<nat>)
    returns (removed: nat, ghost graphs: seq<Graph>, ghost wires: seq<nat>)
    requires GraphOk(analysis.g, level, Roots(analysis.g))
    modifies analysis
    ensures removed == |wires| && TyingSequence(graphs, wires, level, Roots(old(analysis.g)))
    ensures graphs[0] == old(analysis.g) && graphs[removed] == analysis.g
  {
    removed, graphs, wires := 0, [analysis.g], [];
    if analysis.g.pipelines != 0 { return; }
    var roots := Roots(analysis.g);
    RootStatesExist(analysis.g);
    var users, parents, missing;
    ghost var visited;
    users, parents, missing, visited := Explore(analysis.g, level, roots);
    ghost var start := analysis.g;
    var rest := missing;
    while rest != {}
      invariant rest <= missing
      invariant analysis.g.nodes == start.nodes && analysis.g.states == start.states
      invariant GraphOk(analysis.g, level, roots) && Explored(analysis.g, roots, users, parents, visited)
      invariant removed == |wires| && TyingSequence(graphs, wires, level, roots)
      invariant graphs[0] == start && graphs[removed] == analysis.g
    {
      var wire :| wire in rest;
      rest := rest - {wire};
      ghost var g := analysis.g;
      var accepted := RemoveWire(analysis, wire, roots, users, parents, visited, level);
      if accepted {
        TiedGraphOk(g, level, roots, wire);
        ExploredAfterTie(g, level, roots, wire, users, parents, visited);
        AppendTying(graphs, wires, level, roots, wire);
        removed, wires, graphs := removed + 1, wires + [wire], graphs + [analysis.g];
      }
    }
  }
}

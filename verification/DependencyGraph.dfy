/** Directed dependency graphs: edges between active nodes, paths and cycles. */
module DependencyGraph {

  /** allDependencies of every node, restricted to the active nodes. */
  datatype Digraph = Digraph(all: seq<seq<nat>>, active: set<nat>)

  predicate Edge(g: Digraph, x: nat, y: nat) {
    x < |g.all| && x in g.active && y in g.active && y < |g.all| && y in g.all[x]
  }

  ghost predicate Path(g: Digraph, p: seq<nat>) {
    |p| >= 1 && forall i | 0 <= i < |p| - 1 :: Edge(g, p[i], p[i + 1])
  }

  ghost predicate PathBetween(g: Digraph, p: seq<nat>, x: nat, y: nat) {
    Path(g, p) && p[0] == x && p[|p| - 1] == y
  }

  ghost predicate Reach(g: Digraph, x: nat, y: nat) {
    exists p :: PathBetween(g, p, x, y)
  }

  /** The node lies on a directed cycle; a self-loop counts. */
  ghost predicate OnCycle(g: Digraph, x: nat) {
    exists y: nat :: Edge(g, x, y) && Reach(g, y, x)
  }

  lemma ReachSelf(g: Digraph, x: nat)
    ensures Reach(g, x, x)
  {
    assert PathBetween(g, [x], x, x);
  }

  lemma ReachEdge(g: Digraph, x: nat, y: nat)
    requires Edge(g, x, y)
    ensures Reach(g, x, y)
  {
    assert PathBetween(g, [x, y], x, y);
  }

  lemma ReachTrans(g: Digraph, x: nat, y: nat, z: nat)
    requires Reach(g, x, y) && Reach(g, y, z)
    ensures Reach(g, x, z)
  {
    var p :| PathBetween(g, p, x, y);
    var q :| PathBetween(g, q, y, z);
    var r := p + q[1..];
    assert forall i | 0 <= i < |r| :: r[i] == if i < |p| then p[i] else q[i - |p| + 1];
    assert PathBetween(g, r, x, z);
  }

  lemma ReachThenEdge(g: Digraph, x: nat, y: nat, z: nat)
    requires Reach(g, x, y) && Edge(g, y, z)
    ensures Reach(g, x, z)
  {
    ReachEdge(g, y, z);
    ReachTrans(g, x, y, z);
  }

  /** A path between different nodes leaves its start by an edge. */
  lemma FirstStep(g: Digraph, x: nat, y: nat) returns (z: nat)
    requires Reach(g, x, y) && x != y
    ensures Edge(g, x, z) && Reach(g, z, y)
  {
    var p :| PathBetween(g, p, x, y);
    z := p[1];
    assert PathBetween(g, p[1..], z, y);
  }

  ghost predicate ClosedUnder(g: Digraph, s: set<nat>) {
    forall x, y | x in s && Edge(g, x, y) :: y in s
  }

  lemma {:induction false} PathStaysIn(g: Digraph, s: set<nat>, p: seq<nat>, x: nat, y: nat)
    requires ClosedUnder(g, s) && PathBetween(g, p, x, y) && x in s
    ensures y in s
    decreases |p|
  {
    if |p| > 1 {
      assert Edge(g, p[0], p[1]);
      assert PathBetween(g, p[1..], p[1], y);
      PathStaysIn(g, s, p[1..], p[1], y);
    }
  }

  /** Nothing outside a closed set can be reached from it. */
  lemma ReachStaysIn(g: Digraph, s: set<nat>, x: nat, y: nat)
    requires ClosedUnder(g, s) && x in s && Reach(g, x, y)
    ensures y in s
  {
    var p :| PathBetween(g, p, x, y);
    PathStaysIn(g, s, p, x, y);
  }
}

/** The strongly connected components of identifyDynamicNodes (Combs.cpp). */
module Tarjan {
  import opened Common
  import opened DependencyGraph

  /** index, low, stack, onStack, nextIndex and the cyclic nodes found so far. */
  datatype Search = Search(index: seq<int>, low: seq<int>, stack: seq<nat>, onStack: seq<bool>, next: nat,
                           cyclic: set<nat>)

  predicate Visited(s: Search, x: nat) { x < |s.index| && s.index[x] >= 0 }

  ghost predicate Sized(g: Digraph, s: Search) {
    |s.index| == |s.low| == |s.onStack| == |g.all| && forall x | 0 <= x < |s.index| :: s.index[x] >= -1
  }

  ghost function Unvisited(g: Digraph, s: Search): set<nat> { set x | x in g.active && !Visited(s, x) }

  /** Visited and no longer on the stack: its component is complete. */
  ghost predicate Done(s: Search, x: nat) { Visited(s, x) && x !in s.stack }

  ghost predicate StackOk(g: Digraph, s: Search) {
    && (forall i | 0 <= i < |s.stack| :: Visited(s, s.stack[i]) && s.stack[i] in g.active)
    && (forall i, j | 0 <= i < j < |s.stack| :: s.index[s.stack[i]] < s.index[s.stack[j]])
    && (forall x: nat | x < |s.onStack| :: s.onStack[x] <==> x in s.stack)
    && (forall x: nat | Visited(s, x) :: s.index[x] < s.next && x in g.active)
    && forall x: nat, y: nat | Visited(s, x) && Visited(s, y) && s.index[x] == s.index[y] :: x == y
  }

  /** Finished nodes lead only to visited nodes; complete components are closed. */
  ghost predicate EdgesOk(g: Digraph, s: Search, grays: set<nat>) {
    && (forall x: nat, y: nat | Visited(s, x) && x !in grays && Edge(g, x, y) :: Visited(s, y))
    && forall x: nat, y: nat | Done(s, x) && Edge(g, x, y) :: Done(s, y)
  }

  /** On the stack, earlier reaches later, and everything reaches a gray node
      that is not later than itself. */
  ghost predicate ReachOk(g: Digraph, s: Search, grays: set<nat>) {
    && (forall x | x in grays :: x in s.stack)
    && (forall x, y {:trigger Reach(g, x, y)} | x in s.stack && y in s.stack && Visited(s, x) && Visited(s, y)
          && s.index[x] <= s.index[y] :: Reach(g, x, y))
    && forall y {:trigger HasGray(g, s, grays, y)} | y in s.stack :: HasGray(g, s, grays, y)
  }

  ghost predicate HasGray(g: Digraph, s: Search, grays: set<nat>, y: nat) {
    exists x | x in grays :: Visited(s, x) && Visited(s, y) && s.index[x] <= s.index[y] && Reach(g, y, x)
  }

  ghost predicate CyclicOk(g: Digraph, s: Search) {
    forall x: nat :: x in s.cyclic <==> Done(s, x) && OnCycle(g, x)
  }

  ghost predicate Inv(g: Digraph, s: Search, grays: set<nat>) {
    Sized(g, s) && StackOk(g, s) && EdgesOk(g, s, grays) && ReachOk(g, s, grays) && CyclicOk(g, s)
  }

  /** `s'` continues `s`: nothing visited changes, the stack only grows on top. */
  ghost predicate Extends(s: Search, s': Search) {
    && |s'.index| == |s.index| && s.next <= s'.next
    && (forall x: nat | Visited(s, x) :: Visited(s', x) && s'.index[x] == s.index[x])
    && (forall x: nat | Visited(s', x) && !Visited(s, x) :: s'.index[x] >= s.next)
    && s.stack <= s'.stack
  }

  /** The low value of `id` is the index of a stack node that id reaches. */
  ghost predicate LowReached(g: Digraph, s: Search, id: nat) {
    exists y | y in s.stack :: Visited(s, y) && id < |s.low| && s.index[y] == s.low[id] && Reach(g, id, y)
  }

  /** No edge from stack positions at or above `from` to positions below
      `below` has a target older than `low`. */
  ghost predicate LowCovers(g: Digraph, s: Search, from: nat, below: nat, low: int) {
    forall i, j | from <= i < |s.stack| && 0 <= j < below && j < |s.stack| && Edge(g, s.stack[i], s.stack[j])
      && s.stack[j] < |s.index| ::
      low <= s.index[s.stack[j]]
  }

  // ----- Pushing a node -------------------------------------------------------------

  function Pushed(s: Search, id: nat): Search
    requires id < |s.index| == |s.low| == |s.onStack|
  {
    s.(index := s.index[id := s.next], low := s.low[id := s.next], stack := s.stack + [id],
       onStack := s.onStack[id := true], next := s.next + 1)
  }

  lemma PushStack(g: Digraph, s: Search, id: nat)
    requires Sized(g, s) && StackOk(g, s) && id < |g.all| && id in g.active && !Visited(s, id)
    ensures var s' := Pushed(s, id);
            && Sized(g, s') && StackOk(g, s') && Extends(s, s')
            && (forall x: nat :: Visited(s', x) <==> Visited(s, x) || x == id)
            && (forall x: nat :: Done(s', x) <==> Done(s, x))
  {
    var s' := Pushed(s, id);
    assert id !in s.stack;
    forall x: nat ensures Visited(s', x) <==> Visited(s, x) || x == id {}
    forall x: nat ensures x in s'.stack <==> x in s.stack || x == id {}
  }

  lemma PushReach(g: Digraph, s: Search, grays: set<nat>, id: nat)
    requires Inv(g, s, grays) && id < |g.all| && id in g.active && !Visited(s, id)
    requires forall x | x in grays :: Reach(g, x, id)
    ensures ReachOk(g, Pushed(s, id), grays + {id})
  {
    var s' := Pushed(s, id);
    PushStack(g, s, id);
    ReachSelf(g, id);
    forall x, y | x in s'.stack && y in s'.stack && Visited(s', x) && Visited(s', y) && s'.index[x] <= s'.index[y]
      ensures Reach(g, x, y)
    {
      if y == id && x != id {
        assert HasGray(g, s, grays, x);
        var z :| z in grays && Visited(s, z) && s.index[z] <= s.index[x] && Reach(g, x, z);
        ReachTrans(g, x, z, id);
      }
    }
    forall y | y in s'.stack ensures HasGray(g, s', grays + {id}, y) {
      if y == id {
        assert id in grays + {id};
      } else {
        assert HasGray(g, s, grays, y);
        var z :| z in grays && Visited(s, z) && s.index[z] <= s.index[y] && Reach(g, y, z);
        assert z in grays + {id};
      }
    }
  }

  lemma PushInv(g: Digraph, s: Search, grays: set<nat>, id: nat)
    requires Inv(g, s, grays) && id < |g.all| && id in g.active && !Visited(s, id)
    requires forall x | x in grays :: Reach(g, x, id)
    ensures Inv(g, Pushed(s, id), grays + {id}) && Extends(s, Pushed(s, id))
  {
    PushStack(g, s, id);
    PushReach(g, s, grays, id);
  }

  // ----- Keeping an unfinished component on the stack ----------------------------------

  lemma GrayOf(g: Digraph, s: Search, grays: set<nat>, y: nat) returns (x: nat)
    requires ReachOk(g, s, grays) && y in s.stack
    ensures x in grays && Visited(s, x) && Visited(s, y) && s.index[x] <= s.index[y] && Reach(g, y, x)
  {
    assert HasGray(g, s, grays, y);
    x :| x in grays && Visited(s, x) && Visited(s, y) && s.index[x] <= s.index[y] && Reach(g, y, x);
  }

  lemma HasGrayBy(g: Digraph, s: Search, grays: set<nat>, y: nat, x: nat)
    requires x in grays && Visited(s, x) && Visited(s, y) && s.index[x] <= s.index[y] && Reach(g, y, x)
    ensures HasGray(g, s, grays, y)
  {}

  lemma LowWitness(g: Digraph, s: Search, id: nat) returns (y: nat)
    requires LowReached(g, s, id)
    ensures y in s.stack && Visited(s, y) && id < |s.low| && s.index[y] == s.low[id] && Reach(g, id, y)
  {
    y :| y in s.stack && Visited(s, y) && id < |s.low| && s.index[y] == s.low[id] && Reach(g, id, y);
  }

  /** A node whose gray witness was `id` finds an older one through id's low value. */
  lemma OlderGray(g: Digraph, s: Search, grays: set<nat>, id: nat, y: nat)
    requires ReachOk(g, s, grays + {id}) && y in s.stack && id !in grays && Visited(s, id)
    requires LowReached(g, s, id) && s.low[id] < s.index[id]
    ensures HasGray(g, s, grays, y)
  {
    var x := GrayOf(g, s, grays + {id}, y);
    if x == id {
      var z := LowWitness(g, s, id);
      var w := GrayOf(g, s, grays + {id}, z);
      ReachTrans(g, y, id, z);
      ReachTrans(g, y, z, w);
      HasGrayBy(g, s, grays, y, w);
    } else {
      HasGrayBy(g, s, grays, y, x);
    }
  }

  /** `id` turns black below an older stack node: its gray witness moves up. */
  lemma KeepInv(g: Digraph, s: Search, grays: set<nat>, id: nat)
    requires Inv(g, s, grays + {id}) && id in s.stack && id !in grays && Visited(s, id)
    requires forall y: nat | Edge(g, id, y) :: Visited(s, y)
    requires LowReached(g, s, id) && s.low[id] < s.index[id]
    ensures Inv(g, s, grays)
  {
    KeepReach(g, s, grays, id);
  }

  lemma KeepReach(g: Digraph, s: Search, grays: set<nat>, id: nat)
    requires ReachOk(g, s, grays + {id}) && id !in grays && Visited(s, id)
    requires LowReached(g, s, id) && s.low[id] < s.index[id]
    ensures ReachOk(g, s, grays)
  {
    forall y | y in s.stack ensures HasGray(g, s, grays, y) { OlderGray(g, s, grays, id, y); }
  }

  // ----- Popping a component ---------------------------------------------------------------

  /** The stack without the nodes from position `pos` up. */
  ghost predicate PoppedTo(s: Search, s': Search, pos: nat) {
    && pos <= |s.stack| && s' == s.(stack := s.stack[..pos], onStack := s'.onStack, cyclic := s'.cyclic)
    && |s'.onStack| == |s.onStack|
    && forall x: nat | x < |s.onStack| :: s'.onStack[x] <==> s.onStack[x] && x !in s.stack[pos..]
  }

  lemma StackPosition(g: Digraph, s: Search, pos: nat, x: nat) returns (k: nat)
    requires StackOk(g, s) && pos < |s.stack| && x in s.stack[pos..]
    ensures pos <= k < |s.stack| && s.stack[k] == x && x in s.stack && Visited(s, x) && Visited(s, s.stack[pos])
    ensures s.index[s.stack[pos]] <= s.index[x]
    ensures forall j | 0 <= j < pos :: Visited(s, s.stack[j]) && s.index[s.stack[j]] < s.index[s.stack[pos]]
  {
    k :| pos <= k < |s.stack| && s.stack[k] == x;
  }

  /** The popped nodes are exactly the nodes on a common cycle with `id`. */
  lemma ComponentMutual(g: Digraph, s: Search, grays: set<nat>, id: nat, pos: nat, x: nat)
    requires StackOk(g, s) && ReachOk(g, s, grays + {id}) && pos < |s.stack| && s.stack[pos] == id
    requires forall z | z in grays :: Reach(g, z, id)
    requires x in s.stack[pos..]
    ensures Visited(s, x) && Reach(g, id, x) && Reach(g, x, id)
  {
    var k := StackPosition(g, s, pos, x);
    var z := GrayOf(g, s, grays + {id}, x);
    if z != id { ReachTrans(g, x, z, id); }
  }

  lemma OldTarget(g: Digraph, s: Search, pos: nat, i: nat, y: nat, low: int)
    requires StackOk(g, s) && pos <= i < |s.stack| && y in s.stack[..pos] && Edge(g, s.stack[i], y)
    requires LowCovers(g, s, pos, pos, low)
    ensures Visited(s, y) && Visited(s, s.stack[pos]) && low <= s.index[y] < s.index[s.stack[pos]]
  {
    var j :| 0 <= j < pos && s.stack[j] == y;
    assert low <= s.index[s.stack[j]];
  }

  /** No edge leaves the popped component except into complete ones. */
  lemma ComponentClosed(g: Digraph, s: Search, grays: set<nat>, id: nat, pos: nat, x: nat, y: nat)
    requires StackOk(g, s) && EdgesOk(g, s, grays + {id}) && pos < |s.stack| && s.stack[pos] == id && id < |s.index|
    requires forall z | z in grays :: z in s.stack[..pos]
    requires forall z: nat | Edge(g, id, z) :: Visited(s, z)
    requires LowCovers(g, s, pos, pos, s.index[id])
    requires x in s.stack[pos..] && Edge(g, x, y)
    ensures y in s.stack[pos..] || Done(s, y)
  {
    var i := StackPosition(g, s, pos, x);
    SplitOnce(g, s, pos, x);
    assert x !in grays;
    assert Visited(s, y);
    SplitOnce(g, s, pos, y);
    if y in s.stack[..pos] { OldTarget(g, s, pos, i, y, s.index[id]); }
  }

  ghost predicate PopReady(g: Digraph, s: Search, grays: set<nat>, id: nat, pos: nat) {
    && Inv(g, s, grays + {id}) && pos < |s.stack| && s.stack[pos] == id && id < |s.index|
    && (forall z | z in grays :: z in s.stack[..pos] && Reach(g, z, id))
    && (forall z: nat | Edge(g, id, z) :: Visited(s, z))
    && LowCovers(g, s, pos, pos, s.index[id])
  }

  ghost function DoneSet(s: Search): set<nat> { set x: nat | x < |s.index| && Done(s, x) }

  lemma DoneClosed(g: Digraph, s: Search, grays: set<nat>)
    requires Inv(g, s, grays)
    ensures ClosedUnder(g, DoneSet(s))
  {}

  /** The component is cyclic exactly when it has a second node or a self-loop. */
  lemma ComponentCycle(g: Digraph, s: Search, grays: set<nat>, id: nat, pos: nat, x: nat)
    requires PopReady(g, s, grays, id, pos) && x in s.stack[pos..]
    ensures OnCycle(g, x) <==> |s.stack[pos..]| > 1 || Edge(g, id, id)
  {
    var component := s.stack[pos..];
    ComponentMutual(g, s, grays, id, pos, x);
    assert component[0] == id;
    if |component| > 1 {
      var other := if x == id then component[1] else id;
      assert other in component;
      assert s.stack[pos] != s.stack[pos + 1];
      ComponentMutual(g, s, grays, id, pos, other);
      ReachTrans(g, x, id, other);
      ReachTrans(g, other, id, x);
      var z := FirstStep(g, x, other);
      ReachTrans(g, z, other, x);
    } else {
      assert x == id;
      if Edge(g, id, id) { ReachSelf(g, id); }
      if OnCycle(g, id) {
        var y: nat :| Edge(g, id, y) && Reach(g, y, id);
        ComponentClosed(g, s, grays, id, pos, id, y);
        if y !in component {
          DoneClosed(g, s, grays + {id});
          ReachStaysIn(g, DoneSet(s), y, id);
          assert Done(s, id);
          assert id in s.stack;
        }
      }
    }
  }

  lemma PopEdges(g: Digraph, s: Search, grays: set<nat>, id: nat, pos: nat, s': Search)
    requires PopReady(g, s, grays, id, pos) && PoppedTo(s, s', pos)
    ensures EdgesOk(g, s', grays)
  {
    PopDone(g, s, pos, s');
    forall x: nat, y: nat | Done(s', x) && Edge(g, x, y) ensures Done(s', y) {
      if x in s.stack[pos..] { ComponentClosed(g, s, grays, id, pos, x, y); }
    }
  }

  lemma PopCyclic(g: Digraph, s: Search, grays: set<nat>, id: nat, pos: nat, s': Search)
    requires PopReady(g, s, grays, id, pos) && PoppedTo(s, s', pos)
    requires s'.cyclic == s.cyclic + (if |s.stack[pos..]| > 1 || Edge(g, id, id) then (set x | x in s.stack[pos..])
                                      else {})
    ensures CyclicOk(g, s')
  {
    PopDone(g, s, pos, s');
    forall x: nat ensures x in s'.cyclic <==> Done(s', x) && OnCycle(g, x) {
      SplitOnce(g, s, pos, x);
      if x in s.stack[pos..] { ComponentCycle(g, s, grays, id, pos, x); }
    }
  }

  lemma {:induction false} PopInv(g: Digraph, s: Search, grays: set<nat>, id: nat, pos: nat, s': Search)
    requires PopReady(g, s, grays, id, pos) && PoppedTo(s, s', pos)
    requires s'.cyclic == s.cyclic + (if |s.stack[pos..]| > 1 || Edge(g, id, id) then (set x | x in s.stack[pos..])
                                      else {})
    ensures Inv(g, s', grays) && Done(s', id)
  {
    PopStack(g, s, pos, s');
    PopDone(g, s, pos, s');
    PopEdges(g, s, grays, id, pos, s');
    PopReach(g, s, grays, id, pos, s');
    PopCyclic(g, s, grays, id, pos, s');
    assert s.stack[pos..][0] == id;
  }

  lemma PopStack(g: Digraph, s: Search, pos: nat, s': Search)
    requires Sized(g, s) && StackOk(g, s) && PoppedTo(s, s', pos)
    ensures Sized(g, s') && StackOk(g, s')
  {
    forall x: nat | x < |s'.onStack| ensures s'.onStack[x] <==> x in s'.stack {
      if x in s.stack {
        var k :| 0 <= k < |s.stack| && s.stack[k] == x;
        if k >= pos { assert s.stack[pos..][k - pos] == x; } else { assert s.stack[..pos][k] == x; }
      }
      SplitOnce(g, s, pos, x);
    }
  }

  /** A stack node is below the cut or above it, never both. */
  lemma SplitOnce(g: Digraph, s: Search, pos: nat, x: nat)
    requires StackOk(g, s) && pos <= |s.stack|
    ensures x in s.stack <==> x in s.stack[..pos] || x in s.stack[pos..]
    ensures !(x in s.stack[..pos] && x in s.stack[pos..])
  {
    assert s.stack == s.stack[..pos] + s.stack[pos..];
    assert forall i, j | 0 <= i < pos <= j < |s.stack| :: s.index[s.stack[i]] < s.index[s.stack[j]];
  }

  lemma PopDone(g: Digraph, s: Search, pos: nat, s': Search)
    requires Sized(g, s) && StackOk(g, s) && PoppedTo(s, s', pos)
    ensures forall x: nat :: Done(s', x) <==> Done(s, x) || x in s.stack[pos..]
  {
    forall x: nat ensures Done(s', x) <==> Done(s, x) || x in s.stack[pos..] { SplitOnce(g, s, pos, x); }
  }

  lemma PopReach(g: Digraph, s: Search, grays: set<nat>, id: nat, pos: nat, s': Search)
    requires PopReady(g, s, grays, id, pos) && PoppedTo(s, s', pos)
    ensures ReachOk(g, s', grays)
  {
    forall y | y in s'.stack ensures HasGray(g, s', grays, y) {
      BelowGray(g, s, grays, id, pos, y);
    }
  }

  /** A node below the component keeps an older gray witness. */
  lemma BelowGray(g: Digraph, s: Search, grays: set<nat>, id: nat, pos: nat, y: nat)
    requires StackOk(g, s) && ReachOk(g, s, grays + {id}) && pos < |s.stack| && s.stack[pos] == id
             && y in s.stack[..pos]
    ensures HasGray(g, s, grays, y)
  {
    var j :| 0 <= j < pos && s.stack[j] == y;
    assert s.stack[pos..][0] == id;
    var k := StackPosition(g, s, pos, id);
    var x := GrayOf(g, s, grays + {id}, y);
    HasGrayBy(g, s, grays, y, x);
  }

  // ----- The search -----------------------------------------------------------------------

  /** Low values of visited nodes are left alone. */
  ghost predicate LowKept(s: Search, s': Search) {
    |s.low| == |s'.low| && forall x: nat | Visited(s, x) && x < |s.low| :: s'.low[x] == s.low[x]
  }

  /** What a finished call tells its caller about `id`. */
  ghost predicate Connected(g: Digraph, s: Search, s': Search, id: nat) {
    && Visited(s', id) && id < |s'.low| && s'.low[id] <= s'.index[id]
    && ((Done(s', id) && s'.stack == s.stack && s'.low[id] == s'.index[id]) || LowReached(g, s', id))
    && LowCovers(g, s', |s.stack|, |s.stack|, s'.low[id])
  }

  /** Half-way through the dependencies of `id`, whose stack position is `pos`. */
  ghost predicate Scanned(g: Digraph, s: Search, id: nat, pos: nat, n: nat) {
    && id < |s.index| == |s.low| && id < |g.all| && Visited(s, id)
    && pos < |s.stack| && s.stack[pos] == id
    && s.low[id] <= s.index[id] && LowReached(g, s, id)
    && LowCovers(g, s, pos + 1, pos, s.low[id])
    && forall k | 0 <= k < n && k < |g.all[id]| && Edge(g, id, g.all[id][k]) ::
         TargetCovered(s, g.all[id][k], pos, s.low[id])
  }

  ghost predicate TargetCovered(s: Search, y: nat, pos: nat, low: int) {
    Visited(s, y) && forall j | 0 <= j < pos && j < |s.stack| && s.stack[j] == y :: low <= s.index[y]
  }

  lemma ScanStart(g: Digraph, s: Search, id: nat)
    requires Sized(g, s) && StackOk(g, s) && id < |g.all| && id in g.active && !Visited(s, id)
    ensures Scanned(g, Pushed(s, id), id, |s.stack|, 0)
  {
    var s' := Pushed(s, id);
    ReachSelf(g, id);
    assert s'.stack[|s.stack|] == id;
    assert id in s'.stack && Visited(s', id) && s'.index[id] == s'.low[id];
  }

  function Lowered(s: Search, id: nat, low: int): Search
    requires id < |s.low|
  {
    s.(low := s.low[id := Min(s.low[id], low)])
  }

  lemma LoweredInv(g: Digraph, s: Search, grays: set<nat>, id: nat, low: int)
    requires Inv(g, s, grays) && id < |s.low|
    ensures Inv(g, Lowered(s, id, low), grays)
  {
    var s' := Lowered(s, id, low);
    forall x: nat ensures Done(s', x) == Done(s, x) && Visited(s', x) == Visited(s, x) {}
    forall y | y in s'.stack ensures HasGray(g, s', grays, y) {
      var x := GrayOf(g, s, grays, y);
      HasGrayBy(g, s', grays, y, x);
    }
  }

  /** One dependency that was already visited and is on the stack or complete. */
  lemma ScanVisited(g: Digraph, s: Search, id: nat, pos: nat, n: nat, y: nat)
    requires Scanned(g, s, id, pos, n) && StackOk(g, s) && n < |g.all[id]| && g.all[id][n] == y && Visited(s, y)
             && Edge(g, id, y)
    ensures Scanned(g, if y in s.stack then Lowered(s, id, s.index[y]) else s, id, pos, n + 1)
  {
    var s' := if y in s.stack then Lowered(s, id, s.index[y]) else s;
    if y in s.stack { ReachEdge(g, id, y); LowerReached(g, s, id, y, s.index[y]); }
    forall k | 0 <= k < n + 1 && Edge(g, id, g.all[id][k]) ensures TargetCovered(s', g.all[id][k], pos, s'.low[id]) {
      if k < n { assert TargetCovered(s, g.all[id][k], pos, s.low[id]); }
    }
    CoverLower(g, s, s', pos + 1, pos, s.low[id], s'.low[id]);
  }

  lemma CoverLower(g: Digraph, s: Search, s': Search, from: nat, below: nat, low: int, low': int)
    requires LowCovers(g, s, from, below, low) && low' <= low && s'.stack == s.stack && s'.index == s.index
    ensures LowCovers(g, s', from, below, low')
  {}

  /** The smaller of two low values is still the index of a reached stack node. */
  lemma LowerReached(g: Digraph, s: Search, id: nat, y: nat, low: int)
    requires LowReached(g, s, id) && y in s.stack && Visited(s, y) && s.index[y] == low && Reach(g, id, y)
    ensures LowReached(g, Lowered(s, id, low), id)
  {
    var z := LowWitness(g, s, id);
    var s' := Lowered(s, id, low);
    if s.low[id] <= low {
      assert z in s'.stack && Visited(s', z) && s'.index[z] == s'.low[id];
    } else {
      assert y in s'.stack && Visited(s', y) && s'.index[y] == s'.low[id];
    }
  }

  /** One dependency that was explored by a recursive call. */
  lemma ScanExplored(g: Digraph, s: Search, s': Search, id: nat, pos: nat, n: nat, y: nat)
    requires Scanned(g, s, id, pos, n) && n < |g.all[id]| && g.all[id][n] == y && Edge(g, id, y) && !Visited(s, y)
    requires StackOk(g, s) && Extends(s, s') && LowKept(s, s') && Connected(g, s, s', y) && |s'.low| == |s'.index|
    ensures Scanned(g, Lowered(s', id, s'.low[y]), id, pos, n + 1)
  {
    var t := Lowered(s', id, s'.low[y]);
    assert s'.stack[pos] == id && t.stack[pos] == id;
    ExploredReached(g, s, s', id, y);
    ExploredCovers(g, s, s', pos, s.low[id], s'.low[y]);
    CoverLower(g, s', t, pos + 1, pos, t.low[id], t.low[id]);
    ExploredTargets(g, s, s', id, pos, n, y);
  }

  lemma ExploredReached(g: Digraph, s: Search, s': Search, id: nat, y: nat)
    requires LowReached(g, s, id) && Visited(s, id) && id < |s.index| && Edge(g, id, y) && s.low[id] <= s.index[id]
    requires |s'.low| == |s'.index| && Extends(s, s') && LowKept(s, s') && Connected(g, s, s', y) && !Visited(s, y)
             && StackOk(g, s)
    ensures LowReached(g, Lowered(s', id, s'.low[y]), id)
  {
    var z := LowWitness(g, s, id);
    assert LowReached(g, s', id) by { assert z in s'.stack && Visited(s', z) && s'.index[z] == s'.low[id]; }
    if LowReached(g, s', y) {
      var w := LowWitness(g, s', y);
      ReachEdge(g, id, y);
      ReachTrans(g, id, y, w);
      LowerReached(g, s', id, w, s'.low[y]);
    } else {
      KeptReached(g, s', id, s'.low[y]);
    }
  }

  lemma ExploredTargets(g: Digraph, s: Search, s': Search, id: nat, pos: nat, n: nat, y: nat)
    requires Scanned(g, s, id, pos, n) && n < |g.all[id]| && g.all[id][n] == y && !Visited(s, y)
    requires StackOk(g, s) && Extends(s, s') && Visited(s', y) && y < |s'.low| && LowKept(s, s')
    ensures forall k | 0 <= k < n + 1 && Edge(g, id, g.all[id][k]) ::
              TargetCovered(Lowered(s', id, s'.low[y]), g.all[id][k], pos, Min(s'.low[id], s'.low[y]))
  {
    var t := Lowered(s', id, s'.low[y]);
    forall k | 0 <= k < n + 1 && Edge(g, id, g.all[id][k]) ensures TargetCovered(t, g.all[id][k], pos, t.low[id]) {
      if g.all[id][k] == y {
        NewNotBelow(g, s, s', pos, y);
      } else {
        assert TargetCovered(s, g.all[id][k], pos, s.low[id]);
        TargetKept(s, t, g.all[id][k], pos, s.low[id], t.low[id]);
      }
    }
  }

  lemma TargetKept(s: Search, t: Search, y: nat, pos: nat, low: int, low': int)
    requires TargetCovered(s, y, pos, low) && Extends(s, t) && low' <= low && pos <= |s.stack|
    ensures TargetCovered(t, y, pos, low')
  {
    forall j | 0 <= j < pos && j < |t.stack| && t.stack[j] == y ensures low' <= t.index[y] {
      assert s.stack[j] == t.stack[j];
    }
  }

  lemma KeptReached(g: Digraph, s: Search, id: nat, low: int)
    requires LowReached(g, s, id) && s.low[id] <= low
    ensures LowReached(g, Lowered(s, id, low), id)
  {
    var z := LowWitness(g, s, id);
    var t := Lowered(s, id, low);
    assert z in t.stack && Visited(t, z) && t.index[z] == t.low[id];
  }

  lemma NewNotBelow(g: Digraph, s: Search, s': Search, pos: nat, y: nat)
    requires StackOk(g, s) && Extends(s, s') && !Visited(s, y) && pos <= |s.stack|
    ensures forall j | 0 <= j < pos :: s'.stack[j] != y
  {
    forall j | 0 <= j < pos ensures s'.stack[j] != y {
      assert s'.stack[j] == s.stack[j];
      assert Visited(s, s.stack[j]);
    }
  }

  lemma ExploredCovers(g: Digraph, s: Search, s': Search, pos: nat, low: int, low': int)
    requires StackOk(g, s) && Extends(s, s') && pos < |s.stack|
    requires LowCovers(g, s, pos + 1, pos, low) && LowCovers(g, s', |s.stack|, |s.stack|, low')
    ensures LowCovers(g, s', pos + 1, pos, Min(low, low'))
  {
    forall i, j | pos + 1 <= i < |s'.stack| && 0 <= j < pos && Edge(g, s'.stack[i], s'.stack[j])
      && s'.stack[j] < |s'.index|
      ensures Min(low, low') <= s'.index[s'.stack[j]]
    {
      assert s'.stack[j] == s.stack[j];
      if i < |s.stack| { assert s'.stack[i] == s.stack[i]; }
    }
  }

  /** After the last dependency, the component from `pos` up is covered. */
  lemma ScanEnd(g: Digraph, s: Search, id: nat, pos: nat)
    requires id < |g.all| && Scanned(g, s, id, pos, |g.all[id]|)
    ensures LowCovers(g, s, pos, pos, s.low[id])
    ensures forall y: nat | Edge(g, id, y) :: Visited(s, y)
  {
    forall y: nat | Edge(g, id, y) ensures TargetCovered(s, y, pos, s.low[id]) {
      var k :| 0 <= k < |g.all[id]| && g.all[id][k] == y;
    }
  }

  // ----- One call and its dependencies, step by step ------------------------------------------

  ghost predicate Callable(g: Digraph, s: Search, grays: set<nat>, id: nat) {
    Inv(g, s, grays) && id < |g.all| && id in g.active && !Visited(s, id) && forall x | x in grays :: Reach(g, x, id)
  }

  /** The contract of one strongConnect call from `s` to `s'`. */
  ghost predicate Finished(g: Digraph, s: Search, s': Search, grays: set<nat>, id: nat) {
    Inv(g, s', grays) && Extends(s, s') && LowKept(s, s') && Connected(g, s, s', id)
  }

  /** Inside the call that began in `start`, before dependency `k`. */
  ghost predicate Scanning(g: Digraph, start: Search, s: Search, grays: set<nat>, id: nat, k: nat) {
    && Callable(g, start, grays, id) && id !in grays
    && Inv(g, s, grays + {id}) && Extends(Pushed(start, id), s) && LowKept(start, s)
    && Scanned(g, s, id, |start.stack|, k)
  }

  ghost predicate Examining(g: Digraph, s: Search, grays: set<nat>, id: nat, pos: nat, k: nat) {
    && Inv(g, s, grays + {id}) && Scanned(g, s, id, pos, k) && k < |g.all[id]|
    && id in g.active && forall x | x in grays :: Reach(g, x, id)
  }

  ghost predicate Examined(g: Digraph, s: Search, s': Search, grays: set<nat>, id: nat, pos: nat, k: nat) {
    && Inv(g, s', grays + {id}) && Extends(s, s') && Scanned(g, s', id, pos, k + 1)
    && |s'.low| == |s.low| && forall x: nat | Visited(s, x) && x < |s.low| && x != id :: s'.low[x] == s.low[x]
  }

  ghost predicate Closing(g: Digraph, s: Search, grays: set<nat>, id: nat, pos: nat) {
    && Inv(g, s, grays + {id}) && id !in grays && id in g.active
    && Scanned(g, s, id, pos, |g.all[id]|)
    && (forall x | x in grays :: Reach(g, x, id) && x in s.stack[..pos])
  }

  ghost predicate Closed(g: Digraph, s: Search, s': Search, grays: set<nat>, id: nat, pos: nat) {
    && Inv(g, s', grays) && id < |s.index| == |s.low| && pos <= |s.stack|
    && s'.index == s.index && s'.low == s.low && s'.next == s.next
    && if s.low[id] == s.index[id] then Done(s', id) && s'.stack == s.stack[..pos]
       else s'.stack == s.stack && LowReached(g, s', id)
  }

  lemma PushScan(g: Digraph, s: Search, grays: set<nat>, id: nat)
    requires Callable(g, s, grays, id)
    ensures Scanning(g, s, Pushed(s, id), grays, id, 0)
  {
    PushInv(g, s, grays, id);
    ScanStart(g, s, id);
  }

  lemma ScanningFewer(g: Digraph, start: Search, s: Search, grays: set<nat>, id: nat, k: nat)
    requires Scanning(g, start, s, grays, id, k) && k < |g.all[id]|
    ensures Examining(g, s, grays, id, |start.stack|, k)
    ensures Unvisited(g, s) < Unvisited(g, start)
  {
    assert id in Unvisited(g, start) && id !in Unvisited(g, s);
  }

  lemma {:induction false} ScanningStep(g: Digraph, start: Search, s: Search, s': Search, grays: set<nat>, id: nat,
                                        k: nat)
    requires Scanning(g, start, s, grays, id, k) && k < |g.all[id]|
    requires Examined(g, s, s', grays, id, |start.stack|, k)
    ensures Scanning(g, start, s', grays, id, k + 1)
  {
    ExtendsTrans(Pushed(start, id), s, s');
  }

  lemma ExtendsTrans(s: Search, s': Search, s'': Search)
    requires Extends(s, s') && Extends(s', s'')
    ensures Extends(s, s'')
  {}

  lemma CloseReady(g: Digraph, start: Search, s: Search, grays: set<nat>, id: nat)
    requires id < |g.all| && Scanning(g, start, s, grays, id, |g.all[id]|)
    ensures Closing(g, s, grays, id, |start.stack|)
  {
    assert start.stack == s.stack[..|start.stack|];
  }

  lemma {:induction false} CloseFinishes(g: Digraph, start: Search, s: Search, s': Search, grays: set<nat>, id: nat)
    requires id < |g.all| && Scanning(g, start, s, grays, id, |g.all[id]|)
    requires Closed(g, s, s', grays, id, |start.stack|)
    ensures Finished(g, start, s', grays, id)
  {
    var pos := |start.stack|;
    assert start.stack == s.stack[..pos];
    ScanEnd(g, s, id, pos);
    CloseExtends(g, start, s, s', id);
    assert LowCovers(g, s', pos, pos, s'.low[id]);
  }

  lemma CloseExtends(g: Digraph, start: Search, s: Search, s': Search, id: nat)
    requires id < |start.index| == |start.low| == |start.onStack| && !Visited(start, id)
             && Extends(Pushed(start, id), s)
    requires s'.index == s.index && s'.next == s.next && start.stack <= s'.stack
    ensures Extends(start, s')
  {}

  lemma SkipExamined(g: Digraph, s: Search, grays: set<nat>, id: nat, pos: nat, k: nat)
    requires Examining(g, s, grays, id, pos, k) && !Edge(g, id, g.all[id][k])
    ensures Examined(g, s, s, grays, id, pos, k)
  {}

  lemma ExamineCallable(g: Digraph, s: Search, grays: set<nat>, id: nat, pos: nat, k: nat)
    requires Examining(g, s, grays, id, pos, k) && Edge(g, id, g.all[id][k]) && !Visited(s, g.all[id][k])
    ensures Callable(g, s, grays + {id}, g.all[id][k])
  {
    forall x | x in grays + {id} ensures Reach(g, x, g.all[id][k]) {
      ReachSelf(g, id);
      ReachThenEdge(g, x, id, g.all[id][k]);
    }
  }

  lemma {:induction false} ExaminedCall(g: Digraph, s: Search, s': Search, grays: set<nat>, id: nat, pos: nat, k: nat)
    requires Examining(g, s, grays, id, pos, k) && Edge(g, id, g.all[id][k]) && !Visited(s, g.all[id][k])
    requires Finished(g, s, s', grays + {id}, g.all[id][k])
    ensures Examined(g, s, Lowered(s', id, s'.low[g.all[id][k]]), grays, id, pos, k)
  {
    ScanExplored(g, s, s', id, pos, k, g.all[id][k]);
    LoweredInv(g, s', grays + {id}, id, s'.low[g.all[id][k]]);
  }

  lemma ExaminedVisited(g: Digraph, s: Search, grays: set<nat>, id: nat, pos: nat, k: nat)
    requires Examining(g, s, grays, id, pos, k) && Edge(g, id, g.all[id][k]) && Visited(s, g.all[id][k])
    ensures var y := g.all[id][k];
            Examined(g, s, if y in s.stack then Lowered(s, id, s.index[y]) else s, grays, id, pos, k)
  {
    ScanVisited(g, s, id, pos, k, g.all[id][k]);
    LoweredInv(g, s, grays + {id}, id, s.index[g.all[id][k]]);
  }

  class ComponentSearch {
    const all: seq<seq<nat>>
    const active: set<nat>
    var index: seq<int>
    var low: seq<int>
    var stack: seq<nat>
    var onStack: seq<bool>
    var nextIndex: nat
    var cyclicNodes: set<nat>

    ghost function View(): Search
      reads this
    {
      Search(index, low, stack, onStack, nextIndex, cyclicNodes)
    }

    ghost function Graph(): Digraph { Digraph(all, active) }

    constructor (dependencies: seq<seq<nat>>, nodes: set<nat>)
      ensures all == dependencies && active == nodes
      ensures Inv(Graph(), View(), {}) && stack == [] && forall x: nat :: !Visited(View(), x)
    {
      all, active := dependencies, nodes;
      index := seq(|dependencies|, i => -1);
      low := seq(|dependencies|, i => -1);
      stack, onStack := [], seq(|dependencies|, i => false);
      nextIndex, cyclicNodes := 0, {};
    }

    /** Pops the stack down to and including `id`. */
    method PopComponent(id: nat, ghost pos: nat) returns (component: seq<nat>)
      requires |onStack| == |index| && pos < |stack| && stack[pos] == id
      requires forall i | 0 <= i < |stack| :: stack[i] < |onStack|
      requires forall i | pos < i < |stack| :: stack[i] != id
      modifies this`stack, this`onStack
      ensures PoppedTo(old(View()), View(), pos)
      ensures |component| == |old(stack)| - pos && forall x :: x in component <==> x in old(stack)[pos..]
    {
      component := [];
      while true
        invariant pos < |stack| <= |old(stack)| && stack == old(stack)[..|stack|] && |onStack| == |index|
        invariant |component| == |old(stack)| - |stack|
        invariant forall x :: x in component <==> x in old(stack)[|stack|..]
        invariant forall x: nat | x < |onStack| :: onStack[x] <==> old(onStack)[x] && x !in old(stack)[|stack|..]
        decreases |stack|
      {
        var member := stack[|stack| - 1];
        var top := |stack| - 1;
        assert old(stack)[top..] == [member] + old(stack)[top + 1..];
        stack := stack[..top];
        onStack := onStack[member := false];
        component := component + [member];
        if member == id { break; }
      }
    }

    /** strongConnect. */
    method StrongConnect(id: nat, ghost grays: set<nat>)
      requires Callable(Graph(), View(), grays, id)
      modifies this
      ensures Finished(Graph(), old(View()), View(), grays, id)
      decreases Unvisited(Graph(), View()), 2
    {
      ghost var g, start := Graph(), View();
      PushScan(g, start, grays, id);
      index, low := index[id := nextIndex], low[id := nextIndex];
      nextIndex := nextIndex + 1;
      stack, onStack := stack + [id], onStack[id := true];
      assert View() == Pushed(start, id);
      for k := 0 to |all[id]|
        invariant Scanning(g, start, View(), grays, id, k)
      {
        ScanningFewer(g, start, View(), grays, id, k);
        ghost var before := View();
        Dependency(id, k, grays, |start.stack|);
        ScanningStep(g, start, before, View(), grays, id, k);
      }
      CloseReady(g, start, View(), grays, id);
      ghost var scanned := View();
      Close(id, grays, |start.stack|);
      CloseFinishes(g, start, scanned, View(), grays, id);
    }

    /** One dependency of the node being searched. */
    method Dependency(id: nat, k: nat, ghost grays: set<nat>, ghost pos: nat)
      requires Examining(Graph(), View(), grays, id, pos, k)
      modifies this
      ensures Examined(Graph(), old(View()), View(), grays, id, pos, k)
      decreases Unvisited(Graph(), View()), 3
    {
      ghost var g, before := Graph(), View();
      var y := all[id][k];
      if y >= |all| || y !in active {
        SkipExamined(g, before, grays, id, pos, k);
        return;
      }
      if index[y] == -1 {
        ExamineCallable(g, before, grays, id, pos, k);
        StrongConnect(y, grays + {id});
        ExaminedCall(g, before, View(), grays, id, pos, k);
        low := low[id := Min(low[id], low[y])];
      } else {
        ExaminedVisited(g, before, grays, id, pos, k);
        if onStack[y] {
          low := low[id := Min(low[id], index[y])];
        }
      }
    }

    /** The node is finished: it roots a component or stays on the stack. */
    method Close(id: nat, ghost grays: set<nat>, ghost pos: nat)
      requires Closing(Graph(), View(), grays, id, pos)
      modifies this`stack, this`onStack, this`cyclicNodes
      ensures Closed(Graph(), old(View()), View(), grays, id, pos)
    {
      ghost var g, before := Graph(), View();
      ScanEnd(g, before, id, pos);
      if low[id] != index[id] {
        KeepInv(g, before, grays, id);
        return;
      }
      PopsOnce(g, before, pos);
      var component := PopComponent(id, pos);
      var cyclic := |component| > 1 || id in all[id];
      if cyclic { cyclicNodes := cyclicNodes + set x | x in component; }
      assert id in all[id] <==> Edge(g, id, id);
      assert (set x | x in component) == set x | x in before.stack[pos..];
      PopInv(g, before, grays, id, pos, View());
    }
  }

  lemma PopsOnce(g: Digraph, s: Search, pos: nat)
    requires Sized(g, s) && StackOk(g, s) && pos < |s.stack|
    ensures forall i | 0 <= i < |s.stack| :: s.stack[i] < |s.onStack|
    ensures forall i | pos < i < |s.stack| :: s.stack[i] != s.stack[pos]
  {}

  /** identifyDynamicNodes, first phase: components of the whole schedule. */
  method FindCyclic(all: seq<seq<nat>>, schedule: seq<nat>) returns (cyclicNodes: set<nat>)
    requires forall i | 0 <= i < |schedule| :: schedule[i] < |all|
    ensures var g := Digraph(all, set id | id in schedule);
            forall x: nat :: x in cyclicNodes <==> x in schedule && OnCycle(g, x)
  {
    var active := set id | id in schedule;
    var search := new ComponentSearch(all, active);
    ghost var g := Digraph(all, active);
    for k := 0 to |schedule|
      invariant Inv(g, search.View(), {}) && search.all == all && search.active == active
      invariant forall j | 0 <= j < k :: Visited(search.View(), schedule[j])
    {
      if search.index[schedule[k]] == -1 {
        ghost var before := search.View();
        search.StrongConnect(schedule[k], {});
        assert forall j | 0 <= j < k :: Visited(before, schedule[j]);
      }
    }
    NothingPending(g, search.View());
    cyclicNodes := search.cyclicNodes;
    forall x: nat ensures x in cyclicNodes <==> x in schedule && OnCycle(g, x) {
      if x in schedule { assert Visited(search.View(), x); }
    }
  }

  /** Without gray nodes the stack is empty. */
  lemma NothingPending(g: Digraph, s: Search)
    requires Inv(g, s, {})
    ensures s.stack == []
  {
    if s.stack != [] { var x := GrayOf(g, s, {}, s.stack[0]); }
  }
}

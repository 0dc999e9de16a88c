/** identifyDynamicNodes of Combs.cpp after the components are known: which
    nodes stay on demand, and why the eager rest can run in schedule order. */
module CombDynamic {
  import opened DependencyGraph
  import opened CombSchedule
  import Tarjan
  import CombPlan

  /** The per-node facts the classification reads. */
  datatype Facts = Facts(conditional: set<nat>, unresolved: set<nat>, workMutated: set<nat>, replayed: set<nat>)

  ghost predicate ReachesSome(g: Digraph, seeds: set<nat>, x: nat) {
    exists s | s in seeds :: Reach(g, x, s)
  }

  ghost predicate ReachedFromSome(g: Digraph, seeds: set<nat>, x: nat) {
    exists s | s in seeds :: Reach(g, s, x)
  }

  ghost predicate GraphIdsOk(all: seq<seq<nat>>) {
    forall i, k | 0 <= i < |all| && 0 <= k < |all[i]| :: all[i][k] < |all|
  }

  ghost function Members(list: seq<nat>): (r: set<nat>)
    ensures forall x :: x in r <==> x in list
  {
    set x | x in list
  }

  // ----- Consumers --------------------------------------------------------------------------------

  ghost predicate ConsumersOk(g: Digraph, consumers: seq<seq<nat>>) {
    |consumers| == |g.all| && forall d: nat, c: nat | d < |consumers| :: c in consumers[d] <==> Edge(g, c, d)
  }

  /** consumers: the reversed edges between scheduled nodes. */
  method Consumers(all: seq<seq<nat>>, schedule: seq<nat>) returns (consumers: seq<seq<nat>>)
    requires forall i | 0 <= i < |schedule| :: schedule[i] < |all|
    ensures ConsumersOk(Digraph(all, set x | x in schedule), consumers)
  {
    var active := set x | x in schedule;
    ghost var g := Digraph(all, active);
    consumers := seq(|all|, i => []);
    for k := 0 to |schedule|
      invariant |consumers| == |all|
      invariant forall d: nat, c: nat | d < |all| :: c in consumers[d] <==> c in schedule[..k] && Edge(g, c, d)
    {
      var id := schedule[k];
      ghost var before := consumers;
      consumers := AddConsumers(all, active, consumers, id);
      assert schedule[..k + 1] == schedule[..k] + [id];
    }
    assert schedule[..|schedule|] == schedule;
  }

  method AddConsumers(all: seq<seq<nat>>, active: set<nat>, consumers: seq<seq<nat>>, id: nat)
    returns (r: seq<seq<nat>>)
    requires |consumers| == |all| && id < |all| && id in active
    ensures |r| == |consumers|
    ensures forall d: nat, c: nat | d < |all| ::
              c in r[d] <==> c in consumers[d] || (c == id && Edge(Digraph(all, active), id, d))
  {
    r := consumers;
    for k := 0 to |all[id]|
      invariant |r| == |consumers|
      invariant forall d: nat, c: nat | d < |all| ::
          c in r[d] <==> c in consumers[d] || (c == id && d in active && d in all[id][..k])
    {
      var d := all[id][k];
      assert all[id][..k + 1] == all[id][..k] + [d];
      if d < |all| && d in active { r := r[d := r[d] + [id]]; }
    }
    assert all[id][..|all[id]|] == all[id];
  }

  // ----- Closing a set under consumers --------------------------------------------------------------

  ghost predicate Sound(g: Digraph, seeds: set<nat>, found: set<nat>) {
    forall x | x in found :: ReachesSome(g, seeds, x)
  }

  /** Every consumer of a found node is found, unless the node is still pending. */
  ghost predicate ClosedBut(g: Digraph, found: set<nat>, pending: seq<nat>) {
    forall d, c | d in found && d !in pending && Edge(g, c, d) :: c in found
  }

  lemma SeedsReach(g: Digraph, seeds: set<nat>)
    ensures Sound(g, seeds, seeds)
  {
    forall x | x in seeds ensures ReachesSome(g, seeds, x) { ReachSelf(g, x); }
  }

  lemma ConsumerReaches(g: Digraph, seeds: set<nat>, c: nat, d: nat)
    requires ReachesSome(g, seeds, d) && Edge(g, c, d)
    ensures ReachesSome(g, seeds, c)
  {
    var s :| s in seeds && Reach(g, d, s);
    ReachEdge(g, c, d);
    ReachTrans(g, c, d, s);
  }

  /** The closed set is exactly the nodes that reach a seed. */
  lemma ClosureExact(g: Digraph, seeds: set<nat>, found: set<nat>)
    requires seeds <= found && Sound(g, seeds, found) && ClosedBut(g, found, [])
    ensures forall x: nat :: x in found <==> ReachesSome(g, seeds, x)
  {
    forall x: nat | ReachesSome(g, seeds, x) ensures x in found {
      var s :| s in seeds && Reach(g, x, s);
      var p :| PathBetween(g, p, x, s);
      PathBack(g, found, p, x, s);
    }
  }

  lemma {:induction false} PathBack(g: Digraph, found: set<nat>, p: seq<nat>, x: nat, s: nat)
    requires ClosedBut(g, found, []) && PathBetween(g, p, x, s) && s in found
    ensures x in found
    decreases |p|
  {
    if |p| > 1 {
      PathBack(g, found, p[1..], p[1], s);
      assert Edge(g, p[0], p[1]);
    }
  }

  /** It is the least set that holds the seeds and is closed under consumers. */
  lemma ClosureLeast(g: Digraph, seeds: set<nat>, found: set<nat>, other: set<nat>)
    requires forall x: nat :: x in found <==> ReachesSome(g, seeds, x)
    requires seeds <= other && ClosedBut(g, other, [])
    ensures found <= other && seeds <= found && ClosedBut(g, found, [])
  {
    forall x: nat | x in found ensures x in other {
      var s :| s in seeds && Reach(g, x, s);
      var p :| PathBetween(g, p, x, s);
      PathBack(g, other, p, x, s);
    }
    SeedsReach(g, seeds);
    forall d, c | d in found && Edge(g, c, d) ensures c in found { ConsumerReaches(g, seeds, c, d); }
  }

  ghost predicate Growing(g: Digraph, seeds: set<nat>, found: set<nat>, pending: seq<nat>) {
    && seeds <= found && Sound(g, seeds, found) && ClosedBut(g, found, pending)
    && (forall x | x in pending :: x in found) && found <= Everything(|g.all|)
  }

  lemma GrowStart(g: Digraph, seeds: set<nat>, pending: seq<nat>)
    requires seeds <= Everything(|g.all|) && forall x :: x in pending <==> x in seeds
    ensures Growing(g, seeds, seeds, pending)
  {
    SeedsReach(g, seeds);
  }

  lemma GrowStep(g: Digraph, seeds: set<nat>, found: set<nat>, rest: seq<nat>, d: nat, users: seq<nat>,
                 pending: seq<nat>)
    requires Growing(g, seeds, found, rest + [d])
    requires forall c: nat :: c in users <==> Edge(g, c, d)
    requires forall x :: x in pending <==> x in rest || (x in users && x !in found)
    ensures Growing(g, seeds, found + Members(users), pending)
  {
    var found' := found + Members(users);
    assert forall x :: x in rest + [d] <==> x in rest || x == d;
    assert d in rest + [d];
    forall x | x in found' ensures ReachesSome(g, seeds, x) {
      if x !in found { ConsumerReaches(g, seeds, x, d); }
    }
    forall x | x in found' ensures x in Everything(|g.all|) {
      if x !in found { assert Edge(g, x, d); }
    }
  }

  /** The worklist that grows dynamicNodes: a node is marked when pushed. */
  method CloseConsumers(all: seq<seq<nat>>, ghost active: set<nat>, consumers: seq<seq<nat>>, seeds: seq<nat>)
    returns (found: set<nat>)
    requires ConsumersOk(Digraph(all, active), consumers) && forall x | x in seeds :: x < |all|
    ensures forall x: nat :: x in found <==> ReachesSome(Digraph(all, active), (set y | y in seeds), x)
  {
    ghost var g, wanted := Digraph(all, active), set y | y in seeds;
    var pending;
    found, pending := Enter({}, [], seeds);
    assert found == wanted;
    GrowStart(g, wanted, pending);
    while pending != []
      invariant Growing(g, wanted, found, pending)
      decreases Missing(g, found), |pending|
    {
      found, pending := PopPending(g, wanted, consumers, found, pending);
    }
    ClosureExact(g, wanted, found);
  }

  method PopPending(ghost g: Digraph, ghost seeds: set<nat>, consumers: seq<seq<nat>>, found: set<nat>,
                    pending: seq<nat>)
    returns (found': set<nat>, pending': seq<nat>)
    requires Growing(g, seeds, found, pending) && pending != [] && ConsumersOk(g, consumers)
    ensures Growing(g, seeds, found', pending')
    ensures Missing(g, found') < Missing(g, found) || (found' == found && |pending'| < |pending|)
  {
    var d := pending[|pending| - 1];
    var rest := pending[..|pending| - 1];
    assert pending == rest + [d] && d in pending;
    assert d in Everything(|g.all|);
    found', pending' := Enter(found, rest, consumers[d]);
    GrowStep(g, seeds, found, rest, d, consumers[d], pending');
    if found' != found { MissingShrinks(g, found, found'); }
  }

  /** The termination measure: what is not found yet. */
  ghost function Missing(g: Digraph, found: set<nat>): set<nat> { Everything(|g.all|) - found }

  lemma MissingShrinks(g: Digraph, found: set<nat>, found': set<nat>)
    requires found < found' <= Everything(|g.all|)
    ensures Missing(g, found') < Missing(g, found)
  {
    var x :| x in found' && x !in found;
    assert x in Missing(g, found) && x !in Missing(g, found');
  }

  /** Inserts each id and pushes the new ones. */
  method Enter(found: set<nat>, pending: seq<nat>, ids: seq<nat>) returns (found': set<nat>, pending': seq<nat>)
    ensures found' == found + Members(ids)
    ensures forall x :: x in pending' <==> x in pending || (x in ids && x !in found)
    ensures found' == found ==> pending' == pending
  {
    found', pending' := found, pending;
    for k := 0 to |ids|
      invariant found' == found + Members(ids[..k])
      invariant forall x :: x in pending' <==> x in pending || (x in ids[..k] && x !in found)
      invariant found' == found ==> pending' == pending
    {
      assert ids[..k + 1] == ids[..k] + [ids[k]];
      if ids[k] !in found' {
        found', pending' := found' + {ids[k]}, pending' + [ids[k]];
      }
    }
    assert ids[..|ids|] == ids;
  }

  /** `seen` is closed except for what is still listed. */
  ghost predicate Revoking(g: Digraph, seeds: set<nat>, seen: set<nat>, unstable: seq<nat>) {
    && seen <= Everything(|g.all|) && Sound(g, seeds, seen)
    && (forall x | x in unstable :: x < |g.all| && ReachesSome(g, seeds, x))
    && (forall x | x in seeds :: x in seen || x in unstable)
    && forall d, c | d in seen && Edge(g, c, d) :: c in seen || c in unstable
  }

  lemma RevokeStep(g: Digraph, seeds: set<nat>, seen: set<nat>, rest: seq<nat>, id: nat, users: seq<nat>)
    requires Revoking(g, seeds, seen, rest + [id]) && forall c: nat :: c in users <==> Edge(g, c, id)
    ensures Revoking(g, seeds, seen + {id}, rest + users) && (id in seen ==> Revoking(g, seeds, seen, rest))
  {
    assert id in rest + [id];
    forall c: nat | c in users ensures c < |g.all| && ReachesSome(g, seeds, c) { ConsumerReaches(g, seeds, c, id); }
    assert forall x :: x in rest + [id] <==> x in rest || x == id;
    assert forall x :: x in rest + users <==> x in rest || x in users;
  }

  method PopUnstable(ghost g: Digraph, ghost seeds: set<nat>, consumers: seq<seq<nat>>, seen: set<nat>,
                     unstable: seq<nat>)
    returns (seen': set<nat>, unstable': seq<nat>)
    requires Revoking(g, seeds, seen, unstable) && unstable != [] && ConsumersOk(g, consumers)
    ensures Revoking(g, seeds, seen', unstable')
    ensures Missing(g, seen') < Missing(g, seen) || (seen' == seen && |unstable'| < |unstable|)
  {
    var last := |unstable| - 1;
    var id, rest := unstable[last], unstable[..last];
    assert unstable == rest + [id] && id in unstable;
    RevokeStep(g, seeds, seen, rest, id, consumers[id]);
    if id in seen {
      seen', unstable' := seen, rest;
    } else {
      MissingShrinks(g, seen, seen + {id});
      seen', unstable' := seen + {id}, rest + consumers[id];
    }
  }

  /** The worklist that revokes memoizing: a node is marked when popped, so the
      list may hold it several times. */
  method Revoke(all: seq<seq<nat>>, ghost active: set<nat>, consumers: seq<seq<nat>>, seeds: seq<nat>,
                memoizable: set<nat>) returns (kept: set<nat>)
    requires ConsumersOk(Digraph(all, active), consumers) && forall x | x in seeds :: x < |all|
    ensures forall x: nat ::
              x in kept <==> x in memoizable && !ReachesSome(Digraph(all, active), (set y | y in seeds), x)
  {
    ghost var g, wanted := Digraph(all, active), set y | y in seeds;
    var unstable: seq<nat>, seen: set<nat> := seeds, {};
    kept := memoizable;
    SeedsReach(g, wanted);
    while unstable != []
      invariant Revoking(g, wanted, seen, unstable) && kept == memoizable - seen
      decreases Missing(g, seen), |unstable|
    {
      seen, unstable := PopUnstable(g, wanted, consumers, seen, unstable);
      kept := memoizable - seen;
    }
    ClosureExact(g, wanted, seen);
  }

  // ----- The downward cone of conditional nodes ---------------------------------------------------------

  /** Below, the list is scanned up to `at`. */
  ghost predicate Descending(g: Digraph, starts: set<nat>, cone: seq<nat>, at: nat) {
    && at <= |cone| && starts <= Members(cone) <= Everything(|g.all|)
    && (forall x | x in cone :: ReachedFromSome(g, starts, x))
    && forall k, y | 0 <= k < at && Edge(g, cone[k], y) :: y in cone
  }

  method DescendFrom(g: Digraph, ghost starts: set<nat>, found: set<nat>, list: seq<nat>, at: nat)
    returns (found': set<nat>, list': seq<nat>)
    requires found == Members(list) && Descending(g, starts, list, at) && at < |list|
    requires GraphIdsOk(g.all) && g.active == Everything(|g.all|)
    ensures found' == Members(list') && Descending(g, starts, list', at + 1)
    ensures Missing(g, found') < Missing(g, found) || (found' == found && list' == list)
  {
    assert list[at] in Members(list);
    found', list' := EnterAfter(found, list, g.all[list[at]]);
    ConeStep(g, starts, list, list', at);
    if found' != found { MissingShrinks(g, found, found'); }
  }

  /** conditionalDependencies: everything the conditional nodes reach, whether
      it is scheduled or not. The list is scanned while it grows. */
  method ConditionalCone(all: seq<seq<nat>>, starts: seq<nat>) returns (cone: seq<nat>)
    requires GraphIdsOk(all) && forall x | x in starts :: x < |all|
    ensures var g := Digraph(all, Everything(|all|));
            forall x: nat :: x in cone <==> ReachedFromSome(g, (set y | y in starts), x)
  {
    var g := Digraph(all, Everything(|all|));
    ghost var wanted := set y | y in starts;
    var found;
    found, cone := EnterAfter({}, [], starts);
    forall x | x in found ensures ReachedFromSome(g, wanted, x) { ReachSelf(g, x); }
    var at := 0;
    while at < |cone|
      invariant found == Members(cone) && Descending(g, wanted, cone, at)
      decreases Missing(g, found), |cone| - at
    {
      found, cone := DescendFrom(g, wanted, found, cone, at);
      at := at + 1;
    }
    ConeExact(g, wanted, cone);
  }

  /** Enter, for a list that is scanned from the front. */
  method EnterAfter(found: set<nat>, list: seq<nat>, ids: seq<nat>) returns (found': set<nat>, list': seq<nat>)
    requires found == Members(list)
    ensures found' == found + Members(ids)
    ensures list <= list' && found' == Members(list') && (found' == found ==> list' == list)
  {
    found', list' := found, list;
    for k := 0 to |ids|
      invariant found' == found + Members(ids[..k])
      invariant list <= list' && found' == Members(list') && (found' == found ==> list' == list)
    {
      assert ids[..k + 1] == ids[..k] + [ids[k]];
      if ids[k] !in found' {
        found', list' := found' + {ids[k]}, list' + [ids[k]];
      }
    }
    assert ids[..|ids|] == ids;
  }

  lemma ConeStep(g: Digraph, starts: set<nat>, list: seq<nat>, cone: seq<nat>, at: nat)
    requires Descending(g, starts, list, at) && at < |list| && list <= cone && GraphIdsOk(g.all)
    requires g.active == Everything(|g.all|) && list[at] < |g.all|
    requires Members(cone) == Members(list) + set y | y in g.all[list[at]]
    ensures Descending(g, starts, cone, at + 1)
  {
    var id := list[at];
    forall x | x in cone ensures ReachedFromSome(g, starts, x) && x < |g.all| {
      if x !in Members(list) {
        assert id in list;
        var s :| s in starts && Reach(g, s, id);
        assert Edge(g, id, x);
        ReachThenEdge(g, s, id, x);
      } else {
        assert x in list;
      }
    }
    forall k, y | 0 <= k < at + 1 && Edge(g, cone[k], y) ensures y in cone {
      assert cone[k] == list[k];
      if k < at { assert y in list; }
      assert y in Members(cone);
    }
  }

  lemma ConeExact(g: Digraph, wanted: set<nat>, cone: seq<nat>)
    requires Descending(g, wanted, cone, |cone|)
    ensures forall x: nat :: x in cone <==> ReachedFromSome(g, wanted, x)
  {
    forall x: nat | ReachedFromSome(g, wanted, x) ensures x in cone {
      var s :| s in wanted && Reach(g, s, x);
      assert s in Members(cone);
      ReachStaysIn(g, Members(cone), s, x);
    }
  }

  // ----- The classification ------------------------------------------------------------------------------

  ghost predicate Scheduled(schedule: seq<nat>, ids: set<nat>, x: nat) { x in schedule && x in ids }

  /** Why a node must stay on demand, whatever it depends on. */
  ghost predicate Seed(all: seq<seq<nat>>, schedule: seq<nat>, facts: Facts, x: nat) {
    var active := set y | y in schedule;
    || (x in schedule && OnCycle(Digraph(all, active), x))
    || (x in schedule && (x in facts.unresolved || x in facts.workMutated || x in facts.replayed))
    || ReachedFromSome(Digraph(all, Everything(|all|)), active * facts.conditional, x)
  }

  ghost predicate Unstable(all: seq<seq<nat>>, schedule: seq<nat>, facts: Facts, x: nat) {
    x in schedule && (OnCycle(Digraph(all, set y | y in schedule), x) || x in facts.unresolved
                      || x in facts.workMutated)
  }

  ghost predicate ReachesSeed(all: seq<seq<nat>>, schedule: seq<nat>, facts: Facts, x: nat) {
    exists s: nat :: Seed(all, schedule, facts, s) && Reach(Digraph(all, set y | y in schedule), x, s)
  }

  ghost predicate ReachesUnstable(all: seq<seq<nat>>, schedule: seq<nat>, facts: Facts, x: nat) {
    exists s: nat :: Unstable(all, schedule, facts, s) && Reach(Digraph(all, set y | y in schedule), x, s)
  }

  /** The nodes of `ids` in schedule order that satisfy a flag. */
  method Flagged(schedule: seq<nat>, flagged: set<nat>) returns (r: seq<nat>)
    ensures forall x :: x in r <==> x in schedule && x in flagged
  {
    r := [];
    for k := 0 to |schedule|
      invariant forall x :: x in r <==> x in schedule[..k] && x in flagged
    {
      assert schedule[..k + 1] == schedule[..k] + [schedule[k]];
      if schedule[k] in flagged { r := r + [schedule[k]]; }
    }
    assert schedule[..|schedule|] == schedule;
  }

  /** identifyDynamicNodes: dynamicNodes is exactly the set of nodes that reach
      a seed along scheduled dependencies, and a node keeps its memo right
      exactly when it reaches no unstable one. */
  method IdentifyDynamicNodes(all: seq<seq<nat>>, schedule: seq<nat>, facts: Facts, memoizable: set<nat>)
    returns (dynamicNodes: set<nat>, memoized: set<nat>)
    requires GraphIdsOk(all) && forall i | 0 <= i < |schedule| :: schedule[i] < |all|
    ensures forall x: nat :: x in dynamicNodes <==> ReachesSeed(all, schedule, facts, x)
    ensures forall x: nat :: x in memoized <==> x in memoizable && !ReachesUnstable(all, schedule, facts, x)
  {
    ghost var active := set y | y in schedule;
    ghost var g := Digraph(all, active);
    var cyclic := Tarjan.FindCyclic(all, schedule);
    var cyclicSeeds := Flagged(schedule, cyclic);
    var conditional := Flagged(schedule, facts.conditional);
    var unresolved := Flagged(schedule, facts.unresolved);
    var work := Flagged(schedule, facts.workMutated);
    var replay := Flagged(schedule, facts.replayed);
    var cone := ConditionalCone(all, conditional);
    assert (set y | y in conditional) == active * facts.conditional;
    var consumers := Consumers(all, schedule);
    var unstable := work + cyclicSeeds + unresolved;
    memoized := Revoke(all, active, consumers, unstable, memoizable);
    assert forall x: nat :: x in unstable <==> Unstable(all, schedule, facts, x);
    SomeUnstable(all, schedule, facts, set y | y in unstable);
    var seeds := cyclicSeeds + unresolved + cone + work + replay;
    assert forall x: nat :: x in seeds <==> Seed(all, schedule, facts, x);
    ConeInRange(all, active * facts.conditional, cone);
    dynamicNodes := CloseConsumers(all, active, consumers, seeds);
    SomeSeed(all, schedule, facts, set y | y in seeds);
  }

  lemma ConeInRange(all: seq<seq<nat>>, starts: set<nat>, cone: seq<nat>)
    requires starts <= Everything(|all|)
    requires forall x: nat :: x in cone <==> ReachedFromSome(Digraph(all, Everything(|all|)), starts, x)
    ensures forall x | x in cone :: x < |all|
  {
    var g := Digraph(all, Everything(|all|));
    forall x | x in cone ensures x < |all| {
      var s :| s in starts && Reach(g, s, x);
      ReachStaysIn(g, Everything(|all|), s, x);
    }
  }

  lemma SomeSeed(all: seq<seq<nat>>, schedule: seq<nat>, facts: Facts, seeds: set<nat>)
    requires forall x: nat :: x in seeds <==> Seed(all, schedule, facts, x)
    ensures forall x: nat ::
              ReachesSome(Digraph(all, set y | y in schedule), seeds, x) <==> ReachesSeed(all, schedule, facts, x)
  {}

  lemma SomeUnstable(all: seq<seq<nat>>, schedule: seq<nat>, facts: Facts, seeds: set<nat>)
    requires forall x: nat :: x in seeds <==> Unstable(all, schedule, facts, x)
    ensures forall x: nat ::
              ReachesSome(Digraph(all, set y | y in schedule), seeds, x) <==> ReachesUnstable(all, schedule, facts, x)
  {}

  // ----- What is left for the eager schedule ------------------------------------------------------------

  function Eager(schedule: seq<nat>, dynamicNodes: set<nat>): (r: seq<nat>)
    ensures forall x :: x in r <==> x in schedule && x !in dynamicNodes
  {
    if schedule == [] then []
    else
      var last := |schedule| - 1;
      Eager(schedule[..last], dynamicNodes) + if schedule[last] in dynamicNodes then [] else [schedule[last]]
  }

  ghost predicate Distinct(s: seq<nat>) { forall i, j | 0 <= i < j < |s| :: s[i] != s[j] }

  /** Erasing the dynamic nodes keeps the order of the rest. */
  lemma {:induction false} EagerOrder(schedule: seq<nat>, dynamicNodes: set<nat>, i: nat, j: nat)
    returns (i': nat, j': nat)
    requires i < j < |Eager(schedule, dynamicNodes)|
    ensures i' < j' < |schedule| && schedule[i'] == Eager(schedule, dynamicNodes)[i]
            && schedule[j'] == Eager(schedule, dynamicNodes)[j]
    decreases |schedule|
  {
    var last := |schedule| - 1;
    var rest := Eager(schedule[..last], dynamicNodes);
    if j < |rest| {
      i', j' := EagerOrder(schedule[..last], dynamicNodes, i, j);
    } else {
      j' := last;
      assert rest[i] in schedule[..last];
      i' :| 0 <= i' < last && schedule[i'] == rest[i];
    }
  }

  /** A path inside a closed set of active nodes survives restricting to it. */
  lemma {:induction false} PathRestricts(g: Digraph, inner: set<nat>, p: seq<nat>, x: nat, y: nat)
    requires PathBetween(g, p, x, y) && x in inner && ClosedUnder(g, inner)
    ensures Reach(Digraph(g.all, inner), x, y) && y in inner
    decreases |p|
  {
    var h := Digraph(g.all, inner);
    ReachSelf(h, x);
    if |p| > 1 {
      assert Edge(g, p[0], p[1]);
      PathRestricts(g, inner, p[1..], p[1], y);
      assert Edge(h, x, p[1]);
      ReachEdge(h, x, p[1]);
      ReachTrans(h, x, p[1], y);
    }
  }

  /** The nodes a finished schedule holds depend only on each other. */
  lemma ScheduleIsClosed(g: Digraph, roots: seq<nat>, schedule: seq<nat>, kept: seq<seq<nat>>)
    requires ScheduleOk(g, roots, schedule, kept)
    ensures ClosedUnder(g, set x | x in schedule)
  {
    forall x, y | x in schedule && Edge(g, x, y) ensures y in schedule {
      var r :| r in roots && Reach(g, r, x);
      ReachThenEdge(g, r, x, y);
      assert FromRoots(g, roots, y);
    }
  }

  /** A dependency the search dropped puts its node on a cycle. */
  lemma DroppedIsCyclic(prepared: seq<Prepared>, roots: seq<nat>, schedule: seq<nat>, kept: seq<seq<nat>>, i: nat,
                        d: nat)
    requires PreparedOk(prepared) && ScheduleOk(Discovered(prepared), roots, schedule, kept)
    requires i < |schedule| && schedule[i] < |prepared| && d in AllDependencies(prepared)[schedule[i]]
             && d !in kept[schedule[i]]
    ensures OnCycle(Digraph(AllDependencies(prepared), set x | x in schedule), schedule[i])
  {
    var g, active := Discovered(prepared), set x | x in schedule;
    var x := schedule[i];
    assert PlaceOk(g, schedule, kept, i);
    assert Edge(g, x, d);
    ScheduleIsClosed(g, roots, schedule, kept);
    assert x in active && d in active;
    var p :| PathBetween(g, p, d, x);
    PathRestricts(g, active, p, d, x);
    assert Edge(Digraph(g.all, active), x, d);
  }

  /** An eager node has only eager dependencies, none of which the depth-first
      search dropped, and each of them stands before it in the schedule. */
  lemma EagerDependencies(prepared: seq<Prepared>, roots: seq<nat>, schedule: seq<nat>, kept: seq<seq<nat>>,
                          facts: Facts, dynamicNodes: set<nat>, i: nat, d: nat)
    requires PreparedOk(prepared) && ScheduleOk(Discovered(prepared), roots, schedule, kept)
    requires forall x: nat :: x in dynamicNodes <==> ReachesSeed(AllDependencies(prepared), schedule, facts, x)
    requires i < |schedule| && schedule[i] !in dynamicNodes
    requires schedule[i] < |prepared| && d in AllDependencies(prepared)[schedule[i]]
    ensures d in kept[schedule[i]] && d !in dynamicNodes && Earlier(schedule, d, i)
  {
    var all, x := AllDependencies(prepared), schedule[i];
    var h := Digraph(all, set y | y in schedule);
    assert PlaceOk(Discovered(prepared), schedule, kept, i);
    ReachSelf(h, x);
    if d !in kept[x] {
      DroppedIsCyclic(prepared, roots, schedule, kept, i, d);
      assert Seed(all, schedule, facts, x);
    }
    if d in dynamicNodes {
      var s: nat :| Seed(all, schedule, facts, s) && Reach(h, d, s);
      var j :| 0 <= j < i && j < |schedule| && schedule[j] == d;
      assert Edge(h, x, d);
      ReachEdge(h, x, d);
      ReachTrans(h, x, d, s);
    }
  }

  /** Hence the schedule without the dynamic nodes is topological for the
      complete dependencies of its nodes. */
  lemma EagerTopological(prepared: seq<Prepared>, roots: seq<nat>, schedule: seq<nat>, kept: seq<seq<nat>>,
                         facts: Facts, dynamicNodes: set<nat>)
    requires PreparedOk(prepared) && ScheduleOk(Discovered(prepared), roots, schedule, kept)
    requires forall x: nat :: x in dynamicNodes <==> ReachesSeed(AllDependencies(prepared), schedule, facts, x)
    ensures CombPlan.Topological(AllDependencies(prepared), Eager(schedule, dynamicNodes))
  {
    var all, eager := AllDependencies(prepared), Eager(schedule, dynamicNodes);
    forall i | 0 <= i < |eager| ensures eager[i] < |all| {
      var k := PlaceOf(schedule, dynamicNodes, i);
      assert PlaceOk(Discovered(prepared), schedule, kept, k);
    }
    forall i, j | 0 <= i < j < |eager| ensures eager[i] != eager[j] {
      var i', j' := EagerOrder(schedule, dynamicNodes, i, j);
    }
    forall i, j | 0 <= i <= j < |eager| && eager[j] in all[eager[i]] ensures false {
      var j' := PlaceOf(schedule, dynamicNodes, j);
      var i' := j';
      if i < j { i', j' := EagerOrder(schedule, dynamicNodes, i, j); }
      EagerDependencies(prepared, roots, schedule, kept, facts, dynamicNodes, i', eager[j]);
    }
  }

  lemma PlaceOf(schedule: seq<nat>, dynamicNodes: set<nat>, i: nat) returns (k: nat)
    requires i < |Eager(schedule, dynamicNodes)|
    ensures k < |schedule| && schedule[k] == Eager(schedule, dynamicNodes)[i] && schedule[k] !in dynamicNodes
  {
    assert Eager(schedule, dynamicNodes)[i] in schedule;
    k :| 0 <= k < |schedule| && schedule[k] == Eager(schedule, dynamicNodes)[i];
  }

  /** Conditional nodes and everything below them stay on demand. */
  lemma DiscardedBranchesStayLazy(all: seq<seq<nat>>, schedule: seq<nat>, facts: Facts, dynamicNodes: set<nat>, c: nat,
                                  x: nat)
    requires forall y: nat :: y in dynamicNodes <==> ReachesSeed(all, schedule, facts, y)
    requires c in schedule && c in facts.conditional && Reach(Digraph(all, Everything(|all|)), c, x)
    ensures x in dynamicNodes && x !in Eager(schedule, dynamicNodes)
  {
    assert c in (set y | y in schedule) * facts.conditional;
    assert Seed(all, schedule, facts, x);
    ReachSelf(Digraph(all, set y | y in schedule), x);
  }
}

/** Cutting a schedule into stages and each stage into lanes
    (buildStage and buildPartition in Combs.cpp). */
module CombPartition {
  import opened CombPlan
  import opened LanePacking
  import opened UnionFind

  datatype Component = Component(values: seq<nat>, weight: nat)

  datatype Stage = Stage(begin: nat, end: nat, componentCount: nat, lanes: seq<seq<nat>>, laneWeights: seq<nat>)

  predicate Ready(deps: Dependencies, schedule: seq<nat>, weights: seq<nat>) {
    Topological(deps, schedule) && |weights| == |deps|
  }

  ghost predicate InStage(schedule: seq<nat>, begin: nat, end: nat, id: nat) {
    exists k | begin <= k < end && k < |schedule| :: schedule[k] == id
  }

  // ----- Connected components ------------------------------------------------------

  /** A labelling that never separates a stage node from a dependency in it. */
  ghost predicate Respects(f: seq<nat>, deps: Dependencies, schedule: seq<nat>, begin: nat, end: nat) {
    && |f| == |deps|
    && forall k, d | begin <= k < end && k < |schedule| && schedule[k] < |deps| && d in deps[schedule[k]]
          && d < |f| && InStage(schedule, begin, end, d) :: f[schedule[k]] == f[d]
  }

  /** No other labelling that keeps dependencies together can separate what
      this one joins: its classes are the connected components. */
  ghost predicate Finest(leader: seq<nat>, deps: Dependencies, schedule: seq<nat>, begin: nat, end: nat) {
    forall f, x: nat, y: nat | Respects(f, deps, schedule, begin, end)
        && x < |f| && y < |f| && x < |leader| && y < |leader|
        && InStage(schedule, begin, end, x) && InStage(schedule, begin, end, y) && leader[x] == leader[y] ::
      f[x] == f[y]
  }

  lemma JoinStaysFinest(leader: seq<nat>, deps: Dependencies, schedule: seq<nat>, begin: nat, end: nat, k: nat, d: nat)
    requires DependenciesOk(deps) && |leader| == |deps| && Finest(leader, deps, schedule, begin, end)
    requires begin <= k < end <= |schedule| && schedule[k] < |deps| && d in deps[schedule[k]] && d < |leader|
    requires InStage(schedule, begin, end, d)
    ensures Finest(Joined(leader, schedule[k], d), deps, schedule, begin, end)
  {
    var joined := Joined(leader, schedule[k], d);
    forall f, x: nat, y: nat | Respects(f, deps, schedule, begin, end)
        && x < |f| && y < |f| && x < |joined| && y < |joined|
        && InStage(schedule, begin, end, x) && InStage(schedule, begin, end, y) && joined[x] == joined[y]
      ensures f[x] == f[y]
    {
      assert f[schedule[k]] == f[d];
      assert InStage(schedule, begin, end, schedule[k]);
      if leader[x] != leader[y] {
        if leader[x] == leader[d] {
          assert f[x] == f[d] && f[y] == f[schedule[k]];
        } else {
          assert f[y] == f[d] && f[x] == f[schedule[k]];
        }
      }
    }
  }

  /** Stage nodes and their dependencies share a representative, and only
      connected nodes do. */
  ghost predicate Components(leader: seq<nat>, deps: Dependencies, schedule: seq<nat>, begin: nat, end: nat) {
    Respects(leader, deps, schedule, begin, end) && Finest(leader, deps, schedule, begin, end)
  }

  ghost predicate MembersOk(member: seq<bool>, schedule: seq<nat>, begin: nat, end: nat) {
    forall x | 0 <= x < |member| :: member[x] <==> InStage(schedule, begin, end, x)
  }

  /** Marks the stage and makes every node its own component. */
  method MarkStage(deps: Dependencies, schedule: seq<nat>, begin: nat, end: nat, parent: array<nat>,
                   member: array<bool>)
    returns (ghost leader: seq<nat>, ghost rank: seq<nat>)
    requires Topological(deps, schedule) && begin <= end <= |schedule|
    requires parent.Length == member.Length == |deps|
    requires forall x | 0 <= x < member.Length :: !member[x]
    modifies parent, member
    ensures MembersOk(member[..], schedule, begin, end)
    ensures Forest(parent[..], member[..], leader, rank, 0) && |leader| == |deps|
    ensures forall x | 0 <= x < |deps| :: leader[x] == x
  {
    for k := begin to end
      invariant MembersOk(member[..], schedule, begin, k)
      invariant forall x | 0 <= x < member.Length && member[x] :: parent[x] == x
    {
      var id := schedule[k];
      ghost var was := member[..];
      member[id] := true;
      parent[id] := id;
      forall x | 0 <= x < member.Length ensures member[x] <==> InStage(schedule, begin, k + 1, x) {
        assert was[x] <==> InStage(schedule, begin, k, x);
        if InStage(schedule, begin, k, x) {
          var j :| begin <= j < k && j < |schedule| && schedule[j] == x;
          assert begin <= j < k + 1;
        }
        if x == id { assert schedule[k] == x; }
      }
    }
    leader := seq(|deps|, x requires 0 <= x => x);
    rank := seq(|deps|, x requires 0 <= x => 0);
  }

  /** Merging only joins more. */
  ghost predicate JoinsMore(leader: seq<nat>, leader': seq<nat>) {
    |leader| == |leader'| && forall x, y | 0 <= x < |leader| && 0 <= y < |leader| && leader[x] == leader[y] ::
                               leader'[x] == leader'[y]
  }

  ghost predicate Merging(parent: seq<nat>, members: seq<bool>, leader: seq<nat>, rank: seq<nat>, top: nat,
                          deps: Dependencies, schedule: seq<nat>, begin: nat, end: nat) {
    && Topological(deps, schedule) && begin <= end <= |schedule| && |leader| == |deps|
    && MembersOk(members, schedule, begin, end)
    && Forest(parent, members, leader, rank, top) && Finest(leader, deps, schedule, begin, end)
  }

  lemma StageMembers(members: seq<bool>, schedule: seq<nat>, begin: nat, end: nat, k: nat, dependency: nat)
    requires MembersOk(members, schedule, begin, end) && begin <= k < end <= |schedule| && schedule[k] < |members|
    requires dependency < |members| && members[dependency]
    ensures members[schedule[k]] && InStage(schedule, begin, end, schedule[k])
            && InStage(schedule, begin, end, dependency)
  {
    assert InStage(schedule, begin, end, schedule[k]);
  }

  /** One dependency of a stage node joins its component if it is in the stage. */
  method MergeDependency(deps: Dependencies, schedule: seq<nat>, begin: nat, end: nat, parent: array<nat>,
                         member: array<bool>, k: nat, x: nat,
                         ghost leader: seq<nat>, ghost rank: seq<nat>, ghost top: nat)
    returns (ghost leader': seq<nat>, ghost rank': seq<nat>, ghost top': nat)
    requires Merging(parent[..], member[..], leader, rank, top, deps, schedule, begin, end)
    requires begin <= k < end && x < |deps[schedule[k]]|
    modifies parent
    ensures Merging(parent[..], member[..], leader', rank', top', deps, schedule, begin, end)
    ensures JoinsMore(leader, leader')
    ensures member[deps[schedule[k]][x]] ==> leader'[schedule[k]] == leader'[deps[schedule[k]][x]]
  {
    leader', rank', top' := leader, rank, top;
    var id := schedule[k];
    var dependency := deps[id][x];
    if member[dependency] {
      ghost var members := member[..];
      StageMembers(members, schedule, begin, end, k, dependency);
      JoinStaysFinest(leader, deps, schedule, begin, end, k, dependency);
      JoinJoins(leader, leader, id, dependency);
      rank', top' := Merge(parent, id, dependency, members, leader, rank, top);
      leader' := Joined(leader, id, dependency);
      assert member[..] == members;
    }
  }

  /** The inner merge loop: one node joins its dependencies in the stage. */
  method MergeNode(deps: Dependencies, schedule: seq<nat>, begin: nat, end: nat, parent: array<nat>,
                   member: array<bool>, k: nat,
                   ghost leader: seq<nat>, ghost rank: seq<nat>, ghost top: nat)
    returns (ghost leader': seq<nat>, ghost rank': seq<nat>, ghost top': nat)
    requires Merging(parent[..], member[..], leader, rank, top, deps, schedule, begin, end)
    requires begin <= k < end
    modifies parent
    ensures Merging(parent[..], member[..], leader', rank', top', deps, schedule, begin, end)
    ensures JoinsMore(leader, leader')
    ensures DependenciesJoined(leader', deps, member[..], schedule[k], |deps[schedule[k]]|)
  {
    leader', rank', top' := leader, rank, top;
    var id := schedule[k];
    for x := 0 to |deps[id]|
      invariant Merging(parent[..], member[..], leader', rank', top', deps, schedule, begin, end)
      invariant JoinsMore(leader, leader')
      invariant DependenciesJoined(leader', deps, member[..], id, x)
    {
      ghost var before := leader';
      leader', rank', top' := MergeDependency(deps, schedule, begin, end, parent, member, k, x, leader', rank', top');
      ExtendJoined(before, leader', deps, member[..], id, x);
    }
  }

  lemma ExtendJoined(leader: seq<nat>, leader': seq<nat>, deps: Dependencies, members: seq<bool>, id: nat, n: nat)
    requires DependenciesJoined(leader, deps, members, id, n) && JoinsMore(leader, leader') && n < |deps[id]|
    requires deps[id][n] < |deps| && members[deps[id][n]] ==> leader'[id] == leader'[deps[id][n]]
    ensures DependenciesJoined(leader', deps, members, id, n + 1)
  {
    forall x | 0 <= x < n + 1 && deps[id][x] < |deps| && members[deps[id][x]]
      ensures leader'[id] == leader'[deps[id][x]]
    {
      if x < n { assert leader[id] == leader[deps[id][x]]; }
    }
  }

  lemma JoinJoins(first: seq<nat>, leader: seq<nat>, left: nat, right: nat)
    requires JoinsMore(first, leader) && left < |leader| && right < |leader|
    ensures JoinsMore(first, Joined(leader, left, right)) && JoinsMore(leader, Joined(leader, left, right))
    ensures Joined(leader, left, right)[left] == Joined(leader, left, right)[right]
  {}

  /** The merge loops of buildStage. */
  method MergeStage(deps: Dependencies, schedule: seq<nat>, begin: nat, end: nat, parent: array<nat>,
                    member: array<bool>)
    returns (ghost leader: seq<nat>, ghost rank: seq<nat>, ghost top: nat)
    requires Topological(deps, schedule) && begin <= end <= |schedule|
    requires parent.Length == member.Length == |deps|
    requires forall x | 0 <= x < member.Length :: !member[x]
    modifies parent, member
    ensures MembersOk(member[..], schedule, begin, end)
    ensures Forest(parent[..], member[..], leader, rank, top)
    ensures Components(leader, deps, schedule, begin, end)
  {
    leader, rank := MarkStage(deps, schedule, begin, end, parent, member);
    top := 0;
    ghost var members := member[..];
    for k := begin to end
      invariant member[..] == members && |leader| == |deps|
      invariant Forest(parent[..], members, leader, rank, top) && Finest(leader, deps, schedule, begin, end)
      invariant forall j | begin <= j < k :: DependenciesJoined(leader, deps, members, schedule[j], |deps[schedule[j]]|)
    {
      ghost var before := leader;
      leader, rank, top := MergeNode(deps, schedule, begin, end, parent, member, k, leader, rank, top);
      forall j | begin <= j < k ensures DependenciesJoined(leader, deps, members, schedule[j], |deps[schedule[j]]|) {
        assert DependenciesJoined(before, deps, members, schedule[j], |deps[schedule[j]]|);
      }
    }
    forall k, d | begin <= k < end && d in deps[schedule[k]] && d < |leader| && InStage(schedule, begin, end, d)
      ensures leader[schedule[k]] == leader[d]
    {
      assert DependenciesJoined(leader, deps, members, schedule[k], |deps[schedule[k]]|);
    }
  }

  ghost predicate DependenciesJoined(leader: seq<nat>, deps: Dependencies, members: seq<bool>, id: nat, n: nat) {
    && |leader| == |deps| == |members| && id < |deps| && n <= |deps[id]|
    && forall x | 0 <= x < n && deps[id][x] < |deps| && members[deps[id][x]] :: leader[id] == leader[deps[id][x]]
  }

  // ----- Collecting components in schedule order ---------------------------------------

  /** The nodes of one component, in schedule order. */
  function Select(ids: seq<nat>, leader: seq<nat>, r: nat): seq<nat> {
    if ids == [] then []
    else
      var last := |ids| - 1;
      Select(ids[..last], leader, r) + if ids[last] < |leader| && leader[ids[last]] == r then [ids[last]] else []
  }

  function WeightOf(ids: seq<nat>, weights: seq<nat>): nat {
    if ids == [] then 0
    else WeightOf(ids[..|ids| - 1], weights) + if ids[|ids| - 1] < |weights| then weights[ids[|ids| - 1]] else 0
  }

  lemma {:induction false} SelectNone(ids: seq<nat>, leader: seq<nat>, r: nat)
    requires forall k | 0 <= k < |ids| :: ids[k] < |leader| && leader[ids[k]] != r
    ensures Select(ids, leader, r) == []
  {
    if ids != [] { SelectNone(ids[..|ids| - 1], leader, r); }
  }

  lemma {:induction false} SelectMembers(ids: seq<nat>, leader: seq<nat>, r: nat, x: nat)
    ensures x in Select(ids, leader, r) <==> x in ids && x < |leader| && leader[x] == r
  {
    if ids != [] {
      var last := |ids| - 1;
      SelectMembers(ids[..last], leader, r, x);
      assert ids == ids[..last] + [ids[last]];
    }
  }

  /** Selection keeps the order of the schedule. */
  lemma {:induction false} SelectOrder(ids: seq<nat>, leader: seq<nat>, r: nat, a: nat, b: nat) returns (i: nat, j: nat)
    requires a < b < |ids| && ids[a] < |leader| && ids[b] < |leader| && leader[ids[a]] == r && leader[ids[b]] == r
    ensures i < j < |Select(ids, leader, r)|
    ensures Select(ids, leader, r)[i] == ids[a] && Select(ids, leader, r)[j] == ids[b]
    decreases |ids|
  {
    var last := |ids| - 1;
    if b < last {
      i, j := SelectOrder(ids[..last], leader, r, a, b);
    } else {
      SelectMembers(ids[..last], leader, r, ids[a]);
      assert ids[..last][a] == ids[a];
      i :| 0 <= i < |Select(ids[..last], leader, r)| && Select(ids[..last], leader, r)[i] == ids[a];
      j := |Select(ids[..last], leader, r)|;
    }
  }

  lemma {:induction false} SelectDistinct(ids: seq<nat>, leader: seq<nat>, r: nat)
    requires forall i, j | 0 <= i < j < |ids| :: ids[i] != ids[j]
    ensures var s := Select(ids, leader, r); forall i, j | 0 <= i < j < |s| :: s[i] != s[j]
    decreases |ids|
  {
    if ids != [] {
      var last := |ids| - 1;
      SelectDistinct(ids[..last], leader, r);
      SelectMembers(ids[..last], leader, r, ids[last]);
    }
  }

  /** Component c holds exactly the stage nodes with representative reps[c]. */
  ghost predicate Gathered(components: seq<Component>, reps: seq<nat>, ids: seq<nat>, leader: seq<nat>,
                           weights: seq<nat>)
  {
    && |components| == |reps|
    && (forall c, d | 0 <= c < d < |reps| :: reps[c] != reps[d])
    && (forall c | 0 <= c < |reps| ::
          && components[c].values == Select(ids, leader, reps[c])
          && components[c].weight == WeightOf(components[c].values, weights))
    && forall k | 0 <= k < |ids| :: ids[k] < |leader| && leader[ids[k]] in reps
  }

  lemma GatherOne(components: seq<Component>, reps: seq<nat>, ids: seq<nat>, leader: seq<nat>, weights: seq<nat>,
                  id: nat, c: nat)
    requires Gathered(components, reps, ids, leader, weights) && c < |reps|
    requires id < |leader| && leader[id] == reps[c] && id < |weights|
    ensures Gathered(components[c := Component(components[c].values + [id], components[c].weight + weights[id])],
                     reps, ids + [id], leader, weights)
  {
    var next := components[c := Component(components[c].values + [id], components[c].weight + weights[id])];
    forall d | 0 <= d < |reps|
      ensures next[d].values == Select(ids + [id], leader, reps[d])
              && next[d].weight == WeightOf(next[d].values, weights)
    {
      SelectNext(ids, leader, reps[d], id);
      if d == c { WeightNext(components[c].values, id, weights); }
    }
    forall k | 0 <= k < |ids + [id]| ensures (ids + [id])[k] < |leader| && leader[(ids + [id])[k]] in reps {
      if k < |ids| { assert (ids + [id])[k] == ids[k]; }
    }
  }

  lemma SelectNext(ids: seq<nat>, leader: seq<nat>, r: nat, id: nat)
    requires (forall i | 0 <= i < |ids| :: ids[i] < |leader|) && id < |leader|
    ensures Select(ids + [id], leader, r) == if leader[id] == r then Select(ids, leader, r) + [id]
                                             else Select(ids, leader, r)
  {
    assert (ids + [id])[..|ids|] == ids;
  }

  lemma WeightNext(values: seq<nat>, id: nat, weights: seq<nat>)
    ensures WeightOf(values + [id], weights) == WeightOf(values, weights) + if id < |weights| then weights[id] else 0
  {
    assert (values + [id])[..|values|] == values;
  }

  lemma GatherNew(components: seq<Component>, reps: seq<nat>, ids: seq<nat>, leader: seq<nat>, weights: seq<nat>,
                  root: nat)
    requires Gathered(components, reps, ids, leader, weights) && root !in reps
    ensures Gathered(components + [Component([], 0)], reps + [root], ids, leader, weights)
  {
    SelectNone(ids, leader, root);
  }

  /** componentIds: the component of each representative seen so far. */
  ghost predicate Indexes(ids: map<nat, nat>, reps: seq<nat>) {
    && (forall r | r in ids :: ids[r] < |reps| && reps[ids[r]] == r)
    && forall c | 0 <= c < |reps| :: reps[c] in ids
  }

  lemma NewComponent(components: seq<Component>, ids: map<nat, nat>, root: nat, weights: seq<nat>, reps: seq<nat>,
                     earlier: seq<nat>, leader: seq<nat>)
    requires Gathered(components, reps, earlier, leader, weights) && Indexes(ids, reps) && root !in ids
    ensures Gathered(components + [Component([], 0)], reps + [root], earlier, leader, weights)
    ensures Indexes(ids[root := |components|], reps + [root])
  {
    assert forall c | 0 <= c < |reps| :: reps[c] != root;
    GatherNew(components, reps, earlier, leader, weights, root);
  }

  /** Appends a node to the component of its representative. */
  method AddNode(components: seq<Component>, ids: map<nat, nat>, id: nat, root: nat, weights: seq<nat>,
                 ghost reps: seq<nat>, ghost earlier: seq<nat>, ghost leader: seq<nat>)
    returns (components': seq<Component>, ids': map<nat, nat>, ghost reps': seq<nat>)
    requires Gathered(components, reps, earlier, leader, weights) && Indexes(ids, reps)
    requires id < |leader| && leader[id] == root && id < |weights|
    ensures Gathered(components', reps', earlier + [id], leader, weights) && Indexes(ids', reps')
  {
    components', ids', reps' := components, ids, reps;
    if root !in ids {
      NewComponent(components, ids, root, weights, reps, earlier, leader);
      ids' := ids[root := |components|];
      components' := components + [Component([], 0)];
      reps' := reps + [root];
    }
    var c := ids'[root];
    GatherOne(components', reps', earlier, leader, weights, id, c);
    components' := components'[c := Component(components'[c].values + [id], components'[c].weight + weights[id])];
  }

  method Representative(deps: Dependencies, schedule: seq<nat>, begin: nat, end: nat, parent: array<nat>, k: nat,
                        ghost members: seq<bool>, ghost leader: seq<nat>, ghost rank: seq<nat>, ghost top: nat)
    returns (root: nat)
    requires Merging(parent[..], members, leader, rank, top, deps, schedule, begin, end) && begin <= k < end
    modifies parent
    ensures Merging(parent[..], members, leader, rank, top, deps, schedule, begin, end)
    ensures schedule[k] < |leader| && root == leader[schedule[k]]
  {
    assert InStage(schedule, begin, end, schedule[k]);
    assert members[schedule[k]];
    root := Find(parent, schedule[k], members, leader, rank, top);
  }

  method Gather(deps: Dependencies, schedule: seq<nat>, weights: seq<nat>, begin: nat, end: nat, parent: array<nat>,
                ghost members: seq<bool>, ghost leader: seq<nat>, ghost rank: seq<nat>, ghost top: nat)
    returns (components: seq<Component>, ghost reps: seq<nat>)
    requires Merging(parent[..], members, leader, rank, top, deps, schedule, begin, end) && |weights| == |deps|
    modifies parent
    ensures Gathered(components, reps, schedule[begin..end], leader, weights)
  {
    components, reps := [], [];
    var ids: map<nat, nat> := map[];
    ghost var earlier: seq<nat> := [];
    GatherNothing(leader, weights);
    for k := begin to end
      invariant Merging(parent[..], members, leader, rank, top, deps, schedule, begin, end)
      invariant earlier == schedule[begin..k]
      invariant Gathered(components, reps, earlier, leader, weights) && Indexes(ids, reps)
    {
      var id := schedule[k];
      var root := Representative(deps, schedule, begin, end, parent, k, members, leader, rank, top);
      components, ids, reps := AddNode(components, ids, id, root, weights, reps, earlier, leader);
      SliceStep(schedule, begin, k);
      earlier := earlier + [id];
    }
  }

  lemma GatherNothing(leader: seq<nat>, weights: seq<nat>)
    ensures Gathered([], [], [], leader, weights) && Indexes(map[], [])
  {}

  lemma SliceStep(s: seq<nat>, begin: nat, k: nat)
    requires begin <= k < |s|
    ensures s[begin..k + 1] == s[begin..k] + [s[k]]
  {}

  // ----- Longest first -----------------------------------------------------------------------

  /** Stable insertion: behind everything at least as heavy. */
  function Insert(order: seq<nat>, c: nat, weights: seq<nat>): seq<nat>
    requires c < |weights| && forall i | 0 <= i < |order| :: order[i] < |weights|
  {
    if order == [] || weights[order[|order| - 1]] >= weights[c] then order + [c]
    else Insert(order[..|order| - 1], c, weights) + [order[|order| - 1]]
  }

  /** Component indices by decreasing weight, ties in component order. */
  function LongestFirst(weights: seq<nat>, n: nat): (order: seq<nat>)
    requires n <= |weights|
    ensures |order| == n && forall i | 0 <= i < |order| :: order[i] < n
    decreases n
  {
    if n == 0 then []
    else
      var shorter := LongestFirst(weights, n - 1);
      var order := Insert(shorter, n - 1, weights);
      InsertMembers(shorter, n - 1, weights);
      assert forall i | 0 <= i < |order| :: order[i] in order;
      order
  }

  lemma {:induction false} InsertMembers(order: seq<nat>, c: nat, weights: seq<nat>)
    requires c < |weights| && forall i | 0 <= i < |order| :: order[i] < |weights|
    ensures |Insert(order, c, weights)| == |order| + 1
    ensures forall x :: x in Insert(order, c, weights) <==> x == c || x in order
    decreases |order|
  {
    if order != [] {
      var last := |order| - 1;
      assert order == order[..last] + [order[last]];
      if weights[order[last]] < weights[c] { InsertMembers(order[..last], c, weights); }
    }
  }

  ghost predicate OrderedByWeight(order: seq<nat>, weights: seq<nat>) {
    && (forall i | 0 <= i < |order| :: order[i] < |weights|)
    && forall i, j | 0 <= i < j < |order| ::
         weights[order[i]] > weights[order[j]] || (weights[order[i]] == weights[order[j]] && order[i] < order[j])
  }

  lemma {:induction false} InsertKeepsOrder(order: seq<nat>, c: nat, weights: seq<nat>)
    requires c < |weights| && OrderedByWeight(order, weights) && forall i | 0 <= i < |order| :: order[i] < c
    ensures OrderedByWeight(Insert(order, c, weights), weights)
    decreases |order|
  {
    InsertMembers(order, c, weights);
    if order != [] {
      var last := |order| - 1;
      if weights[order[last]] < weights[c] {
        InsertKeepsOrder(order[..last], c, weights);
        InsertMembers(order[..last], c, weights);
        var inserted := Insert(order[..last], c, weights);
        forall i | 0 <= i < |inserted|
          ensures weights[inserted[i]] > weights[order[last]]
                  || (weights[inserted[i]] == weights[order[last]] && inserted[i] < order[last])
        {
          assert inserted[i] in inserted;
          if inserted[i] != c { assert inserted[i] in order[..last]; }
        }
      }
    }
  }

  /** The order is heaviest first and stable, and lists every component once. */
  lemma {:induction false} LongestFirstSorts(weights: seq<nat>, n: nat)
    requires n <= |weights|
    ensures OrderedByWeight(LongestFirst(weights, n), weights)
    ensures forall c: nat | c < n :: c in LongestFirst(weights, n)
    decreases n
  {
    if n > 0 {
      LongestFirstSorts(weights, n - 1);
      InsertKeepsOrder(LongestFirst(weights, n - 1), n - 1, weights);
      InsertMembers(LongestFirst(weights, n - 1), n - 1, weights);
    }
  }
}

/** Packing components onto lanes, cutting the schedule into stages, and the
    plan that results (buildStage and buildPartition in Combs.cpp). */
module CombStages {
  import opened Common
  import opened CombPlan
  import opened LanePacking
  import opened UnionFind
  import opened CombPartition

  // ----- Lane contents ---------------------------------------------------------------

  /** The components of the first `|assignment|` items of `order`, lane by lane. */
  function LaneList(order: seq<nat>, components: seq<Component>, assignment: seq<nat>, lane: nat): seq<nat>
    requires |order| == |assignment| && forall i | 0 <= i < |order| :: order[i] < |components|
  {
    if order == [] then []
    else
      var last := |order| - 1;
      LaneList(order[..last], components, assignment[..last], lane)
      + if assignment[last] == lane then components[order[last]].values else []
  }

  /** Components share no node, none has a node twice, none is listed twice. */
  ghost predicate Separate(order: seq<nat>, components: seq<Component>) {
    && (forall i | 0 <= i < |order| :: order[i] < |components|)
    && (forall i, j | 0 <= i < j < |order| :: order[i] != order[j])
    && (forall c | 0 <= c < |components| :: NoRepeat(components[c].values))
    && forall c, d, x | 0 <= c < |components| && 0 <= d < |components| && x in components[c].values
         && x in components[d].values :: c == d
  }

  ghost predicate NoRepeat(s: seq<nat>) { forall i, j | 0 <= i < j < |s| :: s[i] != s[j] }

  lemma SeparatePrefix(order: seq<nat>, components: seq<Component>, n: nat)
    requires Separate(order, components) && n <= |order|
    ensures Separate(order[..n], components)
  {}

  /** Everything in a lane comes from a component assigned to it. */
  lemma {:induction false} LaneListFrom(order: seq<nat>, components: seq<Component>, assignment: seq<nat>, lane: nat,
                                        x: nat) returns (p: nat)
    requires |order| == |assignment| && (forall i | 0 <= i < |order| :: order[i] < |components|)
    requires x in LaneList(order, components, assignment, lane)
    ensures p < |order| && assignment[p] == lane && x in components[order[p]].values
    decreases |order|
  {
    var last := |order| - 1;
    if assignment[last] == lane && x in components[order[last]].values {
      p := last;
    } else {
      p := LaneListFrom(order[..last], components, assignment[..last], lane, x);
    }
  }

  /** An assigned component appears whole, in order, in its lane. */
  lemma {:induction false} ComponentInLane(order: seq<nat>, components: seq<Component>, assignment: seq<nat>, p: nat)
    returns (off: nat)
    requires |order| == |assignment| && (forall i | 0 <= i < |order| :: order[i] < |components|) && p < |order|
    ensures var l := LaneList(order, components, assignment, assignment[p]);
            var v := components[order[p]].values;
            off + |v| <= |l| && l[off..off + |v|] == v
    decreases |order|
  {
    var last := |order| - 1;
    if p == last {
      off := |LaneList(order[..last], components, assignment[..last], assignment[p])|;
    } else {
      off := ComponentInLane(order[..last], components, assignment[..last], p);
      var before := LaneList(order[..last], components, assignment[..last], assignment[p]);
      var v := components[order[p]].values;
      assert LaneList(order, components, assignment, assignment[p])[off..off + |v|] == before[off..off + |v|];
    }
  }

  /** No node has two places on the lanes. */
  lemma {:induction false} LanesDisjoint(order: seq<nat>, components: seq<Component>, assignment: seq<nat>,
                                        lane: nat, lane': nat, i: nat, i': nat)
    requires Separate(order, components) && |order| == |assignment|
    requires i < |LaneList(order, components, assignment, lane)|
             && i' < |LaneList(order, components, assignment, lane')|
    requires LaneList(order, components, assignment, lane)[i] == LaneList(order, components, assignment, lane')[i']
    ensures lane == lane' && i == i'
    decreases |order|
  {
    var last := |order| - 1;
    var before, before' := LaneList(order[..last], components, assignment[..last], lane),
      LaneList(order[..last], components, assignment[..last], lane');
    var x := LaneList(order, components, assignment, lane)[i];
    SeparatePrefix(order, components, last);
    if i < |before| && i' < |before'| {
      LanesDisjoint(order[..last], components, assignment[..last], lane, lane', i, i');
    } else if i < |before| {
      var p := LaneListFrom(order[..last], components, assignment[..last], lane, before[i]);
    } else if i' < |before'| {
      var p := LaneListFrom(order[..last], components, assignment[..last], lane', before'[i']);
    } else {
      assert NoRepeat(components[order[last]].values);
    }
  }

  // ----- A stage -----------------------------------------------------------------------------

  /** The nodes of the stage, each in one place, dependencies of the stage in
      the same lane and earlier. */
  ghost predicate LanesOk(lanes: seq<seq<nat>>, deps: Dependencies, schedule: seq<nat>, begin: nat, end: nat) {
    && (forall lane, i | 0 <= lane < |lanes| && 0 <= i < |lanes[lane]| ::
          lanes[lane][i] < |deps| && InStage(schedule, begin, end, lanes[lane][i]))
    && (forall k | begin <= k < end && k < |schedule| :: InLanes(lanes, schedule[k]))
    && (forall lane, lane', i, i' | 0 <= lane < |lanes| && 0 <= lane' < |lanes| && 0 <= i < |lanes[lane]|
          && 0 <= i' < |lanes[lane']|
          && lanes[lane][i] == lanes[lane'][i'] :: lane == lane' && i == i')
    && forall lane, i, d | 0 <= lane < |lanes| && 0 <= i < |lanes[lane]| && lanes[lane][i] < |deps|
         && d in deps[lanes[lane][i]]
         && InStage(schedule, begin, end, d) :: EarlierInLane(lanes[lane], d, i)
  }

  ghost predicate InLanes(lanes: seq<seq<nat>>, id: nat) {
    exists lane, i | 0 <= lane < |lanes| && 0 <= i < |lanes[lane]| :: lanes[lane][i] == id
  }

  ghost predicate EarlierInLane(list: seq<nat>, d: nat, i: nat) {
    exists i' | 0 <= i' < i && i' < |list| :: list[i'] == d
  }

  ghost predicate PackedLanes(lanes: seq<seq<nat>>, order: seq<nat>, components: seq<Component>, assignment: seq<nat>) {
    && |order| == |assignment| && (forall i | 0 <= i < |order| :: order[i] < |components|)
    && (forall i | 0 <= i < |assignment| :: assignment[i] < |lanes|)
    && forall lane | 0 <= lane < |lanes| :: lanes[lane] == LaneList(order, components, assignment, lane)
  }

  /** Gathered components are separate. */
  lemma GatheredSeparate(components: seq<Component>, reps: seq<nat>, ids: seq<nat>, leader: seq<nat>, weights: seq<nat>,
                         order: seq<nat>)
    requires Gathered(components, reps, ids, leader, weights) && NoRepeat(ids)
    requires forall i | 0 <= i < |order| :: order[i] < |components|
    requires forall i, j | 0 <= i < j < |order| :: order[i] != order[j]
    ensures Separate(order, components)
  {
    forall c | 0 <= c < |components| ensures NoRepeat(components[c].values) {
      SelectDistinct(ids, leader, reps[c]);
      assert components[c].values == Select(ids, leader, reps[c]) && NoRepeat(Select(ids, leader, reps[c]));
    }
    forall c, d, x | 0 <= c < |components| && 0 <= d < |components| && x in components[c].values
      && x in components[d].values
      ensures c == d
    {
      SelectMembers(ids, leader, reps[c], x);
      SelectMembers(ids, leader, reps[d], x);
    }
  }

  /** A dependency inside the stage lies earlier in the same component. */
  lemma DependencyEarlier(deps: Dependencies, schedule: seq<nat>, begin: nat, end: nat, leader: seq<nat>, r: nat,
                          id: nat, d: nat)
    returns (i: nat, j: nat)
    requires Topological(deps, schedule) && begin <= end <= |schedule| && Respects(leader, deps, schedule, begin, end)
    requires InStage(schedule, begin, end, id) && InStage(schedule, begin, end, d) && id < |deps| && d in deps[id]
             && leader[id] == r
    ensures var v := Select(schedule[begin..end], leader, r); i < j < |v| && v[i] == d && v[j] == id
  {
    var a :| begin <= a < end && a < |schedule| && schedule[a] == id;
    var b :| begin <= b < end && b < |schedule| && schedule[b] == d;
    assert leader[schedule[a]] == leader[d];
    assert b < a;
    var ids := schedule[begin..end];
    assert ids[a - begin] == id && ids[b - begin] == d;
    i, j := SelectOrder(ids, leader, r, b - begin, a - begin);
  }

  lemma {:induction false} StageLanesOk(deps: Dependencies, schedule: seq<nat>, begin: nat, end: nat, leader: seq<nat>,
                                        weights: seq<nat>,
                     components: seq<Component>, reps: seq<nat>, order: seq<nat>, assignment: seq<nat>,
                     lanes: seq<seq<nat>>)
    requires Topological(deps, schedule) && begin <= end <= |schedule| && Components(leader, deps, schedule, begin, end)
    requires Gathered(components, reps, schedule[begin..end], leader, weights)
    requires PackedLanes(lanes, order, components, assignment)
    requires forall i, j | 0 <= i < j < |order| :: order[i] != order[j]
    requires forall c: nat | c < |components| :: c in order
    ensures LanesOk(lanes, deps, schedule, begin, end)
  {
    var ids := schedule[begin..end];
    assert forall i | 0 <= i < |ids| :: ids[i] == schedule[begin + i];
    GatheredSeparate(components, reps, ids, leader, weights, order);
    forall lane, i | 0 <= lane < |lanes| && 0 <= i < |lanes[lane]|
      ensures lanes[lane][i] < |deps| && InStage(schedule, begin, end, lanes[lane][i])
      ensures forall d | lanes[lane][i] < |deps| && d in deps[lanes[lane][i]] && InStage(schedule, begin, end, d) ::
                EarlierInLane(lanes[lane], d, i)
    {
      PlaceOk(deps, schedule, begin, end, leader, weights, components, reps, order, assignment, lanes, lane, i);
    }
    forall k | begin <= k < end ensures InLanes(lanes, schedule[k]) {
      NodePlaced(schedule, begin, end, leader, weights, components, reps, order, assignment, lanes, k);
    }
    forall lane, lane', i, i' | 0 <= lane < |lanes| && 0 <= lane' < |lanes| && 0 <= i < |lanes[lane]|
      && 0 <= i' < |lanes[lane']|
        && lanes[lane][i] == lanes[lane'][i'] ensures lane == lane' && i == i' {
      LanesDisjoint(order, components, assignment, lane, lane', i, i');
    }
  }

  lemma SliceAt(s: seq<nat>, a: nat, b: nat, i: nat)
    requires a <= b <= |s| && i < b - a
    ensures s[a..b][i] == s[a + i]
  {}

  lemma FoundAt(lanes: seq<seq<nat>>, lane: nat, i: nat, id: nat)
    requires lane < |lanes| && i < |lanes[lane]| && lanes[lane][i] == id
    ensures InLanes(lanes, id)
  {}

  /** Every node of the stage is in one of its components. */
  lemma NodeGathered(components: seq<Component>, reps: seq<nat>, ids: seq<nat>, leader: seq<nat>, weights: seq<nat>,
                     k: nat) returns (c: nat)
    requires Gathered(components, reps, ids, leader, weights) && k < |ids|
    ensures c < |components| && ids[k] in components[c].values
  {
    c :| 0 <= c < |reps| && reps[c] == leader[ids[k]];
    SelectMembers(ids, leader, reps[c], ids[k]);
  }

  /** Every node of a listed component is on a lane. */
  lemma ComponentPlaced(components: seq<Component>, order: seq<nat>, assignment: seq<nat>, lanes: seq<seq<nat>>, c: nat,
                        x: nat)
    requires PackedLanes(lanes, order, components, assignment) && c < |components| && c in order
             && x in components[c].values
    ensures InLanes(lanes, x)
  {
    var p :| 0 <= p < |order| && order[p] == c;
    var off := ComponentInLane(order, components, assignment, p);
    var v := components[order[p]].values;
    var i :| 0 <= i < |v| && v[i] == x;
    SliceAt(lanes[assignment[p]], off, off + |v|, i);
    FoundAt(lanes, assignment[p], off + i, x);
  }

  lemma NodePlaced(schedule: seq<nat>, begin: nat, end: nat, leader: seq<nat>, weights: seq<nat>,
                   components: seq<Component>, reps: seq<nat>, order: seq<nat>, assignment: seq<nat>,
                   lanes: seq<seq<nat>>, k: nat)
    requires begin <= k < end <= |schedule|
    requires Gathered(components, reps, schedule[begin..end], leader, weights)
    requires PackedLanes(lanes, order, components, assignment)
    requires forall c: nat | c < |components| :: c in order
    ensures InLanes(lanes, schedule[k])
  {
    var c := NodeGathered(components, reps, schedule[begin..end], leader, weights, k - begin);
    SliceAt(schedule, begin, end, k - begin);
    ComponentPlaced(components, order, assignment, lanes, c, schedule[k]);
  }

  lemma PlaceOk(deps: Dependencies, schedule: seq<nat>, begin: nat, end: nat, leader: seq<nat>, weights: seq<nat>,
                components: seq<Component>, reps: seq<nat>, order: seq<nat>, assignment: seq<nat>, lanes: seq<seq<nat>>,
                lane: nat, i: nat)
    requires Topological(deps, schedule) && begin <= end <= |schedule| && Components(leader, deps, schedule, begin, end)
    requires Gathered(components, reps, schedule[begin..end], leader, weights)
    requires PackedLanes(lanes, order, components, assignment) && Separate(order, components)
    requires lane < |lanes| && i < |lanes[lane]|
    ensures lanes[lane][i] < |deps| && InStage(schedule, begin, end, lanes[lane][i])
    ensures forall d | d in deps[lanes[lane][i]] && InStage(schedule, begin, end, d) :: EarlierInLane(lanes[lane], d, i)
  {
    var ids := schedule[begin..end];
    var x := lanes[lane][i];
    var p := LaneListFrom(order, components, assignment, lane, x);
    var c := order[p];
    SelectMembers(ids, leader, reps[c], x);
    var k :| 0 <= k < |ids| && ids[k] == x;
    SliceAt(schedule, begin, end, k);
    assert schedule[begin + k] == x;
    assert InStage(schedule, begin, end, x);
    forall d | d in deps[x] && InStage(schedule, begin, end, d) ensures EarlierInLane(lanes[lane], d, i) {
      var a, b := DependencyEarlier(deps, schedule, begin, end, leader, reps[c], x, d);
      PairInLane(order, components, assignment, lanes, lane, p, i, a, b);
    }
  }

  /** Two nodes of a component keep their order in its lane. */
  lemma PairInLane(order: seq<nat>, components: seq<Component>, assignment: seq<nat>, lanes: seq<seq<nat>>, lane: nat,
                   p: nat, i: nat, a: nat, b: nat)
    requires PackedLanes(lanes, order, components, assignment) && Separate(order, components)
    requires lane < |lanes| && p < |order| && assignment[p] == lane && i < |lanes[lane]|
    requires a < b < |components[order[p]].values| && components[order[p]].values[b] == lanes[lane][i]
    ensures EarlierInLane(lanes[lane], components[order[p]].values[a], i)
  {
    var off := ComponentInLane(order, components, assignment, p);
    var v := components[order[p]].values;
    assert lanes[lane][off..off + |v|][a] == lanes[lane][off + a];
    assert lanes[lane][off..off + |v|][b] == lanes[lane][off + b];
    LanesDisjoint(order, components, assignment, lane, lane, off + b, i);
  }

  // ----- Packing ---------------------------------------------------------------------------------

  function WeightsInOrder(order: seq<nat>, components: seq<Component>): seq<nat>
    requires forall i | 0 <= i < |order| :: order[i] < |components|
  {
    seq(|order|, i requires 0 <= i < |order| => components[order[i]].weight)
  }

  /** min_element: the first lightest lane. */
  method Lightest(laneWeights: seq<nat>) returns (lane: nat)
    requires |laneWeights| > 0
    ensures lane < |laneWeights| && forall l | 0 <= l < |laneWeights| :: laneWeights[lane] <= laneWeights[l]
    ensures forall l | 0 <= l < lane :: laneWeights[lane] < laneWeights[l]
  {
    lane := 0;
    for l := 1 to |laneWeights|
      invariant lane < l && forall k | 0 <= k < l :: laneWeights[lane] <= laneWeights[k]
      invariant forall k | 0 <= k < lane :: laneWeights[lane] < laneWeights[k]
    {
      if laneWeights[l] < laneWeights[lane] { lane := l; }
    }
  }

  ghost predicate WeighedLanes(laneWeights: seq<nat>, weights: seq<nat>, assignment: seq<nat>) {
    |weights| == |assignment| && forall l | 0 <= l < |laneWeights| :: laneWeights[l] == Load(weights, assignment, l)
  }

  lemma GreedyStep(weights: seq<nat>, assignment: seq<nat>, m: nat, laneWeights: seq<nat>, lane: nat, w: nat)
    requires Greedy(weights, assignment, m) && |laneWeights| == m && lane < m
             && WeighedLanes(laneWeights, weights, assignment)
    requires forall l | 0 <= l < m :: laneWeights[lane] <= laneWeights[l]
    ensures Greedy(weights + [w], assignment + [lane], m)
    ensures WeighedLanes(laneWeights[lane := laneWeights[lane] + w], weights + [w], assignment + [lane])
  {
    var ws, a := weights + [w], assignment + [lane];
    assert ws[..|weights|] == weights && a[..|weights|] == assignment;
    forall i | 0 <= i < |ws| ensures LightestAt(ws, a, m, i) {
      if i < |weights| {
        assert LightestAt(weights, assignment, m, i);
        assert ws[..i] == weights[..i] && a[..i] == assignment[..i];
      }
    }
  }

  lemma PackStep(lanes: seq<seq<nat>>, order: seq<nat>, components: seq<Component>, assignment: seq<nat>, lane: nat,
                 c: nat)
    requires PackedLanes(lanes, order, components, assignment) && lane < |lanes| && c < |components|
    ensures PackedLanes(lanes[lane := lanes[lane] + components[c].values], order + [c], components, assignment + [lane])
  {
    assert (order + [c])[..|order|] == order && (assignment + [lane])[..|order|] == assignment;
  }

  /** The packing loop: components in the given order, each to the lightest lane. */
  method Pack(components: seq<Component>, order: seq<nat>, m: nat)
    returns (lanes: seq<seq<nat>>, laneWeights: seq<nat>, ghost assignment: seq<nat>)
    requires m >= 1 && forall i | 0 <= i < |order| :: order[i] < |components|
    ensures |lanes| == |laneWeights| == m && PackedLanes(lanes, order, components, assignment)
    ensures Greedy(WeightsInOrder(order, components), assignment, m)
    ensures WeighedLanes(laneWeights, WeightsInOrder(order, components), assignment)
  {
    lanes, laneWeights, assignment := seq(m, l => []), seq(m, l => 0), [];
    for i := 0 to |order|
      invariant |lanes| == |laneWeights| == m && PackedLanes(lanes, order[..i], components, assignment)
      invariant Greedy(WeightsInOrder(order[..i], components), assignment, m)
      invariant WeighedLanes(laneWeights, WeightsInOrder(order[..i], components), assignment)
    {
      var c := order[i];
      var lane := Lightest(laneWeights);
      GreedyStep(WeightsInOrder(order[..i], components), assignment, m, laneWeights, lane, components[c].weight);
      PackStep(lanes, order[..i], components, assignment, lane, c);
      lanes := lanes[lane := lanes[lane] + components[c].values];
      laneWeights := laneWeights[lane := laneWeights[lane] + components[c].weight];
      assignment := assignment + [lane];
      assert order[..i + 1] == order[..i] + [c];
      assert WeightsInOrder(order[..i + 1], components)
             == WeightsInOrder(order[..i], components) + [components[c].weight];
    }
    assert order[..|order|] == order;
  }

  // ----- buildStage --------------------------------------------------------------------------------

  function ComponentWeights(components: seq<Component>): seq<nat> {
    seq(|components|, c requires 0 <= c < |components| => components[c].weight)
  }

  /** The evidence that a stage was packed longest first. */
  ghost predicate PackedLongestFirst(stage: Stage, components: seq<Component>, assignment: seq<nat>, m: nat) {
    var order := LongestFirst(ComponentWeights(components), |components|);
    && m >= 1 && |stage.lanes| == |stage.laneWeights| == m && stage.componentCount == |components|
    && Decreasing(WeightsInOrder(order, components))
    && Greedy(WeightsInOrder(order, components), assignment, m)
    && WeighedLanes(stage.laneWeights, WeightsInOrder(order, components), assignment)
  }

  lemma OrderFacts(components: seq<Component>)
    ensures var order := LongestFirst(ComponentWeights(components), |components|);
            && (forall i, j | 0 <= i < j < |order| :: order[i] != order[j])
            && (forall c: nat | c < |components| :: c in order)
            && Decreasing(WeightsInOrder(order, components))
  {
    var weights := ComponentWeights(components);
    var order := LongestFirst(weights, |components|);
    LongestFirstSorts(weights, |components|);
    forall i, j | 0 <= i < j < |order| ensures order[i] != order[j] && weights[order[i]] >= weights[order[j]] {}
  }

  /** buildStage: connected components of the stage, packed longest first. */
  method BuildStage(deps: Dependencies, schedule: seq<nat>, weights: seq<nat>, begin: nat, end: nat, threads: nat)
    returns (stage: Stage, ghost components: seq<Component>, ghost assignment: seq<nat>)
    requires Ready(deps, schedule, weights) && begin <= end <= |schedule| && threads >= 1
    ensures stage.begin == begin && stage.end == end
    ensures LanesOk(stage.lanes, deps, schedule, begin, end)
    ensures PackedLongestFirst(stage, components, assignment, threads)
    ensures PackedLanes(stage.lanes, LongestFirst(ComponentWeights(components), |components|), components, assignment)
    ensures ComponentsOf(components, deps, schedule, weights, begin, end)
  {
    var member := new bool[|deps|](i => false);
    var parent := new nat[|deps|];
    ghost var leader, rank, top := MergeStage(deps, schedule, begin, end, parent, member);
    var gathered;
    ghost var reps;
    gathered, reps := Gather(deps, schedule, weights, begin, end, parent, member[..], leader, rank, top);
    var order := LongestFirst(ComponentWeights(gathered), |gathered|);
    OrderFacts(gathered);
    var lanes, laneWeights;
    lanes, laneWeights, assignment := Pack(gathered, order, threads);
    StageLanesOk(deps, schedule, begin, end, leader, weights, gathered, reps, order, assignment, lanes);
    stage := Stage(begin, end, |gathered|, lanes, laneWeights);
    components := gathered;
    assert ComponentsOf(components, deps, schedule, weights, begin, end);
  }

  /** Exactly the connected components of the stage, with their weights. */
  ghost predicate ComponentsOf(components: seq<Component>, deps: Dependencies, schedule: seq<nat>, weights: seq<nat>,
                               begin: nat, end: nat)
  {
    begin <= end <= |schedule| &&
    exists leader: seq<nat>, reps: seq<nat> :: Components(leader, deps, schedule, begin, end)
                                             && Gathered(components, reps, schedule[begin..end], leader, weights)
  }

  /** The stage packs its connected components longest first. */
  ghost predicate Balanced(stage: Stage, deps: Dependencies, schedule: seq<nat>, weights: seq<nat>, threads: nat) {
    exists components: seq<Component>, assignment: seq<nat> ::
      && ComponentsOf(components, deps, schedule, weights, stage.begin, stage.end)
      && PackedLongestFirst(stage, components, assignment, threads)
      && PackedLanes(stage.lanes, LongestFirst(ComponentWeights(components), |components|), components, assignment)
  }

  /** Graham's bound for a stage: the heaviest lane is at most 4/3 - 1/(3m)
      times that of any other packing of the components onto as many lanes. */
  lemma StageWithinGraham(stage: Stage, components: seq<Component>, assignment: seq<nat>, m: nat, other: seq<nat>,
                          best: nat)
    requires PackedLongestFirst(stage, components, assignment, m)
    requires |other| == |components| && forall c | 0 <= c < |other| :: other[c] < m
    requires forall lane | 0 <= lane < m :: Load(ComponentWeights(components), other, lane) <= best
    ensures forall lane | 0 <= lane < m :: 3 * m * stage.laneWeights[lane] <= (4 * m - 1) * best
  {
    var weights := ComponentWeights(components);
    var order := LongestFirst(weights, |components|);
    var sorted := WeightsInOrder(order, components);
    var other' := seq(|order|, i requires 0 <= i < |order| => other[order[i]]);
    forall lane: nat | lane < m ensures Load(sorted, other', lane) <= best {
      SortedLoad(weights, other, |components|, lane);
      assert sorted == InOrder(order, weights);
      assert weights[..|components|] == weights && other[..|components|] == other;
      assert other' == InOrder(order, other);
    }
    GrahamBound(sorted, assignment, other', m, best);
  }

  function InOrder(order: seq<nat>, values: seq<nat>): seq<nat>
    requires forall i | 0 <= i < |order| :: order[i] < |values|
  {
    seq(|order|, i requires 0 <= i < |order| => values[order[i]])
  }

  /** Sorting the components does not change what a lane carries. */
  lemma {:induction false} SortedLoad(weights: seq<nat>, other: seq<nat>, n: nat, lane: nat)
    requires |weights| == |other| && n <= |weights|
    ensures var order := LongestFirst(weights, n);
            Load(InOrder(order, weights), InOrder(order, other), lane) == Load(weights[..n], other[..n], lane)
    decreases n
  {
    if n > 0 {
      SortedLoad(weights, other, n - 1, lane);
      var shorter := LongestFirst(weights, n - 1);
      InsertLoad(shorter, n - 1, weights, other, lane);
      assert LongestFirst(weights, n) == Insert(shorter, n - 1, weights);
      assert weights[..n][..n - 1] == weights[..n - 1] && other[..n][..n - 1] == other[..n - 1];
    }
  }

  lemma {:induction false} InsertLoad(order: seq<nat>, c: nat, weights: seq<nat>, other: seq<nat>, lane: nat)
    requires |weights| == |other| && c < |weights| && forall i | 0 <= i < |order| :: order[i] < |weights|
    ensures forall i | 0 <= i < |Insert(order, c, weights)| :: Insert(order, c, weights)[i] < |weights|
    ensures Load(InOrder(Insert(order, c, weights), weights), InOrder(Insert(order, c, weights), other), lane) ==
            Load(InOrder(order, weights), InOrder(order, other), lane) + if other[c] == lane then weights[c] else 0
    decreases |order|
  {
    var inserted := Insert(order, c, weights);
    InsertMembers(order, c, weights);
    forall i | 0 <= i < |inserted| ensures inserted[i] < |weights| { assert inserted[i] in inserted; }
    if order == [] || weights[order[|order| - 1]] >= weights[c] {
      AppendLoad(order, c, weights, other, lane);
    } else {
      var last := |order| - 1;
      InsertLoad(order[..last], c, weights, other, lane);
      AppendLoad(Insert(order[..last], c, weights), order[last], weights, other, lane);
      AppendLoad(order[..last], order[last], weights, other, lane);
      assert order == order[..last] + [order[last]];
    }
  }

  lemma AppendLoad(order: seq<nat>, c: nat, weights: seq<nat>, other: seq<nat>, lane: nat)
    requires |weights| == |other| && c < |weights| && forall i | 0 <= i < |order| :: order[i] < |weights|
    ensures Load(InOrder(order + [c], weights), InOrder(order + [c], other), lane) ==
            Load(InOrder(order, weights), InOrder(order, other), lane) + if other[c] == lane then weights[c] else 0
  {
    assert InOrder(order + [c], weights)[..|order|] == InOrder(order, weights);
    assert InOrder(order + [c], other)[..|order|] == InOrder(order, other);
  }

  // ----- buildPartition -------------------------------------------------------------------------------

  function Cumulative(sizes: seq<nat>, schedule: seq<nat>, n: nat): nat
    requires n <= |schedule| && forall i | 0 <= i < |schedule| :: schedule[i] < |sizes|
  {
    if n == 0 then 0 else Cumulative(sizes, schedule, n - 1) + sizes[schedule[n - 1]]
  }

  /** lower_bound on [first, last). */
  method LowerBound(values: seq<nat>, first: nat, last: nat, target: nat) returns (r: nat)
    requires first <= last <= |values|
    requires forall i, j | 0 <= i <= j < |values| :: values[i] <= values[j]
    ensures first <= r <= last
    ensures forall i | first <= i < r :: values[i] < target
    ensures forall i | r <= i < last :: values[i] >= target
  {
    r := first;
    var high := last;
    while r < high
      invariant first <= r <= high <= last
      invariant forall i | first <= i < r :: values[i] < target
      invariant forall i | high <= i < last :: values[i] >= target
    {
      var middle := (r + high) / 2;
      if values[middle] < target { r := middle + 1; } else { high := middle; }
    }
  }

  /** Contiguous stages that start at 0, each laid out on the lanes. */
  ghost predicate StagesOk(stages: seq<Stage>, deps: Dependencies, schedule: seq<nat>, threads: nat, upto: nat) {
    && (if stages == [] then upto == 0 else stages[0].begin == 0 && stages[|stages| - 1].end == upto)
    && (forall s | 0 <= s < |stages| - 1 :: stages[s].end == stages[s + 1].begin)
    && forall s | 0 <= s < |stages| :: StageOk(stages[s], deps, schedule, threads)
  }

  ghost predicate StageOk(stage: Stage, deps: Dependencies, schedule: seq<nat>, threads: nat) {
    && stage.begin <= stage.end <= |schedule| && |stage.lanes| == threads
    && LanesOk(stage.lanes, deps, schedule, stage.begin, stage.end)
  }

  ghost predicate IsHeaviest(weights: seq<nat>, r: nat) {
    r in weights && forall i | 0 <= i < |weights| :: weights[i] <= r
  }

  method Heaviest(weights: seq<nat>) returns (r: nat)
    requires |weights| > 0
    ensures IsHeaviest(weights, r)
  {
    r := weights[0];
    for i := 1 to |weights|
      invariant r in weights && forall k | 0 <= k < i :: weights[k] <= r
    {
      if weights[i] > r { r := weights[i]; }
    }
  }

  /** A stage ends at the first position whose prefix weight reaches its share
      of the total, as far as every later stage still gets a position. */
  ghost predicate CutOk(cumulative: seq<nat>, stage: Stage, s: nat, stageCount: nat)
    requires |cumulative| > 0 && s < stageCount
  {
    if s + 1 == stageCount then stage.end == |cumulative| - 1
    else
      var target := ShareOf(cumulative[|cumulative| - 1], s + 1, stageCount);
      var last := |cumulative| - (stageCount - s - 1);
      && stage.begin + 1 <= stage.end <= last
      && (forall i | stage.begin + 1 <= i < stage.end && i < |cumulative| :: cumulative[i] < target)
      && forall i | stage.end <= i < last && i < |cumulative| :: cumulative[i] >= target
  }

  /** What stage `k` of a partition has to be: cut at its share, packed longest
      first, laid out on the lanes, with this heaviest lane. */
  ghost predicate StageBuilt(s: Stage, k: nat, heaviest: nat, deps: Dependencies, schedule: seq<nat>, weights: seq<nat>,
                             cumulative: seq<nat>,
                             stageCount: nat, threads: nat)
  {
    && k < stageCount && |cumulative| == |schedule| + 1 && StageOk(s, deps, schedule, threads)
    && CutOk(cumulative, s, k, stageCount) && Balanced(s, deps, schedule, weights, threads)
    && IsHeaviest(s.laneWeights, heaviest)
  }

  ghost function StageTest(deps: Dependencies, schedule: seq<nat>, weights: seq<nat>, cumulative: seq<nat>,
                           stageCount: nat, threads: nat): (Stage, nat, nat) -> bool
  {
    (s: Stage, k: nat, heaviest: nat) =>
      StageBuilt(s, k, heaviest, deps, schedule, weights, cumulative, stageCount, threads)
  }

  /** Contiguous stages from 0 to `begin` that all pass the test. */
  ghost predicate Built(stages: seq<Stage>, heaviest: seq<nat>, ok: (Stage, nat, nat) -> bool, begin: nat) {
    && |heaviest| == |stages|
    && (if stages == [] then begin == 0 else stages[0].begin == 0 && stages[|stages| - 1].end == begin)
    && (forall k | 0 <= k < |stages| - 1 :: stages[k].end == stages[k + 1].begin)
    && forall k | 0 <= k < |stages| :: ok(stages[k], k, heaviest[k])
  }

  /** What buildPartition promises for one stage count; the estimated cost is
      that of the heaviest lanes of all stages together. */
  ghost predicate PartitionOk(stages: seq<Stage>, cost: nat, deps: Dependencies, schedule: seq<nat>, weights: seq<nat>,
                              cumulative: seq<nat>,
                              stageCount: nat, threads: nat)
  {
    |stages| == stageCount &&
    exists heaviest: seq<nat> {:trigger Total(heaviest)} :: cost == Total(heaviest)
      && Built(stages, heaviest, StageTest(deps, schedule, weights, cumulative, stageCount, threads), |schedule|)
  }

  lemma BuiltStep(stages: seq<Stage>, heaviest: seq<nat>, ok: (Stage, nat, nat) -> bool, s: Stage, r: nat)
    requires Built(stages, heaviest, ok, s.begin) && ok(s, |stages|, r)
    ensures Built(stages + [s], heaviest + [r], ok, s.end) && Total(heaviest + [r]) == Total(heaviest) + r
  {
    assert (heaviest + [r])[..|heaviest|] == heaviest;
  }

  /** The stages of a partition are contiguous, complete and well laid out. */
  lemma PartitionStages(stages: seq<Stage>, cost: nat, deps: Dependencies, schedule: seq<nat>, weights: seq<nat>,
                        cumulative: seq<nat>,
                        stageCount: nat, threads: nat)
    requires PartitionOk(stages, cost, deps, schedule, weights, cumulative, stageCount, threads)
    ensures StagesOk(stages, deps, schedule, threads, |schedule|)
    ensures forall k | 0 <= k < |stages| :: Balanced(stages[k], deps, schedule, weights, threads)
  {
    var ok := StageTest(deps, schedule, weights, cumulative, stageCount, threads);
    var heaviest: seq<nat> :| cost == Total(heaviest) && Built(stages, heaviest, ok, |schedule|);
    forall k | 0 <= k < |stages|
      ensures StageOk(stages[k], deps, schedule, threads) && Balanced(stages[k], deps, schedule, weights, threads)
    {
      assert ok(stages[k], k, heaviest[k]);
    }
  }

  /** Where the next stage may begin. */
  lemma BuiltRoom(stages: seq<Stage>, heaviest: seq<nat>, deps: Dependencies, schedule: seq<nat>, weights: seq<nat>,
                  cumulative: seq<nat>,
                  stageCount: nat, threads: nat, begin: nat)
    requires Built(stages, heaviest, StageTest(deps, schedule, weights, cumulative, stageCount, threads), begin)
    requires 1 <= stageCount <= |schedule| + 1 && |stages| <= stageCount
    ensures begin <= |schedule| && (|stages| < stageCount ==> begin <= |schedule| + 1 - (stageCount - |stages|))
    ensures |stages| == stageCount ==> begin == |schedule|
  {
    if stages != [] {
      var k := |stages| - 1;
      assert StageTest(deps, schedule, weights, cumulative, stageCount, threads)(stages[k], k, heaviest[k]);
    }
  }

  function ShareOf(total: nat, part: nat, count: nat): nat
    requires count > 0
  {
    Share(total * part, count)
  }

  /** buildPartition: stages cut at equal shares of the prefix weight. */
  method BuildPartition(deps: Dependencies, schedule: seq<nat>, weights: seq<nat>, cumulative: seq<nat>,
                        stageCount: nat, threads: nat)
    returns (stages: seq<Stage>, cost: nat)
    requires Ready(deps, schedule, weights) && threads >= 1 && 1 <= stageCount <= |schedule| + 1
    requires |cumulative| == |schedule| + 1
             && forall i, j | 0 <= i <= j < |cumulative| :: cumulative[i] <= cumulative[j]
    ensures PartitionOk(stages, cost, deps, schedule, weights, cumulative, stageCount, threads)
  {
    stages, cost := [], 0;
    var begin: nat := 0;
    ghost var heaviest: seq<nat>, ok := [], StageTest(deps, schedule, weights, cumulative, stageCount, threads);
    for stage := 0 to stageCount
      invariant |stages| == stage && Built(stages, heaviest, ok, begin) && cost == Total(heaviest)
    {
      BuiltRoom(stages, heaviest, deps, schedule, weights, cumulative, stageCount, threads, begin);
      var built, r := NextStage(stage, deps, schedule, weights, cumulative, stageCount, threads, begin);
      assert ok(built, stage, r);
      BuiltStep(stages, heaviest, ok, built, r);
      stages, cost, begin := stages + [built], cost + r, built.end;
      heaviest := heaviest + [r];
    }
    BuiltRoom(stages, heaviest, deps, schedule, weights, cumulative, stageCount, threads, begin);
  }

  /** One stage, cut at its share of the prefix weight. */
  method NextStage(stage: nat, deps: Dependencies, schedule: seq<nat>, weights: seq<nat>, cumulative: seq<nat>,
                   stageCount: nat, threads: nat, begin: nat) returns (built: Stage, heaviest: nat)
    requires Ready(deps, schedule, weights) && threads >= 1 && stage < stageCount <= |schedule| + 1
    requires begin <= |schedule| + 1 - (stageCount - stage) && begin <= |schedule|
    requires |cumulative| == |schedule| + 1
             && forall i, j | 0 <= i <= j < |cumulative| :: cumulative[i] <= cumulative[j]
    ensures built.begin == begin
            && StageBuilt(built, stage, heaviest, deps, schedule, weights, cumulative, stageCount, threads)
  {
    var end := |schedule|;
    if stage + 1 != stageCount {
      var target := ShareOf(cumulative[|schedule|], stage + 1, stageCount);
      end := LowerBound(cumulative, begin + 1, |cumulative| - (stageCount - stage - 1), target);
    }
    ghost var components, assignment;
    built, components, assignment := BuildStage(deps, schedule, weights, begin, end, threads);
    heaviest := Heaviest(built.laneWeights);
    assert Balanced(built, deps, schedule, weights, threads);
  }

  function LanesOf(stages: seq<Stage>): seq<seq<seq<nat>>> {
    seq(|stages|, s requires 0 <= s < |stages| => stages[s].lanes)
  }

  lemma {:induction false} StagesAscend(stages: seq<Stage>, deps: Dependencies, schedule: seq<nat>, threads: nat,
                                        s: nat, s': nat)
    requires StagesOk(stages, deps, schedule, threads, |schedule|) && s < s' < |stages|
    ensures stages[s].end <= stages[s'].begin
    decreases s'
  {
    assert StageOk(stages[s' - 1], deps, schedule, threads);
    if s < s' - 1 { StagesAscend(stages, deps, schedule, threads, s, s' - 1); }
  }

  lemma {:induction false} StageOfIndex(stages: seq<Stage>, deps: Dependencies, schedule: seq<nat>, threads: nat,
                                        n: nat, k: nat) returns (s: nat)
    requires StagesOk(stages, deps, schedule, threads, |schedule|) && 0 < n <= |stages| && k < stages[n - 1].end
    ensures s < n && stages[s].begin <= k < stages[s].end
    decreases n
  {
    if k >= stages[n - 1].begin { s := n - 1; } else { s := StageOfIndex(stages, deps, schedule, threads, n - 1, k); }
  }

  /** A node of stage s has its schedule index inside the stage. */
  lemma IndexInStage(stages: seq<Stage>, deps: Dependencies, schedule: seq<nat>, threads: nat, s: nat, lane: nat,
                     i: nat) returns (k: nat)
    requires Topological(deps, schedule) && StagesOk(stages, deps, schedule, threads, |schedule|) && s < |stages|
    requires lane < |stages[s].lanes| && i < |stages[s].lanes[lane]|
    ensures stages[s].begin <= k < stages[s].end && k < |schedule| && schedule[k] == stages[s].lanes[lane][i]
  {
    assert StageOk(stages[s], deps, schedule, threads);
    assert InStage(schedule, stages[s].begin, stages[s].end, stages[s].lanes[lane][i]);
    k :| stages[s].begin <= k < stages[s].end && k < |schedule| && schedule[k] == stages[s].lanes[lane][i];
  }

  /** Stages laid out this way are a valid plan: every index covered once, no
      dependency across lanes of a stage, lane order follows the schedule. */
  lemma StagesMakePlan(stages: seq<Stage>, deps: Dependencies, schedule: seq<nat>, threads: nat)
    requires Topological(deps, schedule) && 1 <= |stages| <= 8 && threads >= 1
    requires StagesOk(stages, deps, schedule, threads, |schedule|)
    ensures PlanOk(Plan(threads, LanesOf(stages)), deps, schedule)
  {
    var p := Plan(threads, LanesOf(stages));
    forall s | 0 <= s < |p.stages| ensures |p.stages[s]| == p.lanes {
      assert StageOk(stages[s], deps, schedule, threads);
    }
    forall s: nat, lane: nat, i: nat | At(p, s, lane, i)
      ensures p.stages[s][lane][i] in schedule
      ensures forall d | d in deps[p.stages[s][lane][i]] :: DependencyBefore(p, d, s, lane, i)
    {
      var k := IndexInStage(stages, deps, schedule, threads, s, lane, i);
      forall d, s', lane', i' | d in deps[p.stages[s][lane][i]] && Holds(p, d, s', lane', i')
        ensures Before(s', lane', i', s, lane, i)
      {
        DependencyPlace(stages, deps, schedule, threads, s, lane, i, s', lane', i');
      }
    }
    forall k | 0 <= k < |schedule| ensures Placed(p, schedule[k]) {
      var s := StageOfIndex(stages, deps, schedule, threads, |stages|, k);
      assert StageOk(stages[s], deps, schedule, threads);
      assert InLanes(stages[s].lanes, schedule[k]);
      var lane: nat, i: nat :| lane < |stages[s].lanes| && i < |stages[s].lanes[lane]|
                               && stages[s].lanes[lane][i] == schedule[k];
      assert Holds(p, schedule[k], s, lane, i);
    }
    forall id, s, lane, i, s', lane', i' | Holds(p, id, s, lane, i) && Holds(p, id, s', lane', i')
      ensures s == s' && lane == lane' && i == i'
    {
      OneStagePlace(stages, deps, schedule, threads, s, lane, i, s', lane', i');
    }
  }

  lemma OneStagePlace(stages: seq<Stage>, deps: Dependencies, schedule: seq<nat>, threads: nat,
                      s: nat, lane: nat, i: nat, s': nat, lane': nat, i': nat)
    requires Topological(deps, schedule) && StagesOk(stages, deps, schedule, threads, |schedule|)
    requires s < |stages| && lane < |stages[s].lanes| && i < |stages[s].lanes[lane]|
    requires s' < |stages| && lane' < |stages[s'].lanes| && i' < |stages[s'].lanes[lane']|
    requires stages[s].lanes[lane][i] == stages[s'].lanes[lane'][i']
    ensures s == s' && lane == lane' && i == i'
  {
    var k := IndexInStage(stages, deps, schedule, threads, s, lane, i);
    var k' := IndexInStage(stages, deps, schedule, threads, s', lane', i');
    assert k == k';
    if s < s' {
      StagesAscend(stages, deps, schedule, threads, s, s');
    } else if s' < s {
      StagesAscend(stages, deps, schedule, threads, s', s);
    } else {
      assert StageOk(stages[s], deps, schedule, threads);
    }
  }

  lemma DependencyPlace(stages: seq<Stage>, deps: Dependencies, schedule: seq<nat>, threads: nat,
                        s: nat, lane: nat, i: nat, s': nat, lane': nat, i': nat)
    requires Topological(deps, schedule) && StagesOk(stages, deps, schedule, threads, |schedule|)
    requires s < |stages| && lane < |stages[s].lanes| && i < |stages[s].lanes[lane]|
    requires s' < |stages| && lane' < |stages[s'].lanes| && i' < |stages[s'].lanes[lane']|
    requires stages[s].lanes[lane][i] < |deps| && stages[s'].lanes[lane'][i'] in deps[stages[s].lanes[lane][i]]
    ensures Before(s', lane', i', s, lane, i)
  {
    var d := stages[s'].lanes[lane'][i'];
    var k := IndexInStage(stages, deps, schedule, threads, s, lane, i);
    var k' := IndexInStage(stages, deps, schedule, threads, s', lane', i');
    assert k' < k;
    if s < s' {
      StagesAscend(stages, deps, schedule, threads, s, s');
    } else if s == s' {
      assert StageOk(stages[s], deps, schedule, threads);
      assert InStage(schedule, stages[s].begin, stages[s].end, d);
      assert EarlierInLane(stages[s].lanes[lane], d, i);
      var j :| 0 <= j < i && j < |stages[s].lanes[lane]| && stages[s].lanes[lane][j] == d;
      OneStagePlace(stages, deps, schedule, threads, s, lane, j, s', lane', i');
    }
  }

  // ----- The chosen partition ---------------------------------------------------------------------------

  const MAX_STAGES := 8

  lemma {:induction false} CumulativeMonotone(weights: seq<nat>, schedule: seq<nat>, i: nat, j: nat)
    requires i <= j <= |schedule| && forall k | 0 <= k < |schedule| :: schedule[k] < |weights|
    ensures Cumulative(weights, schedule, i) <= Cumulative(weights, schedule, j)
    decreases j
  {
    if i < j { CumulativeMonotone(weights, schedule, i, j - 1); }
  }

  method PrefixWeights(sizes: seq<nat>, schedule: seq<nat>) returns (weights: seq<nat>, cumulative: seq<nat>)
    requires forall i | 0 <= i < |schedule| :: schedule[i] < |sizes|
    ensures |weights| == |sizes| && forall i | 0 <= i < |sizes| :: weights[i] == if sizes[i] < 1 then 1 else sizes[i]
    ensures |cumulative| == |schedule| + 1 && forall i, j | 0 <= i <= j < |cumulative| :: cumulative[i] <= cumulative[j]
    ensures forall n | 0 <= n <= |schedule| :: cumulative[n] == Cumulative(weights, schedule, n)
  {
    weights := seq(|sizes|, i requires 0 <= i < |sizes| => if sizes[i] < 1 then 1 else sizes[i]);
    cumulative := [0];
    for position := 0 to |schedule|
      invariant |cumulative| == position + 1
      invariant forall n | 0 <= n <= position :: cumulative[n] == Cumulative(weights, schedule, n)
    {
      CumulativeNext(weights, schedule, cumulative, position);
      cumulative := cumulative + [cumulative[position] + weights[schedule[position]]];
    }
    CumulativeSorted(weights, schedule, cumulative);
  }

  lemma CumulativeNext(weights: seq<nat>, schedule: seq<nat>, cumulative: seq<nat>, position: nat)
    requires position < |schedule| && |cumulative| == position + 1
             && forall k | 0 <= k < |schedule| :: schedule[k] < |weights|
    requires forall n | 0 <= n <= position :: cumulative[n] == Cumulative(weights, schedule, n)
    ensures var next := cumulative + [cumulative[position] + weights[schedule[position]]];
            forall n | 0 <= n <= position + 1 :: next[n] == Cumulative(weights, schedule, n)
  {
    var next := cumulative + [cumulative[position] + weights[schedule[position]]];
    forall n | 0 <= n <= position + 1 ensures next[n] == Cumulative(weights, schedule, n) {
      if n <= position { assert next[n] == cumulative[n]; } else { assert n - 1 == position; }
    }
  }

  lemma CumulativeSorted(weights: seq<nat>, schedule: seq<nat>, cumulative: seq<nat>)
    requires |cumulative| == |schedule| + 1 && forall k | 0 <= k < |schedule| :: schedule[k] < |weights|
    requires forall n | 0 <= n <= |schedule| :: cumulative[n] == Cumulative(weights, schedule, n)
    ensures forall i, j | 0 <= i <= j < |cumulative| :: cumulative[i] <= cumulative[j]
  {
    forall i, j | 0 <= i <= j < |cumulative| ensures cumulative[i] <= cumulative[j] {
      CumulativeMonotone(weights, schedule, i, j);
    }
  }

  /** Half a traversal, at least one. */
  function Penalty(total: nat): nat { if total / 2 < 1 then 1 else total / 2 }

  /** One penalty for every barrier between stages. */
  function Penalties(total: nat, barriers: nat): nat {
    if barriers == 0 then 0 else Penalty(total) + Penalties(total, barriers - 1)
  }

  lemma {:induction false} PenaltiesMultiply(total: nat, barriers: nat)
    ensures Penalties(total, barriers) == Penalty(total) * barriers
  {
    if barriers > 0 { PenaltiesMultiply(total, barriers - 1); }
  }

  function Score(cost: nat, total: nat, stageCount: nat): nat
    requires stageCount >= 1
  {
    cost + Penalties(total, stageCount - 1)
  }

  /** Every stage count up to `n` was built, and the chosen one scores best; of
      equally good ones the smallest is chosen. */
  ghost predicate BestOf(chosen: nat, costs: seq<nat>, total: nat) {
    && 1 <= chosen <= |costs|
    && (forall k | 0 <= k < |costs| :: Score(costs[chosen - 1], total, chosen) <= Score(costs[k], total, k + 1))
    && forall k | 0 <= k < chosen - 1 :: Score(costs[chosen - 1], total, chosen) < Score(costs[k], total, k + 1)
  }

  lemma NextCandidate(chosen: nat, costs: seq<nat>, cost: nat, total: nat)
    requires BestOf(chosen, costs, total)
    ensures var k := |costs| + 1;
            BestOf(if Score(cost, total, k) < Score(costs[chosen - 1], total, chosen) then k
                   else chosen, costs + [cost], total)
  {}

  /** The stage counts that are tried: more than one only if threads can help. */
  function CandidateCount(threads: nat, length: nat): nat {
    if threads > 1 && length > threads then (if MAX_STAGES < length then MAX_STAGES else length) else 1
  }

  /** What choosing looked at: a partition for each stage count with its cost,
      and the chosen stage count. */
  datatype Trial = Trial(candidates: seq<seq<Stage>>, costs: seq<nat>, chosen: nat)

  /** Adds a candidate, chosen if it scores better than all before. */
  ghost function WithCandidate(t: Trial, total: nat, candidate: seq<Stage>, cost: nat): Trial
    requires 1 <= t.chosen <= |t.costs|
  {
    var k := |t.costs| + 1;
    Trial(t.candidates + [candidate], t.costs + [cost],
          if Score(cost, total, k) < Score(t.costs[t.chosen - 1], total, t.chosen) then k else t.chosen)
  }

  /** The best of the first `n` stage counts, with its score. */
  ghost predicate Leading(stages: seq<Stage>, bestScore: nat, t: Trial, n: nat, ok: (seq<Stage>, nat, nat) -> bool,
                          total: nat)
  {
    && Tried(t, ok, total) && |t.costs| == n
    && stages == t.candidates[t.chosen - 1] && bestScore == Score(t.costs[t.chosen - 1], total, t.chosen)
  }

  ghost predicate PrefixesFit(schedule: seq<nat>, cumulative: seq<nat>) {
    |cumulative| == |schedule| + 1 && forall i, j | 0 <= i <= j < |cumulative| :: cumulative[i] <= cumulative[j]
  }

  /** The partition whose estimated cost plus barrier penalty is least. */
  method BestPartition(deps: Dependencies, schedule: seq<nat>, weights: seq<nat>, cumulative: seq<nat>, threads: nat)
    returns (stages: seq<Stage>, bestScore: nat, ghost t: Trial)
    requires Ready(deps, schedule, weights) && threads >= 1 && PrefixesFit(schedule, cumulative)
    ensures Leading(stages, bestScore, t, CandidateCount(threads, |schedule|),
                    PartitionTest(deps, schedule, weights, cumulative, threads), cumulative[|schedule|])
  {
    stages, bestScore, t := FirstCount(deps, schedule, weights, cumulative, threads);
    if threads > 1 && |schedule| > threads {
      var maximum := if MAX_STAGES < |schedule| then MAX_STAGES else |schedule|;
      for stageCount := 2 to maximum + 1
        invariant Leading(stages, bestScore, t, stageCount - 1,
                          PartitionTest(deps, schedule, weights, cumulative, threads), cumulative[|schedule|])
      {
        stages, bestScore,
        t := TryCount(deps, schedule, weights, cumulative, stageCount, threads, stages, bestScore, t);
      }
    }
  }

  /** The undivided schedule. */
  method FirstCount(deps: Dependencies, schedule: seq<nat>, weights: seq<nat>, cumulative: seq<nat>, threads: nat)
    returns (stages: seq<Stage>, bestScore: nat, ghost t: Trial)
    requires Ready(deps, schedule, weights) && threads >= 1 && PrefixesFit(schedule, cumulative)
    ensures Leading(stages, bestScore, t, 1, PartitionTest(deps, schedule, weights, cumulative, threads),
                    cumulative[|schedule|])
  {
    stages, bestScore := BuildPartition(deps, schedule, weights, cumulative, 1, threads);
    t := Trial([stages], [bestScore], 1);
    FirstPartition(deps, schedule, weights, cumulative, threads, cumulative[|schedule|], stages, bestScore);
  }

  lemma FirstPartition(deps: Dependencies, schedule: seq<nat>, weights: seq<nat>, cumulative: seq<nat>, threads: nat,
                       total: nat,
                       stages: seq<Stage>, cost: nat)
    requires PartitionOk(stages, cost, deps, schedule, weights, cumulative, 1, threads)
    ensures Leading(stages, cost, Trial([stages], [cost], 1), 1,
                    PartitionTest(deps, schedule, weights, cumulative, threads), total)
  {
    var ok := PartitionTest(deps, schedule, weights, cumulative, threads);
    assert ok(stages, cost, 1);
    FirstTrial(ok, stages, cost, total);
  }

  /** One more stage count, kept if it scores better. */
  method TryCount(deps: Dependencies, schedule: seq<nat>, weights: seq<nat>, cumulative: seq<nat>, stageCount: nat,
                  threads: nat,
                  stages: seq<Stage>, bestScore: nat, ghost t: Trial)
    returns (stages': seq<Stage>, bestScore': nat, ghost t': Trial)
    requires Ready(deps, schedule, weights) && threads >= 1 && 1 < stageCount <= |schedule| + 1
             && PrefixesFit(schedule, cumulative)
    requires Leading(stages, bestScore, t, stageCount - 1, PartitionTest(deps, schedule, weights, cumulative, threads),
                     cumulative[|schedule|])
    ensures Leading(stages', bestScore', t', stageCount, PartitionTest(deps, schedule, weights, cumulative, threads),
                    cumulative[|schedule|])
  {
    var total := cumulative[|schedule|];
    var candidate, estimate := BuildPartition(deps, schedule, weights, cumulative, stageCount, threads);
    var score := Score(estimate, total, stageCount);
    t' := TriedPartition(t, deps, schedule, weights, cumulative, threads, total, candidate, estimate, stageCount,
                         stages, bestScore);
    if score < bestScore {
      bestScore', stages' := score, candidate;
    } else {
      bestScore', stages' := bestScore, stages;
    }
  }

  lemma TriedPartition(t: Trial, deps: Dependencies, schedule: seq<nat>, weights: seq<nat>, cumulative: seq<nat>,
                       threads: nat, total: nat,
                       candidate: seq<Stage>, cost: nat, count: nat, stages: seq<Stage>, best: nat)
    returns (next: Trial)
    requires count >= 2
             && Leading(stages, best, t, count - 1, PartitionTest(deps, schedule, weights, cumulative, threads), total)
    requires PartitionOk(candidate, cost, deps, schedule, weights, cumulative, count, threads)
    ensures var score := Score(cost, total, count);
            Leading(if score < best then candidate else stages, if score < best then score else best, next, count,
                    PartitionTest(deps, schedule, weights, cumulative, threads), total)
  {
    var ok := PartitionTest(deps, schedule, weights, cumulative, threads);
    assert ok(candidate, cost, count);
    TriedNext(t, ok, total, candidate, cost);
    next := WithCandidate(t, total, candidate, cost);
  }

  /** The plan has a lane for each requested thread as far as there are nodes, and
      the stages of the best partition over the weights of the schedule. */
  ghost predicate ChosenFrom(p: Plan, deps: Dependencies, schedule: seq<nat>, sizes: seq<nat>, threadCount: nat,
                             weights: seq<nat>, cumulative: seq<nat>, t: Trial)
  {
    && p.lanes == (if |schedule| == 0 then 1 else if threadCount < |schedule| then threadCount else |schedule|)
    && |weights| == |sizes| && (forall i | 0 <= i < |sizes| :: weights[i] == if sizes[i] < 1 then 1 else sizes[i])
    && PrefixSums(weights, schedule, cumulative)
    && |t.candidates| == (if p.lanes <= 1 || |schedule| <= p.lanes then 1 else if |schedule| < 8 then |schedule| else 8)
    && Tried(t, PartitionTest(deps, schedule, weights, cumulative, p.lanes), cumulative[|schedule|])
    && p.stages == LanesOf(t.candidates[t.chosen - 1])
  }

  ghost predicate Chosen(p: Plan, deps: Dependencies, schedule: seq<nat>, sizes: seq<nat>, threadCount: nat) {
    exists weights, cumulative, t :: ChosenFrom(p, deps, schedule, sizes, threadCount, weights, cumulative, t)
  }

  /** The best partition, as a correct plan for the requested threads. */
  method ChoosePlan(deps: Dependencies, schedule: seq<nat>, sizes: seq<nat>, threadCount: nat) returns (p: Plan)
    requires Topological(deps, schedule) && |sizes| == |deps| && threadCount >= 1
    ensures PlanOk(p, deps, schedule) && Chosen(p, deps, schedule, sizes, threadCount)
  {
    var nodeWeights, sums := PrefixWeights(sizes, schedule);
    var atMost := if |schedule| == 0 then 1 else |schedule|;
    var threads := if threadCount < atMost then threadCount else atMost;
    var stages;
    ghost var bestScore, t;
    stages, bestScore, t := BestPartition(deps, schedule, nodeWeights, sums, threads);
    ChosenBuilt(t, deps, schedule, nodeWeights, sums, threads, sums[|schedule|]);
    StagesMakePlan(stages, deps, schedule, threads);
    p := Plan(threads, LanesOf(stages));
    assert ChosenFrom(p, deps, schedule, sizes, threadCount, nodeWeights, sums, t);
  }

  /** What every candidate has to be, as a test on stages, cost and stage count. */
  ghost function PartitionTest(deps: Dependencies, schedule: seq<nat>, weights: seq<nat>, cumulative: seq<nat>,
                               threads: nat): (seq<Stage>, nat, nat) -> bool
  {
    (stages: seq<Stage>, cost: nat, count: nat) =>
      PartitionOk(stages, cost, deps, schedule, weights, cumulative, count, threads)
  }

  /** The partitions with 1, 2, ... stages and the best of them. */
  ghost predicate Tried(t: Trial, ok: (seq<Stage>, nat, nat) -> bool, total: nat) {
    && |t.candidates| == |t.costs| && BestOf(t.chosen, t.costs, total)
    && forall k | 0 <= k < |t.costs| :: ok(t.candidates[k], t.costs[k], k + 1)
  }

  lemma FirstTrial(ok: (seq<Stage>, nat, nat) -> bool, stages: seq<Stage>, cost: nat, total: nat)
    requires ok(stages, cost, 1)
    ensures Tried(Trial([stages], [cost], 1), ok, total)
  {}

  lemma TriedNext(t: Trial, ok: (seq<Stage>, nat, nat) -> bool, total: nat, candidate: seq<Stage>, cost: nat)
    requires Tried(t, ok, total) && ok(candidate, cost, |t.costs| + 1)
    ensures var next := WithCandidate(t, total, candidate, cost);
            var better := Score(cost, total, |t.costs| + 1) < Score(t.costs[t.chosen - 1], total, t.chosen);
            && Tried(next, ok, total)
            && next.candidates[next.chosen - 1] == (if better then candidate else t.candidates[t.chosen - 1])
            && Score(next.costs[next.chosen - 1], total, next.chosen)
               == (if better then Score(cost, total, |t.costs| + 1) else Score(t.costs[t.chosen - 1], total, t.chosen))
  {
    NextCandidate(t.chosen, t.costs, cost, total);
  }

  /** The chosen stages cover the schedule. */
  lemma ChosenBuilt(t: Trial, deps: Dependencies, schedule: seq<nat>, weights: seq<nat>, cumulative: seq<nat>,
                    threads: nat, total: nat)
    requires Tried(t, PartitionTest(deps, schedule, weights, cumulative, threads), total)
    ensures var stages := t.candidates[t.chosen - 1];
            |stages| == t.chosen && StagesOk(stages, deps, schedule, threads, |schedule|)
  {
    var k := t.chosen - 1;
    assert PartitionTest(deps, schedule, weights, cumulative, threads)(t.candidates[k], t.costs[k], k + 1);
    PartitionStages(t.candidates[k], t.costs[k], deps, schedule, weights, cumulative, k + 1, threads);
  }

  /** cumulativeWeights: the weights of schedule prefixes. */
  ghost predicate PrefixSums(weights: seq<nat>, schedule: seq<nat>, cumulative: seq<nat>) {
    && |cumulative| == |schedule| + 1 && (forall i | 0 <= i < |schedule| :: schedule[i] < |weights|)
    && forall n | 0 <= n <= |schedule| :: cumulative[n] == Cumulative(weights, schedule, n)
  }
}

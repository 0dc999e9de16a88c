/** What the cost of a partition in CombStages bounds, and what the barrier
    penalty allows to be chosen. */
module CombStageCosts {
  import opened Common
  import opened CombPlan
  import opened LanePacking
  import opened CombPartition
  import opened CombStages

  // ----- The weight of a stage ----------------------------------------------------------------

  /** The weights of the components, from the nodes they select. */
  ghost function SelectedWeights(reps: seq<nat>, ids: seq<nat>, leader: seq<nat>, weights: seq<nat>): (r: seq<nat>)
    ensures |r| == |reps|
  {
    seq(|reps|, c requires 0 <= c < |reps| => WeightOf(Select(ids, leader, reps[c]), weights))
  }

  lemma WeightAppend(ids: seq<nat>, id: nat, weights: seq<nat>)
    requires id < |weights|
    ensures WeightOf(ids + [id], weights) == WeightOf(ids, weights) + weights[id]
  {
    assert (ids + [id])[..|ids|] == ids;
  }

  /** One more node is selected by the component it belongs to. */
  lemma SelectOne(ids: seq<nat>, leader: seq<nat>, r: nat, id: nat)
    requires id < |leader|
    ensures Select(ids + [id], leader, r) == if leader[id] == r then Select(ids, leader, r) + [id]
                                             else Select(ids, leader, r)
  {
    assert (ids + [id])[..|ids|] == ids;
  }

  lemma {:induction false} TotalUpdate(weights: seq<nat>, c: nat, w: nat)
    requires c < |weights|
    ensures Total(weights[c := weights[c] + w]) == Total(weights) + w
  {
    var last := |weights| - 1;
    if c == last {
      assert weights[c := weights[c] + w][..last] == weights[..last];
    } else {
      TotalUpdate(weights[..last], c, w);
      assert weights[c := weights[c] + w][..last] == weights[..last][c := weights[c] + w];
    }
  }

  lemma SelectedAt(ids: seq<nat>, leader: seq<nat>, weights: seq<nat>, r: nat, id: nat)
    requires id < |leader| && id < |weights|
    ensures WeightOf(Select(ids + [id], leader, r), weights)
         == WeightOf(Select(ids, leader, r), weights) + if leader[id] == r then weights[id] else 0
  {
    SelectOne(ids, leader, r, id);
    if leader[id] == r { WeightAppend(Select(ids, leader, r), id, weights); }
  }

  lemma SelectedUpdates(reps: seq<nat>, ids: seq<nat>, leader: seq<nat>, weights: seq<nat>, c: nat, id: nat)
    requires c < |reps| && (forall a, b | 0 <= a < b < |reps| :: reps[a] != reps[b])
    requires id < |leader| && id < |weights| && leader[id] == reps[c]
    ensures var before := SelectedWeights(reps, ids, leader, weights);
            SelectedWeights(reps, ids + [id], leader, weights) == before[c := before[c] + weights[id]]
  {
    var before, after := SelectedWeights(reps, ids, leader, weights),
      SelectedWeights(reps, ids + [id], leader, weights);
    forall i | 0 <= i < |reps| ensures after[i] == if i == c then before[i] + weights[id] else before[i] {
      SelectedAt(ids, leader, weights, reps[i], id);
    }
  }

  lemma SelectedNext(reps: seq<nat>, ids: seq<nat>, leader: seq<nat>, weights: seq<nat>, c: nat, id: nat)
    requires c < |reps| && (forall a, b | 0 <= a < b < |reps| :: reps[a] != reps[b])
    requires id < |leader| && id < |weights| && leader[id] == reps[c]
    ensures Total(SelectedWeights(reps, ids + [id], leader, weights))
         == Total(SelectedWeights(reps, ids, leader, weights)) + weights[id]
  {
    SelectedUpdates(reps, ids, leader, weights, c, id);
    TotalUpdate(SelectedWeights(reps, ids, leader, weights), c, weights[id]);
  }

  ghost predicate Belongs(reps: seq<nat>, leader: seq<nat>, weights: seq<nat>, id: nat) {
    id < |leader| && id < |weights| && leader[id] in reps
  }

  lemma {:induction false} SelectedAll(reps: seq<nat>, ids: seq<nat>, leader: seq<nat>, weights: seq<nat>, n: nat)
    requires n <= |ids| && forall a, b | 0 <= a < b < |reps| :: reps[a] != reps[b]
    requires forall k | 0 <= k < |ids| :: Belongs(reps, leader, weights, ids[k])
    ensures Total(SelectedWeights(reps, ids[..n], leader, weights)) == WeightOf(ids[..n], weights)
  {
    if n == 0 {
      assert ids[..0] == [];
      SelectedNothing(reps, leader, weights);
    } else {
      SelectedAll(reps, ids, leader, weights, n - 1);
      SelectedLast(reps, ids[..n - 1], leader, weights, ids[n - 1]);
      PrefixNext(ids, n);
    }
  }

  lemma PrefixNext(ids: seq<nat>, n: nat)
    requires 0 < n <= |ids|
    ensures ids[..n - 1] + [ids[n - 1]] == ids[..n]
  {}

  lemma SelectedLast(reps: seq<nat>, ids: seq<nat>, leader: seq<nat>, weights: seq<nat>, id: nat)
    requires (forall a, b | 0 <= a < b < |reps| :: reps[a] != reps[b]) && Belongs(reps, leader, weights, id)
    requires Total(SelectedWeights(reps, ids, leader, weights)) == WeightOf(ids, weights)
    ensures Total(SelectedWeights(reps, ids + [id], leader, weights)) == WeightOf(ids + [id], weights)
  {
    var c :| 0 <= c < |reps| && reps[c] == leader[id];
    SelectedNext(reps, ids, leader, weights, c, id);
    WeightAppend(ids, id, weights);
  }

  lemma SelectedNothing(reps: seq<nat>, leader: seq<nat>, weights: seq<nat>)
    ensures Total(SelectedWeights(reps, [], leader, weights)) == WeightOf([], weights)
  {
    TotalOfZeros(SelectedWeights(reps, [], leader, weights));
  }

  lemma {:induction false} TotalOfZeros(weights: seq<nat>)
    requires forall i | 0 <= i < |weights| :: weights[i] == 0
    ensures Total(weights) == 0
  {
    if weights != [] { TotalOfZeros(weights[..|weights| - 1]); }
  }

  /** The components together weigh what the nodes of the stage weigh. */
  lemma ComponentsWeigh(components: seq<Component>, reps: seq<nat>, ids: seq<nat>, leader: seq<nat>, weights: seq<nat>)
    requires Gathered(components, reps, ids, leader, weights) && forall k | 0 <= k < |ids| :: ids[k] < |weights|
    ensures Total(ComponentWeights(components)) == WeightOf(ids, weights)
  {
    forall k | 0 <= k < |ids| ensures Belongs(reps, leader, weights, ids[k]) {}
    SelectedAll(reps, ids, leader, weights, |ids|);
    assert ids[..|ids|] == ids;
    assert ComponentWeights(components) == SelectedWeights(reps, ids, leader, weights);
  }

  lemma {:induction false} LoadOfOne(weights: seq<nat>, assignment: seq<nat>)
    requires |weights| == |assignment| && forall i | 0 <= i < |assignment| :: assignment[i] == 0
    ensures Load(weights, assignment, 0) == Total(weights)
  {
    if weights != [] { LoadOfOne(weights[..|weights| - 1], assignment[..|assignment| - 1]); }
  }

  /** Sorting the components keeps their weight. */
  lemma SortedTotal(components: seq<Component>)
    ensures var order := LongestFirst(ComponentWeights(components), |components|);
            (forall i | 0 <= i < |order| :: order[i] < |components|)
            && Total(WeightsInOrder(order, components)) == Total(ComponentWeights(components))
  {
    var weights := ComponentWeights(components);
    var order := LongestFirst(weights, |components|);
    var zeros := seq(|components|, i => 0);
    OrderFacts(components);
    SortedLoad(weights, zeros, |components|, 0);
    assert weights[..|components|] == weights && zeros[..|components|] == zeros;
    assert InOrder(order, weights) == WeightsInOrder(order, components);
    LoadOfOne(weights, zeros);
    LoadOfOne(InOrder(order, weights), InOrder(order, zeros));
  }

  lemma {:induction false} LoadAtMostTotal(weights: seq<nat>, assignment: seq<nat>, lane: nat)
    requires |weights| == |assignment|
    ensures Load(weights, assignment, lane) <= Total(weights)
  {
    if weights != [] { LoadAtMostTotal(weights[..|weights| - 1], assignment[..|assignment| - 1], lane); }
  }

  /** The heaviest lane carries at most the whole stage, and at least its share. */
  lemma HeaviestLane(stage: Stage, components: seq<Component>, assignment: seq<nat>, m: nat, r: nat)
    requires PackedLongestFirst(stage, components, assignment, m) && IsHeaviest(stage.laneWeights, r)
    ensures r <= Total(ComponentWeights(components)) <= m * r
  {
    var order := LongestFirst(ComponentWeights(components), |components|);
    var sorted := WeightsInOrder(order, components);
    SortedTotal(components);
    LoadsConserveTotal(sorted, assignment, m);
    LoadSumAtMost(sorted, assignment, m, m, r);
    var l :| 0 <= l < |stage.laneWeights| && stage.laneWeights[l] == r;
    LoadAtMostTotal(sorted, assignment, l);
  }

  lemma {:induction false} StageWeight(weights: seq<nat>, schedule: seq<nat>, begin: nat, end: nat)
    requires begin <= end <= |schedule| && forall k | 0 <= k < |schedule| :: schedule[k] < |weights|
    ensures Cumulative(weights, schedule, begin) + WeightOf(schedule[begin..end], weights)
         == Cumulative(weights, schedule, end)
    decreases end
  {
    if begin < end {
      StageWeight(weights, schedule, begin, end - 1);
      assert schedule[begin..end][..end - 1 - begin] == schedule[begin..end - 1];
    }
  }

  lemma StageComponentsWeigh(components: seq<Component>, deps: Dependencies, schedule: seq<nat>, weights: seq<nat>,
                             begin: nat, end: nat)
    requires ComponentsOf(components, deps, schedule, weights, begin, end)
    requires forall k | 0 <= k < |schedule| :: schedule[k] < |weights|
    ensures Total(ComponentWeights(components)) == WeightOf(schedule[begin..end], weights)
  {
    var leader, reps := Evidence(components, deps, schedule, weights, begin, end);
    SliceInRange(schedule, |weights|, begin, end);
    ComponentsWeigh(components, reps, schedule[begin..end], leader, weights);
  }

  lemma Evidence(components: seq<Component>, deps: Dependencies, schedule: seq<nat>, weights: seq<nat>,
                 begin: nat, end: nat) returns (leader: seq<nat>, reps: seq<nat>)
    requires ComponentsOf(components, deps, schedule, weights, begin, end)
    ensures Gathered(components, reps, schedule[begin..end], leader, weights)
  {
    leader, reps :| Components(leader, deps, schedule, begin, end)
                    && Gathered(components, reps, schedule[begin..end], leader, weights);
  }

  lemma SliceInRange(s: seq<nat>, n: nat, begin: nat, end: nat)
    requires begin <= end <= |s| && forall k | 0 <= k < |s| :: s[k] < n
    ensures forall k | 0 <= k < |s[begin..end]| :: s[begin..end][k] < n
  {}

  /** The heaviest lane of a stage, against the weight of its part of the schedule. */
  lemma BalancedCost(s: Stage, r: nat, deps: Dependencies, schedule: seq<nat>, weights: seq<nat>, m: nat)
    requires Balanced(s, deps, schedule, weights, m) && IsHeaviest(s.laneWeights, r)
    requires s.begin <= s.end <= |schedule| && forall k | 0 <= k < |schedule| :: schedule[k] < |weights|
    ensures r <= WeightOf(schedule[s.begin..s.end], weights) <= m * r
  {
    var components: seq<Component>, assignment: seq<nat> :|
      && ComponentsOf(components, deps, schedule, weights, s.begin, s.end)
      && PackedLongestFirst(s, components, assignment, m)
      && PackedLanes(s.lanes, LongestFirst(ComponentWeights(components), |components|), components, assignment);
    HeaviestLane(s, components, assignment, m, r);
    StageComponentsWeigh(components, deps, schedule, weights, s.begin, s.end);
  }

  /** A stage costs at most its part of the total weight, and at least a lane's share. */
  ghost predicate CostFits(s: Stage, r: nat, cumulative: seq<nat>, m: nat) {
    && s.begin <= s.end < |cumulative|
    && r <= cumulative[s.end] - cumulative[s.begin] <= m * r
  }

  lemma BuiltStageCost(s: Stage, k: nat, r: nat, deps: Dependencies, schedule: seq<nat>, weights: seq<nat>,
                       cumulative: seq<nat>, count: nat, m: nat)
    requires StageBuilt(s, k, r, deps, schedule, weights, cumulative, count, m)
    requires PrefixSums(weights, schedule, cumulative)
    ensures CostFits(s, r, cumulative, m)
  {
    BalancedCost(s, r, deps, schedule, weights, m);
    StageWeight(weights, schedule, s.begin, s.end);
  }

  // ----- The cost of a partition ----------------------------------------------------------------

  lemma Distributes(m: nat, a: nat, b: nat)
    ensures m * (a + b) == m * a + m * b
  {}

  lemma {:induction false} StagesCost(stages: seq<Stage>, heaviest: seq<nat>, cumulative: seq<nat>, m: nat, n: nat)
    requires |heaviest| == |stages| && n <= |stages| && |cumulative| > 0 && cumulative[0] == 0
    requires forall k | 0 <= k < |stages| :: CostFits(stages[k], heaviest[k], cumulative, m)
    requires stages != [] ==> stages[0].begin == 0
    requires forall k | 0 <= k < |stages| - 1 :: stages[k].end == stages[k + 1].begin
    ensures var end := if n == 0 then 0 else stages[n - 1].end;
            end < |cumulative| && Total(heaviest[..n]) <= cumulative[end] <= m * Total(heaviest[..n])
  {
    if n > 0 {
      StagesCost(stages, heaviest, cumulative, m, n - 1);
      var s, r := stages[n - 1], heaviest[n - 1];
      assert CostFits(s, r, cumulative, m);
      assert heaviest[..n][..n - 1] == heaviest[..n - 1];
      assert n > 1 ==> stages[n - 2].end == s.begin;
      Distributes(m, Total(heaviest[..n - 1]), r);
    }
  }

  /** The estimated cost of a partition is at most a whole traversal, and no
      number of stages makes it less than the share of one lane. */
  lemma PartitionCost(stages: seq<Stage>, cost: nat, deps: Dependencies, schedule: seq<nat>, weights: seq<nat>,
                      cumulative: seq<nat>, count: nat, m: nat)
    requires PartitionOk(stages, cost, deps, schedule, weights, cumulative, count, m) && count >= 1
    requires PrefixSums(weights, schedule, cumulative)
    ensures cost <= cumulative[|schedule|] <= m * cost
  {
    var ok := StageTest(deps, schedule, weights, cumulative, count, m);
    var heaviest: seq<nat> :| cost == Total(heaviest) && Built(stages, heaviest, ok, |schedule|);
    forall k | 0 <= k < |stages| ensures CostFits(stages[k], heaviest[k], cumulative, m) {
      assert ok(stages[k], k, heaviest[k]);
      BuiltStageCost(stages[k], k, heaviest[k], deps, schedule, weights, cumulative, count, m);
    }
    assert cumulative[0] == Cumulative(weights, schedule, 0);
    StagesCost(stages, heaviest, cumulative, m, |stages|);
    assert heaviest[..|stages|] == heaviest;
  }

  // ----- What the penalty allows ------------------------------------------------------------------

  lemma {:induction false} ScheduleWeighs(weights: seq<nat>, schedule: seq<nat>, n: nat)
    requires n <= |schedule| && forall k | 0 <= k < |schedule| :: schedule[k] < |weights| && weights[schedule[k]] >= 1
    ensures Cumulative(weights, schedule, n) >= n
  {
    if n > 0 { ScheduleWeighs(weights, schedule, n - 1); }
  }

  /** Half of the total, per barrier: what more stages have to save. */
  lemma ChosenSaves(chosen: nat, costs: seq<nat>, total: nat)
    requires BestOf(chosen, costs, total) && chosen > 1
    ensures costs[chosen - 1] + (chosen - 1) * (if total < 2 then 1 else total / 2) < costs[0]
  {
    PenaltiesMultiply(total, chosen - 1);
    assert Score(costs[0], total, 1) == costs[0];
  }

  /** Every partition that passes the test costs between a lane's share of the
      total weight and all of it. */
  ghost predicate TestBounds(ok: (seq<Stage>, nat, nat) -> bool, total: nat, m: nat) {
    forall stages, cost: nat, count: nat | ok(stages, cost, count) && count >= 1 :: cost <= total <= m * cost
  }

  lemma PartitionTestBounds(deps: Dependencies, schedule: seq<nat>, weights: seq<nat>, cumulative: seq<nat>, m: nat)
    requires PrefixSums(weights, schedule, cumulative)
    ensures TestBounds(PartitionTest(deps, schedule, weights, cumulative, m), cumulative[|schedule|], m)
  {
    var ok := PartitionTest(deps, schedule, weights, cumulative, m);
    forall stages, cost: nat, count: nat | ok(stages, cost, count) && count >= 1
      ensures cost <= cumulative[|schedule|] <= m * cost
    {
      PartitionCost(stages, cost, deps, schedule, weights, cumulative, count, m);
    }
  }

  lemma CandidateCosts(t: Trial, ok: (seq<Stage>, nat, nat) -> bool, total: nat, m: nat)
    requires Tried(t, ok, total) && TestBounds(ok, total, m)
    ensures BestOf(t.chosen, t.costs, total) && t.costs[0] <= total <= m * t.costs[t.chosen - 1]
  {
    assert ok(t.candidates[0], t.costs[0], 1);
    assert ok(t.candidates[t.chosen - 1], t.costs[t.chosen - 1], t.chosen);
  }

  lemma ChosenTwo(chosen: nat, costs: seq<nat>, total: nat, m: nat)
    requires BestOf(chosen, costs, total) && chosen > 1 && total >= 2 && costs[0] <= total <= m * costs[chosen - 1]
    ensures chosen == 2 && costs[1] + total / 2 < costs[0]
  {
    ChosenSaves(chosen, costs, total);
    SavesOnce(chosen, costs[chosen - 1], costs[0], total, m);
  }

  /** A chosen partition with more than one stage has an estimated cost that is
      lower than that of one stage by more than half the total weight, and no
      partition has more than two: a second barrier would have to save a whole
      traversal. */
  lemma AtMostTwoStages(p: Plan, deps: Dependencies, schedule: seq<nat>, sizes: seq<nat>, threadCount: nat,
                        weights: seq<nat>, cumulative: seq<nat>, t: Trial)
    requires ChosenFrom(p, deps, schedule, sizes, threadCount, weights, cumulative, t)
    ensures |p.stages| == t.chosen && 1 <= |p.stages| <= 2
    ensures |p.stages| == 2 ==> t.costs[1] + cumulative[|schedule|] / 2 < t.costs[0]
  {
    ChosenBuilt(t, deps, schedule, weights, cumulative, p.lanes, cumulative[|schedule|]);
    if t.chosen > 1 {
      var ok, total := PartitionTest(deps, schedule, weights, cumulative, p.lanes), cumulative[|schedule|];
      PartitionTestBounds(deps, schedule, weights, cumulative, p.lanes);
      CandidateCosts(t, ok, total, p.lanes);
      WeightsLast(weights, schedule, cumulative);
      ChosenTwo(t.chosen, t.costs, total, p.lanes);
    }
  }

  lemma WeightsLast(weights: seq<nat>, schedule: seq<nat>, cumulative: seq<nat>)
    requires PrefixSums(weights, schedule, cumulative) && forall i | 0 <= i < |weights| :: weights[i] >= 1
    ensures cumulative[|schedule|] >= |schedule|
  {
    ScheduleWeighs(weights, schedule, |schedule|);
  }

  lemma SavesOnce(k: nat, cost: nat, first: nat, total: nat, m: nat)
    requires k > 1 && total >= 2 && first <= total <= m * cost && cost + (k - 1) * (total / 2) < first
    ensures k == 2
  {
    var half := total / 2;
    PositiveFactor(m, cost);
    HalvesGrow(k - 1, half);
  }

  lemma PositiveFactor(m: nat, cost: nat)
    ensures m * cost > 0 ==> cost > 0
  {
    if cost == 0 { assert m * cost == 0; }
  }

  lemma HalvesGrow(k: nat, half: nat)
    ensures k >= 2 ==> k * half >= 2 * half
  {
    if k >= 2 { assert k * half == 2 * half + (k - 2) * half; }
  }

  // ----- The plan that was chosen -------------------------------------------------------------------

  /** Stage `k` carries the connected components of its part of the schedule, and
      its heaviest lane is at most 4/3 - 1/(3m) times that of any other packing. */
  ghost predicate WithinGraham(p: Plan, deps: Dependencies, schedule: seq<nat>, sizes: seq<nat>, k: nat)
    requires k < |p.stages|
  {
    exists begin: nat, end: nat, components: seq<Component>, assignment: seq<nat>, weights: seq<nat> ::
      && ComponentsOf(components, deps, schedule, weights, begin, end)
      && |weights| == |sizes| && (forall i | 0 <= i < |sizes| :: weights[i] == Max(1, sizes[i]))
      && PackedLanes(p.stages[k], LongestFirst(ComponentWeights(components), |components|), components, assignment)
      && NoneMuchBetter(components, assignment, p.lanes)
  }

  /** The lanes' loads against those of every other assignment of the components. */
  ghost predicate NoneMuchBetter(components: seq<Component>, assignment: seq<nat>, m: nat) {
    var order := LongestFirst(ComponentWeights(components), |components|);
    && (forall i | 0 <= i < |order| :: order[i] < |components|) && |assignment| == |order|
    && forall other: seq<nat>, best: nat, lane: nat |
         |other| == |components| && Within(ComponentWeights(components), other, m, best)
         && (forall c | 0 <= c < |other| :: other[c] < m) && lane < m ::
         3 * m * Load(WeightsInOrder(order, components), assignment, lane) <= (4 * m - 1) * best
  }

  lemma StageNoneMuchBetter(stage: Stage, components: seq<Component>, assignment: seq<nat>, m: nat)
    requires PackedLongestFirst(stage, components, assignment, m)
    ensures NoneMuchBetter(components, assignment, m)
  {
    forall other: seq<nat>, best: nat, lane: nat |
      |other| == |components| && Within(ComponentWeights(components), other, m, best)
      && (forall c | 0 <= c < |other| :: other[c] < m) && lane < m
      ensures 3 * m * stage.laneWeights[lane] <= (4 * m - 1) * best
    {
      StageWithinGraham(stage, components, assignment, m, other, best);
    }
    OrderFacts(components);
  }

  lemma BalancedWithinGraham(s: Stage, deps: Dependencies, schedule: seq<nat>, weights: seq<nat>, p: Plan,
                             sizes: seq<nat>, k: nat)
    requires k < |p.stages| && p.stages[k] == s.lanes && Balanced(s, deps, schedule, weights, p.lanes)
    requires |weights| == |sizes| && forall i | 0 <= i < |sizes| :: weights[i] == Max(1, sizes[i])
    ensures WithinGraham(p, deps, schedule, sizes, k)
  {
    var components: seq<Component>, assignment: seq<nat> :|
      && ComponentsOf(components, deps, schedule, weights, s.begin, s.end)
      && PackedLongestFirst(s, components, assignment, p.lanes)
      && PackedLanes(s.lanes, LongestFirst(ComponentWeights(components), |components|), components, assignment);
    StageNoneMuchBetter(s, components, assignment, p.lanes);
  }

  lemma ChosenBalanced(t: Trial, deps: Dependencies, schedule: seq<nat>, weights: seq<nat>, cumulative: seq<nat>,
                       m: nat, k: nat)
    requires PrefixSums(weights, schedule, cumulative) && k < t.chosen
    requires Tried(t, PartitionTest(deps, schedule, weights, cumulative, m), cumulative[|schedule|])
    ensures k < |t.candidates[t.chosen - 1]| && Balanced(t.candidates[t.chosen - 1][k], deps, schedule, weights, m)
  {
    var stages, cost := t.candidates[t.chosen - 1], t.costs[t.chosen - 1];
    assert PartitionTest(deps, schedule, weights, cumulative, m)(stages, cost, t.chosen);
    PartitionStages(stages, cost, deps, schedule, weights, cumulative, t.chosen, m);
  }

  lemma ChosenWithinGraham(p: Plan, deps: Dependencies, schedule: seq<nat>, sizes: seq<nat>, threadCount: nat, k: nat)
    requires Chosen(p, deps, schedule, sizes, threadCount) && k < |p.stages| && threadCount >= 1
    ensures p.lanes == Max(1, Min(threadCount, |schedule|)) && |p.stages| <= 2
    ensures WithinGraham(p, deps, schedule, sizes, k)
  {
    var weights, cumulative, t :| ChosenFrom(p, deps, schedule, sizes, threadCount, weights, cumulative, t);
    AtMostTwoStages(p, deps, schedule, sizes, threadCount, weights, cumulative, t);
    ChosenBalanced(t, deps, schedule, weights, cumulative, p.lanes, k);
    BalancedWithinGraham(t.candidates[t.chosen - 1][k], deps, schedule, weights, p, sizes, k);
  }
}

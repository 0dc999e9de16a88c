/** Eager comb nodes, their sequential evaluation in schedule order, and plans
    that spread a schedule over stages and lanes. */
module CombPlan {

  /** `dependencies[id]` are the nodes whose stored values node `id` reads. */
  type Dependencies = seq<seq<nat>>

  /** What node `id` computes from the object's inputs, the previous contents of
      its own slot and the values it reads. */
  type Formula = (nat, int, int, seq<int>) -> int

  predicate DependenciesOk(deps: Dependencies) {
    forall id, k | 0 <= id < |deps| && 0 <= k < |deps[id]| :: deps[id][k] < |deps|
  }

  function ReadAll(memory: seq<int>, ids: seq<nat>): (r: seq<int>)
    requires forall k | 0 <= k < |ids| :: ids[k] < |memory|
    ensures |r| == |ids|
  {
    seq(|ids|, k requires 0 <= k < |ids| => memory[ids[k]])
  }

  /** One node evaluation: a single store into the node's own slot. */
  function Evaluate(deps: Dependencies, formula: Formula, input: int, memory: seq<int>, id: nat): (r: seq<int>)
    requires DependenciesOk(deps) && |memory| == |deps| && id < |deps|
    ensures |r| == |memory|
  {
    memory[id := formula(id, input, memory[id], ReadAll(memory, deps[id]))]
  }

  /** The sequential meaning of a schedule. */
  function RunSchedule(deps: Dependencies, formula: Formula, input: int, memory: seq<int>,
                       schedule: seq<nat>): (r: seq<int>)
    requires DependenciesOk(deps) && |memory| == |deps| && forall i | 0 <= i < |schedule| :: schedule[i] < |deps|
    ensures |r| == |memory|
  {
    if schedule == [] then memory
    else
      var last := |schedule| - 1;
      Evaluate(deps, formula, input, RunSchedule(deps, formula, input, memory, schedule[..last]), schedule[last])
  }

  /** No node twice, and nothing scheduled before something it reads. */
  predicate Topological(deps: Dependencies, schedule: seq<nat>) {
    && DependenciesOk(deps)
    && (forall i | 0 <= i < |schedule| :: schedule[i] < |deps|)
    && (forall i, j | 0 <= i < j < |schedule| :: schedule[i] != schedule[j])
    && forall i, j | 0 <= i <= j < |schedule| :: schedule[j] !in deps[schedule[i]]
  }

  lemma TopologicalPrefix(deps: Dependencies, schedule: seq<nat>, n: nat)
    requires Topological(deps, schedule) && n <= |schedule|
    ensures Topological(deps, schedule[..n])
  {}

  /** Slots outside the schedule keep their contents. */
  lemma {:induction false} UnscheduledKept(deps: Dependencies, formula: Formula, input: int, memory: seq<int>,
                                           schedule: seq<nat>, id: nat)
    requires DependenciesOk(deps) && |memory| == |deps| && forall i | 0 <= i < |schedule| :: schedule[i] < |deps|
    requires id < |deps| && id !in schedule
    ensures RunSchedule(deps, formula, input, memory, schedule)[id] == memory[id]
    decreases |schedule|
  {
    if schedule != [] {
      var last := |schedule| - 1;
      UnscheduledKept(deps, formula, input, memory, schedule[..last], id);
    }
  }

  /** The final memory is a fixed point: every scheduled slot is its formula
      on what it held before and the final values of what it reads. */
  lemma {:induction false} ScheduleFixpoint(deps: Dependencies, formula: Formula, input: int, memory: seq<int>,
                                            schedule: seq<nat>, k: nat)
    requires Topological(deps, schedule) && |memory| == |deps| && k < |schedule|
    ensures var final := RunSchedule(deps, formula, input, memory, schedule);
            final[schedule[k]] == formula(schedule[k], input, memory[schedule[k]], ReadAll(final, deps[schedule[k]]))
    decreases |schedule|
  {
    var last := |schedule| - 1;
    var before := RunSchedule(deps, formula, input, memory, schedule[..last]);
    var final := RunSchedule(deps, formula, input, memory, schedule);
    var id := schedule[k];
    assert schedule[last] !in deps[id];
    assert ReadAll(final, deps[id]) == ReadAll(before, deps[id]);
    if k == last {
      UnscheduledKept(deps, formula, input, memory, schedule[..last], id);
    } else {
      TopologicalPrefix(deps, schedule, last);
      ScheduleFixpoint(deps, formula, input, memory, schedule[..last], k);
    }
  }

  // ----- Plans ---------------------------------------------------------------

  /** `stages[s][lane]` is the node list one lane runs in one stage. */
  datatype Plan = Plan(lanes: nat, stages: seq<seq<seq<nat>>>)

  predicate At(p: Plan, s: nat, lane: nat, i: nat) {
    s < |p.stages| && lane < |p.stages[s]| && i < |p.stages[s][lane]|
  }

  /** The lane runs place (s', i') before place (s, i), or a barrier separates them. */
  predicate Before(s': nat, lane': nat, i': nat, s: nat, lane: nat, i: nat) {
    s' < s || (s' == s && lane' == lane && i' < i)
  }

  ghost predicate Holds(p: Plan, id: nat, s: nat, lane: nat, i: nat) {
    At(p, s, lane, i) && p.stages[s][lane][i] == id
  }

  /** A dependency of node `id` at a place is outside the plan or runs before. */
  ghost predicate DependencyBefore(p: Plan, d: nat, s: nat, lane: nat, i: nat) {
    forall s', lane', i' | Holds(p, d, s', lane', i') :: Before(s', lane', i', s, lane, i)
  }

  /** Every scheduled node has a place. */
  ghost predicate AllPlaced(p: Plan, schedule: seq<nat>) {
    forall k | 0 <= k < |schedule| :: Placed(p, schedule[k])
  }

  ghost predicate Placed(p: Plan, id: nat) {
    exists s: nat, lane: nat, i: nat :: Holds(p, id, s, lane, i)
  }

  /** No node has two places. */
  ghost predicate OnePlace(p: Plan) {
    forall id, s, lane, i, s', lane', i' | Holds(p, id, s, lane, i) && Holds(p, id, s', lane', i') ::
      s == s' && lane == lane' && i == i'
  }

  /** No dependency crosses lanes inside a stage or runs against its lane. */
  ghost predicate DependenciesFirst(p: Plan, deps: Dependencies)
    requires forall s: nat, lane: nat, i: nat | At(p, s, lane, i) :: p.stages[s][lane][i] < |deps|
  {
    forall s: nat, lane: nat, i: nat | At(p, s, lane, i) ::
      forall d | d in deps[p.stages[s][lane][i]] :: DependencyBefore(p, d, s, lane, i)
  }

  ghost predicate PlanOk(p: Plan, deps: Dependencies, schedule: seq<nat>) {
    && p.lanes >= 1 && 1 <= |p.stages| <= 8
    && Topological(deps, schedule)
    && (forall s | 0 <= s < |p.stages| :: |p.stages[s]| == p.lanes)
    && (forall s: nat, lane: nat, i: nat | At(p, s, lane, i) :: p.stages[s][lane][i] in schedule)
    && AllPlaced(p, schedule) && OnePlace(p) && DependenciesFirst(p, deps)
  }
}

/** What every interleaving of the threaded runtime guarantees. */
module CombRuntimeTheorems {
  import opened Common
  import opened CombPlan
  import opened CombRuntime

  // ----- Executions --------------------------------------------------------------

  /** Any interleaving: each step is one enabled event. */
  ghost predicate Execution(p: Plan, deps: Dependencies, formula: Formula, trace: seq<System>, events: seq<Event>) {
    && DependenciesOk(deps) && |trace| == |events| + 1
    && Initial(p, deps, trace[0])
    && forall t | 0 <= t < |events| ::
         && Shaped(p, deps, trace[t]) && Enabled(p, deps, trace[t], events[t])
         && trace[t + 1] == Apply(p, deps, formula, trace[t], events[t])
  }

  // ----- Each (command, stage, lane) once -----------------------------------------

  lemma FreshEntry(p: Plan, s: System, entry: (nat, nat, nat))
    requires |p.stages| >= 1 && LogOk(p, s) && entry !in s.log
    ensures var log := s.log + [entry]; forall a, b | 0 <= a < b < |log| :: log[a] != log[b]
  {}

  lemma CallerKeepsLog(p: Plan, deps: Dependencies, formula: Formula, s: System)
    requires DependenciesOk(deps) && Control(p, deps, s) && CallerEnabled(p, deps, s) && LogOk(p, s)
    ensures LogOk(p, CallerStep(p, deps, formula, s))
  {
    var s' := CallerStep(p, deps, formula, s);
    if s.caller.Publish? || s.caller.Await? {
      forall lane: nat | 1 <= lane < p.lanes
        ensures StagesDone(p, s', lane) == if s.caller.Publish? then 0 else StagesDone(p, s, lane)
      {
        assert WorkerOk(p, s, lane - 1);
      }
    }
    if s.caller.Run? && s.caller.index >= |Nodes(p, s.caller.stage, 0)| {
      FreshEntry(p, s, (s.commandValue, s.caller.stage, 0));
    }
  }

  /** The worker's next step finishes its stage. */
  ghost predicate Finishing(p: Plan, s: System, lane: nat)
    requires 1 <= lane <= |s.workers|
  {
    var pc := s.workers[lane - 1].pc;
    pc.Work? && pc.index >= |Nodes(p, pc.stage, lane)|
  }

  lemma LaneFinishes(p: Plan, deps: Dependencies, formula: Formula, s: System, lane: nat, l: nat)
    requires DependenciesOk(deps) && Control(p, deps, s) && LaneEnabled(p, deps, s, lane)
    ensures StagesDone(p, LaneStep(p, deps, formula, s, lane), l)
         == StagesDone(p, s, l) + if Finishing(p, s, lane) && l == lane then 1 else 0
  {
    LaneOnly(p, deps, formula, s, lane);
    assert WorkerOk(p, s, lane - 1);
  }

  lemma LaneKeepsLog(p: Plan, deps: Dependencies, formula: Formula, s: System, lane: nat)
    requires DependenciesOk(deps) && Control(p, deps, s) && LaneEnabled(p, deps, s, lane) && LogOk(p, s)
    ensures LogOk(p, LaneStep(p, deps, formula, s, lane))
  {
    var s' := LaneStep(p, deps, formula, s, lane);
    LaneOnly(p, deps, formula, s, lane);
    assert WorkerOk(p, s, lane - 1);
    forall l: nat
      ensures StagesDone(p, s', l) == StagesDone(p, s, l) + if Finishing(p, s, lane) && l == lane then 1 else 0
    {
      LaneFinishes(p, deps, formula, s, lane, l);
    }
    if Finishing(p, s, lane) {
      FreshEntry(p, s, (s.workers[lane - 1].observed, s.workers[lane - 1].pc.stage, lane));
    }
  }

  // ----- The whole step --------------------------------------------------------------

  ghost predicate Safe(p: Plan, deps: Dependencies, s: System) {
    Control(p, deps, s) && LogOk(p, s)
  }

  lemma OutsideKeepsControl(p: Plan, deps: Dependencies, formula: Formula, s: System, e: Event)
    requires DependenciesOk(deps) && Safe(p, deps, s) && Enabled(p, deps, s, e) && !e.Caller? && !e.Lane?
    ensures Safe(p, deps, Apply(p, deps, formula, s, e))
  {
    var s' := Apply(p, deps, formula, s, e);
    forall l | 0 <= l < |s'.workers| ensures WorkerOk(p, s', l) {
      assert WorkerOk(p, s, l);
    }
    forall l: nat ensures StagesDone(p, s', l) == StagesDone(p, s, l) {}
  }

  lemma StepIsSafe(p: Plan, deps: Dependencies, formula: Formula, s: System, e: Event)
    requires DependenciesOk(deps) && Safe(p, deps, s) && Enabled(p, deps, s, e)
    ensures Safe(p, deps, Apply(p, deps, formula, s, e))
  {
    match e
    case Caller =>
      CallerKeepsControl(p, deps, formula, s);
      CallerKeepsLog(p, deps, formula, s);
    case Lane(lane) =>
      LaneKeepsControl(p, deps, formula, s, lane);
      LaneKeepsLog(p, deps, formula, s, lane);
    case _ => OutsideKeepsControl(p, deps, formula, s, e);
  }

  // ----- The barrier --------------------------------------------------------------------

  /** A lane is executing nodes of `stage`. */
  ghost predicate Executing(s: System, lane: nat, stage: nat) {
    if lane == 0 then s.caller.Run? && s.caller.stage == stage
    else lane - 1 < |s.workers| && s.workers[lane - 1].pc.Work? && s.workers[lane - 1].pc.stage == stage
  }

  /** Nobody runs a stage before every lane has finished the one before it,
      and whoever runs works on the caller's object and state. */
  lemma BarrierHolds(p: Plan, deps: Dependencies, s: System, lane: nat, stage: nat)
    requires Safe(p, deps, s) && Executing(s, lane, stage) && lane < p.lanes
    ensures Running(s) && stage == Stage(s)
    ensures forall other: nat, k: nat | other < p.lanes && k < stage :: (s.commandValue, k, other) in s.log
    ensures lane > 0 ==> s.workers[lane - 1].obj == s.obj && s.workers[lane - 1].state == s.state
  {
    if lane > 0 { assert WorkerOk(p, s, lane - 1); }
    forall other: nat, k: nat | other < p.lanes && k < stage ensures (s.commandValue, k, other) in s.log {
      EarlierStagesDone(p, deps, s, other);
    }
  }

  lemma EarlierStagesDone(p: Plan, deps: Dependencies, s: System, lane: nat)
    requires Control(p, deps, s) && Running(s) && lane < p.lanes
    ensures StagesDone(p, s, lane) >= Stage(s)
  {
    if lane > 0 { assert WorkerOk(p, s, lane - 1); }
  }

  lemma EarlierStagesPassed(p: Plan, deps: Dependencies, s: System, k: nat, lane: nat, i: nat)
    requires Control(p, deps, s) && Running(s) && lane < p.lanes && k < Stage(s)
    ensures Passed(p, s, k, lane, i)
  {
    if lane > 0 { assert WorkerOk(p, s, lane - 1); }
  }

  /** The lane's next step evaluates the node at place `i` of stage `k`. */
  ghost predicate Evaluating(p: Plan, s: System, lane: nat, k: nat, i: nat) {
    && At(p, k, lane, i) && Executing(s, lane, k)
    && (if lane == 0 then s.caller.Run? && s.caller.index == i
        else lane - 1 < |s.workers| && s.workers[lane - 1].pc.Work? && s.workers[lane - 1].pc.index == i)
  }

  /** Lanes that evaluate nodes at the same time work on the same memory but
      never on a slot that one of them writes: neither the other node's own
      slot nor one it reads. */
  lemma NoRace(p: Plan, deps: Dependencies, schedule: seq<nat>, s: System, lane: nat, k: nat, i: nat, other: nat,
               k': nat, i': nat)
    requires PlanOk(p, deps, schedule) && Safe(p, deps, s) && lane < p.lanes && other < p.lanes && lane != other
    requires Evaluating(p, s, lane, k, i) && Evaluating(p, s, other, k', i')
    ensures Running(s) && k == k' == Stage(s)
    ensures var id, id' := p.stages[k][lane][i], p.stages[k'][other][i'];
            id < |deps| && id' < |deps| && id != id' && id' !in deps[id] && id !in deps[id']
  {
    BarrierHolds(p, deps, s, lane, k);
    BarrierHolds(p, deps, s, other, k');
    var id, id' := p.stages[k][lane][i], p.stages[k'][other][i'];
    assert id in schedule && id' in schedule;
    assert Holds(p, id, k, lane, i) && Holds(p, id', k', other, i');
    OtherLane(p, deps, k, lane, i, other, i');
    OtherLane(p, deps, k, other, i', lane, i);
  }

  /** No node of one lane reads a node of another lane in the same stage. */
  lemma OtherLane(p: Plan, deps: Dependencies, k: nat, lane: nat, i: nat, other: nat, i': nat)
    requires (forall s: nat, l: nat, j: nat | At(p, s, l, j) :: p.stages[s][l][j] < |deps|)
             && DependenciesFirst(p, deps)
    requires At(p, k, lane, i) && At(p, k, other, i') && lane != other
    ensures p.stages[k][other][i'] !in deps[p.stages[k][lane][i]]
  {
    assert Holds(p, p.stages[k][other][i'], k, other, i');
    assert !Before(k, other, i', k, lane, i);
    assert forall d | d in deps[p.stages[k][lane][i]] :: DependencyBefore(p, d, k, lane, i);
  }

  /** The step of a thread: the caller is lane 0. */
  ghost function ThreadStep(p: Plan, deps: Dependencies, formula: Formula, s: System, lane: nat): System
    requires DependenciesOk(deps) && Shaped(p, deps, s)
    requires if lane == 0 then CallerEnabled(p, deps, s) else LaneEnabled(p, deps, s, lane)
  {
    if lane == 0 then CallerStep(p, deps, formula, s) else LaneStep(p, deps, formula, s, lane)
  }

  /** So it does not matter that an evaluation is not one atomic step: what
      another lane does meanwhile leaves the node's slot and all it reads alone. */
  lemma OthersDoNotDisturb(p: Plan, deps: Dependencies, formula: Formula, schedule: seq<nat>, s: System, lane: nat,
                           k: nat, i: nat, other: nat, x: nat)
    requires PlanOk(p, deps, schedule) && Safe(p, deps, s) && lane < p.lanes && other < p.lanes && lane != other
    requires Evaluating(p, s, lane, k, i)
             && (if other == 0 then CallerEnabled(p, deps, s) else LaneEnabled(p, deps, s, other))
    requires var id := p.stages[k][lane][i]; id < |deps| && x < |deps| && (x == id || x in deps[id])
    ensures TargetOk(s, s.obj, s.state) && |ThreadStep(p, deps, formula, s, other).memory| == |s.memory|
    ensures |ThreadStep(p, deps, formula, s, other).memory[s.state]| == |s.memory[s.state]| == |deps|
    ensures ThreadStep(p, deps, formula, s, other).memory[s.state][x] == s.memory[s.state][x]
  {
    BarrierHolds(p, deps, s, lane, k);
    if other > 0 { assert WorkerOk(p, s, other - 1); }
    if other == 0 {
      if s.caller.Run? && s.caller.index < |Nodes(p, s.caller.stage, 0)| {
        NoRace(p, deps, schedule, s, lane, k, i, 0, s.caller.stage, s.caller.index);
      }
    } else {
      var pc := s.workers[other - 1].pc;
      if pc.Work? && pc.index < |Nodes(p, pc.stage, other)| {
        NoRace(p, deps, schedule, s, lane, k, i, other, pc.stage, pc.index);
      }
    }
  }

  // ----- Values ------------------------------------------------------------------------------

  /** The sequential result of the running command. */
  ghost function Expected(deps: Dependencies, formula: Formula, schedule: seq<nat>, s: System): seq<int>
    requires Topological(deps, schedule) && TargetOk(s, s.obj, s.state) && |s.start| == |s.memory|
    requires |s.start[s.state]| == |deps|
  {
    RunSchedule(deps, formula, s.inputs[s.obj], s.start[s.state], schedule)
  }

  ghost predicate SlotOk(p: Plan, s: System, expected: seq<int>, k: nat, lane: nat, i: nat)
    requires At(p, k, lane, i) && s.state < |s.memory|
  {
    var id := p.stages[k][lane][i];
    && (Passed(p, s, k, lane, i) ==>
        id < |expected| && id < |s.memory[s.state]| && s.memory[s.state][id] == expected[id])
    && (!Passed(p, s, k, lane, i) ==>
          (s.state < |s.start| && id < |s.start[s.state]| && id < |s.memory[s.state]|
           && s.memory[s.state][id] == s.start[s.state][id]))
  }

  /** Finished nodes hold their sequential value; everything else is as it was
      when the command was published. */
  ghost predicate DataOk(p: Plan, deps: Dependencies, formula: Formula, schedule: seq<nat>, s: System)
    requires Topological(deps, schedule)
  {
    Running(s) && Shaped(p, deps, s) ==>
      && TargetOk(s, s.obj, s.state)
      && (forall t | 0 <= t < |s.memory| && t != s.state :: s.memory[t] == s.start[t])
      && (forall id | 0 <= id < |deps| && id !in schedule ::
            s.memory[s.state][id] == Expected(deps, formula, schedule, s)[id])
      && forall k: nat, lane: nat, i: nat | At(p, k, lane, i) ::
           SlotOk(p, s, Expected(deps, formula, schedule, s), k, lane, i)
  }

  /** The node at a place whose turn has come computes its sequential value. */
  lemma {:induction false} TurnComputes(p: Plan, deps: Dependencies, formula: Formula, schedule: seq<nat>, s: System,
                                        k: nat, lane: nat, i: nat)
    requires PlanOk(p, deps, schedule) && Control(p, deps, s) && Running(s) && DataOk(p, deps, formula, schedule, s)
    requires At(p, k, lane, i) && k == Stage(s)
    requires !Passed(p, s, k, lane, i) && forall j: nat | j < i :: Passed(p, s, k, lane, j)
    ensures var id := p.stages[k][lane][i];
            formula(id, s.inputs[s.obj], s.memory[s.state][id], ReadAll(s.memory[s.state], deps[id]))
              == Expected(deps, formula, schedule, s)[id]
  {
    var id := p.stages[k][lane][i];
    var expected := Expected(deps, formula, schedule, s);
    assert id in schedule;
    var n :| 0 <= n < |schedule| && schedule[n] == id;
    ScheduleFixpoint(deps, formula, s.inputs[s.obj], s.start[s.state], schedule, n);
    forall x | 0 <= x < |deps[id]| ensures s.memory[s.state][deps[id][x]] == expected[deps[id][x]] {
      var d := deps[id][x];
      if d in schedule {
        DependencyReady(p, deps, schedule, s, k, lane, i, d, expected);
      }
    }
    assert ReadAll(s.memory[s.state], deps[id]) == ReadAll(expected, deps[id]);
    assert SlotOk(p, s, expected, k, lane, i);
  }

  lemma DependencyReady(p: Plan, deps: Dependencies, schedule: seq<nat>, s: System, k: nat, lane: nat, i: nat, d: nat,
                        expected: seq<int>)
    requires Control(p, deps, s) && Running(s) && At(p, k, lane, i) && k == Stage(s)
    requires AllPlaced(p, schedule) && DependenciesFirst(p, deps)
    requires d in deps[p.stages[k][lane][i]] && d in schedule && TargetOk(s, s.obj, s.state)
    requires forall j: nat | j < i :: Passed(p, s, k, lane, j)
    requires forall k': nat, lane': nat, i': nat | At(p, k', lane', i') :: SlotOk(p, s, expected, k', lane', i')
    ensures d < |expected| && d < |s.memory[s.state]| && s.memory[s.state][d] == expected[d]
  {
    var n :| 0 <= n < |schedule| && schedule[n] == d;
    assert Placed(p, schedule[n]);
    var k': nat, lane': nat, i': nat :| Holds(p, d, k', lane', i');
    assert DependencyBefore(p, d, k, lane, i);
    assert Before(k', lane', i', k, lane, i);
    if k' < k { EarlierStagesPassed(p, deps, s, k', lane', i'); }
    assert SlotOk(p, s, expected, k', lane', i');
  }

  /** A store by the lane whose turn it is. */
  lemma {:induction false} StoreKeepsData(p: Plan, deps: Dependencies, formula: Formula, schedule: seq<nat>, s: System,
                                          s': System, k: nat, lane: nat, i: nat)
    requires PlanOk(p, deps, schedule) && Control(p, deps, s) && Running(s) && DataOk(p, deps, formula, schedule, s)
    requires At(p, k, lane, i) && k == Stage(s) && !Passed(p, s, k, lane, i)
             && forall j: nat | j < i :: Passed(p, s, k, lane, j)
    requires Shaped(p, deps, s') && Running(s')
    requires s'.inputs == s.inputs && s'.obj == s.obj && s'.state == s.state && s'.start == s.start
    requires s'.memory
             == s.memory[s.state := Evaluate(deps, formula, s.inputs[s.obj], s.memory[s.state], p.stages[k][lane][i])]
    requires forall k': nat, lane': nat, i': nat | At(p, k', lane', i') ::
               Passed(p, s', k', lane', i') <==> Passed(p, s, k', lane', i') || (k' == k && lane' == lane && i' == i)
    ensures DataOk(p, deps, formula, schedule, s')
  {
    TurnComputes(p, deps, formula, schedule, s, k, lane, i);
    var expected := Expected(deps, formula, schedule, s);
    forall k': nat, lane': nat, i': nat | At(p, k', lane', i') ensures SlotOk(p, s', expected, k', lane', i') {
      assert SlotOk(p, s, expected, k', lane', i');
      assert p.stages[k'][lane'][i'] in schedule;
      if p.stages[k'][lane'][i'] == p.stages[k][lane][i] {
        assert Holds(p, p.stages[k][lane][i], k', lane', i') && Holds(p, p.stages[k][lane][i], k, lane, i);
      }
    }
  }

  /** A step without a store passes no new place. */
  lemma SilentKeepsData(p: Plan, deps: Dependencies, formula: Formula, schedule: seq<nat>, s: System, s': System)
    requires PlanOk(p, deps, schedule) && Control(p, deps, s) && Running(s) && DataOk(p, deps, formula, schedule, s)
    requires Shaped(p, deps, s') && s'.inputs == s.inputs && s'.obj == s.obj && s'.state == s.state
             && s'.start == s.start
    requires s'.memory == s.memory
    requires Running(s') ==> forall k: nat, lane: nat, i: nat | At(p, k, lane, i) ::
                               Passed(p, s', k, lane, i) <==> Passed(p, s, k, lane, i)
    ensures DataOk(p, deps, formula, schedule, s')
  {
    if Running(s') {
      forall k: nat, lane: nat, i: nat | At(p, k, lane, i)
        ensures SlotOk(p, s', Expected(deps, formula, schedule, s), k, lane, i)
      {
        assert SlotOk(p, s, Expected(deps, formula, schedule, s), k, lane, i);
      }
    }
  }

  lemma PublishStartsData(p: Plan, deps: Dependencies, formula: Formula, schedule: seq<nat>, s: System)
    requires PlanOk(p, deps, schedule) && Control(p, deps, s) && CallerEnabled(p, deps, s) && s.caller.Publish?
    ensures DataOk(p, deps, formula, schedule, CallerStep(p, deps, formula, s))
  {
    var s' := CallerStep(p, deps, formula, s);
    forall id | 0 <= id < |deps| && id !in schedule
      ensures s'.memory[s'.state][id] == Expected(deps, formula, schedule, s')[id]
    {
      UnscheduledKept(deps, formula, s'.inputs[s'.obj], s'.start[s'.state], schedule, id);
    }
    forall k: nat, lane: nat, i: nat | At(p, k, lane, i) ensures !Passed(p, s', k, lane, i) {
      if lane > 0 { assert WorkerOk(p, s, lane - 1); }
    }
  }

  lemma CallerKeepsData(p: Plan, deps: Dependencies, formula: Formula, schedule: seq<nat>, s: System)
    requires PlanOk(p, deps, schedule) && Control(p, deps, s) && CallerEnabled(p, deps, s)
    requires DataOk(p, deps, formula, schedule, s)
    ensures DataOk(p, deps, formula, schedule, CallerStep(p, deps, formula, s))
  {
    var s' := CallerStep(p, deps, formula, s);
    if s.caller.Publish? {
      PublishStartsData(p, deps, formula, schedule, s);
    } else if Running(s) {
      if s.caller.Run? && s.caller.index < |Nodes(p, s.caller.stage, 0)| {
        StoreKeepsData(p, deps, formula, schedule, s, s', s.caller.stage, 0, s.caller.index);
      } else {
        SilentKeepsData(p, deps, formula, schedule, s, s');
      }
    }
  }

  /** The worker's next step stores the node at this place. */
  ghost predicate Stores(p: Plan, s: System, lane: nat, k: nat, l: nat, i: nat)
    requires 1 <= lane <= |s.workers|
  {
    var pc := s.workers[lane - 1].pc;
    pc.Work? && pc.index < |Nodes(p, pc.stage, lane)| && pc.stage == k && lane == l && pc.index == i
  }

  /** What one step of a worker passes: the node it stores, or nothing. */
  lemma LanePasses(p: Plan, deps: Dependencies, formula: Formula, s: System, lane: nat, k: nat, l: nat, i: nat)
    requires DependenciesOk(deps) && Control(p, deps, s) && LaneEnabled(p, deps, s, lane) && Running(s)
             && At(p, k, l, i)
    ensures Passed(p, LaneStep(p, deps, formula, s, lane), k, l, i)
            <==> Passed(p, s, k, l, i) || Stores(p, s, lane, k, l, i)
  {
    LaneOnly(p, deps, formula, s, lane);
    assert WorkerOk(p, s, lane - 1);
  }

  lemma LaneKeepsData(p: Plan, deps: Dependencies, formula: Formula, schedule: seq<nat>, s: System, lane: nat)
    requires PlanOk(p, deps, schedule) && Control(p, deps, s) && LaneEnabled(p, deps, s, lane)
    requires DataOk(p, deps, formula, schedule, s)
    ensures DataOk(p, deps, formula, schedule, LaneStep(p, deps, formula, s, lane))
  {
    var s' := LaneStep(p, deps, formula, s, lane);
    LaneOnly(p, deps, formula, s, lane);
    assert WorkerOk(p, s, lane - 1);
    if Running(s) {
      forall k: nat, l: nat, i: nat | At(p, k, l, i)
        ensures Passed(p, s', k, l, i) <==> Passed(p, s, k, l, i) || Stores(p, s, lane, k, l, i)
      {
        LanePasses(p, deps, formula, s, lane, k, l, i);
      }
      LaneStoresData(p, deps, formula, schedule, s, s', lane);
    }
  }

  lemma LaneStoresData(p: Plan, deps: Dependencies, formula: Formula, schedule: seq<nat>, s: System, s': System,
                       lane: nat)
    requires PlanOk(p, deps, schedule) && Control(p, deps, s) && LaneEnabled(p, deps, s, lane) && Running(s)
    requires DataOk(p, deps, formula, schedule, s) && s' == LaneStep(p, deps, formula, s, lane) && Shaped(p, deps, s')
    requires forall k: nat, l: nat, i: nat | At(p, k, l, i) ::
               Passed(p, s', k, l, i) <==> Passed(p, s, k, l, i) || Stores(p, s, lane, k, l, i)
    ensures DataOk(p, deps, formula, schedule, s')
  {
    assert WorkerOk(p, s, lane - 1);
    var w := s.workers[lane - 1];
    if w.pc.Work? && w.pc.index < |Nodes(p, w.pc.stage, lane)| {
      StoreKeepsData(p, deps, formula, schedule, s, s', w.pc.stage, lane, w.pc.index);
    } else {
      SilentKeepsData(p, deps, formula, schedule, s, s');
    }
  }

  // ----- The main theorem ------------------------------------------------------------------------

  ghost predicate Invariant(p: Plan, deps: Dependencies, formula: Formula, schedule: seq<nat>, s: System)
    requires Topological(deps, schedule)
  {
    Safe(p, deps, s) && DataOk(p, deps, formula, schedule, s)
  }

  lemma {:induction false} StepKeepsInvariant(p: Plan, deps: Dependencies, formula: Formula, schedule: seq<nat>,
                                              s: System, e: Event)
    requires PlanOk(p, deps, schedule) && Invariant(p, deps, formula, schedule, s) && Enabled(p, deps, s, e)
    ensures Invariant(p, deps, formula, schedule, Apply(p, deps, formula, s, e))
  {
    StepIsSafe(p, deps, formula, s, e);
    match e
    case Caller => CallerKeepsData(p, deps, formula, schedule, s);
    case Lane(lane) => LaneKeepsData(p, deps, formula, schedule, s, lane);
    case _ =>
  }

  lemma {:induction false} ReachableInvariant(p: Plan, deps: Dependencies, formula: Formula, schedule: seq<nat>,
                                             trace: seq<System>, events: seq<Event>, t: nat)
    requires PlanOk(p, deps, schedule) && Execution(p, deps, formula, trace, events) && t < |trace|
    ensures Invariant(p, deps, formula, schedule, trace[t])
    decreases t
  {
    if t == 0 {
      InitialControl(p, deps, trace[0]);
    } else {
      ReachableInvariant(p, deps, formula, schedule, trace, events, t - 1);
      StepKeepsInvariant(p, deps, formula, schedule, trace[t - 1], events[t - 1]);
    }
  }

  /** The caller is about to return from `run`. */
  ghost predicate Returning(p: Plan, s: System) {
    |p.stages| >= 1 && s.caller == Await(|p.stages| - 1, p.lanes)
  }

  /** In every interleaving, when `run` returns the memory of its state is the
      sequential result, every other state is untouched, and each lane has run
      each stage of each command so far exactly once. */
  lemma ParallelEqualsSequential(p: Plan, deps: Dependencies, formula: Formula, schedule: seq<nat>,
                                 trace: seq<System>, events: seq<Event>, t: nat)
    requires PlanOk(p, deps, schedule) && Execution(p, deps, formula, trace, events) && t < |trace|
    requires Returning(p, trace[t])
    ensures var s := trace[t];
            && TargetOk(s, s.obj, s.state) && |s.start| == |s.memory| && |s.start[s.state]| == |deps|
            && s.memory == s.start[s.state := RunSchedule(deps, formula, s.inputs[s.obj], s.start[s.state], schedule)]
            && (forall c: nat, k: nat, lane: nat ::
                  (c, k, lane) in s.log <==> 1 <= c <= s.commandValue && k < |p.stages| && lane < p.lanes)
            && forall a, b | 0 <= a < b < |s.log| :: s.log[a] != s.log[b]
  {
    ReachableInvariant(p, deps, formula, schedule, trace, events, t);
    var s := trace[t];
    var expected := Expected(deps, formula, schedule, s);
    forall id | 0 <= id < |deps| ensures s.memory[s.state][id] == expected[id] {
      if id in schedule {
        var n :| 0 <= n < |schedule| && schedule[n] == id;
        assert Placed(p, schedule[n]);
        var k: nat, lane: nat, i: nat :| Holds(p, schedule[n], k, lane, i);
        if lane > 0 { assert WorkerOk(p, s, lane - 1); }
        assert SlotOk(p, s, expected, k, lane, i);
      }
    }
    assert s.memory[s.state] == expected;
    forall lane: nat | lane < p.lanes ensures StagesDone(p, s, lane) == |p.stages| {
      if lane > 0 { assert WorkerOk(p, s, lane - 1); }
    }
  }

  // ----- One call of run --------------------------------------------------------------------------

  /** The caller is inside `run`. */
  predicate InRun(s: System) { s.caller.StoreState? || s.caller.Publish? || Running(s) }

  /** State `s` lies within the call of `run` that event `e` began in `s0`: it
      uses the object and the state that were passed, and nobody else has touched
      the inputs or, until the command was published, the memory. */
  ghost predicate WithinCall(s0: System, e: Event, s: System) {
    && e.Begin? && InRun(s) && TargetOk(s0, e.obj, e.state) && s.inputs == s0.inputs && s.obj == e.obj
    && (if s.caller.StoreState? then s.caller.state == e.state else s.state == e.state)
    && (if Running(s) then s.start == s0.memory && s.commandValue == s0.commandValue + 1
        else s.memory == s0.memory && s.commandValue == s0.commandValue)
  }

  /** Every state inside `run` belongs to the call that began last. */
  lemma {:induction false} CallOf(p: Plan, deps: Dependencies, formula: Formula, schedule: seq<nat>,
                                  trace: seq<System>, events: seq<Event>, t: nat) returns (b: nat)
    requires PlanOk(p, deps, schedule) && Execution(p, deps, formula, trace, events) && t < |trace| && InRun(trace[t])
    ensures b < t && WithinCall(trace[b], events[b], trace[t])
    ensures forall k | b < k < t :: events[k].Caller? || events[k].Lane?
    decreases t
  {
    assert t > 0;
    CallContinues(p, deps, formula, schedule, trace, events, t - 1);
    if events[t - 1].Begin? { b := t - 1; } else { b := CallOf(p, deps, formula, schedule, trace, events, t - 1); }
  }

  /** A state inside `run` comes after the call that began it or after another such state. */
  lemma CallContinues(p: Plan, deps: Dependencies, formula: Formula, schedule: seq<nat>, trace: seq<System>,
                      events: seq<Event>, t: nat)
    requires PlanOk(p, deps, schedule) && Execution(p, deps, formula, trace, events) && t < |events|
    requires InRun(trace[t + 1])
    ensures if events[t].Begin? then WithinCall(trace[t], events[t], trace[t + 1])
            else
              && InRun(trace[t]) && (events[t].Caller? || events[t].Lane?)
              && forall s0: System, e: Event | WithinCall(s0, e, trace[t]) :: WithinCall(s0, e, trace[t + 1])
  {
    ReachableInvariant(p, deps, formula, schedule, trace, events, t);
    ExecutionStep(p, deps, formula, trace, events, t);
    if events[t].Begin? {
      CallBegins(p, deps, formula, trace[t], events[t]);
    } else {
      CallGoesOn(p, deps, formula, trace[t], events[t]);
      forall s0: System, e: Event | WithinCall(s0, e, trace[t]) ensures WithinCall(s0, e, trace[t + 1]) {
        CallKept(p, deps, formula, s0, e, trace[t], events[t]);
      }
    }
  }

  lemma ExecutionStep(p: Plan, deps: Dependencies, formula: Formula, trace: seq<System>, events: seq<Event>, t: nat)
    requires Execution(p, deps, formula, trace, events) && t < |events|
    ensures Shaped(p, deps, trace[t]) && Enabled(p, deps, trace[t], events[t])
    ensures trace[t + 1] == Apply(p, deps, formula, trace[t], events[t])
  {}

  lemma CallBegins(p: Plan, deps: Dependencies, formula: Formula, s: System, e: Event)
    requires DependenciesOk(deps) && Control(p, deps, s) && Enabled(p, deps, s, e) && e.Begin?
    ensures WithinCall(s, e, Apply(p, deps, formula, s, e))
  {}

  lemma CallGoesOn(p: Plan, deps: Dependencies, formula: Formula, s: System, e: Event)
    requires DependenciesOk(deps) && Control(p, deps, s) && Enabled(p, deps, s, e) && !e.Begin?
    requires InRun(Apply(p, deps, formula, s, e))
    ensures InRun(s) && (e.Caller? || e.Lane?)
  {}

  lemma CallKept(p: Plan, deps: Dependencies, formula: Formula, s0: System, begin: Event, s: System, e: Event)
    requires DependenciesOk(deps) && Control(p, deps, s) && Enabled(p, deps, s, e) && (e.Caller? || e.Lane?)
    requires WithinCall(s0, begin, s) && InRun(Apply(p, deps, formula, s, e))
    ensures WithinCall(s0, begin, Apply(p, deps, formula, s, e))
  {
    if e.Lane? { assert WorkerOk(p, s, e.lane - 1); }
  }

  /** Whatever the interleaving, `run(obj, state)` returns with the memory of
      that state advanced by the sequential schedule on the inputs of that
      object, from what it was when `run` was called, and all else as it was. */
  lemma RunReturns(p: Plan, deps: Dependencies, formula: Formula, schedule: seq<nat>, trace: seq<System>,
                   events: seq<Event>, t: nat) returns (b: nat)
    requires PlanOk(p, deps, schedule) && Execution(p, deps, formula, trace, events)
    requires t < |trace| && Returning(p, trace[t])
    ensures b < t && events[b].Begin? && TargetOk(trace[b], events[b].obj, events[b].state)
    ensures forall k | b < k < t :: events[k].Caller? || events[k].Lane?
    ensures var before, state := trace[b].memory, events[b].state;
            && |before[state]| == |deps|
            && trace[t].memory
               == before[state := RunSchedule(deps, formula, trace[b].inputs[events[b].obj], before[state], schedule)]
  {
    ParallelEqualsSequential(p, deps, formula, schedule, trace, events, t);
    b := CallOf(p, deps, formula, schedule, trace, events, t);
  }

  // ----- Progress ------------------------------------------------------------------------------------

  /** The next command number would be the stop bit. */
  predicate Exhausted(s: System) { s.caller.Publish? && !CommandLeft(s) }

  /** Some thread can take a step that is not a spinning read, also while the
      last legal command runs. */
  lemma NoDeadlock(p: Plan, deps: Dependencies, s: System) returns (e: Event)
    requires Control(p, deps, s) && !s.caller.Stopped? && !Exhausted(s)
    ensures Enabled(p, deps, s, e)
    ensures !s.caller.Idle? ==> e.Caller? || e.Lane?
  {
    e := if s.caller.Idle? then Stop else Caller;
    if (s.caller.Await? || s.caller.Join?) && s.caller.lane < p.lanes {
      assert WorkerOk(p, s, s.caller.lane - 1);
      if !CallerEnabled(p, deps, s) { e := Lane(s.caller.lane); }
    }
  }

  /** Exactly when nothing can happen any more before the destructor ran: the
      caller would have to publish the stop bit as a command. */
  lemma StuckExactly(p: Plan, deps: Dependencies, s: System)
    requires Control(p, deps, s) && !s.caller.Stopped?
    ensures (forall e: Event :: !Enabled(p, deps, s, e)) <==> Exhausted(s)
  {
    if Exhausted(s) {
      forall e: Event ensures !Enabled(p, deps, s, e) {
        if e.Lane? && 1 <= e.lane <= |s.workers| { assert WorkerOk(p, s, e.lane - 1); }
      }
    } else {
      var e := NoDeadlock(p, deps, s);
    }
  }

  // ----- The destructor ------------------------------------------------------------------------------

  /** When the destructor is done, every worker has left, and nothing runs any more. */
  lemma JoinedAll(p: Plan, deps: Dependencies, formula: Formula, schedule: seq<nat>, trace: seq<System>,
                  events: seq<Event>, t: nat)
    requires PlanOk(p, deps, schedule) && Execution(p, deps, formula, trace, events)
    requires t < |trace| && trace[t].caller.Stopped?
    ensures forall l | 0 <= l < |trace[t].workers| :: trace[t].workers[l].pc == Exited
    ensures |trace[t].workers| == p.lanes - 1 && t == |events|
  {
    ReachableInvariant(p, deps, formula, schedule, trace, events, t);
    if t < |events| { NothingAfterStop(p, deps, trace[t], events[t]); }
  }

  lemma NothingAfterStop(p: Plan, deps: Dependencies, s: System, e: Event)
    requires Control(p, deps, s) && s.caller.Stopped?
    ensures !Enabled(p, deps, s, e)
  {}

  /** Workers that have not left. */
  ghost function Remaining(workers: seq<Worker>): nat {
    if workers == [] then 0
    else Remaining(workers[..|workers| - 1]) + if workers[|workers| - 1].pc == Exited then 0 else 1
  }

  /** The steps left before the destructor is done: one for each worker that has
      not left, one for each join, and one to return. */
  ghost function ShutdownLeft(p: Plan, s: System): nat
    requires s.caller.Join? ==> s.caller.lane <= p.lanes
  {
    if s.caller.Join? then p.lanes - s.caller.lane + 1 + Remaining(s.workers) else 0
  }

  lemma {:induction false} RemainingLeaves(workers: seq<Worker>, k: nat, w: Worker)
    requires k < |workers| && workers[k].pc != Exited && w.pc == Exited
    ensures Remaining(workers[k := w]) + 1 == Remaining(workers)
  {
    var last := |workers| - 1;
    if k == last {
      assert workers[k := w][..last] == workers[..last];
    } else {
      RemainingLeaves(workers[..last], k, w);
      assert workers[k := w][..last] == workers[..last][k := w];
    }
  }

  lemma {:induction false} RemainingAll(workers: seq<Worker>)
    requires forall l | 0 <= l < |workers| :: workers[l].pc != Exited
    ensures Remaining(workers) == |workers|
  {
    if workers != [] { RemainingAll(workers[..|workers| - 1]); }
  }

  /** It starts with one step to take for each worker, one for each join and one to return. */
  lemma ShutdownStarts(p: Plan, deps: Dependencies, formula: Formula, s: System)
    requires DependenciesOk(deps) && Control(p, deps, s) && Enabled(p, deps, s, Stop)
    ensures var s' := Apply(p, deps, formula, s, Stop);
            s'.caller == Join(1) && ShutdownLeft(p, s') == 2 * p.lanes - 1
  {
    forall l | 0 <= l < |s.workers| ensures s.workers[l].pc != Exited { assert WorkerOk(p, s, l); }
    RemainingAll(s.workers);
  }

  /** Once it has started, only the caller and the workers move, each of their
      steps uses up exactly one, and with the last one it is done. */
  lemma ShutdownTerminates(p: Plan, deps: Dependencies, formula: Formula, s: System, e: Event)
    requires DependenciesOk(deps) && Control(p, deps, s) && s.caller.Join? && Enabled(p, deps, s, e)
    ensures var s' := Apply(p, deps, formula, s, e);
            && (s'.caller.Join? || s'.caller.Stopped?) && (s'.caller.Join? ==> s'.caller.lane <= p.lanes)
            && ShutdownLeft(p, s') + 1 == ShutdownLeft(p, s) && (s'.caller.Stopped? <==> ShutdownLeft(p, s') == 0)
  {
    match e
    case Caller => if s.caller.lane == p.lanes { RemainingNone(s.workers); }
    case Lane(lane) =>
      assert WorkerOk(p, s, lane - 1);
      RemainingLeaves(s.workers, lane - 1, s.workers[lane - 1].(pc := Exited));
  }

  lemma {:induction false} RemainingNone(workers: seq<Worker>)
    requires forall l | 0 <= l < |workers| :: workers[l].pc == Exited
    ensures Remaining(workers) == 0
  {
    if workers != [] { RemainingNone(workers[..|workers| - 1]); }
  }

  /** Micro-steps a lane still owes from the beginning of stage `k`. */
  ghost function Owed(p: Plan, k: nat, lane: nat): nat
    requires k <= |p.stages|
    decreases |p.stages| - k
  {
    if k == |p.stages| then 0 else |Nodes(p, k, lane)| + p.lanes + 4 + Owed(p, k + 1, lane)
  }

  ghost function CallerLeft(p: Plan, s: System): nat {
    match s.caller
    case Run(k, i) => if k < |p.stages| && i <= |Nodes(p, k, 0)| then Owed(p, k, 0) - i else 0
    case Await(k, l) => if k < |p.stages| && l <= p.lanes then Owed(p, k + 1, 0) + 2 + p.lanes - l else 0
    case Release(k) => if k < |p.stages| then Owed(p, k + 1, 0) + 1 else 0
    case _ => 0
  }

  ghost function LaneLeft(p: Plan, s: System, w: Worker, lane: nat): nat {
    match w.pc
    case Watch => if w.observed == s.commandValue then 0 else Owed(p, 0, lane) + 3
    case LoadObject => Owed(p, 0, lane) + 2
    case LoadState => Owed(p, 0, lane) + 1
    case Work(k, i) => if k < |p.stages| && i <= |Nodes(p, k, lane)| then Owed(p, k, lane) - i else 0
    case Report(k) => if k < |p.stages| then Owed(p, k + 1, lane) + 2 else 0
    case AwaitRelease(k) => if k < |p.stages| then Owed(p, k + 1, lane) + 1 else 0
    case Exited => 0
  }

  ghost function LanesLeft(p: Plan, s: System, n: nat): nat
    requires n <= |s.workers|
  {
    if n == 0 then 0 else LanesLeft(p, s, n - 1) + LaneLeft(p, s, s.workers[n - 1], n)
  }

  /** An upper bound on the steps left before the running command returns. */
  ghost function StepsLeft(p: Plan, s: System): nat { CallerLeft(p, s) + LanesLeft(p, s, |s.workers|) }

  lemma {:induction false} LanesLeftSame(p: Plan, s: System, s': System, n: nat)
    requires n <= |s.workers| == |s'.workers| && s.commandValue == s'.commandValue
    requires forall l | 0 <= l < n :: s.workers[l] == s'.workers[l]
    ensures LanesLeft(p, s, n) == LanesLeft(p, s', n)
  {
    if n > 0 { LanesLeftSame(p, s, s', n - 1); }
  }

  lemma {:induction false} LanesLeftDrop(p: Plan, s: System, s': System, n: nat, lane: nat)
    requires 1 <= lane <= n <= |s.workers| == |s'.workers| && s.commandValue == s'.commandValue
    requires forall l | 0 <= l < n && l != lane - 1 :: s.workers[l] == s'.workers[l]
    requires LaneLeft(p, s', s'.workers[lane - 1], lane) < LaneLeft(p, s, s.workers[lane - 1], lane)
    ensures LanesLeft(p, s', n) < LanesLeft(p, s, n)
  {
    if n == lane { LanesLeftSame(p, s, s', n - 1); } else { LanesLeftDrop(p, s, s', n - 1, lane); }
  }

  lemma LaneUsesStep(p: Plan, deps: Dependencies, formula: Formula, s: System, lane: nat)
    requires DependenciesOk(deps) && Control(p, deps, s) && Running(s) && LaneEnabled(p, deps, s, lane)
    ensures var s' := LaneStep(p, deps, formula, s, lane);
            |s'.workers| == |s.workers|
              && LaneLeft(p, s', s'.workers[lane - 1], lane) < LaneLeft(p, s, s.workers[lane - 1], lane)
  {
    assert WorkerOk(p, s, lane - 1);
  }

  lemma CallerUsesStep(p: Plan, deps: Dependencies, formula: Formula, s: System)
    requires DependenciesOk(deps) && Control(p, deps, s) && Running(s) && CallerEnabled(p, deps, s)
    ensures var s' := CallerStep(p, deps, formula, s);
            && s'.workers == s.workers && s'.commandValue == s.commandValue
            && (Running(s') ==> CallerLeft(p, s') < CallerLeft(p, s))
    ensures CallerLeft(p, s) > 0
  {}

  /** A running command returns within StepsLeft steps of its threads, however
      they are scheduled: each of their steps uses up at least one. */
  lemma CommandTerminates(p: Plan, deps: Dependencies, formula: Formula, s: System, e: Event)
    requires DependenciesOk(deps) && Control(p, deps, s) && Running(s) && Enabled(p, deps, s, e)
             && (e.Caller? || e.Lane?)
    ensures var s' := Apply(p, deps, formula, s, e); Running(s') ==> StepsLeft(p, s') < StepsLeft(p, s)
    ensures StepsLeft(p, s) > 0
  {
    match e
    case Caller =>
      var s' := CallerStep(p, deps, formula, s);
      CallerUsesStep(p, deps, formula, s);
      LanesLeftSame(p, s, s', |s.workers|);
    case Lane(lane) =>
      var s' := LaneStep(p, deps, formula, s, lane);
      LaneOnly(p, deps, formula, s, lane);
      LaneUsesStep(p, deps, formula, s, lane);
      LanesLeftDrop(p, s, s', |s.workers|, lane);
  }

  // ----- Token reuse ----------------------------------------------------------------------------------

  /** No two stages of the first `n` commands share a token. */
  ghost predicate TokensDiffer(p: Plan, n: nat) {
    forall c: nat, k: nat, c': nat, k': nat | 1 <= c <= n && 1 <= c' <= n && k < |p.stages| && k' < |p.stages|
      && Token(p, c, k) == Token(p, c', k') ::
      c == c' && k == k'
  }

  /** From the first stage of the first command to the last stage of the last. */
  function TokenSpan(p: Plan, n: nat): int { (n - 1) * (|p.stages| + 1) + |p.stages| - 1 }

  /** How many commands get by without a reused token: with one stage any
      number, with more exactly those whose span stays below 2^64. */
  lemma TokensDistinct(p: Plan, n: nat)
    requires 1 <= |p.stages| <= 8 && n >= 1
    ensures TokensDiffer(p, n) <==> |p.stages| == 1 || TokenSpan(p, n) < WORD
  {
    if |p.stages| > 1 {
      if TokenSpan(p, n) < WORD {
        forall c: nat, k: nat, c': nat, k': nat | 1 <= c <= n && 1 <= c' <= n && k < |p.stages| && k' < |p.stages|
          && Token(p, c, k) == Token(p, c', k')
          ensures c == c' && k == k'
        {
          NearTokens(p, n, c, k, c', k');
        }
      } else {
        var c, k := ReusedToken(p, n);
      }
    }
  }

  /** The number a token reduces modulo 2^64. */
  function Ordinal(stages: nat, c: nat, k: nat): nat { c * (stages + 1) + k + 1 }

  lemma NearTokens(p: Plan, n: nat, c: nat, k: nat, c': nat, k': nat)
    requires 2 <= |p.stages| <= 8 && TokenSpan(p, n) < WORD && 1 <= c <= n && 1 <= c' <= n && k < |p.stages|
             && k' < |p.stages|
    requires Token(p, c, k) == Token(p, c', k')
    ensures c == c' && k == k'
  {
    OrdinalsNear(|p.stages|, n, c, k, c', k');
    OrdinalsNear(|p.stages|, n, c', k', c, k);
    var x, y := Ordinal(|p.stages|, c, k), Ordinal(|p.stages|, c', k');
    assert x % WORD == y % WORD && x - y < WORD && y - x < WORD;
    assert x == y;
    OrdinalsDiffer(|p.stages|, c, k, c', k');
  }

  lemma OrdinalsNear(stages: nat, n: nat, c: nat, k: nat, c': nat, k': nat)
    requires 1 <= c <= n && 1 <= c' <= n && k < stages && k' < stages
    ensures Ordinal(stages, c, k) - Ordinal(stages, c', k') <= (n - 1) * (stages + 1) + stages - 1
  {
    assert Ordinal(stages, c, k) - Ordinal(stages, c', k') == (c - c') * (stages + 1) + k - k';
    assert (n - 1 - (c - c')) * (stages + 1) >= 0;
  }

  lemma OrdinalsDiffer(stages: nat, c: nat, k: nat, c': nat, k': nat)
    requires k < stages && k' < stages && Ordinal(stages, c, k) == Ordinal(stages, c', k')
    ensures c == c' && k == k'
  {
    var d := stages + 1;
    Spread(c - c', d);
    Spread(c' - c, d);
    assert (c - c') * d == c * d - c' * d && (c' - c) * d == c' * d - c * d;
  }

  /** 2^64 numbers after the first token comes a token again. */
  lemma ReusedToken(p: Plan, n: nat) returns (c: nat, k: nat)
    requires 2 <= |p.stages| <= 8 && n >= 1 && TokenSpan(p, n) >= WORD
    ensures 1 < c <= n && k < |p.stages| && Token(p, c, k) == Token(p, 1, 0)
  {
    var d := |p.stages| + 1;
    c, k := 1 + WORD / d, WORD % d;
    WordResidue(d);
    assert WORD == (c - 1) * d + k;
    assert c * d + k + 1 == WORD + (d + 1);
  }

  /** The residue never names the slot that a command leaves out. */
  lemma WordResidue(d: nat)
    requires 3 <= d <= 9
    ensures WORD % d < d - 1 && WORD / d >= 1 && WORD == (WORD / d) * d + WORD % d
  {}

  /** The same of every run: what its lanes have worked off by the time `run`
      returns was told apart by tokens exactly as long as the span fits. */
  lemma TokensOfRun(p: Plan, deps: Dependencies, formula: Formula, schedule: seq<nat>, trace: seq<System>,
                    events: seq<Event>, t: nat)
    requires PlanOk(p, deps, schedule) && Execution(p, deps, formula, trace, events) && t < |trace|
             && Returning(p, trace[t])
    ensures var s := trace[t];
            (forall a, b | a in s.log && b in s.log && Token(p, a.0, a.1) == Token(p, b.0, b.1) ::
               a.0 == b.0 && a.1 == b.1)
            <==> |p.stages| == 1 || TokenSpan(p, s.commandValue) < WORD
  {
    var s := trace[t];
    ParallelEqualsSequential(p, deps, formula, schedule, trace, events, t);
    ReachableInvariant(p, deps, formula, schedule, trace, events, t);
    TokensDistinct(p, s.commandValue);
    if forall a, b | a in s.log && b in s.log && Token(p, a.0, a.1) == Token(p, b.0, b.1) :: a.0 == b.0 && a.1 == b.1 {
      forall c: nat, k: nat, c': nat, k': nat | 1 <= c <= s.commandValue && 1 <= c' <= s.commandValue && k < |p.stages|
        && k' < |p.stages|
          && Token(p, c, k) == Token(p, c', k') ensures c == c' && k == k' {
        assert (c, k, 0) in s.log && (c', k', 0) in s.log;
      }
    }
  }
}

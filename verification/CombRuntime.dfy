/** The emitted threaded runtime (CombsOptimizer emit, Combs.cpp): the caller and
    N - 1 persistent workers, a command word, one completion slot per worker and
    a stage-release word, all as sequentially consistent steps. */
module CombRuntime {
  import opened Common
  import opened CombPlan

  const STOP_BIT: nat := 0x8000_0000_0000_0000

  /** Where the caller is in `run` or in the destructor. */
  datatype CallerPc =
    | Idle
    | StoreState(state: nat)
    | Publish
    | Run(stage: nat, index: nat)
    | Await(stage: nat, lane: nat)
    | Release(stage: nat)
    | Join(lane: nat)
    | Stopped

  datatype WorkerPc =
    | Watch
    | LoadObject
    | LoadState
    | Work(stage: nat, index: nat)
    | Report(stage: nat)
    | AwaitRelease(stage: nat)
    | Exited

  datatype Worker = Worker(pc: WorkerPc, observed: nat, obj: nat, state: nat)

  /** Shared words, the two plain pointers, all memory, and ghost history:
      `start` is the memory when the command was published. */
  datatype System = System(
    command: nat, commandValue: nat, stageRelease: nat, completed: seq<nat>,
    obj: nat, state: nat,
    caller: CallerPc, workers: seq<Worker>,
    inputs: seq<int>, memory: seq<seq<int>>,
    start: seq<seq<int>>, log: seq<(nat, nat, nat)>)

  datatype Event =
    | Begin(obj: nat, state: nat)             // run(obj, state) is called
    | Environment(inputs: seq<int>, memory: seq<seq<int>>)   // anything outside run
    | Stop                                       // the destructor
    | Caller
    | Lane(lane: nat)                            // a step of worker `lane`

  /** The value that closes a stage; a single stage uses the command itself. */
  function Token(p: Plan, command: nat, stage: nat): nat {
    if |p.stages| == 1 then command else (command * (|p.stages| + 1) + stage + 1) % WORD
  }

  function Nodes(p: Plan, stage: nat, lane: nat): seq<nat> {
    if stage < |p.stages| && lane < |p.stages[stage]| then p.stages[stage][lane] else []
  }

  ghost predicate Shaped(p: Plan, deps: Dependencies, s: System) {
    && |s.completed| == |s.workers| == p.lanes - 1
    && (forall t | 0 <= t < |s.memory| :: |s.memory[t]| == |deps|)
    && |s.start| == |s.memory|
    && (forall t | 0 <= t < |s.start| :: |s.start[t]| == |deps|)
  }

  ghost predicate Initial(p: Plan, deps: Dependencies, s: System) {
    && p.lanes >= 1 && Shaped(p, deps, s)
    && s.command == s.commandValue == s.stageRelease == 0
    && s.caller == Idle && s.log == []
    && forall l | 0 <= l < |s.workers| :: s.completed[l] == 0 && s.workers[l].pc == Watch && s.workers[l].observed == 0
  }

  predicate TargetOk(s: System, obj: nat, state: nat) { obj < |s.inputs| && state < |s.memory| }

  /** Command numbers stay below the stop bit. */
  predicate CommandLeft(s: System) { s.commandValue + 1 < STOP_BIT }

  // ----- Steps that do something (a spinning read is no step) ----------------

  ghost predicate CallerEnabled(p: Plan, deps: Dependencies, s: System) {
    match s.caller
    case Idle => false
    case StoreState(state) => TargetOk(s, s.obj, state)
    case Publish => CommandLeft(s) && TargetOk(s, s.obj, s.state)
    case Run(stage, index) =>
      TargetOk(s, s.obj, s.state)
      && (index < |Nodes(p, stage, 0)| ==> Nodes(p, stage, 0)[index] < |deps|)
    case Await(stage, lane) =>
      lane >= 1 && (lane < p.lanes ==>
                    lane - 1 < |s.completed| && s.completed[lane - 1] == Token(p, s.commandValue, stage))
    case Release(stage) => true
    case Join(lane) => lane >= 1 && (lane < p.lanes ==> lane - 1 < |s.workers| && s.workers[lane - 1].pc == Exited)
    case Stopped => false
  }

  ghost predicate LaneEnabled(p: Plan, deps: Dependencies, s: System, lane: nat) {
    1 <= lane <= |s.workers| && |s.completed| == |s.workers| &&
    var w := s.workers[lane - 1];
    match w.pc
    case Watch => s.command >= STOP_BIT || s.command != w.observed
    case LoadObject => true
    case LoadState => true
    case Work(stage, index) =>
      TargetOk(s, w.obj, w.state)
      && (index < |Nodes(p, stage, lane)| ==> Nodes(p, stage, lane)[index] < |deps|)
    case Report(stage) => true
    case AwaitRelease(stage) => s.stageRelease == Token(p, w.observed, stage)
    case Exited => false
  }

  ghost predicate Enabled(p: Plan, deps: Dependencies, s: System, e: Event) {
    match e
    case Begin(obj, state) => s.caller == Idle && TargetOk(s, obj, state)
    case Environment(inputs, memory) =>
      s.caller == Idle && |memory| == |s.memory| && forall t | 0 <= t < |memory| :: |memory[t]| == |deps|
    case Stop => s.caller == Idle
    case Caller => CallerEnabled(p, deps, s)
    case Lane(lane) => LaneEnabled(p, deps, s, lane)
  }

  ghost function Store(deps: Dependencies, formula: Formula, s: System, obj: nat, state: nat, id: nat): System
    requires DependenciesOk(deps) && TargetOk(s, obj, state) && |s.memory[state]| == |deps| && id < |deps|
  {
    s.(memory := s.memory[state := Evaluate(deps, formula, s.inputs[obj], s.memory[state], id)])
  }

  ghost function CallerStep(p: Plan, deps: Dependencies, formula: Formula, s: System): System
    requires DependenciesOk(deps) && Shaped(p, deps, s) && CallerEnabled(p, deps, s)
  {
    match s.caller
    case StoreState(state) => s.(state := state, caller := Publish)
    case Publish =>
      s.(commandValue := s.commandValue + 1, command := s.commandValue + 1, caller := Run(0, 0), start := s.memory)
    case Run(stage, index) =>
      if index < |Nodes(p, stage, 0)| then
        Store(deps, formula, s, s.obj, s.state, Nodes(p, stage, 0)[index]).(caller := Run(stage, index + 1))
      else s.(caller := Await(stage, 1), log := s.log + [(s.commandValue, stage, 0)])
    case Await(stage, lane) =>
      if lane < p.lanes then s.(caller := Await(stage, lane + 1))
      else if stage + 1 != |p.stages| then s.(caller := Release(stage))
      else s.(caller := Idle)
    case Release(stage) => s.(stageRelease := Token(p, s.commandValue, stage), caller := Run(stage + 1, 0))
    case Join(lane) => s.(caller := if lane < p.lanes then Join(lane + 1) else Stopped)
  }

  ghost function LaneStep(p: Plan, deps: Dependencies, formula: Formula, s: System, lane: nat): System
    requires DependenciesOk(deps) && Shaped(p, deps, s) && LaneEnabled(p, deps, s, lane)
  {
    var k := lane - 1;
    var w := s.workers[k];
    match w.pc
    case Watch =>
      if s.command >= STOP_BIT then s.(workers := s.workers[k := w.(pc := Exited)])
      else s.(workers := s.workers[k := w.(pc := LoadObject, observed := s.command)])
    case LoadObject => s.(workers := s.workers[k := w.(pc := LoadState, obj := s.obj)])
    case LoadState => s.(workers := s.workers[k := w.(pc := Work(0, 0), state := s.state)])
    case Work(stage, index) =>
      if index < |Nodes(p, stage, lane)| then
        Store(deps, formula, s, w.obj, w.state, Nodes(p, stage, lane)[index])
        .(workers := s.workers[k := w.(pc := Work(stage, index + 1))])
      else s.(workers := s.workers[k := w.(pc := Report(stage))], log := s.log + [(w.observed, stage, lane)])
    case Report(stage) =>
      s.(completed := s.completed[k := Token(p, w.observed, stage)],
         workers := s.workers[k := w.(pc := if stage + 1 != |p.stages| then AwaitRelease(stage) else Watch)])
    case AwaitRelease(stage) => s.(workers := s.workers[k := w.(pc := Work(stage + 1, 0))])
  }

  ghost function Apply(p: Plan, deps: Dependencies, formula: Formula, s: System, e: Event): System
    requires DependenciesOk(deps) && Shaped(p, deps, s) && Enabled(p, deps, s, e)
  {
    match e
    case Begin(obj, state) => s.(obj := obj, caller := StoreState(state))
    case Environment(inputs, memory) => s.(inputs := inputs, memory := memory)
    case Stop => s.(command := s.command + STOP_BIT, caller := Join(1))
    case Caller => CallerStep(p, deps, formula, s)
    case Lane(lane) => LaneStep(p, deps, formula, s, lane)
  }

  // ----- The invariant ---------------------------------------------------------

  /** The caller is inside a published command. */
  predicate Running(s: System) { s.caller.Run? || s.caller.Await? || s.caller.Release? }

  function Stage(s: System): nat
    requires Running(s)
  {
    s.caller.stage
  }

  /** The completion value a lane shows before it reports stage `k` of `c`. */
  function ShownBefore(p: Plan, c: nat, k: nat): nat
    requires |p.stages| >= 1
  {
    if k > 0 then Token(p, c, k - 1) else if c <= 1 then 0 else Token(p, c - 1, |p.stages| - 1)
  }

  /** The release value before stage `k` of command `c` is released. */
  function ReleasedBefore(p: Plan, c: nat, k: nat): nat
    requires |p.stages| >= 1
  {
    if k > 0 then Token(p, c, k - 1)
    else if c <= 1 || |p.stages| == 1 then 0
    else Token(p, c - 1, |p.stages| - 2)
  }

  /** A worker that has finished stage `k` of the running command `c`. */
  ghost predicate Finished(p: Plan, c: nat, k: nat, w: Worker, shown: nat) {
    && w.observed == c && shown == Token(p, c, k)
    && w.pc == if k + 1 == |p.stages| then Watch else AwaitRelease(k)
  }

  /** A worker somewhere before the end of stage `k` of command `c`. */
  ghost predicate InStage(p: Plan, s: System, k: nat, w: Worker, shown: nat)
    requires |p.stages| >= 1
  {
    var c := s.commandValue;
    && shown == ShownBefore(p, c, k)
    && match w.pc
       case Watch => k == 0 && w.observed == c - 1
       case LoadObject => k == 0 && w.observed == c
       case LoadState => k == 0 && w.observed == c && w.obj == s.obj
       case Work(stage, index) => stage == k && w.observed == c && w.obj == s.obj && w.state == s.state
       case Report(stage) => stage == k && w.observed == c && w.obj == s.obj && w.state == s.state
       case AwaitRelease(stage) => k > 0 && stage == k - 1 && w.observed == c && w.obj == s.obj && w.state == s.state
       case Exited => false
  }

  ghost predicate WorkerOk(p: Plan, s: System, l: nat)
    requires l < |s.workers| == |s.completed| && |p.stages| >= 1
  {
    var w, shown := s.workers[l], s.completed[l];
    if Running(s) then
      var k := Stage(s);
      if s.caller.Run? then InStage(p, s, k, w, shown) || (FinishedHere(p, s, k, w, shown))
      else if s.caller.Await? && l >= s.caller.lane - 1 then InStage(p, s, k, w, shown)
           || FinishedHere(p, s, k, w, shown)
      else FinishedHere(p, s, k, w, shown)
    else
      && shown == ShownBefore(p, s.commandValue + 1, 0)
      && ((w.pc == Watch && w.observed == s.commandValue) || (w.pc == Exited && (s.caller.Join? || s.caller.Stopped?)))
  }

  ghost predicate FinishedHere(p: Plan, s: System, k: nat, w: Worker, shown: nat) {
    Finished(p, s.commandValue, k, w, shown) && (w.pc.AwaitRelease? ==> w.obj == s.obj && w.state == s.state)
  }

  /** No worker is left. */
  ghost predicate AllExited(s: System) { forall l | 0 <= l < |s.workers| :: s.workers[l].pc == Exited }

  ghost predicate CallerOk(p: Plan, s: System)
    requires |p.stages| >= 1
  {
    && s.commandValue < STOP_BIT
    && s.command == (if s.caller.Join? || s.caller.Stopped? then s.commandValue + STOP_BIT else s.commandValue)
    && (if Running(s) then
          && s.commandValue >= 1 && Stage(s) < |p.stages|
          && s.stageRelease == ReleasedBefore(p, s.commandValue, Stage(s))
          && TargetOk(s, s.obj, s.state)
        else s.stageRelease == ReleasedBefore(p, s.commandValue + 1, 0))
    && match s.caller
       case StoreState(state) => TargetOk(s, s.obj, state)
       case Publish => TargetOk(s, s.obj, s.state)
       case Run(stage, index) => index <= |Nodes(p, stage, 0)|
       case Await(stage, lane) => 1 <= lane <= p.lanes
       case Release(stage) => stage + 1 < |p.stages|
       case Join(lane) => 1 <= lane <= p.lanes
         && forall l | 0 <= l < lane - 1 && l < |s.workers| :: s.workers[l].pc == Exited
       case Stopped => AllExited(s)
       case _ => true
  }

  /** How far a lane is in the running command: (stage, nodes done in it). */
  ghost predicate Passed(p: Plan, s: System, stage: nat, lane: nat, i: nat) {
    if !Running(s) then true
    else if lane == 0 then
      stage < Stage(s) || (stage == Stage(s) && (s.caller.Run? ==> i < s.caller.index))
    else if lane - 1 < |s.workers| then
      var w := s.workers[lane - 1];
      match w.pc
      case Watch => w.observed == s.commandValue
      case LoadObject => false
      case LoadState => false
      case Work(at, index) => stage < at || (stage == at && i < index)
      case Report(at) => stage <= at
      case AwaitRelease(at) => stage <= at
      case Exited => true
    else true
  }

  /** Stages of the current command that a lane has finished. */
  ghost function StagesDone(p: Plan, s: System, lane: nat): nat {
    if !Running(s) then |p.stages|
    else if lane == 0 then (if s.caller.Run? then Stage(s) else Stage(s) + 1)
    else if lane - 1 < |s.workers| then
      var w := s.workers[lane - 1];
      match w.pc
      case Watch => if w.observed == s.commandValue then |p.stages| else 0
      case LoadObject => 0
      case LoadState => 0
      case Work(at, _) => at
      case Report(at) => at + 1
      case AwaitRelease(at) => at + 1
      case Exited => |p.stages|
    else 0
  }

  /** The log holds each finished (command, stage, lane) exactly once. */
  ghost predicate LogOk(p: Plan, s: System)
    requires |p.stages| >= 1
  {
    && (forall a, b | 0 <= a < b < |s.log| :: s.log[a] != s.log[b])
    && forall c: nat, k: nat, lane: nat :: (c, k, lane) in s.log <==>
         && 1 <= c <= s.commandValue && k < |p.stages| && lane < p.lanes
         && (c == s.commandValue ==> k < StagesDone(p, s, lane))
  }

  /** Indices stay inside the node lists. */
  ghost predicate IndicesOk(p: Plan, s: System) {
    forall l | 0 <= l < |s.workers| :: s.workers[l].pc.Work? ==>
      s.workers[l].pc.index <= |Nodes(p, s.workers[l].pc.stage, l + 1)|
  }

  ghost predicate Control(p: Plan, deps: Dependencies, s: System) {
    && p.lanes >= 1 && 1 <= |p.stages| <= 8
    && (forall k | 0 <= k < |p.stages| :: |p.stages[k]| == p.lanes)
    && (forall k: nat, lane: nat, i: nat | At(p, k, lane, i) :: p.stages[k][lane][i] < |deps|)
    && Shaped(p, deps, s)
    && CallerOk(p, s) && IndicesOk(p, s)
    && forall l | 0 <= l < |s.workers| :: WorkerOk(p, s, l)
  }

  lemma TokenWindow(p: Plan, c: nat, k: nat)
    requires 1 <= |p.stages| <= 8 && 1 <= c && k < |p.stages|
    ensures Token(p, c, k) != ShownBefore(p, c, k)
    ensures k + 1 < |p.stages| ==> Token(p, c, k) != ReleasedBefore(p, c, k)
  {
    var n := |p.stages| + 1;
    if n > 2 {
      var t := c * n + k + 1;
      if k > 0 {
        Shift(c * n + k, 1);
      } else if c == 1 {
      } else {
        assert (c - 1) * n == c * n - n;
        Shift((c - 1) * n + n - 1, 2);
        Shift((c - 1) * n + n - 2, 3);
      }
    }
  }

  lemma Shift(x: nat, d: nat)
    requires 0 < d < WORD
    ensures (x + d) % WORD != x % WORD
  {
    var q, r := x / WORD, x % WORD;
    if r + d < WORD {
      assert (x + d) == q * WORD + (r + d);
    } else {
      assert (x + d) == (q + 1) * WORD + (r + d - WORD);
    }
  }

  lemma InitialControl(p: Plan, deps: Dependencies, s: System)
    requires Initial(p, deps, s) && 1 <= |p.stages| <= 8
    requires forall k | 0 <= k < |p.stages| :: |p.stages[k]| == p.lanes
    requires forall k: nat, lane: nat, i: nat | At(p, k, lane, i) :: p.stages[k][lane][i] < |deps|
    ensures Control(p, deps, s)
  {}

  /** Every step of every thread keeps the control invariant. */
  lemma CallerKeepsControl(p: Plan, deps: Dependencies, formula: Formula, s: System)
    requires DependenciesOk(deps) && Control(p, deps, s) && CallerEnabled(p, deps, s)
    ensures Control(p, deps, CallerStep(p, deps, formula, s))
  {
    var s' := CallerStep(p, deps, formula, s);
    forall l | 0 <= l < |s'.workers| ensures WorkerOk(p, s', l) { CallerKeepsWorker(p, deps, formula, s, l); }
    if Running(s) { TokenWindow(p, s.commandValue, Stage(s)); }
  }

  lemma CallerKeepsWorker(p: Plan, deps: Dependencies, formula: Formula, s: System, l: nat)
    requires DependenciesOk(deps) && Control(p, deps, s) && CallerEnabled(p, deps, s) && l < |s.workers|
    ensures WorkerOk(p, CallerStep(p, deps, formula, s), l)
  {
    assert WorkerOk(p, s, l);
    if Running(s) { TokenWindow(p, s.commandValue, Stage(s)); }
  }

  /** What a lane step leaves alone. */
  ghost predicate OnlyLane(s: System, s': System, k: nat)
    requires k < |s.workers| == |s.completed|
  {
    && |s'.workers| == |s.workers| && |s'.completed| == |s.completed|
    && s' == s.(workers := s.workers[k := s'.workers[k]], completed := s.completed[k := s'.completed[k]],
                memory := s'.memory, log := s'.log)
    && |s'.memory| == |s.memory| && |s.workers| == |s.completed|
  }

  lemma LaneOnly(p: Plan, deps: Dependencies, formula: Formula, s: System, lane: nat)
    requires DependenciesOk(deps) && Shaped(p, deps, s) && LaneEnabled(p, deps, s, lane)
    ensures OnlyLane(s, LaneStep(p, deps, formula, s, lane), lane - 1)
    ensures Shaped(p, deps, LaneStep(p, deps, formula, s, lane))
  {
    var s' := LaneStep(p, deps, formula, s, lane);
    assert s'.completed == s.completed[lane - 1 := s'.completed[lane - 1]];
  }

  lemma OtherWorkers(p: Plan, s: System, s': System, k: nat)
    requires |p.stages| >= 1 && k < |s.workers| == |s.completed| && OnlyLane(s, s', k)
    requires forall l | 0 <= l < |s.workers| :: WorkerOk(p, s, l)
    ensures forall l | 0 <= l < |s'.workers| && l != k :: WorkerOk(p, s', l)
  {
    forall l | 0 <= l < |s'.workers| && l != k ensures WorkerOk(p, s', l) {
      assert WorkerOk(p, s, l);
    }
  }

  lemma OwnWorker(p: Plan, deps: Dependencies, formula: Formula, s: System, lane: nat)
    requires DependenciesOk(deps) && Control(p, deps, s) && LaneEnabled(p, deps, s, lane)
    ensures var s' := LaneStep(p, deps, formula, s, lane);
            |s'.workers| == |s'.completed| == |s.workers| && WorkerOk(p, s', lane - 1)
  {
    assert WorkerOk(p, s, lane - 1);
    if Running(s) { TokenWindow(p, s.commandValue, Stage(s)); }
  }

  lemma OwnIndex(p: Plan, deps: Dependencies, formula: Formula, s: System, lane: nat)
    requires DependenciesOk(deps) && Control(p, deps, s) && LaneEnabled(p, deps, s, lane)
    ensures IndicesOk(p, LaneStep(p, deps, formula, s, lane))
  {
    LaneOnly(p, deps, formula, s, lane);
  }

  lemma LaneKeepsControl(p: Plan, deps: Dependencies, formula: Formula, s: System, lane: nat)
    requires DependenciesOk(deps) && Control(p, deps, s) && LaneEnabled(p, deps, s, lane)
    ensures Control(p, deps, LaneStep(p, deps, formula, s, lane))
  {
    var s' := LaneStep(p, deps, formula, s, lane);
    LaneOnly(p, deps, formula, s, lane);
    OtherWorkers(p, s, s', lane - 1);
    OwnWorker(p, deps, formula, s, lane);
    OwnIndex(p, deps, formula, s, lane);
  }
}

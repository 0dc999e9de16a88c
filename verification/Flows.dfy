/** Exit predicates of CppGraph.h and what a lowered statement means: for every
    evaluation that reaches it, the exit and the storage of a direct run. */
module Flows {
  import opened Common
  import opened Terms
  import opened Programs
  import opened SymbolicState

  /** Static loops are unrolled at most this often. */
  const LIMIT: nat := 65536

  datatype Bit = Zero | One | Variable

  /** What graph.resolved can tell of a term: a constant, or its known bits. It
      may be any sound knowledge; `operate` is the meaning it was derived for. */
  datatype Oracle = Oracle(known: Term -> Option<nat>, domain: Term -> Option<seq<Bit>>,
                           operate: (nat, seq<nat>) -> nat)

  /** Bit 0 comes first. */
  predicate Fits(bits: seq<Bit>, x: nat)
    decreases |bits|
  {
    if bits == [] then x == 0
    else (bits[0].Variable? || (bits[0].One? <==> x % 2 == 1)) && Fits(bits[1..], x / 2)
  }

  ghost predicate Sound(o: Oracle) {
    && (forall t: Term, w: World {:trigger Eval(t, w)} | w.operate == o.operate && o.known(t).Some? ::
          Eval(t, w) == o.known(t).value)
    && forall t: Term, w: World {:trigger Eval(t, w)} | w.operate == o.operate && o.domain(t).Some? ::
         Fits(o.domain(t).value, Eval(t, w))
  }

  lemma KnownIs(o: Oracle, t: Term, w: World)
    requires Sound(o) && w.operate == o.operate
    ensures o.known(t).Some? ==> Eval(t, w) == o.known(t).value
    ensures o.domain(t).Some? ==> Fits(o.domain(t).value, Eval(t, w))
  {
    var x := Eval(t, w);
  }

  predicate Dead(o: Oracle, t: Term) { o.known(t) == Some(0) }

  // ----- Flows ----------------------------------------------------------------------------------

  datatype Flow = Flow(normal: Term, broken: Term, continued: Term, returned: Term, result: Option<Term>)

  const YES: Term := Constant(1, 1)
  const NO: Term := Constant(1, 0)

  function Straight(): Flow { Flow(YES, NO, NO, NO, None) }

  function CollectExits(o: Oracle, into: Flow, from: Flow, enabled: Term): Flow {
    var returning := And(enabled, from.returned);
    into.(broken := Or(into.broken, And(enabled, from.broken)),
          continued := Or(into.continued, And(enabled, from.continued)),
          returned := Or(into.returned, returning),
          result := if from.result.None? || Dead(o, returning) then into.result
                    else if into.result.None? then from.result
                    else Some(Mux(returning, from.result.value, into.result.value)))
  }

  /** The predicates name exactly this exit, and the result is its value. */
  ghost predicate FlowIs(flow: Flow, exit: Exit, w: World) {
    && (Holds(flow.normal, w) <==> exit.Normal?)
    && (Holds(flow.broken, w) <==> exit.Breaks?)
    && (Holds(flow.continued, w) <==> exit.Continues?)
    && (Holds(flow.returned, w) <==> exit.Returns?)
    && ResultIs(flow.result, exit, w)
  }

  ghost predicate ResultIs(result: Option<Term>, exit: Exit, w: World) {
    exit.Returns? && exit.value.Some? ==> result.Some? && Eval(result.value, w) == exit.value.value
  }

  lemma CollectDisabled(o: Oracle, into: Flow, from: Flow, enabled: Term, w: World)
    requires Sound(o) && w.operate == o.operate && !Holds(enabled, w)
    ensures var f := CollectExits(o, into, from, enabled);
            && f.normal == into.normal
            && (Holds(f.broken, w) <==> Holds(into.broken, w)) && (Holds(f.continued, w) <==> Holds(into.continued, w))
            && (Holds(f.returned, w) <==> Holds(into.returned, w))
            && (into.result.Some? ==> f.result.Some? && Eval(f.result.value, w) == Eval(into.result.value, w))
  {
    var returning := And(enabled, from.returned);
    assert !Holds(returning, w) && !Holds(And(enabled, from.broken), w) && !Holds(And(enabled, from.continued), w);
  }

  lemma CollectEnabled(o: Oracle, into: Flow, from: Flow, enabled: Term, exit: Exit, w: World)
    requires Sound(o) && w.operate == o.operate && Holds(enabled, w) && FlowIs(from, exit, w)
    ensures var f := CollectExits(o, into, from, enabled);
            && f.normal == into.normal
            && (Holds(f.broken, w) <==> Holds(into.broken, w) || exit.Breaks?)
            && (Holds(f.continued, w) <==> Holds(into.continued, w) || exit.Continues?)
            && (Holds(f.returned, w) <==> Holds(into.returned, w) || exit.Returns?)
            && ResultIs(f.result, exit, w)
  {
    var returning := And(enabled, from.returned);
    KnownIs(o, returning, w);
    assert Holds(returning, w) <==> exit.Returns?;
    assert (Holds(And(enabled, from.broken), w) <==> exit.Breaks?)
           && (Holds(And(enabled, from.continued), w) <==> exit.Continues?);
  }

  // ----- The meaning of a lowered statement ----------------------------------------------------------

  /** An evaluation that reaches the state, with the direct run's storage. */
  ghost predicate Admits(o: Oracle, base: nat, scope: set<nat>, st: State, values: Store, w: World) {
    w.operate == o.operate && PathHolds(st.path, w) && Agrees(scope, base, false, st, values, w)
  }

  ghost predicate Simulates(base: nat, scope: set<nat>, st: State, flow: Flow, out: Option<Outcome>, w: World) {
    && out.Some? && FlowIs(flow, out.value.exit, w)
    && Agrees(scope, base, out.value.exit.Returns?, st, out.value.store, w)
  }

  /** Where control does not reach, no memory write is added. */
  ghost predicate Quiet(o: Oracle, st: State, st': State) {
    forall w: World | w.operate == o.operate && !PathHolds(st.path, w) :: LogOf(st'.writes, w) == LogOf(st.writes, w)
  }

  ghost predicate Means(o: Oracle, base: nat, scope: set<nat>, s: Stmt, st: State, flow: Flow, st': State) {
    forall values: Store, w: World | Admits(o, base, scope, st, values, w) ::
      Simulates(base, ScopeAfter(s, scope), st', flow, Exec(s, values, w, LIMIT), w)
  }

  /** The contract of lowering one statement from `st` to `st'`. */
  ghost predicate Lowered(o: Oracle, base: nat, scope: set<nat>, s: Stmt, st: State, flow: Flow, st': State) {
    && StateOk(ScopeAfter(s, scope), st') && Grown(scope, st, st') && Quiet(o, st, st')
    && Means(o, base, scope, s, st, flow, st')
  }

  lemma MeansAt(o: Oracle, base: nat, scope: set<nat>, s: Stmt, st: State, flow: Flow, st': State, values: Store,
                w: World)
    requires Means(o, base, scope, s, st, flow, st') && Admits(o, base, scope, st, values, w)
    ensures Simulates(base, ScopeAfter(s, scope), st', flow, Exec(s, values, w, LIMIT), w)
  {}

  lemma QuietTrans(o: Oracle, a: State, b: State, c: State)
    requires Quiet(o, a, b) && Quiet(o, b, c) && b.path == a.path
    ensures Quiet(o, a, c)
  {}

  lemma AgreesWithin(scope: set<nat>, more: set<nat>, base: nat, returned: bool, st: State, values: Store, w: World)
    requires Agrees(more, base, returned, st, values, w) && scope <= more
    ensures Agrees(scope, base, returned, st, values, w)
  {}

  /** Agreement only depends on what the variables in scope read. */
  lemma AgreesSame(scope: set<nat>, base: nat, returned: bool, st: State, st': State, values: Store, w: World)
    requires Agrees(scope, base, returned, st, values, w) && scope <= st.locals.Keys
    requires LogOf(st'.writes, w) == LogOf(st.writes, w)
    requires forall d | d in scope :: d in st'.locals && st'.locals[d] == st.locals[d]
    requires forall v: Var | InScope(v, scope) ::
               Eval(ReadCell(st'.cells, KeyOf(st.locals, v)), w) == Eval(ReadCell(st.cells, KeyOf(st.locals, v)), w)
    ensures Agrees(scope, base, returned, st', values, w)
  {
    forall v: Var | InScope(v, scope) ensures VarAgrees(base, returned, st'.cells, st'.locals, values, v, w) {
      assert VarAgrees(base, returned, st.cells, st.locals, values, v, w);
    }
  }

  // ----- Simple statements ----------------------------------------------------------------------------

  function Assigned(st: State, v: Var, e: Expr): State
    requires Readable(e, st.locals.Keys) && InScope(v, st.locals.Keys)
  {
    st.(cells := st.cells[KeyOf(st.locals, v) := LowerExpr(st, e)])
  }

  /** Storing an equal value into a variable's storage on both sides. */
  lemma StoreAgrees(scope: set<nat>, base: nat, st: State, v: Var, t: Term, values: Store, w: World)
    requires StateOk(scope, st) && InScope(v, scope) && Agrees(scope, base, false, st, values, w)
    ensures Agrees(scope, base, false, st.(cells := st.cells[KeyOf(st.locals, v) := t]),
                   SetValue(values, v, Eval(t, w)), w)
  {
    var st' := st.(cells := st.cells[KeyOf(st.locals, v) := t]);
    var values' := SetValue(values, v, Eval(t, w));
    forall u: Var | InScope(u, scope) ensures VarAgrees(base, false, st'.cells, st'.locals, values', u, w) {
      assert VarAgrees(base, false, st.cells, st.locals, values, u, w);
      assert u != v ==> KeyOf(st.locals, u) != KeyOf(st.locals, v);
    }
  }

  lemma AssignLowered(o: Oracle, base: nat, scope: set<nat>, v: Var, e: Expr, st: State)
    requires StateOk(scope, st) && Scoped(Assign(v, e), scope)
    ensures Readable(e, st.locals.Keys) && Lowered(o, base, scope, Assign(v, e), st, Straight(), Assigned(st, v, e))
  {
    ReadableMore(e, scope, st.locals.Keys);
    var st' := Assigned(st, v, e);
    forall values: Store, w: World | Admits(o, base, scope, st, values, w)
      ensures Simulates(base, scope, st', Straight(), Exec(Assign(v, e), values, w, LIMIT), w)
    {
      LowerExprExact(scope, base, st, values, e, w);
      StoreAgrees(scope, base, st, v, LowerExpr(st, e), values, w);
    }
  }

  function Queueing(st: State, memory: nat, address: Expr, data: Expr): State
    requires Readable(address, st.locals.Keys) && Readable(data, st.locals.Keys)
  {
    st.(writes := st.writes
        + [QueuedWrite(memory, LowerExpr(st, address), LowerExpr(st, data), ExecutionGuard(st.path))])
  }

  lemma QueueLogs(st: State, q: QueuedWrite, w: World)
    ensures LogOf(st.writes + [q], w) == LogOf(st.writes, w)
            + if Holds(q.enabled, w) then [Write(q.memory, Eval(q.address, w), Eval(q.data, w))] else []
  {
    assert (st.writes + [q])[..|st.writes|] == st.writes;
  }

  lemma QueueLowered(o: Oracle, base: nat, scope: set<nat>, memory: nat, address: Expr, data: Expr, st: State)
    requires StateOk(scope, st) && Scoped(Queue(memory, address, data), scope)
    ensures Readable(address, st.locals.Keys) && Readable(data, st.locals.Keys)
    ensures Lowered(o, base, scope, Queue(memory, address, data), st, Straight(), Queueing(st, memory, address, data))
  {
    ReadableMore(address, scope, st.locals.Keys);
    ReadableMore(data, scope, st.locals.Keys);
    var st' := Queueing(st, memory, address, data);
    var q := st'.writes[|st.writes|];
    forall w: World ensures Holds(q.enabled, w) <==> PathHolds(st.path, w) { GuardExact(st.path, w); }
    forall w: World | !PathHolds(st.path, w) ensures LogOf(st'.writes, w) == LogOf(st.writes, w) {
      QueueLogs(st, q, w);
      assert LogOf(st.writes, w) + [] == LogOf(st.writes, w);
    }
    forall values: Store, w: World | Admits(o, base, scope, st, values, w)
      ensures Simulates(base, scope, st', Straight(), Exec(Queue(memory, address, data), values, w, LIMIT), w)
    {
      LowerExprExact(scope, base, st, values, address, w);
      LowerExprExact(scope, base, st, values, data, w);
      QueueLogs(st, q, w);
      var values' := values.(log := values.log + [Write(memory, Value(address, values, w), Value(data, values, w))]);
      forall v: Var | InScope(v, scope) ensures VarAgrees(base, false, st'.cells, st'.locals, values', v, w) {
        assert VarAgrees(base, false, st.cells, st.locals, values, v, w);
      }
    }
  }

  function Declared(st: State, decl: nat, size: nat, init: Option<Expr>): State
    requires ReadableIf(init, st.locals.Keys)
  {
    var key := LocalKey(st.serial + 1, size);
    st.(serial := st.serial + 1, names := st.names + [key], locals := st.locals[decl := key],
        cells := if init.Some? then st.cells[key := LowerExpr(st, init.value)] else st.cells)
  }

  lemma DeclareLowered(o: Oracle, base: nat, scope: set<nat>, decl: nat, size: nat, init: Option<Expr>, st: State)
    requires StateOk(scope, st) && Scoped(Declare(decl, size, init), scope)
    ensures ReadableIf(init, st.locals.Keys)
            && Lowered(o, base, scope, Declare(decl, size, init), st, Straight(), Declared(st, decl, size, init))
  {
    if init.Some? { ReadableMore(init.value, scope, st.locals.Keys); }
    var st' := Declared(st, decl, size, init);
    forall values: Store, w: World | Admits(o, base, scope, st, values, w)
      ensures Simulates(base, scope + {decl}, st', Straight(), Exec(Declare(decl, size, init), values, w, LIMIT), w)
    {
      if init.Some? { LowerExprExact(scope, base, st, values, init.value, w); }
      var x := if init.Some? then Value(init.value, values, w) else Unwritten(Local(decl), w);
      forall v: Var | InScope(v, scope + {decl})
        ensures VarAgrees(base, false, st'.cells, st'.locals, SetValue(values, Local(decl), x), v, w)
      {
        if v != Local(decl) {
          assert VarAgrees(base, false, st.cells, st.locals, values, v, w);
        } else {
          assert LocalKey(st.serial + 1, size) !in st.cells;
        }
      }
    }
  }

  /** break, continue and return leave the state alone. */
  lemma LeaveLowered(o: Oracle, base: nat, scope: set<nat>, s: Stmt, st: State)
    requires StateOk(scope, st) && Scoped(s, scope) && (s.Skip? || s.Break? || s.Continue? || s.Return?)
    ensures s.Return? ==> ReadableIf(s.result, st.locals.Keys)
    ensures Lowered(o, base, scope, s, st, LeaveFlow(st, s), st)
  {
    if s.Return? && s.result.Some? { ReadableMore(s.result.value, scope, st.locals.Keys); }
    forall values: Store, w: World | Admits(o, base, scope, st, values, w)
      ensures Simulates(base, scope, st, LeaveFlow(st, s), Exec(s, values, w, LIMIT), w)
    {
      if s.Return? {
        if s.result.Some? { LowerExprExact(scope, base, st, values, s.result.value, w); }
        forall v: Var | InScope(v, scope) ensures VarAgrees(base, true, st.cells, st.locals, values, v, w) {
          assert VarAgrees(base, false, st.cells, st.locals, values, v, w);
        }
      }
    }
  }

  function LeaveFlow(st: State, s: Stmt): Flow
    requires s.Return? ==> ReadableIf(s.result, st.locals.Keys)
  {
    match s
    case Break => Straight().(normal := NO, broken := YES)
    case Continue => Straight().(normal := NO, continued := YES)
    case Return(result) =>
      Straight().(normal := NO, returned := YES, result := if result.Some? then Some(LowerExpr(st, result.value))
                                                           else None)
    case _ => Straight()
  }

  // ----- Sequences of statements ------------------------------------------------------------------------

  /** Names declared by a prefix are only in scope where it ends normally. */
  ghost predicate SimulatesAll(base: nat, scope: set<nat>, now: set<nat>, st: State, flow: Flow, out: Option<Outcome>,
                               w: World)
  {
    && out.Some? && FlowIs(flow, out.value.exit, w)
    && Agrees(if out.value.exit.Normal? then now else scope, base, out.value.exit.Returns?, st, out.value.store, w)
  }

  ghost predicate MeansAll(o: Oracle, base: nat, scope: set<nat>, ss: seq<Stmt>, start: State, flow: Flow,
                           now: set<nat>, st: State)
  {
    forall values: Store, w: World | Admits(o, base, scope, start, values, w) ::
      SimulatesAll(base, scope, now, st, flow, ExecAll(ss, values, w, LIMIT), w)
  }

  /** Half-way through a block that began in `start`. A dead suffix is skipped,
      with whatever it would have declared. */
  ghost predicate LoweredAll(o: Oracle, base: nat, scope: set<nat>, ss: seq<Stmt>, start: State, flow: Flow,
                             now: set<nat>, st: State)
  {
    && scope <= now && (Dead(o, flow.normal) || now == ScopeAfterAll(ss, scope))
    && StateOk(now, st) && Grown(scope, start, st) && Quiet(o, start, st)
    && MeansAll(o, base, scope, ss, start, flow, now, st)
  }

  lemma NothingLowered(o: Oracle, base: nat, scope: set<nat>, st: State)
    requires StateOk(scope, st)
    ensures LoweredAll(o, base, scope, [], st, Straight(), scope, st)
  {}

  /** Under a guard: enabled runs simulate, disabled ones change nothing but, at
      most, the function's own locals. */
  ghost predicate GuardedLowered(o: Oracle, base: nat, scope: set<nat>, s: Stmt, enabled: Term, free: bool, st: State,
                                 flow: Flow, st': State)
  {
    && StateOk(ScopeAfter(s, scope), st') && Grown(scope, st, st') && Quiet(o, st, st')
    && (forall values: Store, w: World | Admits(o, base, scope, st, values, w) && Holds(enabled, w) ::
          Simulates(base, ScopeAfter(s, scope), st', flow, Exec(s, values, w, LIMIT), w))
    && forall w: World | w.operate == o.operate && PathHolds(st.path, w) && !Holds(enabled, w) ::
         Skipped(base, free, st, st', w)
  }

  ghost predicate Skipped(base: nat, free: bool, st: State, st': State, w: World) {
    && LogOf(st'.writes, w) == LogOf(st.writes, w)
    && forall k: Key :: (free && Own(k, base)) || Eval(ReadCell(st'.cells, k), w) == Eval(ReadCell(st.cells, k), w)
  }

  function Appended(o: Oracle, flow: Flow, next: Flow): Flow {
    CollectExits(o, flow, next, flow.normal).(normal := And(flow.normal, next.normal))
  }

  lemma AppendFlow(o: Oracle, flow: Flow, next: Flow, exit: Exit, exit': Exit, w: World)
    requires Sound(o) && w.operate == o.operate && FlowIs(flow, exit, w)
    requires if exit.Normal? then FlowIs(next, exit', w) else exit' == exit
    ensures FlowIs(Appended(o, flow, next), exit', w)
  {
    assert Holds(And(flow.normal, next.normal), w) <==> exit.Normal? && Holds(next.normal, w);
    if exit.Normal? {
      CollectEnabled(o, flow, next, flow.normal, exit', w);
    } else { CollectDisabled(o, flow, next, flow.normal, w); }
  }

  lemma SkippedAgrees(scope: set<nat>, base: nat, returned: bool, free: bool, st: State, st': State, values: Store,
                      w: World)
    requires Agrees(scope, base, returned, st, values, w) && Skipped(base, free, st, st', w) && (free ==> returned)
    requires scope <= st.locals.Keys && forall d | d in scope :: d in st'.locals && st'.locals[d] == st.locals[d]
    ensures Agrees(scope, base, returned, st', values, w)
  {
    forall v: Var | InScope(v, scope) ensures VarAgrees(base, returned, st'.cells, st'.locals, values, v, w) {
      assert VarAgrees(base, returned, st.cells, st.locals, values, v, w);
    }
  }

  /** One more statement of a block. Own locals may be left ungated when the
      block can so far only have returned. */
  lemma AppendLowered(o: Oracle, base: nat, scope: set<nat>, ss: seq<Stmt>, s: Stmt, start: State, flow: Flow,
                      now: set<nat>, st: State,
                      free: bool, next: Flow, st': State)
    requires Sound(o) && LoweredAll(o, base, scope, ss, start, flow, now, st) && !Dead(o, flow.normal)
             && scope <= start.locals.Keys
    requires GuardedLowered(o, base, now, s, flow.normal, free, st, next, st')
    requires free ==> Dead(o, flow.broken) && Dead(o, flow.continued)
    ensures LoweredAll(o, base, scope, ss + [s], start, Appended(o, flow, next), ScopeAfter(s, now), st')
  {
    assert (ss + [s])[..|ss|] == ss;
    GrownTrans(scope, now, start, st, st');
    QuietTrans(o, start, st, st');
    forall values: Store, w: World | Admits(o, base, scope, start, values, w)
      ensures SimulatesAll(base, scope, ScopeAfter(s, now), st', Appended(o, flow, next),
                           ExecAll(ss + [s], values, w, LIMIT), w)
    {
      AppendAt(o, base, scope, ss, s, start, flow, now, st, free, next, st', values, w);
    }
  }

  lemma AppendAt(o: Oracle, base: nat, scope: set<nat>, ss: seq<Stmt>, s: Stmt, start: State, flow: Flow, now: set<nat>,
                 st: State,
                 free: bool, next: Flow, st': State, values: Store, w: World)
    requires Sound(o) && LoweredAll(o, base, scope, ss, start, flow, now, st) && scope <= start.locals.Keys
    requires GuardedLowered(o, base, now, s, flow.normal, free, st, next, st')
    requires free ==> Dead(o, flow.broken) && Dead(o, flow.continued)
    requires Admits(o, base, scope, start, values, w)
    ensures SimulatesAll(base, scope, ScopeAfter(s, now), st', Appended(o, flow, next),
                         ExecAll(ss + [s], values, w, LIMIT), w)
  {
    assert (ss + [s])[..|ss|] == ss;
    var out := ExecAll(ss, values, w, LIMIT).value;
    assert FlowIs(flow, out.exit, w);
    if out.exit.Normal? {
      assert Admits(o, base, now, st, out.store, w);
      var out' := Exec(s, out.store, w, LIMIT);
      AppendFlow(o, flow, next, out.exit, out'.value.exit, w);
      if !out'.value.exit.Normal? {
        AgreesWithin(scope, ScopeAfter(s, now), base, out'.value.exit.Returns?, st', out'.value.store, w);
      }
    } else {
      AppendFlow(o, flow, next, out.exit, out.exit, w);
      KnownIs(o, flow.broken, w);
      KnownIs(o, flow.continued, w);
      SkippedAgrees(scope, base, out.exit.Returns?, free, st, st', out.store, w);
    }
  }

  /** A dead suffix is not lowered at all. */
  lemma DeadSuffix(o: Oracle, base: nat, scope: set<nat>, ss: seq<Stmt>, s: Stmt, start: State, flow: Flow,
                   now: set<nat>, st: State)
    requires Sound(o) && LoweredAll(o, base, scope, ss, start, flow, now, st) && Dead(o, flow.normal)
    ensures LoweredAll(o, base, scope, ss + [s], start, flow, now, st)
  {
    assert (ss + [s])[..|ss|] == ss;
    forall values: Store, w: World | Admits(o, base, scope, start, values, w)
      ensures SimulatesAll(base, scope, now, st, flow, ExecAll(ss + [s], values, w, LIMIT), w)
    {
      assert SimulatesAll(base, scope, now, st, flow, ExecAll(ss, values, w, LIMIT), w);
      KnownIs(o, flow.normal, w);
    }
  }

  // ----- Blocks -------------------------------------------------------------------------------------------

  /** releaseLocals: the block's own storage goes, the outer names return. */
  function Released(start: State, st: State): State
    requires |start.names| <= |st.names|
  {
    var gone := set k | k in st.names[|start.names|..];
    st.(cells := st.cells - gone, names := start.names, locals := start.locals)
  }

  lemma BlockLowered(o: Oracle, base: nat, scope: set<nat>, body: seq<Stmt>, start: State, flow: Flow, now: set<nat>,
                     st: State)
    requires StateOk(scope, start) && LoweredAll(o, base, scope, body, start, flow, now, st)
    ensures Lowered(o, base, scope, Block(body), start, flow, Released(start, st))
  {
    var st' := Released(start, st);
    forall k | k in st.names[|start.names|..] ensures k.LocalKey? && k.serial > start.serial {
      var i :| |start.names| <= i < |st.names| && st.names[i] == k;
    }
    assert start.cells.Keys <= st'.cells.Keys;
    forall values: Store, w: World | Admits(o, base, scope, start, values, w)
      ensures Simulates(base, scope, st', flow, Exec(Block(body), values, w, LIMIT), w)
    {
      var out := ExecAll(body, values, w, LIMIT).value;
      assert SimulatesAll(base, scope, now, st, flow, Some(out), w);
      AgreesWithin(scope, if out.exit.Normal? then now else scope, base, out.exit.Returns?, st, out.store, w);
      AgreesSame(scope, base, out.exit.Returns?, st, st', out.store, w);
    }
  }

  // ----- Guarded statements -----------------------------------------------------------------------------------

  function Pushed(st: State, condition: Term, positive: bool): State {
    st.(path := st.path + [Guard(condition, positive)])
  }

  /** continuationLocals: the function's own changed locals are not gated. */
  function FreeOwn(base: nat, before: Cells, after: Cells, merged: Cells): (r: Cells)
    ensures r.Keys == merged.Keys
  {
    map k | k in merged :: if Own(k, base) && k in after && !(k in before && before[k] == after[k]) then after[k]
                           else merged[k]
  }

  function GuardedCells(base: nat, free: bool, before: Cells, after: Cells, merged: Cells): Cells {
    if free then FreeOwn(base, before, after, merged) else merged
  }

  lemma GuardEnabled(o: Oracle, base: nat, scope: set<nat>, s: Stmt, enabled: Term, free: bool, st: State, flow: Flow,
                     after: State, values: Store, w: World)
    requires StateOk(scope, st) && Lowered(o, base, scope, s, Pushed(st, enabled, true), flow, after)
    requires MergeCells(enabled, st.cells, after.cells, st.cells).Some?
    requires Admits(o, base, scope, st, values, w) && Holds(enabled, w)
    ensures var merged := MergeCells(enabled, st.cells, after.cells, st.cells).value;
            Simulates(base, ScopeAfter(s, scope),
                      after.(path := st.path, cells := GuardedCells(base, free, st.cells, after.cells, merged)),
                      flow, Exec(s, values, w, LIMIT), w)
  {
    var merged := MergeCells(enabled, st.cells, after.cells, st.cells).value;
    var st' := after.(path := st.path, cells := GuardedCells(base, free, st.cells, after.cells, merged));
    var pushed := Pushed(st, enabled, true);
    PathPush(st.path, Guard(enabled, true), w);
    assert Admits(o, base, scope, pushed, values, w);
    MeansAt(o, base, scope, s, pushed, flow, after, values, w);
    var out := Exec(s, values, w, LIMIT).value;
    forall k: Key ensures Eval(ReadCell(st'.cells, k), w) == Eval(ReadCell(after.cells, k), w) {
      MergeReads(enabled, st.cells, after.cells, st.cells, k, w);
    }
    AgreesSame(ScopeAfter(s, scope), base, out.exit.Returns?, after, st', out.store, w);
  }

  lemma GuardLowered(o: Oracle, base: nat, scope: set<nat>, s: Stmt, enabled: Term, free: bool, st: State, flow: Flow,
                     after: State)
    requires StateOk(scope, st) && Lowered(o, base, scope, s, Pushed(st, enabled, true), flow, after)
    requires MergeCells(enabled, st.cells, after.cells, st.cells).Some?
    ensures var merged := MergeCells(enabled, st.cells, after.cells, st.cells).value;
            GuardedLowered(o, base, scope, s, enabled, free, st, flow,
                           after.(path := st.path, cells := GuardedCells(base, free, st.cells, after.cells, merged)))
  {
    var merged := MergeCells(enabled, st.cells, after.cells, st.cells).value;
    var st' := after.(path := st.path, cells := GuardedCells(base, free, st.cells, after.cells, merged));
    var pushed := Pushed(st, enabled, true);
    assert merged.Keys == after.cells.Keys + st.cells.Keys;
    forall w: World | w.operate == o.operate && !PathHolds(st.path, w)
      ensures LogOf(st'.writes, w) == LogOf(st.writes, w)
    {
      PathPush(st.path, Guard(enabled, true), w);
    }
    forall values: Store, w: World | Admits(o, base, scope, st, values, w) && Holds(enabled, w)
      ensures Simulates(base, ScopeAfter(s, scope), st', flow, Exec(s, values, w, LIMIT), w)
    {
      GuardEnabled(o, base, scope, s, enabled, free, st, flow, after, values, w);
    }
    forall w: World | w.operate == o.operate && PathHolds(st.path, w) && !Holds(enabled, w)
      ensures Skipped(base, free, st, st', w)
    {
      PathPush(st.path, Guard(enabled, true), w);
      forall k: Key
        ensures (free && Own(k, base)) || Eval(ReadCell(st'.cells, k), w) == Eval(ReadCell(st.cells, k), w)
      {
        MergeReads(enabled, st.cells, after.cells, st.cells, k, w);
      }
    }
  }

  /** A guard known to hold is not needed. */
  lemma UnguardedLowered(o: Oracle, base: nat, scope: set<nat>, s: Stmt, enabled: Term, free: bool, st: State,
                         flow: Flow, st': State)
    requires Sound(o) && Lowered(o, base, scope, s, st, flow, st') && o.known(enabled) == Some(1)
    ensures GuardedLowered(o, base, scope, s, enabled, free, st, flow, st')
  {
    forall w: World | w.operate == o.operate ensures Holds(enabled, w) { KnownIs(o, enabled, w); }
  }

  // ----- Branches ------------------------------------------------------------------------------------------------

  function IfFlow(o: Oracle, condition: Term, yes: Flow, no: Flow): Flow {
    CollectExits(o, CollectExits(o, Straight().(normal := Mux(condition, yes.normal, no.normal)), yes, condition), no,
                 Not(condition))
  }

  lemma IfFlowIs(o: Oracle, condition: Term, yes: Flow, no: Flow, exit: Exit, w: World)
    requires Sound(o) && w.operate == o.operate && FlowIs(if Holds(condition, w) then yes else no, exit, w)
    ensures FlowIs(IfFlow(o, condition, yes, no), exit, w)
  {
    var first := Straight().(normal := Mux(condition, yes.normal, no.normal));
    var half := CollectExits(o, first, yes, condition);
    assert Holds(first.normal, w) <==> exit.Normal?;
    assert Holds(Not(condition), w) <==> !Holds(condition, w);
    if Holds(condition, w) {
      CollectEnabled(o, first, yes, condition, exit, w);
      CollectDisabled(o, half, no, Not(condition), w);
    } else {
      CollectDisabled(o, first, yes, condition, w);
      CollectEnabled(o, half, no, Not(condition), exit, w);
    }
  }

  /** The state in which the else branch starts. */
  function Otherwise(st: State, condition: Term, yes: State): State {
    yes.(cells := st.cells, path := Pushed(st, condition, false).path)
  }

  lemma OtherwiseOk(o: Oracle, base: nat, scope: set<nat>, s: Stmt, st: State, condition: Term, flow: Flow, yes: State)
    requires StateOk(scope, st) && Lowered(o, base, scope, s, Pushed(st, condition, true), flow, yes)
    ensures StateOk(scope, Otherwise(st, condition, yes))
  {}

  function Joined(st: State, no: State, cells: Cells): State { no.(cells := cells, path := st.path) }

  /** Both branches lowered, from the same cells and under opposite guards. */
  ghost predicate IfReady(o: Oracle, base: nat, scope: set<nat>, s: Stmt, st: State, c: Term, yesFlow: Flow, yes: State,
                          noFlow: Flow, no: State, merged: Cells)
  {
    && s.If? && StateOk(scope, st) && Readable(s.cond, scope) && Readable(s.cond, st.locals.Keys)
    && c == Any(LowerExpr(st, s.cond))
    && Lowered(o, base, scope, s.yes, Pushed(st, c, true), yesFlow, yes)
    && Lowered(o, base, scope, s.no, Otherwise(st, c, yes), noFlow, no)
    && MergeCells(c, st.cells, yes.cells, no.cells) == Some(merged)
  }

  lemma IfLowered(o: Oracle, base: nat, scope: set<nat>, s: Stmt, st: State, c: Term, yesFlow: Flow, yes: State,
                  noFlow: Flow, no: State, merged: Cells)
    requires Sound(o) && IfReady(o, base, scope, s, st, c, yesFlow, yes, noFlow, no, merged)
    ensures Lowered(o, base, scope, s, st, IfFlow(o, c, yesFlow, noFlow), Joined(st, no, merged))
  {
    IfShape(o, base, scope, s, st, c, yesFlow, yes, noFlow, no, merged);
    forall values: Store, w: World | Admits(o, base, scope, st, values, w)
      ensures Simulates(base, scope, Joined(st, no, merged), IfFlow(o, c, yesFlow, noFlow), Exec(s, values, w, LIMIT),
                        w)
    {
      IfAt(o, base, scope, s, st, c, yesFlow, yes, noFlow, no, merged, values, w);
    }
  }

  lemma CondExact(scope: set<nat>, base: nat, st: State, values: Store, cond: Expr, w: World)
    requires Readable(cond, scope) && Readable(cond, st.locals.Keys) && Agrees(scope, base, false, st, values, w)
    ensures Holds(Any(LowerExpr(st, cond)), w) <==> Value(cond, values, w) != 0
  {
    LowerExprExact(scope, base, st, values, cond, w);
  }

  lemma IfAt(o: Oracle, base: nat, scope: set<nat>, s: Stmt, st: State, c: Term, yesFlow: Flow, yes: State,
             noFlow: Flow, no: State,
             merged: Cells, values: Store, w: World)
    requires Sound(o) && IfReady(o, base, scope, s, st, c, yesFlow, yes, noFlow, no, merged)
    requires Admits(o, base, scope, st, values, w)
    ensures Simulates(base, scope, Joined(st, no, merged), IfFlow(o, c, yesFlow, noFlow), Exec(s, values, w, LIMIT), w)
  {
    var st' := Joined(st, no, merged);
    CondExact(scope, base, st, values, s.cond, w);
    PathPush(st.path, Guard(c, true), w);
    PathPush(st.path, Guard(c, false), w);
    forall k: Key
      ensures Eval(ReadCell(merged, k), w) == Eval(ReadCell(if Holds(c, w) then yes.cells else no.cells, k), w)
    {
      MergeReads(c, st.cells, yes.cells, no.cells, k, w);
    }
    if Holds(c, w) {
      IfYes(o, base, scope, s, st, c, yesFlow, yes, no, st', values, w);
      IfFlowIs(o, c, yesFlow, noFlow, Exec(s.yes, values, w, LIMIT).value.exit, w);
    } else {
      IfNo(o, base, scope, s, st, c, yesFlow, yes, noFlow, no, st', values, w);
      IfFlowIs(o, c, yesFlow, noFlow, Exec(s.no, values, w, LIMIT).value.exit, w);
    }
  }

  lemma IfShape(o: Oracle, base: nat, scope: set<nat>, s: Stmt, st: State, c: Term, yesFlow: Flow, yes: State,
                noFlow: Flow, no: State, merged: Cells)
    requires IfReady(o, base, scope, s, st, c, yesFlow, yes, noFlow, no, merged)
    ensures var st' := Joined(st, no, merged); StateOk(scope, st') && Grown(scope, st, st') && Quiet(o, st, st')
  {
    assert merged.Keys == yes.cells.Keys + no.cells.Keys;
    forall w: World | w.operate == o.operate && !PathHolds(st.path, w)
      ensures LogOf(no.writes, w) == LogOf(st.writes, w)
    {
      PathPush(st.path, Guard(c, true), w);
      PathPush(st.path, Guard(c, false), w);
    }
    forall i | |st.names| <= i < |no.names| ensures no.names[i].LocalKey? && no.names[i].serial > st.serial {
      if i < |yes.names| { assert no.names[i] == yes.names[i]; }
    }
  }

  lemma IfYes(o: Oracle, base: nat, scope: set<nat>, s: Stmt, st: State, c: Term, yesFlow: Flow, yes: State, no: State,
              st': State, values: Store, w: World)
    requires s.If? && Lowered(o, base, scope, s.yes, Pushed(st, c, true), yesFlow, yes)
             && Admits(o, base, scope, Pushed(st, c, true), values, w)
    requires Quiet(o, Otherwise(st, c, yes), no) && Grown(scope, Otherwise(st, c, yes), no)
             && !PathHolds(Otherwise(st, c, yes).path, w)
    requires st'.writes == no.writes && st'.locals == no.locals && StateOk(scope, yes)
    requires forall k: Key :: Eval(ReadCell(st'.cells, k), w) == Eval(ReadCell(yes.cells, k), w)
    ensures var out := Exec(s.yes, values, w, LIMIT);
            out.Some? && FlowIs(yesFlow, out.value.exit, w)
              && Agrees(scope, base, out.value.exit.Returns?, st', out.value.store, w)
  {
    MeansAt(o, base, scope, s.yes, Pushed(st, c, true), yesFlow, yes, values, w);
    var out := Exec(s.yes, values, w, LIMIT).value;
    AgreesWithin(scope, ScopeAfter(s.yes, scope), base, out.exit.Returns?, yes, out.store, w);
    AgreesSame(scope, base, out.exit.Returns?, yes, st', out.store, w);
  }

  lemma IfNo(o: Oracle, base: nat, scope: set<nat>, s: Stmt, st: State, c: Term, yesFlow: Flow, yes: State,
             noFlow: Flow, no: State, st': State, values: Store, w: World)
    requires s.If? && StateOk(scope, st) && Lowered(o, base, scope, s.yes, Pushed(st, c, true), yesFlow, yes)
    requires Lowered(o, base, scope, s.no, Otherwise(st, c, yes), noFlow, no)
    requires Admits(o, base, scope, st, values, w) && !PathHolds(Pushed(st, c, true).path, w)
             && PathHolds(Otherwise(st, c, yes).path, w)
    requires st'.writes == no.writes && st'.locals == no.locals
    requires forall k: Key :: Eval(ReadCell(st'.cells, k), w) == Eval(ReadCell(no.cells, k), w)
    ensures var out := Exec(s.no, values, w, LIMIT);
            out.Some? && FlowIs(noFlow, out.value.exit, w)
              && Agrees(scope, base, out.value.exit.Returns?, st', out.value.store, w)
  {
    var other := Otherwise(st, c, yes);
    AgreesSame(scope, base, false, st, other, values, w);
    MeansAt(o, base, scope, s.no, other, noFlow, no, values, w);
    var out := Exec(s.no, values, w, LIMIT).value;
    AgreesWithin(scope, ScopeAfter(s.no, scope), base, out.exit.Returns?, no, out.store, w);
    AgreesSame(scope, base, out.exit.Returns?, no, st', out.store, w);
  }

  /** A statement chosen at lowering time. */
  lemma KnownIfLowered(o: Oracle, base: nat, scope: set<nat>, s: Stmt, st: State, x: nat, flow: Flow, st': State)
    requires Sound(o) && StateOk(scope, st) && s.If? && Scoped(s, scope) && Readable(s.cond, st.locals.Keys)
    requires o.known(Any(LowerExpr(st, s.cond))) == Some(x)
    requires Lowered(o, base, scope, if x != 0 then s.yes else s.no, st, flow, st')
    ensures Lowered(o, base, scope, s, st, flow, st')
  {
    var taken := if x != 0 then s.yes else s.no;
    forall values: Store, w: World | Admits(o, base, scope, st, values, w)
      ensures Simulates(base, scope, st', flow, Exec(s, values, w, LIMIT), w)
    {
      KnownIs(o, Any(LowerExpr(st, s.cond)), w);
      LowerExprExact(scope, base, st, values, s.cond, w);
      MeansAt(o, base, scope, taken, st, flow, st', values, w);
      var out := Exec(taken, values, w, LIMIT).value;
      AgreesWithin(scope, ScopeAfter(taken, scope), base, out.exit.Returns?, st', out.store, w);
    }
  }
}

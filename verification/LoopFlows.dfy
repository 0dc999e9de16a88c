/** Unrolled static loops of CppGraph.h: the cursor runs to its bound while the
    exit predicates and the observable induction value follow the direct run. */
module LoopFlows {
  import opened Common
  import opened Terms
  import opened Programs
  import opened SymbolicState
  import opened Flows

  /** The parts of a loop after its setup. */
  datatype Loop = Loop(until: Option<Expr>, inc: Option<Increment>, body: Stmt)

  /** Cells, flow, finished and inductionValue between two unrolled iterations. */
  datatype Unrolling = Unrolling(st: State, flow: Flow, finished: Term, induction: Term)

  function Run(l: Loop, values: Store, w: World, left: nat): Option<Outcome> {
    ExecLoop(l.until, l.inc, l.body, values, w, LIMIT, left)
  }

  ghost predicate LoopScoped(l: Loop, inner: set<nat>) {
    && ReadableIf(l.until, inner) && (l.inc.Some? ==> InScope(l.inc.value.v, inner) && Readable(l.inc.value.e, inner))
    && Scoped(l.body, inner)
  }

  /** The storage with the observable induction value in place of the cursor. */
  function Settled(l: Loop, u: Unrolling): State
    requires l.inc.Some? ==> InScope(l.inc.value.v, u.st.locals.Keys)
  {
    if l.inc.None? then u.st else u.st.(cells := u.st.cells[KeyOf(u.st.locals, l.inc.value.v) := u.induction])
  }

  /** Still running after some iterations, with `left` of them allowed. */
  ghost predicate Active(base: nat, inner: set<nat>, l: Loop, u: Unrolling, now: Store, w: World)
    requires l.inc.Some? ==> InScope(l.inc.value.v, u.st.locals.Keys)
  {
    && Holds(u.flow.normal, w) && !Holds(u.finished, w) && !Holds(u.flow.returned, w)
    && Agrees(inner, base, false, u.st, now, w) && Agrees(inner, base, false, Settled(l, u), now, w)
  }

  /** Left by break or by return. */
  ghost predicate Left(base: nat, inner: set<nat>, l: Loop, u: Unrolling, out: Outcome, w: World)
    requires l.inc.Some? ==> InScope(l.inc.value.v, u.st.locals.Keys)
  {
    && !Holds(u.flow.normal, w) && (out.exit.Normal? || out.exit.Returns?)
    && (Holds(u.finished, w) <==> out.exit.Normal?) && (Holds(u.flow.returned, w) <==> out.exit.Returns?)
    && ResultIs(u.flow.result, out.exit, w)
    && Agrees(inner, base, out.exit.Returns?, Settled(l, u), out.store, w)
  }

  /** Before iteration n, or (with the increment still due) after its body. */
  ghost predicate Follows(base: nat, inner: set<nat>, l: Loop, u: Unrolling, n: nat, due: bool, values: Store, w: World)
    requires (l.inc.Some? ==> InScope(l.inc.value.v, u.st.locals.Keys)) && n <= LIMIT
  {
    || (exists now :: Active(base, inner, l, u, now, w)
                    && Run(l, values, w, LIMIT) == Run(l, if due then ExecInc(l.inc, now, w) else now, w, LIMIT - n))
    || (Run(l, values, w, LIMIT).Some? && Left(base, inner, l, u, Run(l, values, w, LIMIT).value, w))
  }

  ghost predicate Unrolled(o: Oracle, base: nat, inner: set<nat>, l: Loop, start: State, u: Unrolling, n: nat,
                           due: bool)
  {
    && StateOk(inner, start) && StateOk(inner, u.st) && Grown(inner, start, u.st) && Quiet(o, start, u.st) && n <= LIMIT
    && LoopScoped(l, inner)
    && forall values: Store, w: World | Admits(o, base, inner, start, values, w) ::
         Follows(base, inner, l, u, n, due, values, w)
  }

  lemma SettledSame(base: nat, inner: set<nat>, l: Loop, st: State, u: Unrolling, returned: bool, values: Store,
                    w: World)
    requires StateOk(inner, u.st) && LoopScoped(l, inner) && Agrees(inner, base, returned, u.st, values, w)
    requires l.inc.Some? ==> Eval(u.induction, w) == Eval(ReadCell(u.st.cells, KeyOf(u.st.locals, l.inc.value.v)), w)
    ensures Agrees(inner, base, returned, Settled(l, u), values, w)
  {
    AgreesSame(inner, base, returned, u.st, Settled(l, u), values, w);
  }

  lemma LoopStart(o: Oracle, base: nat, inner: set<nat>, l: Loop, start: State, induction: Term)
    requires StateOk(inner, start) && LoopScoped(l, inner)
    requires l.inc.Some? ==> induction == ReadCell(start.cells, KeyOf(start.locals, l.inc.value.v))
    ensures Unrolled(o, base, inner, l, start, Unrolling(start, Straight(), NO, induction), 0, false)
  {
    var u := Unrolling(start, Straight(), NO, induction);
    forall values: Store, w: World | Admits(o, base, inner, start, values, w)
      ensures Follows(base, inner, l, u, 0, false, values, w)
    {
      SettledSame(base, inner, l, start, u, false, values, w);
      assert Active(base, inner, l, u, values, w);
    }
  }

  // ----- One iteration ------------------------------------------------------------------------------

  function AfterBody(o: Oracle, l: Loop, u: Unrolling, next: Flow, st: State): Unrolling
    requires l.inc.Some? ==> InScope(l.inc.value.v, st.locals.Keys)
  {
    var enabled := u.flow.normal;
    Unrolling(st,
              CollectExits(o, u.flow, next, enabled).(normal := And(enabled, Or(next.normal, next.continued))),
              Or(u.finished, And(enabled, next.broken)),
              if l.inc.Some? then Mux(enabled, ReadCell(st.cells, KeyOf(st.locals, l.inc.value.v)), u.induction)
              else u.induction)
  }

  lemma BodyStep(o: Oracle, base: nat, inner: set<nat>, l: Loop, start: State, u: Unrolling, n: nat, next: Flow,
                 st: State)
    requires Sound(o) && Unrolled(o, base, inner, l, start, u, n, false) && n < LIMIT
    requires GuardedLowered(o, base, inner, l.body, u.flow.normal, false, u.st, next, st)
    requires l.until.Some? ==>
             Readable(l.until.value, u.st.locals.Keys) && o.known(LowerExpr(u.st, l.until.value)).Some?
                               && o.known(LowerExpr(u.st, l.until.value)) != Some(0)
    ensures Unrolled(o, base, inner, l, start, AfterBody(o, l, u, next, st), n + 1, true)
  {
    GrownTrans(inner, inner, start, u.st, st);
    QuietTrans(o, start, u.st, st);
    var u' := AfterBody(o, l, u, next, st);
    forall values: Store, w: World | Admits(o, base, inner, start, values, w)
      ensures Follows(base, inner, l, u', n + 1, true, values, w)
    {
      assert Follows(base, inner, l, u, n, false, values, w);
      if now :| Active(base, inner, l, u, now, w) && Run(l, values, w, LIMIT) == Run(l, now, w, LIMIT - n) {
        BodyActive(o, base, inner, l, u, n, next, st, values, now, w);
      } else {
        BodyLeft(o, base, inner, l, u, next, st, Run(l, values, w, LIMIT).value, w);
      }
    }
  }

  lemma UntilHolds(o: Oracle, base: nat, inner: set<nat>, l: Loop, st: State, now: Store, w: World)
    requires Sound(o) && w.operate == o.operate && l.until.Some? && LoopScoped(l, inner)
             && Agrees(inner, base, false, st, now, w)
    requires Readable(l.until.value, st.locals.Keys) && o.known(LowerExpr(st, l.until.value)).Some?
    ensures o.known(LowerExpr(st, l.until.value)) == Some(Value(l.until.value, now, w))
  {
    LowerExprExact(inner, base, st, now, l.until.value, w);
    KnownIs(o, LowerExpr(st, l.until.value), w);
  }

  lemma BodyActive(o: Oracle, base: nat, inner: set<nat>, l: Loop, u: Unrolling, n: nat, next: Flow, st: State,
                   values: Store, now: Store, w: World)
    requires Sound(o) && w.operate == o.operate && LoopScoped(l, inner) && n < LIMIT && StateOk(inner, u.st)
             && PathHolds(u.st.path, w)
    requires GuardedLowered(o, base, inner, l.body, u.flow.normal, false, u.st, next, st)
    requires l.until.Some? ==>
             Readable(l.until.value, u.st.locals.Keys) && o.known(LowerExpr(u.st, l.until.value)).Some?
                               && o.known(LowerExpr(u.st, l.until.value)) != Some(0)
    requires Active(base, inner, l, u, now, w) && Run(l, values, w, LIMIT) == Run(l, now, w, LIMIT - n)
    ensures InScopeAfter(l, st) && Follows(base, inner, l, AfterBody(o, l, u, next, st), n + 1, true, values, w)
  {
    if l.until.Some? { UntilHolds(o, base, inner, l, u.st, now, w); }
    assert Admits(o, base, inner, u.st, now, w);
    var out := Exec(l.body, now, w, LIMIT).value;
    AgreesWithin(inner, ScopeAfter(l.body, inner), base, out.exit.Returns?, st, out.store, w);
    BodyFlow(o, l, u, next, st, out.exit, w);
    var u' := AfterBody(o, l, u, next, st);
    SettledSame(base, inner, l, st, u', out.exit.Returns?, out.store, w);
    if out.exit.Normal? || out.exit.Continues? {
      assert Active(base, inner, l, u', out.store, w);
    }
  }

  ghost predicate InScopeAfter(l: Loop, st: State) { l.inc.Some? ==> InScope(l.inc.value.v, st.locals.Keys) }

  lemma BodyFlow(o: Oracle, l: Loop, u: Unrolling, next: Flow, st: State, exit: Exit, w: World)
    requires Sound(o) && w.operate == o.operate && InScopeAfter(l, st)
    requires Holds(u.flow.normal, w) && !Holds(u.finished, w) && !Holds(u.flow.returned, w) && FlowIs(next, exit, w)
    ensures var u' := AfterBody(o, l, u, next, st);
            && (Holds(u'.flow.normal, w) <==> exit.Normal? || exit.Continues?)
            && (Holds(u'.finished, w) <==> exit.Breaks?) && (Holds(u'.flow.returned, w) <==> exit.Returns?)
            && ResultIs(u'.flow.result, exit, w)
            && (l.inc.Some? ==> Eval(u'.induction, w) == Eval(ReadCell(st.cells, KeyOf(st.locals, l.inc.value.v)), w))
  {
    var enabled := u.flow.normal;
    CollectEnabled(o, u.flow, next, enabled, exit, w);
    assert Holds(Or(next.normal, next.continued), w) <==> exit.Normal? || exit.Continues?;
    assert Holds(And(enabled, next.broken), w) <==> exit.Breaks?;
  }

  lemma BodyLeft(o: Oracle, base: nat, inner: set<nat>, l: Loop, u: Unrolling, next: Flow, st: State, out: Outcome,
                 w: World)
    requires Sound(o) && w.operate == o.operate && LoopScoped(l, inner) && StateOk(inner, u.st) && StateOk(inner, st)
             && PathHolds(u.st.path, w)
    requires GuardedLowered(o, base, inner, l.body, u.flow.normal, false, u.st, next, st)
    requires Left(base, inner, l, u, out, w)
    ensures Left(base, inner, l, AfterBody(o, l, u, next, st), out, w)
  {
    CollectDisabled(o, u.flow, next, u.flow.normal, w);
    LeftSkips(o, base, inner, l, u, next, st, w);
    LeftAgrees(o, base, inner, l, u, next, st, out, w);
  }

  lemma LeftAgrees(o: Oracle, base: nat, inner: set<nat>, l: Loop, u: Unrolling, next: Flow, st: State, out: Outcome,
                   w: World)
    requires Sound(o) && w.operate == o.operate && LoopScoped(l, inner) && StateOk(inner, u.st) && StateOk(inner, st)
             && PathHolds(u.st.path, w)
    requires GuardedLowered(o, base, inner, l.body, u.flow.normal, false, u.st, next, st)
    requires Left(base, inner, l, u, out, w)
    ensures Agrees(inner, base, out.exit.Returns?, Settled(l, AfterBody(o, l, u, next, st)), out.store, w)
  {
    var u' := AfterBody(o, l, u, next, st);
    LeftSkips(o, base, inner, l, u, next, st, w);
    forall k: Key ensures Eval(ReadCell(Settled(l, u').cells, k), w) == Eval(ReadCell(Settled(l, u).cells, k), w) {
      assert Eval(ReadCell(st.cells, k), w) == Eval(ReadCell(u.st.cells, k), w);
    }
    AgreesSame(inner, base, out.exit.Returns?, Settled(l, u), Settled(l, u'), out.store, w);
  }

  /** A run that has left the loop skips the body. */
  lemma LeftSkips(o: Oracle, base: nat, inner: set<nat>, l: Loop, u: Unrolling, next: Flow, st: State, w: World)
    requires Sound(o) && w.operate == o.operate && LoopScoped(l, inner) && StateOk(inner, u.st) && StateOk(inner, st)
    requires PathHolds(u.st.path, w) && !Holds(u.flow.normal, w)
    requires GuardedLowered(o, base, inner, l.body, u.flow.normal, false, u.st, next, st)
    ensures var u' := AfterBody(o, l, u, next, st);
            && !Holds(And(u.flow.normal, next.broken), w) && !Holds(u'.flow.normal, w)
            && Skipped(base, false, u.st, st, w)
            && (forall k: Key :: Eval(ReadCell(st.cells, k), w) == Eval(ReadCell(u.st.cells, k), w))
  {
    CollectDisabled(o, u.flow, next, u.flow.normal, w);
    assert Skipped(base, false, u.st, st, w);
  }

  // ----- The increment ---------------------------------------------------------------------------------

  function AfterInc(l: Loop, u: Unrolling): Unrolling
    requires l.inc.Some? ==> Readable(l.inc.value.e, u.st.locals.Keys) && InScope(l.inc.value.v, u.st.locals.Keys)
  {
    if l.inc.None? then u
    else
      var st := Assigned(u.st, l.inc.value.v, l.inc.value.e);
      u.(st := st, induction := Mux(u.flow.normal, ReadCell(st.cells, KeyOf(st.locals, l.inc.value.v)), u.induction))
  }

  lemma IncStep(o: Oracle, base: nat, inner: set<nat>, l: Loop, start: State, u: Unrolling, n: nat)
    requires Sound(o) && Unrolled(o, base, inner, l, start, u, n, true)
    ensures l.inc.Some? ==> Readable(l.inc.value.e, u.st.locals.Keys)
    ensures Unrolled(o, base, inner, l, start, AfterInc(l, u), n, false)
  {
    if l.inc.Some? { ReadableMore(l.inc.value.e, inner, u.st.locals.Keys); }
    var u' := AfterInc(l, u);
    forall values: Store, w: World | Admits(o, base, inner, start, values, w)
      ensures Follows(base, inner, l, u', n, false, values, w)
    {
      assert Follows(base, inner, l, u, n, true, values, w);
      if now :| Active(base, inner, l, u, now, w)
                && Run(l, values, w, LIMIT) == Run(l, ExecInc(l.inc, now, w), w, LIMIT - n)
      {
        if l.inc.Some? { IncActive(o, base, inner, l, u, now, w); }
        assert Active(base, inner, l, u', ExecInc(l.inc, now, w), w);
      } else {
        if l.inc.Some? { IncLeft(o, base, inner, l, u, Run(l, values, w, LIMIT).value, w); }
        assert Left(base, inner, l, u', Run(l, values, w, LIMIT).value, w);
      }
    }
  }

  lemma IncActive(o: Oracle, base: nat, inner: set<nat>, l: Loop, u: Unrolling, now: Store, w: World)
    requires l.inc.Some? && LoopScoped(l, inner) && StateOk(inner, u.st) && Active(base, inner, l, u, now, w)
    requires Readable(l.inc.value.e, u.st.locals.Keys)
    ensures Active(base, inner, l, AfterInc(l, u), ExecInc(l.inc, now, w), w)
  {
    var u' := AfterInc(l, u);
    LowerExprExact(inner, base, u.st, now, l.inc.value.e, w);
    StoreAgrees(inner, base, u.st, l.inc.value.v, LowerExpr(u.st, l.inc.value.e), now, w);
    SettledSame(base, inner, l, u'.st, u', false, ExecInc(l.inc, now, w), w);
  }

  lemma IncLeft(o: Oracle, base: nat, inner: set<nat>, l: Loop, u: Unrolling, out: Outcome, w: World)
    requires l.inc.Some? && LoopScoped(l, inner) && StateOk(inner, u.st) && Left(base, inner, l, u, out, w)
    requires Readable(l.inc.value.e, u.st.locals.Keys)
    ensures Left(base, inner, l, AfterInc(l, u), out, w)
  {
    var u' := AfterInc(l, u);
    AgreesSame(inner, base, out.exit.Returns?, Settled(l, u), Settled(l, u'), out.store, w);
  }

  // ----- The end of the loop ------------------------------------------------------------------------------

  function LoopFlow(u: Unrolling): Flow {
    u.flow.(normal := Or(u.finished, u.flow.normal), broken := NO, continued := NO)
  }

  /** The unrolling stops where no run is active or the condition is false. */
  ghost predicate Ended(o: Oracle, l: Loop, u: Unrolling) {
    Dead(o, u.flow.normal)
    || (l.until.Some? && Readable(l.until.value, u.st.locals.Keys)
        && o.known(LowerExpr(u.st, l.until.value)) == Some(0))
  }

  lemma LoopEnd(o: Oracle, base: nat, inner: set<nat>, l: Loop, start: State, u: Unrolling, n: nat, due: bool)
    requires Sound(o) && Unrolled(o, base, inner, l, start, u, n, due) && Ended(o, l, u)
             && (due ==> Dead(o, u.flow.normal))
    requires n < LIMIT || Dead(o, u.flow.normal)
    ensures StateOk(inner, Settled(l, u)) && Grown(inner, start, Settled(l, u)) && Quiet(o, start, Settled(l, u))
    ensures forall values: Store, w: World | Admits(o, base, inner, start, values, w) ::
              Simulates(base, inner, Settled(l, u), LoopFlow(u), Run(l, values, w, LIMIT), w)
  {
    forall values: Store, w: World | Admits(o, base, inner, start, values, w)
      ensures Simulates(base, inner, Settled(l, u), LoopFlow(u), Run(l, values, w, LIMIT), w)
    {
      assert Follows(base, inner, l, u, n, due, values, w);
      KnownIs(o, u.flow.normal, w);
      if Run(l, values, w, LIMIT).Some? && Left(base, inner, l, u, Run(l, values, w, LIMIT).value, w) {
        LoopFlowIs(u, Run(l, values, w, LIMIT).value.exit, w);
      } else {
        var now :| Active(base, inner, l, u, now, w)
                   && Run(l, values, w, LIMIT) == Run(l, if due then ExecInc(l.inc, now, w) else now, w, LIMIT - n);
        UntilHolds(o, base, inner, l, u.st, now, w);
        LoopFlowIs(u, Normal, w);
      }
    }
  }

  lemma LoopFlowIs(u: Unrolling, exit: Exit, w: World)
    requires exit.Normal? || exit.Returns?
    requires (Holds(u.finished, w) || Holds(u.flow.normal, w) <==> exit.Normal?)
             && (Holds(u.flow.returned, w) <==> exit.Returns?)
    requires ResultIs(u.flow.result, exit, w)
    ensures FlowIs(LoopFlow(u), exit, w)
  {}

  /** The setup before the loop. */
  lemma ForLowered(o: Oracle, base: nat, scope: set<nat>, s: Stmt, st: State, first: Flow, start: State, flow: Flow,
                   st': State)
    requires s.For? && Scoped(s, scope) && scope <= st.locals.Keys && Lowered(o, base, scope, s.setup, st, first, start)
    requires var inner := ScopeAfter(s.setup, scope);
             && StateOk(inner, st') && Grown(inner, start, st') && Quiet(o, start, st')
             && forall values: Store, w: World | Admits(o, base, inner, start, values, w) ::
                  Simulates(base, inner, st', flow, Run(Loop(s.until, s.inc, s.loop), values, w, LIMIT), w)
    ensures Lowered(o, base, scope, s, st, flow, st')
  {
    var inner := ScopeAfter(s.setup, scope);
    GrownTrans(scope, inner, st, start, st');
    QuietTrans(o, st, start, st');
    forall values: Store, w: World | Admits(o, base, scope, st, values, w)
      ensures Simulates(base, scope, st', flow, Exec(s, values, w, LIMIT), w)
    {
      MeansAt(o, base, scope, s.setup, st, first, start, values, w);
      var begun := Exec(s.setup, values, w, LIMIT).value.store;
      assert Admits(o, base, inner, start, begun, w);
      var out := Run(Loop(s.until, s.inc, s.loop), begun, w, LIMIT).value;
      AgreesWithin(scope, inner, base, out.exit.Returns?, st', out.store, w);
    }
  }
}

/** statement, guardedStatement and appendStatement of CppGraph.h: structured
    code becomes cells, exit predicates and guarded effects. */
module Lowering {
  import opened Common
  import opened Terms
  import opened Programs
  import opened SymbolicState
  import opened Flows
  import opened LoopFlows
  import opened SwitchFlows

  class Lowerer {
    const oracle: Oracle
    const functionSerialBegin: nat
    var cells: Cells
    var locals: map<nat, Key>
    var serial: nat
    var localNames: seq<Key>
    var effectPath: seq<Guard>
    var memoryWrites: seq<QueuedWrite>

    function View(): State
      reads this
    {
      State(cells, locals, serial, localNames, effectPath, memoryWrites)
    }

    constructor (o: Oracle, st: State, begin: nat)
      ensures oracle == o && functionSerialBegin == begin && View() == st
    {
      oracle, functionSerialBegin := o, begin;
      cells, locals, serial, localNames, effectPath, memoryWrites :=
        st.cells, st.locals, st.serial, st.names, st.path, st.writes;
    }

    /** statement. Whatever it accepts keeps its meaning: in every evaluation
        that reaches it, the flow names the exit of a direct run and storage,
        result and memory writes are those of that run. */
    method Statement(body: Stmt, ghost scope: set<nat>) returns (r: Option<Flow>)
      requires Sound(oracle) && StateOk(scope, View()) && Scoped(body, scope)
      modifies this
      ensures r.Some? ==> Lowered(oracle, functionSerialBegin, scope, body, old(View()), r.value, View())
      ensures r.None? ==> body.Block? || body.If? || body.Switch? || body.For?
      decreases body, 3
    {
      match body
      case Assign(v, e) =>
        AssignLowered(oracle, functionSerialBegin, scope, v, e, View());
        cells := cells[KeyOf(locals, v) := LowerExpr(View(), e)];
        return Some(Straight());
      case Queue(memory, address, data) =>
        QueueLowered(oracle, functionSerialBegin, scope, memory, address, data, View());
        memoryWrites := memoryWrites +
          [QueuedWrite(memory, LowerExpr(View(), address), LowerExpr(View(), data), ExecutionGuard(effectPath))];
        return Some(Straight());
      case Declare(decl, size, init) =>
        DeclareLowered(oracle, functionSerialBegin, scope, decl, size, init, View());
        DeclareLocal(decl, size, init);
        return Some(Straight());
      case Block(children) => r := BlockStatement(body, scope);
      case If(_, _, _) => r := IfStatement(body, scope);
      case Switch(_, _, _) => r := SwitchStatement(body, scope);
      case For(_, _, _, _) => r := ForStatement(body, scope);
      case _ =>
        LeaveLowered(oracle, functionSerialBegin, scope, body, View());
        return Some(LeaveFlow(View(), body));
    }

    method DeclareLocal(decl: nat, size: nat, init: Option<Expr>)
      requires ReadableIf(init, locals.Keys)
      modifies this
      ensures View() == Declared(old(View()), decl, size, init)
    {
      var key := LocalKey(serial + 1, size);
      if init.Some? { cells := cells[key := LowerExpr(View(), init.value)]; }
      serial := serial + 1;
      localNames := localNames + [key];
      locals := locals[decl := key];
    }

    /** guardedStatement, for a guard that is not known to be false. */
    method GuardedStatement(body: Stmt, enabled: Term, continuationLocals: bool, ghost scope: set<nat>)
      returns (r: Option<Flow>)
      requires Sound(oracle) && StateOk(scope, View()) && Scoped(body, scope)
      modifies this
      ensures r.Some? ==>
              GuardedLowered(oracle, functionSerialBegin, scope, body, enabled, continuationLocals, old(View()),
                             r.value, View())
      decreases body, 4
    {
      ghost var start := View();
      if oracle.known(enabled) == Some(1) {
        r := Statement(body, scope);
        if r.Some? {
          UnguardedLowered(oracle, functionSerialBegin, scope, body, enabled, continuationLocals, start, r.value,
                           View());
        }
        return;
      }
      var before, path := cells, effectPath;
      effectPath := effectPath + [Guard(enabled, true)];
      assert View() == Pushed(start, enabled, true);
      r := Statement(body, scope);
      if r.None? { return; }
      ghost var after := View();
      var merged := MergeCells(enabled, before, cells, before);
      if merged.None? { return None; }
      GuardLowered(oracle, functionSerialBegin, scope, body, enabled, continuationLocals, start, r.value, after);
      cells := GuardedCells(functionSerialBegin, continuationLocals, before, cells, merged.value);
      effectPath := path;
    }

    /** appendStatement. */
    method AppendStatement(flow: Flow, body: Stmt, ghost done: seq<Stmt>, ghost start: State, ghost scope: set<nat>,
                           ghost now: set<nat>)
      returns (r: Option<Flow>, ghost now': set<nat>)
      requires Sound(oracle) && scope <= start.locals.Keys && Scoped(body, ScopeAfterAll(done, scope))
      requires LoweredAll(oracle, functionSerialBegin, scope, done, start, flow, now, View())
      modifies this
      ensures r.Some? ==> LoweredAll(oracle, functionSerialBegin, scope, done + [body], start, r.value, now', View())
      decreases body, 5
    {
      now' := now;
      if Dead(oracle, flow.normal) {
        DeadSuffix(oracle, functionSerialBegin, scope, done, body, start, flow, now, View());
        return Some(flow), now';
      }
      ghost var before := View();
      var free := !Dead(oracle, flow.returned) && Dead(oracle, flow.broken) && Dead(oracle, flow.continued);
      var next := GuardedStatement(body, flow.normal, free, now);
      if next.None? { return None, now'; }
      AppendLowered(oracle, functionSerialBegin, scope, done, body, start, flow, now, before, free, next.value, View());
      return Some(Appended(oracle, flow, next.value)), ScopeAfter(body, now);
    }

    method AppendAll(children: seq<Stmt>, ghost scope: set<nat>) returns (r: Option<Flow>, ghost now: set<nat>)
      requires Sound(oracle) && StateOk(scope, View()) && ScopedAll(children, scope)
      modifies this
      ensures r.Some? ==> LoweredAll(oracle, functionSerialBegin, scope, children, old(View()), r.value, now, View())
      decreases children, 2
    {
      ghost var start := View();
      now := scope;
      NothingLowered(oracle, functionSerialBegin, scope, start);
      var flow := Straight();
      for i := 0 to |children|
        invariant LoweredAll(oracle, functionSerialBegin, scope, children[..i], start, flow, now, View())
      {
        ScopedPrefix(children, scope, i);
        var next;
        next, now := AppendStatement(flow, children[i], children[..i], start, scope, now);
        if next.None? { return None, now; }
        assert children[..i + 1] == children[..i] + [children[i]];
        flow := next.value;
      }
      assert children[..|children|] == children;
      return Some(flow), now;
    }

    method BlockStatement(body: Stmt, ghost scope: set<nat>) returns (r: Option<Flow>)
      requires body.Block? && Sound(oracle) && StateOk(scope, View()) && Scoped(body, scope)
      modifies this
      ensures r.Some? ==> Lowered(oracle, functionSerialBegin, scope, body, old(View()), r.value, View())
      decreases body, 0
    {
      ghost var start := View();
      var begin, scoped := |localNames|, locals;
      ghost var now;
      r, now := AppendAll(body.body, scope);
      if r.None? { return; }
      BlockLowered(oracle, functionSerialBegin, scope, body.body, start, r.value, now, View());
      cells := cells - set k | k in localNames[begin..];
      localNames := localNames[..begin];
      locals := scoped;
      assert localNames == start.names;
    }

    method IfStatement(body: Stmt, ghost scope: set<nat>) returns (r: Option<Flow>)
      requires body.If? && Sound(oracle) && StateOk(scope, View()) && Scoped(body, scope)
      modifies this
      ensures r.Some? ==> Lowered(oracle, functionSerialBegin, scope, body, old(View()), r.value, View())
      decreases body, 0
    {
      ghost var start := View();
      ReadableMore(body.cond, scope, locals.Keys);
      var condition := Any(LowerExpr(View(), body.cond));
      var known := oracle.known(condition);
      if known.Some? {
        r := Statement(if known.value != 0 then body.yes else body.no, scope);
        if r.Some? { KnownIfLowered(oracle, functionSerialBegin, scope, body, start, known.value, r.value, View()); }
        return;
      }
      r := BranchStatement(body, condition, scope);
    }

    method BranchStatement(body: Stmt, condition: Term, ghost scope: set<nat>) returns (r: Option<Flow>)
      requires body.If? && Sound(oracle) && StateOk(scope, View()) && Scoped(body, scope)
      requires Readable(body.cond, locals.Keys) && condition == Any(LowerExpr(View(), body.cond))
      modifies this
      ensures r.Some? ==> Lowered(oracle, functionSerialBegin, scope, body, old(View()), r.value, View())
      decreases body, 0, 0
    {
      ghost var start := View();
      var before, path := cells, effectPath;
      effectPath := path + [Guard(condition, true)];
      assert View() == Pushed(start, condition, true);
      var yes := Statement(body.yes, scope);
      if yes.None? { return None; }
      ghost var yesState := View();
      var yesCells := cells;
      cells := before;
      effectPath := path + [Guard(condition, false)];
      assert View() == Otherwise(start, condition, yesState);
      OtherwiseOk(oracle, functionSerialBegin, scope, body.yes, start, condition, yes.value, yesState);
      var no := Statement(body.no, scope);
      if no.None? { return None; }
      ghost var noState := View();
      var merged := MergeCells(condition, before, yesCells, cells);
      if merged.None? { return None; }
      IfLowered(oracle, functionSerialBegin, scope, body, start, condition, yes.value, yesState, no.value, noState,
                merged.value);
      cells, effectPath := merged.value, path;
      return Some(IfFlow(oracle, condition, yes.value, no.value));
    }

    // ----- Switch -----------------------------------------------------------------------------------

    /** One labelled entry: the bodies from its label on, break absorbed. */
    method EnterSwitch(n: Selection, k: nat, flow: Flow, ghost scope: set<nat>, ghost before: State, beforeCells: Cells)
      returns (r: Option<Flow>)
      requires Sound(oracle) && k < |n.labels| && beforeCells == before.cells && effectPath == before.path
      requires Entered(oracle, functionSerialBegin, scope, n, before, k, flow, View())
      modifies this
      ensures r.Some? ==> Entered(oracle, functionSerialBegin, scope, n, before, k + 1, r.value, View())
                          && effectPath == before.path
      ensures r.Some? ==> Recorded(oracle, functionSerialBegin, scope, n, before, k, cells)
      ensures r.Some? ==> old(serial) <= serial
      decreases n.parts, 3
    {
      ghost var cur := View();
      var path := effectPath;
      EntryStartOk(oracle, functionSerialBegin, scope, n, before, k, flow, cur);
      cells := beforeCells;
      effectPath := effectPath + [Guard(MatchOf(n, k), true)];
      assert View() == EntryStart(n, before, k, cur);
      PartsScoped(n.parts, n.labels[k].at, scope);
      var branch;
      ghost var now;
      branch, now := AppendAll(n.parts[n.labels[k].at..], scope);
      if branch.None? { return None; }
      EntryStep(oracle, functionSerialBegin, scope, n, before, k, flow, cur, branch.value, now, View());
      effectPath := path;
      return Some(CollectExits(oracle, flow, branch.value.(broken := NO), MatchOf(n, k)));
    }

    method SwitchStatement(body: Stmt, ghost scope: set<nat>) returns (r: Option<Flow>)
      requires body.Switch? && Sound(oracle) && StateOk(scope, View()) && Scoped(body, scope)
      modifies this
      ensures r.Some? ==> Lowered(oracle, functionSerialBegin, scope, body, old(View()), r.value, View())
      decreases body, 0
    {
      ghost var start := View();
      ReadableMore(body.selector, scope, locals.Keys);
      var selector := LowerExpr(View(), body.selector);
      var exhaustive := Exhaustive(oracle, selector, body.labels);
      var n := Selection(body.labels, body.parts, selector, exhaustive);
      var before := cells;
      var fallback, alternatives;
      ghost var chosen, entries;
      r, fallback, alternatives, chosen, entries := EnterAll(n, scope);
      if r.None? { return; }
      r := JoinSwitch(body, n, r.value, fallback, alternatives, scope, start, before, chosen, entries);
    }

    /** Joins the lowered entries. */
    method JoinSwitch(body: Stmt, n: Selection, flow: Flow, lastFallback: Cells, all: seq<Alternative>,
                      ghost scope: set<nat>,
                      ghost start: State, before: Cells, ghost lastChosen: Option<nat>, ghost allEntries: seq<nat>)
      returns (r: Option<Flow>)
      requires Sound(oracle) && body.Switch? && Scoped(body, scope) && before == start.cells
               && Readable(body.selector, start.locals.Keys)
      requires n.labels == body.labels && n.parts == body.parts && n.selector == LowerExpr(start, body.selector)
      requires Entered(oracle, functionSerialBegin, scope, n, start, |n.labels|, flow, View())
               && effectPath == start.path
      requires Alternatives(oracle, functionSerialBegin, scope, n, start, |n.labels|, lastFallback, lastChosen, all,
                            allEntries)
      requires (lastChosen.Some? ==> n.labels[lastChosen.value].Default?) && CellsBelow(serial, lastFallback, all)
      modifies this`cells
      ensures r.Some? ==> Lowered(oracle, functionSerialBegin, scope, body, start, r.value, View())
    {
      ghost var cur := View();
      var fallback, alternatives := lastFallback, all;
      ghost var chosen, entries := lastChosen, allEntries;
      ResolveAll(oracle, functionSerialBegin, scope, n, start, fallback, chosen, alternatives, entries);
      if n.exhaustive && alternatives != [] {
        var last := |alternatives| - 1;
        fallback, alternatives := alternatives[last].cells, alternatives[..last];
        chosen, entries := Some(entries[last]), entries[..last];
      }
      var joined := JoinAlternatives(before, fallback, alternatives);
      if joined.None? { return None; }
      SwitchLowered(oracle, functionSerialBegin, scope, body, n, start, flow, cur, fallback, chosen, alternatives,
                    entries, joined.value);
      cells := joined.value;
      return Some(SwitchFlow(flow));
    }

    method EnterAll(n: Selection, ghost scope: set<nat>)
      returns (r: Option<Flow>, fallback: Cells, alternatives: seq<Alternative>, ghost chosen: Option<nat>,
               ghost entries: seq<nat>)
      requires Sound(oracle) && StateOk(scope, View()) && SelectionOk(oracle, scope, n)
      modifies this
      ensures r.Some? ==> Entered(oracle, functionSerialBegin, scope, n, old(View()), |n.labels|, r.value, View())
                          && effectPath == old(effectPath)
      ensures r.Some? ==>
              Alternatives(oracle, functionSerialBegin, scope, n, old(View()), |n.labels|, fallback, chosen,
                           alternatives, entries)
      ensures r.Some? && chosen.Some? ==> n.labels[chosen.value].Default?
      ensures r.Some? ==> CellsBelow(serial, fallback, alternatives)
      decreases n.parts, 4
    {
      ghost var before := View();
      var beforeCells := cells;
      fallback, alternatives, chosen, entries := cells, [], None, [];
      var flow := Straight().(normal := NO);
      EnterFirst(oracle, functionSerialBegin, scope, n, before);
      for k := 0 to |n.labels|
        invariant Entered(oracle, functionSerialBegin, scope, n, before, k, flow, View()) && effectPath == before.path
        invariant Alternatives(oracle, functionSerialBegin, scope, n, before, k, fallback, chosen, alternatives,
                               entries)
        invariant chosen.Some? ==> n.labels[chosen.value].Default?
        invariant CellsBelow(serial, fallback, alternatives)
      {
        if Dead(oracle, MatchOf(n, k)) {
          EntrySkipped(oracle, functionSerialBegin, scope, n, before, k, flow, View());
        } else {
          ghost var cur := View();
          r := EnterSwitch(n, k, flow, scope, before, beforeCells);
          if r.None? { return; }
          flow := r.value;
          BelowLater(cur.serial, serial, fallback, alternatives);
          if n.labels[k].Default? {
            OnlyDefault(n, k, chosen);
            fallback, chosen := cells, Some(k);
          } else {
            alternatives, entries := alternatives + [Alternative(MatchOf(n, k), cells)], entries + [k];
          }
        }
      }
      r := Some(flow);
    }

    // ----- Loops ----------------------------------------------------------------------------------

    /** One unrolled iteration up to, but without, its increment. */
    method UnrollBody(l: Loop, flow: Flow, finished: Term, induction: Term, ghost n: nat, ghost inner: set<nat>,
                      ghost start: State)
      returns (r: Option<Unrolling>)
      requires Sound(oracle) && n < LIMIT
      requires Unrolled(oracle, functionSerialBegin, inner, l, start, Unrolling(View(), flow, finished, induction), n,
                        false)
      requires l.until.Some? ==>
               Readable(l.until.value, locals.Keys) && oracle.known(LowerExpr(View(), l.until.value)).Some?
                                 && oracle.known(LowerExpr(View(), l.until.value)) != Some(0)
      modifies this
      ensures r.Some? ==>
              r.value.st == View() && Unrolled(oracle, functionSerialBegin, inner, l, start, r.value, n + 1, true)
      decreases l.body, 6
    {
      ghost var u := Unrolling(View(), flow, finished, induction);
      var next := GuardedStatement(l.body, flow.normal, false, inner);
      if next.None? { return None; }
      if l.inc.Some? && KeyOf(locals, l.inc.value.v) !in cells { return None; }
      BodyStep(oracle, functionSerialBegin, inner, l, start, u, n, next.value, View());
      var flow' := CollectExits(oracle, flow, next.value, flow.normal).(
                     normal := And(flow.normal, Or(next.value.normal, next.value.continued)));
      var finished' := Or(finished, And(flow.normal, next.value.broken));
      var induction' := if l.inc.Some? then Mux(flow.normal, cells[KeyOf(locals, l.inc.value.v)], induction)
                        else induction;
      return Some(Unrolling(View(), flow', finished', induction'));
    }

    method UnrollAll(l: Loop, first: Term, ghost inner: set<nat>)
      returns (r: Option<Unrolling>, ghost n: nat, ghost due: bool)
      requires Sound(oracle) && StateOk(inner, View()) && LoopScoped(l, inner)
      requires l.inc.Some? ==>
               InScope(l.inc.value.v, locals.Keys) && first == ReadCell(cells, KeyOf(locals, l.inc.value.v))
      modifies this
      ensures r.Some? ==>
              r.value.st == View() && Unrolled(oracle, functionSerialBegin, inner, l, old(View()), r.value, n, due)
      ensures r.Some? ==> Ended(oracle, l, r.value) && (due || n == LIMIT ==> Dead(oracle, r.value.flow.normal))
      decreases l.body, 7
    {
      ghost var start := View();
      var flow, finished, induction, iteration := Straight(), NO, first, 0;
      n, due := 0, false;
      LoopStart(oracle, functionSerialBegin, inner, l, start, induction);
      while true
        invariant n == iteration <= LIMIT && !due
        invariant Unrolled(oracle, functionSerialBegin, inner, l, start, Unrolling(View(), flow, finished, induction),
                           n, false)
        decreases LIMIT - iteration
      {
        var u := Unrolling(View(), flow, finished, induction);
        if Dead(oracle, flow.normal) { return Some(u), n, due; }
        if iteration >= LIMIT { return None, n, due; }
        if l.until.Some? {
          ReadableMore(l.until.value, inner, locals.Keys);
          var known := oracle.known(LowerExpr(View(), l.until.value));
          if known.None? { return None, n, due; }
          if known.value == 0 { return Some(u), n, due; }
        }
        r := UnrollBody(l, flow, finished, induction, n, inner, start);
        if r.None? { return; }
        iteration := iteration + 1;
        n := n + 1;
        if Dead(oracle, r.value.flow.normal) { due := true; return; }
        IncStep(oracle, functionSerialBegin, inner, l, start, r.value, n);
        flow, finished, induction := r.value.flow, r.value.finished, r.value.induction;
        if l.inc.Some? {
          var key := KeyOf(locals, l.inc.value.v);
          cells := cells[key := LowerExpr(View(), l.inc.value.e)];
          induction := Mux(flow.normal, cells[key], induction);
        }
      }
    }

    method ForStatement(body: Stmt, ghost scope: set<nat>) returns (r: Option<Flow>)
      requires body.For? && Sound(oracle) && StateOk(scope, View()) && Scoped(body, scope)
      modifies this
      ensures r.Some? ==> Lowered(oracle, functionSerialBegin, scope, body, old(View()), r.value, View())
      decreases body, 0
    {
      ghost var st, inner := View(), ScopeAfter(body.setup, scope);
      var first := Statement(body.setup, scope);
      if first.None? { return None; }
      ghost var start := View();
      var l := Loop(body.until, body.inc, body.loop);
      var induction := NO;
      if l.inc.Some? {
        if KeyOf(locals, l.inc.value.v) !in cells { return None; }
        induction := cells[KeyOf(locals, l.inc.value.v)];
      }
      var u;
      ghost var n, due;
      u, n, due := UnrollAll(l, induction, inner);
      if u.None? { return None; }
      LoopEnd(oracle, functionSerialBegin, inner, l, start, u.value, n, due);
      if l.inc.Some? { cells := cells[KeyOf(locals, l.inc.value.v) := u.value.induction]; }
      ForLowered(oracle, functionSerialBegin, scope, body, st, first.value, start, LoopFlow(u.value), View());
      return Some(LoopFlow(u.value));
    }
  }

  ghost predicate CellsBelow(serial: nat, fallback: Cells, alternatives: seq<Alternative>) {
    && (forall k | k in fallback :: Below(k, serial))
    && forall i, k | 0 <= i < |alternatives| && k in alternatives[i].cells :: Below(k, serial)
  }

  lemma BelowLater(serial: nat, serial': nat, fallback: Cells, alternatives: seq<Alternative>)
    requires CellsBelow(serial, fallback, alternatives) && serial <= serial'
    ensures CellsBelow(serial', fallback, alternatives)
  {
    forall i, k | 0 <= i < |alternatives| && k in alternatives[i].cells ensures Below(k, serial') {
      assert Below(k, serial);
    }
  }

  lemma OnlyDefault(n: Selection, k: nat, chosen: Option<nat>)
    requires DistinctLabels(n.labels) && k < |n.labels| && n.labels[k].Default?
    requires chosen.Some? ==> chosen.value < k && n.labels[chosen.value].Default?
    ensures chosen.None?
  {}

  /** Switch bodies declare nothing for one another. */
  lemma {:induction false} PartsScoped(parts: seq<Stmt>, at: nat, scope: set<nat>)
    requires at <= |parts| && forall i | 0 <= i < |parts| :: Scoped(parts[i], scope) && !parts[i].Declare?
    ensures ScopedAll(parts[at..], scope) && ScopeAfterAll(parts[at..], scope) == scope
    decreases |parts|
  {
    if at < |parts| {
      var rest := parts[..|parts| - 1];
      PartsScoped(rest, at, scope);
      assert parts[at..][..|parts| - at - 1] == rest[at..];
      assert parts[at..][|parts| - at - 1] == parts[|parts| - 1];
    }
  }

  /** What lowering promises of one evaluation: a direct run ends, under any
      larger iteration limit with the same outcome; exactly one exit predicate
      holds and it names that run's exit; the result, every variable in scope
      (own locals free after a return) and the memory writes are the run's. */
  lemma LoweringSound(o: Oracle, base: nat, scope: set<nat>, s: Stmt, st: State, flow: Flow, st': State, values: Store,
                      w: World, limit: nat)
    returns (out: Outcome)
    requires Lowered(o, base, scope, s, st, flow, st') && Admits(o, base, scope, st, values, w) && limit >= LIMIT
    ensures Exec(s, values, w, limit) == Some(out)
    ensures [Holds(flow.normal, w), Holds(flow.broken, w), Holds(flow.continued, w), Holds(flow.returned, w)]
         == [out.exit.Normal?, out.exit.Breaks?, out.exit.Continues?, out.exit.Returns?]
    ensures out.exit.Returns? && out.exit.value.Some? ==>
            flow.result.Some? && Eval(flow.result.value, w) == out.exit.value.value
    ensures forall v | InScope(v, scope) && !(out.exit.Returns? && Own(KeyOf(st.locals, v), base))
              && (v.Field? || v.decl in st.locals) ::
              Eval(ReadCell(st'.cells, KeyOf(st.locals, v)), w) == ValueOf(out.store, v, w)
    ensures LogOf(st'.writes, w) == out.store.log
  {
    MeansAt(o, base, scope, s, st, flow, st', values, w);
    out := Exec(s, values, w, LIMIT).value;
    ExecLimit(s, values, w, LIMIT, limit);
    forall v | InScope(v, scope) && !(out.exit.Returns? && Own(KeyOf(st.locals, v), base))
      && (v.Field? || v.decl in st.locals)
      ensures Eval(ReadCell(st'.cells, KeyOf(st.locals, v)), w) == ValueOf(out.store, v, w)
    {
      assert VarAgrees(base, out.exit.Returns?, st'.cells, st'.locals, out.store, v, w);
    }
  }
}

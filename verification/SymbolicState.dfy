/** The symbolic storage of CppGraph.h during lowering: cells, branch merges,
    execution guards and the queue of guarded memory writes. */
module SymbolicState {
  import opened Common
  import opened Terms
  import opened Programs

  /** Storage keys: module fields, and locals numbered by declaration instance,
      with the width of their type. */
  datatype Key = FieldKey(name: nat, size: nat) | LocalKey(serial: nat, size: nat)

  datatype Guard = Guard(condition: Term, positive: bool)

  datatype QueuedWrite = QueuedWrite(memory: nat, address: Term, data: Term, enabled: Term)

  type Cells = map<Key, Term>

  /** cells, locals, serial, localNames, effectPath and graph.memoryWrites. */
  datatype State = State(cells: Cells, locals: map<nat, Key>, serial: nat, names: seq<Key>,
                         path: seq<Guard>, writes: seq<QueuedWrite>)

  // ----- Cells ------------------------------------------------------------------------------

  /** The undriven wires of storage nothing has written. */
  function Initial(k: Key): Term { Input(k.size, if k.FieldKey? then k.name + 1 else 0) }

  function ReadCell(cells: Cells, k: Key): Term { if k in cells then cells[k] else Initial(k) }

  function Fallback(before: Cells, k: Key): Term { ReadCell(before, k) }

  /** merge: the map view of Environments.Cells.Merge. */
  function MergeCells(condition: Term, before: Cells, yes: Cells, no: Cells): (r: Option<Cells>)
    ensures r.Some? ==> r.value.Keys == yes.Keys + no.Keys
  {
    if forall k | k in yes.Keys + no.Keys :: MergeFits(before, yes, no, k) then
      Some(map k | k in yes.Keys + no.Keys :: MergeCell(condition, before, yes, no, k))
    else None
  }

  function Branch(before: Cells, branch: Cells, k: Key): Term { if k in branch then branch[k] else Fallback(before, k) }

  predicate MergeFits(before: Cells, yes: Cells, no: Cells, k: Key) {
    (k in yes && k in no && yes[k] == no[k]) || Width(Branch(before, yes, k)) == Width(Branch(before, no, k))
  }

  function MergeCell(condition: Term, before: Cells, yes: Cells, no: Cells, k: Key): Term {
    if k in yes && k in no && yes[k] == no[k] then yes[k]
    else Mux(condition, Branch(before, yes, k), Branch(before, no, k))
  }

  /** When no branch lost a key, a merge reads as the branch its condition picks. */
  lemma {:induction false} MergeReads(condition: Term, before: Cells, yes: Cells, no: Cells, k: Key, w: World)
    requires MergeCells(condition, before, yes, no).Some? && before.Keys <= yes.Keys && before.Keys <= no.Keys
    ensures var m := MergeCells(condition, before, yes, no).value;
            Eval(ReadCell(m, k), w) == Eval(ReadCell(if Holds(condition, w) then yes else no, k), w)
  {
    var m := MergeCells(condition, before, yes, no).value;
    if k in m {
      assert m[k] == MergeCell(condition, before, yes, no, k);
      MergeCellReads(condition, before, yes, no, k, w);
    }
  }

  lemma MergeCellReads(condition: Term, before: Cells, yes: Cells, no: Cells, k: Key, w: World)
    requires before.Keys <= yes.Keys && before.Keys <= no.Keys
    ensures Eval(MergeCell(condition, before, yes, no, k), w)
            == Eval(ReadCell(if Holds(condition, w) then yes else no, k), w)
  {
    assert Branch(before, yes, k) == ReadCell(yes, k) && Branch(before, no, k) == ReadCell(no, k);
  }

  // ----- Execution guards --------------------------------------------------------------------

  ghost predicate PathHolds(path: seq<Guard>, w: World) {
    forall i | 0 <= i < |path| :: Holds(path[i].condition, w) == path[i].positive
  }

  lemma PathPush(path: seq<Guard>, g: Guard, w: World)
    ensures PathHolds(path + [g], w) <==> PathHolds(path, w) && Holds(g.condition, w) == g.positive
  {
    if PathHolds(path + [g], w) {
      assert (path + [g])[|path|] == g;
      forall i | 0 <= i < |path| ensures Holds(path[i].condition, w) == path[i].positive {
        assert (path + [g])[i] == path[i];
      }
    }
  }

  function ExecutionGuard(path: seq<Guard>): Term {
    if path == [] then Constant(1, 1)
    else
      var g := path[|path| - 1];
      And(ExecutionGuard(path[..|path| - 1]), if g.positive then g.condition else Not(g.condition))
  }

  /** The guard of an effect is true exactly where control reaches it. */
  lemma {:induction false} GuardExact(path: seq<Guard>, w: World)
    ensures Holds(ExecutionGuard(path), w) <==> PathHolds(path, w)
  {
    if path != [] {
      var last := |path| - 1;
      GuardExact(path[..last], w);
      PathPush(path[..last], path[last], w);
      assert path == path[..last] + [path[last]];
      var g := path[last];
      var t := if g.positive then g.condition else Not(g.condition);
      HoldsConnectives(g.condition, g.condition, w);
      HoldsConnectives(ExecutionGuard(path[..last]), t, w);
      assert ExecutionGuard(path) == And(ExecutionGuard(path[..last]), t);
    }
  }

  // ----- Queued memory writes ------------------------------------------------------------------

  /** The writes the queue performs in one evaluation, in program order. */
  function LogOf(writes: seq<QueuedWrite>, w: World): seq<Write> {
    if writes == [] then []
    else
      var last := writes[|writes| - 1];
      LogOf(writes[..|writes| - 1], w) +
      if Holds(last.enabled, w) then [Write(last.memory, Eval(last.address, w), Eval(last.data, w))] else []
  }

  /** memoryRow with forwarding: queued rows of the memory in program order. */
  function PendingTerm(writes: seq<QueuedWrite>, memory: nat, address: Term, committed: Term): Term {
    if writes == [] then committed
    else
      var last := writes[|writes| - 1];
      var before := PendingTerm(writes[..|writes| - 1], memory, address, committed);
      if last.memory == memory then Mux(And(last.enabled, Equal(address, last.address)), last.data, before) else before
  }

  /** pending(address) is committed memory with the enabled writes applied. */
  lemma {:induction false} PendingExact(writes: seq<QueuedWrite>, size: nat, memory: nat, address: Term, w: World)
    ensures Eval(PendingTerm(writes, memory, address, Committed(size, memory, address)), w)
         == PendingRow(LogOf(writes, w), memory, Eval(address, w), w)
  {
    if writes != [] {
      var last := writes[|writes| - 1];
      var before := LogOf(writes[..|writes| - 1], w);
      PendingExact(writes[..|writes| - 1], size, memory, address, w);
      var same := Equal(address, last.address);
      var hit := And(last.enabled, same);
      HoldsConnectives(address, last.address, w);
      HoldsConnectives(last.enabled, same, w);
      assert Holds(hit, w) <==> Holds(last.enabled, w) && Eval(address, w) == Eval(last.address, w);
      if Holds(last.enabled, w) {
        var row := Write(last.memory, Eval(last.address, w), Eval(last.data, w));
        assert (before + [row])[..|before|] == before;
        assert LogOf(writes, w) == before + [row];
      } else {
        assert before + [] == before;
      }
    }
  }

  // ----- Expressions -----------------------------------------------------------------------------

  function KeyOf(locals: map<nat, Key>, v: Var): Key
    requires v.Field? || v.decl in locals
  {
    if v.Field? then FieldKey(v.name, v.size) else locals[v.decl]
  }

  function LowerExpr(st: State, e: Expr): Term
    requires Readable(e, st.locals.Keys)
    decreases e, 0
  {
    match e
    case Number(size, value) => Constant(size, value)
    case Read(v) => ReadCell(st.cells, KeyOf(st.locals, v))
    case Apply(size, op, args) => Op(size, op, LowerExprs(st, args))
    case Stored(size, memory, address) => Committed(size, memory, LowerExpr(st, address))
    case Queued(size, memory, address) =>
      var a := LowerExpr(st, address);
      PendingTerm(st.writes, memory, a, Committed(size, memory, a))
  }

  function LowerExprs(st: State, es: seq<Expr>): (r: seq<Term>)
    requires forall i | 0 <= i < |es| :: Readable(es[i], st.locals.Keys)
    ensures |r| == |es|
    decreases es, 1
  {
    seq(|es|, i requires 0 <= i < |es| => LowerExpr(st, es[i]))
  }

  // ----- Agreement with a direct evaluation --------------------------------------------------------

  /** Locals of the function being lowered, whose serials are above `base`. */
  predicate Own(k: Key, base: nat) { k.LocalKey? && k.serial > base }

  /** Storage agrees on one variable; a function's own locals are free on paths
      that have returned. */
  ghost predicate VarAgrees(base: nat, returned: bool, cells: Cells, locals: map<nat, Key>, values: Store, v: Var,
                            w: World)
  {
    (v.Local? ==> v.decl in locals)
    && ((returned && Own(KeyOf(locals, v), base))
        || Eval(ReadCell(cells, KeyOf(locals, v)), w) == ValueOf(values, v, w))
  }

  ghost predicate CellsAgree(scope: set<nat>, base: nat, returned: bool, cells: Cells, locals: map<nat, Key>,
                             values: Store, w: World)
  {
    forall v | InScope(v, scope) :: VarAgrees(base, returned, cells, locals, values, v, w)
  }

  ghost predicate Agrees(scope: set<nat>, base: nat, returned: bool, st: State, values: Store, w: World) {
    CellsAgree(scope, base, returned, st.cells, st.locals, values, w) && LogOf(st.writes, w) == values.log
  }

  lemma {:induction false} ReadableMore(e: Expr, scope: set<nat>, more: set<nat>)
    requires Readable(e, scope) && scope <= more
    ensures Readable(e, more)
  {
    match e
    case Apply(_, _, args) =>
      forall i | 0 <= i < |args| ensures Readable(args[i], more) { ReadableMore(args[i], scope, more); }
    case Stored(_, _, address) => ReadableMore(address, scope, more);
    case Queued(_, _, address) => ReadableMore(address, scope, more);
    case _ =>
  }

  /** A lowered expression evaluates as the expression does directly. */
  lemma {:induction false} LowerExprExact(scope: set<nat>, base: nat, st: State, values: Store, e: Expr, w: World)
    requires Readable(e, scope) && Readable(e, st.locals.Keys) && Agrees(scope, base, false, st, values, w)
    ensures Eval(LowerExpr(st, e), w) == Value(e, values, w)
  {
    match e
    case Number(_, _) =>
    case Read(v) => assert VarAgrees(base, false, st.cells, st.locals, values, v, w);
    case Apply(_, op, args) =>
      forall i | 0 <= i < |args| ensures Eval(LowerExpr(st, args[i]), w) == Value(args[i], values, w) {
        LowerExprExact(scope, base, st, values, args[i], w);
      }
      assert EvalAll(LowerExprs(st, args), w) == Values(args, values, w);
    case Stored(_, _, address) => LowerExprExact(scope, base, st, values, address, w);
    case Queued(size, memory, address) =>
      LowerExprExact(scope, base, st, values, address, w);
      PendingExact(st.writes, size, memory, LowerExpr(st, address), w);
  }

  // ----- Keys stay apart ------------------------------------------------------------------------------

  ghost predicate Below(k: Key, serial: nat) { k.LocalKey? ==> k.serial <= serial }

  ghost predicate StateOk(scope: set<nat>, st: State) {
    && scope <= st.locals.Keys
    && (forall d | d in st.locals :: st.locals[d].LocalKey? && Below(st.locals[d], st.serial))
    && (forall d, e | d in scope && e in scope && d != e :: st.locals[d] != st.locals[e])
    && (forall k | k in st.cells :: Below(k, st.serial))
    && forall i | 0 <= i < |st.names| :: Below(st.names[i], st.serial)
  }

  /** What no statement undoes: keys stay, locals in scope keep their storage. */
  ghost predicate Grown(scope: set<nat>, st: State, st': State) {
    && st.serial <= st'.serial && st'.path == st.path && st.cells.Keys <= st'.cells.Keys
    && st.names <= st'.names
    && (forall i | |st.names| <= i < |st'.names| :: st'.names[i].LocalKey? && st'.names[i].serial > st.serial)
    && forall d | d in scope && d in st.locals :: d in st'.locals && st'.locals[d] == st.locals[d]
  }

  lemma GrownTrans(scope: set<nat>, inner: set<nat>, a: State, b: State, c: State)
    requires Grown(scope, a, b) && Grown(inner, b, c) && scope <= inner && scope <= a.locals.Keys
    ensures Grown(scope, a, c)
  {
    forall i | |a.names| <= i < |c.names| ensures c.names[i].LocalKey? && c.names[i].serial > a.serial {
      if i < |b.names| { assert c.names[i] == b.names[i]; }
    }
  }
}

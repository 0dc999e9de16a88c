/** The structured programs CppGraph.h lowers, and their direct meaning: what
    ISO/IEC 14882:2020, sections 8.5 to 8.7, say a single evaluation does. */
module Programs {
  import opened Common
  import opened Terms

  /** Module fields with the width of their type, and declared locals. */
  datatype Var = Field(name: nat, size: nat) | Local(decl: nat)

  /** Side-effect free expressions. Stored is operator[] on a memory, Queued is
      its pending() row. */
  datatype Expr =
    | Number(size: nat, value: nat)
    | Read(v: Var)
    | Apply(size: nat, op: nat, args: seq<Expr>)
    | Stored(size: nat, memory: nat, address: Expr)
    | Queued(size: nat, memory: nat, address: Expr)

  datatype Increment = Increment(v: Var, e: Expr)

  /** A label stands before the statement at position `at` of the switch body. */
  datatype Label = Case(value: nat, at: nat) | Default(at: nat)

  datatype Stmt =
    | Skip
    | Assign(v: Var, e: Expr)
    | Queue(memory: nat, address: Expr, data: Expr)
    | Declare(decl: nat, size: nat, init: Option<Expr>)
    | Break
    | Continue
    | Return(result: Option<Expr>)
    | Block(body: seq<Stmt>)
    | If(cond: Expr, yes: Stmt, no: Stmt)
    | Switch(selector: Expr, labels: seq<Label>, parts: seq<Stmt>)
    | For(setup: Stmt, until: Option<Expr>, inc: Option<Increment>, loop: Stmt)

  // ----- Direct meaning --------------------------------------------------------------------

  datatype Write = Write(memory: nat, address: nat, data: nat)

  /** The values of variables and the memory writes of one transaction so far. */
  datatype Store = Store(values: map<Var, nat>, log: seq<Write>)

  datatype Exit = Normal | Breaks | Continues | Returns(value: Option<nat>)

  datatype Outcome = Outcome(exit: Exit, store: Store)

  /** A variable nothing has written: the field's own value, or the one
      arbitrary value every uninitialized local reads. */
  function Unwritten(v: Var, w: World): nat { if v.Field? then w.input(v.name + 1) else w.input(0) }

  function ValueOf(st: Store, v: Var, w: World): nat { if v in st.values then st.values[v] else Unwritten(v, w) }

  /** Memory as the queued writes leave it: the last one to the address wins. */
  function PendingRow(log: seq<Write>, memory: nat, address: nat, w: World): nat {
    if log == [] then w.memory(memory, address)
    else
      var last := log[|log| - 1];
      if last.memory == memory && last.address == address then last.data
      else PendingRow(log[..|log| - 1], memory, address, w)
  }

  function Value(e: Expr, st: Store, w: World): nat
    decreases e, 0
  {
    match e
    case Number(_, value) => value
    case Read(v) => ValueOf(st, v, w)
    case Apply(_, op, args) => w.operate(op, Values(args, st, w))
    case Stored(_, memory, address) => w.memory(memory, Value(address, st, w))
    case Queued(_, memory, address) => PendingRow(st.log, memory, Value(address, st, w), w)
  }

  function Values(es: seq<Expr>, st: Store, w: World): (r: seq<nat>)
    ensures |r| == |es|
    decreases es, 1
  {
    seq(|es|, i requires 0 <= i < |es| => Value(es[i], st, w))
  }

  function SetValue(st: Store, v: Var, x: nat): Store { st.(values := st.values[v := x]) }

  function ExecInc(inc: Option<Increment>, st: Store, w: World): Store {
    if inc.None? then st else SetValue(st, inc.value.v, Value(inc.value.e, st, w))
  }

  /** Where a switch enters its body: the matching case, else the default. */
  function EntryOf(labels: seq<Label>, x: nat): (r: Option<nat>)
    ensures r.Some? ==> r.value < |labels|
  {
    if CaseOf(labels, x).Some? then CaseOf(labels, x) else DefaultOf(labels)
  }

  function CaseOf(labels: seq<Label>, x: nat): (r: Option<nat>)
    ensures r.Some? ==> r.value < |labels| && labels[r.value].Case? && labels[r.value].value == x
    ensures r.None? ==> forall i | 0 <= i < |labels| :: !(labels[i].Case? && labels[i].value == x)
  {
    if labels == [] then None
    else
      var last := |labels| - 1;
      if labels[last].Case? && labels[last].value == x then Some(last) else CaseOf(labels[..last], x)
  }

  function DefaultOf(labels: seq<Label>): (r: Option<nat>)
    ensures r.Some? ==> r.value < |labels| && labels[r.value].Default?
    ensures r.None? ==> forall i | 0 <= i < |labels| :: !labels[i].Default?
  {
    if labels == [] then None
    else
      var last := |labels| - 1;
      if labels[last].Default? then Some(last) else DefaultOf(labels[..last])
  }

  /** Nothing when some loop runs longer than `limit` iterations. */
  function Exec(s: Stmt, st: Store, w: World, limit: nat): Option<Outcome>
    decreases s, 0, 0
  {
    match s
    case Skip => Some(Outcome(Normal, st))
    case Assign(v, e) => Some(Outcome(Normal, SetValue(st, v, Value(e, st, w))))
    case Queue(memory, address, data) =>
      Some(Outcome(Normal, st.(log := st.log + [Write(memory, Value(address, st, w), Value(data, st, w))])))
    case Declare(decl, _, init) =>
      Some(Outcome(Normal, SetValue(st, Local(decl), if init.Some? then Value(init.value, st, w)
                                                     else Unwritten(Local(decl), w))))
    case Break => Some(Outcome(Breaks, st))
    case Continue => Some(Outcome(Continues, st))
    case Return(result) => Some(Outcome(Returns(if result.Some? then Some(Value(result.value, st, w)) else None), st))
    case Block(body) => ExecAll(body, st, w, limit)
    case If(cond, yes, no) => if Value(cond, st, w) != 0 then Exec(yes, st, w, limit) else Exec(no, st, w, limit)
    case Switch(selector, labels, parts) =>
      var entry := EntryOf(labels, Value(selector, st, w));
      if entry.None? || labels[entry.value].at > |parts| then Some(Outcome(Normal, st))
      else LeaveSwitch(ExecAll(parts[labels[entry.value].at..], st, w, limit))
    case For(setup, until, inc, loop) =>
      var first := Exec(setup, st, w, limit);
      if first.None? then None else ExecLoop(until, inc, loop, first.value.store, w, limit, limit)
  }

  /** break leaves the switch; continue and return pass through it. */
  function LeaveSwitch(out: Option<Outcome>): Option<Outcome> {
    if out.Some? && out.value.exit.Breaks? then Some(Outcome(Normal, out.value.store)) else out
  }

  function ExecAll(body: seq<Stmt>, st: Store, w: World, limit: nat): Option<Outcome>
    decreases body, 1, |body|
  {
    if body == [] then Some(Outcome(Normal, st))
    else
      var before := ExecAll(body[..|body| - 1], st, w, limit);
      if before.Some? && before.value.exit.Normal? then Exec(body[|body| - 1], before.value.store, w, limit) else before
  }

  function ExecLoop(until: Option<Expr>, inc: Option<Increment>, loop: Stmt, st: Store, w: World, limit: nat,
                    left: nat): Option<Outcome>
    decreases loop, 1, left
  {
    if left == 0 then None
    else if until.Some? && Value(until.value, st, w) == 0 then Some(Outcome(Normal, st))
    else
      var out := Exec(loop, st, w, limit);
      if out.None? then None
      else
        match out.value.exit
        case Breaks => Some(Outcome(Normal, out.value.store))
        case Returns(_) => out
        case _ => ExecLoop(until, inc, loop, ExecInc(inc, out.value.store, w), w, limit, left - 1)
  }

  // ----- Scopes ---------------------------------------------------------------------------

  predicate InScope(v: Var, scope: set<nat>) { v.Field? || v.decl in scope }

  predicate Readable(e: Expr, scope: set<nat>) {
    match e
    case Number(_, _) => true
    case Read(v) => InScope(v, scope)
    case Apply(_, _, args) => forall i | 0 <= i < |args| :: Readable(args[i], scope)
    case Stored(_, _, address) => Readable(address, scope)
    case Queued(_, _, address) => Readable(address, scope)
  }

  predicate ReadableIf(e: Option<Expr>, scope: set<nat>) { e.Some? ==> Readable(e.value, scope) }

  /** What a statement declares for its successors in the same block. */
  function ScopeAfter(s: Stmt, scope: set<nat>): set<nat> { if s.Declare? then scope + {s.decl} else scope }

  function ScopeAfterAll(ss: seq<Stmt>, scope: set<nat>): set<nat> {
    if ss == [] then scope else ScopeAfter(ss[|ss| - 1], ScopeAfterAll(ss[..|ss| - 1], scope))
  }

  predicate DistinctLabels(labels: seq<Label>) {
    forall i, j | 0 <= i < j < |labels| ::
      !(labels[i].Default? && labels[j].Default?)
        && !(labels[i].Case? && labels[j].Case? && labels[i].value == labels[j].value)
  }

  /** Names are declared before use and never twice in nested scopes; switch
      labels are distinct; a statement of a switch body declares nothing for
      the next one. */
  predicate Scoped(s: Stmt, scope: set<nat>)
    decreases s, 0
  {
    match s
    case Skip => true
    case Assign(v, e) => InScope(v, scope) && Readable(e, scope)
    case Queue(_, address, data) => Readable(address, scope) && Readable(data, scope)
    case Declare(decl, _, init) => decl !in scope && ReadableIf(init, scope)
    case Break => true
    case Continue => true
    case Return(result) => ReadableIf(result, scope)
    case Block(body) => ScopedAll(body, scope)
    case If(cond, yes, no) => Readable(cond, scope) && Scoped(yes, scope) && Scoped(no, scope)
    case Switch(selector, labels, parts) =>
      && Readable(selector, scope) && DistinctLabels(labels)
      && (forall i | 0 <= i < |labels| :: labels[i].at <= |parts|)
      && forall i | 0 <= i < |parts| :: Scoped(parts[i], scope) && !parts[i].Declare?
    case For(setup, until, inc, loop) =>
      var inner := ScopeAfter(setup, scope);
      && (setup.Skip? || setup.Assign? || setup.Declare?) && Scoped(setup, scope)
      && ReadableIf(until, inner) && (inc.Some? ==> InScope(inc.value.v, inner) && Readable(inc.value.e, inner))
      && Scoped(loop, inner)
  }

  predicate ScopedAll(ss: seq<Stmt>, scope: set<nat>)
    decreases ss, 1, |ss|
  {
    ss == [] || (ScopedAll(ss[..|ss| - 1], scope) && Scoped(ss[|ss| - 1], ScopeAfterAll(ss[..|ss| - 1], scope)))
  }

  lemma {:induction false} ScopedPrefix(ss: seq<Stmt>, scope: set<nat>, n: nat)
    requires ScopedAll(ss, scope) && n <= |ss|
    ensures ScopedAll(ss[..n], scope) && (n < |ss| ==> Scoped(ss[n], ScopeAfterAll(ss[..n], scope)))
    decreases |ss|
  {
    if n < |ss| {
      ScopedPrefix(ss[..|ss| - 1], scope, n);
      assert ss[..|ss| - 1][..n] == ss[..n];
    } else {
      assert ss[..n] == ss;
    }
  }

  lemma {:induction false} ScopeGrows(ss: seq<Stmt>, scope: set<nat>)
    ensures scope <= ScopeAfterAll(ss, scope)
  {
    if ss != [] { ScopeGrows(ss[..|ss| - 1], scope); }
  }

  // ----- The iteration limit is only a limit -------------------------------------------------

  /** A run that ends within a limit is the same under every larger one. */
  lemma {:induction false} ExecLimit(s: Stmt, st: Store, w: World, limit: nat, more: nat)
    requires limit <= more && Exec(s, st, w, limit).Some?
    ensures Exec(s, st, w, more) == Exec(s, st, w, limit)
    decreases s, 0, 0
  {
    match s
    case Block(body) => ExecAllLimit(body, st, w, limit, more);
    case If(cond, yes, no) =>
      if Value(cond, st, w) != 0 { ExecLimit(yes, st, w, limit, more); } else { ExecLimit(no, st, w, limit, more); }
    case Switch(selector, labels, parts) =>
      var entry := EntryOf(labels, Value(selector, st, w));
      if entry.Some? && labels[entry.value].at <= |parts| {
        ExecAllLimit(parts[labels[entry.value].at..], st, w, limit, more);
      }
    case For(setup, until, inc, loop) =>
      ExecLimit(setup, st, w, limit, more);
      ExecLoopLimit(until, inc, loop, Exec(setup, st, w, limit).value.store, w, limit, limit, more, more);
    case _ =>
  }

  lemma {:induction false} ExecAllLimit(body: seq<Stmt>, st: Store, w: World, limit: nat, more: nat)
    requires limit <= more && ExecAll(body, st, w, limit).Some?
    ensures ExecAll(body, st, w, more) == ExecAll(body, st, w, limit)
    decreases body, 1, |body|
  {
    if body != [] {
      ExecAllLimit(body[..|body| - 1], st, w, limit, more);
      var before := ExecAll(body[..|body| - 1], st, w, limit);
      if before.value.exit.Normal? { ExecLimit(body[|body| - 1], before.value.store, w, limit, more); }
    }
  }

  lemma {:induction false} ExecLoopLimit(until: Option<Expr>, inc: Option<Increment>, loop: Stmt, st: Store, w: World,
                                         limit: nat, left: nat, more: nat, moreLeft: nat)
    requires limit <= more && left <= moreLeft && ExecLoop(until, inc, loop, st, w, limit, left).Some?
    ensures ExecLoop(until, inc, loop, st, w, more, moreLeft) == ExecLoop(until, inc, loop, st, w, limit, left)
    decreases loop, 1, left
  {
    if !(until.Some? && Value(until.value, st, w) == 0) {
      ExecLimit(loop, st, w, limit, more);
      var out := Exec(loop, st, w, limit).value;
      if out.exit.Normal? || out.exit.Continues? {
        ExecLoopLimit(until, inc, loop, ExecInc(inc, out.store, w), w, limit, left - 1, more, moreLeft - 1);
      }
    }
  }
}

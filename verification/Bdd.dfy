/** The decision diagrams of the native reachability analysis
    (class Bdd in CppGraphReachability.h): a node list shared by every diagram,
    a unique table and a memo table for the binary operations. */
module DecisionDiagrams {
  import opened Common
  import Graphs = NativeGraphs

  type Bit = Graphs.Bit

  /** A test of `variable`; nodes 0 and 1 are the two constants. */
  datatype Decision = Decision(variable: Bit, low: nat, high: nat)

  datatype Op = And | Or | Xor

  /** The work budget of the analysis: running out rejects, it never answers. */
  datatype Limited<+T> = Limit | Done(value: T)

  const TERMINAL: Bit := 0xFFFF_FFFF_FFFF_FFFF
  const MAX_NODES := 50000
  const MAX_DEPTH := 512
  const MAX_COST := 2000000

  function Combine(op: Op, a: bool, b: bool): bool {
    match op
    case And => a && b
    case Or => a || b
    case Xor => a != b
  }

  /** Ordered and reduced: every test is below its parent in the variable
      order, refers to older nodes only, and has two different outcomes. */
  ghost predicate Ordered(ns: seq<Decision>) {
    && |ns| >= 2
    && ns[0] == Decision(TERMINAL, 0, 0)
    && ns[1] == Decision(TERMINAL, 1, 1)
    && forall i | 2 <= i < |ns| :: OrderedAt(ns, i)
  }

  ghost predicate OrderedAt(ns: seq<Decision>, i: nat)
    requires i < |ns|
  {
    var n := ns[i];
    && n.low < i && n.high < i && n.low != n.high
    && n.variable < ns[n.low].variable && n.variable < ns[n.high].variable
  }

  ghost predicate DuplicateFree(ns: seq<Decision>) {
    forall i, j | 2 <= i < |ns| && 2 <= j < |ns| && ns[i] == ns[j] :: i == j
  }

  /** The boolean function of a diagram; `env` holds the true variables. */
  ghost function Eval(ns: seq<Decision>, id: nat, env: iset<Bit>): bool
    requires Ordered(ns) && id < |ns|
    decreases id
  {
    if id < 2 then id == 1
    else
      assert OrderedAt(ns, id);
      if ns[id].variable in env then Eval(ns, ns[id].high, env) else Eval(ns, ns[id].low, env)
  }

  /** `r` is the pointwise combination of `a` and `b`. */
  ghost predicate Denotes(ns: seq<Decision>, op: Op, a: nat, b: nat, r: nat)
    requires Ordered(ns) && a < |ns| && b < |ns| && r < |ns|
  {
    forall env :: Eval(ns, r, env) == Combine(op, Eval(ns, a, env), Eval(ns, b, env))
  }

  /** Nodes are only appended, so a diagram keeps its meaning. */
  lemma {:induction false} EvalStable(ns: seq<Decision>, ns': seq<Decision>, id: nat, env: iset<Bit>)
    requires Ordered(ns) && Ordered(ns') && ns <= ns' && id < |ns|
    ensures Eval(ns, id, env) == Eval(ns', id, env)
    decreases id
  {
    if id >= 2 {
      assert OrderedAt(ns, id);
      EvalStable(ns, ns', ns[id].low, env);
      EvalStable(ns, ns', ns[id].high, env);
    }
  }

  lemma AllStable(ns: seq<Decision>, ns': seq<Decision>)
    requires Ordered(ns) && Ordered(ns') && ns <= ns'
    ensures forall id, env {:trigger Eval(ns', id, env)} | 0 <= id < |ns| :: Eval(ns, id, env) == Eval(ns', id, env)
  {
    forall id, env | 0 <= id < |ns| ensures Eval(ns, id, env) == Eval(ns', id, env) {
      EvalStable(ns, ns', id, env);
    }
  }

  lemma DenotesStable(ns: seq<Decision>, ns': seq<Decision>, op: Op, a: nat, b: nat, r: nat)
    requires Ordered(ns) && Ordered(ns') && ns <= ns'
    requires a < |ns| && b < |ns| && r < |ns| && Denotes(ns, op, a, b, r)
    ensures Denotes(ns', op, a, b, r)
  {
    forall env ensures Eval(ns', r, env) == Combine(op, Eval(ns', a, env), Eval(ns', b, env)) {
      EvalStable(ns, ns', a, env);
      EvalStable(ns, ns', b, env);
      EvalStable(ns, ns', r, env);
    }
  }

  /** A diagram does not see variables above its root test. */
  lemma {:induction false} EvalIgnoresEarlier(ns: seq<Decision>, id: nat, env: iset<Bit>, env': iset<Bit>, v: Bit)
    requires Ordered(ns) && id < |ns|
    requires v < ns[id].variable
    requires forall x | x != v :: x in env <==> x in env'
    ensures Eval(ns, id, env) == Eval(ns, id, env')
    decreases id
  {
    if id >= 2 {
      assert OrderedAt(ns, id);
      EvalIgnoresEarlier(ns, ns[id].low, env, env', v);
      EvalIgnoresEarlier(ns, ns[id].high, env, env', v);
    }
  }

  lemma {:induction false} VariableBelowTerminal(ns: seq<Decision>, id: nat)
    requires Ordered(ns) && id < |ns|
    ensures if id < 2 then ns[id].variable == TERMINAL else ns[id].variable < TERMINAL
    decreases id
  {
    if id >= 2 {
      assert OrderedAt(ns, id);
      VariableBelowTerminal(ns, ns[id].low);
    }
  }

  /** Canonicity: two different ids are two different functions; the lemma
      returns a valuation that tells them apart. */
  lemma {:induction false} Distinguish(ns: seq<Decision>, a: nat, b: nat) returns (env: iset<Bit>)
    requires Ordered(ns) && DuplicateFree(ns)
    requires a < |ns| && b < |ns| && a != b
    ensures Eval(ns, a, env) != Eval(ns, b, env)
    decreases a + b
  {
    env := iset{};
    VariableBelowTerminal(ns, a);
    VariableBelowTerminal(ns, b);
    if a < 2 && b < 2 {
    } else if ns[a].variable <= ns[b].variable {
      env := Split(ns, a, b);
    } else {
      env := Split(ns, b, a);
    }
  }

  lemma {:induction false} Split(ns: seq<Decision>, a: nat, b: nat) returns (env: iset<Bit>)
    requires Ordered(ns) && DuplicateFree(ns)
    requires 2 <= a < |ns| && b < |ns| && a != b
    requires ns[a].variable <= ns[b].variable
    ensures Eval(ns, a, env) != Eval(ns, b, env)
    decreases a + b, 0
  {
    var v := ns[a].variable;
    assert OrderedAt(ns, a);
    var same := b >= 2 && ns[b].variable == v;
    if b >= 2 { assert OrderedAt(ns, b); }
    var bl, bh := if same then ns[b].low else b, if same then ns[b].high else b;
    if ns[a].low != bl {
      var e := Distinguish(ns, ns[a].low, bl);
      env := e - iset{v};
      EvalIgnoresEarlier(ns, ns[a].low, e, env, v);
      if same || v < ns[bl].variable { EvalIgnoresEarlier(ns, bl, e, env, v); }
    } else {
      assert same ==> ns[a].variable == ns[b].variable && ns[a].low == ns[b].low;
      var e := Distinguish(ns, ns[a].high, bh);
      env := e + iset{v};
      EvalIgnoresEarlier(ns, ns[a].high, e, env, v);
      EvalIgnoresEarlier(ns, bh, e, env, v);
    }
  }

  /** Equal ids are exactly equal functions, so only diagram 0 is unsatisfiable. */
  lemma Canonical(ns: seq<Decision>, a: nat, b: nat)
    requires Ordered(ns) && DuplicateFree(ns) && a < |ns| && b < |ns|
    ensures a == b <==> forall env :: Eval(ns, a, env) == Eval(ns, b, env)
    ensures a != 0 <==> exists env :: Eval(ns, a, env)
  {
    if a != b { var env := Distinguish(ns, a, b); }
    if a != 0 {
      var env := Distinguish(ns, a, 0);
      assert !Eval(ns, 0, env);
    }
  }

  /** The nodes a diagram is made of. */
  ghost function Cone(ns: seq<Decision>, id: nat): set<nat>
    requires Ordered(ns) && id < |ns|
    decreases id
  {
    if id < 2 then {}
    else
      assert OrderedAt(ns, id);
      {id} + Cone(ns, ns[id].low) + Cone(ns, ns[id].high)
  }

  /** Some valuation of the other variables makes the value of `v` matter. */
  ghost predicate SensitiveTo(ns: seq<Decision>, id: nat, v: Bit)
    requires Ordered(ns) && id < |ns|
  {
    exists env: iset<Bit> :: Eval(ns, id, env + iset{v}) != Eval(ns, id, env - iset{v})
  }

  lemma {:induction false} ConeBounds(ns: seq<Decision>, id: nat, x: nat)
    requires Ordered(ns) && id < |ns| && x in Cone(ns, id)
    ensures 2 <= x <= id && ns[id].variable <= ns[x].variable
    decreases id
  {
    assert OrderedAt(ns, id);
    if x != id {
      if x in Cone(ns, ns[id].low) { ConeBounds(ns, ns[id].low, x); } else { ConeBounds(ns, ns[id].high, x); }
    }
  }

  /** A test anywhere in a reduced diagram is a real dependence. */
  lemma {:induction false} ConeIsSensitive(ns: seq<Decision>, id: nat, x: nat)
    requires Ordered(ns) && DuplicateFree(ns) && id < |ns| && x in Cone(ns, id)
    ensures x < |ns| && SensitiveTo(ns, id, ns[x].variable)
    decreases id
  {
    ConeBounds(ns, id, x);
    assert OrderedAt(ns, id);
    var u, v := ns[id].variable, ns[x].variable;
    if x == id {
      var e := Distinguish(ns, ns[id].low, ns[id].high);
      EvalIgnoresEarlier(ns, ns[id].low, e, e - iset{v}, v);
      EvalIgnoresEarlier(ns, ns[id].high, e, e + iset{v}, v);
    } else {
      var high := x in Cone(ns, ns[id].high);
      var child := if high then ns[id].high else ns[id].low;
      ConeIsSensitive(ns, child, x);
      ConeBounds(ns, child, x);
      var e: iset<Bit> :| Eval(ns, child, e + iset{v}) != Eval(ns, child, e - iset{v});
      var e' := if high then e + iset{u} else e - iset{u};
      EvalIgnoresEarlier(ns, child, e + iset{v}, e' + iset{v}, u);
      EvalIgnoresEarlier(ns, child, e - iset{v}, e' - iset{v}, u);
      assert u != v;
      assert Eval(ns, id, e' + iset{v}) != Eval(ns, id, e' - iset{v});
    }
  }

  /** A diagram is a function of the variables it tests. */
  lemma {:induction false} EvalReadsCone(ns: seq<Decision>, id: nat, env: iset<Bit>, env': iset<Bit>)
    requires Ordered(ns) && id < |ns|
    requires forall x | x in Cone(ns, id) && x < |ns| :: ns[x].variable in env <==> ns[x].variable in env'
    ensures Eval(ns, id, env) == Eval(ns, id, env')
    decreases id
  {
    if id >= 2 {
      assert OrderedAt(ns, id);
      assert id in Cone(ns, id);
      EvalReadsCone(ns, ns[id].low, env, env');
      EvalReadsCone(ns, ns[id].high, env, env');
    }
  }

  ghost predicate Tests(ns: seq<Decision>, id: nat, wire: nat)
    requires Ordered(ns) && id < |ns|
  {
    exists x | x in Cone(ns, id) :: x < |ns| && Graphs.Owner(ns[x].variable) == wire
  }

  /** `depends` is exact: it answers yes just when some bit of the wire can
      change the value of the diagram. */
  lemma TestsIsDependence(ns: seq<Decision>, id: nat, wire: nat)
    requires Ordered(ns) && DuplicateFree(ns) && id < |ns|
    ensures Tests(ns, id, wire) <==> exists v :: Graphs.Owner(v) == wire && SensitiveTo(ns, id, v)
  {
    if Tests(ns, id, wire) {
      var x :| x in Cone(ns, id) && x < |ns| && Graphs.Owner(ns[x].variable) == wire;
      ConeIsSensitive(ns, id, x);
    }
    forall v | Graphs.Owner(v) == wire && SensitiveTo(ns, id, v) ensures Tests(ns, id, wire) {
      var env: iset<Bit> :| Eval(ns, id, env + iset{v}) != Eval(ns, id, env - iset{v});
      if !Tests(ns, id, wire) {
        EvalReadsCone(ns, id, env + iset{v}, env - iset{v});
      }
    }
  }

  lemma {:induction false} ClosedConeContained(ns: seq<Decision>, id: nat, closed: set<nat>)
    requires Ordered(ns) && id < |ns|
    requires id >= 2 ==> id in closed
    requires forall x | x in closed :: 2 <= x < |ns|
    requires forall x | x in closed ::
               (ns[x].low >= 2 ==> ns[x].low in closed) && (ns[x].high >= 2 ==> ns[x].high in closed)
    ensures Cone(ns, id) <= closed
    decreases id
  {
    if id >= 2 {
      assert OrderedAt(ns, id);
      ClosedConeContained(ns, ns[id].low, closed);
      ClosedConeContained(ns, ns[id].high, closed);
    }
  }

  lemma {:induction false} ConeTransitive(ns: seq<Decision>, id: nat, x: nat)
    requires Ordered(ns) && id < |ns| && x in Cone(ns, id)
    ensures x < |ns| && Cone(ns, x) <= Cone(ns, id)
    decreases id
  {
    assert OrderedAt(ns, id);
    ConeBounds(ns, id, x);
    if x != id {
      if x in Cone(ns, ns[id].low) { ConeTransitive(ns, ns[id].low, x); } else { ConeTransitive(ns, ns[id].high, x); }
    }
  }

  /** The unique table indexes exactly the nodes. */
  ghost predicate UniqueTable(ns: seq<Decision>, unique: map<(Bit, nat, nat), nat>) {
    && (forall k | k in unique :: 2 <= unique[k] < |ns| && ns[unique[k]] == Decision(k.0, k.1, k.2))
    && forall i | 2 <= i < |ns| :: Indexed(ns[i], i, unique)
  }

  ghost predicate Indexed(n: Decision, i: nat, unique: map<(Bit, nat, nat), nat>) {
    var k := (n.variable, n.low, n.high);
    k in unique && unique[k] == i
  }

  /** A memo entry never outlives its meaning. */
  ghost predicate MemoEntry(ns: seq<Decision>, op: Op, a: nat, b: nat, r: nat) {
    && Ordered(ns)
    && a < |ns| && b < |ns| && r < |ns|
    && Denotes(ns, op, a, b, r)
    && Min(ns[a].variable, ns[b].variable) <= ns[r].variable
  }

  ghost predicate MemoTable(ns: seq<Decision>, memo: map<(Op, nat, nat), nat>) {
    forall k | k in memo :: MemoEntry(ns, k.0, k.1, k.2, memo[k])
  }

  lemma TablesHaveNoDuplicates(ns: seq<Decision>, unique: map<(Bit, nat, nat), nat>)
    requires UniqueTable(ns, unique)
    ensures DuplicateFree(ns)
  {
    forall i, j | 2 <= i < |ns| && 2 <= j < |ns| && ns[i] == ns[j] ensures i == j {
      assert Indexed(ns[i], i, unique) && Indexed(ns[j], j, unique);
    }
  }

  lemma AppendOrdered(ns: seq<Decision>, n: Decision)
    requires Ordered(ns) && n.low < |ns| && n.high < |ns| && n.low != n.high
    requires n.variable < ns[n.low].variable && n.variable < ns[n.high].variable
    ensures Ordered(ns + [n])
  {
    forall i | 2 <= i < |ns + [n]| ensures OrderedAt(ns + [n], i) {
      if i < |ns| { assert OrderedAt(ns, i); }
    }
  }

  lemma AppendUnique(ns: seq<Decision>, unique: map<(Bit, nat, nat), nat>, n: Decision)
    requires UniqueTable(ns, unique) && |ns| >= 2
    requires (n.variable, n.low, n.high) !in unique
    ensures UniqueTable(ns + [n], unique[(n.variable, n.low, n.high) := |ns|])
  {
    var unique' := unique[(n.variable, n.low, n.high) := |ns|];
    forall i | 2 <= i < |ns + [n]| ensures Indexed((ns + [n])[i], i, unique') {
      if i < |ns| { assert Indexed(ns[i], i, unique); }
    }
  }

  lemma MemoStable(ns: seq<Decision>, ns': seq<Decision>, memo: map<(Op, nat, nat), nat>)
    requires Ordered(ns) && Ordered(ns') && ns <= ns' && MemoTable(ns, memo)
    ensures MemoTable(ns', memo)
  {
    forall k | k in memo ensures MemoEntry(ns', k.0, k.1, k.2, memo[k]) {
      DenotesStable(ns, ns', k.0, k.1, k.2, memo[k]);
    }
  }

  /** Short cuts taken before the memo table is consulted; `a <= b`. */
  function Shortcut(op: Op, a: nat, b: nat): (r: Limited<nat>)
    requires a <= b
  {
    if op == And && (a == 0 || a == b) then Done(a)
    else if op == And && a == 1 then Done(b)
    else if op == Or && (a == 0 || a == b) then Done(b)
    else if op == Or && a == 1 then Done(1)
    else if op == Xor && a == 0 then Done(b)
    else if op == Xor && a == b then Done(0)
    else if a < 2 && b < 2 then Done(if Combine(op, a == 1, b == 1) then 1 else 0)
    else Limit
  }

  lemma ShortcutSound(ns: seq<Decision>, op: Op, a: nat, b: nat)
    requires Ordered(ns) && a <= b < |ns|
    ensures var r := Shortcut(op, a, b);
            if r.Done? then MemoEntry(ns, op, a, b, r.value) else b >= 2
  {
    VariableBelowTerminal(ns, a);
    VariableBelowTerminal(ns, b);
  }

  lemma Commute(ns: seq<Decision>, op: Op, a: nat, b: nat, r: nat)
    requires MemoEntry(ns, op, a, b, r)
    ensures MemoEntry(ns, op, b, a, r)
  {
    forall env ensures Eval(ns, r, env) == Combine(op, Eval(ns, b, env), Eval(ns, a, env)) {
      assert Eval(ns, r, env) == Combine(op, Eval(ns, a, env), Eval(ns, b, env));
    }
  }

  /** The cofactor of `a` on the tested variable `first`. */
  function Cofactor(n: Decision, a: nat, first: Bit, positive: bool): nat {
    if n.variable != first then a else if positive then n.high else n.low
  }

  lemma CofactorEval(ns: seq<Decision>, a: nat, first: Bit, env: iset<Bit>)
    requires Ordered(ns) && a < |ns| && first <= ns[a].variable && first < TERMINAL
    ensures Cofactor(ns[a], a, first, first in env) < |ns|
    ensures Eval(ns, a, env) == Eval(ns, Cofactor(ns[a], a, first, first in env), env)
  {
    VariableBelowTerminal(ns, a);
    if a >= 2 { assert OrderedAt(ns, a); }
  }

  lemma CofactorsBelow(ns: seq<Decision>, a: nat, b: nat, first: Bit)
    requires Ordered(ns) && a < |ns| && b < |ns|
    requires first == Min(ns[a].variable, ns[b].variable) && first < TERMINAL
    ensures forall positive: bool ::
              var ca, cb := Cofactor(ns[a], a, first, positive), Cofactor(ns[b], b, first, positive);
              ca < |ns| && cb < |ns| && ca + cb < a + b && first < ns[ca].variable && first < ns[cb].variable
  {
    VariableBelowTerminal(ns, a);
    VariableBelowTerminal(ns, b);
    if a >= 2 { assert OrderedAt(ns, a); }
    if b >= 2 { assert OrderedAt(ns, b); }
  }

  lemma EntryStable(ns: seq<Decision>, ns': seq<Decision>, op: Op, a: nat, b: nat, r: nat)
    requires Ordered(ns) && Ordered(ns') && ns <= ns' && MemoEntry(ns, op, a, b, r)
    ensures MemoEntry(ns', op, a, b, r)
  {
    DenotesStable(ns, ns', op, a, b, r);
  }

  /** Shannon expansion: combining the cofactors combines the diagrams. */
  lemma Expansion(ns: seq<Decision>, op: Op, a: nat, b: nat, first: Bit, low: nat, high: nat, r: nat)
    requires Ordered(ns) && a < |ns| && b < |ns| && low < |ns| && high < |ns| && r < |ns|
    requires first < TERMINAL && first <= ns[a].variable && first <= ns[b].variable
    requires MemoEntry(ns, op, Cofactor(ns[a], a, first, false), Cofactor(ns[b], b, first, false), low)
    requires MemoEntry(ns, op, Cofactor(ns[a], a, first, true), Cofactor(ns[b], b, first, true), high)
    requires forall env :: Eval(ns, r, env) == Eval(ns, if first in env then high else low, env)
    ensures Denotes(ns, op, a, b, r)
  {
    forall env ensures Eval(ns, r, env) == Combine(op, Eval(ns, a, env), Eval(ns, b, env)) {
      CofactorEval(ns, a, first, env);
      CofactorEval(ns, b, first, env);
    }
  }

  ghost predicate Muxes(ns: seq<Decision>, select: nat, yes: nat, no: nat, r: nat)
    requires Ordered(ns) && select < |ns| && yes < |ns| && no < |ns| && r < |ns|
  {
    forall env :: Eval(ns, r, env) == if Eval(ns, select, env) then Eval(ns, yes, env) else Eval(ns, no, env)
  }

  ghost predicate Covered(id: nat, pending: seq<nat>, seen: set<nat>) {
    id < 2 || id in pending || id in seen
  }

  lemma ConeStep(ns: seq<Decision>, id: nat)
    requires Ordered(ns) && 2 <= id < |ns|
    ensures ns[id].low < |ns| && ns[id].high < |ns|
    ensures ns[id].low < 2 || ns[id].low in Cone(ns, id)
    ensures ns[id].high < 2 || ns[id].high in Cone(ns, id)
  {
    assert OrderedAt(ns, id);
  }

  /** The tested variables. */
  ghost function Variables(ns: seq<Decision>): set<Bit> {
    set i | 2 <= i < |ns| :: ns[i].variable
  }

  lemma FirstIsTested(ns: seq<Decision>, a: nat, b: nat)
    requires Ordered(ns) && a < |ns| && 2 <= b < |ns|
    ensures Min(ns[a].variable, ns[b].variable) in Variables(ns)
  {
    VariableBelowTerminal(ns, a);
    VariableBelowTerminal(ns, b);
  }

  class Bdd {
    var nodes: seq<Decision>
    var unique: map<(Bit, nat, nat), nat>
    var memo: map<(Op, nat, nat), nat>
    var depth: nat
    var cost: nat

    ghost predicate Valid()
      reads this
    {
      Ordered(nodes) && UniqueTable(nodes, unique) && MemoTable(nodes, memo)
    }

    constructor (spent: nat)
      ensures Valid() && nodes == [Decision(TERMINAL, 0, 0), Decision(TERMINAL, 1, 1)]
      ensures cost == spent
    {
      nodes := [Decision(TERMINAL, 0, 0), Decision(TERMINAL, 1, 1)];
      unique, memo, depth, cost := map[], map[], 0, spent;
    }

    method Charge() returns (ok: bool)
      modifies this`cost
      ensures cost == old(cost) + 1
      ensures ok <==> cost <= MAX_COST
    {
      cost := cost + 1;
      ok := cost <= MAX_COST;
    }

    /** The only way a node enters the tables. */
    method Make(variable: Bit, low: nat, high: nat) returns (r: Limited<nat>)
      requires Valid() && low < |nodes| && high < |nodes|
      requires variable < nodes[low].variable && variable < nodes[high].variable
      modifies this
      ensures Valid() && old(nodes) <= nodes && depth == old(depth)
      ensures Variables(nodes) <= Variables(old(nodes)) + {variable}
      ensures r.Done? ==>
                && r.value < |nodes|
                && (if low == high then r.value == low
                    else r.value >= 2 && nodes[r.value] == Decision(variable, low, high))
    {
      var ok := Charge();
      if !ok { return Limit; }
      if low == high { return Done(low); }
      var key := (variable, low, high);
      if key in unique { return Done(unique[key]); }
      if |nodes| >= MAX_NODES { return Limit; }
      var id := |nodes|;
      ghost var before := nodes;
      AppendOrdered(nodes, Decision(variable, low, high));
      AppendUnique(nodes, unique, Decision(variable, low, high));
      nodes := nodes + [Decision(variable, low, high)];
      unique := unique[key := id];
      MemoStable(before, nodes, memo);
      return Done(id);
    }

    method Variable(bit: Bit) returns (r: Limited<nat>)
      requires Valid() && bit < TERMINAL
      modifies this
      ensures Valid() && old(nodes) <= nodes && depth == old(depth)
      ensures Variables(nodes) <= Variables(old(nodes)) + {bit}
      ensures r.Done? ==> r.value < |nodes| && forall env :: Eval(nodes, r.value, env) == (bit in env)
    {
      r := Make(bit, 0, 1);
    }

    /** apply: whatever the tables already hold, the result is the pointwise
        combination of the two diagrams. */
    method Apply(op: Op, a0: nat, b0: nat) returns (r: Limited<nat>)
      requires Valid() && a0 < |nodes| && b0 < |nodes|
      modifies this
      ensures Valid() && old(nodes) <= nodes
      ensures Variables(nodes) == Variables(old(nodes))
      ensures r.Done? ==> depth == old(depth) && MemoEntry(nodes, op, a0, b0, r.value)
      decreases a0 + b0, 1
    {
      var ok := Charge();
      if !ok { return Limit; }
      var a, b := a0, b0;
      if a > b { a, b := b, a; }
      var short := Shortcut(op, a, b);
      ShortcutSound(nodes, op, a, b);
      if short.Done? {
        Commute(nodes, op, a, b, short.value);
        return short;
      }
      var key := (op, a, b);
      if key in memo {
        Commute(nodes, op, a, b, memo[key]);
        return Done(memo[key]);
      }
      depth := depth + 1;
      if depth > MAX_DEPTH { return Limit; }
      r := Expand(op, a, b);
      if r.Done? {
        Remember(op, a, b, r.value);
        Commute(nodes, op, a, b, r.value);
      }
    }

    /** The recursive step of apply on the topmost tested variable. */
    method Expand(op: Op, a: nat, b: nat) returns (r: Limited<nat>)
      requires Valid() && a < |nodes| && 2 <= b < |nodes|
      modifies this
      ensures Valid() && old(nodes) <= nodes
      ensures Variables(nodes) == Variables(old(nodes))
      ensures r.Done? ==> depth == old(depth) && MemoEntry(nodes, op, a, b, r.value)
      decreases a + b, 0
    {
      var first := Min(nodes[a].variable, nodes[b].variable);
      VariableBelowTerminal(nodes, b);
      FirstIsTested(nodes, a, b);
      var al, ah := Cofactor(nodes[a], a, first, false), Cofactor(nodes[a], a, first, true);
      var bl, bh := Cofactor(nodes[b], b, first, false), Cofactor(nodes[b], b, first, true);
      CofactorsBelow(nodes, a, b, first);
      var low := Apply(op, al, bl);
      if low.Limit? { return Limit; }
      ghost var mid := nodes;
      var high := Apply(op, ah, bh);
      if high.Limit? { return Limit; }
      ghost var last := nodes;
      EntryStable(mid, last, op, al, bl, low.value);
      r := Make(first, low.value, high.value);
      if r.Done? {
        MadeEntry(last, nodes, op, a, b, first, low.value, high.value, r.value);
      }
    }

    method Remember(op: Op, a: nat, b: nat, r: nat)
      requires Valid() && MemoEntry(nodes, op, a, b, r) && depth > 0
      modifies this`memo, this`depth
      ensures Valid() && depth == old(depth) - 1
    {
      depth := depth - 1;
      memo := memo[(op, a, b) := r];
    }

    /** choose: the multiplexer of three diagrams. */
    method Choose(select: nat, yes: nat, no: nat) returns (r: Limited<nat>)
      requires Valid() && select < |nodes| && yes < |nodes| && no < |nodes|
      modifies this
      ensures Valid() && old(nodes) <= nodes
      ensures Variables(nodes) == Variables(old(nodes))
      ensures r.Done? ==> r.value < |nodes| && Muxes(nodes, select, yes, no, r.value)
    {
      if select < 2 { return Done(if select == 1 then yes else no); }
      if yes == no { return Done(yes); }
      ghost var s0 := nodes;
      var taken := Apply(And, select, yes);
      if taken.Limit? { return Limit; }
      ghost var s1 := nodes;
      var inverted := Apply(Xor, select, 1);
      if inverted.Limit? { return Limit; }
      ghost var s2 := nodes;
      var other := Apply(And, inverted.value, no);
      if other.Limit? { return Limit; }
      ghost var s3 := nodes;
      r := Apply(Or, taken.value, other.value);
      if r.Done? {
        DenotesStable(s1, nodes, And, select, yes, taken.value);
        DenotesStable(s2, nodes, Xor, select, 1, inverted.value);
        DenotesStable(s3, nodes, And, inverted.value, no, other.value);
      }
    }

    /** depends: a worklist over the nodes of one diagram. */
    method Depends(value: nat, wire: nat) returns (r: Limited<bool>)
      requires Valid() && value < |nodes|
      modifies this`cost
      ensures Valid()
      ensures r.Done? ==> (r.value <==> Tests(nodes, value, wire))
    {
      var pending: seq<nat> := [value];
      var seen: set<nat> := {};
      ghost var cone := Cone(nodes, value);
      while pending != []
        invariant Valid()
        invariant forall p | p in pending :: p < 2 || p in cone
        invariant seen <= cone && forall x | x in seen :: 2 <= x < |nodes|
        invariant value < 2 || value in pending || value in seen
        invariant forall x | x in seen :: Graphs.Owner(nodes[x].variable) != wire
        invariant forall x | x in seen :: Covered(nodes[x].low, pending, seen) && Covered(nodes[x].high, pending, seen)
        decreases cone - seen, |pending|
      {
        var ok := Charge();
        if !ok { return Limit; }
        var id := pending[|pending| - 1];
        ghost var before := pending;
        pending := pending[..|pending| - 1];
        assert before == pending + [id];
        if id < 2 || id in seen { continue; }
        ConeTransitive(nodes, value, id);
        ConeBounds(nodes, value, id);
        seen := seen + {id};
        assert OrderedAt(nodes, id);
        if Graphs.Owner(nodes[id].variable) == wire {
          return Done(true);
        }
        ConeStep(nodes, id);
        pending := pending + [nodes[id].low, nodes[id].high];
      }
      ClosedConeContained(nodes, value, seen);
      return Done(false);
    }
  }

  lemma MadeEntry(ns: seq<Decision>, ns': seq<Decision>, op: Op, a: nat, b: nat, first: Bit, low: nat, high: nat,
                  r: nat)
    requires Ordered(ns) && Ordered(ns') && ns <= ns'
    requires a < |ns| && b < |ns| && low < |ns| && high < |ns| && r < |ns'|
    requires first < TERMINAL && first == Min(ns[a].variable, ns[b].variable)
    requires MemoEntry(ns, op, Cofactor(ns[a], a, first, false), Cofactor(ns[b], b, first, false), low)
    requires MemoEntry(ns, op, Cofactor(ns[a], a, first, true), Cofactor(ns[b], b, first, true), high)
    requires first < ns[low].variable && first < ns[high].variable
    requires if low == high then r == low else r >= 2 && ns'[r] == Decision(first, low, high)
    ensures MemoEntry(ns', op, a, b, r)
  {
    DenotesStable(ns, ns', op, Cofactor(ns[a], a, first, false), Cofactor(ns[b], b, first, false), low);
    DenotesStable(ns, ns', op, Cofactor(ns[a], a, first, true), Cofactor(ns[b], b, first, true), high);
    Expansion(ns', op, a, b, first, low, high, r);
  }
}

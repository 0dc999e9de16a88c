/** The proof attempt of NativeStateReachability (CppGraphReachability.h): small
    state domains and the parts of the graph that cannot see an undriven wire. */
module Reachability {
  import opened Common
  import D = DecisionDiagrams
  import opened NativeGraphs
  import opened NativeRuns
  import opened NativeEquivalence

  type Limited<+T> = D.Limited<T>

  ghost predicate Represents(ns: seq<D.Decision>, r: nat, m: Setting, bit: Bit)
    requires FixedOk(m) && D.Ordered(ns)
  {
    r < |ns| && Usable(m.g, bit) && forall c | Admits(m, c) :: D.Eval(ns, r, Symbols(c)) == BitValue(c, bit)
  }

  ghost predicate RepresentsAll(ns: seq<D.Decision>, rs: seq<nat>, m: Setting, bits: seq<Bit>)
    requires FixedOk(m) && D.Ordered(ns)
  {
    |rs| == |bits| && forall i | 0 <= i < |bits| :: Represents(ns, rs[i], m, bits[i])
  }

  ghost predicate RepresentsLane(ns: seq<D.Decision>, r: nat, m: Setting, id: nat, lane: nat)
    requires FixedOk(m) && D.Ordered(ns) && id < |m.g.nodes| && lane < m.g.nodes[id].width
  {
    r < |ns| && forall c | Admits(m, c) :: D.Eval(ns, r, Symbols(c)) == NodeValue(c, id)[lane]
  }

  ghost predicate RepresentsNode(ns: seq<D.Decision>, rs: seq<nat>, m: Setting, id: nat)
    requires FixedOk(m) && D.Ordered(ns)
  {
    && id < |m.g.nodes| && |rs| == m.g.nodes[id].width
    && forall lane | 0 <= lane < |rs| :: RepresentsLane(ns, rs[lane], m, id, lane)
  }

  /** A diagram variable other than the wire's own bits carries a value that
      the wire cannot change. */
  ghost predicate VariableStable(m: Setting, v: Bit)
    requires FixedOk(m)
  {
    && Known(m.g, v)
    && (Owner(v) != m.target ==> forall c1, c2 | Agree(m, c1, c2) :: v in Symbols(c1) <==> v in Symbols(c2))
  }

  ghost predicate Sound(m: Setting, ns: seq<D.Decision>, cache: map<nat, seq<nat>>) {
    && FixedOk(m) && D.Ordered(ns)
    && (forall v | v in D.Variables(ns) :: VariableStable(m, v))
    && forall id | id in cache :: CacheEntry(m, ns, id, cache[id])
  }

  ghost predicate CacheEntry(m: Setting, ns: seq<D.Decision>, id: nat, rs: seq<nat>)
    requires FixedOk(m) && D.Ordered(ns)
  {
    RepresentsNode(ns, rs, m, id) && (m.g.nodes[id].op.Opaque? ==> OperandsStable(m, id))
  }

  // ----- Appending diagram nodes keeps what is known ------------------------

  lemma RepresentsGrows(m: Setting, ns: seq<D.Decision>, ns': seq<D.Decision>, rs: seq<nat>, bits: seq<Bit>)
    requires FixedOk(m) && D.Ordered(ns) && D.Ordered(ns') && ns <= ns'
    requires RepresentsAll(ns, rs, m, bits)
    ensures RepresentsAll(ns', rs, m, bits)
  {
    forall i | 0 <= i < |bits| ensures Represents(ns', rs[i], m, bits[i]) {
      assert Represents(ns, rs[i], m, bits[i]);
      forall c | Admits(m, c) ensures D.Eval(ns', rs[i], Symbols(c)) == BitValue(c, bits[i]) {
        D.EvalStable(ns, ns', rs[i], Symbols(c));
      }
    }
  }

  lemma LaneGrows(m: Setting, ns: seq<D.Decision>, ns': seq<D.Decision>, r: nat, id: nat, lane: nat)
    requires FixedOk(m) && D.Ordered(ns) && D.Ordered(ns') && ns <= ns'
    requires id < |m.g.nodes| && lane < m.g.nodes[id].width
    requires RepresentsLane(ns, r, m, id, lane)
    ensures RepresentsLane(ns', r, m, id, lane)
  {
    forall c | Admits(m, c) ensures D.Eval(ns', r, Symbols(c)) == NodeValue(c, id)[lane] {
      D.EvalStable(ns, ns', r, Symbols(c));
    }
  }

  ghost predicate LanesDone(ns: seq<D.Decision>, rs: seq<nat>, m: Setting, id: nat)
    requires FixedOk(m) && D.Ordered(ns)
  {
    && id < |m.g.nodes| && |rs| <= m.g.nodes[id].width
    && forall lane | 0 <= lane < |rs| :: RepresentsLane(ns, rs[lane], m, id, lane)
  }

  lemma LanesGrow(m: Setting, ns: seq<D.Decision>, ns': seq<D.Decision>, rs: seq<nat>, id: nat)
    requires FixedOk(m) && D.Ordered(ns) && D.Ordered(ns') && ns <= ns'
    requires LanesDone(ns, rs, m, id)
    ensures LanesDone(ns', rs, m, id)
  {
    forall lane | 0 <= lane < |rs| ensures RepresentsLane(ns', rs[lane], m, id, lane) {
      assert RepresentsLane(ns, rs[lane], m, id, lane);
      LaneGrows(m, ns, ns', rs[lane], id, lane);
    }
  }

  lemma SoundGrows(m: Setting, ns: seq<D.Decision>, ns': seq<D.Decision>, cache: map<nat, seq<nat>>)
    requires Sound(m, ns, cache) && D.Ordered(ns') && ns <= ns'
    requires forall v | v in D.Variables(ns') :: v in D.Variables(ns) || VariableStable(m, v)
    ensures Sound(m, ns', cache)
  {
    forall id | id in cache ensures CacheEntry(m, ns', id, cache[id]) {
      assert CacheEntry(m, ns, id, cache[id]);
      LanesGrow(m, ns, ns', cache[id], id);
    }
  }

  // ----- Stability ----------------------------------------------------------

  lemma SymbolIsOutput(c: Context, id: nat, lane: nat)
    requires Ok(c) && id < |c.g.nodes| && lane < c.g.nodes[id].width
    ensures lane < 64 && Known(c.g, BitOf(id, lane))
    ensures BitOf(id, lane) in Symbols(c) <==> NodeValue(c, id)[lane]
  {
    assert NodeOk(c.g, c.level, id);
    BitNumbering(id, lane);
  }

  /** A diagram that does not test the wire has a value it cannot change. */
  lemma UntestedIsStable(m: Setting, ns: seq<D.Decision>, cache: map<nat, seq<nat>>, r: nat, bit: Bit)
    requires Sound(m, ns, cache) && Represents(ns, r, m, bit) && !D.Tests(ns, r, m.target)
    ensures BitStable(m, bit)
  {
    forall c1, c2 | Agree(m, c1, c2) ensures BitValue(c1, bit) == BitValue(c2, bit) {
      forall x | x in D.Cone(ns, r) && x < |ns|
        ensures ns[x].variable in Symbols(c1) <==> ns[x].variable in Symbols(c2)
      {
        D.ConeBounds(ns, r, x);
        assert ns[x].variable in D.Variables(ns);
        assert VariableStable(m, ns[x].variable);
      }
      D.EvalReadsCone(ns, r, Symbols(c1), Symbols(c2));
    }
  }

  /** Sources off the wire, and any node with stable operands, are stable. */
  lemma OutputStable(m: Setting, id: nat, lane: nat)
    requires FixedOk(m) && id < |m.g.nodes| && lane < m.g.nodes[id].width
    requires m.g.nodes[id].op.Source() || OperandsStable(m, id)
    ensures VariableStable(m, BitOf(id, lane))
  {
    var v := BitOf(id, lane);
    assert NodeOk(m.g, m.level, id);
    BitNumbering(id, lane);
    if Owner(v) != m.target {
      forall c1, c2 | Agree(m, c1, c2) ensures v in Symbols(c1) <==> v in Symbols(c2) {
        SymbolIsOutput(c1, id, lane);
        SymbolIsOutput(c2, id, lane);
        NodeValueOperates(c1, id);
        NodeValueOperates(c2, id);
        if !m.g.nodes[id].op.Source() {
          StableValues(m, m.g.nodes[id].left, c1, c2);
          StableValues(m, m.g.nodes[id].right, c1, c2);
          StableValues(m, m.g.nodes[id].select, c1, c2);
        }
      }
    }
  }

  // ----- Reading constants --------------------------------------------------

  function Truths(rs: seq<nat>): seq<bool> { seq(|rs|, i requires 0 <= i < |rs| => rs[i] == 1) }

  predicate Constant(rs: seq<nat>) { |rs| <= 64 && forall r | r in rs :: r < 2 }

  lemma ConstantValues(m: Setting, ns: seq<D.Decision>, rs: seq<nat>, bits: seq<Bit>, c: Context)
    requires FixedOk(m) && D.Ordered(ns) && RepresentsAll(ns, rs, m, bits) && Admits(m, c)
    requires forall r | r in rs :: r < 2
    ensures AllUsable(m.g, bits) && Values(c, bits) == Truths(rs)
  {
    UsableAll(m, ns, rs, bits);
    forall i | 0 <= i < |bits| ensures Values(c, bits)[i] == Truths(rs)[i] {
      assert Represents(ns, rs[i], m, bits[i]);
      assert rs[i] in rs;
    }
  }

  lemma UsableAll(m: Setting, ns: seq<D.Decision>, rs: seq<nat>, bits: seq<Bit>)
    requires FixedOk(m) && D.Ordered(ns) && RepresentsAll(ns, rs, m, bits)
    ensures AllUsable(m.g, bits)
  {
    forall bit | bit in bits ensures Usable(m.g, bit) {
      var i :| 0 <= i < |bits| && bits[i] == bit;
      assert Represents(ns, rs[i], m, bits[i]);
    }
  }

  // ----- One result lane per operation --------------------------------------

  lemma VariableLane(m: Setting, ns: seq<D.Decision>, r: nat, id: nat, lane: nat)
    requires FixedOk(m) && D.Ordered(ns) && r < |ns| && id < |m.g.nodes| && lane < m.g.nodes[id].width
    requires forall env :: D.Eval(ns, r, env) == (BitOf(id, lane) in env)
    ensures RepresentsLane(ns, r, m, id, lane)
  {
    forall c | Admits(m, c) ensures D.Eval(ns, r, Symbols(c)) == NodeValue(c, id)[lane] {
      SymbolIsOutput(c, id, lane);
    }
  }

  lemma MuxLane(m: Setting, ns: seq<D.Decision>, s: nat, yes: nat, no: nat, r: nat, id: nat, lane: nat)
    requires FixedOk(m) && D.Ordered(ns) && id < |m.g.nodes| && m.g.nodes[id].op.Mux? && lane < m.g.nodes[id].width
    requires Shaped(m.g.nodes[id])
    requires Represents(ns, s, m, m.g.nodes[id].select[0])
    requires Represents(ns, yes, m, m.g.nodes[id].left[lane]) && Represents(ns, no, m, m.g.nodes[id].right[lane])
    requires r < |ns| && D.Muxes(ns, s, yes, no, r)
    ensures RepresentsLane(ns, r, m, id, lane)
  {
    forall c | Admits(m, c) ensures D.Eval(ns, r, Symbols(c)) == NodeValue(c, id)[lane] {
      NodeValueOperates(c, id);
    }
  }

  lemma FoldedMuxLane(m: Setting, ns: seq<D.Decision>, s: nat, r: nat, id: nat, lane: nat)
    requires FixedOk(m) && D.Ordered(ns) && id < |m.g.nodes| && m.g.nodes[id].op.Mux? && lane < m.g.nodes[id].width
    requires Shaped(m.g.nodes[id]) && s < 2
    requires Represents(ns, s, m, m.g.nodes[id].select[0])
    requires Represents(ns, r, m, if s == 1 then m.g.nodes[id].left[lane] else m.g.nodes[id].right[lane])
    ensures RepresentsLane(ns, r, m, id, lane)
  {
    forall c | Admits(m, c) ensures D.Eval(ns, r, Symbols(c)) == NodeValue(c, id)[lane] {
      NodeValueOperates(c, id);
      // only the selected operand is known to be usable through the diagrams
      assert BitValue(c, m.g.nodes[id].select[0]) == (s == 1);
    }
  }

  function OpOf(op: NodeOp): D.Op { if op.And? then D.And else if op.Or? then D.Or else D.Xor }

  lemma BitwiseLane(m: Setting, ns: seq<D.Decision>, a: nat, b: nat, r: nat, id: nat, lane: nat)
    requires FixedOk(m) && D.Ordered(ns) && id < |m.g.nodes| && m.g.nodes[id].op.Bitwise() && lane < m.g.nodes[id].width
    requires Shaped(m.g.nodes[id])
    requires Represents(ns, a, m, m.g.nodes[id].left[lane]) && Represents(ns, b, m, m.g.nodes[id].right[lane])
    requires D.MemoEntry(ns, OpOf(m.g.nodes[id].op), a, b, r)
    ensures RepresentsLane(ns, r, m, id, lane)
  {
    forall c | Admits(m, c) ensures D.Eval(ns, r, Symbols(c)) == NodeValue(c, id)[lane] {
      NodeValueOperates(c, id);
      assert D.Eval(ns, r, Symbols(c)) ==
             D.Combine(OpOf(m.g.nodes[id].op), D.Eval(ns, a, Symbols(c)), D.Eval(ns, b, Symbols(c)));
    }
  }

  /** The running value of any / all / parity over the first `n` operand bits. */
  ghost function Reduced(op: NodeOp, values: seq<bool>): bool {
    if op.All? then AllTrue(values) else if op.Any? then AnyTrue(values) else OddTrue(values)
  }

  ghost predicate RepresentsReduction(ns: seq<D.Decision>, r: nat, m: Setting, op: NodeOp, bits: seq<Bit>)
    requires FixedOk(m) && D.Ordered(ns)
  {
    && r < |ns| && AllUsable(m.g, bits)
    && forall c | Admits(m, c) :: D.Eval(ns, r, Symbols(c)) == Reduced(op, Values(c, bits))
  }

  function ReductionOp(op: NodeOp): D.Op { if op.All? then D.And else if op.Any? then D.Or else D.Xor }

  lemma ReductionStep(m: Setting, ns: seq<D.Decision>, op: NodeOp, bits: seq<Bit>, k: nat, acc: nat, a: nat, r: nat)
    requires FixedOk(m) && D.Ordered(ns) && op.Reduction() && k < |bits| && AllUsable(m.g, bits)
    requires RepresentsReduction(ns, acc, m, op, bits[..k]) && Represents(ns, a, m, bits[k])
    requires D.MemoEntry(ns, ReductionOp(op), acc, a, r)
    ensures RepresentsReduction(ns, r, m, op, bits[..k + 1])
  {
    forall c | Admits(m, c) ensures D.Eval(ns, r, Symbols(c)) == Reduced(op, Values(c, bits[..k + 1])) {
      var before := Values(c, bits[..k]);
      assert Values(c, bits[..k + 1]) == before + [BitValue(c, bits[k])];
      assert (before + [BitValue(c, bits[k])])[..k] == before;
      assert D.Eval(ns, r, Symbols(c))
             == D.Combine(ReductionOp(op), D.Eval(ns, acc, Symbols(c)), D.Eval(ns, a, Symbols(c)));
    }
  }

  lemma ReductionGrows(m: Setting, ns: seq<D.Decision>, ns': seq<D.Decision>, r: nat, op: NodeOp, bits: seq<Bit>)
    requires FixedOk(m) && D.Ordered(ns) && D.Ordered(ns') && ns <= ns'
    requires RepresentsReduction(ns, r, m, op, bits)
    ensures RepresentsReduction(ns', r, m, op, bits)
  {
    forall c | Admits(m, c) ensures D.Eval(ns', r, Symbols(c)) == Reduced(op, Values(c, bits)) {
      D.EvalStable(ns, ns', r, Symbols(c));
    }
  }

  lemma ReductionLane(m: Setting, ns: seq<D.Decision>, r: nat, id: nat)
    requires FixedOk(m) && D.Ordered(ns) && id < |m.g.nodes| && m.g.nodes[id].op.Reduction()
    requires m.g.nodes[id].width == 1
    requires RepresentsReduction(ns, r, m, m.g.nodes[id].op, m.g.nodes[id].left)
    ensures RepresentsNode(ns, [r], m, id)
  {
    forall c | Admits(m, c) ensures D.Eval(ns, r, Symbols(c)) == NodeValue(c, id)[0] {
      NodeValueOperates(c, id);
    }
    assert RepresentsLane(ns, r, m, id, 0);
  }

  lemma FoldedLane(m: Setting, ns: seq<D.Decision>, a: seq<nat>, b: seq<nat>, id: nat, lane: nat)
    requires FixedOk(m) && D.Ordered(ns) && id < |m.g.nodes| && m.g.nodes[id].op.Arith? && lane < m.g.nodes[id].width
    requires Constant(a) && Constant(b)
    requires RepresentsAll(ns, a, m, m.g.nodes[id].left) && RepresentsAll(ns, b, m, m.g.nodes[id].right)
    ensures var value := Calculate(m.g.nodes[id].op.op, Number(Truths(a)), Number(Truths(b)));
            RepresentsLane(ns, if BitAt(value, lane) then 1 else 0, m, id, lane)
  {
    forall c | Admits(m, c)
      ensures NodeValue(c, id)[lane]
              == BitAt(Calculate(m.g.nodes[id].op.op, Number(Truths(a)), Number(Truths(b))), lane)
    {
      NodeValueOperates(c, id);
      ConstantValues(m, ns, a, m.g.nodes[id].left, c);
      ConstantValues(m, ns, b, m.g.nodes[id].right, c);
    }
  }

  const MAX_VISITS := 250000
  const MAX_TOTAL := 2000000
  const MAX_ACTIVE := 512

  function Range(n: nat): (r: set<nat>)
    ensures forall i: nat :: i in r <==> i < n
  {
    if n == 0 then {} else Range(n - 1) + {n - 1}
  }

  /** Evaluates graph nodes into diagrams, with a memo of finished nodes. */
  class NativeStateReachability {
    var g: Graph
    var target: nat
    var visits: nat
    var bdd: D.Bdd
    var fixed: map<Bit, nat>
    var cache: map<nat, seq<nat>>
    var active: set<nat>

    ghost function Here(level: seq<nat>): Setting
      reads this
    {
      Setting(g, level, fixed, target)
    }

    ghost function Ids(): set<nat>
      reads this
    {
      Range(|g.nodes|)
    }

    /** Every node that the bits come from has been evaluated. */
    ghost predicate Visited(value: seq<Bit>, done: set<nat>)
      reads this
    {
      forall raw | raw in value ::
        var bit := Resolve(g.aliases, raw);
        bit < 2 || bit in fixed || (Owner(bit) >= 0 && Owner(bit) in done)
    }

    ghost predicate Inv(level: seq<nat>)
      reads this, bdd
    {
      bdd.Valid() && Sound(Here(level), bdd.nodes, cache) && active <= Ids()
    }

    constructor (graph: Graph)
      ensures g == graph && fresh(bdd)
    {
      g, target, visits, fixed, cache, active := graph, 0, 0, map[], map[], {};
      bdd := new D.Bdd(0);
    }

    method Budget() returns (ok: bool)
      modifies this`visits, bdd`cost
    {
      visits := visits + 1;
      if visits > MAX_VISITS { return false; }
      bdd.cost := bdd.cost + 1;
      ok := bdd.cost <= MAX_TOTAL && |active| < MAX_ACTIVE;
    }

    /** One bit: a constant, a fixed state bit or a node output. */
    method BitRef(raw: Bit, ghost level: seq<nat>) returns (r: Limited<nat>)
      requires Inv(level) && Usable(g, raw)
      modifies this`visits, this`cache, this`active, bdd
      ensures r.Done? ==>
                && Inv(level) && old(bdd.nodes) <= bdd.nodes && active == old(active)
                && Represents(bdd.nodes, r.value, Here(level), raw)
                && old(cache).Keys <= cache.Keys && Visited([raw], cache.Keys)
      decreases Ids() - active, 2
    {
      ghost var m := Here(level);
      var bit := Resolve(g.aliases, raw);
      if bit < 2 {
        return D.Done(bit);
      } else if bit in fixed {
        FixedBit(m, bdd.nodes, raw);
        return D.Done(fixed[bit]);
      }
      var lanes := NodeRefs(Owner(bit), level);
      if lanes.Limit? { return D.Limit; }
      OutputBit(m, bdd.nodes, lanes.value, raw);
      return D.Done(lanes.value[Lane(bit)]);
    }

    /** bits: constants, fixed state bits and node outputs. */
    method Bits(value: seq<Bit>, ghost level: seq<nat>) returns (r: Limited<seq<nat>>)
      requires Inv(level) && AllUsable(g, value)
      modifies this`visits, this`cache, this`active, bdd
      ensures r.Done? ==>
                && Inv(level) && old(bdd.nodes) <= bdd.nodes && active == old(active)
                && RepresentsAll(bdd.nodes, r.value, Here(level), value)
                && old(cache).Keys <= cache.Keys && Visited(value, cache.Keys)
      decreases Ids() - active, 3
    {
      var ok := Budget();
      if !ok { return D.Limit; }
      var result: seq<nat> := [];
      ghost var m := Here(level);
      for k := 0 to |value|
        invariant Inv(level) && Here(level) == m && old(bdd.nodes) <= bdd.nodes && active == old(active)
        invariant |result| == k && RepresentsAll(bdd.nodes, result, m, value[..k])
        invariant old(cache).Keys <= cache.Keys && Visited(value[..k], cache.Keys)
      {
        assert Usable(g, value[k]);
        ghost var before := bdd.nodes;
        var ref := BitRef(value[k], level);
        if ref.Limit? { return D.Limit; }
        RepresentsGrows(m, before, bdd.nodes, result, value[..k]);
        assert value[k] in [value[k]];
        result := result + [ref.value];
        assert value[..k + 1] == value[..k] + [value[k]];
      }
      assert value[..|value|] == value;
      return D.Done(result);
    }

    /** poisoned: some result tests the missing wire. */
    method Poisoned(rs: seq<nat>, bits: seq<Bit>, ghost level: seq<nat>) returns (r: Limited<bool>)
      requires Inv(level) && RepresentsAll(bdd.nodes, rs, Here(level), bits)
      modifies bdd`cost
      ensures Inv(level)
      ensures r.Done? && !r.value ==> AllStable(Here(level), bits)
      ensures r.Done? ==> (r.value <==> exists i :: 0 <= i < |rs| && D.Tests(bdd.nodes, rs[i], target))
    {
      ghost var m := Here(level);
      for k := 0 to |rs|
        invariant Inv(level)
        invariant forall i | 0 <= i < k :: BitStable(m, bits[i]) && !D.Tests(bdd.nodes, rs[i], target)
      {
        assert Represents(bdd.nodes, rs[k], m, bits[k]);
        var tested := bdd.Depends(rs[k], target);
        if tested.Limit? { return D.Limit; }
        if tested.value { return D.Done(true); }
        UntestedIsStable(m, bdd.nodes, cache, rs[k], bits[k]);
      }
      return D.Done(false);
    }

    /** node: the outputs of one node, each node evaluated once. */
    method NodeRefs(id: nat, ghost level: seq<nat>) returns (r: Limited<seq<nat>>)
      requires Inv(level) && id < |g.nodes|
      modifies this`visits, this`cache, this`active, bdd
      ensures r.Done? ==>
                && Inv(level) && old(bdd.nodes) <= bdd.nodes && active == old(active)
                && CacheEntry(Here(level), bdd.nodes, id, r.value)
                && old(cache).Keys <= cache.Keys && id in cache
      decreases Ids() - active, 1
    {
      ghost var m := Here(level);
      if id in cache {
        assert CacheEntry(m, bdd.nodes, id, cache[id]);
        return D.Done(cache[id]);
      }
      var ok := Budget();
      if !ok || id in active { return D.Limit; }
      active := active + {id};
      var n := g.nodes[id];
      assert NodeOk(g, level, id);
      if n.op.Source() {
        r := Symbolic(id, level);
      } else if n.op.Mux? {
        r := Multiplexed(id, level);
      } else {
        r := Computed(id, level);
      }
      if r.Limit? { return D.Limit; }
      active := active - {id};
      cache := cache[id := r.value];
    }

    /** Fresh, stable symbols for a source or an opaque result. */
    method Symbolic(id: nat, ghost level: seq<nat>) returns (r: Limited<seq<nat>>)
      requires Inv(level) && id < |g.nodes|
      requires g.nodes[id].op.Source() || OperandsStable(Here(level), id)
      modifies bdd
      ensures r.Done? ==>
                && Inv(level) && old(bdd.nodes) <= bdd.nodes
                && CacheEntry(Here(level), bdd.nodes, id, r.value)
    {
      var result: seq<nat> := [];
      ghost var m := Here(level);
      assert NodeOk(g, level, id);
      for lane := 0 to g.nodes[id].width
        invariant Inv(level) && Here(level) == m && old(bdd.nodes) <= bdd.nodes
        invariant |result| == lane && LanesDone(bdd.nodes, result, m, id)
      {
        ghost var before := bdd.nodes;
        var v := bdd.Variable(BitOf(id, lane));
        if v.Limit? { return D.Limit; }
        OutputStable(m, id, lane);
        SoundGrows(m, before, bdd.nodes, cache);
        LanesGrow(m, before, bdd.nodes, result, id);
        VariableLane(m, bdd.nodes, v.value, id, lane);
        result := result + [v.value];
      }
      return D.Done(result);
    }

    method Multiplexed(id: nat, ghost level: seq<nat>) returns (r: Limited<seq<nat>>)
      requires Inv(level) && id < |g.nodes| && g.nodes[id].op.Mux? && id in active
      modifies this`visits, this`cache, this`active, bdd
      ensures r.Done? ==>
                && Inv(level) && old(bdd.nodes) <= bdd.nodes && active == old(active)
                && CacheEntry(Here(level), bdd.nodes, id, r.value)
                && old(cache).Keys <= cache.Keys
      decreases Ids() - active, 4
    {
      var n := g.nodes[id];
      ghost var m := Here(level);
      OperandsUsable(g, level, id);
      var select := Bits(n.select, level);
      if select.Limit? { return D.Limit; }
      var condition := select.value[0];
      ghost var s0 := bdd.nodes;
      assert Represents(s0, condition, m, n.select[0]);
      if condition < 2 {
        var chosen := Bits(if condition == 1 then n.left else n.right, level);
        if chosen.Limit? { return D.Limit; }
        forall lane | 0 <= lane < n.width ensures RepresentsLane(bdd.nodes, chosen.value[lane], m, id, lane) {
          RepresentsGrows(m, s0, bdd.nodes, [condition], [n.select[0]]);
          assert Represents(bdd.nodes, [condition][0], m, [n.select[0]][0]);
          assert Represents(bdd.nodes, chosen.value[lane], m, (if condition == 1 then n.left else n.right)[lane]);
          FoldedMuxLane(m, bdd.nodes, condition, chosen.value[lane], id, lane);
        }
        return chosen;
      }
      var yes := Bits(n.left, level);
      if yes.Limit? { return D.Limit; }
      ghost var s1 := bdd.nodes;
      var no := Bits(n.right, level);
      if no.Limit? { return D.Limit; }
      RepresentsGrows(m, s0, bdd.nodes, select.value, n.select);
      RepresentsGrows(m, s1, bdd.nodes, yes.value, n.left);
      r := ChooseLanes(id, select.value, yes.value, no.value, level);
    }

    method ChooseLanes(id: nat, select: seq<nat>, yes: seq<nat>, no: seq<nat>, ghost level: seq<nat>)
      returns (r: Limited<seq<nat>>)
      requires Inv(level) && id < |g.nodes| && g.nodes[id].op.Mux?
      requires RepresentsAll(bdd.nodes, select, Here(level), g.nodes[id].select)
      requires RepresentsAll(bdd.nodes, yes, Here(level), g.nodes[id].left)
      requires RepresentsAll(bdd.nodes, no, Here(level), g.nodes[id].right)
      modifies bdd
      ensures r.Done? ==>
                && Inv(level) && old(bdd.nodes) <= bdd.nodes
                && CacheEntry(Here(level), bdd.nodes, id, r.value)
    {
      var n := g.nodes[id];
      ghost var m := Here(level);
      assert NodeOk(g, level, id);
      var result: seq<nat> := [];
      for lane := 0 to n.width
        invariant Inv(level) && Here(level) == m && old(bdd.nodes) <= bdd.nodes
        invariant |result| == lane && LanesDone(bdd.nodes, result, m, id)
      {
        ghost var before := bdd.nodes;
        RepresentsGrows(m, old(bdd.nodes), before, select, n.select);
        RepresentsGrows(m, old(bdd.nodes), before, yes, n.left);
        RepresentsGrows(m, old(bdd.nodes), before, no, n.right);
        assert Represents(before, select[0], m, n.select[0]) && Represents(before, yes[lane], m, n.left[lane])
               && Represents(before, no[lane], m, n.right[lane]);
        var v := bdd.Choose(select[0], yes[lane], no[lane]);
        if v.Limit? { return D.Limit; }
        SoundGrows(m, before, bdd.nodes, cache);
        LanesGrow(m, before, bdd.nodes, result, id);
        RepresentsGrows(m, before, bdd.nodes, select, n.select);
        RepresentsGrows(m, before, bdd.nodes, yes, n.left);
        RepresentsGrows(m, before, bdd.nodes, no, n.right);
        MuxLane(m, bdd.nodes, select[0], yes[lane], no[lane], v.value, id, lane);
        result := result + [v.value];
      }
      return D.Done(result);
    }

    method Computed(id: nat, ghost level: seq<nat>) returns (r: Limited<seq<nat>>)
      requires Inv(level) && id < |g.nodes| && !g.nodes[id].op.Source() && !g.nodes[id].op.Mux? && id in active
      modifies this`visits, this`cache, this`active, bdd
      ensures r.Done? ==>
                && Inv(level) && old(bdd.nodes) <= bdd.nodes && active == old(active)
                && CacheEntry(Here(level), bdd.nodes, id, r.value)
                && old(cache).Keys <= cache.Keys
      decreases Ids() - active, 4
    {
      var n := g.nodes[id];
      ghost var m := Here(level);
      OperandsUsable(g, level, id);
      var a := Bits(n.left, level);
      if a.Limit? { return D.Limit; }
      ghost var s0 := bdd.nodes;
      var b := Bits(n.right, level);
      if b.Limit? { return D.Limit; }
      ghost var s1 := bdd.nodes;
      var s := Bits(n.select, level);
      if s.Limit? { return D.Limit; }
      RepresentsGrows(m, s0, bdd.nodes, a.value, n.left);
      RepresentsGrows(m, s1, bdd.nodes, b.value, n.right);
      r := Combined(id, a.value, b.value, s.value, level);
    }

    method Combined(id: nat, a: seq<nat>, b: seq<nat>, s: seq<nat>, ghost level: seq<nat>)
      returns (r: Limited<seq<nat>>)
      requires Inv(level) && id < |g.nodes| && !g.nodes[id].op.Source() && !g.nodes[id].op.Mux?
      requires RepresentsAll(bdd.nodes, a, Here(level), g.nodes[id].left)
      requires RepresentsAll(bdd.nodes, b, Here(level), g.nodes[id].right)
      requires RepresentsAll(bdd.nodes, s, Here(level), g.nodes[id].select)
      modifies bdd
      ensures r.Done? ==>
                && Inv(level) && old(bdd.nodes) <= bdd.nodes
                && CacheEntry(Here(level), bdd.nodes, id, r.value)
    {
      var n := g.nodes[id];
      ghost var m := Here(level);
      if n.op.Bitwise() {
        r := ApplyLanes(id, a, b, level);
      } else if n.op.Reduction() {
        r := ReduceLanes(id, a, level);
      } else if n.op.Arith? && Constant(a) && Constant(b) {
        var value := Calculate(n.op.op, Number(Truths(a)), Number(Truths(b)));
        var result := seq(n.width, lane requires 0 <= lane => if BitAt(value, lane) then 1 else 0);
        forall lane | 0 <= lane < n.width ensures RepresentsLane(bdd.nodes, result[lane], m, id, lane) {
          FoldedLane(m, bdd.nodes, a, b, id, lane);
        }
        return D.Done(result);
      } else {
        var pa := Poisoned(a, n.left, level);
        if pa.Limit? || pa.value { return D.Limit; }
        var pb := Poisoned(b, n.right, level);
        if pb.Limit? || pb.value { return D.Limit; }
        var ps := Poisoned(s, n.select, level);
        if ps.Limit? || ps.value { return D.Limit; }
        r := Symbolic(id, level);
      }
    }

    method ApplyLanes(id: nat, a: seq<nat>, b: seq<nat>, ghost level: seq<nat>) returns (r: Limited<seq<nat>>)
      requires Inv(level) && id < |g.nodes| && g.nodes[id].op.Bitwise()
      requires RepresentsAll(bdd.nodes, a, Here(level), g.nodes[id].left)
      requires RepresentsAll(bdd.nodes, b, Here(level), g.nodes[id].right)
      modifies bdd
      ensures r.Done? ==>
                && Inv(level) && old(bdd.nodes) <= bdd.nodes
                && CacheEntry(Here(level), bdd.nodes, id, r.value)
    {
      var n := g.nodes[id];
      ghost var m := Here(level);
      assert NodeOk(g, level, id);
      var result: seq<nat> := [];
      for lane := 0 to n.width
        invariant Inv(level) && Here(level) == m && old(bdd.nodes) <= bdd.nodes
        invariant |result| == lane && LanesDone(bdd.nodes, result, m, id)
      {
        ghost var before := bdd.nodes;
        RepresentsGrows(m, old(bdd.nodes), before, a, n.left);
        RepresentsGrows(m, old(bdd.nodes), before, b, n.right);
        assert Represents(before, a[lane], m, n.left[lane]) && Represents(before, b[lane], m, n.right[lane]);
        var v := bdd.Apply(OpOf(n.op), a[lane], b[lane]);
        if v.Limit? { return D.Limit; }
        SoundGrows(m, before, bdd.nodes, cache);
        LanesGrow(m, before, bdd.nodes, result, id);
        RepresentsGrows(m, before, bdd.nodes, a, n.left);
        RepresentsGrows(m, before, bdd.nodes, b, n.right);
        BitwiseLane(m, bdd.nodes, a[lane], b[lane], v.value, id, lane);
        result := result + [v.value];
      }
      return D.Done(result);
    }

    method ReduceLanes(id: nat, a: seq<nat>, ghost level: seq<nat>) returns (r: Limited<seq<nat>>)
      requires Inv(level) && id < |g.nodes| && g.nodes[id].op.Reduction()
      requires RepresentsAll(bdd.nodes, a, Here(level), g.nodes[id].left)
      modifies bdd
      ensures r.Done? ==>
                && Inv(level) && old(bdd.nodes) <= bdd.nodes
                && CacheEntry(Here(level), bdd.nodes, id, r.value)
    {
      var n := g.nodes[id];
      ghost var m := Here(level);
      assert NodeOk(g, level, id);
      UsableAll(m, bdd.nodes, a, n.left);
      var acc: nat := if n.op.All? then 1 else 0;
      for k := 0 to |n.left|
        invariant Inv(level) && Here(level) == m && old(bdd.nodes) <= bdd.nodes
        invariant RepresentsReduction(bdd.nodes, acc, m, n.op, n.left[..k])
      {
        ghost var before := bdd.nodes;
        RepresentsGrows(m, old(bdd.nodes), before, a, n.left);
        assert Represents(before, a[k], m, n.left[k]);
        var v := bdd.Apply(ReductionOp(n.op), acc, a[k]);
        if v.Limit? { return D.Limit; }
        SoundGrows(m, before, bdd.nodes, cache);
        ReductionGrows(m, before, bdd.nodes, acc, n.op, n.left[..k]);
        RepresentsGrows(m, before, bdd.nodes, a, n.left);
        ReductionStep(m, bdd.nodes, n.op, n.left, k, acc, a[k], v.value);
        acc := v.value;
      }
      assert n.left[..|n.left|] == n.left;
      ReductionLane(m, bdd.nodes, acc, id);
      return D.Done([acc]);
    }

    /** The fixed bits of a state at `value`: distinct stored bits only. */
    method Pin(bits: seq<Bit>, value: nat, ghost level: seq<nat>) returns (ok: bool, pinned: map<Bit, nat>)
      requires WellFormed(g, level) && AllUsable(g, bits)
      ensures ok ==> pinned == FixedFor(g.aliases, bits, value)
      ensures ok ==> forall k | 0 <= k < |bits| :: StateBit(g, Resolve(g.aliases, bits[k]))
      ensures forall b | b in pinned :: StateBit(g, b) && pinned[b] <= 1
    {
      pinned := map[];
      for i := 0 to |bits|
        invariant pinned == FixedFor(g.aliases, bits[..i], value)
        invariant forall k | 0 <= k < i :: StateBit(g, Resolve(g.aliases, bits[k]))
        invariant forall b | b in pinned :: StateBit(g, b) && pinned[b] <= 1
      {
        assert bits[i] in bits;
        var bit := Resolve(g.aliases, bits[i]);
        if bit < 2 || !g.nodes[Owner(bit)].op.StateBits? { return false, pinned; }
        if bit in pinned { return false, pinned; }
        assert bits[..i + 1][..i] == bits[..i];
        pinned := pinned[bit := if BitAt(value, i) then 1 else 0];
      }
      assert bits[..|bits|] == bits;
      return true, pinned;
    }

    /** condition: a fresh table in which the state holds `value`. */
    method Condition(state: nat, value: nat, ghost level: seq<nat>) returns (ok: bool)
      requires WellFormed(g, level) && state < |g.states| && AllUsable(g, g.states[state].bits)
      modifies this`fixed, this`cache, this`active, this`bdd
      ensures fresh(bdd)
      ensures ok ==> Inv(level) && Here(level) == SettingFor(g, level, state, value, target) && Distinct(g, state)
    {
      cache, active := map[], {};
      bdd := new D.Bdd(bdd.cost);
      ok, fixed := Pin(g.states[state].bits, value, level);
      if ok { FreshSound(Here(level), bdd.nodes); }
    }

    /** Is `value` a possible next value of the represented bits? */
    method Match(next: seq<nat>, bits: seq<Bit>, value: nat, ghost level: seq<nat>) returns (r: Limited<nat>)
      requires Inv(level) && RepresentsAll(bdd.nodes, next, Here(level), bits)
      modifies bdd
      ensures r.Done? ==> Inv(level) && old(bdd.nodes) <= bdd.nodes && AllUsable(g, bits)
      ensures r.Done? ==> r.value < |bdd.nodes| && MatchesUpTo(Here(level), bdd.nodes, r.value, bits, value, |bits|)
      ensures r.Done? && r.value == 0 ==>
                forall c | Admits(Here(level), c) :: !AgreesUpTo(Values(c, bits), value, |bits|)
    {
      ghost var m := Here(level);
      UsableAll(m, bdd.nodes, next, bits);
      var acc: nat := 1;
      for k := 0 to |next|
        invariant Inv(level) && Here(level) == m && old(bdd.nodes) <= bdd.nodes && acc < |bdd.nodes|
        invariant MatchesUpTo(m, bdd.nodes, acc, bits, value, k)
      {
        ghost var s0 := bdd.nodes;
        RepresentsGrows(m, old(bdd.nodes), s0, next, bits);
        assert Represents(s0, next[k], m, bits[k]);
        var literal := next[k];
        if !BitAt(value, k) {
          var inverted := bdd.Apply(D.Xor, next[k], 1);
          if inverted.Limit? { return D.Limit; }
          literal := inverted.value;
          SoundGrows(m, s0, bdd.nodes, cache);
        }
        ghost var s1 := bdd.nodes;
        var met := bdd.Apply(D.And, acc, literal);
        if met.Limit? { return D.Limit; }
        SoundGrows(m, s1, bdd.nodes, cache);
        RepresentsGrows(m, s0, bdd.nodes, next, bits);
        if !BitAt(value, k) { D.DenotesStable(s1, bdd.nodes, D.Xor, next[k], 1, literal); }
        MatchStep(m, s0, bdd.nodes, acc, literal, met.value, next, bits, value, k);
        acc := met.value;
      }
      return D.Done(acc);
    }

    /** All next values of the state from `value`, if the wire cannot matter. */
    method Successors(state: nat, value: nat, ghost level: seq<nat>) returns (ok: bool, values: set<nat>)
      requires WellFormed(g, level) && state < |g.states|
      requires AllUsable(g, g.states[state].bits) && AllUsable(g, g.states[state].next)
      modifies this`visits, this`fixed, this`cache, this`active, this`bdd
      ensures fresh(bdd)
      ensures ok ==> Distinct(g, state) && values <= Range(PowerOfTwo(|g.states[state].next|))
      ensures ok ==> var m := SettingFor(g, level, state, value, target);
                FixedOk(m) && forall c | Admits(m, c) :: Number(Values(c, g.states[state].next)) in values
    {
      values := {};
      ok := Condition(state, value, level);
      if !ok { return; }
      var bits := g.states[state].next;
      ghost var m := Here(level);
      var next := Bits(bits, level);
      if next.Limit? { return false, {}; }
      var poisoned := Poisoned(next.value, bits, level);
      if poisoned.Limit? || poisoned.value { return false, {}; }
      ok, values := PossibleValues(next.value, bits, level);
      if !ok { return false, {}; }
      forall c | Admits(m, c) ensures Number(Values(c, bits)) in values {
        NumberAgrees(Values(c, bits), |bits|);
        NumberBound(Values(c, bits));
      }
    }

    /** All values the represented bits can have. */
    method PossibleValues(next: seq<nat>, bits: seq<Bit>, ghost level: seq<nat>) returns (ok: bool, values: set<nat>)
      requires Inv(level) && RepresentsAll(bdd.nodes, next, Here(level), bits)
      modifies bdd
      ensures ok ==> AllUsable(g, bits) && values <= Range(PowerOfTwo(|bits|))
      ensures ok ==> forall c, n | Admits(Here(level), c) && 0 <= n < PowerOfTwo(|bits|)
                       && AgreesUpTo(Values(c, bits), n, |bits|) :: n in values
    {
      ghost var m, start := Here(level), bdd.nodes;
      UsableAll(m, bdd.nodes, next, bits);
      var limit := PowerOfTwo(|bits|);
      values := {};
      for number := 0 to limit
        invariant Inv(level) && Here(level) == m && start <= bdd.nodes
        invariant values <= Range(limit)
        invariant forall c, n | Admits(m, c) && 0 <= n < number && AgreesUpTo(Values(c, bits), n, |bits|) :: n in values
      {
        RepresentsGrows(m, start, bdd.nodes, next, bits);
        var match' := Match(next, bits, number, level);
        if match'.Limit? { return false, {}; }
        if match'.value != 0 { values := values + {number}; }
      }
      return true, values;
    }

    /** prove: a closed domain in which nothing affected can see the wire. */
    method Prove(state: nat, roots: seq<Root>, affected: set<nat>, ghost level: seq<nat>)
      returns (ok: bool, ghost domain: set<nat>)
      requires GraphOk(g, level, roots) && state < |g.states|
      requires forall k | k in affected :: k < |roots|
      modifies this`visits, this`fixed, this`cache, this`active, this`bdd
      ensures fresh(bdd) || bdd == old(bdd)
      ensures ok ==> ClosedDomain(g, level, roots, target, state, affected, domain)
    {
      domain := {};
      var s := g.states[state];
      if s.bits == [] || |s.bits| > 6 || |s.next| != |s.bits| { return false, {}; }
      ListedUsable(g, level, roots, s.next);
      visits := 0;
      var reachable: set<nat> := {0};
      ghost var bound := Range(PowerOfTwo(|s.next|));
      PowerHasZero(|s.next|);
      if s.resetValue != [] {
        var reset := ConstantNumber(g.aliases, s.resetValue);
        if reset.None? { return false, {}; }
        reachable := reachable + {reset.value};
        bound := bound + {reset.value};
      }
      var closed;
      closed, reachable := CloseDomain(state, reachable, bound, level);
      if !closed { return false, {}; }
      ok := DomainBlind(state, reachable, roots, affected, level);
      return ok, reachable;
    }

    /** The values reached from the starting ones, in any cycle. */
    method CloseDomain(state: nat, start: set<nat>, ghost bound: set<nat>, ghost level: seq<nat>)
      returns (ok: bool, reachable: set<nat>)
      requires WellFormed(g, level) && state < |g.states| && AllUsable(g, g.states[state].next)
      requires AllUsable(g, g.states[state].bits) && |g.states[state].next| <= 6 && start <= bound
               && Range(PowerOfTwo(|g.states[state].next|)) <= bound
      modifies this`visits, this`fixed, this`cache, this`active, this`bdd
      ensures fresh(bdd) || bdd == old(bdd)
      ensures ok ==> start <= reachable && forall v | v in reachable :: NextInside(v, state, reachable, level)
    {
      reachable := start;
      var evaluated: set<nat> := {};
      while evaluated != reachable
        invariant g == old(g) && target == old(target)
        invariant fresh(bdd) || bdd == old(bdd)
        invariant start <= reachable && evaluated <= reachable <= bound
        invariant forall v | v in evaluated :: NextInside(v, state, reachable, level)
        decreases bound - evaluated
      {
        assert !(reachable <= evaluated);
        assert exists v :: v in reachable && v !in evaluated;
        var current :| current in reachable && current !in evaluated;
        var fine, values := Successors(state, current, level);
        if !fine { return false, {}; }
        reachable := reachable + values;
        evaluated := evaluated + {current};
      }
      ok := true;
    }

    /** With the state at any value of the domain, nothing affected sees the wire. */
    method DomainBlind(state: nat, reachable: set<nat>, roots: seq<Root>, affected: set<nat>, ghost level: seq<nat>)
      returns (ok: bool)
      requires GraphOk(g, level, roots) && state < |g.states| && AllUsable(g, g.states[state].next)
      requires forall k | k in affected :: k < |roots|
      requires forall v | v in reachable :: NextInside(v, state, reachable, level)
      modifies this`visits, this`fixed, this`cache, this`active, this`bdd
      ensures fresh(bdd) || bdd == old(bdd)
      ensures ok ==> forall v | v in reachable :: ValueCovered(g, level, roots, target, state, affected, reachable, v)
    {
      var rest := reachable;
      while rest != {}
        invariant g == old(g) && target == old(target)
        invariant fresh(bdd) || bdd == old(bdd)
        invariant rest <= reachable
        invariant forall v | v in reachable - rest ::
                    ValueCovered(g, level, roots, target, state, affected, reachable, v)
      {
        var current :| current in rest;
        assert NextInside(current, state, reachable, level);
        var blind := AffectedBlind(state, current, roots, affected, level);
        if !blind { return false; }
        rest := rest - {current};
      }
      return true;
    }

    ghost predicate NextInside(value: nat, state: nat, inside: set<nat>, level: seq<nat>)
      reads this
      requires WellFormed(g, level) && state < |g.states| && AllUsable(g, g.states[state].next)
    {
      var m := SettingFor(g, level, state, value, target);
      && Distinct(g, state) && FixedOk(m)
      && forall c | Admits(m, c) :: Number(Values(c, g.states[state].next)) in inside
    }

    /** With the state at `value`, no affected root sees the wire. */
    method AffectedBlind(state: nat, value: nat, roots: seq<Root>, affected: set<nat>, ghost level: seq<nat>)
      returns (ok: bool)
      requires GraphOk(g, level, roots) && state < |g.states|
      requires forall k | k in affected :: k < |roots|
      modifies this`visits, this`fixed, this`cache, this`active, this`bdd
      ensures fresh(bdd)
      ensures ok ==> var m := SettingFor(g, level, state, value, target);
                FixedOk(m) && forall k | k in affected :: k < |roots| && RootStable(m, roots, k)
    {
      ok := Condition(state, value, level);
      if !ok { return; }
      ghost var m := Here(level);
      var rest := affected;
      while rest != {}
        invariant Inv(level) && Here(level) == m && fresh(bdd) && rest <= affected
        invariant forall k | k in affected - rest :: k < |roots| && RootStable(m, roots, k)
      {
        var k :| k in rest;
        var bits := roots[k].bits;
        var refs := Bits(bits, level);
        if refs.Limit? { return false; }
        var poisoned := Poisoned(refs.value, bits, level);
        if poisoned.Limit? || poisoned.value { return false; }
        forall id | id in g.effects && bits == [BitOf(id, 0)] ensures OperandsStable(m, id) {
          EvaluatedEffect(level, roots, id, bits);
        }
        rest := rest - {k};
      }
      return true;
    }

    lemma EvaluatedEffect(level: seq<nat>, roots: seq<Root>, id: nat, bits: seq<Bit>)
      requires Inv(level) && GraphOk(g, level, roots) && id in g.effects && bits == [BitOf(id, 0)]
      requires Visited(bits, cache.Keys)
      ensures OperandsStable(Here(level), id)
    {
      var bit := BitOf(id, 0);
      assert bit in bits && Resolve(g.aliases, bit) == bit;
      BitNumbering(id, 0);
      assert bit !in fixed;
      assert CacheEntry(Here(level), bdd.nodes, id, cache[id]);
    }
  }

  ghost predicate AgreesUpTo(values: seq<bool>, number: nat, n: nat)
    requires n <= |values|
  {
    forall i | 0 <= i < n :: values[i] == BitAt(number, i)
  }

  lemma NumberAgrees(values: seq<bool>, n: nat)
    requires n <= |values|
    ensures AgreesUpTo(values, Number(values), n)
  {
    forall i | 0 <= i < n ensures values[i] == BitAt(Number(values), i) { NumberBits(values, i); }
  }

  lemma FreshSound(m: Setting, ns: seq<D.Decision>)
    requires FixedOk(m) && D.Ordered(ns) && |ns| == 2
    ensures Sound(m, ns, map[])
  {
    assert D.Variables(ns) == {};
  }

  lemma PowerHasZero(n: nat)
    ensures 0 in Range(PowerOfTwo(n))
  {}

  ghost predicate MatchesUpTo(m: Setting, ns: seq<D.Decision>, acc: nat, bits: seq<Bit>, value: nat, k: nat)
    requires FixedOk(m) && D.Ordered(ns) && acc < |ns| && AllUsable(m.g, bits) && k <= |bits|
  {
    forall c | Admits(m, c) :: D.Eval(ns, acc, Symbols(c)) == AgreesUpTo(Values(c, bits), value, k)
  }

  lemma MatchStep(m: Setting, ns: seq<D.Decision>, ns': seq<D.Decision>, acc: nat, literal: nat, met: nat,
                  next: seq<nat>, bits: seq<Bit>, value: nat, k: nat)
    requires FixedOk(m) && D.Ordered(ns) && D.Ordered(ns') && ns <= ns' && acc < |ns| && literal < |ns'|
    requires AllUsable(m.g, bits) && k < |bits| && MatchesUpTo(m, ns, acc, bits, value, k)
    requires RepresentsAll(ns', next, m, bits)
    requires if BitAt(value, k) then literal == next[k] else D.Denotes(ns', D.Xor, next[k], 1, literal)
    requires D.MemoEntry(ns', D.And, acc, literal, met)
    ensures MatchesUpTo(m, ns', met, bits, value, k + 1)
  {
    assert Represents(ns', next[k], m, bits[k]);
    forall c | Admits(m, c) ensures D.Eval(ns', met, Symbols(c)) == AgreesUpTo(Values(c, bits), value, k + 1) {
      D.EvalStable(ns, ns', acc, Symbols(c));
      assert D.Eval(ns', met, Symbols(c))
             == D.Combine(D.And, D.Eval(ns', acc, Symbols(c)), D.Eval(ns', literal, Symbols(c)));
      assert D.Eval(ns', literal, Symbols(c)) == (BitValue(c, bits[k]) == BitAt(value, k));
    }
  }

  lemma FixedBit(m: Setting, ns: seq<D.Decision>, raw: Bit)
    requires FixedOk(m) && D.Ordered(ns) && Usable(m.g, raw) && Resolve(m.g.aliases, raw) in m.fixed
    ensures Represents(ns, m.fixed[Resolve(m.g.aliases, raw)], m, raw)
  {
    var bit := Resolve(m.g.aliases, raw);
    forall c | Admits(m, c) ensures BitValue(c, raw) == (m.fixed[bit] == 1) {
      NodeValueOperates(c, Owner(bit));
      BitNumberingInverse(bit);
    }
  }

  lemma OutputBit(m: Setting, ns: seq<D.Decision>, rs: seq<nat>, raw: Bit)
    requires FixedOk(m) && D.Ordered(ns) && Usable(m.g, raw) && Resolve(m.g.aliases, raw) >= 2
    requires RepresentsNode(ns, rs, m, Owner(Resolve(m.g.aliases, raw)))
    ensures Represents(ns, rs[Lane(Resolve(m.g.aliases, raw))], m, raw)
  {
    var bit := Resolve(m.g.aliases, raw);
    assert RepresentsLane(ns, rs[Lane(bit)], m, Owner(bit), Lane(bit));
  }
}

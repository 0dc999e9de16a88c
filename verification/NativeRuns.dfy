/** Runs of a native graph, and what it takes for a missing wire to be
    unobservable in all of them. */
module NativeRuns {
  import opened Common
  import opened NativeGraphs

  /** What one evaluation takes for granted: some state bits are fixed, and the
      question is asked about the wire `target`. */
  datatype Setting = Setting(g: Graph, level: seq<nat>, fixed: map<Bit, nat>, target: nat)

  ghost predicate FixedOk(m: Setting) {
    && WellFormed(m.g, m.level)
    && forall b | b in m.fixed :: Known(m.g, b) && m.g.nodes[Owner(b)].op.StateBits? && m.fixed[b] <= 1
  }

  ghost predicate Admits(m: Setting, c: Context) {
    c.g == m.g && c.level == m.level && forall b | b in m.fixed :: b in c.env <==> m.fixed[b] == 1
  }

  /** Two cycles that differ at most in the value of the missing wire. */
  ghost predicate Agree(m: Setting, c1: Context, c2: Context) {
    && Admits(m, c1) && Admits(m, c2) && c1.hidden == c2.hidden
    && forall b: Bit | Owner(b) != m.target :: b in c1.env <==> b in c2.env
  }

  ghost predicate BitStable(m: Setting, bit: Bit)
    requires FixedOk(m)
  {
    Usable(m.g, bit) && forall c1, c2 | Agree(m, c1, c2) :: BitValue(c1, bit) == BitValue(c2, bit)
  }

  ghost predicate AllStable(m: Setting, bits: seq<Bit>)
    requires FixedOk(m)
  {
    forall i | 0 <= i < |bits| :: BitStable(m, bits[i])
  }

  ghost predicate OperandsStable(m: Setting, id: nat)
    requires FixedOk(m) && id < |m.g.nodes|
  {
    var n := m.g.nodes[id];
    AllStable(m, n.left) && AllStable(m, n.right) && AllStable(m, n.select)
  }

  lemma StableValues(m: Setting, bits: seq<Bit>, c1: Context, c2: Context)
    requires FixedOk(m) && AllStable(m, bits) && Agree(m, c1, c2)
    ensures AllUsable(m.g, bits) && Values(c1, bits) == Values(c2, bits)
  {
    forall bit | bit in bits ensures Usable(m.g, bit) {
      var i :| 0 <= i < |bits| && bits[i] == bit;
      assert BitStable(m, bits[i]);
    }
    forall i | 0 <= i < |bits| ensures Values(c1, bits)[i] == Values(c2, bits)[i] {
      assert BitStable(m, bits[i]);
    }
  }

  lemma BitNumberingInverse(bit: Bit)
    requires bit >= 2 && Owner(bit) >= 0
    ensures BitOf(Owner(bit), Lane(bit)) == bit
  {}


  // ----- What a run shows ----------------------------------------------------


  /** An observed value, with the state it feeds when it is a state operand. */
  datatype Root = Root(bits: seq<Bit>, state: Option<nat>)

  /** Empty values are not observed. */
  function RootOf(bits: seq<Bit>, state: Option<nat>): seq<Root> {
    if bits == [] then [] else [Root(bits, state)]
  }

  function StateRoots(states: seq<State>, n: nat): seq<Root>
    requires n <= |states|
  {
    if n == 0 then []
    else
      var s := states[n - 1];
      StateRoots(states, n - 1) + RootOf(s.next, Some(n - 1)) + RootOf(s.trigger, Some(n - 1))
      + RootOf(s.reset, Some(n - 1)) + RootOf(s.resetValue, Some(n - 1))
  }

  function PlainRoots(values: seq<seq<Bit>>): seq<Root> {
    if values == [] then [] else RootOf(values[0], None) + PlainRoots(values[1..])
  }

  function AccessRoots(accesses: seq<Access>): seq<Root> {
    if accesses == [] then []
    else RootOf(accesses[0].address, None) + RootOf(accesses[0].enabled, None) + AccessRoots(accesses[1..])
  }

  function WriteRoots(writes: seq<Write>): seq<Root> {
    if writes == [] then []
    else RootOf(writes[0].address, None) + RootOf(writes[0].data, None) + RootOf(writes[0].enabled, None)
         + WriteRoots(writes[1..])
  }

  /** Host calls and validations are observed through their result bit. */
  function EffectRoots(g: Graph, n: nat): seq<Root>
    requires n <= |g.nodes|
  {
    if n == 0 then []
    else EffectRoots(g, n - 1) + if n - 1 in g.effects then [Root([BitOf(n - 1, 0)], None)] else []
  }

  /** Everything another part of the program can see of a graph. */
  function Roots(g: Graph): seq<Root> {
    PlainRoots(g.outputs) + StateRoots(g.states, |g.states|) + AccessRoots(g.accesses) + WriteRoots(g.writes)
    + EffectRoots(g, |g.nodes|)
  }

  ghost predicate Listed(roots: seq<Root>, bits: seq<Bit>) {
    exists r | r in roots :: r.bits == bits
  }

  /** `raw` is stored bit `i` of state `s`. */
  ghost predicate Drives(g: Graph, s: nat, i: nat, b: Bit) {
    s < |g.states| && i < |g.states[s].bits| && Resolve(g.aliases, g.states[s].bits[i]) == b
  }

  /** What the frontend guarantees of a finished graph. */
  ghost predicate GraphOk(g: Graph, level: seq<nat>, roots: seq<Root>) {
    && WellFormed(g, level)
    && (forall k | 0 <= k < |roots| :: AllUsable(g, roots[k].bits))
    && (forall s | 0 <= s < |g.states| ::
          && (g.states[s].next != [] ==> Listed(roots, g.states[s].next))
          && (g.states[s].resetValue != [] ==> Listed(roots, g.states[s].resetValue)))
    && (forall id | id in g.effects :: Listed(roots, [BitOf(id, 0)]))
    && (forall s | 0 <= s < |g.states| :: AllUsable(g, g.states[s].bits))
    && (forall s, i, t, j, b | b >= 2 && Drives(g, s, i, b) && Drives(g, t, j, b) :: s == t && i == j)
    && (forall id | id in g.effects ::
          id < |g.nodes| && g.nodes[id].op.Opaque? && g.nodes[id].width >= 1 && BitOf(id, 0) !in g.aliases)
  }

  datatype Action = Hold | Load | Reset

  datatype Observation = Observation(roots: seq<seq<bool>>, effects: map<nat, (seq<bool>, seq<bool>, seq<bool>)>)

  /** The rest of the world: hidden memory and host state of type W decide what
      opaque nodes answer, when states load, hold or reset, and how the hidden
      state itself moves on what it can observe. */
  datatype Plant<!W> = Plant(hidden: W -> Hidden, act: (W, Observation, nat) -> Action, advance: (W, Observation) -> W)

  ghost predicate StateBit(g: Graph, b: Bit) { Known(g, b) && g.nodes[Owner(b)].op.StateBits? }

  /** Sources of one cycle: stored bits, and everything else from outside. */
  ghost function Sources(g: Graph, stored: iset<Bit>, outside: iset<Bit>): iset<Bit> {
    iset b: Bit | if StateBit(g, b) then b in stored else b in outside
  }

  ghost function Observe(c: Context, roots: seq<Root>): (o: Observation)
    requires Ok(c) && GraphOk(c.g, c.level, roots)
    ensures |o.roots| == |roots|
  {
    Observation(
      seq(|roots|, k requires 0 <= k < |roots| => Values(c, roots[k].bits)),
      map id | id in c.g.effects :: Operands(c, id))
  }

  ghost function Operands(c: Context, id: nat): (seq<bool>, seq<bool>, seq<bool>)
    requires Ok(c) && id < |c.g.nodes|
  {
    OperandsUsable(c.g, c.level, id);
    var n := c.g.nodes[id];
    (Values(c, n.left), Values(c, n.right), Values(c, n.select))
  }

  ghost predicate Written(c: Context, raw: seq<Bit>, i: nat)
    requires Ok(c)
  {
    i < |raw| && Usable(c.g, raw[i]) && BitValue(c, raw[i])
  }

  ghost predicate StoredNext<W>(c: Context, stored: iset<Bit>, b: Bit, plant: Plant<W>, w: W, o: Observation)
    requires Ok(c)
  {
    if exists s, i :: Drives(c.g, s, i, b) then
      var s: nat, i: nat :| Drives(c.g, s, i, b);
      match plant.act(w, o, s)
      case Hold => b in stored
      case Load => Written(c, c.g.states[s].next, i)
      case Reset => Written(c, c.g.states[s].resetValue, i)
    else b in stored
  }

  datatype Moment<!W> = Moment(world: W, stored: iset<Bit>)

  ghost function ContextOf<W>(g: Graph, level: seq<nat>, plant: Plant<W>, now: Moment<W>, outside: iset<Bit>): Context {
    Context(g, level, Sources(g, now.stored, outside), plant.hidden(now.world))
  }

  ghost function Step<W>(g: Graph, level: seq<nat>, roots: seq<Root>, plant: Plant<W>, now: Moment<W>,
                         outside: iset<Bit>): Moment<W>
    requires GraphOk(g, level, roots)
  {
    var c := ContextOf(g, level, plant, now, outside);
    var o := Observe(c, roots);
    Moment(plant.advance(now.world, o), iset b: Bit | StateBit(g, b)
           && StoredNext(c, now.stored, b, plant, now.world, o))
  }

  /** The moment after `n` cycles from the zero state. */
  ghost function After<W>(g: Graph, level: seq<nat>, roots: seq<Root>, plant: Plant<W>, start: W,
                          outside: seq<iset<Bit>>, n: nat): Moment<W>
    requires GraphOk(g, level, roots) && n <= |outside|
  {
    if n == 0 then Moment(start, iset{})
    else Step(g, level, roots, plant, After(g, level, roots, plant, start, outside, n - 1), outside[n - 1])
  }

  /** What cycle `n` of a run shows. */
  ghost function Shown<W>(g: Graph, level: seq<nat>, roots: seq<Root>, plant: Plant<W>, start: W,
                          outside: seq<iset<Bit>>, n: nat): Observation
    requires GraphOk(g, level, roots) && n < |outside|
  {
    Observe(ContextOf(g, level, plant, After(g, level, roots, plant, start, outside, n), outside[n]), roots)
  }

  // ----- Closed state domains ------------------------------------------------

  /** The bits of a state while it holds the number `value`. */
  function FixedFor(aliases: map<Bit, Bit>, bits: seq<Bit>, value: nat): map<Bit, nat> {
    if bits == [] then map[]
    else
      var last := |bits| - 1;
      FixedFor(aliases, bits[..last], value)[Resolve(aliases, bits[last]) := if BitAt(value, last) then 1 else 0]
  }

  function SettingFor(g: Graph, level: seq<nat>, state: nat, value: nat, wire: nat): Setting
    requires state < |g.states|
  {
    Setting(g, level, FixedFor(g.aliases, g.states[state].bits, value), wire)
  }

  /** With the state at `value`: the next state stays in the domain, and no
      affected root, nor the operands of an affected effect, sees the wire. */
  ghost predicate ValueCovered(g: Graph, level: seq<nat>, roots: seq<Root>, wire: nat, state: nat, affected: set<nat>,
                               domain: set<nat>, value: nat)
    requires WellFormed(g, level) && state < |g.states|
  {
    var m := SettingFor(g, level, state, value, wire);
    && FixedOk(m)
    && AllUsable(g, g.states[state].next)
    && (forall c | Admits(m, c) :: Number(Values(c, g.states[state].next)) in domain)
    && forall k | k in affected :: k < |roots| && RootStable(m, roots, k)
  }

  ghost predicate RootStable(m: Setting, roots: seq<Root>, k: nat)
    requires FixedOk(m) && k < |roots|
  {
    && AllStable(m, roots[k].bits)
    && forall id | id in m.g.effects && id < |m.g.nodes| && roots[k].bits == [BitOf(id, 0)] :: OperandsStable(m, id)
  }

  ghost predicate Distinct(g: Graph, state: nat)
    requires state < |g.states|
  {
    var bits := g.states[state].bits;
    && forall i | 0 <= i < |bits| :: StateBit(g, Resolve(g.aliases, bits[i]))
  }

  /** The number of a value made of constants only. */
  function ConstantNumber(aliases: map<Bit, Bit>, bits: seq<Bit>): Option<nat> {
    if |bits| > 64 || exists b | b in bits :: Resolve(aliases, b) > 1 then None
    else Some(Number(seq(|bits|, i requires 0 <= i < |bits| => Resolve(aliases, bits[i]) == 1)))
  }

  ghost predicate ClosedDomain(g: Graph, level: seq<nat>, roots: seq<Root>, wire: nat, state: nat, affected: set<nat>,
                               domain: set<nat>)
  {
    && WellFormed(g, level)
    && state < |g.states|
    && |g.states[state].next| == |g.states[state].bits|
    && Distinct(g, state)
    && 0 in domain
    && (g.states[state].resetValue != [] ==>
          var reset := ConstantNumber(g.aliases, g.states[state].resetValue);
          reset.Some? && reset.value in domain)
    && forall value | value in domain :: ValueCovered(g, level, roots, wire, state, affected, domain, value)
  }

  /** Roots outside `affected` cannot see the wire whatever the state is. */
  ghost predicate OthersBlind(g: Graph, level: seq<nat>, roots: seq<Root>, wire: nat, affected: set<nat>)
    requires WellFormed(g, level)
  {
    forall k | 0 <= k < |roots| && k !in affected :: RootStable(Setting(g, level, map[], wire), roots, k)
  }

  ghost predicate Justified(g: Graph, level: seq<nat>, roots: seq<Root>, wire: nat) {
    && WellFormed(g, level)
    && wire < |g.nodes| && g.nodes[wire].op.Wire?
    && exists state, affected, domain ::
         ClosedDomain(g, level, roots, wire, state, affected, domain) && OthersBlind(g, level, roots, wire, affected)
  }

  // ----- What cannot reach the wire ------------------------------------------

  /** The nodes that a value comes from. */
  ghost predicate OwnedBy(g: Graph, bits: seq<Bit>, id: int) {
    exists bit | bit in bits :: Resolve(g.aliases, bit) > 1 && Owner(Resolve(g.aliases, bit)) == id
  }

  ghost predicate OperandOf(g: Graph, id: nat, child: int)
    requires id < |g.nodes|
  {
    var n := g.nodes[id];
    OwnedBy(g, n.left, child) || OwnedBy(g, n.right, child) || OwnedBy(g, n.select, child)
  }

  /** An upward-closed set of nodes around the wire. */
  ghost predicate Shields(g: Graph, wire: nat, visited: set<nat>, seen: set<nat>) {
    && wire in seen
    && (forall id | id in visited :: id < |g.nodes|)
    && forall id, child: nat | id in visited && OperandOf(g, id, child) ::
         child in visited && (child in seen ==> id in seen)
  }

  lemma {:induction false} ShieldedNode(g: Graph, level: seq<nat>, wire: nat, visited: set<nat>, seen: set<nat>,
                                        id: nat, c1: Context, c2: Context)
    requires WellFormed(g, level) && Shields(g, wire, visited, seen) && id in visited && id !in seen
    requires Agree(Setting(g, level, map[], wire), c1, c2)
    ensures id < |g.nodes| && NodeValue(c1, id) == NodeValue(c2, id) && Operands(c1, id) == Operands(c2, id)
    decreases level[id], 1
  {
    var n := g.nodes[id];
    OperandsUsable(g, level, id);
    forall bit | bit in n.left || bit in n.right || bit in n.select
      ensures BitValue(c1, bit) == BitValue(c2, bit)
    {
      var b := Resolve(g.aliases, bit);
      if b > 1 {
        assert OperandOf(g, id, Owner(b));
        ShieldedNode(g, level, wire, visited, seen, Owner(b), c1, c2);
      }
    }
    assert Values(c1, n.left) == Values(c2, n.left);
    assert Values(c1, n.right) == Values(c2, n.right);
    assert Values(c1, n.select) == Values(c2, n.select);
    NodeValueOperates(c1, id);
    NodeValueOperates(c2, id);
    if n.op.Source() {
      forall lane: nat | lane < n.width ensures BitOf(id, lane) in c1.env <==> BitOf(id, lane) in c2.env {
        BitNumbering(id, lane);
      }
      assert NodeValue(c1, id) == NodeValue(c2, id);
    }
  }

  lemma ShieldedBits(g: Graph, level: seq<nat>, wire: nat, visited: set<nat>, seen: set<nat>, bits: seq<Bit>)
    requires WellFormed(g, level) && Shields(g, wire, visited, seen) && AllUsable(g, bits)
    requires forall id: nat | OwnedBy(g, bits, id) :: id in visited && id !in seen
    ensures AllStable(Setting(g, level, map[], wire), bits)
  {
    var m := Setting(g, level, map[], wire);
    forall i, c1, c2 | 0 <= i < |bits| && Agree(m, c1, c2) ensures BitValue(c1, bits[i]) == BitValue(c2, bits[i]) {
      var b := Resolve(g.aliases, bits[i]);
      if b > 1 {
        assert OwnedBy(g, bits, Owner(b));
        ShieldedNode(g, level, wire, visited, seen, Owner(b), c1, c2);
      }
    }
    forall i | 0 <= i < |bits| ensures BitStable(m, bits[i]) {
      assert bits[i] in bits;
    }
  }

  /** A root none of whose nodes lie inside the shield cannot see the wire,
      and neither can the operands of the effect it stands for. */
  lemma ShieldedRoot(g: Graph, level: seq<nat>, roots: seq<Root>, wire: nat, visited: set<nat>, seen: set<nat>, k: nat)
    requires WellFormed(g, level) && Shields(g, wire, visited, seen)
    requires k < |roots| && AllUsable(g, roots[k].bits)
    requires forall id | id in g.effects :: id < |g.nodes| && g.nodes[id].width >= 1 && BitOf(id, 0) !in g.aliases
    requires forall id: nat | OwnedBy(g, roots[k].bits, id) :: id in visited && id !in seen
    ensures RootStable(Setting(g, level, map[], wire), roots, k)
  {
    ShieldedBits(g, level, wire, visited, seen, roots[k].bits);
    forall id | id in g.effects && id < |g.nodes| && roots[k].bits == [BitOf(id, 0)]
      ensures OperandsStable(Setting(g, level, map[], wire), id)
    {
      BitNumbering(id, 0);
      assert BitOf(id, 0) in roots[k].bits && Resolve(g.aliases, BitOf(id, 0)) == BitOf(id, 0);
      assert OwnedBy(g, roots[k].bits, id);
      OperandsUsable(g, level, id);
      ShieldedOperand(g, level, wire, visited, seen, id, g.nodes[id].left);
      ShieldedOperand(g, level, wire, visited, seen, id, g.nodes[id].right);
      ShieldedOperand(g, level, wire, visited, seen, id, g.nodes[id].select);
    }
  }

  lemma ShieldedOperand(g: Graph, level: seq<nat>, wire: nat, visited: set<nat>, seen: set<nat>, id: nat,
                        bits: seq<Bit>)
    requires WellFormed(g, level) && Shields(g, wire, visited, seen) && id in visited && id !in seen
    requires AllUsable(g, bits) && (bits == g.nodes[id].left || bits == g.nodes[id].right || bits == g.nodes[id].select)
    ensures AllStable(Setting(g, level, map[], wire), bits)
  {
    forall child: nat | OwnedBy(g, bits, child) ensures child in visited && child !in seen {
      assert OperandOf(g, id, child);
    }
    ShieldedBits(g, level, wire, visited, seen, bits);
  }
}

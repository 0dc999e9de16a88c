/** Tying an unobservable wire to zero changes no run of the graph. */
module NativeEquivalence {
  import opened Common
  import opened NativeGraphs
  import opened NativeRuns

  // ----- Numbers and their bits ----------------------------------------------

  /** The number of a bit sequence has exactly those bits, then zeros. */
  lemma {:induction false} NumberBits(bits: seq<bool>, i: nat)
    ensures BitAt(Number(bits), i) == (i < |bits| && bits[i])
    decreases |bits|
  {
    if bits == [] {
      ZeroBits(i);
    } else if i > 0 {
      NumberBits(bits[1..], i - 1);
      assert Number(bits) / 2 == Number(bits[1..]);
    }
  }

  lemma {:induction false} ZeroBits(i: nat)
    ensures !BitAt(0, i)
  {
    if i > 0 { ZeroBits(i - 1); }
  }

  lemma {:induction false} NumberBound(bits: seq<bool>)
    ensures Number(bits) < PowerOfTwo(|bits|)
  {
    if bits != [] { NumberBound(bits[1..]); }
  }

  // ----- One cycle -------------------------------------------------------------

  ghost predicate HoldsValue(g: Graph, state: nat, stored: iset<Bit>, value: nat)
    requires state < |g.states|
  {
    forall i | 0 <= i < |g.states[state].bits| ::
      (Resolve(g.aliases, g.states[state].bits[i]) in stored) == BitAt(value, i)
  }

  lemma {:induction false} FixedForBits(aliases: map<Bit, Bit>, bits: seq<Bit>, value: nat, stored: iset<Bit>)
    requires forall i | 0 <= i < |bits| :: (Resolve(aliases, bits[i]) in stored) == BitAt(value, i)
    ensures forall b | b in FixedFor(aliases, bits, value) ::
              && (b in stored <==> FixedFor(aliases, bits, value)[b] == 1)
              && exists i | 0 <= i < |bits| :: Resolve(aliases, bits[i]) == b
    decreases |bits|
  {
    if bits != [] {
      var last := |bits| - 1;
      var shorter := bits[..last];
      FixedForBits(aliases, shorter, value, stored);
      forall b | b in FixedFor(aliases, bits, value)
        ensures exists i | 0 <= i < |bits| :: Resolve(aliases, bits[i]) == b
      {
        if b in FixedFor(aliases, shorter, value) {
          var i :| 0 <= i < |shorter| && Resolve(aliases, shorter[i]) == b;
          assert Resolve(aliases, bits[i]) == b;
        } else {
          assert Resolve(aliases, bits[last]) == b;
        }
      }
    }
  }

  ghost predicate OutsideAgrees(wire: nat, out1: iset<Bit>, out2: iset<Bit>) {
    forall b: Bit | Owner(b) != wire :: b in out1 <==> b in out2
  }

  lemma CycleAgrees<W>(g: Graph, level: seq<nat>, wire: nat, state: nat, plant: Plant<W>, now: Moment<W>,
                       out1: iset<Bit>, out2: iset<Bit>, value: nat)
    requires WellFormed(g, level) && state < |g.states| && Distinct(g, state)
    requires HoldsValue(g, state, now.stored, value) && OutsideAgrees(wire, out1, out2)
    ensures var c1, c2 := ContextOf(g, level, plant, now, out1), ContextOf(g, level, plant, now, out2);
            && Agree(SettingFor(g, level, state, value, wire), c1, c2)
            && Agree(Setting(g, level, map[], wire), c1, c2)
  {
    FixedForBits(g.aliases, g.states[state].bits, value, now.stored);
  }

  lemma StableRootShows(m: Setting, roots: seq<Root>, k: nat, c1: Context, c2: Context)
    requires FixedOk(m) && k < |roots| && RootStable(m, roots, k) && Agree(m, c1, c2)
    ensures AllUsable(m.g, roots[k].bits)
    ensures Values(c1, roots[k].bits) == Values(c2, roots[k].bits)
    ensures forall id | id in m.g.effects && id < |m.g.nodes| && roots[k].bits == [BitOf(id, 0)] ::
              Operands(c1, id) == Operands(c2, id)
  {
    StableValues(m, roots[k].bits, c1, c2);
    forall id | id in m.g.effects && id < |m.g.nodes| && roots[k].bits == [BitOf(id, 0)]
      ensures Operands(c1, id) == Operands(c2, id)
    {
      assert OperandsStable(m, id);
      StableValues(m, m.g.nodes[id].left, c1, c2);
      StableValues(m, m.g.nodes[id].right, c1, c2);
      StableValues(m, m.g.nodes[id].select, c1, c2);
    }
  }

  lemma SameRoot(g: Graph, level: seq<nat>, roots: seq<Root>, wire: nat, state: nat, affected: set<nat>,
                 domain: set<nat>,
                 value: nat, c1: Context, c2: Context, k: nat)
    requires ClosedDomain(g, level, roots, wire, state, affected, domain)
    requires OthersBlind(g, level, roots, wire, affected) && value in domain && k < |roots|
    requires Agree(SettingFor(g, level, state, value, wire), c1, c2) && Agree(Setting(g, level, map[], wire), c1, c2)
    ensures AllUsable(g, roots[k].bits) && Values(c1, roots[k].bits) == Values(c2, roots[k].bits)
    ensures forall id | id in g.effects && id < |g.nodes| && roots[k].bits == [BitOf(id, 0)] ::
              Operands(c1, id) == Operands(c2, id)
  {
    assert ValueCovered(g, level, roots, wire, state, affected, domain, value);
    if k in affected {
      StableRootShows(SettingFor(g, level, state, value, wire), roots, k, c1, c2);
    } else {
      StableRootShows(Setting(g, level, map[], wire), roots, k, c1, c2);
    }
  }

  /** Two contexts of one cycle that agree off the wire show the same. */
  lemma SameObservation(g: Graph, level: seq<nat>, roots: seq<Root>, wire: nat, state: nat, affected: set<nat>,
                        domain: set<nat>,
                        value: nat, c1: Context, c2: Context)
    requires GraphOk(g, level, roots) && ClosedDomain(g, level, roots, wire, state, affected, domain)
    requires OthersBlind(g, level, roots, wire, affected) && value in domain
    requires Agree(SettingFor(g, level, state, value, wire), c1, c2) && Agree(Setting(g, level, map[], wire), c1, c2)
    ensures Observe(c1, roots) == Observe(c2, roots)
  {
    forall k | 0 <= k < |roots|
      ensures Values(c1, roots[k].bits) == Values(c2, roots[k].bits)
      ensures forall id | id in g.effects && id < |g.nodes| && roots[k].bits == [BitOf(id, 0)] ::
                Operands(c1, id) == Operands(c2, id)
    {
      SameRoot(g, level, roots, wire, state, affected, domain, value, c1, c2, k);
    }
    forall id | id in g.effects ensures Operands(c1, id) == Operands(c2, id) {
      assert Listed(roots, [BitOf(id, 0)]);
      var k :| 0 <= k < |roots| && roots[k].bits == [BitOf(id, 0)];
    }
    assert Observe(c1, roots).roots == Observe(c2, roots).roots;
    assert Observe(c1, roots).effects == Observe(c2, roots).effects;
  }

  lemma SameWritten(g: Graph, roots: seq<Root>, k: nat, i: nat, c1: Context, c2: Context)
    requires Ok(c1) && Ok(c2) && c1.g == c2.g == g && c1.level == c2.level && GraphOk(g, c1.level, roots)
    requires Observe(c1, roots) == Observe(c2, roots) && k < |roots|
    ensures Written(c1, roots[k].bits, i) == Written(c2, roots[k].bits, i)
  {
    if i < |roots[k].bits| {
      assert Observe(c1, roots).roots[k] == Values(c1, roots[k].bits);
      assert Observe(c2, roots).roots[k] == Values(c2, roots[k].bits);
      assert Values(c1, roots[k].bits)[i] == Values(c2, roots[k].bits)[i];
    }
  }

  lemma SameWrittenValue(roots: seq<Root>, bits: seq<Bit>, i: nat, c1: Context, c2: Context)
    requires Ok(c1) && Ok(c2) && c1.g == c2.g && c1.level == c2.level && GraphOk(c1.g, c1.level, roots)
    requires Observe(c1, roots) == Observe(c2, roots) && (bits == [] || Listed(roots, bits))
    ensures Written(c1, bits, i) == Written(c2, bits, i)
  {
    if bits != [] {
      var k :| 0 <= k < |roots| && roots[k].bits == bits;
      SameWritten(c1.g, roots, k, i, c1, c2);
    }
  }

  lemma ListedUsable(g: Graph, level: seq<nat>, roots: seq<Root>, bits: seq<Bit>)
    requires GraphOk(g, level, roots) && (bits == [] || Listed(roots, bits))
    ensures AllUsable(g, bits)
  {
    if bits != [] {
      var k :| 0 <= k < |roots| && roots[k].bits == bits;
    }
  }

  /** The stored bits that follow, bit by bit, from the acting state. */
  lemma DrivenNext<W>(roots: seq<Root>, c: Context, stored: iset<Bit>, s: nat, i: nat, b: Bit, plant: Plant<W>, w: W,
                      o: Observation)
    requires Ok(c) && GraphOk(c.g, c.level, roots) && b >= 2 && Drives(c.g, s, i, b)
    ensures StoredNext(c, stored, b, plant, w, o) ==
            match plant.act(w, o, s)
            case Hold => b in stored
            case Load => Written(c, c.g.states[s].next, i)
            case Reset => Written(c, c.g.states[s].resetValue, i)
  {}

  lemma SameNext<W>(roots: seq<Root>, c1: Context, c2: Context, stored: iset<Bit>, b: Bit, plant: Plant<W>, w: W,
                    o: Observation)
    requires Ok(c1) && Ok(c2) && c1.g == c2.g && c1.level == c2.level && GraphOk(c1.g, c1.level, roots) && b >= 2
    requires Observe(c1, roots) == Observe(c2, roots)
    ensures StoredNext(c1, stored, b, plant, w, o) == StoredNext(c2, stored, b, plant, w, o)
  {
    if s: nat, i: nat :| Drives(c1.g, s, i, b) {
      DrivenNext(roots, c1, stored, s, i, b, plant, w, o);
      DrivenNext(roots, c2, stored, s, i, b, plant, w, o);
      SameWrittenValue(roots, c1.g.states[s].next, i, c1, c2);
      SameWrittenValue(roots, c1.g.states[s].resetValue, i, c1, c2);
    }
  }

  lemma ConstantWritten(c: Context, raw: seq<Bit>, i: nat)
    requires Ok(c) && AllUsable(c.g, raw) && ConstantNumber(c.g.aliases, raw).Some?
    ensures Written(c, raw, i) == BitAt(ConstantNumber(c.g.aliases, raw).value, i)
  {
    var bits := seq(|raw|, k requires 0 <= k < |raw| => Resolve(c.g.aliases, raw[k]) == 1);
    NumberBits(bits, i);
    if i < |raw| { assert raw[i] in raw; }
  }

  /** The number the state holds after a cycle. */
  function NextNumber(action: Action, held: nat, loaded: nat, reset: Option<nat>): nat {
    match action
    case Hold => held
    case Load => loaded
    case Reset => if reset.Some? then reset.value else 0
  }

  function ResetNumber(aliases: map<Bit, Bit>, bits: seq<Bit>): Option<nat> {
    if bits == [] then None else ConstantNumber(aliases, bits)
  }

  lemma KeptBit(c: Context, roots: seq<Root>, state: nat, action: Action, held: bool, value: nat, i: nat)
    requires Ok(c) && GraphOk(c.g, c.level, roots) && state < |c.g.states|
    requires |c.g.states[state].next| == |c.g.states[state].bits| && i < |c.g.states[state].bits|
    requires c.g.states[state].resetValue == [] || ResetNumber(c.g.aliases, c.g.states[state].resetValue).Some?
    requires held == BitAt(value, i)
    ensures AllUsable(c.g, c.g.states[state].next)
    ensures var s := c.g.states[state];
            (match action
             case Hold => held
             case Load => Written(c, s.next, i)
             case Reset => Written(c, s.resetValue, i)) ==
            BitAt(NextNumber(action, value, Number(Values(c, s.next)), ResetNumber(c.g.aliases, s.resetValue)), i)
  {
    var s := c.g.states[state];
    ListedUsable(c.g, c.level, roots, s.next);
    ListedUsable(c.g, c.level, roots, s.resetValue);
    NumberBits(Values(c, s.next), i);
    if s.resetValue == [] { ZeroBits(i); } else { ConstantWritten(c, s.resetValue, i); }
  }

  lemma DomainKept<W>(g: Graph, level: seq<nat>, roots: seq<Root>, wire: nat, state: nat, affected: set<nat>,
                      domain: set<nat>,
                      plant: Plant<W>, now: Moment<W>, outside: iset<Bit>, value: nat) returns (value': nat)
    requires GraphOk(g, level, roots) && ClosedDomain(g, level, roots, wire, state, affected, domain)
    requires value in domain && HoldsValue(g, state, now.stored, value)
    ensures value' in domain && HoldsValue(g, state, Step(g, level, roots, plant, now, outside).stored, value')
  {
    var c := ContextOf(g, level, plant, now, outside);
    var o := Observe(c, roots);
    var s := g.states[state];
    assert ValueCovered(g, level, roots, wire, state, affected, domain, value);
    CycleAgrees(g, level, wire, state, plant, now, outside, outside, value);
    var action := plant.act(now.world, o, state);
    value' := NextNumber(action, value, Number(Values(c, s.next)), ResetNumber(g.aliases, s.resetValue));
    forall i | 0 <= i < |s.bits|
      ensures (Resolve(g.aliases, s.bits[i]) in Step(g, level, roots, plant, now, outside).stored) == BitAt(value', i)
    {
      var b := Resolve(g.aliases, s.bits[i]);
      assert StateBit(g, b) && Drives(g, state, i, b);
      DrivenNext(roots, c, now.stored, state, i, b, plant, now.world, o);
      KeptBit(c, roots, state, action, b in now.stored, value, i);
    }
  }

  lemma SameStep<W>(g: Graph, level: seq<nat>, roots: seq<Root>, plant: Plant<W>, now: Moment<W>, out1: iset<Bit>,
                    out2: iset<Bit>)
    requires GraphOk(g, level, roots)
    requires Observe(ContextOf(g, level, plant, now, out1), roots)
             == Observe(ContextOf(g, level, plant, now, out2), roots)
    ensures Step(g, level, roots, plant, now, out1) == Step(g, level, roots, plant, now, out2)
  {
    var c1, c2 := ContextOf(g, level, plant, now, out1), ContextOf(g, level, plant, now, out2);
    var o := Observe(c1, roots);
    forall b: Bit | StateBit(g, b)
      ensures StoredNext(c1, now.stored, b, plant, now.world, o) == StoredNext(c2, now.stored, b, plant, now.world, o)
    {
      SameNext(roots, c1, c2, now.stored, b, plant, now.world, o);
    }
  }

  // ----- Whole runs --------------------------------------------------------------

  ghost predicate RunsAgree(wire: nat, o1: seq<iset<Bit>>, o2: seq<iset<Bit>>) {
    |o1| == |o2| && forall t | 0 <= t < |o1| :: OutsideAgrees(wire, o1[t], o2[t])
  }

  lemma ZeroHolds(g: Graph, state: nat)
    requires state < |g.states|
    ensures HoldsValue(g, state, iset{}, 0)
  {
    forall i | 0 <= i < |g.states[state].bits| ensures !BitAt(0, i) { ZeroBits(i); }
  }

  lemma AfterSteps<W>(g: Graph, level: seq<nat>, roots: seq<Root>, plant: Plant<W>, start: W, outside: seq<iset<Bit>>,
                      n: nat)
    requires GraphOk(g, level, roots) && 0 < n <= |outside|
    ensures After(g, level, roots, plant, start, outside, n) ==
            Step(g, level, roots, plant, After(g, level, roots, plant, start, outside, n - 1), outside[n - 1])
  {}

  /** One cycle of two such runs from the same moment. */
  lemma SameCycle<W>(g: Graph, level: seq<nat>, roots: seq<Root>, wire: nat, state: nat, affected: set<nat>,
                     domain: set<nat>,
                     plant: Plant<W>, now: Moment<W>, out1: iset<Bit>, out2: iset<Bit>, value: nat)
    returns (value': nat)
    requires GraphOk(g, level, roots) && ClosedDomain(g, level, roots, wire, state, affected, domain)
    requires OthersBlind(g, level, roots, wire, affected) && OutsideAgrees(wire, out1, out2)
    requires value in domain && HoldsValue(g, state, now.stored, value)
    ensures Observe(ContextOf(g, level, plant, now, out1), roots)
            == Observe(ContextOf(g, level, plant, now, out2), roots)
    ensures Step(g, level, roots, plant, now, out1) == Step(g, level, roots, plant, now, out2)
    ensures value' in domain && HoldsValue(g, state, Step(g, level, roots, plant, now, out1).stored, value')
  {
    CycleAgrees(g, level, wire, state, plant, now, out1, out2, value);
    SameObservation(g, level, roots, wire, state, affected, domain, value,
                    ContextOf(g, level, plant, now, out1), ContextOf(g, level, plant, now, out2));
    SameStep(g, level, roots, plant, now, out1, out2);
    value' := DomainKept(g, level, roots, wire, state, affected, domain, plant, now, out1, value);
  }

  /** From zero state, runs that differ only in the wire go through the same
      moments, and the proved state never leaves its domain. */
  lemma {:induction false} SameMoments<W>(g: Graph, level: seq<nat>, roots: seq<Root>, wire: nat, state: nat,
                                          affected: set<nat>, domain: set<nat>,
                                         plant: Plant<W>, start: W, o1: seq<iset<Bit>>, o2: seq<iset<Bit>>, n: nat)
      returns (now: Moment<W>, value: nat)
    requires GraphOk(g, level, roots) && ClosedDomain(g, level, roots, wire, state, affected, domain)
    requires OthersBlind(g, level, roots, wire, affected) && RunsAgree(wire, o1, o2) && n <= |o1|
    ensures After(g, level, roots, plant, start, o1, n) == now && After(g, level, roots, plant, start, o2, n) == now
    ensures value in domain && HoldsValue(g, state, now.stored, value)
    decreases n
  {
    if n == 0 {
      now, value := Moment(start, iset{}), 0;
      ZeroHolds(g, state);
    } else {
      var earlier, held := SameMoments(g, level, roots, wire, state, affected, domain, plant, start, o1, o2, n - 1);
      assert OutsideAgrees(wire, o1[n - 1], o2[n - 1]);
      value := SameCycle(g, level, roots, wire, state, affected, domain, plant, earlier, o1[n - 1], o2[n - 1], held);
      now := Step(g, level, roots, plant, earlier, o1[n - 1]);
      AfterSteps(g, level, roots, plant, start, o1, n);
      AfterSteps(g, level, roots, plant, start, o2, n);
    }
  }

  /** An accepted wire is unobservable: whatever values it takes in each cycle,
      every output, next state, memory operand and host effect is the same. */
  lemma {:induction false} WireUnobservable<W>(g: Graph, level: seq<nat>, roots: seq<Root>, wire: nat, plant: Plant<W>,
                                               start: W,
                            o1: seq<iset<Bit>>, o2: seq<iset<Bit>>, n: nat)
    requires GraphOk(g, level, roots) && Justified(g, level, roots, wire) && RunsAgree(wire, o1, o2) && n < |o1|
    ensures Shown(g, level, roots, plant, start, o1, n) == Shown(g, level, roots, plant, start, o2, n)
    ensures After(g, level, roots, plant, start, o1, n) == After(g, level, roots, plant, start, o2, n)
  {
    var state, affected, domain :| ClosedDomain(g, level, roots, wire, state, affected, domain)
                                   && OthersBlind(g, level, roots, wire, affected);
    var now, value := SameMoments(g, level, roots, wire, state, affected, domain, plant, start, o1, o2, n);
    var _ := SameCycle(g, level, roots, wire, state, affected, domain, plant, now, o1[n], o2[n], value);
  }

  // ----- Tying the wire ------------------------------------------------------------

  /** Aliases after the lanes below `n` of the wire were tied to zero. */
  function TieLanes(aliases: map<Bit, Bit>, wire: nat, n: nat): map<Bit, Bit> {
    if n == 0 then aliases
    else
      var before := TieLanes(aliases, wire, n - 1);
      var original := BitOf(wire, n - 1);
      if Resolve(before, original) == original then before[original := 0] else before
  }

  function Tied(g: Graph, wire: nat): Graph
    requires wire < |g.nodes|
  {
    g.(aliases := TieLanes(g.aliases, wire, g.nodes[wire].width))
  }

  predicate WireBit(wire: nat, n: nat, b: Bit) { 2 <= b && Owner(b) == wire && Lane(b) < n }

  lemma {:induction false} TieLanesResolve(aliases: map<Bit, Bit>, wire: nat, n: nat, bit: Bit)
    requires AliasesEnd(aliases) && n <= 64
    ensures AliasesEnd(TieLanes(aliases, wire, n))
    ensures Resolve(TieLanes(aliases, wire, n), bit) ==
            if WireBit(wire, n, Resolve(aliases, bit)) then 0 else Resolve(aliases, bit)
    decreases n
  {
    if n > 0 {
      var before := TieLanes(aliases, wire, n - 1);
      var original := BitOf(wire, n - 1);
      TieLanesResolve(aliases, wire, n - 1, bit);
      TieLanesResolve(aliases, wire, n - 1, original);
      BitNumbering(wire, n - 1);
      if Resolve(before, original) == original {
        assert original !in before by {
          assert original in before ==> Resolve(before, original) !in before;
        }
        forall b
          ensures Resolve(before[original := 0], b) == if Resolve(before, b) == original then 0
                                                       else Resolve(before, b)
        {
          ResolveTied(before, original, b);
        }
        var tied := before[original := 0];
        forall b | b in tied ensures Resolve(tied, b) !in tied {
          if b in before { assert Resolve(before, b) !in before; }
        }
        ResolvedLane(wire, n, Resolve(before, bit));
      } else {
        if Resolve(aliases, bit) == original {
          TerminalStays(aliases, bit, original);
        } else {
          ResolvedLane(wire, n, Resolve(aliases, bit));
        }
      }
    }
  }

  lemma ResolvedLane(wire: nat, n: nat, b: Bit)
    requires 0 < n <= 64
    ensures WireBit(wire, n, b) <==> WireBit(wire, n - 1, b) || b == BitOf(wire, n - 1)
  {
    BitNumbering(wire, n - 1);
    if b >= 2 && Owner(b) == wire { BitNumberingInverse(b); }
  }

  lemma {:induction false} ResolveIsEnd(aliases: map<Bit, Bit>, bit: Bit)
    requires AliasesEnd(aliases)
    ensures Resolve(aliases, bit) !in aliases && Resolve(aliases, Resolve(aliases, bit)) == Resolve(aliases, bit)
  {}

  /** A bit that resolves elsewhere is nobody's end. */
  lemma TerminalStays(aliases: map<Bit, Bit>, bit: Bit, original: Bit)
    requires AliasesEnd(aliases) && Resolve(aliases, bit) == original
    ensures Resolve(aliases, original) == original
  {
    ResolveIsEnd(aliases, bit);
  }

  ghost function WithoutWire(env: iset<Bit>, wire: nat): iset<Bit> {
    iset b: Bit | b in env && Owner(b) != wire
  }

  lemma TiedResolve(g: Graph, level: seq<nat>, wire: nat, bit: Bit)
    requires WellFormed(g, level) && wire < |g.nodes|
    requires Usable(g, bit)
    ensures AliasesEnd(Tied(g, wire).aliases)
    ensures Resolve(Tied(g, wire).aliases, bit) ==
            if Resolve(g.aliases, bit) >= 2 && Owner(Resolve(g.aliases, bit)) == wire then 0
            else Resolve(g.aliases, bit)
  {
    assert NodeOk(g, level, wire);
    TieLanesResolve(g.aliases, wire, g.nodes[wire].width, bit);
  }

  lemma TiedWellFormed(g: Graph, level: seq<nat>, wire: nat)
    requires WellFormed(g, level) && wire < |g.nodes|
    ensures WellFormed(Tied(g, wire), level)
  {
    assert NodeOk(g, level, wire);
    TieLanesResolve(g.aliases, wire, g.nodes[wire].width, 0);
    forall id | 0 <= id < |g.nodes| ensures NodeOk(Tied(g, wire), level, id) {
      assert NodeOk(g, level, id);
      var n := g.nodes[id];
      forall bit | bit in n.left + n.right + n.select
        ensures Usable(Tied(g, wire), bit) && BelowLevel(Tied(g, wire), level, bit, level[id])
      {
        TiedResolve(g, level, wire, bit);
      }
    }
  }

  /** A tied graph means what the old graph means with the wire at zero. */
  lemma {:induction false} TiedNode(g: Graph, level: seq<nat>, wire: nat, env: iset<Bit>, hidden: Hidden, id: nat)
    requires WellFormed(g, level) && wire < |g.nodes| && g.nodes[wire].op.Wire? && id < |g.nodes| && id != wire
    requires WellFormed(Tied(g, wire), level)
    ensures NodeValue(Context(Tied(g, wire), level, env, hidden), id) ==
            NodeValue(Context(g, level, WithoutWire(env, wire), hidden), id)
    decreases level[id], 2
  {
    var c', c := Context(Tied(g, wire), level, env, hidden), Context(g, level, WithoutWire(env, wire), hidden);
    NodeValueOperates(c', id);
    NodeValueOperates(c, id);
    OperandsUsable(g, level, id);
    var n := g.nodes[id];
    forall bit | bit in n.left || bit in n.right || bit in n.select
      ensures BitValue(c', bit) == BitValue(c, bit)
    {
      TiedBit(g, level, wire, env, hidden, bit, level[id]);
    }
    assert Values(c', n.left) == Values(c, n.left);
    assert Values(c', n.right) == Values(c, n.right);
    assert Values(c', n.select) == Values(c, n.select);
    forall lane: nat | lane < n.width ensures BitOf(id, lane) in env <==> BitOf(id, lane) in WithoutWire(env, wire) {
      BitNumbering(id, lane);
    }
    if n.op.Source() {
      assert NodeValue(c', id) == NodeValue(c, id);
    }
  }

  lemma {:induction false} TiedBit(g: Graph, level: seq<nat>, wire: nat, env: iset<Bit>, hidden: Hidden, bit: Bit,
                                   bound: nat)
    requires WellFormed(g, level) && wire < |g.nodes| && g.nodes[wire].op.Wire? && Usable(g, bit)
    requires WellFormed(Tied(g, wire), level) && BelowLevel(g, level, bit, bound)
    ensures Usable(Tied(g, wire), bit)
    ensures BitValue(Context(Tied(g, wire), level, env, hidden), bit) ==
            BitValue(Context(g, level, WithoutWire(env, wire), hidden), bit)
    decreases bound, 1
  {
    TiedResolve(g, level, wire, bit);
    var b := Resolve(g.aliases, bit);
    if b >= 2 {
      var c := Context(g, level, WithoutWire(env, wire), hidden);
      if Owner(b) == wire {
        NodeValueOperates(c, wire);
        BitNumberingInverse(b);
      } else {
        TiedNode(g, level, wire, env, hidden, Owner(b));
      }
    }
  }

  lemma TiedValues(g: Graph, level: seq<nat>, wire: nat, env: iset<Bit>, hidden: Hidden, bits: seq<Bit>)
    requires WellFormed(g, level) && wire < |g.nodes| && g.nodes[wire].op.Wire? && AllUsable(g, bits)
    requires WellFormed(Tied(g, wire), level)
    ensures AllUsable(Tied(g, wire), bits)
    ensures Values(Context(Tied(g, wire), level, env, hidden), bits) ==
            Values(Context(g, level, WithoutWire(env, wire), hidden), bits)
  {
    forall bit | bit in bits
      ensures Usable(Tied(g, wire), bit)
      ensures BitValue(Context(Tied(g, wire), level, env, hidden), bit)
              == BitValue(Context(g, level, WithoutWire(env, wire), hidden), bit)
    {
      var b := Resolve(g.aliases, bit);
      TiedBit(g, level, wire, env, hidden, bit, if b < 2 then 0 else level[Owner(b)] + 1);
    }
  }

  lemma TiedGraphOk(g: Graph, level: seq<nat>, roots: seq<Root>, wire: nat)
    requires GraphOk(g, level, roots) && wire < |g.nodes| && g.nodes[wire].op.Wire?
    ensures GraphOk(Tied(g, wire), level, roots)
  {
    TiedWellFormed(g, level, wire);
    var g' := Tied(g, wire);
    forall k | 0 <= k < |roots| ensures AllUsable(g', roots[k].bits) {
      TiedValues(g, level, wire, iset{}, imap[], roots[k].bits);
    }
    forall s | 0 <= s < |g.states| ensures AllUsable(g', g'.states[s].bits) {
      TiedValues(g, level, wire, iset{}, imap[], g.states[s].bits);
    }
    forall s, i, t, j, b | b >= 2 && Drives(g', s, i, b) && Drives(g', t, j, b) ensures s == t && i == j {
      TiedDrives(g, level, roots, wire, s, i, b);
      TiedDrives(g, level, roots, wire, t, j, b);
    }
    forall id | id in g'.effects ensures BitOf(id, 0) !in g'.aliases {
      assert NodeOk(g, level, wire);
      BitNumbering(id, 0);
      TieLanesKeys(g.aliases, wire, g.nodes[wire].width, BitOf(id, 0));
    }
  }

  lemma {:induction false} TieLanesKeys(aliases: map<Bit, Bit>, wire: nat, n: nat, b: Bit)
    requires n <= 64 && b !in aliases && Owner(b) != wire
    ensures b !in TieLanes(aliases, wire, n)
  {
    if n > 0 {
      TieLanesKeys(aliases, wire, n - 1, b);
      BitNumbering(wire, n - 1);
    }
  }

  lemma TiedDrives(g: Graph, level: seq<nat>, roots: seq<Root>, wire: nat, s: nat, i: nat, b: Bit)
    requires GraphOk(g, level, roots) && wire < |g.nodes| && b >= 2
    ensures Drives(Tied(g, wire), s, i, b) <==> Drives(g, s, i, b) && Owner(b) != wire
  {
    if s < |g.states| && i < |g.states[s].bits| {
      assert g.states[s].bits[i] in g.states[s].bits;
      TiedResolve(g, level, wire, g.states[s].bits[i]);
    }
  }

  lemma TiedObserve(g: Graph, level: seq<nat>, roots: seq<Root>, wire: nat, env: iset<Bit>, hidden: Hidden)
    requires GraphOk(g, level, roots) && wire < |g.nodes| && g.nodes[wire].op.Wire?
    ensures GraphOk(Tied(g, wire), level, roots)
    ensures Observe(Context(Tied(g, wire), level, env, hidden), roots)
            == Observe(Context(g, level, WithoutWire(env, wire), hidden), roots)
  {
    TiedGraphOk(g, level, roots, wire);
    var c', c := Context(Tied(g, wire), level, env, hidden), Context(g, level, WithoutWire(env, wire), hidden);
    forall k | 0 <= k < |roots| ensures Observe(c', roots).roots[k] == Observe(c, roots).roots[k] {
      TiedValues(g, level, wire, env, hidden, roots[k].bits);
    }
    forall id | id in g.effects ensures Operands(c', id) == Operands(c, id) {
      OperandsUsable(g, level, id);
      TiedValues(g, level, wire, env, hidden, g.nodes[id].left);
      TiedValues(g, level, wire, env, hidden, g.nodes[id].right);
      TiedValues(g, level, wire, env, hidden, g.nodes[id].select);
    }
    assert Observe(c', roots).roots == Observe(c, roots).roots;
    assert Observe(c', roots).effects == Observe(c, roots).effects;
  }

  lemma TiedWritten(g: Graph, level: seq<nat>, wire: nat, env: iset<Bit>, hidden: Hidden, bits: seq<Bit>, i: nat)
    requires WellFormed(g, level) && wire < |g.nodes| && g.nodes[wire].op.Wire? && AllUsable(g, bits)
    requires WellFormed(Tied(g, wire), level)
    ensures Written(Context(Tied(g, wire), level, env, hidden), bits, i) ==
            Written(Context(g, level, WithoutWire(env, wire), hidden), bits, i)
  {
    TiedValues(g, level, wire, env, hidden, bits);
    if i < |bits| {
      assert Values(Context(Tied(g, wire), level, env, hidden), bits)[i]
             == Values(Context(g, level, WithoutWire(env, wire), hidden), bits)[i];
    }
  }

  lemma TiedStep<W>(g: Graph, level: seq<nat>, roots: seq<Root>, wire: nat, plant: Plant<W>, now: Moment<W>,
                    outside: iset<Bit>)
    requires GraphOk(g, level, roots) && wire < |g.nodes| && g.nodes[wire].op.Wire?
    ensures GraphOk(Tied(g, wire), level, roots)
    ensures Observe(ContextOf(Tied(g, wire), level, plant, now, outside), roots) ==
            Observe(ContextOf(g, level, plant, now, WithoutWire(outside, wire)), roots)
    ensures Step(Tied(g, wire), level, roots, plant, now, outside)
            == Step(g, level, roots, plant, now, WithoutWire(outside, wire))
  {
    TiedGraphOk(g, level, roots, wire);
    var g' := Tied(g, wire);
    var env := Sources(g', now.stored, outside);
    var hidden := plant.hidden(now.world);
    assert Sources(g, now.stored, WithoutWire(outside, wire)) == WithoutWire(env, wire);
    TiedObserve(g, level, roots, wire, env, hidden);
    var c', c := Context(g', level, env, hidden), Context(g, level, WithoutWire(env, wire), hidden);
    var o := Observe(c, roots);
    forall b: Bit | StateBit(g, b)
      ensures StoredNext(c', now.stored, b, plant, now.world, o) == StoredNext(c, now.stored, b, plant, now.world, o)
    {
      forall s: nat, i: nat ensures Drives(g', s, i, b) <==> Drives(g, s, i, b) {
        TiedDrives(g, level, roots, wire, s, i, b);
      }
      if s: nat, i: nat :| Drives(g, s, i, b) {
        DrivenNext(roots, c', now.stored, s, i, b, plant, now.world, o);
        DrivenNext(roots, c, now.stored, s, i, b, plant, now.world, o);
        ListedUsable(g, level, roots, g.states[s].next);
        ListedUsable(g, level, roots, g.states[s].resetValue);
        TiedWritten(g, level, wire, env, hidden, g.states[s].next, i);
        TiedWritten(g, level, wire, env, hidden, g.states[s].resetValue, i);
      }
    }
  }

  ghost function AllWithoutWire(outside: seq<iset<Bit>>, wire: nat): seq<iset<Bit>> {
    seq(|outside|, t requires 0 <= t < |outside| => WithoutWire(outside[t], wire))
  }

  lemma {:induction false} TiedRun<W>(g: Graph, level: seq<nat>, roots: seq<Root>, wire: nat, plant: Plant<W>, start: W,
                                      outside: seq<iset<Bit>>, n: nat)
    requires GraphOk(g, level, roots) && wire < |g.nodes| && g.nodes[wire].op.Wire? && n <= |outside|
    ensures GraphOk(Tied(g, wire), level, roots)
    ensures After(Tied(g, wire), level, roots, plant, start, outside, n)
            == After(g, level, roots, plant, start, AllWithoutWire(outside, wire), n)
    decreases n
  {
    TiedGraphOk(g, level, roots, wire);
    if n > 0 {
      TiedRun(g, level, roots, wire, plant, start, outside, n - 1);
      TiedStep(g, level, roots, wire, plant, After(Tied(g, wire), level, roots, plant, start, outside, n - 1),
               outside[n - 1]);
    }
  }

  /** One accepted wire: the tied graph and the original, with any values of
      the wire, show the same in every cycle of every run. */
  lemma {:induction false} TyingKeepsRuns<W>(g: Graph, level: seq<nat>, roots: seq<Root>, wire: nat, plant: Plant<W>,
                                             start: W, outside: seq<iset<Bit>>, n: nat)
    requires GraphOk(g, level, roots) && Justified(g, level, roots, wire) && n < |outside|
    ensures GraphOk(Tied(g, wire), level, roots)
    ensures Shown(g, level, roots, plant, start, outside, n)
            == Shown(Tied(g, wire), level, roots, plant, start, outside, n)
  {
    var zeroed := AllWithoutWire(outside, wire);
    WireUnobservable(g, level, roots, wire, plant, start, outside, zeroed, n);
    TiedRun(g, level, roots, wire, plant, start, outside, n);
    TiedStep(g, level, roots, wire, plant, After(Tied(g, wire), level, roots, plant, start, outside, n), outside[n]);
  }

  /** A sequence of graphs, each the previous one with one accepted wire tied. */
  ghost predicate TyingSequence(graphs: seq<Graph>, wires: seq<nat>, level: seq<nat>, roots: seq<Root>) {
    && |graphs| == |wires| + 1
    && forall k | 0 <= k < |wires| ::
         Justified(graphs[k], level, roots, wires[k]) && graphs[k + 1] == Tied(graphs[k], wires[k])
  }

  /** All wires removed by the analysis together: every run from zero state,
      with any inputs, resets, holds and wire values, shows the same. */
  lemma {:induction false} RemovalKeepsRuns<W>(graphs: seq<Graph>, wires: seq<nat>, level: seq<nat>, roots: seq<Root>,
                                               plant: Plant<W>, start: W,
                                              outside: seq<iset<Bit>>, n: nat)
    requires TyingSequence(graphs, wires, level, roots) && GraphOk(graphs[0], level, roots) && n < |outside|
    ensures GraphOk(graphs[|wires|], level, roots)
    ensures Shown(graphs[0], level, roots, plant, start, outside, n)
            == Shown(graphs[|wires|], level, roots, plant, start, outside, n)
    decreases |wires|
  {
    if wires != [] {
      var k := |wires| - 1;
      RemovalKeepsRuns(graphs[..k + 1], wires[..k], level, roots, plant, start, outside, n);
      assert graphs[..k + 1][k] == graphs[k];
      assert Justified(graphs[k], level, roots, wires[k]);
      TyingKeepsRuns(graphs[k], level, roots, wires[k], plant, start, outside, n);
    }
  }
}

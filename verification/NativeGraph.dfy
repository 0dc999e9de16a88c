/** The bit-level graph of include/cpphdl_graph.h: nodes of at most 64 outputs,
    bit numbers, aliases between bits, and the meaning of a graph over a
    valuation of its sources. */
module NativeGraphs {
  import opened Common

  type Bit = nat

  datatype Arithmetic = Add | Sub | Mul | Div | Mod | Eq | Lt | Shl | Shr

  datatype NodeOp =
    | Wire
    | Input
    | StateBits
    | Mux
    | And
    | Or
    | Xor
    | Any
    | All
    | Parity
    | Arith(op: Arithmetic)
    | Opaque(name: string)   // memory reads, host calls, signed and floating operations
  {
    predicate Source() { Wire? || Input? || StateBits? }
    predicate Bitwise() { And? || Or? || Xor? }
    predicate Reduction() { Any? || All? || Parity? }
  }

  datatype Node = Node(op: NodeOp, width: nat, left: seq<Bit>, right: seq<Bit>, select: seq<Bit>)

  datatype State = State(bits: seq<Bit>, next: seq<Bit>, trigger: seq<Bit>, reset: seq<Bit>, resetValue: seq<Bit>)

  datatype Access = Access(address: seq<Bit>, enabled: seq<Bit>)
  datatype Write = Write(address: seq<Bit>, data: seq<Bit>, enabled: seq<Bit>)

  datatype Graph = Graph(
    nodes: seq<Node>,
    aliases: map<Bit, Bit>,
    states: seq<State>,
    outputs: seq<seq<Bit>>,
    accesses: seq<Access>,
    writes: seq<Write>,
    effects: set<nat>,      // host calls and validations
    pipelines: nat)

  const WORD: nat := 0x1_0000_0000_0000_0000

  function BitOf(node: nat, lane: nat): Bit { (node + 1) * 64 + 2 + lane }

  function Owner(bit: Bit): int { (bit - 2) / 64 - 1 }

  function Lane(bit: Bit): nat { (bit - 2) % 64 }

  lemma BitNumbering(node: nat, lane: nat)
    requires lane < 64
    ensures Owner(BitOf(node, lane)) == node && Lane(BitOf(node, lane)) == lane
  {}

  /** Following aliases; an alias is followed at most once. */
  function Resolve(aliases: map<Bit, Bit>, bit: Bit): Bit
    decreases |aliases|
  {
    if bit in aliases then
      assert |aliases - {bit}| < |aliases| by { ShrinkMap(aliases, bit); }
      Resolve(aliases - {bit}, aliases[bit])
    else bit
  }

  lemma ShrinkMap(aliases: map<Bit, Bit>, bit: Bit)
    requires bit in aliases
    ensures |aliases - {bit}| < |aliases|
  {
    assert (aliases - {bit}).Keys == aliases.Keys - {bit};
    assert |(aliases - {bit}).Keys| == |aliases - {bit}| && |aliases.Keys| == |aliases|;
  }

  /** Alias chains end: what the graph calls a cyclic wire alias is absent. */
  ghost predicate AliasesEnd(aliases: map<Bit, Bit>) {
    && 0 !in aliases && 1 !in aliases
    && forall b | b in aliases :: Resolve(aliases, b) !in aliases
  }

  lemma {:induction false} ResolveTied(aliases: map<Bit, Bit>, original: Bit, bit: Bit)
    requires original !in aliases && 0 !in aliases && original != 0
    ensures Resolve(aliases[original := 0], bit) ==
            if Resolve(aliases, bit) == original then 0 else Resolve(aliases, bit)
    decreases |aliases|
  {
    var tied := aliases[original := 0];
    if bit == original {
      assert 0 !in tied - {original};
    } else if bit in aliases {
      ShrinkMap(aliases, bit);
      assert tied - {bit} == (aliases - {bit})[original := 0];
      ResolveTied(aliases - {bit}, original, aliases[bit]);
    }
  }

  // ----- Meaning of a graph -------------------------------------------------

  /** Hidden behaviour of one cycle: what opaque nodes answer to operands. */
  type Hidden = imap<(nat, seq<bool>, seq<bool>, seq<bool>), seq<bool>>

  /** A leveled graph with the values of its sources. */
  datatype Context = Context(g: Graph, level: seq<nat>, env: iset<Bit>, hidden: Hidden)

  /** A usable bit: a constant or an output of an existing node. */
  predicate Usable(g: Graph, bit: Bit) {
    var b := Resolve(g.aliases, bit);
    b < 2 || (0 <= Owner(b) < |g.nodes| && Lane(b) < g.nodes[Owner(b)].width)
  }

  ghost predicate BelowLevel(g: Graph, level: seq<nat>, bit: Bit, bound: nat) {
    var b := Resolve(g.aliases, bit);
    b < 2 || (0 <= Owner(b) < |level| && level[Owner(b)] < bound)
  }

  predicate Shaped(n: Node) {
    && n.width <= 64
    && (n.op.Mux? ==> |n.select| > 0 && |n.left| == |n.right| == n.width)
    && (n.op.Bitwise() ==> |n.left| == |n.right| == n.width)
    && (n.op.Reduction() ==> n.width == 1)
    && (n.op.Source() ==> n.left == n.right == n.select == [])
  }

  /** Combinational logic is acyclic: operands lie on lower levels. */
  ghost predicate NodeOk(g: Graph, level: seq<nat>, id: nat)
    requires id < |g.nodes| == |level|
  {
    var n := g.nodes[id];
    && Shaped(n)
    && forall bit | bit in n.left + n.right + n.select :: Usable(g, bit) && BelowLevel(g, level, bit, level[id])
  }

  ghost predicate WellFormed(g: Graph, level: seq<nat>) {
    && |g.nodes| == |level| < 0x200_0000_0000_0000   // bit numbers fit 64 bits
    && AliasesEnd(g.aliases)
    && forall id | 0 <= id < |g.nodes| :: NodeOk(g, level, id)
  }

  /** The number written by bits, least significant first. */
  function Number(bits: seq<bool>): nat {
    if bits == [] then 0 else (if bits[0] then 1 else 0) + 2 * Number(bits[1..])
  }

  /** (number >> i) & 1 */
  function BitAt(number: nat, i: nat): bool {
    if i == 0 then number % 2 == 1 else BitAt(number / 2, i - 1)
  }

  function Wrapped(x: int): nat { x % WORD }

  function Quotient(l: nat, r: nat): nat
    requires r > 0
  {
    l / r
  }

  /** Graph::calculate on 64-bit words. */
  function Calculate(op: Arithmetic, l: nat, r: nat): nat {
    match op
    case Add => Wrapped(l + r)
    case Sub => Wrapped(l - r)
    case Mul => Wrapped(l * r)
    case Div => if r != 0 then Quotient(l, r) else 0
    case Mod => if r != 0 then l % r else 0
    case Eq => if l == r then 1 else 0
    case Lt => if l < r then 1 else 0
    case Shl => if r < 64 then Wrapped(l * PowerOfTwo(r)) else 0
    case Shr => if r < 64 then Quotient(l, PowerOfTwo(r)) else 0
  }

  function AnyTrue(bits: seq<bool>): bool { true in bits }
  function AllTrue(bits: seq<bool>): bool { false !in bits }
  function OddTrue(bits: seq<bool>): bool {
    if bits == [] then false else bits[|bits| - 1] != OddTrue(bits[..|bits| - 1])
  }

  function BitwiseOn(op: NodeOp, a: bool, b: bool): bool
    requires op.Bitwise()
  {
    match op case And => a && b case Or => a || b case Xor => a != b
  }

  /** One node as a function of its operands. */
  ghost function Operate(n: Node, id: nat, a: seq<bool>, b: seq<bool>, s: seq<bool>, env: iset<Bit>,
                         hidden: Hidden): (r: seq<bool>)
    requires Shaped(n) && |a| == |n.left| && |b| == |n.right| && |s| == |n.select|
    ensures |r| == n.width
  {
    if n.op.Source() then seq(n.width, i requires 0 <= i => BitOf(id, i) in env)
    else if n.op.Mux? then (if s[0] then a else b)
    else if n.op.Bitwise() then seq(n.width, i requires 0 <= i < n.width => BitwiseOn(n.op, a[i], b[i]))
    else if n.op.Reduction() then [if n.op.Any? then AnyTrue(a) else if n.op.All? then AllTrue(a) else OddTrue(a)]
    else if n.op.Arith? then seq(n.width, i requires 0 <= i => BitAt(Calculate(n.op.op, Number(a), Number(b)), i))
    else seq(n.width, i requires 0 <= i => (id, a, b, s) in hidden && i < |hidden[(id, a, b, s)]|
             && hidden[(id, a, b, s)][i])
  }

  ghost predicate Ok(c: Context) { WellFormed(c.g, c.level) }

  ghost function NodeValue(c: Context, id: nat): (r: seq<bool>)
    requires Ok(c) && id < |c.g.nodes|
    ensures |r| == c.g.nodes[id].width
    decreases c.level[id] + 1, 0
  {
    assert NodeOk(c.g, c.level, id);
    var n := c.g.nodes[id];
    var a := seq(|n.left|, i requires 0 <= i < |n.left| =>
                 assert n.left[i] in n.left + n.right + n.select; BitValue(c, n.left[i]));
    var b := seq(|n.right|, i requires 0 <= i < |n.right| =>
                 assert n.right[i] in n.left + n.right + n.select; BitValue(c, n.right[i]));
    var s := seq(|n.select|, i requires 0 <= i < |n.select| =>
                 assert n.select[i] in n.left + n.right + n.select; BitValue(c, n.select[i]));
    Operate(n, id, a, b, s, c.env, c.hidden)
  }

  ghost function BitValue(c: Context, bit: Bit): bool
    requires Ok(c) && Usable(c.g, bit)
    decreases (var b := Resolve(c.g.aliases, bit); if b < 2 then 0 else c.level[Owner(b)] + 1), 1
  {
    var b := Resolve(c.g.aliases, bit);
    if b < 2 then b == 1 else NodeValue(c, Owner(b))[Lane(b)]
  }

  ghost predicate AllUsable(g: Graph, bits: seq<Bit>) { forall bit | bit in bits :: Usable(g, bit) }

  ghost function Values(c: Context, bits: seq<Bit>): (r: seq<bool>)
    requires Ok(c) && AllUsable(c.g, bits)
    ensures |r| == |bits|
  {
    seq(|bits|, i requires 0 <= i < |bits| => BitValue(c, bits[i]))
  }

  lemma OperandsUsable(g: Graph, level: seq<nat>, id: nat)
    requires WellFormed(g, level) && id < |g.nodes|
    ensures var n := g.nodes[id]; Shaped(n) && AllUsable(g, n.left) && AllUsable(g, n.right) && AllUsable(g, n.select)
    ensures var n := g.nodes[id]; forall bit | bit in n.left || bit in n.right || bit in n.select ::
              BelowLevel(g, level, bit, level[id])
  {
    assert NodeOk(g, level, id);
    var n := g.nodes[id];
    forall bit | bit in n.left || bit in n.right || bit in n.select
      ensures Usable(g, bit) && BelowLevel(g, level, bit, level[id])
    {
      assert bit in n.left + n.right + n.select;
    }
  }

  lemma NodeValueOperates(c: Context, id: nat)
    requires Ok(c) && id < |c.g.nodes|
    ensures var n := c.g.nodes[id];
            && Shaped(n) && AllUsable(c.g, n.left) && AllUsable(c.g, n.right) && AllUsable(c.g, n.select)
            && NodeValue(c, id) == Operate(n, id, Values(c, n.left), Values(c, n.right), Values(c, n.select), c.env,
                                           c.hidden)
  {
    OperandsUsable(c.g, c.level, id);
    assert NodeOk(c.g, c.level, id);
    var n := c.g.nodes[id];
    var a := seq(|n.left|, i requires 0 <= i < |n.left| =>
                 assert n.left[i] in n.left + n.right + n.select; BitValue(c, n.left[i]));
    var b := seq(|n.right|, i requires 0 <= i < |n.right| =>
                 assert n.right[i] in n.left + n.right + n.select; BitValue(c, n.right[i]));
    var s := seq(|n.select|, i requires 0 <= i < |n.select| =>
                 assert n.select[i] in n.left + n.right + n.select; BitValue(c, n.select[i]));
    assert a == Values(c, n.left);
    assert b == Values(c, n.right);
    assert s == Values(c, n.select);
  }

  /** The value of every node output, as a set of true bits. */
  ghost predicate Known(g: Graph, bit: Bit) {
    2 <= bit && 0 <= Owner(bit) < |g.nodes| && Lane(bit) < g.nodes[Owner(bit)].width
  }

  ghost function Symbols(c: Context): iset<Bit>
    requires Ok(c)
  {
    iset bit: Bit | Known(c.g, bit) && NodeValue(c, Owner(bit))[Lane(bit)]
  }
}

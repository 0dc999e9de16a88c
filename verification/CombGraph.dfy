/** The prepared nodes of Combs.cpp as equations between typed values. */
module CombGraph {
  import opened Common

  /** A static C++ type: built in, a class that packs an unsigned number of some
      width such as `logic<8>`, or any other class. */
  datatype Type = Unsigned(bits: pos) | Signed(bits: pos) | Bool | Packed(name: nat, bits: pos) | Class(name: nat)

  /** What C++ fixes for all programs: the value of a type that an integer
      stands for, conversions of such values to another type, and the type an
      operation has on operands of given types. */
  datatype Language = Language(read: (Type, int) -> int, convert: (Type, Type, int) -> int,
                               result: (nat, seq<Type>) -> Type)

  /** Conversion leaves a value of its type as it is. */
  ghost predicate KeepsOwn(l: Language, t: Type, x: int) { l.convert(t, t, l.read(t, x)) == l.read(t, x) }

  /** Conversion yields a value of its type. */
  ghost predicate Yields(l: Language, from: Type, to: Type, x: int) {
    l.read(to, l.convert(from, to, x)) == l.convert(from, to, x)
  }

  ghost predicate LanguageOk(l: Language) {
    (forall t, x :: KeepsOwn(l, t, x)) && forall from, to, x :: Yields(l, from, to, x)
  }

  /** Every type has two values that no conversion identifies. */
  ghost predicate Discerning(l: Language) { forall a, b :: Discerns(l, a, b) }

  ghost predicate Discerns(l: Language, a: Type, b: Type) {
    l.convert(a, b, l.read(a, 0)) != l.convert(a, b, l.read(a, 1))
  }

  /** The text of an expression: a reference to the value of a node, or an
      operation whose name stands for the text around its operands. */
  datatype Expr = Ref(id: nat) | Apply(op: nat, args: seq<Expr>)

  datatype Kind = Port | Comb

  /** The fixed facts of a node: the type of its storage, and the width that
      sharing finds in the text of that type. */
  datatype Node = Node(kind: Kind, instance: nat, storage: Type, key: Option<nat>, direct: bool, cached: bool)

  /** The prepared nodes in schedule order, which of them stay on demand, and
      the ones small enough to inline. */
  datatype Graph = Graph(language: Language, nodes: seq<Node>, expr: seq<Expr>, deps: seq<seq<nat>>,
                         schedule: seq<nat>, dynamicNodes: set<nat>, inlinable: set<nat>, rank: seq<nat>)

  // ----- Expressions ---------------------------------------------------------------------------

  predicate InRange(e: Expr, n: nat) {
    match e
    case Ref(id) => id < n
    case Apply(_, args) => forall i | 0 <= i < |args| :: InRange(args[i], n)
  }

  /** As prepared, an expression is a text around references to nodes. */
  predicate Flat(e: Expr, n: nat): (r: bool)
    ensures r ==> InRange(e, n)
  {
    match e
    case Ref(id) => id < n
    case Apply(_, args) => Refs(args, n)
  }

  predicate Refs(es: seq<Expr>, n: nat) { forall i | 0 <= i < |es| :: es[i].Ref? && es[i].id < n }

  predicate Mentions(e: Expr, id: nat) {
    match e
    case Ref(r) => r == id
    case Apply(_, args) => exists i | 0 <= i < |args| :: Mentions(args[i], id)
  }

  lemma {:induction false} MentionsInRange(e: Expr, n: nat, id: nat)
    requires InRange(e, n) && Mentions(e, id)
    ensures id < n
  {
    if e.Apply? {
      var i :| 0 <= i < |e.args| && Mentions(e.args[i], id);
      MentionsInRange(e.args[i], n, id);
    }
  }

  /** Every mention of a prepared expression is one of its references. */
  lemma FlatMentions(e: Expr, n: nat, id: nat)
    requires Flat(e, n)
    ensures e.Ref? ==> (Mentions(e, id) <==> id == e.id)
    ensures e.Apply? ==> (Mentions(e, id) <==> exists i :: 0 <= i < |e.args| && e.args[i] == Ref(id))
  {
    if e.Apply? {
      if i :| 0 <= i < |e.args| && e.args[i] == Ref(id) { assert Mentions(e.args[i], id); }
      if Mentions(e, id) { var i :| 0 <= i < |e.args| && Mentions(e.args[i], id); }
    }
  }

  /** collectNodeUses: the nodes an expression mentions. */
  function MentionList(e: Expr): (r: seq<nat>)
    ensures forall d: nat :: d in r <==> Mentions(e, d)
    decreases e, 0
  {
    match e
    case Ref(id) => [id]
    case Apply(_, args) => MentionLists(args)
  }

  function MentionLists(es: seq<Expr>): (r: seq<nat>)
    ensures forall d: nat :: d in r <==> exists i :: 0 <= i < |es| && Mentions(es[i], d)
    decreases es, 1
  {
    if es == [] then []
    else
      assert es == [es[0]] + es[1..];
      var rest := MentionLists(es[1..]);
      assert forall d: nat, i | 1 <= i < |es| && Mentions(es[i], d) :: es[i] == es[1..][i - 1];
      MentionList(es[0]) + rest
  }

  // ----- Types and values ----------------------------------------------------------------------

  /** What the texts compute besides reading nodes: the same text means
      different things on operands of different types. */
  type World = (nat, seq<Type>, seq<int>) -> int

  function TypeOf(g: Graph, e: Expr): Type
    requires InRange(e, |g.nodes|)
    decreases e, 0
  {
    match e
    case Ref(id) => g.nodes[id].storage
    case Apply(op, args) => g.language.result(op, TypesOf(g, args))
  }

  function TypesOf(g: Graph, es: seq<Expr>): (r: seq<Type>)
    requires forall i | 0 <= i < |es| :: InRange(es[i], |g.nodes|)
    ensures |r| == |es|
    decreases es, 1
  {
    seq(|es|, i requires 0 <= i < |es| => TypeOf(g, es[i]))
  }

  /** The value that a node's storage holds. */
  function Held(g: Graph, val: seq<int>, id: nat): int
    requires id < |g.nodes| == |val|
  {
    g.language.read(g.nodes[id].storage, val[id])
  }

  function Value(g: Graph, e: Expr, val: seq<int>, w: World): int
    requires InRange(e, |g.nodes|) && |val| == |g.nodes|
    decreases e, 0
  {
    match e
    case Ref(id) => Held(g, val, id)
    case Apply(op, args) => g.language.read(TypeOf(g, e), w(op, TypesOf(g, args), Values(g, args, val, w)))
  }

  function Values(g: Graph, es: seq<Expr>, val: seq<int>, w: World): (r: seq<int>)
    requires (forall i | 0 <= i < |es| :: InRange(es[i], |g.nodes|)) && |val| == |g.nodes|
    ensures |r| == |es|
    decreases es, 1
  {
    seq(|es|, i requires 0 <= i < |es| => Value(g, es[i], val, w))
  }

  /** What the storage of a node holds after an expression is assigned to it. */
  function Assigned(g: Graph, id: nat, e: Expr, val: seq<int>, w: World): int
    requires InRange(e, |g.nodes|) && |val| == |g.nodes| && id < |g.nodes|
  {
    g.language.convert(TypeOf(g, e), g.nodes[id].storage, Value(g, e, val, w))
  }

  /** Assigning a node to itself changes nothing. */
  lemma SelfAssigned(g: Graph, id: nat, val: seq<int>, w: World)
    requires LanguageOk(g.language) && id < |g.nodes| == |val|
    ensures Assigned(g, id, Ref(id), val, w) == Held(g, val, id)
  {
    assert KeepsOwn(g.language, g.nodes[id].storage, val[id]);
  }

  /** What was assigned is held. */
  lemma AssignedHeld(g: Graph, id: nat, e: Expr, val: seq<int>, w: World)
    requires LanguageOk(g.language) && InRange(e, |g.nodes|) && id < |g.nodes| == |val|
             && val[id] == Assigned(g, id, e, val, w)
    ensures Held(g, val, id) == val[id]
  {
    assert Yields(g.language, TypeOf(g, e), g.nodes[id].storage, Value(g, e, val, w));
  }

  /** Expressions only see the values they mention. */
  lemma {:induction false} ValueDepends(g: Graph, e: Expr, val: seq<int>, val': seq<int>, w: World)
    requires InRange(e, |g.nodes|) && |val'| == |val| == |g.nodes|
    requires forall id | 0 <= id < |val| && Mentions(e, id) :: val'[id] == val[id]
    ensures Value(g, e, val', w) == Value(g, e, val, w)
  {
    if e.Apply? {
      forall i | 0 <= i < |e.args| ensures Value(g, e.args[i], val', w) == Value(g, e.args[i], val, w) {
        ValueDepends(g, e.args[i], val, val', w);
      }
      assert Values(g, e.args, val', w) == Values(g, e.args, val, w);
    }
  }

  // ----- The graph before ----------------------------------------------------------------------

  predicate Scheduled(g: Graph, id: nat) { id in g.schedule }
  predicate Eager(g: Graph, id: nat) { id in g.schedule && id !in g.dynamicNodes }

  ghost predicate Sized(g: Graph) {
    && |g.nodes| == |g.expr| == |g.deps| == |g.rank|
    && (forall i | 0 <= i < |g.schedule| :: g.schedule[i] < |g.nodes| && g.rank[g.schedule[i]] == i)
    && (forall id | 0 <= id < |g.expr| :: Flat(g.expr[id], |g.nodes|))
    && forall id, k | 0 <= id < |g.deps| && 0 <= k < |g.deps[id]| :: g.deps[id][k] < |g.nodes|
  }

  /** What scheduling guarantees: kept dependencies come earlier, and an eager
      node depends exactly on what it mentions, all of it eager. */
  ghost predicate GraphOk(g: Graph) {
    && Sized(g) && LanguageOk(g.language)
    && (forall id: nat, d: nat | Scheduled(g, id) && id < |g.deps| && d in g.deps[id] ::
          Scheduled(g, d) && d < |g.rank| && g.rank[d] < g.rank[id])
    && (forall id: nat, d: nat | Eager(g, id) && id < |g.deps| && d in g.deps[id] :: Eager(g, d))
    && (forall id: nat, d: nat | Eager(g, id) && id < |g.deps| :: d in g.deps[id] <==> Mentions(g.expr[id], d))
  }

  /** The port's only dependency is all it forwards, and caching allows it. */
  predicate Forwards(g: Graph, id: nat)
    requires id < |g.nodes| == |g.deps| == |g.expr|
  {
    && g.nodes[id].kind.Port? && |g.deps[id]| == 1 && g.deps[id][0] < |g.nodes|
    && ((id in g.dynamicNodes || g.deps[id][0] in g.dynamicNodes) ==>
        g.nodes[id].cached && g.nodes[g.deps[id][0]].cached)
    && g.expr[id] == Ref(g.deps[id][0])
  }

  /** A scheduled port that only forwards. */
  predicate Forwarding(g: Graph, id: nat)
    requires id < |g.nodes| == |g.deps| == |g.expr|
  {
    id in g.schedule && Forwards(g, id)
  }

  /** The node's value follows from other nodes. */
  predicate Equated(g: Graph, id: nat)
    requires id < |g.nodes| == |g.deps| == |g.expr|
  {
    Eager(g, id) || Forwarding(g, id)
  }

  /** `val` satisfies the equations of all eager nodes; a cached port that only
      forwards a cached node holds what assigning that node to it gives. */
  ghost predicate Solves(g: Graph, val: seq<int>, w: World)
    requires Sized(g)
  {
    |val| == |g.nodes| && forall id: nat | id < |g.nodes| && Equated(g, id) ::
                            val[id] == Assigned(g, id, g.expr[id], val, w)
  }

  lemma EquatedHeld(g: Graph, val: seq<int>, w: World, id: nat)
    requires GraphOk(g) && Solves(g, val, w) && id < |g.nodes| && Equated(g, id)
    ensures Held(g, val, id) == val[id] == Assigned(g, id, g.expr[id], val, w)
  {
    AssignedHeld(g, id, g.expr[id], val, w);
  }

  /** What an equated node reads is equated earlier or not at all. */
  lemma OperandEarlier(g: Graph, id: nat, d: nat)
    requires GraphOk(g) && id < |g.nodes| && Equated(g, id) && Mentions(g.expr[id], d)
    ensures d < |g.nodes| && d in g.deps[id] && g.rank[d] < g.rank[id] && Scheduled(g, d)
            && (Eager(g, id) ==> Eager(g, d))
  {
    if !Eager(g, id) { assert g.deps[id][0] in g.deps[id]; }
  }

  /** The nodes an expression of an equated node refers to. */
  lemma OperandsEarlier(g: Graph, id: nat)
    requires GraphOk(g) && id < |g.nodes| && Equated(g, id)
    ensures g.expr[id].Ref? ==> g.expr[id].id < |g.nodes| && g.rank[g.expr[id].id] < g.rank[id]
    ensures g.expr[id].Apply? ==> Eager(g, id)
    ensures g.expr[id].Apply? ==> forall i | 0 <= i < |g.expr[id].args| ::
              g.expr[id].args[i].Ref? && g.expr[id].args[i].id < |g.nodes| && g.rank[g.expr[id].args[i].id] < g.rank[id]
  {
    if g.expr[id].Ref? {
      OperandEarlier(g, id, g.expr[id].id);
    } else {
      forall i | 0 <= i < |g.expr[id].args|
        ensures g.expr[id].args[i].Ref? && g.expr[id].args[i].id < |g.nodes|
                && g.rank[g.expr[id].args[i].id] < g.rank[id]
      {
        assert Mentions(g.expr[id].args[i], g.expr[id].args[i].id);
        OperandEarlier(g, id, g.expr[id].args[i].id);
      }
    }
  }

  // ----- A solution in every world ---------------------------------------------------------------

  /** The value of a node when every slot that no equation fixes holds `slot`. */
  ghost function SolutionAt(g: Graph, w: World, slot: int, id: nat): int
    requires GraphOk(g) && id < |g.nodes|
    decreases g.rank[id]
  {
    if !Equated(g, id) then slot
    else
      OperandsEarlier(g, id);
      match g.expr[id]
      case Ref(d) =>
        g.language.convert(g.nodes[d].storage, g.nodes[id].storage,
                           g.language.read(g.nodes[d].storage, SolutionAt(g, w, slot, d)))
      case Apply(op, args) =>
        var vals := seq(|args|, i requires 0 <= i < |args| =>
                        g.language.read(g.nodes[args[i].id].storage, SolutionAt(g, w, slot, args[i].id)));
        g.language.convert(TypeOf(g, g.expr[id]), g.nodes[id].storage,
                           g.language.read(TypeOf(g, g.expr[id]), w(op, TypesOf(g, args), vals)))
  }

  ghost function Solution(g: Graph, w: World, slot: int): (val: seq<int>)
    requires GraphOk(g)
    ensures |val| == |g.nodes|
  {
    seq(|g.nodes|, id requires 0 <= id < |g.nodes| => SolutionAt(g, w, slot, id))
  }

  lemma SolutionSolves(g: Graph, w: World, slot: int)
    requires GraphOk(g)
    ensures Solves(g, Solution(g, w, slot), w)
  {
    var val := Solution(g, w, slot);
    forall id: nat | id < |g.nodes| && Equated(g, id) ensures val[id] == Assigned(g, id, g.expr[id], val, w) {
      OperandsEarlier(g, id);
      if g.expr[id].Apply? {
        var args := g.expr[id].args;
        assert Values(g, args, val, w)
            == seq(|args|, i requires 0 <= i < |args| =>
                   g.language.read(g.nodes[args[i].id].storage, SolutionAt(g, w, slot, args[i].id)));
      }
    }
  }
}

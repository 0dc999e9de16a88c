/** Exactly when simplification keeps values: a storage that is gone no longer
    converts, and an operand of another type changes what a text means. */
module CombTyping {
  import opened Common
  import opened CombGraph
  import opened CombLeads

  // ----- What keeping values means -----------------------------------------------------------

  /** What stands for the expression of a node afterwards. */
  function FinalFor(g: Graph, sharing: bool, id: nat): (r: Expr)
    requires GraphOk(g) && id < |g.nodes|
    ensures InRange(r, |g.nodes|)
  {
    if Lead(g, sharing, id) != id then Target(g, sharing, id) else Subst(g, sharing, g.expr[id])
  }

  /** The replaced expression assigns what the original one does. */
  ghost predicate KeptAt(g: Graph, sharing: bool, id: nat, val: seq<int>, w: World)
    requires GraphOk(g) && id < |g.nodes| == |val|
  {
    Assigned(g, id, FinalFor(g, sharing, id), val, w) == Assigned(g, id, g.expr[id], val, w)
  }

  /** In every world every solution of the original equations still satisfies
      them when all expressions are replaced. */
  ghost predicate Kept(g: Graph, sharing: bool)
    requires GraphOk(g)
  {
    forall val: seq<int>, w: World, id: nat | Solves(g, val, w) && Scheduled(g, id) && id < |g.nodes| ::
      KeptAt(g, sharing, id, val, w)
  }

  // ----- The condition on static types ---------------------------------------------------------

  /** A value on its way from one type to another through a third. */
  function Through(l: Language, from: Type, mid: Type, to: Type, v: int): int {
    l.convert(mid, to, l.convert(from, mid, v))
  }

  /** What reaches a node by conversions alone when `u` is put into the start of
      its chain of references: an operation or a slot. */
  ghost function Arrives(g: Graph, id: nat, u: int): int
    requires GraphOk(g) && id < |g.nodes|
    decreases g.rank[id]
  {
    if !Equated(g, id) then g.language.read(g.nodes[id].storage, u)
    else
      OperandsEarlier(g, id);
      match g.expr[id]
      case Ref(d) => g.language.convert(g.nodes[d].storage, g.nodes[id].storage, Arrives(g, d, u))
      case Apply(_, _) =>
        g.language.convert(TypeOf(g, g.expr[id]), g.nodes[id].storage, g.language.read(TypeOf(g, g.expr[id]), u))
  }

  ghost function ArrivesAt(g: Graph, e: Expr, u: int): int
    requires GraphOk(g) && InRange(e, |g.nodes|)
  {
    if e.Ref? then Arrives(g, e.id, u) else g.language.read(TypeOf(g, e), u)
  }

  /** Operands have the types of what replaces them. */
  ghost predicate SameTypes(g: Graph, sharing: bool, args: seq<Expr>)
    requires GraphOk(g) && Refs(args, |g.nodes|)
  {
    forall i | 0 <= i < |args| :: TypeOf(g, Target(g, sharing, args[i].id)) == g.nodes[args[i].id].storage
  }

  /** The node is read from the storage of the comb it is shared with. */
  predicate ReadsShared(g: Graph, sharing: bool, id: nat)
    requires GraphOk(g) && id < |g.nodes|
  {
    !Forwarding(g, id) && Lead(g, sharing, id) != id && !Inlines(g, sharing, Lead(g, sharing, id))
  }

  /** Taking a result from the shared storage, or a value without the storage in
      between, changes nothing when `u` is put into the start of the chain. */
  ghost predicate PassesOn(g: Graph, sharing: bool, id: nat, u: int)
    requires GraphOk(g) && id < |g.nodes|
  {
    var l, own, lead := g.language, g.nodes[id].storage, g.nodes[Lead(g, sharing, id)].storage;
    match g.expr[id]
    case Apply(_, _) =>
      ReadsShared(g, sharing, id) ==>
        var from, v := TypeOf(g, g.expr[id]), l.read(TypeOf(g, g.expr[id]), u);
        Through(l, from, lead, own, v) == l.convert(from, own, v)
    case Ref(d) =>
      var t := Target(g, sharing, d);
      var from, v := TypeOf(g, t), ArrivesAt(g, t, u);
      Through(l, from, g.nodes[d].storage, own, v)
      == if ReadsShared(g, sharing, id) then Through(l, from, lead, own, v) else l.convert(from, own, v)
  }

  /** The condition at one node, on static types only: an operation has operands
      of unchanged types, and whatever can arrive passes on unchanged. */
  ghost predicate Matches(g: Graph, sharing: bool, id: nat)
    requires GraphOk(g) && id < |g.nodes|
  {
    && (g.expr[id].Apply? ==> SameTypes(g, sharing, g.expr[id].args))
    && forall u: int :: PassesOn(g, sharing, id, u)
  }

  ghost predicate MatchesAll(g: Graph, sharing: bool)
    requires GraphOk(g)
  {
    forall id: nat | Scheduled(g, id) && id < |g.nodes| :: Matches(g, sharing, id)
  }

  // ----- The condition suffices ----------------------------------------------------------------

  /** Values in a solution are values that arrive. */
  lemma {:induction false} Attained(g: Graph, val: seq<int>, w: World, id: nat) returns (u: int)
    requires GraphOk(g) && Solves(g, val, w) && id < |g.nodes|
    ensures Held(g, val, id) == Arrives(g, id, u)
    decreases g.rank[id]
  {
    if !Equated(g, id) {
      u := val[id];
    } else {
      OperandsEarlier(g, id);
      EquatedHeld(g, val, w, id);
      match g.expr[id]
      case Ref(d) => u := Attained(g, val, w, d);
      case Apply(op, args) => u := w(op, TypesOf(g, args), Values(g, args, val, w));
    }
  }

  lemma AttainedAt(g: Graph, val: seq<int>, w: World, e: Expr) returns (u: int)
    requires GraphOk(g) && Solves(g, val, w) && InRange(e, |g.nodes|)
    ensures Value(g, e, val, w) == ArrivesAt(g, e, u)
  {
    if e.Ref? { u := Attained(g, val, w, e.id); } else { u := w(e.op, TypesOf(g, e.args), Values(g, e.args, val, w)); }
  }

  /** A node holds what assigning its target to it gives. */
  ghost predicate Follows(g: Graph, sharing: bool, id: nat, val: seq<int>, w: World)
    requires GraphOk(g) && id < |g.nodes| == |val|
  {
    Held(g, val, id) == Assigned(g, id, Target(g, sharing, id), val, w)
  }

  ghost predicate OperandsFollow(g: Graph, sharing: bool, e: Expr, val: seq<int>, w: World)
    requires GraphOk(g) && |val| == |g.nodes|
  {
    forall d: nat | d < |g.nodes| && Mentions(e, d) :: Follows(g, sharing, d, val, w)
  }

  /** What replaces a node by something of its type has its value. */
  lemma SameOperand(g: Graph, sharing: bool, d: nat, val: seq<int>, w: World)
    requires GraphOk(g) && d < |g.nodes| == |val| && Follows(g, sharing, d, val, w)
    requires TypeOf(g, Target(g, sharing, d)) == g.nodes[d].storage
    ensures Value(g, Target(g, sharing, d), val, w) == Held(g, val, d)
  {
    var t, l, own := Target(g, sharing, d), g.language, g.nodes[d].storage;
    if t.Ref? {
      assert KeepsOwn(l, own, val[t.id]);
    } else {
      assert KeepsOwn(l, own, w(t.op, TypesOf(g, t.args), Values(g, t.args, val, w)));
    }
  }

  /** An operation on operands of unchanged types means what it meant. */
  lemma SameOperation(g: Graph, sharing: bool, e: Expr, val: seq<int>, w: World)
    requires GraphOk(g) && |val| == |g.nodes| && Flat(e, |g.nodes|) && e.Apply? && SameTypes(g, sharing, e.args)
    requires OperandsFollow(g, sharing, e, val, w)
    ensures TypeOf(g, Subst(g, sharing, e)) == TypeOf(g, e)
            && Value(g, Subst(g, sharing, e), val, w) == Value(g, e, val, w)
  {
    var es := Operands(g, sharing, e.args);
    assert Refs(e.args, |g.nodes|);
    forall i | 0 <= i < |es|
      ensures TypeOf(g, es[i]) == TypeOf(g, e.args[i]) && Value(g, es[i], val, w) == Value(g, e.args[i], val, w)
    {
      OperandMentioned(e, i);
      SameOperand(g, sharing, e.args[i].id, val, w);
      assert e.args[i] == Ref(e.args[i].id);
    }
    assert TypesOf(g, es) == TypesOf(g, e.args) && Values(g, es, val, w) == Values(g, e.args, val, w);
  }

  /** A matching node that reads no shared storage is assigned the same. */
  lemma SubstAssigns(g: Graph, sharing: bool, id: nat, val: seq<int>, w: World)
    requires GraphOk(g) && Solves(g, val, w) && id < |g.nodes| && Matches(g, sharing, id)
    requires OperandsFollow(g, sharing, g.expr[id], val, w) && (g.expr[id].Ref? ==> !ReadsShared(g, sharing, id))
    ensures Assigned(g, id, Subst(g, sharing, g.expr[id]), val, w) == Assigned(g, id, g.expr[id], val, w)
  {
    match g.expr[id]
    case Apply(op, args) => SameOperation(g, sharing, g.expr[id], val, w);
    case Ref(d) =>
      var u := AttainedAt(g, val, w, Target(g, sharing, d));
      assert Follows(g, sharing, d, val, w) && PassesOn(g, sharing, id, u);
  }

  /** The storage that a comb is read from holds the comb's own text. */
  lemma SharedHolds(g: Graph, sharing: bool, id: nat, val: seq<int>, w: World)
    requires GraphOk(g) && Solves(g, val, w) && id < |g.nodes| && ReadsShared(g, sharing, id)
    requires Matches(g, sharing, Lead(g, sharing, id))
    requires OperandsFollow(g, sharing, g.expr[Lead(g, sharing, id)], val, w)
    ensures Target(g, sharing, id) == Ref(Lead(g, sharing, id))
    ensures Held(g, val, Lead(g, sharing, id))
         == Assigned(g, Lead(g, sharing, id), Subst(g, sharing, g.expr[id]), val, w)
  {
    var lead := Lead(g, sharing, id);
    LeadOnce(g, sharing, id);
    TargetIs(g, sharing, id);
    AlikeSubst(g, sharing, id, lead);
    SubstAssigns(g, sharing, lead, val, w);
    EquatedHeld(g, val, w, lead);
  }

  /** A matching comb holds what the comb it is shared with passes on. */
  lemma SharedAssigns(g: Graph, sharing: bool, id: nat, val: seq<int>, w: World)
    requires GraphOk(g) && Solves(g, val, w) && id < |g.nodes| && Shareable(g, id) && ReadsShared(g, sharing, id)
    requires Matches(g, sharing, id) && Matches(g, sharing, Lead(g, sharing, id))
    requires OperandsFollow(g, sharing, g.expr[id], val, w)
    requires OperandsFollow(g, sharing, g.expr[Lead(g, sharing, id)], val, w)
    ensures Follows(g, sharing, id, val, w)
  {
    SharedHolds(g, sharing, id, val, w);
    EquatedHeld(g, val, w, id);
    match g.expr[id]
    case Apply(op, args) =>
      SameOperation(g, sharing, g.expr[id], val, w);
      assert PassesOn(g, sharing, id, w(op, TypesOf(g, args), Values(g, args, val, w)));
    case Ref(d) =>
      var u := AttainedAt(g, val, w, Target(g, sharing, d));
      assert Follows(g, sharing, d, val, w) && PassesOn(g, sharing, id, u);
  }

  /** Where all types match, every node holds what its target passes on. */
  lemma {:induction false} AllFollow(g: Graph, sharing: bool, id: nat, val: seq<int>, w: World)
    requires GraphOk(g) && MatchesAll(g, sharing) && Solves(g, val, w) && id < |g.nodes|
    ensures Follows(g, sharing, id, val, w)
    decreases g.rank[id]
  {
    var lead := Lead(g, sharing, id);
    TargetIs(g, sharing, id);
    if lead != id || Inlines(g, sharing, id) {
      assert Equated(g, id) && Scheduled(g, id);
      forall d: nat | d < |g.nodes| && Mentions(g.expr[id], d) ensures Follows(g, sharing, d, val, w) {
        OperandEarlier(g, id, d);
        AllFollow(g, sharing, d, val, w);
      }
      if ReadsShared(g, sharing, id) {
        forall d: nat | d < |g.nodes| && Mentions(g.expr[lead], d) ensures Follows(g, sharing, d, val, w) {
          OperandEarlier(g, lead, d);
          AllFollow(g, sharing, d, val, w);
        }
        SharedAssigns(g, sharing, id, val, w);
      } else {
        SubstAssigns(g, sharing, id, val, w);
        TargetIsSubst(g, sharing, id);
        AssignedHeld(g, id, g.expr[id], val, w);
      }
    } else {
      SelfAssigned(g, id, val, w);
    }
  }

  /** The target of an inlined node, a forwarding port or a comb shared with an
      inlined one is its own replaced expression. */
  lemma TargetIsSubst(g: Graph, sharing: bool, id: nat)
    requires GraphOk(g) && id < |g.nodes| && !ReadsShared(g, sharing, id)
    requires Lead(g, sharing, id) != id || Inlines(g, sharing, id)
    ensures Target(g, sharing, id) == Subst(g, sharing, g.expr[id])
  {
    TargetIs(g, sharing, id);
    if Forwarding(g, id) {
      TargetOfLead(g, sharing, id);
    } else if Lead(g, sharing, id) != id {
      AlikeSubst(g, sharing, id, Lead(g, sharing, id));
    }
  }

  lemma MatchingKeeps(g: Graph, sharing: bool)
    requires GraphOk(g) && MatchesAll(g, sharing)
    ensures Kept(g, sharing)
  {
    forall val: seq<int>, w: World, id: nat | Solves(g, val, w) && Scheduled(g, id) && id < |g.nodes|
      ensures KeptAt(g, sharing, id, val, w)
    {
      if Lead(g, sharing, id) != id {
        AllFollow(g, sharing, id, val, w);
        EquatedHeld(g, val, w, id);
      } else {
        forall d: nat | d < |g.nodes| && Mentions(g.expr[id], d) ensures Follows(g, sharing, d, val, w) {
          AllFollow(g, sharing, d, val, w);
        }
        SubstAssigns(g, sharing, id, val, w);
      }
    }
  }

  // ----- The condition is necessary --------------------------------------------------------------

  /** Every text computes `u`. */
  function Constant(u: int): World { (op, types, vals) => u }

  /** One text computes `a` on operands of the given types, everything else 0. */
  function Marked(op: nat, types: seq<Type>, a: int): World {
    (o: nat, ts: seq<Type>, vs: seq<int>) => if o == op && ts == types then a else 0
  }

  lemma EquatedHeldAt(g: Graph, u: int, id: nat)
    requires GraphOk(g) && id < |g.nodes| && Equated(g, id)
    ensures g.language.read(g.nodes[id].storage, SolutionAt(g, Constant(u), u, id)) == SolutionAt(g, Constant(u), u, id)
  {
    SolutionSolves(g, Constant(u), u);
    EquatedHeld(g, Solution(g, Constant(u), u), Constant(u), id);
  }

  lemma {:induction false} ConstantArrives(g: Graph, u: int, id: nat)
    requires GraphOk(g) && id < |g.nodes|
    ensures g.language.read(g.nodes[id].storage, SolutionAt(g, Constant(u), u, id)) == Arrives(g, id, u)
    decreases g.rank[id]
  {
    if Equated(g, id) {
      OperandsEarlier(g, id);
      EquatedHeldAt(g, u, id);
      if g.expr[id].Ref? { ConstantArrives(g, u, g.expr[id].id); }
    }
  }

  lemma ConstantValue(g: Graph, u: int, e: Expr)
    requires GraphOk(g) && InRange(e, |g.nodes|)
    ensures Value(g, e, Solution(g, Constant(u), u), Constant(u)) == ArrivesAt(g, e, u)
  {
    if e.Ref? { ConstantArrives(g, u, e.id); }
  }

  /** Where values are kept, a node holds what its target passes on. */
  lemma KeptFollows(g: Graph, sharing: bool, id: nat, val: seq<int>, w: World)
    requires GraphOk(g) && Kept(g, sharing) && Solves(g, val, w) && id < |g.nodes|
    ensures Follows(g, sharing, id, val, w)
  {
    TargetIs(g, sharing, id);
    if Lead(g, sharing, id) != id || Inlines(g, sharing, id) {
      assert KeptAt(g, sharing, id, val, w);
      AssignedHeld(g, id, g.expr[id], val, w);
    } else {
      SelfAssigned(g, id, val, w);
    }
  }

  /** A text that is given operands of other types shows it. */
  lemma MarkShows(g: Graph, sharing: bool, id: nat)
    requires GraphOk(g) && Discerning(g.language) && Scheduled(g, id) && id < |g.nodes| && g.expr[id].Apply?
    requires FinalFor(g, sharing, id) == Subst(g, sharing, g.expr[id]) && !SameTypes(g, sharing, g.expr[id].args)
    ensures !Kept(g, sharing)
  {
    var e := Subst(g, sharing, g.expr[id]);
    var op, types := g.expr[id].op, TypesOf(g, g.expr[id].args);
    var l, own := g.language, g.nodes[id].storage;
    TypesSame(g, sharing, g.expr[id].args);
    var before, after := TypeOf(g, g.expr[id]), TypeOf(g, e);
    assert Discerns(l, before, own);
    var a := if l.convert(after, own, l.read(after, 0)) == l.convert(before, own, l.read(before, 0)) then 1 else 0;
    var w := Marked(op, types, a);
    var val := Solution(g, w, 0);
    SolutionSolves(g, w, 0);
    assert Value(g, g.expr[id], val, w) == l.read(before, a) && Value(g, e, val, w) == l.read(after, 0);
    assert !KeptAt(g, sharing, id, val, w);
  }

  lemma KeptTypes(g: Graph, sharing: bool, id: nat)
    requires GraphOk(g) && Discerning(g.language) && Kept(g, sharing) && Scheduled(g, id) && id < |g.nodes|
             && g.expr[id].Apply?
    requires !ReadsShared(g, sharing, id)
    ensures SameTypes(g, sharing, g.expr[id].args)
  {
    if Lead(g, sharing, id) != id { TargetIsSubst(g, sharing, id); }
    if !SameTypes(g, sharing, g.expr[id].args) { MarkShows(g, sharing, id); }
  }

  lemma TypesSame(g: Graph, sharing: bool, args: seq<Expr>)
    requires GraphOk(g) && Refs(args, |g.nodes|)
    ensures SameTypes(g, sharing, args) <==> TypesOf(g, Operands(g, sharing, args)) == TypesOf(g, args)
  {
    var es := Operands(g, sharing, args);
    if TypesOf(g, es) == TypesOf(g, args) {
      forall i | 0 <= i < |args| ensures TypeOf(g, Target(g, sharing, args[i].id)) == g.nodes[args[i].id].storage {
        assert TypesOf(g, es)[i] == TypesOf(g, args)[i] && args[i].Ref?;
        assert TypeOf(g, args[i]) == g.nodes[args[i].id].storage;
      }
    }
  }

  /** A comb alike an operation is the same operation on alike operands. */
  lemma AlikeApplies(g: Graph, sharing: bool, a: nat, b: nat)
    requires GraphOk(g) && Shareable(g, a) && Shareable(g, b) && KeyOf(g, a) == KeyOf(g, b) && g.expr[a].Apply?
    ensures g.expr[b].Apply? && g.expr[b].op == g.expr[a].op
    ensures Operands(g, sharing, g.expr[b].args) == Operands(g, sharing, g.expr[a].args)
  {
    AlikeSubst(g, sharing, a, b);
    assert Renamed(g.expr[a], Forwarded(g)) == Renamed(g.expr[b], Forwarded(g));
  }

  /** A comb that reads a shared storage and the one it is shared with. */
  lemma SharedTexts(g: Graph, sharing: bool, id: nat)
    requires GraphOk(g) && id < |g.nodes| && g.expr[id].Apply? && ReadsShared(g, sharing, id)
    ensures var lead := Lead(g, sharing, id);
            && Eager(g, lead) && Lead(g, sharing, lead) == lead && Target(g, sharing, id) == Ref(lead)
            && g.expr[lead].Apply? && g.expr[lead].op == g.expr[id].op
            && Operands(g, sharing, g.expr[lead].args) == Operands(g, sharing, g.expr[id].args)
  {
    var lead := Lead(g, sharing, id);
    LeadOnce(g, sharing, id);
    TargetIs(g, sharing, id);
    AlikeApplies(g, sharing, id, lead);
  }

  /** Its operands were of the same types. */
  lemma KeptSharedTypes(g: Graph, sharing: bool, id: nat)
    requires GraphOk(g) && Discerning(g.language) && Kept(g, sharing) && id < |g.nodes| && g.expr[id].Apply?
    requires ReadsShared(g, sharing, id)
    ensures g.expr[Lead(g, sharing, id)].Apply?
    ensures TypesOf(g, g.expr[Lead(g, sharing, id)].args) == TypesOf(g, g.expr[id].args)
            && SameTypes(g, sharing, g.expr[id].args)
  {
    var lead := Lead(g, sharing, id);
    SharedTexts(g, sharing, id);
    KeptTypes(g, sharing, lead);
    TypesSame(g, sharing, g.expr[lead].args);
    TypesSame(g, sharing, g.expr[id].args);
    if TypesOf(g, g.expr[lead].args) != TypesOf(g, g.expr[id].args) { MarkShared(g, sharing, id); }
  }

  lemma MarkShared(g: Graph, sharing: bool, id: nat)
    requires GraphOk(g) && Discerning(g.language) && id < |g.nodes| && g.expr[id].Apply? && ReadsShared(g, sharing, id)
    requires g.expr[Lead(g, sharing, id)].Apply?
             && TypesOf(g, g.expr[Lead(g, sharing, id)].args) != TypesOf(g, g.expr[id].args)
    ensures !Kept(g, sharing)
  {
    var lead := Lead(g, sharing, id);
    SharedTexts(g, sharing, id);
    assert Flat(g.expr[id], |g.nodes|) && Flat(g.expr[lead], |g.nodes|);
    var l, own, mid := g.language, g.nodes[id].storage, g.nodes[lead].storage;
    var from, of := TypeOf(g, g.expr[id]), TypeOf(g, g.expr[lead]);
    assert Discerns(l, from, own);
    var a := if Through(l, of, mid, own, l.read(of, 0)) == l.convert(from, own, l.read(from, 0)) then 1 else 0;
    var w := Marked(g.expr[id].op, TypesOf(g, g.expr[id].args), a);
    var val := Solution(g, w, 0);
    SolutionSolves(g, w, 0);
    MarkedLead(g, lead, w, val);
    assert Assigned(g, id, g.expr[id], val, w) == l.convert(from, own, l.read(from, a));
    assert !KeptAt(g, sharing, id, val, w);
  }

  /** A text the mark does not fit computes 0. */
  lemma MarkedLead(g: Graph, lead: nat, w: World, val: seq<int>)
    requires GraphOk(g) && Solves(g, val, w) && Eager(g, lead) && lead < |g.nodes| && g.expr[lead].Apply?
    requires w(g.expr[lead].op, TypesOf(g, g.expr[lead].args), Values(g, g.expr[lead].args, val, w)) == 0
    ensures var of := TypeOf(g, g.expr[lead]);
            Held(g, val, lead) == g.language.convert(of, g.nodes[lead].storage, g.language.read(of, 0))
  {
    EquatedHeld(g, val, w, lead);
  }

  /** Kept in the constant world, an operation may be read from a shared storage. */
  lemma KeptSharedPasses(g: Graph, sharing: bool, id: nat, u: int)
    requires GraphOk(g) && Discerning(g.language) && Kept(g, sharing) && id < |g.nodes| && g.expr[id].Apply?
    requires ReadsShared(g, sharing, id)
    ensures PassesOn(g, sharing, id, u)
  {
    var lead := Lead(g, sharing, id);
    var val, w := Solution(g, Constant(u), u), Constant(u);
    SharedTexts(g, sharing, id);
    SharedResult(g, sharing, id);
    ConstantHeld(g, u, lead);
    SolutionSolves(g, w, u);
    assert KeptAt(g, sharing, id, val, w);
  }

  lemma SharedResult(g: Graph, sharing: bool, id: nat)
    requires GraphOk(g) && Discerning(g.language) && Kept(g, sharing) && id < |g.nodes| && g.expr[id].Apply?
    requires ReadsShared(g, sharing, id)
    ensures TypeOf(g, g.expr[Lead(g, sharing, id)]) == TypeOf(g, g.expr[id])
  {
    KeptSharedTypes(g, sharing, id);
    SharedTexts(g, sharing, id);
  }

  lemma ConstantHeld(g: Graph, u: int, id: nat)
    requires GraphOk(g) && Eager(g, id) && id < |g.nodes| && g.expr[id].Apply?
    ensures var of := TypeOf(g, g.expr[id]);
            Held(g, Solution(g, Constant(u), u), id)
              == g.language.convert(of, g.nodes[id].storage, g.language.read(of, u))
  {
    SolutionSolves(g, Constant(u), u);
    EquatedHeld(g, Solution(g, Constant(u), u), Constant(u), id);
  }

  /** Kept in the constant world, a value passes on as the condition says. */
  lemma KeptPasses(g: Graph, sharing: bool, id: nat, u: int)
    requires GraphOk(g) && Kept(g, sharing) && Scheduled(g, id) && id < |g.nodes| && g.expr[id].Ref?
    ensures PassesOn(g, sharing, id, u)
  {
    var d := g.expr[id].id;
    var t := Target(g, sharing, d);
    var val, w := Solution(g, Constant(u), u), Constant(u);
    SolutionSolves(g, w, u);
    ConstantValue(g, u, t);
    KeptFollows(g, sharing, d, val, w);
    assert KeptAt(g, sharing, id, val, w);
    TargetIs(g, sharing, id);
    if ReadsShared(g, sharing, id) {
      SharedPasses(g, sharing, id, val, w);
    } else if Lead(g, sharing, id) != id {
      TargetIsSubst(g, sharing, id);
    }
  }

  /** The comb that another one only forwarding is shared with. */
  lemma SharedPasses(g: Graph, sharing: bool, id: nat, val: seq<int>, w: World)
    requires GraphOk(g) && Kept(g, sharing) && Solves(g, val, w) && id < |g.nodes| && g.expr[id].Ref?
             && ReadsShared(g, sharing, id)
    ensures var lead, t := Lead(g, sharing, id), Target(g, sharing, g.expr[id].id);
            Held(g, val, lead) == g.language.convert(TypeOf(g, t), g.nodes[lead].storage, Value(g, t, val, w))
  {
    var lead := Lead(g, sharing, id);
    LeadOnce(g, sharing, id);
    AlikeSubst(g, sharing, id, lead);
    assert Renamed(g.expr[id], Forwarded(g)) == Renamed(g.expr[lead], Forwarded(g));
    assert KeptAt(g, sharing, lead, val, w);
    EquatedHeld(g, val, w, lead);
  }

  /** Simplification keeps every solution in every world exactly when the static
      types match at every scheduled node. */
  lemma TypingExact(g: Graph, sharing: bool)
    requires GraphOk(g) && Discerning(g.language)
    ensures Kept(g, sharing) <==> MatchesAll(g, sharing)
  {
    if MatchesAll(g, sharing) { MatchingKeeps(g, sharing); }
    if Kept(g, sharing) {
      forall id: nat | Scheduled(g, id) && id < |g.nodes| ensures Matches(g, sharing, id) {
        KeptMatches(g, sharing, id);
      }
    }
  }

  lemma KeptMatches(g: Graph, sharing: bool, id: nat)
    requires GraphOk(g) && Discerning(g.language) && Kept(g, sharing) && Scheduled(g, id) && id < |g.nodes|
    ensures Matches(g, sharing, id)
  {
    if g.expr[id].Ref? {
      forall u: int ensures PassesOn(g, sharing, id, u) { KeptPasses(g, sharing, id, u); }
    } else if ReadsShared(g, sharing, id) {
      KeptSharedTypes(g, sharing, id);
      forall u: int ensures PassesOn(g, sharing, id, u) { KeptSharedPasses(g, sharing, id, u); }
    } else {
      KeptTypes(g, sharing, id);
    }
  }

  // ----- Work ------------------------------------------------------------------------------------

  /** Work keeps its type and its value. */
  ghost predicate WorkKept(g: Graph, sharing: bool, work: Expr)
    requires GraphOk(g) && Flat(work, |g.nodes|)
  {
    && TypeOf(g, Subst(g, sharing, work)) == TypeOf(g, work)
    && forall val: seq<int>, w: World | Solves(g, val, w) ::
         Value(g, Subst(g, sharing, work), val, w) == Value(g, work, val, w)
  }

  /** Every node that work mentions is replaced by something of its type. */
  ghost predicate WorkMatches(g: Graph, sharing: bool, work: Expr)
    requires GraphOk(g) && Flat(work, |g.nodes|)
  {
    match work
    case Ref(d) => TypeOf(g, Target(g, sharing, d)) == g.nodes[d].storage
    case Apply(_, args) => SameTypes(g, sharing, args)
  }

  lemma WorkExact(g: Graph, sharing: bool, work: Expr)
    requires GraphOk(g) && Discerning(g.language) && Flat(work, |g.nodes|) && MatchesAll(g, sharing)
    ensures WorkKept(g, sharing, work) <==> WorkMatches(g, sharing, work)
  {
    if WorkMatches(g, sharing, work) {
      forall val: seq<int>, w: World | Solves(g, val, w)
        ensures TypeOf(g, Subst(g, sharing, work)) == TypeOf(g, work)
        ensures Value(g, Subst(g, sharing, work), val, w) == Value(g, work, val, w)
      {
        MatchingWork(g, sharing, work, val, w);
      }
      SolutionSolves(g, Constant(0), 0);
    } else if work.Apply? {
      var types := TypesOf(g, work.args);
      var w := Marked(work.op, types, 1);
      TypesSame(g, sharing, work.args);
      SolutionSolves(g, w, 0);
      var r := TypeOf(g, work);
      assert Discerns(g.language, r, r);
      assert Value(g, work, Solution(g, w, 0), w) == g.language.read(r, 1);
    }
  }

  lemma MatchingWork(g: Graph, sharing: bool, work: Expr, val: seq<int>, w: World)
    requires GraphOk(g) && Flat(work, |g.nodes|) && MatchesAll(g, sharing) && WorkMatches(g, sharing, work)
             && Solves(g, val, w)
    ensures TypeOf(g, Subst(g, sharing, work)) == TypeOf(g, work)
            && Value(g, Subst(g, sharing, work), val, w) == Value(g, work, val, w)
  {
    forall d: nat | d < |g.nodes| && Mentions(work, d) ensures Follows(g, sharing, d, val, w) {
      AllFollow(g, sharing, d, val, w);
    }
    if work.Apply? {
      SameOperation(g, sharing, work, val, w);
    } else {
      SameOperand(g, sharing, work.id, val, w);
    }
  }
}

/** What simplification makes of a graph, defined on the graph alone: which node
    stands for another, and what a mention of it becomes. */
module CombLeads {
  import opened Common
  import opened CombGraph

  // ----- Forwarding ports ----------------------------------------------------------------------

  /** Where a chain of forwarding ports ends. */
  function ForwardedFrom(g: Graph, id: nat): (r: nat)
    requires GraphOk(g) && id < |g.nodes|
    ensures r < |g.nodes| && !Forwarding(g, r) && g.rank[r] <= g.rank[id] && (!Forwarding(g, id) ==> r == id)
    ensures (Scheduled(g, id) ==> Scheduled(g, r)) && (Eager(g, id) ==> Eager(g, r))
    ensures Forwarding(g, id) ==> g.rank[r] < g.rank[id] && Scheduled(g, r)
    decreases g.rank[id]
  {
    if Forwarding(g, id) then
      assert g.deps[id][0] in g.deps[id];
      ForwardedFrom(g, g.deps[id][0])
    else id
  }

  /** An expression with every reference led elsewhere. */
  function Renamed(e: Expr, leads: seq<nat>): (r: Expr)
    requires InRange(e, |leads|)
    decreases e, 0
  {
    match e
    case Ref(id) => Ref(leads[id])
    case Apply(op, args) => Apply(op, RenamedEach(args, leads))
  }

  function RenamedEach(es: seq<Expr>, leads: seq<nat>): (r: seq<Expr>)
    requires forall i | 0 <= i < |es| :: InRange(es[i], |leads|)
    ensures |r| == |es|
    decreases es, 1
  {
    seq(|es|, i requires 0 <= i < |es| => Renamed(es[i], leads))
  }

  function Forwarded(g: Graph): (r: seq<nat>)
    requires GraphOk(g)
    ensures |r| == |g.nodes| && forall id | 0 <= id < |r| :: r[id] == ForwardedFrom(g, id)
  {
    seq(|g.nodes|, id requires 0 <= id < |g.nodes| => ForwardedFrom(g, id))
  }

  // ----- Shared combs ----------------------------------------------------------------------------

  datatype SharedKey = SharedKey(instance: nat, key: nat, expr: Expr)

  predicate Shareable(g: Graph, id: nat) {
    id < |g.nodes| && g.nodes[id].kind.Comb? && g.nodes[id].direct && Eager(g, id) && g.nodes[id].key.Some?
  }

  /** Instance, width in the type's text, and text once forwarding is resolved. */
  function KeyOf(g: Graph, id: nat): SharedKey
    requires GraphOk(g) && Shareable(g, id)
  {
    SharedKey(g.nodes[id].instance, g.nodes[id].key.value, Renamed(g.expr[id], Forwarded(g)))
  }

  /** The keys of the shareable combs, by position in the schedule. */
  function Keys(g: Graph): (r: seq<Option<SharedKey>>)
    requires GraphOk(g)
    ensures |r| == |g.schedule|
    ensures forall i | 0 <= i < |r| ::
              r[i] == if Shareable(g, g.schedule[i]) then Some(KeyOf(g, g.schedule[i])) else None
  {
    seq(|g.schedule|, i requires 0 <= i < |g.schedule| =>
        if Shareable(g, g.schedule[i]) then Some(KeyOf(g, g.schedule[i])) else None)
  }

  /** The first of the first `k` positions that has a key. */
  function FirstIn(keys: seq<Option<SharedKey>>, key: SharedKey, k: nat): (r: Option<nat>)
    requires k <= |keys|
    ensures r.Some? ==> r.value < k && keys[r.value] == Some(key) && forall j | 0 <= j < r.value :: keys[j] != Some(key)
    ensures r.None? ==> forall j | 0 <= j < k :: keys[j] != Some(key)
  {
    if k == 0 then None
    else
      var before := FirstIn(keys, key, k - 1);
      if before.None? && keys[k - 1] == Some(key) then Some(k - 1) else before
  }

  /** The first of the first `k` scheduled nodes that has a key. */
  function FirstAlike(g: Graph, key: SharedKey, k: nat): (r: Option<nat>)
    requires GraphOk(g) && k <= |g.schedule|
    ensures r.Some? ==> Shareable(g, r.value) && KeyOf(g, r.value) == key && g.rank[r.value] < k
  {
    var i := FirstIn(Keys(g), key, k);
    if i.Some? then Some(g.schedule[i.value]) else None
  }

  lemma RankIsPlace(g: Graph, id: nat)
    requires Sized(g) && Scheduled(g, id)
    ensures id < |g.nodes| && g.rank[id] < |g.schedule| && g.schedule[g.rank[id]] == id
  {
    var i :| 0 <= i < |g.schedule| && g.schedule[i] == id;
  }

  lemma FirstIsEarliest(g: Graph, key: SharedKey, k: nat, id: nat)
    requires GraphOk(g) && k <= |g.schedule| && Shareable(g, id) && KeyOf(g, id) == key && g.rank[id] < k
    ensures var r := FirstAlike(g, key, k);
            r.Some? && g.rank[r.value] <= g.rank[id] && (r.value != id ==> g.rank[r.value] < g.rank[id])
  {
    RankIsPlace(g, id);
    assert Keys(g)[g.rank[id]] == Some(key);
  }

  /** The comb that a shareable comb is shared with. */
  function SharedWith(g: Graph, id: nat): (r: nat)
    requires GraphOk(g) && Shareable(g, id)
    ensures Shareable(g, r) && KeyOf(g, r) == KeyOf(g, id) && g.rank[r] <= g.rank[id]
            && (r != id ==> g.rank[r] < g.rank[id])
  {
    FirstIsEarliest(g, KeyOf(g, id), |g.schedule|, id);
    FirstAlike(g, KeyOf(g, id), |g.schedule|).value
  }

  // ----- What stands for a node ------------------------------------------------------------------

  /** The node that stands for another once ports are aliases and, with
      sharing, equal combs are shared. */
  function Lead(g: Graph, sharing: bool, id: nat): (r: nat)
    requires GraphOk(g) && id < |g.nodes|
    ensures r < |g.nodes| && !Forwarding(g, r) && g.rank[r] <= g.rank[id] && (r != id ==> g.rank[r] < g.rank[id])
    ensures (Scheduled(g, id) ==> Scheduled(g, r)) && (Eager(g, id) ==> Eager(g, r))
    ensures r != id ==> Equated(g, id) && Scheduled(g, r)
  {
    var end := ForwardedFrom(g, id);
    if sharing && Shareable(g, end) then SharedWith(g, end) else end
  }

  function Leads(g: Graph, sharing: bool): (r: seq<nat>)
    requires GraphOk(g)
    ensures |r| == |g.nodes| && forall id | 0 <= id < |r| :: r[id] == Lead(g, sharing, id)
  {
    seq(|g.nodes|, id requires 0 <= id < |g.nodes| => Lead(g, sharing, id))
  }

  /** What stands for a node stands for itself. */
  lemma LeadOnce(g: Graph, sharing: bool, id: nat)
    requires GraphOk(g) && id < |g.nodes|
    ensures Lead(g, sharing, Lead(g, sharing, id)) == Lead(g, sharing, id)
    ensures Lead(g, sharing, ForwardedFrom(g, id)) == Lead(g, sharing, id)
  {}

  /** An eager node that goes into the expressions that mention it. */
  predicate Inlines(g: Graph, sharing: bool, id: nat)
    requires GraphOk(g)
  {
    id < |g.nodes| && Eager(g, id) && id in g.inlinable && Lead(g, sharing, id) == id
  }

  /** The nodes that are left. */
  predicate Left(g: Graph, sharing: bool, id: nat)
    requires GraphOk(g)
  {
    id < |g.nodes| && Lead(g, sharing, id) == id && !Inlines(g, sharing, id)
  }

  /** What a mention of a node becomes. */
  function Target(g: Graph, sharing: bool, id: nat): (r: Expr)
    requires GraphOk(g) && id < |g.nodes|
    ensures InRange(r, |g.nodes|)
    decreases g.rank[id]
  {
    var lead := Lead(g, sharing, id);
    if Inlines(g, sharing, lead) then
      OperandsEarlier(g, lead);
      match g.expr[lead]
      case Ref(d) => Target(g, sharing, d)
      case Apply(op, args) => Apply(op, seq(|args|, i requires 0 <= i < |args| => Target(g, sharing, args[i].id)))
    else Ref(lead)
  }

  /** A prepared expression with every mention replaced. */
  function Subst(g: Graph, sharing: bool, e: Expr): (r: Expr)
    requires GraphOk(g) && Flat(e, |g.nodes|)
    ensures InRange(r, |g.nodes|)
  {
    match e
    case Ref(d) => Target(g, sharing, d)
    case Apply(op, args) => Apply(op, Operands(g, sharing, args))
  }

  function Operands(g: Graph, sharing: bool, args: seq<Expr>): (r: seq<Expr>)
    requires GraphOk(g) && Refs(args, |g.nodes|)
    ensures |r| == |args| && forall i | 0 <= i < |r| ::
                               r[i] == Target(g, sharing, args[i].id) && InRange(r[i], |g.nodes|)
  {
    seq(|args|, i requires 0 <= i < |args| => Target(g, sharing, args[i].id))
  }

  /** The target of a node: what its lead's expression becomes, or its lead. */
  lemma TargetIs(g: Graph, sharing: bool, id: nat)
    requires GraphOk(g) && id < |g.nodes|
    ensures var lead := Lead(g, sharing, id);
            Target(g, sharing, id) == if Inlines(g, sharing, lead) then Subst(g, sharing, g.expr[lead]) else Ref(lead)
  {
    var lead := Lead(g, sharing, id);
    if Inlines(g, sharing, lead) && g.expr[lead].Apply? {
      OperandsEarlier(g, lead);
      assert Operands(g, sharing, g.expr[lead].args) == Target(g, sharing, id).args;
    }
  }

  /** Targets follow leads. */
  lemma TargetOfLead(g: Graph, sharing: bool, id: nat)
    requires GraphOk(g) && id < |g.nodes|
    ensures Target(g, sharing, Lead(g, sharing, id)) == Target(g, sharing, id)
    ensures Target(g, sharing, ForwardedFrom(g, id)) == Target(g, sharing, id)
    ensures Forwarding(g, id) ==> Target(g, sharing, g.deps[id][0]) == Target(g, sharing, id)
  {
    LeadOnce(g, sharing, id);
    TargetIs(g, sharing, id);
    TargetIs(g, sharing, Lead(g, sharing, id));
    TargetIs(g, sharing, ForwardedFrom(g, id));
    if Forwarding(g, id) {
      assert g.deps[id][0] in g.deps[id];
      TargetIs(g, sharing, g.deps[id][0]);
    }
  }

  /** Combs with the same key become the same expression. */
  lemma AlikeSubst(g: Graph, sharing: bool, a: nat, b: nat)
    requires GraphOk(g) && Shareable(g, a) && Shareable(g, b) && KeyOf(g, a) == KeyOf(g, b)
    ensures Subst(g, sharing, g.expr[a]) == Subst(g, sharing, g.expr[b])
  {
    var x, y := g.expr[a], g.expr[b];
    assert Flat(x, |g.nodes|) && Flat(y, |g.nodes|);
    if x.Ref? {
      TargetOfLead(g, sharing, x.id);
      TargetOfLead(g, sharing, y.id);
    } else {
      assert RenamedEach(x.args, Forwarded(g)) == RenamedEach(y.args, Forwarded(g));
      AlikeOperands(g, sharing, x.args, y.args);
    }
  }

  lemma AlikeOperands(g: Graph, sharing: bool, a: seq<Expr>, b: seq<Expr>)
    requires GraphOk(g) && Refs(a, |g.nodes|) && Refs(b, |g.nodes|)
    requires RenamedEach(a, Forwarded(g)) == RenamedEach(b, Forwarded(g))
    ensures Operands(g, sharing, a) == Operands(g, sharing, b)
  {
    var led := Forwarded(g);
    assert |a| == |RenamedEach(a, led)| == |b|;
    forall i | 0 <= i < |a| ensures Operands(g, sharing, a)[i] == Operands(g, sharing, b)[i] {
      assert RenamedEach(a, led)[i] == Renamed(a[i], led) && RenamedEach(b, led)[i] == Renamed(b[i], led);
      TargetOfLead(g, sharing, a[i].id);
      TargetOfLead(g, sharing, b[i].id);
    }
  }

  // ----- What is mentioned afterwards ----------------------------------------------------------------

  /** What a replaced expression mentions: what the targets of its mentions mention. */
  lemma SubstMentions(g: Graph, sharing: bool, e: Expr, r: nat)
    requires GraphOk(g) && Flat(e, |g.nodes|)
    ensures Mentions(Subst(g, sharing, e), r) <==> Reaches(g, sharing, e, r)
  {
    if e.Ref? {
      assert Mentions(e, e.id);
    } else {
      if Mentions(Subst(g, sharing, e), r) { OperandReached(g, sharing, e, r); }
      if Reaches(g, sharing, e, r) { ReachedMentioned(g, sharing, e, r); }
    }
  }

  lemma OperandReached(g: Graph, sharing: bool, e: Expr, r: nat)
    requires GraphOk(g) && Flat(e, |g.nodes|) && e.Apply? && Mentions(Subst(g, sharing, e), r)
    ensures Reaches(g, sharing, e, r)
  {
    var i :| 0 <= i < |e.args| && Mentions(Operands(g, sharing, e.args)[i], r);
    OperandMentioned(e, i);
  }

  lemma OperandMentioned(e: Expr, i: nat)
    requires e.Apply? && i < |e.args| && e.args[i].Ref?
    ensures Mentions(e, e.args[i].id)
  {
    assert Mentions(e.args[i], e.args[i].id);
  }

  lemma ReachedMentioned(g: Graph, sharing: bool, e: Expr, r: nat)
    requires GraphOk(g) && Flat(e, |g.nodes|) && e.Apply? && Reaches(g, sharing, e, r)
    ensures Mentions(Subst(g, sharing, e), r)
  {
    var d: nat :| d < |g.nodes| && Mentions(e, d) && Mentions(Target(g, sharing, d), r);
    var i :| 0 <= i < |e.args| && Mentions(e.args[i], d);
    assert Operands(g, sharing, e.args)[i] == Target(g, sharing, d);
  }

  ghost predicate Reaches(g: Graph, sharing: bool, e: Expr, r: nat)
    requires GraphOk(g)
  {
    exists d: nat {:trigger Mentions(e, d)} :: d < |g.nodes| && Mentions(e, d) && Mentions(Target(g, sharing, d), r)
  }

  /** A target mentions nodes that are left, none later than the node itself. */
  lemma {:induction false} TargetMentions(g: Graph, sharing: bool, id: nat, r: nat)
    requires GraphOk(g) && id < |g.nodes| && Mentions(Target(g, sharing, id), r)
    ensures Left(g, sharing, r) && g.rank[r] <= g.rank[id]
    ensures (Scheduled(g, id) ==> Scheduled(g, r)) && (Eager(g, id) ==> Eager(g, r))
    decreases g.rank[id]
  {
    var lead := Lead(g, sharing, id);
    TargetIs(g, sharing, id);
    LeadOnce(g, sharing, id);
    if Inlines(g, sharing, lead) {
      SubstMentions(g, sharing, g.expr[lead], r);
      var d: nat :| d < |g.nodes| && Mentions(g.expr[lead], d) && Mentions(Target(g, sharing, d), r);
      OperandEarlier(g, lead, d);
      TargetMentions(g, sharing, d, r);
    }
  }

  /** What an equated node mentions afterwards is earlier, left and eager for an eager node. */
  lemma SubstEarlier(g: Graph, sharing: bool, id: nat, r: nat)
    requires GraphOk(g) && id < |g.nodes| && Equated(g, id) && Mentions(Subst(g, sharing, g.expr[id]), r)
    ensures Left(g, sharing, r) && g.rank[r] < g.rank[id] && Scheduled(g, r) && (Eager(g, id) ==> Eager(g, r))
  {
    SubstMentions(g, sharing, g.expr[id], r);
    var d: nat :| d < |g.nodes| && Mentions(g.expr[id], d) && Mentions(Target(g, sharing, d), r);
    OperandEarlier(g, id, d);
    TargetMentions(g, sharing, d, r);
  }

  // ----- The simplified graph ------------------------------------------------------------------------

  /** Expressions, dependencies, schedule and work after simplification. */
  datatype Optimized = Optimized(expr: seq<Expr>, deps: seq<seq<nat>>, schedule: seq<nat>, work: Expr)

  /** The nodes that are left, in the same order. */
  function LeftOf(g: Graph, sharing: bool, schedule: seq<nat>): (r: seq<nat>)
    requires GraphOk(g)
    ensures forall id :: id in r <==> id in schedule && Left(g, sharing, id)
  {
    if schedule == [] then []
    else
      var last := |schedule| - 1;
      LeftOf(g, sharing, schedule[..last]) + if Left(g, sharing, schedule[last]) then [schedule[last]] else []
  }

  predicate Increasing(ids: seq<nat>) { forall i, j | 0 <= i < j < |ids| :: ids[i] < ids[j] }

  /** Something in the list leads to `r`. */
  ghost predicate LedTo(g: Graph, sharing: bool, ids: seq<nat>, r: nat)
    requires GraphOk(g)
  {
    exists d: nat {:trigger d in ids} :: d in ids && d < |g.nodes| && Mentions(Target(g, sharing, d), r)
  }

  /** What becomes of a node that is left: its expression with all mentions
      replaced, and the nodes its kept dependencies lead to, sorted. */
  ghost predicate NodeSimplified(g: Graph, sharing: bool, r: Optimized, id: nat)
    requires GraphOk(g) && id < |g.nodes| == |r.expr| == |r.deps|
  {
    && r.expr[id] == Subst(g, sharing, g.expr[id]) && Increasing(r.deps[id])
    && forall d: nat :: d in r.deps[id] <==> LedTo(g, sharing, g.deps[id], d)
  }

  /** All nodes that are left became what they should. */
  ghost predicate NodesSimplified(g: Graph, sharing: bool, r: Optimized)
    requires GraphOk(g)
  {
    && |r.expr| == |r.deps| == |g.nodes|
    && (forall id | 0 <= id < |r.expr| :: InRange(r.expr[id], |g.nodes|))
    && (forall id, k | 0 <= id < |r.deps| && 0 <= k < |r.deps[id]| :: r.deps[id][k] < |g.nodes|)
    && forall id: nat | Scheduled(g, id) && Left(g, sharing, id) :: NodeSimplified(g, sharing, r, id)
  }

  /** The whole outcome of simplification, on the input graph alone. */
  ghost predicate Simplified(g: Graph, sharing: bool, work: Expr, r: Optimized)
    requires GraphOk(g) && Flat(work, |g.nodes|)
  {
    NodesSimplified(g, sharing, r) && r.schedule == LeftOf(g, sharing, g.schedule) && r.work == Subst(g, sharing, work)
  }

  // ----- What is gone, by the given facts of the nodes --------------------------------------------

  /** The port's whole text is its only dependency, and what is demanded in an
      order that matters is cached on both sides. */
  ghost predicate PassesThrough(g: Graph, id: nat)
    requires GraphOk(g) && id < |g.nodes|
  {
    exists d: nat {:trigger Ref(d)} ::
      && g.nodes[id].kind == Port && g.deps[id] == [d] && g.expr[id] == Ref(d) && d < |g.nodes|
      && (id in g.dynamicNodes || d in g.dynamicNodes ==> g.nodes[id].cached && g.nodes[d].cached)
  }

  /** `o` is an earlier comb with the text of `id`: both are direct, eager and of
      one instance and width, and their texts are the same up to such ports. */
  ghost predicate EarlierEqual(g: Graph, o: nat, id: nat)
    requires GraphOk(g) && id < |g.nodes|
  {
    && o in g.schedule && o < |g.nodes| && g.rank[o] < g.rank[id]
    && g.nodes[o].kind == g.nodes[id].kind == Comb && g.nodes[o].direct && g.nodes[id].direct
    && o !in g.dynamicNodes && id !in g.dynamicNodes
    && g.nodes[o].instance == g.nodes[id].instance && g.nodes[o].key == g.nodes[id].key != None
    && Renamed(g.expr[o], Forwarded(g)) == Renamed(g.expr[id], Forwarded(g))
  }

  /** Exactly the ports that pass through, the combs with an earlier equal one
      and the small eager nodes leave the schedule. */
  lemma GoneExactly(g: Graph, sharing: bool, work: Expr, r: Optimized, id: nat)
    requires GraphOk(g) && Flat(work, |g.nodes|) && Simplified(g, sharing, work, r)
    requires id in g.schedule && id < |g.nodes|
    ensures id !in r.schedule <==>
              || PassesThrough(g, id) || (sharing && exists o: nat :: EarlierEqual(g, o, id))
              || (id !in g.dynamicNodes && id in g.inlinable)
  {
    PassesThroughForwards(g, id);
    if sharing && !Forwarding(g, id) { SharedExactly(g, id); }
    if sharing && Forwarding(g, id) {
      forall o: nat ensures !EarlierEqual(g, o, id) {}
    }
  }

  lemma PassesThroughForwards(g: Graph, id: nat)
    requires GraphOk(g) && id in g.schedule && id < |g.nodes|
    ensures PassesThrough(g, id) <==> Forwarding(g, id)
  {
    if Forwarding(g, id) { assert g.deps[id] == [g.deps[id][0]] && g.expr[id] == Ref(g.deps[id][0]); }
  }

  /** A comb stands for itself with sharing exactly if no earlier one is equal. */
  lemma SharedExactly(g: Graph, id: nat)
    requires GraphOk(g) && id in g.schedule && id < |g.nodes| && !Forwarding(g, id)
    ensures Lead(g, true, id) != id <==> exists o: nat :: EarlierEqual(g, o, id)
  {
    RankIsPlace(g, id);
    if o: nat :| EarlierEqual(g, o, id) {
      RankIsPlace(g, o);
      FirstIsEarliest(g, KeyOf(g, id), |g.schedule|, o);
    }
    if Lead(g, true, id) != id { assert EarlierEqual(g, SharedWith(g, id), id); }
  }

  /** A port keeps its place and stands for itself where demand order can be seen:
      it or its dependency is on demand, and one of the two is not cached. */
  lemma RepeatablePortStays(g: Graph, sharing: bool, work: Expr, r: Optimized, id: nat, d: nat)
    requires GraphOk(g) && Flat(work, |g.nodes|) && Simplified(g, sharing, work, r)
    requires id in g.schedule && id < |g.nodes| && g.nodes[id].kind == Port && g.deps[id] == [d] && d < |g.nodes|
    requires (id in g.dynamicNodes || d in g.dynamicNodes) && !(g.nodes[id].cached && g.nodes[d].cached)
    ensures id in r.schedule && Lead(g, sharing, id) == id && Left(g, sharing, id)
  {
    RepeatablePortOnDemand(g, id, d);
    assert !Forwarding(g, id) && ForwardedFrom(g, id) == id;
  }

  /** It is on demand itself: an eager node has only eager dependencies. */
  lemma RepeatablePortOnDemand(g: Graph, id: nat, d: nat)
    requires GraphOk(g) && id in g.schedule && id < |g.nodes| && g.deps[id] == [d]
    requires id in g.dynamicNodes || d in g.dynamicNodes
    ensures !Eager(g, id)
  {
    assert d in g.deps[id];
    assert Eager(g, id) ==> Eager(g, d);
  }

  /** A comb that is not direct, is on demand or has no width in its type's text
      is not shared. */
  lemma OtherCombStays(g: Graph, sharing: bool, work: Expr, r: Optimized, id: nat)
    requires GraphOk(g) && Flat(work, |g.nodes|) && Simplified(g, sharing, work, r)
    requires id in g.schedule && id < |g.nodes| && g.nodes[id].kind == Comb
    requires !g.nodes[id].direct || id in g.dynamicNodes || g.nodes[id].key == None
    ensures Lead(g, sharing, id) == id && (id !in r.schedule <==> id !in g.dynamicNodes && id in g.inlinable)
  {}

  /** An eager node's dependencies are its mentions, so they lead to the same. */
  lemma MentionsLed(g: Graph, sharing: bool, id: nat, r: nat)
    requires GraphOk(g) && Eager(g, id) && id < |g.nodes|
    ensures Reaches(g, sharing, g.expr[id], r) <==> LedTo(g, sharing, g.deps[id], r)
  {
    if Reaches(g, sharing, g.expr[id], r) {
      var d: nat :| d < |g.nodes| && Mentions(g.expr[id], d) && Mentions(Target(g, sharing, d), r);
      assert d in g.deps[id];
    }
    if LedTo(g, sharing, g.deps[id], r) {
      var d: nat :| d in g.deps[id] && d < |g.nodes| && Mentions(Target(g, sharing, d), r);
      assert Mentions(g.expr[id], d);
    }
  }

  /** An eager node that is left depends exactly on what it now mentions: eager
      earlier nodes that are left too. No alias or inlined node is mentioned. */
  lemma FinalNode(g: Graph, sharing: bool, r: Optimized, id: nat)
    requires GraphOk(g) && NodesSimplified(g, sharing, r) && Eager(g, id) && Left(g, sharing, id)
    ensures forall d: nat :: d in r.deps[id] <==> Mentions(r.expr[id], d)
    ensures forall d: nat | Mentions(r.expr[id], d) :: Left(g, sharing, d) && Eager(g, d) && g.rank[d] < g.rank[id]
  {
    assert NodeSimplified(g, sharing, r, id);
    forall d: nat ensures d in r.deps[id] <==> Mentions(r.expr[id], d) {
      SubstMentions(g, sharing, g.expr[id], d);
      MentionsLed(g, sharing, id, d);
    }
    forall d: nat | Mentions(r.expr[id], d) ensures Left(g, sharing, d) && Eager(g, d) && g.rank[d] < g.rank[id] {
      SubstEarlier(g, sharing, id, d);
    }
  }

  /** Nothing that is left, on demand or eager, mentions a node that is gone. */
  lemma NoGoneReference(g: Graph, sharing: bool, r: Optimized, id: nat, x: nat)
    requires GraphOk(g) && NodesSimplified(g, sharing, r) && Scheduled(g, id) && Left(g, sharing, id)
             && Mentions(r.expr[id], x)
    ensures Left(g, sharing, x)
  {
    assert NodeSimplified(g, sharing, r, id);
    SubstMentions(g, sharing, g.expr[id], x);
    var d: nat :| d < |g.nodes| && Mentions(g.expr[id], d) && Mentions(Target(g, sharing, d), x);
    TargetMentions(g, sharing, d, x);
  }
}

/** optimizeGraph of Combs.cpp: forwarding ports become aliases, equal combs are
    shared, small nodes are inlined, and the schedule shrinks accordingly. Each
    pass is proved against the definitions of CombLeads. */
module CombOptimize {
  import opened Common
  import opened CombGraph
  import opened CombLeads

  // ----- Aliases -----------------------------------------------------------------------------

  /** An alias leads to an earlier node. */
  ghost predicate AliasOk(g: Graph, alias: seq<Option<nat>>) {
    && |alias| == |g.nodes| == |g.rank|
    && forall id | 0 <= id < |alias| && alias[id].Some? ::
         alias[id].value < |alias| && g.rank[alias[id].value] < g.rank[id]
  }

  /** Aliases are acyclic, so following them ends. */
  function Canonical(g: Graph, alias: seq<Option<nat>>, id: nat): (c: nat)
    requires AliasOk(g, alias) && id < |alias|
    ensures c < |alias| && alias[c].None? && g.rank[c] <= g.rank[id] && (alias[id].Some? ==> g.rank[c] < g.rank[id])
    decreases g.rank[id]
  {
    if alias[id].None? then id else Canonical(g, alias, alias[id].value)
  }

  /** canonicalNode. */
  method CanonicalNode(g: Graph, alias: seq<Option<nat>>, id: nat) returns (c: nat)
    requires AliasOk(g, alias) && id < |alias|
    ensures c == Canonical(g, alias, id)
  {
    c := id;
    while alias[c].Some?
      invariant c < |alias| && Canonical(g, alias, c) == Canonical(g, alias, id)
      decreases g.rank[c]
    {
      c := alias[c].value;
    }
  }

  /** The nodes that are aliases once the first `ports` scheduled nodes were
      tried as ports and the first `combs` as combs. */
  function Aliased(g: Graph, ports: nat, combs: nat): (r: seq<Option<nat>>)
    requires GraphOk(g)
    ensures |r| == |g.nodes|
  {
    seq(|g.nodes|, id requires 0 <= id < |g.nodes| =>
      if Forwarding(g, id) && g.rank[id] < ports then Some(ForwardedFrom(g, id))
      else if Shareable(g, id) && g.rank[id] < combs && SharedWith(g, id) != id then Some(SharedWith(g, id))
      else None)
  }

  lemma AliasedOk(g: Graph, ports: nat, combs: nat)
    requires GraphOk(g)
    ensures AliasOk(g, Aliased(g, ports, combs))
  {}

  /** With all ports done, a node leads to the end of its chain. */
  lemma PortsLead(g: Graph, ports: nat, id: nat)
    requires GraphOk(g) && id < |g.nodes| && (Forwarding(g, id) ==> g.rank[id] < ports)
    ensures AliasOk(g, Aliased(g, ports, 0)) && Canonical(g, Aliased(g, ports, 0), id) == ForwardedFrom(g, id)
  {
    AliasedOk(g, ports, 0);
  }

  ghost predicate Done(g: Graph, sharing: bool, alias: seq<Option<nat>>)
    requires GraphOk(g)
  {
    alias == Aliased(g, |g.schedule|, if sharing then |g.schedule| else 0)
  }

  /** With everything done, a node leads to what stands for it. */
  lemma AllLead(g: Graph, sharing: bool, alias: seq<Option<nat>>, id: nat)
    requires GraphOk(g) && Done(g, sharing, alias) && id < |g.nodes|
    ensures AliasOk(g, alias) && Canonical(g, alias, id) == Lead(g, sharing, id)
    ensures alias[id].None? <==> Lead(g, sharing, id) == id
  {
    AliasedOk(g, |g.schedule|, if sharing then |g.schedule| else 0);
    var end := ForwardedFrom(g, id);
    EndLeads(g, sharing, alias, end);
    if Forwarding(g, id) {
      RankIsPlace(g, id);
      assert alias[id] == Some(end);
    }
  }

  lemma EndLeads(g: Graph, sharing: bool, alias: seq<Option<nat>>, end: nat)
    requires GraphOk(g) && Done(g, sharing, alias) && AliasOk(g, alias) && end < |g.nodes| && !Forwarding(g, end)
    ensures Canonical(g, alias, end) == Lead(g, sharing, end)
    ensures alias[end].None? <==> Lead(g, sharing, end) == end
  {
    if Shareable(g, end) {
      RankIsPlace(g, end);
      var first := SharedWith(g, end);
      assert SharedWith(g, first) == first;
      assert alias[first].None?;
    }
  }

  // ----- Replacing ---------------------------------------------------------------------------

  /** What a mentioned node is replaced by. */
  function Replacement(g: Graph, alias: seq<Option<nat>>, inlined: seq<Option<Expr>>, id: nat): Expr
    requires AliasOk(g, alias) && |inlined| == |alias| && id < |alias|
  {
    var c := Canonical(g, alias, id);
    if inlined[c].Some? then inlined[c].value else Ref(c)
  }

  /** replaceAliases. */
  function Replace(g: Graph, alias: seq<Option<nat>>, inlined: seq<Option<Expr>>, e: Expr): Expr
    requires AliasOk(g, alias) && |inlined| == |alias| && InRange(e, |alias|)
    decreases e, 0
  {
    match e
    case Ref(id) => Replacement(g, alias, inlined, id)
    case Apply(op, args) => Apply(op, ReplaceEach(g, alias, inlined, args))
  }

  function ReplaceEach(g: Graph, alias: seq<Option<nat>>, inlined: seq<Option<Expr>>, es: seq<Expr>): (r: seq<Expr>)
    requires AliasOk(g, alias) && |inlined| == |alias| && forall i | 0 <= i < |es| :: InRange(es[i], |alias|)
    ensures |r| == |es|
    decreases es, 1
  {
    seq(|es|, i requires 0 <= i < |es| => Replace(g, alias, inlined, es[i]))
  }

  function Nothing(n: nat): (r: seq<Option<Expr>>)
    ensures |r| == n && forall i | 0 <= i < n :: r[i].None?
  {
    seq(n, i => None)
  }

  /** Where aliases lead as `leads` says, replacing them is renaming. */
  lemma {:induction false} ReplaceRenames(g: Graph, alias: seq<Option<nat>>, leads: seq<nat>, e: Expr)
    requires AliasOk(g, alias) && |leads| == |alias| && InRange(e, |alias|)
    requires forall id | 0 <= id < |leads| :: Canonical(g, alias, id) == leads[id]
    ensures Replace(g, alias, Nothing(|alias|), e) == Renamed(e, leads)
  {
    if e.Apply? {
      forall i | 0 <= i < |e.args| ensures Replace(g, alias, Nothing(|alias|), e.args[i]) == Renamed(e.args[i], leads) {
        ReplaceRenames(g, alias, leads, e.args[i]);
      }
      assert ReplaceEach(g, alias, Nothing(|alias|), e.args) == RenamedEach(e.args, leads);
    }
  }

  /** Renaming twice is renaming once. */
  lemma {:induction false} RenamedTwice(e: Expr, a: seq<nat>, b: seq<nat>, both: seq<nat>)
    requires |a| == |b| == |both| && InRange(e, |a|) && forall id | 0 <= id < |a| :: a[id] < |b| && b[a[id]] == both[id]
    ensures InRange(Renamed(e, a), |b|) && Renamed(Renamed(e, a), b) == Renamed(e, both)
  {
    if e.Apply? {
      forall i | 0 <= i < |e.args|
        ensures InRange(Renamed(e.args[i], a), |b|) && Renamed(Renamed(e.args[i], a), b) == Renamed(e.args[i], both)
      {
        RenamedTwice(e.args[i], a, b, both);
      }
      assert RenamedEach(RenamedEach(e.args, a), b) == RenamedEach(e.args, both);
    }
  }

  // ----- The first pass: forwarding ports --------------------------------------------------------

  /** One scheduled node: a port that only forwards becomes an alias. */
  method AliasPort(g: Graph, alias: seq<Option<nat>>, k: nat) returns (r: seq<Option<nat>>)
    requires GraphOk(g) && k < |g.schedule| && alias == Aliased(g, k, 0)
    ensures r == Aliased(g, k + 1, 0)
  {
    var id := g.schedule[k];
    r := alias;
    if Forwards(g, id) {
      assert g.deps[id][0] in g.deps[id];
      PortsLead(g, k, g.deps[id][0]);
      var c := CanonicalNode(g, alias, g.deps[id][0]);
      r := alias[id := Some(c)];
    }
    forall x: nat | x < |r| ensures r[x] == Aliased(g, k + 1, 0)[x] {
      if Scheduled(g, x) { RankIsPlace(g, x); }
    }
  }

  method AliasPorts(g: Graph) returns (alias: seq<Option<nat>>)
    requires GraphOk(g)
    ensures alias == Aliased(g, |g.schedule|, 0)
  {
    alias := seq(|g.nodes|, id => None);
    assert alias == Aliased(g, 0, 0);
    for k := 0 to |g.schedule|
      invariant alias == Aliased(g, k, 0)
    {
      alias := AliasPort(g, alias, k);
    }
  }

  // ----- Rewriting all nodes ---------------------------------------------------------------------

  /** sort and unique. */
  function Inserted(ids: seq<nat>, x: nat): (r: seq<nat>)
    ensures forall y :: y in r <==> y in ids || y == x
    ensures Increasing(ids) ==> Increasing(r)
  {
    if ids == [] then [x]
    else if x < ids[0] then [x] + ids
    else if x == ids[0] then ids
    else
      var rest := Inserted(ids[1..], x);
      assert ids == [ids[0]] + ids[1..];
      if Increasing(ids) then
        FirstIsLeast(ids, rest, x);
        [ids[0]] + rest
      else [ids[0]] + rest
  }

  lemma FirstIsLeast(ids: seq<nat>, rest: seq<nat>, x: nat)
    requires Increasing(ids) && Increasing(rest) && ids != [] && ids[0] < x
             && forall y :: y in rest <==> y in ids[1..] || y == x
    ensures Increasing([ids[0]] + rest)
  {
    forall j | 0 <= j < |rest| ensures ids[0] < rest[j] {
      assert rest[j] in rest;
      if rest[j] != x {
        var k :| 0 <= k < |ids[1..]| && ids[1..][k] == rest[j];
        assert ids[k + 1] == rest[j];
      }
    }
  }

  function SortedUnique(ids: seq<nat>): (r: seq<nat>)
    ensures (forall y :: y in r <==> y in ids) && Increasing(r)
  {
    if ids == [] then []
    else
      var r := Inserted(SortedUnique(ids[1..]), ids[0]);
      assert ids == [ids[0]] + ids[1..];
      r
  }

  function CanonicalDeps(g: Graph, alias: seq<Option<nat>>, ids: seq<nat>): (r: seq<nat>)
    requires AliasOk(g, alias) && forall k | 0 <= k < |ids| :: ids[k] < |alias|
    ensures |r| == |ids| && forall k | 0 <= k < |ids| :: r[k] == Canonical(g, alias, ids[k])
  {
    seq(|ids|, k requires 0 <= k < |ids| => Canonical(g, alias, ids[k]))
  }

  ghost predicate IdsOk(deps: seq<seq<nat>>) {
    forall id, k | 0 <= id < |deps| && 0 <= k < |deps[id]| :: deps[id][k] < |deps|
  }

  ghost predicate ExprsOk(expr: seq<Expr>) { forall id | 0 <= id < |expr| :: InRange(expr[id], |expr|) }

  function RewrittenExpr(g: Graph, alias: seq<Option<nat>>, expr: seq<Expr>, id: nat): (r: Expr)
    requires AliasOk(g, alias) && |expr| == |alias| && ExprsOk(expr) && id < |expr|
  {
    if id in g.schedule && alias[id].None? then Replace(g, alias, Nothing(|alias|), expr[id]) else expr[id]
  }

  function RewrittenDeps(g: Graph, alias: seq<Option<nat>>, deps: seq<seq<nat>>, id: nat): (r: seq<nat>)
    requires AliasOk(g, alias) && |deps| == |alias| && IdsOk(deps) && id < |deps|
  {
    if id in g.schedule && alias[id].None? then SortedUnique(CanonicalDeps(g, alias, deps[id])) else deps[id]
  }

  /** The loop over all prepared nodes that are no alias. */
  method RewriteAll(g: Graph, alias: seq<Option<nat>>, expr: seq<Expr>, deps: seq<seq<nat>>)
    returns (expr': seq<Expr>, deps': seq<seq<nat>>)
    requires AliasOk(g, alias) && |expr| == |deps| == |alias| && ExprsOk(expr) && IdsOk(deps)
    ensures |expr'| == |deps'| == |alias|
    ensures forall id: nat | id < |alias| :: expr'[id] == RewrittenExpr(g, alias, expr, id)
    ensures forall id: nat | id < |alias| :: deps'[id] == RewrittenDeps(g, alias, deps, id)
  {
    expr', deps' := expr, deps;
    for n := 0 to |alias|
      invariant |expr'| == |deps'| == |alias|
      invariant forall id: nat | id < |alias| ::
                  expr'[id] == if id < n then RewrittenExpr(g, alias, expr, id) else expr[id]
      invariant forall id: nat | id < |alias| ::
                  deps'[id] == if id < n then RewrittenDeps(g, alias, deps, id) else deps[id]
    {
      if n in g.schedule && alias[n].None? {
        expr' := expr'[n := Replace(g, alias, Nothing(|alias|), expr'[n])];
        deps' := deps'[n := SortedUnique(CanonicalDeps(g, alias, deps'[n]))];
      }
    }
  }

  /** `deps` are what `kept` leads to. */
  ghost predicate LedDeps(kept: seq<nat>, leads: seq<nat>, deps: seq<nat>) {
    forall r: nat :: r in deps <==> LeadsTo(kept, leads, r)
  }

  ghost predicate LeadsTo(ids: seq<nat>, leads: seq<nat>, r: nat) {
    exists d: nat {:trigger d in ids} :: d in ids && d < |leads| && leads[d] == r
  }

  /** The prepared nodes with every mention and dependency led as `leads` says. */
  ghost predicate Led(g: Graph, leads: seq<nat>, expr: seq<Expr>, deps: seq<seq<nat>>)
    requires GraphOk(g) && |leads| == |g.nodes|
  {
    && |expr| == |deps| == |g.nodes| && ExprsOk(expr) && IdsOk(deps)
    && forall id: nat | Scheduled(g, id) && id < |g.nodes| && leads[id] == id ::
         expr[id] == Renamed(g.expr[id], leads) && LedDeps(g.deps[id], leads, deps[id])
  }

  /** The nodes from which one more pass makes them so. */
  ghost predicate AlmostLed(g: Graph, leads: seq<nat>, expr: seq<Expr>, deps: seq<seq<nat>>)
    requires GraphOk(g) && |leads| == |g.nodes|
  {
    && |expr| == |deps| == |g.nodes| && ExprsOk(expr) && IdsOk(deps)
    && forall id: nat | Scheduled(g, id) && id < |g.nodes| && leads[id] == id ::
         && Renamed(expr[id], leads) == Renamed(g.expr[id], leads)
         && forall r: nat :: LeadsTo(deps[id], leads, r) <==> LeadsTo(g.deps[id], leads, r)
  }

  lemma RewriteLeads(g: Graph, alias: seq<Option<nat>>, leads: seq<nat>, expr: seq<Expr>, deps: seq<seq<nat>>,
                     expr': seq<Expr>, deps': seq<seq<nat>>)
    requires GraphOk(g) && AliasOk(g, alias) && |leads| == |alias| && AlmostLed(g, leads, expr, deps)
    requires forall id | 0 <= id < |leads| ::
               Canonical(g, alias, id) == leads[id] && (alias[id].None? <==> leads[id] == id)
    requires |expr'| == |deps'| == |alias|
    requires forall id: nat | id < |alias| :: expr'[id] == RewrittenExpr(g, alias, expr, id)
    requires forall id: nat | id < |alias| :: deps'[id] == RewrittenDeps(g, alias, deps, id)
    ensures Led(g, leads, expr', deps')
  {
    forall id: nat | id < |alias|
      ensures InRange(expr'[id], |expr'|) && forall k | 0 <= k < |deps'[id]| :: deps'[id][k] < |deps'|
      ensures Scheduled(g, id) && leads[id] == id ==>
              expr'[id] == Renamed(g.expr[id], leads) && LedDeps(g.deps[id], leads, deps'[id])
    {
      RewriteLeadsAt(g, alias, leads, expr, deps, id);
    }
  }

  lemma RewriteLeadsAt(g: Graph, alias: seq<Option<nat>>, leads: seq<nat>, expr: seq<Expr>, deps: seq<seq<nat>>,
                       id: nat)
    requires GraphOk(g) && AliasOk(g, alias) && |leads| == |alias| && AlmostLed(g, leads, expr, deps) && id < |alias|
    requires forall x | 0 <= x < |leads| :: Canonical(g, alias, x) == leads[x] && (alias[x].None? <==> leads[x] == x)
    ensures InRange(RewrittenExpr(g, alias, expr, id), |expr|)
    ensures forall k | 0 <= k < |RewrittenDeps(g, alias, deps, id)| :: RewrittenDeps(g, alias, deps, id)[k] < |deps|
    ensures Scheduled(g, id) && leads[id] == id ==>
              RewrittenExpr(g, alias, expr, id) == Renamed(g.expr[id], leads)
                && LedDeps(g.deps[id], leads, RewrittenDeps(g, alias, deps, id))
  {
    if id in g.schedule && alias[id].None? {
      RewriteExprAt(g, alias, leads, expr, deps, id);
      RewrittenDepsLed(g, alias, leads, deps[id]);
      LedAlike(g.deps[id], deps[id], leads, RewrittenDeps(g, alias, deps, id));
    }
  }

  lemma RewriteExprAt(g: Graph, alias: seq<Option<nat>>, leads: seq<nat>, expr: seq<Expr>, deps: seq<seq<nat>>, id: nat)
    requires GraphOk(g) && AliasOk(g, alias) && |leads| == |alias| && AlmostLed(g, leads, expr, deps) && id < |alias|
    requires forall x | 0 <= x < |leads| :: Canonical(g, alias, x) == leads[x]
    requires Scheduled(g, id) && alias[id].None? && leads[id] == id
    ensures InRange(RewrittenExpr(g, alias, expr, id), |expr|)
            && RewrittenExpr(g, alias, expr, id) == Renamed(g.expr[id], leads)
  {
    ReplaceRenames(g, alias, leads, expr[id]);
    RenamedInRange(g.expr[id], leads);
  }

  lemma LedAlike(kept: seq<nat>, deps: seq<nat>, leads: seq<nat>, r: seq<nat>)
    requires LedDeps(deps, leads, r) && forall x: nat :: LeadsTo(deps, leads, x) <==> LeadsTo(kept, leads, x)
    ensures LedDeps(kept, leads, r)
  {}

  lemma RewrittenDepsLed(g: Graph, alias: seq<Option<nat>>, leads: seq<nat>, ids: seq<nat>)
    requires AliasOk(g, alias) && |leads| == |alias| && forall k | 0 <= k < |ids| :: ids[k] < |alias|
    requires forall x | 0 <= x < |leads| :: Canonical(g, alias, x) == leads[x]
    ensures var r := SortedUnique(CanonicalDeps(g, alias, ids));
            LedDeps(ids, leads, r) && forall k | 0 <= k < |r| :: r[k] < |alias|
  {
    var c := CanonicalDeps(g, alias, ids);
    var r := SortedUnique(c);
    forall x: nat ensures x in r <==> LeadsTo(ids, leads, x) {
      if x in r {
        var k :| 0 <= k < |c| && c[k] == x;
        assert ids[k] in ids;
      }
      if LeadsTo(ids, leads, x) {
        var d: nat :| d in ids && d < |leads| && leads[d] == x;
        var k :| 0 <= k < |ids| && ids[k] == d;
        assert c[k] == x;
      }
    }
    forall k | 0 <= k < |r| ensures r[k] < |alias| {
      assert r[k] in r;
      var j :| 0 <= j < |c| && c[j] == r[k];
    }
  }

  lemma {:induction false} RenamedInRange(e: Expr, leads: seq<nat>)
    requires InRange(e, |leads|) && forall id | 0 <= id < |leads| :: leads[id] < |leads|
    ensures InRange(Renamed(e, leads), |leads|)
  {
    if e.Apply? {
      forall i | 0 <= i < |e.args| ensures InRange(Renamed(e.args[i], leads), |leads|) {
        RenamedInRange(e.args[i], leads);
      }
    }
  }

  /** Aliases of ports, and everything rewritten with them. */
  method RenamePorts(g: Graph) returns (alias: seq<Option<nat>>, expr: seq<Expr>, deps: seq<seq<nat>>)
    requires GraphOk(g)
    ensures alias == Aliased(g, |g.schedule|, 0) && Led(g, Forwarded(g), expr, deps)
  {
    alias := AliasPorts(g);
    AliasedOk(g, |g.schedule|, 0);
    expr, deps := RewriteAll(g, alias, g.expr, g.deps);
    PortsLeadAll(g, alias);
    RewriteLeads(g, alias, Forwarded(g), g.expr, g.deps, expr, deps);
  }

  lemma PortsLeadAll(g: Graph, alias: seq<Option<nat>>)
    requires GraphOk(g) && alias == Aliased(g, |g.schedule|, 0)
    ensures AliasOk(g, alias)
    ensures forall id: nat | id < |alias| ::
              Canonical(g, alias, id) == ForwardedFrom(g, id) && (alias[id].None? <==> ForwardedFrom(g, id) == id)
  {
    AliasedOk(g, |g.schedule|, 0);
    forall id: nat | id < |alias|
      ensures Canonical(g, alias, id) == ForwardedFrom(g, id) && (alias[id].None? <==> ForwardedFrom(g, id) == id)
    {
      if Forwarding(g, id) { RankIsPlace(g, id); }
      PortsLead(g, |g.schedule|, id);
    }
  }

  // ----- The second pass: equal combs ------------------------------------------------------------

  /** What is known of keys after `k` nodes: the first comb that has each. */
  ghost predicate KnownOk(g: Graph, known: map<SharedKey, nat>, k: nat)
    requires GraphOk(g) && k <= |g.schedule|
  {
    forall key: SharedKey :: FirstAlike(g, key, k) == if key in known then Some(known[key]) else None
  }

  lemma FirstStays(g: Graph, key: SharedKey, k: nat, n: nat)
    requires GraphOk(g) && k <= n <= |g.schedule| && FirstAlike(g, key, k).Some?
    ensures FirstAlike(g, key, n) == FirstAlike(g, key, k)
  {
    FirstInStays(Keys(g), key, k, n);
  }

  lemma FirstInStays(keys: seq<Option<SharedKey>>, key: SharedKey, k: nat, n: nat)
    requires k <= n <= |keys| && FirstIn(keys, key, k).Some?
    ensures FirstIn(keys, key, n) == FirstIn(keys, key, k)
  {
    var i := FirstIn(keys, key, k).value;
    assert keys[i] == Some(key);
  }

  /** One scheduled node: a direct comb with a known key becomes an alias. */
  method ShareComb(g: Graph, alias: seq<Option<nat>>, known: map<SharedKey, nat>, expr: seq<Expr>,
                   ghost deps: seq<seq<nat>>, k: nat)
    returns (alias': seq<Option<nat>>, known': map<SharedKey, nat>)
    requires GraphOk(g) && k < |g.schedule| && alias == Aliased(g, |g.schedule|, k) && KnownOk(g, known, k)
    requires Led(g, Forwarded(g), expr, deps)
    ensures alias' == Aliased(g, |g.schedule|, k + 1) && KnownOk(g, known', k + 1)
  {
    var id := g.schedule[k];
    alias', known' := alias, known;
    var node := g.nodes[id];
    if node.kind.Comb? && node.direct && alias[id].None? && id !in g.dynamicNodes && node.key.Some? {
      var key := SharedKey(node.instance, node.key.value, expr[id]);
      assert Shareable(g, id) && key == KeyOf(g, id);
      alias', known' := ShareKey(g, alias, known, key, k);
    } else {
      KnownNext(g, known, k);
    }
    SharedNext(g, alias, alias', k);
  }

  method ShareKey(g: Graph, alias: seq<Option<nat>>, known: map<SharedKey, nat>, key: SharedKey, k: nat)
    returns (alias': seq<Option<nat>>, known': map<SharedKey, nat>)
    requires GraphOk(g) && k < |g.schedule| && alias == Aliased(g, |g.schedule|, k) && KnownOk(g, known, k)
    requires Shareable(g, g.schedule[k]) && key == KeyOf(g, g.schedule[k]) && alias[g.schedule[k]].None?
    ensures var id := g.schedule[k];
            alias' == alias[id := if SharedWith(g, id) != id then Some(SharedWith(g, id)) else None]
    ensures KnownOk(g, known', k + 1)
  {
    var id := g.schedule[k];
    alias', known' := alias, known;
    if key in known {
      SharedStep(g, alias, id, known[key], k);
      var c := CanonicalNode(g, alias, known[key]);
      alias' := alias[id := Some(c)];
    } else {
      known' := known[key := id];
      NewKey(g, known, k);
    }
    KnownNext(g, known, k);
  }

  lemma NewKey(g: Graph, known: map<SharedKey, nat>, k: nat)
    requires GraphOk(g) && k < |g.schedule| && KnownOk(g, known, k) && Shareable(g, g.schedule[k])
    requires KeyOf(g, g.schedule[k]) !in known
    ensures SharedWith(g, g.schedule[k]) == g.schedule[k]
  {
    var key := KeyOf(g, g.schedule[k]);
    assert FirstAlike(g, key, k).None?;
    FirstStays(g, key, k + 1, |g.schedule|);
  }

  lemma KnownNext(g: Graph, known: map<SharedKey, nat>, k: nat)
    requires GraphOk(g) && k < |g.schedule| && KnownOk(g, known, k)
    ensures var id := g.schedule[k];
            KnownOk(g, if Shareable(g, id) && KeyOf(g, id) !in known then known[KeyOf(g, id) := id] else known, k + 1)
  {
    var id := g.schedule[k];
    var next := if Shareable(g, id) && KeyOf(g, id) !in known then known[KeyOf(g, id) := id] else known;
    forall key: SharedKey ensures FirstAlike(g, key, k + 1) == if key in next then Some(next[key]) else None {
      assert FirstAlike(g, key, k) == if key in known then Some(known[key]) else None;
    }
  }

  lemma SharedStep(g: Graph, alias: seq<Option<nat>>, id: nat, x: nat, k: nat)
    requires GraphOk(g) && k < |g.schedule| && alias == Aliased(g, |g.schedule|, k) && Shareable(g, id)
    requires FirstAlike(g, KeyOf(g, id), k) == Some(x) && g.rank[id] == k
    ensures AliasOk(g, alias) && x < |alias| && Canonical(g, alias, x) == x && SharedWith(g, id) == x && x != id
  {
    AliasedOk(g, |g.schedule|, k);
    FirstStays(g, KeyOf(g, id), k, |g.schedule|);
    assert SharedWith(g, x) == x;
  }

  lemma SharedNext(g: Graph, alias: seq<Option<nat>>, alias': seq<Option<nat>>, k: nat)
    requires GraphOk(g) && k < |g.schedule| && alias == Aliased(g, |g.schedule|, k)
    requires var id := g.schedule[k];
             alias' == alias[id := if Shareable(g, id) && SharedWith(g, id) != id then Some(SharedWith(g, id))
                                   else alias[id]]
    ensures alias' == Aliased(g, |g.schedule|, k + 1)
  {
    forall x: nat | x < |alias'| ensures alias'[x] == Aliased(g, |g.schedule|, k + 1)[x] { RankPlace(g, x, k); }
  }

  method ShareCombs(g: Graph, ports: seq<Option<nat>>, expr: seq<Expr>, ghost deps: seq<seq<nat>>)
    returns (alias: seq<Option<nat>>)
    requires GraphOk(g) && ports == Aliased(g, |g.schedule|, 0) && Led(g, Forwarded(g), expr, deps)
    ensures Done(g, true, alias)
  {
    alias := ports;
    var known: map<SharedKey, nat> := map[];
    for k := 0 to |g.schedule|
      invariant alias == Aliased(g, |g.schedule|, k) && KnownOk(g, known, k)
    {
      alias, known := ShareComb(g, alias, known, expr, deps, k);
    }
  }

  lemma SecondPass(g: Graph, expr: seq<Expr>, deps: seq<seq<nat>>)
    requires GraphOk(g) && Led(g, Forwarded(g), expr, deps)
    ensures AlmostLed(g, Leads(g, true), expr, deps)
  {
    var led, all := Forwarded(g), Leads(g, true);
    forall id: nat | id < |g.nodes| ensures Lead(g, true, ForwardedFrom(g, id)) == Lead(g, true, id) {
      LeadOnce(g, true, id);
    }
    forall id: nat | Scheduled(g, id) && id < |g.nodes| && all[id] == id
      ensures Renamed(expr[id], all) == Renamed(g.expr[id], all)
      ensures forall r: nat :: LeadsTo(deps[id], all, r) <==> LeadsTo(g.deps[id], all, r)
    {
      RenamedTwice(g.expr[id], led, all, all);
      LeadsTwice(g.deps[id], deps[id], led, all);
    }
  }

  lemma LeadsTwice(kept: seq<nat>, deps: seq<nat>, a: seq<nat>, b: seq<nat>)
    requires |a| == |b| && LedDeps(kept, a, deps) && forall id | 0 <= id < |a| :: a[id] < |b| && b[a[id]] == b[id]
    ensures forall r: nat :: LeadsTo(deps, b, r) <==> LeadsTo(kept, b, r)
  {
    forall r: nat ensures LeadsTo(deps, b, r) <==> LeadsTo(kept, b, r) {
      if LeadsTo(deps, b, r) {
        var y: nat :| y in deps && y < |b| && b[y] == r;
        var d: nat :| d in kept && d < |a| && a[d] == y;
      }
      if LeadsTo(kept, b, r) {
        var d: nat :| d in kept && d < |b| && b[d] == r;
        assert LeadsTo(kept, a, a[d]);
      }
    }
  }

  /** The two alias passes and the rewriting after each. */
  method Rename(g: Graph, sharing: bool) returns (alias: seq<Option<nat>>, expr: seq<Expr>, deps: seq<seq<nat>>)
    requires GraphOk(g)
    ensures Done(g, sharing, alias) && Led(g, Leads(g, sharing), expr, deps)
  {
    alias, expr, deps := RenamePorts(g);
    if sharing {
      alias, expr, deps := RenameCombs(g, alias, expr, deps);
    } else {
      assert Forwarded(g) == Leads(g, false);
    }
  }

  /** Aliases of equal combs, and everything rewritten with them. */
  method RenameCombs(g: Graph, ports: seq<Option<nat>>, expr: seq<Expr>, deps: seq<seq<nat>>)
    returns (alias: seq<Option<nat>>, expr': seq<Expr>, deps': seq<seq<nat>>)
    requires GraphOk(g) && ports == Aliased(g, |g.schedule|, 0) && Led(g, Forwarded(g), expr, deps)
    ensures Done(g, true, alias) && Led(g, Leads(g, true), expr', deps')
  {
    alias := ShareCombs(g, ports, expr, deps);
    SecondPass(g, expr, deps);
    forall id: nat | id < |alias|
      ensures Canonical(g, alias, id) == Leads(g, true)[id] && (alias[id].None? <==> Leads(g, true)[id] == id)
    {
      AllLead(g, true, alias, id);
    }
    AliasedOk(g, |g.schedule|, |g.schedule|);
    expr', deps' := RewriteAll(g, alias, expr, deps);
    RewriteLeads(g, alias, Leads(g, true), expr, deps, expr', deps');
  }

  // ----- The third pass: inlining ------------------------------------------------------------------

  /** What is inlined after the first `k` scheduled nodes. */
  ghost function InlinedTo(g: Graph, sharing: bool, k: nat): (r: seq<Option<Expr>>)
    requires GraphOk(g)
    ensures |r| == |g.nodes|
  {
    seq(|g.nodes|, id requires 0 <= id < |g.nodes| =>
      if Inlines(g, sharing, id) && g.rank[id] < k then Some(Subst(g, sharing, g.expr[id])) else None)
  }

  /** Whatever `d` leads to is decided. */
  ghost predicate Decided(g: Graph, sharing: bool, inlined: seq<Option<Expr>>, d: nat)
    requires GraphOk(g) && |inlined| == |g.nodes| && d < |g.nodes|
  {
    var c := Lead(g, sharing, d);
    inlined[c] == if Inlines(g, sharing, c) then Some(Subst(g, sharing, g.expr[c])) else None
  }

  /** Replacing in a renamed expression gives the final expression. */
  lemma ReplaceIsSubst(g: Graph, sharing: bool, alias: seq<Option<nat>>, inlined: seq<Option<Expr>>, e: Expr)
    requires GraphOk(g) && Done(g, sharing, alias) && AliasOk(g, alias) && |inlined| == |g.nodes| && Flat(e, |g.nodes|)
    requires forall d: nat | d < |g.nodes| && Mentions(e, d) :: Decided(g, sharing, inlined, d)
    ensures InRange(Renamed(e, Leads(g, sharing)), |g.nodes|)
    ensures Replace(g, alias, inlined, Renamed(e, Leads(g, sharing))) == Subst(g, sharing, e)
  {
    RenamedInRange(e, Leads(g, sharing));
    if e.Ref? {
      ReplacementIsTarget(g, sharing, alias, inlined, e.id);
    } else {
      var es := RenamedEach(e.args, Leads(g, sharing));
      assert Refs(e.args, |g.nodes|);
      forall i | 0 <= i < |e.args| ensures Replace(g, alias, inlined, es[i]) == Target(g, sharing, e.args[i].id) {
        assert e.args[i].Ref? && es[i] == Renamed(e.args[i], Leads(g, sharing));
        OperandMentioned(e, i);
        ReplacementIsTarget(g, sharing, alias, inlined, e.args[i].id);
      }
      assert ReplaceEach(g, alias, inlined, es) == Operands(g, sharing, e.args);
    }
  }

  lemma ReplacementIsTarget(g: Graph, sharing: bool, alias: seq<Option<nat>>, inlined: seq<Option<Expr>>, d: nat)
    requires GraphOk(g) && Done(g, sharing, alias) && AliasOk(g, alias) && |inlined| == |g.nodes| && d < |g.nodes|
    requires Decided(g, sharing, inlined, d)
    ensures Replacement(g, alias, inlined, Lead(g, sharing, d)) == Target(g, sharing, d)
  {
    LeadOnce(g, sharing, d);
    AllLead(g, sharing, alias, Lead(g, sharing, d));
    TargetIs(g, sharing, d);
  }

  /** One scheduled node: an eager inlinable one that is left is inlined. */
  method InlineNode(g: Graph, sharing: bool, alias: seq<Option<nat>>, expr: seq<Expr>, ghost deps: seq<seq<nat>>,
                    inlined: seq<Option<Expr>>, k: nat)
    returns (r: seq<Option<Expr>>)
    requires GraphOk(g) && Done(g, sharing, alias) && Led(g, Leads(g, sharing), expr, deps)
    requires k < |g.schedule| && inlined == InlinedTo(g, sharing, k)
    ensures r == InlinedTo(g, sharing, k + 1)
  {
    var id := g.schedule[k];
    AllLead(g, sharing, alias, id);
    r := inlined;
    if id !in g.dynamicNodes && alias[id].None? && id in g.inlinable {
      EarlierDecided(g, sharing, id);
      ReplaceIsSubst(g, sharing, alias, inlined, g.expr[id]);
      r := inlined[id := Some(Replace(g, alias, inlined, expr[id]))];
    }
    InlinedNext(g, sharing, inlined, r, k);
  }

  lemma InlinedNext(g: Graph, sharing: bool, inlined: seq<Option<Expr>>, r: seq<Option<Expr>>, k: nat)
    requires GraphOk(g) && k < |g.schedule| && inlined == InlinedTo(g, sharing, k)
    requires var id := g.schedule[k];
             r == inlined[id := if Inlines(g, sharing, id) then Some(Subst(g, sharing, g.expr[id])) else None]
    ensures r == InlinedTo(g, sharing, k + 1)
  {
    forall x: nat | x < |r| ensures r[x] == InlinedTo(g, sharing, k + 1)[x] { RankPlace(g, x, k); }
  }

  lemma RankPlace(g: Graph, x: nat, k: nat)
    requires Sized(g) && k < |g.schedule|
    ensures Scheduled(g, x) && x < |g.rank| && g.rank[x] == k ==> x == g.schedule[k]
  {
    if Scheduled(g, x) { RankIsPlace(g, x); }
  }

  lemma EarlierDecided(g: Graph, sharing: bool, id: nat)
    requires GraphOk(g) && id < |g.nodes| && Eager(g, id)
    ensures forall d: nat | d < |g.nodes| && Mentions(g.expr[id], d) ::
              Decided(g, sharing, InlinedTo(g, sharing, g.rank[id]), d)
  {
    forall d: nat | d < |g.nodes| && Mentions(g.expr[id], d)
      ensures Decided(g, sharing, InlinedTo(g, sharing, g.rank[id]), d)
    {
      OperandEarlier(g, id, d);
    }
  }

  method InlineNodes(g: Graph, sharing: bool, alias: seq<Option<nat>>, expr: seq<Expr>, ghost deps: seq<seq<nat>>)
    returns (inlined: seq<Option<Expr>>)
    requires GraphOk(g) && Done(g, sharing, alias) && Led(g, Leads(g, sharing), expr, deps)
    ensures inlined == InlinedTo(g, sharing, |g.schedule|)
  {
    inlined := Nothing(|g.nodes|);
    assert inlined == InlinedTo(g, sharing, 0);
    for k := 0 to |g.schedule|
      invariant inlined == InlinedTo(g, sharing, k)
    {
      inlined := InlineNode(g, sharing, alias, expr, deps, inlined, k);
    }
  }

  lemma AllDecided(g: Graph, sharing: bool, d: nat)
    requires GraphOk(g) && d < |g.nodes|
    ensures Decided(g, sharing, InlinedTo(g, sharing, |g.schedule|), d)
  {
    var c := Lead(g, sharing, d);
    if Inlines(g, sharing, c) { RankIsPlace(g, c); }
  }

  // ----- Concrete dependencies -----------------------------------------------------------------------

  /** What the recursion over inlined nodes walks on: aliases, inlined
      expressions and dependencies after all passes. */
  datatype Passed = Passed(alias: seq<Option<nat>>, inlined: seq<Option<Expr>>, expr: seq<Expr>, deps: seq<seq<nat>>)

  ghost predicate PassedOk(g: Graph, sharing: bool, s: Passed)
    requires GraphOk(g)
  {
    && Done(g, sharing, s.alias) && AliasOk(g, s.alias) && s.inlined == InlinedTo(g, sharing, |g.schedule|)
    && Led(g, Leads(g, sharing), s.expr, s.deps)
  }

  /** Dependencies of a scheduled node that is left or inlined are earlier. */
  lemma DepsEarlier(g: Graph, sharing: bool, s: Passed, id: nat)
    requires GraphOk(g) && PassedOk(g, sharing, s) && Scheduled(g, id) && id < |g.nodes| && Lead(g, sharing, id) == id
    ensures forall k | 0 <= k < |s.deps[id]| :: s.deps[id][k] < |g.nodes| && g.rank[s.deps[id][k]] < g.rank[id]
  {
    forall k | 0 <= k < |s.deps[id]| ensures s.deps[id][k] < |g.nodes| && g.rank[s.deps[id][k]] < g.rank[id] {
      assert s.deps[id][k] in s.deps[id];
      assert LeadsTo(g.deps[id], Leads(g, sharing), s.deps[id][k]);
    }
  }

  lemma InlinedIs(g: Graph, sharing: bool, s: Passed, id: nat)
    requires GraphOk(g) && PassedOk(g, sharing, s) && id < |g.nodes|
    ensures Canonical(g, s.alias, id) == Lead(g, sharing, id)
    ensures s.inlined[id].Some? <==> Inlines(g, sharing, id)
  {
    AllLead(g, sharing, s.alias, id);
    if Inlines(g, sharing, id) { RankIsPlace(g, id); }
  }

  /** Neither alias nor inlined: exactly what is left. */
  lemma LeftIs(g: Graph, sharing: bool, s: Passed, id: nat)
    requires GraphOk(g) && PassedOk(g, sharing, s) && id < |g.nodes|
    ensures s.alias[id].None? && s.inlined[id].None? <==> Left(g, sharing, id)
  {
    AllLead(g, sharing, s.alias, id);
    InlinedIs(g, sharing, s, id);
  }

  /** addConcreteDependencies. */
  function Concrete(g: Graph, sharing: bool, s: Passed, id: nat): (r: seq<nat>)
    requires GraphOk(g) && PassedOk(g, sharing, s) && id < |g.nodes|
    ensures forall k | 0 <= k < |r| :: r[k] < |g.nodes|
    decreases g.rank[id], 1, 0
  {
    var c := Canonical(g, s.alias, id);
    InlinedIs(g, sharing, s, id);
    InlinedIs(g, sharing, s, c);
    if s.inlined[c].Some? then
      DepsEarlier(g, sharing, s, c);
      ConcreteAll(g, sharing, s, s.deps[c], g.rank[c])
    else [c]
  }

  function ConcreteAll(g: Graph, sharing: bool, s: Passed, ids: seq<nat>, ghost bound: nat): (r: seq<nat>)
    requires GraphOk(g) && PassedOk(g, sharing, s)
    requires forall k | 0 <= k < |ids| :: ids[k] < |g.nodes| && g.rank[ids[k]] < bound
    ensures forall k | 0 <= k < |r| :: r[k] < |g.nodes|
    decreases bound, 0, |ids|
  {
    if ids == [] then [] else Concrete(g, sharing, s, ids[0]) + ConcreteAll(g, sharing, s, ids[1..], bound)
  }

  lemma {:induction false} ConcreteAllHas(g: Graph, sharing: bool, s: Passed, ids: seq<nat>, bound: nat, r: nat)
    requires GraphOk(g) && PassedOk(g, sharing, s)
    requires forall k | 0 <= k < |ids| :: ids[k] < |g.nodes| && g.rank[ids[k]] < bound
    ensures r in ConcreteAll(g, sharing, s, ids, bound)
            <==> exists k :: 0 <= k < |ids| && r in Concrete(g, sharing, s, ids[k])
    decreases |ids|
  {
    if ids != [] {
      ConcreteFirst(g, sharing, s, ids, bound, r);
      ConcreteAllHas(g, sharing, s, ids[1..], bound, r);
      if k :| 0 <= k < |ids[1..]| && r in Concrete(g, sharing, s, ids[1..][k]) { assert ids[1..][k] == ids[k + 1]; }
      if k :| 0 <= k < |ids| && r in Concrete(g, sharing, s, ids[k]) {
        if k > 0 { assert ids[1..][k - 1] == ids[k]; }
      }
    }
  }

  lemma ConcreteFirst(g: Graph, sharing: bool, s: Passed, ids: seq<nat>, bound: nat, r: nat)
    requires GraphOk(g) && PassedOk(g, sharing, s) && ids != []
    requires forall k | 0 <= k < |ids| :: ids[k] < |g.nodes| && g.rank[ids[k]] < bound
    ensures r in ConcreteAll(g, sharing, s, ids, bound)
       <==> r in Concrete(g, sharing, s, ids[0]) || r in ConcreteAll(g, sharing, s, ids[1..], bound)
  {}

  /** The concrete dependencies of a node are what its target mentions. */
  lemma {:induction false} ConcreteExact(g: Graph, sharing: bool, s: Passed, id: nat, r: nat)
    requires GraphOk(g) && PassedOk(g, sharing, s) && id < |g.nodes|
    ensures r in Concrete(g, sharing, s, id) <==> Mentions(Target(g, sharing, id), r)
    decreases g.rank[id], 1
  {
    var c := Lead(g, sharing, id);
    InlinedIs(g, sharing, s, id);
    InlinedIs(g, sharing, s, c);
    TargetIs(g, sharing, id);
    if Inlines(g, sharing, c) {
      DepsEarlier(g, sharing, s, c);
      ConcreteLed(g, sharing, s, c, r);
      SubstMentions(g, sharing, g.expr[c], r);
      MentionsLed(g, sharing, c, r);
    }
  }

  /** The recursion yields what the kept dependencies of a node lead to. */
  lemma {:induction false} ConcreteLed(g: Graph, sharing: bool, s: Passed, id: nat, r: nat)
    requires GraphOk(g) && PassedOk(g, sharing, s) && Scheduled(g, id) && id < |g.nodes| && Lead(g, sharing, id) == id
    requires forall k | 0 <= k < |s.deps[id]| :: s.deps[id][k] < |g.nodes| && g.rank[s.deps[id][k]] < g.rank[id]
    ensures r in ConcreteAll(g, sharing, s, s.deps[id], g.rank[id]) <==> LedTo(g, sharing, g.deps[id], r)
    decreases g.rank[id], 0
  {
    var ids := s.deps[id];
    ConcreteAllHas(g, sharing, s, ids, g.rank[id], r);
    forall k | 0 <= k < |ids|
      ensures r in Concrete(g, sharing, s, ids[k]) <==> Mentions(Target(g, sharing, ids[k]), r)
    {
      ConcreteExact(g, sharing, s, ids[k], r);
    }
    LedMentions(g, sharing, g.deps[id], ids, r);
  }

  /** Mentions through dependencies and through what they lead to are the same. */
  lemma LedMentions(g: Graph, sharing: bool, kept: seq<nat>, ids: seq<nat>, r: nat)
    requires GraphOk(g) && LedDeps(kept, Leads(g, sharing), ids) && forall k | 0 <= k < |ids| :: ids[k] < |g.nodes|
    ensures (exists k :: 0 <= k < |ids| && Mentions(Target(g, sharing, ids[k]), r)) <==> LedTo(g, sharing, kept, r)
  {
    if k :| 0 <= k < |ids| && Mentions(Target(g, sharing, ids[k]), r) { LedBack(g, sharing, kept, ids, k, r); }
    if LedTo(g, sharing, kept, r) { var k := LedOn(g, sharing, kept, ids, r); }
  }

  lemma LedBack(g: Graph, sharing: bool, kept: seq<nat>, ids: seq<nat>, k: nat, r: nat)
    requires GraphOk(g) && LedDeps(kept, Leads(g, sharing), ids) && k < |ids| && ids[k] < |g.nodes|
    requires Mentions(Target(g, sharing, ids[k]), r)
    ensures LedTo(g, sharing, kept, r)
  {
    assert LeadsTo(kept, Leads(g, sharing), ids[k]);
    var d: nat :| d in kept && d < |g.nodes| && Leads(g, sharing)[d] == ids[k];
    TargetOfLead(g, sharing, d);
  }

  lemma LedOn(g: Graph, sharing: bool, kept: seq<nat>, ids: seq<nat>, r: nat) returns (k: nat)
    requires GraphOk(g) && LedDeps(kept, Leads(g, sharing), ids) && LedTo(g, sharing, kept, r)
    ensures k < |ids| && ids[k] < |g.nodes| && Mentions(Target(g, sharing, ids[k]), r)
  {
    var d: nat :| d in kept && d < |g.nodes| && Mentions(Target(g, sharing, d), r);
    TargetOfLead(g, sharing, d);
    var c := Lead(g, sharing, d);
    assert Leads(g, sharing)[d] == c;
    assert LeadsTo(kept, Leads(g, sharing), c);
    k :| 0 <= k < |ids| && ids[k] == c;
  }

  // ----- The simplified graph ------------------------------------------------------------------------

  /** The last loop at one prepared node that is left. */
  method FinishNode(g: Graph, sharing: bool, s: Passed, id: nat) returns (e: Expr, ids: seq<nat>)
    requires GraphOk(g) && PassedOk(g, sharing, s) && Scheduled(g, id) && id < |g.nodes|
    requires s.alias[id].None? && s.inlined[id].None?
    ensures e == Subst(g, sharing, g.expr[id]) && Increasing(ids)
            && forall d: nat :: d in ids <==> LedTo(g, sharing, g.deps[id], d)
    ensures forall k | 0 <= k < |ids| :: ids[k] < |g.nodes|
  {
    AllLead(g, sharing, s.alias, id);
    forall d: nat | d < |g.nodes| ensures Decided(g, sharing, s.inlined, d) { AllDecided(g, sharing, d); }
    ReplaceIsSubst(g, sharing, s.alias, s.inlined, g.expr[id]);
    e := Replace(g, s.alias, s.inlined, s.expr[id]);
    DepsEarlier(g, sharing, s, id);
    var concrete := ConcreteAll(g, sharing, s, s.deps[id], g.rank[id]);
    ids := SortedUnique(concrete);
    forall d: nat ensures d in ids <==> LedTo(g, sharing, g.deps[id], d) { ConcreteLed(g, sharing, s, id, d); }
    forall k | 0 <= k < |ids| ensures ids[k] < |g.nodes| {
      assert ids[k] in ids;
      var j :| 0 <= j < |concrete| && concrete[j] == ids[k];
    }
  }

  /** The first `n` nodes are what simplification makes of them. */
  ghost predicate Finished(g: Graph, sharing: bool, expr: seq<Expr>, deps: seq<seq<nat>>, n: nat)
    requires GraphOk(g)
  {
    && |expr| == |deps| == |g.nodes| && ExprsOk(expr) && IdsOk(deps)
    && forall id: nat | id < n && id < |g.nodes| && Scheduled(g, id) && Left(g, sharing, id) ::
         NodeSimplified(g, sharing, Optimized(expr, deps, [], Ref(0)), id)
  }

  /** The last loop over all prepared nodes that are left. */
  method FinishAll(g: Graph, sharing: bool, s: Passed) returns (expr: seq<Expr>, deps: seq<seq<nat>>)
    requires GraphOk(g) && PassedOk(g, sharing, s)
    ensures Finished(g, sharing, expr, deps, |g.nodes|)
  {
    expr, deps := s.expr, s.deps;
    for n := 0 to |g.nodes|
      invariant Finished(g, sharing, expr, deps, n)
    {
      expr, deps := FinishOne(g, sharing, s, expr, deps, n);
    }
  }

  method FinishOne(g: Graph, sharing: bool, s: Passed, expr: seq<Expr>, deps: seq<seq<nat>>, n: nat)
    returns (expr': seq<Expr>, deps': seq<seq<nat>>)
    requires GraphOk(g) && PassedOk(g, sharing, s) && n < |g.nodes| && Finished(g, sharing, expr, deps, n)
    ensures Finished(g, sharing, expr', deps', n + 1)
  {
    LeftIs(g, sharing, s, n);
    expr', deps' := expr, deps;
    if n in g.schedule && s.alias[n].None? && s.inlined[n].None? {
      var e, ids := FinishNode(g, sharing, s, n);
      FinishNext(g, sharing, expr, deps, n, e, ids);
      expr', deps' := expr[n := e], deps[n := ids];
    } else {
      FinishSkip(g, sharing, expr, deps, n);
    }
  }

  lemma FinishSkip(g: Graph, sharing: bool, expr: seq<Expr>, deps: seq<seq<nat>>, n: nat)
    requires GraphOk(g) && n < |g.nodes| && Finished(g, sharing, expr, deps, n)
             && !(Scheduled(g, n) && Left(g, sharing, n))
    ensures Finished(g, sharing, expr, deps, n + 1)
  {
    forall id: nat | id < n + 1 && id < |g.nodes| && Scheduled(g, id) && Left(g, sharing, id)
      ensures NodeSimplified(g, sharing, Optimized(expr, deps, [], Ref(0)), id)
    {
      assert id < n;
    }
  }

  lemma FinishNext(g: Graph, sharing: bool, expr: seq<Expr>, deps: seq<seq<nat>>, n: nat, e: Expr, ids: seq<nat>)
    requires GraphOk(g) && n < |g.nodes| && Finished(g, sharing, expr, deps, n)
    requires e == Subst(g, sharing, g.expr[n]) && Increasing(ids)
             && forall d: nat :: d in ids <==> LedTo(g, sharing, g.deps[n], d)
    requires forall k | 0 <= k < |ids| :: ids[k] < |g.nodes|
    ensures Finished(g, sharing, expr[n := e], deps[n := ids], n + 1)
  {
    forall id: nat | id < n + 1 && id < |g.nodes| && Scheduled(g, id) && Left(g, sharing, id)
      ensures NodeSimplified(g, sharing, Optimized(expr[n := e], deps[n := ids], [], Ref(0)), id)
    {
      if id < n { assert NodeSimplified(g, sharing, Optimized(expr, deps, [], Ref(0)), id); }
    }
  }

  /** schedule.erase(remove_if(...)), twice. */
  method EraseGone(g: Graph, sharing: bool, s: Passed) returns (schedule: seq<nat>)
    requires GraphOk(g) && PassedOk(g, sharing, s)
    ensures schedule == LeftOf(g, sharing, g.schedule)
  {
    schedule := [];
    for k := 0 to |g.schedule|
      invariant schedule == LeftOf(g, sharing, g.schedule[..k])
    {
      var id := g.schedule[k];
      LeftIs(g, sharing, s, id);
      LeftNext(g, sharing, g.schedule, k);
      if s.alias[id].None? && s.inlined[id].None? { schedule := schedule + [id]; }
    }
    assert g.schedule[..|g.schedule|] == g.schedule;
  }

  lemma LeftNext(g: Graph, sharing: bool, schedule: seq<nat>, k: nat)
    requires GraphOk(g) && k < |schedule|
    ensures LeftOf(g, sharing, schedule[..k + 1])
         == LeftOf(g, sharing, schedule[..k]) + if Left(g, sharing, schedule[k]) then [schedule[k]] else []
  {
    assert schedule[..k + 1][..k] == schedule[..k];
  }

  /** The work text, rewritten after the alias passes and after inlining. */
  lemma WorkIsSubst(g: Graph, sharing: bool, s: Passed, work: Expr)
    requires GraphOk(g) && PassedOk(g, sharing, s) && Flat(work, |g.nodes|)
    ensures InRange(Replace(g, s.alias, Nothing(|s.alias|), work), |g.nodes|)
    ensures Replace(g, s.alias, s.inlined, Replace(g, s.alias, Nothing(|s.alias|), work)) == Subst(g, sharing, work)
  {
    forall id: nat | id < |g.nodes| ensures Canonical(g, s.alias, id) == Leads(g, sharing)[id] {
      AllLead(g, sharing, s.alias, id);
    }
    ReplaceRenames(g, s.alias, Leads(g, sharing), work);
    RenamedInRange(work, Leads(g, sharing));
    forall d: nat | d < |g.nodes| ensures Decided(g, sharing, s.inlined, d) { AllDecided(g, sharing, d); }
    ReplaceIsSubst(g, sharing, s.alias, s.inlined, work);
  }

  /** The whole of optimizeGraph: its outcome is determined by the input graph. */
  method Optimize(g: Graph, l1Scheduling: bool, work: Expr) returns (r: Optimized)
    requires GraphOk(g) && Flat(work, |g.nodes|)
    ensures Simplified(g, l1Scheduling, work, r)
  {
    var alias, renamed, led := Rename(g, l1Scheduling);
    AliasedOk(g, |g.schedule|, if l1Scheduling then |g.schedule| else 0);
    var half := Replace(g, alias, Nothing(|alias|), work);
    var inlined := InlineNodes(g, l1Scheduling, alias, renamed, led);
    var s := Passed(alias, inlined, renamed, led);
    WorkIsSubst(g, l1Scheduling, s, work);
    var expr, deps := FinishAll(g, l1Scheduling, s);
    var schedule := EraseGone(g, l1Scheduling, s);
    r := Optimized(expr, deps, schedule, Replace(g, alias, inlined, half));
    forall id: nat | Scheduled(g, id) && Left(g, l1Scheduling, id) ensures NodeSimplified(g, l1Scheduling, r, id) {
      assert NodeSimplified(g, l1Scheduling, Optimized(expr, deps, [], Ref(0)), id);
    }
  }
}

/** Scheduling and classification together give the graph that simplification
    starts from. */
module CombPipeline {
  import opened Common
  import opened CombGraph
  import DependencyGraph
  import CombSchedule
  import CombDynamic

  /** What scheduling and the first classification worked on: the prepared
      nodes, the roots, the dependencies kept by the search, and node facts. */
  datatype Front = Front(prepared: seq<CombSchedule.Prepared>, roots: seq<nat>, kept: seq<seq<nat>>,
                         facts: CombDynamic.Facts)

  function AllOf(f: Front): (r: seq<seq<nat>>)
    ensures |r| == |f.prepared|
  {
    CombSchedule.AllDependencies(f.prepared)
  }

  function FullGraph(f: Front): DependencyGraph.Digraph { CombSchedule.Discovered(f.prepared) }

  /** `g` holds what scheduling and classification found, with the expressions
      the nodes were prepared with. */
  ghost predicate Prepares(g: Graph, f: Front) {
    && |f.prepared| == |g.nodes| && Keeps(g, f.kept)
    && forall id: nat, d: nat | id in g.schedule && id < |g.expr| && id < |f.prepared| ::
         d in AllOf(f)[id] <==> Mentions(g.expr[id], d)
  }

  /** Scheduled nodes have the dependencies that scheduling kept. */
  ghost predicate Keeps(g: Graph, kept: seq<seq<nat>>) {
    |kept| == |g.deps| && forall id: nat | id in g.schedule && id < |kept| :: g.deps[id] == kept[id]
  }

  /** The contracts of scheduling and classification. */
  ghost predicate Classified(g: Graph, f: Front) {
    && CombSchedule.PreparedOk(f.prepared) && CombSchedule.ScheduleOk(FullGraph(f), f.roots, g.schedule, f.kept)
    && forall x: nat :: x in g.dynamicNodes <==> CombDynamic.ReachesSeed(AllOf(f), g.schedule, f.facts, x)
  }

  /** Scheduling and classification establish what simplification needs. */
  lemma ScheduledGraphOk(g: Graph, f: Front)
    requires Sized(g) && LanguageOk(g.language) && Prepares(g, f) && Classified(g, f)
    ensures GraphOk(g)
  {
    forall id: nat, d: nat | Scheduled(g, id) && id < |g.deps| && d in g.deps[id]
      ensures Scheduled(g, d) && d < |g.rank| && g.rank[d] < g.rank[id]
    {
      KeptEarlier(g, f, id, d);
    }
    forall id: nat, d: nat | Eager(g, id) && id < |g.deps|
      ensures d in g.deps[id] <==> Mentions(g.expr[id], d)
    {
      EagerMentions(g, f, id, d);
    }
    forall id: nat, d: nat | Eager(g, id) && id < |g.deps| && d in g.deps[id] ensures Eager(g, d) {
      EagerMentions(g, f, id, d);
    }
  }

  lemma KeptEarlier(g: Graph, f: Front, id: nat, d: nat)
    requires Sized(g) && Keeps(g, f.kept) && CombSchedule.ScheduleOk(FullGraph(f), f.roots, g.schedule, f.kept)
    requires Scheduled(g, id) && id < |g.deps| && d in g.deps[id]
    ensures Scheduled(g, d) && d < |g.rank| && g.rank[d] < g.rank[id]
  {
    var i := PlaceOf(g, id);
    assert CombSchedule.PlaceOk(FullGraph(f), g.schedule, f.kept, i);
    assert CombSchedule.Earlier(g.schedule, d, i);
    var j :| 0 <= j < i && j < |g.schedule| && g.schedule[j] == d;
  }

  lemma EagerMentions(g: Graph, f: Front, id: nat, d: nat)
    requires Sized(g) && Prepares(g, f) && Classified(g, f) && Eager(g, id) && id < |g.deps|
    ensures d in g.deps[id] <==> Mentions(g.expr[id], d)
    ensures d in g.deps[id] ==> Eager(g, d)
  {
    var i := PlaceOf(g, id);
    assert CombSchedule.PlaceOk(FullGraph(f), g.schedule, f.kept, i);
    if Mentions(g.expr[id], d) || d in g.deps[id] {
      CombDynamic.EagerDependencies(f.prepared, f.roots, g.schedule, f.kept, f.facts, g.dynamicNodes, i, d);
      KeptEarlier(g, f, id, d);
    }
  }

  lemma PlaceOf(g: Graph, id: nat) returns (i: nat)
    requires Sized(g) && Scheduled(g, id)
    ensures i < |g.schedule| && g.schedule[i] == id && id < |g.nodes| && g.rank[id] == i
  {
    i :| 0 <= i < |g.schedule| && g.schedule[i] == id;
  }
}

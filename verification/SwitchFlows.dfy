/** Switch lowering of CppGraph.h: every entry from the same environment, joined
    with the default's, or a proven exhaustive label's, as the fallback. */
module SwitchFlows {
  import opened Common
  import opened Terms
  import opened Programs
  import opened SymbolicState
  import opened Flows

  // ----- Exhaustive labels by counting -----------------------------------------------------------

  function VariableBits(bits: seq<Bit>): nat
    decreases |bits|
  {
    if bits == [] then 0 else (if bits[0].Variable? then 1 else 0) + VariableBits(bits[1..])
  }

  /** The values a partly known word can take. */
  ghost function Fitting(bits: seq<Bit>): set<nat>
    decreases |bits|
  {
    if bits == [] then {0}
    else
      var rest := Fitting(bits[1..]);
      if bits[0].Zero? then Doubled(rest, 0)
      else if bits[0].One? then Doubled(rest, 1) else Doubled(rest, 0) + Doubled(rest, 1)
  }

  ghost function Doubled(s: set<nat>, low: nat): set<nat> { set x | x in s :: 2 * x + low }

  lemma DoubledHas(s: set<nat>, low: nat, y: nat)
    requires low <= 1
    ensures y in Doubled(s, low) <==> y % 2 == low && y / 2 in s
  {
    if y % 2 == low && y / 2 in s { assert y == 2 * (y / 2) + low; }
  }

  lemma {:induction false} FittingExact(bits: seq<Bit>, x: nat)
    ensures x in Fitting(bits) <==> Fits(bits, x)
    decreases |bits|
  {
    if bits != [] {
      FittingExact(bits[1..], x / 2);
      DoubledHas(Fitting(bits[1..]), 0, x);
      DoubledHas(Fitting(bits[1..]), 1, x);
    }
  }

  lemma {:induction false} DoubledSize(s: set<nat>, low: nat)
    requires low <= 1
    ensures |Doubled(s, low)| == |s|
  {
    if s != {} {
      var x :| x in s;
      DoubledSize(s - {x}, low);
      forall y ensures y in Doubled(s, low) <==> y in Doubled(s - {x}, low) + {2 * x + low} {
        if y >= 0 { DoubledHas(s, low, y); DoubledHas(s - {x}, low, y); }
      }
      DoubledHas(s - {x}, low, 2 * x + low);
      assert Doubled(s, low) == Doubled(s - {x}, low) + {2 * x + low};
    }
  }

  lemma {:induction false} FittingSize(bits: seq<Bit>)
    ensures |Fitting(bits)| == PowerOfTwo(VariableBits(bits))
    decreases |bits|
  {
    if bits != [] {
      FittingSize(bits[1..]);
      BothSize(Fitting(bits[1..]));
    }
  }

  lemma BothSize(s: set<nat>)
    ensures |Doubled(s, 0)| == |s| && |Doubled(s, 1)| == |s| && |Doubled(s, 0) + Doubled(s, 1)| == 2 * |s|
  {
    DoubledSize(s, 0);
    DoubledSize(s, 1);
    forall y | y in Doubled(s, 0) ensures y !in Doubled(s, 1) { DoubledHas(s, 0, y); DoubledHas(s, 1, y); }
    assert Doubled(s, 0) !! Doubled(s, 1);
  }

  lemma {:induction false} SubsetSize(a: set<nat>, b: set<nat>)
    requires a <= b
    ensures |a| <= |b| && (|a| == |b| ==> a == b)
  {
    if a != {} {
      var x :| x in a;
      SubsetSize(a - {x}, b - {x});
    }
  }

  /** coveredValues: the label numbers the selector can take. */
  method CoveredValues(labels: seq<Label>, bits: seq<Bit>) returns (covered: set<nat>)
    ensures forall x :: x in covered
              <==> Fits(bits, x) && exists i :: 0 <= i < |labels| && labels[i].Case? && labels[i].value == x
  {
    covered := {};
    for k := 0 to |labels|
      invariant forall x ::
                  x in covered <==> Fits(bits, x) && exists i :: 0 <= i < k && labels[i].Case? && labels[i].value == x
    {
      if labels[k].Case? && Fits(bits, labels[k].value) { covered := covered + {labels[k].value}; }
    }
  }

  /** Counting proves coverage: as many labels as variable patterns means that
      every possible selector value has a label. */
  lemma CountingCovers(labels: seq<Label>, bits: seq<Bit>, covered: set<nat>, x: nat)
    requires forall y :: y in covered
               <==> Fits(bits, y) && exists i :: 0 <= i < |labels| && labels[i].Case? && labels[i].value == y
    requires |covered| == PowerOfTwo(VariableBits(bits)) && Fits(bits, x)
    ensures CaseOf(labels, x).Some?
  {
    forall y | y in covered ensures y in Fitting(bits) { FittingExact(bits, y); }
    FittingSize(bits);
    SubsetSize(covered, Fitting(bits));
    FittingExact(bits, x);
    assert x in covered;
  }

  /** Every value with these bits has a label. */
  ghost predicate AllLabelled(labels: seq<Label>, bits: seq<Bit>) {
    forall x: nat | Fits(bits, x) :: CaseOf(labels, x).Some?
  }

  /** As many labels as patterns exactly when every fitting value has one. */
  lemma CountingExact(labels: seq<Label>, bits: seq<Bit>, covered: set<nat>)
    requires forall y :: y in covered
               <==> Fits(bits, y) && exists i :: 0 <= i < |labels| && labels[i].Case? && labels[i].value == y
    ensures |covered| == PowerOfTwo(VariableBits(bits)) <==> AllLabelled(labels, bits)
  {
    FittingSize(bits);
    if |covered| == PowerOfTwo(VariableBits(bits)) {
      forall x: nat | Fits(bits, x) ensures CaseOf(labels, x).Some? { CountingCovers(labels, bits, covered, x); }
    }
    if AllLabelled(labels, bits) {
      forall y: nat ensures y in covered <==> y in Fitting(bits) {
        FittingExact(bits, y);
        if Fits(bits, y) {
          var i := CaseOf(labels, y).value;
          assert 0 <= i < |labels| && labels[i].Case? && labels[i].value == y;
        }
      }
      assert covered == Fitting(bits);
    }
  }

  /** The source's test, for selectors of at most 64 bits, 12 of them variable:
      every value the selector can take has a label. */
  method Exhaustive(o: Oracle, selector: Term, labels: seq<Label>) returns (exhaustive: bool)
    requires Sound(o)
    ensures exhaustive ==> forall w: World | w.operate == o.operate :: CaseOf(labels, Eval(selector, w)).Some?
    ensures exhaustive <==>
              && o.domain(selector).Some? && |o.domain(selector).value| <= 64
              && VariableBits(o.domain(selector).value) <= 12
              && AllLabelled(labels, o.domain(selector).value)
  {
    var domain := o.domain(selector);
    if domain.None? || |domain.value| > 64 || VariableBits(domain.value) > 12 { return false; }
    var covered := CoveredValues(labels, domain.value);
    exhaustive := |covered| == PowerOfTwo(VariableBits(domain.value));
    CountingExact(labels, domain.value, covered);
    forall w: World | exhaustive && w.operate == o.operate ensures CaseOf(labels, Eval(selector, w)).Some? {
      KnownIs(o, selector, w);
      CountingCovers(labels, domain.value, covered, Eval(selector, w));
    }
  }

  // ----- Entry conditions ------------------------------------------------------------------------------

  function CaseMatch(selector: Term, at: Label): Term
    requires at.Case?
  {
    Equal(selector, Constant(64, at.value))
  }

  lemma CaseExact(selector: Term, at: Label, w: World)
    requires at.Case?
    ensures Holds(CaseMatch(selector, at), w) <==> Eval(selector, w) == at.value
  {
    assert Eval(Constant(64, at.value), w) == at.value;
  }

  function Matched(selector: Term, labels: seq<Label>): Term {
    if labels == [] then NO
    else
      var last := |labels| - 1;
      if labels[last].Case? then Or(Matched(selector, labels[..last]), CaseMatch(selector, labels[last]))
      else Matched(selector, labels[..last])
  }

  lemma {:induction false} MatchedExact(selector: Term, labels: seq<Label>, w: World)
    ensures Holds(Matched(selector, labels), w) <==> CaseOf(labels, Eval(selector, w)).Some?
  {
    if labels != [] {
      var last := |labels| - 1;
      MatchedExact(selector, labels[..last], w);
      if labels[last].Case? {
        CaseExact(selector, labels[last], w);
        assert Holds(CaseMatch(selector, labels[last]), w) <==> labels[last].value == Eval(selector, w);
      }
    }
  }

  function EntryMatch(selector: Term, labels: seq<Label>, exhaustive: bool, e: nat): Term
    requires e < |labels|
  {
    if labels[e].Case? then CaseMatch(selector, labels[e])
    else Not(if exhaustive then YES else Matched(selector, labels))
  }

  /** Exactly the entry a direct run takes has a true condition. */
  lemma EntryExact(selector: Term, labels: seq<Label>, exhaustive: bool, e: nat, w: World)
    requires DistinctLabels(labels) && e < |labels|
    requires exhaustive ==> CaseOf(labels, Eval(selector, w)).Some?
    ensures Holds(EntryMatch(selector, labels, exhaustive, e), w) <==> EntryOf(labels, Eval(selector, w)) == Some(e)
  {
    var x := Eval(selector, w);
    MatchedExact(selector, labels, w);
    if labels[e].Case? {
      CaseExact(selector, labels[e], w);
      if labels[e].value == x { assert CaseOf(labels, x).Some?; }
    } else {
      assert DefaultOf(labels).Some?;
    }
  }

  // ----- Lowering the entries ------------------------------------------------------------------------------

  /** A switch being lowered: its selector term and the state it starts from. */
  datatype Selection = Selection(labels: seq<Label>, parts: seq<Stmt>, selector: Term, exhaustive: bool)

  ghost predicate SelectionOk(o: Oracle, scope: set<nat>, n: Selection) {
    && DistinctLabels(n.labels) && (forall i | 0 <= i < |n.labels| :: n.labels[i].at <= |n.parts|)
    && (forall i | 0 <= i < |n.parts| :: Scoped(n.parts[i], scope) && !n.parts[i].Declare?)
    && (n.exhaustive ==> forall w: World | w.operate == o.operate :: CaseOf(n.labels, Eval(n.selector, w)).Some?)
  }

  function Taken(n: Selection, w: World): Option<nat> { EntryOf(n.labels, Eval(n.selector, w)) }

  function RunFrom(n: Selection, e: nat, values: Store, w: World): Option<Outcome>
    requires e < |n.labels| && n.labels[e].at <= |n.parts|
  {
    ExecAll(n.parts[n.labels[e].at..], values, w, LIMIT)
  }

  function MatchOf(n: Selection, e: nat): Term
    requires e < |n.labels|
  {
    EntryMatch(n.selector, n.labels, n.exhaustive, e)
  }

  lemma MatchExact(o: Oracle, scope: set<nat>, n: Selection, e: nat, w: World)
    requires SelectionOk(o, scope, n) && e < |n.labels| && w.operate == o.operate
    ensures Holds(MatchOf(n, e), w) <==> Taken(n, w) == Some(e)
  {
    EntryExact(n.selector, n.labels, n.exhaustive, e, w);
  }

  /** The exits a switch passes on: break is absorbed. */
  ghost predicate PassedOn(flow: Flow, exit: Exit, w: World) {
    && !Holds(flow.broken, w) && (Holds(flow.continued, w) <==> exit.Continues?)
    && (Holds(flow.returned, w) <==> exit.Returns?) && ResultIs(flow.result, exit, w)
  }

  ghost predicate SoFar(n: Selection, k: nat, flow: Flow, cur: State, values: Store, w: World)
    requires forall i | 0 <= i < |n.labels| :: n.labels[i].at <= |n.parts|
  {
    var e := Taken(n, w);
    if e.Some? && e.value < k then
      var out := RunFrom(n, e.value, values, w);
      out.Some? && PassedOn(flow, out.value.exit, w) && LogOf(cur.writes, w) == out.value.store.log
    else PassedOn(flow, Normal, w) && LogOf(cur.writes, w) == values.log
  }

  /** The first k entries are lowered. */
  ghost predicate Entered(o: Oracle, base: nat, scope: set<nat>, n: Selection, before: State, k: nat, flow: Flow,
                          cur: State)
  {
    && SelectionOk(o, scope, n) && k <= |n.labels|
    && StateOk(scope, before) && StateOk(scope, cur) && Grown(scope, before, cur) && Quiet(o, before, cur)
    && forall values: Store, w: World | Admits(o, base, scope, before, values, w) :: SoFar(n, k, flow, cur, values, w)
  }

  /** The cells an entry leaves, for the runs that take it. */
  ghost predicate Recorded(o: Oracle, base: nat, scope: set<nat>, n: Selection, before: State, e: nat, cells: Cells) {
    && e < |n.labels| && n.labels[e].at <= |n.parts| && before.cells.Keys <= cells.Keys
    && forall values: Store, w: World | Admits(o, base, scope, before, values, w) && Taken(n, w) == Some(e) ::
         RecordedAt(base, scope, n, before, e, cells, values, w)
  }

  ghost predicate RecordedAt(base: nat, scope: set<nat>, n: Selection, before: State, e: nat, cells: Cells,
                             values: Store, w: World)
    requires e < |n.labels| && n.labels[e].at <= |n.parts|
  {
    var out := RunFrom(n, e, values, w);
    out.Some? && CellsAgree(scope, base, out.value.exit.Returns?, cells, before.locals, out.value.store, w)
  }

  lemma EnterFirst(o: Oracle, base: nat, scope: set<nat>, n: Selection, before: State)
    requires SelectionOk(o, scope, n) && StateOk(scope, before)
    ensures Entered(o, base, scope, n, before, 0, Straight().(normal := NO), before)
  {}

  lemma EntrySkipped(o: Oracle, base: nat, scope: set<nat>, n: Selection, before: State, k: nat, flow: Flow, cur: State)
    requires Sound(o) && Entered(o, base, scope, n, before, k, flow, cur) && k < |n.labels| && Dead(o, MatchOf(n, k))
    ensures Entered(o, base, scope, n, before, k + 1, flow, cur)
  {
    forall values: Store, w: World | Admits(o, base, scope, before, values, w)
      ensures SoFar(n, k + 1, flow, cur, values, w)
    {
      assert SoFar(n, k, flow, cur, values, w);
      MatchExact(o, scope, n, k, w);
      KnownIs(o, MatchOf(n, k), w);
    }
  }

  /** Each entry is lowered from the environment before the switch. */
  function EntryStart(n: Selection, before: State, k: nat, cur: State): State
    requires k < |n.labels|
  {
    cur.(cells := before.cells, path := Pushed(before, MatchOf(n, k), true).path)
  }

  lemma EntryStartOk(o: Oracle, base: nat, scope: set<nat>, n: Selection, before: State, k: nat, flow: Flow, cur: State)
    requires Entered(o, base, scope, n, before, k, flow, cur) && k < |n.labels|
    ensures StateOk(scope, EntryStart(n, before, k, cur))
    ensures forall values: Store, w: World | Admits(o, base, scope, before, values, w) && Taken(n, w) == Some(k) ::
              Admits(o, base, scope, EntryStart(n, before, k, cur), values, w)
  {
    var start := EntryStart(n, before, k, cur);
    forall values: Store, w: World | Admits(o, base, scope, before, values, w) && Taken(n, w) == Some(k)
      ensures Admits(o, base, scope, start, values, w)
    {
      MatchExact(o, scope, n, k, w);
      PathPush(before.path, Guard(MatchOf(n, k), true), w);
      assert SoFar(n, k, flow, cur, values, w);
      AgreesSame(scope, base, false, before, start, values, w);
    }
  }

  lemma EntryStep(o: Oracle, base: nat, scope: set<nat>, n: Selection, before: State, k: nat, flow: Flow, cur: State,
                  branch: Flow, now: set<nat>, after: State)
    requires Sound(o) && Entered(o, base, scope, n, before, k, flow, cur) && k < |n.labels|
    requires LoweredAll(o, base, scope, n.parts[n.labels[k].at..], EntryStart(n, before, k, cur), branch, now, after)
    ensures Entered(o, base, scope, n, before, k + 1, CollectExits(o, flow, branch.(broken := NO), MatchOf(n, k)),
                    after.(path := before.path))
    ensures Recorded(o, base, scope, n, before, k, after.cells)
  {
    EntryShape(o, base, scope, n, before, k, flow, cur, branch, now, after);
    var flow' := CollectExits(o, flow, branch.(broken := NO), MatchOf(n, k));
    EntryStartOk(o, base, scope, n, before, k, flow, cur);
    forall values: Store, w: World | Admits(o, base, scope, before, values, w)
      ensures SoFar(n, k + 1, flow', after.(path := before.path), values, w)
      ensures Taken(n, w) == Some(k) ==> RecordedAt(base, scope, n, before, k, after.cells, values, w)
    {
      MatchExact(o, scope, n, k, w);
      PathPush(before.path, Guard(MatchOf(n, k), true), w);
      if Taken(n, w) == Some(k) {
        EntryTaken(o, base, scope, n, before, k, flow, cur, branch, now, after, values, w);
      } else {
        assert SoFar(n, k, flow, cur, values, w);
        CollectDisabled(o, flow, branch.(broken := NO), MatchOf(n, k), w);
      }
    }
  }

  lemma EntryShape(o: Oracle, base: nat, scope: set<nat>, n: Selection, before: State, k: nat, flow: Flow, cur: State,
                   branch: Flow, now: set<nat>, after: State)
    requires Entered(o, base, scope, n, before, k, flow, cur) && k < |n.labels|
    requires LoweredAll(o, base, scope, n.parts[n.labels[k].at..], EntryStart(n, before, k, cur), branch, now, after)
    ensures StateOk(scope, after.(path := before.path)) && Grown(scope, before, after.(path := before.path))
    ensures Quiet(o, before, after.(path := before.path)) && before.cells.Keys <= after.cells.Keys
  {
    var st := after.(path := before.path);
    forall w: World | w.operate == o.operate && !PathHolds(before.path, w)
      ensures LogOf(st.writes, w) == LogOf(before.writes, w)
    {
      PathPush(before.path, Guard(MatchOf(n, k), true), w);
    }
    forall i | |before.names| <= i < |after.names|
      ensures after.names[i].LocalKey? && after.names[i].serial > before.serial
    {
      if i < |cur.names| { assert after.names[i] == cur.names[i]; }
    }
  }

  lemma EntryTaken(o: Oracle, base: nat, scope: set<nat>, n: Selection, before: State, k: nat, flow: Flow, cur: State,
                   branch: Flow, now: set<nat>, after: State, values: Store, w: World)
    requires Sound(o) && Entered(o, base, scope, n, before, k, flow, cur) && k < |n.labels|
    requires LoweredAll(o, base, scope, n.parts[n.labels[k].at..], EntryStart(n, before, k, cur), branch, now, after)
    requires Admits(o, base, scope, before, values, w) && Taken(n, w) == Some(k) && Holds(MatchOf(n, k), w)
    requires Admits(o, base, scope, EntryStart(n, before, k, cur), values, w)
    ensures RecordedAt(base, scope, n, before, k, after.cells, values, w)
    ensures SoFar(n, k + 1, CollectExits(o, flow, branch.(broken := NO), MatchOf(n, k)), after.(path := before.path),
                  values, w)
  {
    assert SoFar(n, k, flow, cur, values, w);
    assert SimulatesAll(base, scope, now, after, branch, RunFrom(n, k, values, w), w);
    var out := RunFrom(n, k, values, w).value;
    AgreesWithin(scope, if out.exit.Normal? then now else scope, base, out.exit.Returns?, after, out.store, w);
    forall v: Var | InScope(v, scope)
      ensures VarAgrees(base, out.exit.Returns?, after.cells, before.locals, out.store, v, w)
    {
      assert VarAgrees(base, out.exit.Returns?, after.cells, after.locals, out.store, v, w);
    }
    AbsorbBreak(o, flow, branch, MatchOf(n, k), out.exit, w);
  }

  lemma AbsorbBreak(o: Oracle, flow: Flow, branch: Flow, enabled: Term, exit: Exit, w: World)
    requires Sound(o) && w.operate == o.operate && Holds(enabled, w) && FlowIs(branch, exit, w)
             && PassedOn(flow, Normal, w)
    ensures PassedOn(CollectExits(o, flow, branch.(broken := NO), enabled), exit, w)
  {
    var from := branch.(broken := NO);
    var f := CollectExits(o, flow, from, enabled);
    var returning := And(enabled, from.returned);
    KnownIs(o, returning, w);
    assert Holds(returning, w) <==> exit.Returns?;
    assert !Holds(NO, w);
    assert (Holds(And(enabled, from.continued), w) <==> exit.Continues?) && !Holds(And(enabled, from.broken), w);
  }

  // ----- Joining the entries -----------------------------------------------------------------------------------

  datatype Alternative = Alternative(condition: Term, cells: Cells)

  /** The cells the last true alternative holds, or the fallback. */
  function Pick(fallback: Cells, alternatives: seq<Alternative>, w: World): Cells {
    if alternatives == [] then fallback
    else
      var last := |alternatives| - 1;
      if Holds(alternatives[last].condition, w) then alternatives[last].cells
      else Pick(fallback, alternatives[..last], w)
  }

  lemma PickSnoc(fallback: Cells, alternatives: seq<Alternative>, a: Alternative, w: World)
    ensures Pick(fallback, alternatives + [a], w) == if Holds(a.condition, w) then a.cells
                                                     else Pick(fallback, alternatives, w)
  {
    assert (alternatives + [a])[..|alternatives|] == alternatives;
  }

  ghost predicate Wide(before: Cells, fallback: Cells, alternatives: seq<Alternative>) {
    before.Keys <= fallback.Keys && forall i | 0 <= i < |alternatives| :: before.Keys <= alternatives[i].cells.Keys
  }

  /** The merge loop over the alternatives, in order. */
  method JoinAlternatives(before: Cells, fallback: Cells, alternatives: seq<Alternative>) returns (r: Option<Cells>)
    requires Wide(before, fallback, alternatives)
    ensures r.Some? ==> before.Keys <= r.value.Keys
    ensures r.Some? ==> forall k: Key, w: World ::
                          Eval(ReadCell(r.value, k), w) == Eval(ReadCell(Pick(fallback, alternatives, w), k), w)
    ensures r.Some? ==> forall k | k in r.value ::
                          k in fallback || exists i :: 0 <= i < |alternatives| && k in alternatives[i].cells
  {
    var cells := fallback;
    for i := 0 to |alternatives|
      invariant before.Keys <= cells.Keys
      invariant forall k: Key, w: World ::
                  Eval(ReadCell(cells, k), w) == Eval(ReadCell(Pick(fallback, alternatives[..i], w), k), w)
      invariant forall k | k in cells :: k in fallback || exists j :: 0 <= j < i && k in alternatives[j].cells
    {
      var a := alternatives[i];
      var merged := MergeCells(a.condition, before, a.cells, cells);
      if merged.None? { return None; }
      assert alternatives[..i + 1] == alternatives[..i] + [a];
      forall k: Key, w: World
        ensures Eval(ReadCell(merged.value, k), w) == Eval(ReadCell(Pick(fallback, alternatives[..i + 1], w), k), w)
      {
        MergeReads(a.condition, before, a.cells, cells, k, w);
        PickSnoc(fallback, alternatives[..i], a, w);
      }
      cells := merged.value;
    }
    assert alternatives[..|alternatives|] == alternatives;
    return Some(cells);
  }

  /** Which entries the fallback and the alternatives came from. */
  ghost predicate Alternatives(o: Oracle, base: nat, scope: set<nat>, n: Selection, before: State, k: nat,
                               fallback: Cells, chosen: Option<nat>, alternatives: seq<Alternative>,
                               entries: seq<nat>) {
    && |entries| == |alternatives|
    && (forall i | 0 <= i < |entries| :: entries[i] < k && entries[i] < |n.labels| && n.labels[entries[i]].Case?
          && alternatives[i].condition == MatchOf(n, entries[i])
          && Recorded(o, base, scope, n, before, entries[i], alternatives[i].cells))
    && (if chosen.None? then fallback == before.cells
        else chosen.value < k && Recorded(o, base, scope, n, before, chosen.value, fallback))
    && forall e: nat | e < k && e < |n.labels| && !Dead(o, MatchOf(n, e)) ::
         if n.labels[e].Default? then chosen == Some(e) else e in entries
  }

  /** An exhaustive switch without a default uses its last entry as fallback. */
  ghost predicate Resolved(o: Oracle, base: nat, scope: set<nat>, n: Selection, before: State,
                           fallback: Cells, chosen: Option<nat>, alternatives: seq<Alternative>, entries: seq<nat>) {
    && |entries| == |alternatives| && Wide(before.cells, fallback, alternatives)
    && (forall i | 0 <= i < |entries| :: entries[i] < |n.labels|
          && alternatives[i].condition == MatchOf(n, entries[i])
          && Recorded(o, base, scope, n, before, entries[i], alternatives[i].cells))
    && (if chosen.None? then fallback == before.cells else Recorded(o, base, scope, n, before, chosen.value, fallback))
    && forall w: World | w.operate == o.operate ::
         if Taken(n, w).Some? then Taken(n, w) == chosen || Taken(n, w).value in entries else chosen.None?
  }

  lemma ResolveAll(o: Oracle, base: nat, scope: set<nat>, n: Selection, before: State, fallback: Cells,
                   chosen: Option<nat>,
                   alternatives: seq<Alternative>, entries: seq<nat>)
    requires Sound(o) && SelectionOk(o, scope, n)
             && Alternatives(o, base, scope, n, before, |n.labels|, fallback, chosen, alternatives, entries)
    requires chosen.Some? ==> n.labels[chosen.value].Default?
    ensures var last := |alternatives| - 1;
            if n.exhaustive && alternatives != []
            then Resolved(o, base, scope, n, before, alternatives[last].cells, Some(entries[last]),
                          alternatives[..last], entries[..last])
            else Resolved(o, base, scope, n, before, fallback, chosen, alternatives, entries)
  {
    forall w: World | w.operate == o.operate && Taken(n, w).Some?
      ensures if n.labels[Taken(n, w).value].Default? then chosen == Taken(n, w) else Taken(n, w).value in entries
    {
      MatchExact(o, scope, n, Taken(n, w).value, w);
      KnownIs(o, MatchOf(n, Taken(n, w).value), w);
    }
    forall w: World | w.operate == o.operate && Taken(n, w).None? ensures chosen.None? && !n.exhaustive {
      assert DefaultOf(n.labels).None?;
    }
    if n.exhaustive && alternatives != [] {
      var last := |alternatives| - 1;
      forall w: World | w.operate == o.operate
        ensures Taken(n, w).Some? && (Taken(n, w) == Some(entries[last]) || Taken(n, w).value in entries[..last])
      {
        assert CaseOf(n.labels, Eval(n.selector, w)).Some?;
        assert entries == entries[..last] + [entries[last]];
      }
    }
  }

  /** The joined cells are those of the entry a run takes. */
  lemma {:induction false} PickTaken(o: Oracle, base: nat, scope: set<nat>, n: Selection, before: State,
                                     fallback: Cells,
                                     alternatives: seq<Alternative>, entries: seq<nat>, w: World)
    returns (e: Option<nat>)
    requires SelectionOk(o, scope, n) && w.operate == o.operate && |entries| == |alternatives|
    requires forall i | 0 <= i < |entries| :: (entries[i] < |n.labels|
          && alternatives[i].condition == MatchOf(n, entries[i])
          && Recorded(o, base, scope, n, before, entries[i], alternatives[i].cells))
    ensures e.Some? ==>
            Taken(n, w) == e && Recorded(o, base, scope, n, before, e.value, Pick(fallback, alternatives, w))
    ensures e.None? ==>
            Pick(fallback, alternatives, w) == fallback && (Taken(n, w).Some? ==> Taken(n, w).value !in entries)
    decreases |alternatives|
  {
    if alternatives == [] { return None; }
    var last := |alternatives| - 1;
    MatchExact(o, scope, n, entries[last], w);
    if Holds(alternatives[last].condition, w) { return Some(entries[last]); }
    e := PickTaken(o, base, scope, n, before, fallback, alternatives[..last], entries[..last], w);
    assert entries == entries[..last] + [entries[last]];
  }

  function SwitchFlow(flow: Flow): Flow { flow.(normal := Not(Or(flow.returned, flow.continued))) }

  lemma SwitchFlowIs(flow: Flow, exit: Exit, w: World)
    requires PassedOn(flow, exit, w)
    ensures FlowIs(SwitchFlow(flow), if exit.Breaks? then Normal else exit, w)
  {
    assert Holds(Or(flow.returned, flow.continued), w) <==> exit.Returns? || exit.Continues?;
  }

  lemma SwitchAt(o: Oracle, base: nat, scope: set<nat>, n: Selection, before: State, flow: Flow, cur: State,
                 fallback: Cells, chosen: Option<nat>,
                 alternatives: seq<Alternative>, entries: seq<nat>, cells: Cells, values: Store, w: World)
    requires Entered(o, base, scope, n, before, |n.labels|, flow, cur) && Admits(o, base, scope, before, values, w)
    requires Resolved(o, base, scope, n, before, fallback, chosen, alternatives, entries)
    requires forall k: Key :: Eval(ReadCell(cells, k), w) == Eval(ReadCell(Pick(fallback, alternatives, w), k), w)
    ensures var out := if Taken(n, w).None? then Some(Outcome(Normal, values))
                       else LeaveSwitch(RunFrom(n, Taken(n, w).value, values, w));
            Simulates(base, scope, cur.(cells := cells), SwitchFlow(flow), out, w)
  {
    var st := cur.(cells := cells);
    assert SoFar(n, |n.labels|, flow, cur, values, w);
    var e := PickTaken(o, base, scope, n, before, fallback, alternatives, entries, w);
    var picked := Pick(fallback, alternatives, w);
    if Taken(n, w).None? {
      SwitchFlowIs(flow, Normal, w);
      AgreesSame(scope, base, false, before, st, values, w);
    } else {
      var out := RunFrom(n, Taken(n, w).value, values, w).value;
      assert RecordedAt(base, scope, n, before, Taken(n, w).value, picked, values, w);
      SwitchFlowIs(flow, out.exit, w);
      forall v: Var | InScope(v, scope) ensures VarAgrees(base, out.exit.Returns?, cells, st.locals, out.store, v, w) {
        assert VarAgrees(base, out.exit.Returns?, picked, before.locals, out.store, v, w);
      }
    }
  }

  lemma SwitchLowered(o: Oracle, base: nat, scope: set<nat>, s: Stmt, n: Selection, before: State, flow: Flow,
                      cur: State,
                      fallback: Cells, chosen: Option<nat>, alternatives: seq<Alternative>, entries: seq<nat>,
                      cells: Cells)
    requires Sound(o) && s.Switch? && Scoped(s, scope) && Readable(s.selector, before.locals.Keys)
    requires n.labels == s.labels && n.parts == s.parts && n.selector == LowerExpr(before, s.selector)
    requires Entered(o, base, scope, n, before, |n.labels|, flow, cur) && cur.path == before.path
    requires Resolved(o, base, scope, n, before, fallback, chosen, alternatives, entries)
    requires before.cells.Keys <= cells.Keys && forall k | k in cells :: Below(k, cur.serial)
    requires forall k: Key, w: World ::
               Eval(ReadCell(cells, k), w) == Eval(ReadCell(Pick(fallback, alternatives, w), k), w)
    ensures Lowered(o, base, scope, s, before, SwitchFlow(flow), cur.(cells := cells))
  {
    forall values: Store, w: World | Admits(o, base, scope, before, values, w)
      ensures Simulates(base, scope, cur.(cells := cells), SwitchFlow(flow), Exec(s, values, w, LIMIT), w)
    {
      LowerExprExact(scope, base, before, values, s.selector, w);
      SwitchAt(o, base, scope, n, before, flow, cur, fallback, chosen, alternatives, entries, cells, values, w);
    }
  }
}

/** Collecting equal additive terms and rebuilding their sum: the rest of
    Expr::simplify, and what its results look like. */
module ExprTerms {
  import opened Common
  import opened ExprSimplify
  import opened ExprForms

  // ----- Equal terms ---------------------------------------------------------------------------------

  /** equal: numbers by value, binary nodes and operator calls alike. */
  function Equal(a: Expr, b: Expr): bool
    decreases a, 0
  {
    if NumValue(a).Some? && NumValue(b).Some? then NumValue(a) == NumValue(b)
    else
      && (a.kind == b.kind || (IsBinary(a) && IsBinary(b)))
      && a.value == b.value && |a.sub| == |b.sub| && EqualAll(a.sub, b.sub)
  }

  function EqualAll(s: seq<Expr>, t: seq<Expr>): bool
    requires |s| == |t|
    decreases s, 1
  {
    s == [] || (Equal(s[0], t[0]) && EqualAll(s[1..], t[1..]))
  }

  /** Equal terms always have the same value, so cancelling them is sound. */
  lemma {:induction false} EqualValues(a: Expr, b: Expr, w: World)
    requires Equal(a, b)
    ensures Value(a, w) == Value(b, w)
    decreases a, 0
  {
    if !(NumValue(a).Some? && NumValue(b).Some?) {
      EqualAllValues(a.sub, b.sub, w);
      assert Values(a.sub, w) == Values(b.sub, w);
      forall i | 0 <= i < |a.sub| ensures Value(a.sub[i], w) == Value(b.sub[i], w) {
        assert Values(a.sub, w)[i] == Values(b.sub, w)[i];
      }
    }
  }

  lemma {:induction false} EqualAllValues(s: seq<Expr>, t: seq<Expr>, w: World)
    requires |s| == |t| && EqualAll(s, t)
    ensures Values(s, w) == Values(t, w)
    decreases s, 1
  {
    if s != [] {
      EqualValues(s[0], t[0], w);
      EqualAllValues(s[1..], t[1..], w);
      assert Values(s, w) == [Value(s[0], w)] + Values(s[1..], w);
      assert Values(t, w) == [Value(t[0], w)] + Values(t[1..], w);
    }
  }

  lemma {:induction false} EqualSelf(a: Expr)
    ensures Equal(a, a)
    decreases a, 0
  {
    EqualAllSelf(a.sub);
  }

  lemma {:induction false} EqualAllSelf(s: seq<Expr>)
    ensures EqualAll(s, s)
    decreases s, 1
  {
    if s != [] {
      EqualSelf(s[0]);
      EqualAllSelf(s[1..]);
    }
  }

  lemma {:induction false} EqualSymmetric(a: Expr, b: Expr)
    requires Equal(a, b)
    ensures Equal(b, a)
    decreases a, 0
  {
    if !(NumValue(a).Some? && NumValue(b).Some?) { EqualAllSymmetric(a.sub, b.sub); }
  }

  lemma {:induction false} EqualAllSymmetric(s: seq<Expr>, t: seq<Expr>)
    requires |s| == |t| && EqualAll(s, t)
    ensures EqualAll(t, s)
    decreases s, 1
  {
    if s != [] {
      EqualSymmetric(s[0], t[0]);
      EqualAllSymmetric(s[1..], t[1..]);
    }
  }

  lemma {:induction false} EqualTransitive(a: Expr, b: Expr, c: Expr)
    requires Equal(a, b) && Equal(b, c)
    ensures Equal(a, c)
    decreases a, 0
  {
    if !(NumValue(a).Some? && NumValue(b).Some?) && !(NumValue(b).Some? && NumValue(c).Some?) {
      EqualAllTransitive(a.sub, b.sub, c.sub);
    }
  }

  lemma {:induction false} EqualAllTransitive(s: seq<Expr>, t: seq<Expr>, u: seq<Expr>)
    requires |s| == |t| == |u| && EqualAll(s, t) && EqualAll(t, u)
    ensures EqualAll(s, u)
    decreases s, 1
  {
    if s != [] {
      EqualTransitive(s[0], t[0], u[0]);
      EqualAllTransitive(s[1..], t[1..], u[1..]);
    }
  }

  // ----- Additive terms -----------------------------------------------------------------------------------

  datatype Term = Term(e: Expr, coefficient: int)

  /** The signed operands of the sums at the top of an expression. */
  function Addends(e: Expr, sign: int): seq<Term> {
    if IsSum(e) then Addends(e.sub[0], sign) + Addends(e.sub[1], if e.value == "+" then sign else -sign)
    else [Term(e, sign)]
  }

  /** How often a term is added, less how often it is subtracted. */
  function Net(adds: seq<Term>, t: Expr): int {
    if adds == [] then 0
    else
      var last := adds[|adds| - 1];
      Net(adds[..|adds| - 1], t) + if Equal(last.e, t) then last.coefficient else 0
  }

  /** What the numbers among the addends add up to. */
  function Numbers(adds: seq<Term>): int {
    if adds == [] then 0
    else
      var last := adds[|adds| - 1];
      Numbers(adds[..|adds| - 1]) + if NumValue(last.e).Some? then last.coefficient * NumValue(last.e).value else 0
  }

  ghost function TermsValue(terms: seq<Term>, w: World): int {
    if terms == [] then 0
    else
      var last := terms[|terms| - 1];
      TermsValue(terms[..|terms| - 1], w) + last.coefficient * Value(last.e, w)
  }

  predicate FullTerms(terms: seq<Term>) { forall i | 0 <= i < |terms| :: Full(terms[i].e) }

  lemma {:induction false} TermAdded(terms: seq<Term>, k: nat, sign: int, w: World)
    requires k < |terms|
    ensures TermsValue(terms[k := terms[k].(coefficient := terms[k].coefficient + sign)], w)
            == TermsValue(terms, w) + sign * Value(terms[k].e, w)
  {
    var last := |terms| - 1;
    var t := terms[k].(coefficient := terms[k].coefficient + sign);
    assert (terms[k].coefficient + sign) * Value(terms[k].e, w)
           == terms[k].coefficient * Value(terms[k].e, w) + sign * Value(terms[k].e, w);
    if k == last {
      assert terms[k := t][..last] == terms[..last];
    } else {
      TermAdded(terms[..last], k, sign, w);
      assert terms[k := t][..last] == terms[..last][k := t];
    }
  }

  lemma TermAppended(terms: seq<Term>, t: Term, w: World)
    ensures TermsValue(terms + [t], w) == TermsValue(terms, w) + t.coefficient * Value(t.e, w)
  {
    assert (terms + [t])[..|terms|] == terms;
  }

  /** What collecting keeps: one term for each class of equal addends that are
      no number, the first of them, in their order and with its net count, and
      the sum of the numbers. */
  ghost predicate Gathered(adds: seq<Term>, terms: seq<Term>, constant: int) {
    constant == Numbers(adds) && Distinct(terms) && TermsOf(adds, terms) && Covered(adds, terms)
    && InOrder(adds, terms) && Conserved(adds, terms, constant)
  }

  /** `e` is an addend that no earlier one is equal to. */
  ghost predicate FirstAt(adds: seq<Term>, j: nat, e: Expr) {
    j < |adds| && adds[j].e == e && forall i | 0 <= i < j :: !Equal(adds[i].e, e)
  }

  ghost predicate InOrder(adds: seq<Term>, terms: seq<Term>) {
    forall i, j, p: nat, q: nat |
      0 <= i < j < |terms| && FirstAt(adds, p, terms[i].e) && FirstAt(adds, q, terms[j].e) :: p < q
  }

  /** Addends and terms have the same sum in every world, and neither has an
      empty node that the other does not have. */
  ghost predicate Conserved(adds: seq<Term>, terms: seq<Term>, constant: int) {
    && (forall w: World :: TermsValue(terms, w) + constant == TermsValue(adds, w))
    && (FullTerms(adds) ==> FullTerms(terms))
  }

  ghost predicate Distinct(terms: seq<Term>) { forall i, j | 0 <= i < j < |terms| :: !Equal(terms[i].e, terms[j].e) }

  ghost predicate TermsOf(adds: seq<Term>, terms: seq<Term>) {
    forall i | 0 <= i < |terms| :: TermOf(adds, terms[i])
  }

  ghost predicate Covered(adds: seq<Term>, terms: seq<Term>) {
    forall j | 0 <= j < |adds| && NumValue(adds[j].e).None? :: HasTerm(terms, adds[j].e)
  }

  ghost predicate TermOf(adds: seq<Term>, t: Term) {
    && NumValue(t.e).None? && t.coefficient == Net(adds, t.e)
    && exists j: nat :: FirstAt(adds, j, t.e)
  }

  ghost predicate HasTerm(terms: seq<Term>, e: Expr) { exists i :: 0 <= i < |terms| && Equal(terms[i].e, e) }

  /** The counters stay in their types after addend `j`: 64 bits for the constant,
      32 bits for the coefficient of a term. */
  ghost predicate CounterFits(adds: seq<Term>, j: nat)
    requires 0 < j <= |adds|
  {
    var t := adds[j - 1];
    if NumValue(t.e).Some? then Int64(t.coefficient * NumValue(t.e).value) && Int64(Numbers(adds[..j]))
    else Int32(Net(adds[..j], t.e))
  }

  /** The counters fit while `more` is added to `adds`. */
  ghost predicate FitsFrom(adds: seq<Term>, more: seq<Term>) {
    forall j | |adds| < j <= |adds + more| :: CounterFits(adds + more, j)
  }

  // ----- Collecting ----------------------------------------------------------------------------------------------

  lemma FitsSplit(adds: seq<Term>, a: seq<Term>, b: seq<Term>)
    ensures FitsFrom(adds, a + b) <==> FitsFrom(adds, a) && FitsFrom(adds + a, b)
  {
    assert adds + (a + b) == (adds + a) + b;
    forall j | |adds| < j <= |adds + a| ensures CounterFits(adds + (a + b), j) <==> CounterFits(adds + a, j) {
      assert (adds + (a + b))[..j] == (adds + a)[..j];
    }
    if FitsFrom(adds, a) && FitsFrom(adds + a, b) {
      forall j | |adds| < j <= |adds + (a + b)| ensures CounterFits(adds + (a + b), j) {
        if j <= |adds + a| { assert CounterFits(adds + a, j); } else { assert CounterFits((adds + a) + b, j); }
      }
    }
    if FitsFrom(adds, a + b) {
      forall j | |adds| < j <= |adds + a| ensures CounterFits(adds + a, j) { assert CounterFits(adds + (a + b), j); }
    }
  }

  lemma FitsOne(adds: seq<Term>, t: Term)
    ensures FitsFrom(adds, [t]) <==> CounterFits(adds + [t], |adds| + 1)
  {}

  lemma NetNext(adds: seq<Term>, t: Term, e: Expr)
    ensures Net(adds + [t], e) == Net(adds, e) + if Equal(t.e, e) then t.coefficient else 0
    ensures Numbers(adds + [t]) == Numbers(adds) + if NumValue(t.e).Some? then t.coefficient * NumValue(t.e).value
                                                   else 0
  {
    assert (adds + [t])[..|adds|] == adds;
  }

  /** Equal terms have the same count. */
  lemma {:induction false} NetAlike(adds: seq<Term>, a: Expr, b: Expr)
    requires Equal(a, b)
    ensures Net(adds, a) == Net(adds, b)
  {
    if adds != [] {
      var x := adds[|adds| - 1].e;
      NetAlike(adds[..|adds| - 1], a, b);
      EqualSymmetric(a, b);
      if Equal(x, a) { EqualTransitive(x, a, b); }
      if Equal(x, b) { EqualTransitive(x, b, a); }
    }
  }

  /** What is equal to no addend has no count. */
  lemma {:induction false} NetNone(adds: seq<Term>, e: Expr)
    requires forall j | 0 <= j < |adds| :: !Equal(adds[j].e, e)
    ensures Net(adds, e) == 0
  {
    if adds != [] { NetNone(adds[..|adds| - 1], e); }
  }

  lemma TermStays(adds: seq<Term>, t: Term, x: Term)
    requires TermOf(adds, x) && !Equal(t.e, x.e)
    ensures TermOf(adds + [t], x)
  {
    NetNext(adds, t, x.e);
    var j: nat :| FirstAt(adds, j, x.e);
    FirstStays(adds, t, j, x.e);
  }

  /** More addends leave the first ones first. */
  lemma FirstStays(adds: seq<Term>, t: Term, j: nat, e: Expr)
    requires FirstAt(adds, j, e)
    ensures FirstAt(adds + [t], j, e)
    ensures forall p: nat :: FirstAt(adds + [t], p, e) ==> p == j
  {
    EqualSelf(e);
    assert (adds + [t])[j] == adds[j];
    forall i | 0 <= i < j ensures !Equal((adds + [t])[i].e, e) { assert (adds + [t])[i] == adds[i]; }
  }

  lemma OrderStays(adds: seq<Term>, t: Term, terms: seq<Term>)
    requires TermsOf(adds, terms) && InOrder(adds, terms)
    ensures InOrder(adds + [t], terms)
  {
    forall i, j, p: nat, q: nat |
      0 <= i < j < |terms| && FirstAt(adds + [t], p, terms[i].e) && FirstAt(adds + [t], q, terms[j].e)
      ensures p < q
    {
      FirstStill(adds, t, terms[i], p);
      FirstStill(adds, t, terms[j], q);
    }
  }

  lemma FirstStill(adds: seq<Term>, t: Term, x: Term, p: nat)
    requires TermOf(adds, x) && FirstAt(adds + [t], p, x.e)
    ensures FirstAt(adds, p, x.e)
  {
    var j: nat :| FirstAt(adds, j, x.e);
    FirstStays(adds, t, j, x.e);
  }

  lemma FullStays(adds: seq<Term>, t: Term)
    ensures FullTerms(adds + [t]) <==> FullTerms(adds) && Full(t.e)
  {
    if FullTerms(adds + [t]) {
      forall i | 0 <= i < |adds| ensures Full(adds[i].e) { assert (adds + [t])[i] == adds[i]; }
      assert (adds + [t])[|adds|] == t;
    }
  }

  lemma ConservedNumber(adds: seq<Term>, terms: seq<Term>, constant: int, t: Term)
    requires Conserved(adds, terms, constant) && NumValue(t.e).Some?
    ensures Conserved(adds + [t], terms, constant + t.coefficient * NumValue(t.e).value)
  {
    FullStays(adds, t);
    forall w: World
      ensures TermsValue(terms, w) + (constant + t.coefficient * NumValue(t.e).value) == TermsValue(adds + [t], w)
    {
      TermAppended(adds, t, w);
      assert Value(t.e, w) == NumValue(t.e).value;
    }
  }

  lemma ConservedSame(adds: seq<Term>, terms: seq<Term>, constant: int, t: Term, k: nat)
    requires Conserved(adds, terms, constant) && k < |terms| && Equal(terms[k].e, t.e)
    ensures Conserved(adds + [t], CountedMore(terms, k, t.coefficient), constant)
  {
    FullStays(adds, t);
    forall w: World
      ensures TermsValue(CountedMore(terms, k, t.coefficient), w) + constant == TermsValue(adds + [t], w)
    {
      TermAppended(adds, t, w);
      TermAdded(terms, k, t.coefficient, w);
      EqualValues(terms[k].e, t.e, w);
    }
  }

  lemma ConservedNew(adds: seq<Term>, terms: seq<Term>, constant: int, t: Term)
    requires Conserved(adds, terms, constant)
    ensures Conserved(adds + [t], terms + [t], constant)
  {
    FullStays(adds, t);
    FullStays(terms, t);
    forall w: World ensures TermsValue(terms + [t], w) + constant == TermsValue(adds + [t], w) {
      TermAppended(adds, t, w);
      TermAppended(terms, t, w);
    }
  }

  /** Terms that are equal to nothing new stay as they are. */
  lemma TermsStay(adds: seq<Term>, t: Term, terms: seq<Term>)
    requires TermsOf(adds, terms) && forall i | 0 <= i < |terms| :: !Equal(t.e, terms[i].e)
    ensures TermsOf(adds + [t], terms)
  {
    forall i | 0 <= i < |terms| ensures TermOf(adds + [t], terms[i]) { TermStays(adds, t, terms[i]); }
  }

  lemma NumberCovered(adds: seq<Term>, t: Term, terms: seq<Term>)
    requires Covered(adds, terms) && NumValue(t.e).Some?
    ensures Covered(adds + [t], terms)
  {
    forall j | 0 <= j < |adds + [t]| && NumValue((adds + [t])[j].e).None? ensures HasTerm(terms, (adds + [t])[j].e) {
      assert (adds + [t])[j] == adds[j];
    }
  }

  lemma NumberUnequal(adds: seq<Term>, t: Term, terms: seq<Term>)
    requires TermsOf(adds, terms) && NumValue(t.e).Some?
    ensures forall i | 0 <= i < |terms| :: !Equal(t.e, terms[i].e)
  {
    forall i | 0 <= i < |terms| ensures !Equal(t.e, terms[i].e) { assert TermOf(adds, terms[i]); }
  }

  lemma GatherNumber(adds: seq<Term>, terms: seq<Term>, constant: int, t: Term)
    requires Gathered(adds, terms, constant) && NumValue(t.e).Some?
    ensures Gathered(adds + [t], terms, constant + t.coefficient * NumValue(t.e).value)
  {
    NetNext(adds, t, t.e);
    ConservedNumber(adds, terms, constant, t);
    NumberUnequal(adds, t, terms);
    TermsStay(adds, t, terms);
    OrderStays(adds, t, terms);
    NumberCovered(adds, t, terms);
  }

  /** Term `k` is counted once more. */
  function CountedMore(terms: seq<Term>, k: nat, sign: int): (r: seq<Term>)
    requires k < |terms|
    ensures |r| == |terms| && forall i | 0 <= i < |r| :: r[i].e == terms[i].e
  {
    terms[k := terms[k].(coefficient := terms[k].coefficient + sign)]
  }

  /** One more of a term that is there. */
  lemma GatherSame(adds: seq<Term>, terms: seq<Term>, constant: int, t: Term, k: nat)
    requires Gathered(adds, terms, constant) && NumValue(t.e).None? && k < |terms| && Equal(terms[k].e, t.e)
    ensures Gathered(adds + [t], CountedMore(terms, k, t.coefficient), constant)
    ensures terms[k].coefficient + t.coefficient == Net(adds + [t], t.e)
  {
    NetNext(adds, t, t.e);
    ConservedSame(adds, terms, constant, t, k);
    SameTermsOf(adds, terms, t, k);
    OrderStays(adds, t, terms);
    SameOrder(adds + [t], terms, CountedMore(terms, k, t.coefficient));
    HasTermSame(adds, terms, CountedMore(terms, k, t.coefficient), t, k);
    NetAlike(adds + [t], terms[k].e, t.e);
    assert TermOf(adds + [t], CountedMore(terms, k, t.coefficient)[k]);
  }

  lemma SameOrder(adds: seq<Term>, terms: seq<Term>, more: seq<Term>)
    requires InOrder(adds, terms) && |more| == |terms| && forall i | 0 <= i < |terms| :: more[i].e == terms[i].e
    ensures InOrder(adds, more)
  {}

  lemma SameTermsOf(adds: seq<Term>, terms: seq<Term>, t: Term, k: nat)
    requires TermsOf(adds, terms) && Distinct(terms) && k < |terms| && Equal(terms[k].e, t.e)
    ensures TermsOf(adds + [t], CountedMore(terms, k, t.coefficient))
  {
    var more := CountedMore(terms, k, t.coefficient);
    SameCounted(adds, terms, t, k);
    forall i | 0 <= i < |more| ensures TermOf(adds + [t], more[i]) {
      if i != k {
        SecondEqual(terms, k, i, t.e);
        TermStays(adds, t, terms[i]);
      }
    }
  }

  lemma SameCounted(adds: seq<Term>, terms: seq<Term>, t: Term, k: nat)
    requires k < |terms| && TermOf(adds, terms[k]) && Equal(terms[k].e, t.e)
    ensures TermOf(adds + [t], CountedMore(terms, k, t.coefficient)[k])
  {
    EqualSymmetric(terms[k].e, t.e);
    NetNext(adds, t, terms[k].e);
    var j: nat :| FirstAt(adds, j, terms[k].e);
    FirstStays(adds, t, j, terms[k].e);
  }

  /** No other term is equal to what equals term `k`. */
  lemma SecondEqual(terms: seq<Term>, k: nat, i: nat, e: Expr)
    requires k < |terms| && i < |terms| && i != k && Equal(terms[k].e, e) && Distinct(terms)
    ensures !Equal(e, terms[i].e)
  {
    if Equal(e, terms[i].e) {
      EqualTransitive(terms[k].e, e, terms[i].e);
      EqualSymmetric(terms[k].e, terms[i].e);
      assert false;
    }
  }

  lemma HasTermSame(adds: seq<Term>, terms: seq<Term>, more: seq<Term>, t: Term, k: nat)
    requires k < |terms| == |more| && Equal(terms[k].e, t.e) && Covered(adds, terms)
    requires forall i | 0 <= i < |terms| :: more[i].e == terms[i].e
    ensures Covered(adds + [t], more)
  {
    forall j | 0 <= j < |adds + [t]| && NumValue((adds + [t])[j].e).None? ensures HasTerm(more, (adds + [t])[j].e) {
      if j < |adds| {
        assert (adds + [t])[j] == adds[j];
        var i :| 0 <= i < |terms| && Equal(terms[i].e, adds[j].e);
        assert Equal(more[i].e, adds[j].e);
      } else {
        assert Equal(more[k].e, t.e);
      }
    }
  }

  /** A new term. */
  lemma GatherNew(adds: seq<Term>, terms: seq<Term>, constant: int, t: Term)
    requires Gathered(adds, terms, constant) && NumValue(t.e).None?
    requires forall i | 0 <= i < |terms| :: !Equal(terms[i].e, t.e)
    ensures Gathered(adds + [t], terms + [t], constant) && Net(adds + [t], t.e) == t.coefficient
  {
    NewCount(adds, terms, t);
    NewDistinct(terms, t);
    NothingEqual(adds, terms, t.e);
    NewTermOf(adds, t);
    NewTermsOf(adds, terms, t);
    NewOrder(adds, terms, t);
    NewCovered(adds, terms, t);
    ConservedNew(adds, terms, constant, t);
  }

  lemma NewDistinct(terms: seq<Term>, t: Term)
    requires Distinct(terms) && forall i | 0 <= i < |terms| :: !Equal(terms[i].e, t.e)
    ensures Distinct(terms + [t])
  {}

  lemma NewCount(adds: seq<Term>, terms: seq<Term>, t: Term)
    requires Covered(adds, terms) && NumValue(t.e).None? && forall i | 0 <= i < |terms| :: !Equal(terms[i].e, t.e)
    ensures Net(adds + [t], t.e) == t.coefficient && Equal(t.e, t.e) && Numbers(adds + [t]) == Numbers(adds)
  {
    NothingEqual(adds, terms, t.e);
    NetNone(adds, t.e);
    NetNext(adds, t, t.e);
    EqualSelf(t.e);
  }

  lemma NewTermsOf(adds: seq<Term>, terms: seq<Term>, t: Term)
    requires TermsOf(adds, terms) && TermOf(adds + [t], t)
    requires forall i | 0 <= i < |terms| :: !Equal(terms[i].e, t.e)
    ensures TermsOf(adds + [t], terms + [t])
  {
    forall i | 0 <= i < |terms| ensures !Equal(t.e, terms[i].e) {
      if Equal(t.e, terms[i].e) { EqualSymmetric(t.e, terms[i].e); }
    }
    TermsStay(adds, t, terms);
  }

  lemma NewTermOf(adds: seq<Term>, t: Term)
    requires NumValue(t.e).None? && Net(adds + [t], t.e) == t.coefficient
    requires forall j | 0 <= j < |adds| :: !Equal(adds[j].e, t.e)
    ensures TermOf(adds + [t], t)
  {
    NewFirst(adds, t);
  }

  lemma NewFirst(adds: seq<Term>, t: Term)
    requires forall j | 0 <= j < |adds| :: !Equal(adds[j].e, t.e)
    ensures FirstAt(adds + [t], |adds|, t.e)
    ensures forall p: nat :: FirstAt(adds + [t], p, t.e) ==> p == |adds|
  {
    EqualSelf(t.e);
    forall i | 0 <= i < |adds| ensures !Equal((adds + [t])[i].e, t.e) { assert (adds + [t])[i] == adds[i]; }
  }

  lemma NewOrder(adds: seq<Term>, terms: seq<Term>, t: Term)
    requires TermsOf(adds, terms) && InOrder(adds, terms)
    requires forall j | 0 <= j < |adds| :: !Equal(adds[j].e, t.e)
    ensures InOrder(adds + [t], terms + [t])
  {
    OrderStays(adds, t, terms);
    NewFirst(adds, t);
    forall i, j, p: nat, q: nat |
      && 0 <= i < j < |terms + [t]|
      && FirstAt(adds + [t], p, (terms + [t])[i].e) && FirstAt(adds + [t], q, (terms + [t])[j].e)
      ensures p < q
    {
      assert (terms + [t])[i] == terms[i];
      if j < |terms| { assert (terms + [t])[j] == terms[j]; } else { FirstStill(adds, t, terms[i], p); }
    }
  }

  lemma NewCovered(adds: seq<Term>, terms: seq<Term>, t: Term)
    requires Covered(adds, terms) && Equal(t.e, t.e)
    ensures Covered(adds + [t], terms + [t])
  {
    forall j | 0 <= j < |adds + [t]| && NumValue((adds + [t])[j].e).None?
      ensures HasTerm(terms + [t], (adds + [t])[j].e)
    {
      if j < |adds| {
        assert (adds + [t])[j] == adds[j];
        var i :| 0 <= i < |terms| && Equal(terms[i].e, adds[j].e);
        assert (terms + [t])[i] == terms[i];
      } else {
        assert (terms + [t])[|terms|] == t;
      }
    }
  }

  /** What is equal to no term is equal to no addend. */
  lemma NothingEqual(adds: seq<Term>, terms: seq<Term>, e: Expr)
    requires Covered(adds, terms) && NumValue(e).None?
    requires forall i | 0 <= i < |terms| :: !Equal(terms[i].e, e)
    ensures forall j | 0 <= j < |adds| :: !Equal(adds[j].e, e)
  {
    forall j | 0 <= j < |adds| ensures !Equal(adds[j].e, e) {
      if Equal(adds[j].e, e) {
        assert HasTerm(terms, adds[j].e);
        var i :| 0 <= i < |terms| && Equal(terms[i].e, adds[j].e);
        EqualTransitive(terms[i].e, adds[j].e, e);
        assert false;
      }
    }
  }

  /** The first term that is equal, or the number of terms. */
  method Find(terms: seq<Term>, e: Expr) returns (k: nat)
    ensures k <= |terms| && (k < |terms| ==> Equal(terms[k].e, e))
    ensures forall i | 0 <= i < k :: !Equal(terms[i].e, e)
  {
    k := 0;
    while k < |terms| && !Equal(terms[k].e, e)
      invariant k <= |terms| && forall i | 0 <= i < k :: !Equal(terms[i].e, e)
    {
      k := k + 1;
    }
  }

  /** The loop over the terms: an equal one is counted, or a new one is added. */
  method Counted(terms: seq<Term>, e: Expr, sign: int, ghost adds: seq<Term>, ghost constant: int)
    returns (more: seq<Term>, ok: bool)
    requires Gathered(adds, terms, constant) && NumValue(e).None? && (sign == 1 || sign == -1)
    ensures Gathered(adds + [Term(e, sign)], more, constant)
    ensures ok <==> CounterFits(adds + [Term(e, sign)], |adds| + 1)
  {
    assert (adds + [Term(e, sign)])[..|adds| + 1] == adds + [Term(e, sign)];
    var k := Find(terms, e);
    if k < |terms| {
      GatherSame(adds, terms, constant, Term(e, sign), k);
      more, ok := CountedMore(terms, k, sign), Int32(terms[k].coefficient + sign);
    } else {
      GatherNew(adds, terms, constant, Term(e, sign));
      more, ok := terms + [Term(e, sign)], true;
    }
  }

  class Collector {
    var terms: seq<Term>
    var constant: int

    constructor ()
      ensures Holds([])
    {
      terms, constant := [], 0;
    }

    /** What was collected from these addends. */
    ghost predicate Holds(adds: seq<Term>)
      reads this
    {
      Gathered(adds, terms, constant)
    }

    /** collect: adds the signed addends of the expression to what was collected,
        exactly unless a counter overflows. */
    method Collect(e: Expr, sign: int, ghost adds: seq<Term>) returns (ok: bool)
      requires (sign == 1 || sign == -1) && Holds(adds)
      modifies this
      ensures ok <==> FitsFrom(adds, Addends(e, sign))
      ensures ok ==> Holds(adds + Addends(e, sign))
      decreases e
    {
      if IsSum(e) {
        var sign' := if e.value == "+" then sign else -sign;
        ghost var left, right := Addends(e.sub[0], sign), Addends(e.sub[1], sign');
        FitsSplit(adds, left, right);
        assert adds + (left + right) == (adds + left) + right;
        ok := Collect(e.sub[0], sign, adds);
        if ok { ok := Collect(e.sub[1], sign', adds + left); }
        return;
      }
      FitsOne(adds, Term(e, sign));
      if NumValue(e).Some? { ok := AddNumber(e, sign, adds); } else { ok := AddTerm(e, sign, adds); }
    }

    method AddNumber(e: Expr, sign: int, ghost adds: seq<Term>) returns (ok: bool)
      requires (sign == 1 || sign == -1) && Holds(adds) && NumValue(e).Some?
      modifies this
      ensures ok <==> CounterFits(adds + [Term(e, sign)], |adds| + 1)
      ensures ok ==> Holds(adds + [Term(e, sign)])
    {
      GatherNumber(adds, terms, constant, Term(e, sign));
      assert (adds + [Term(e, sign)])[..|adds| + 1] == adds + [Term(e, sign)];
      constant := constant + sign * NumValue(e).value;
      ok := Int64(sign * NumValue(e).value) && Int64(constant);
    }

    method AddTerm(e: Expr, sign: int, ghost adds: seq<Term>) returns (ok: bool)
      requires (sign == 1 || sign == -1) && Holds(adds) && NumValue(e).None?
      modifies this
      ensures ok <==> CounterFits(adds + [Term(e, sign)], |adds| + 1)
      ensures ok ==> Holds(adds + [Term(e, sign)])
    {
      var more;
      more, ok := Counted(terms, e, sign, adds, constant);
      terms := more;
    }
  }

  // ----- Rebuilding --------------------------------------------------------------------------------------------

  function Abs(x: int): int { if x < 0 then -x else x }

  /** The term with its coefficient's magnitude. */
  function Scaled(t: Term): Expr {
    if t.coefficient == 1 || t.coefficient == -1 then t.e else Expr(Binary, "*", [MakeNum(Abs(t.coefficient)), t.e])
  }

  /** The result so far, extended by one term; the first positive one stands alone. */
  function Extended(result: Expr, t: Term): Expr {
    if t.coefficient == 0 then result
    else if result.kind.Empty? && t.coefficient > 0 then Scaled(t)
    else Expr(Binary, if t.coefficient > 0 then "+"
                      else "-", [if result.kind.Empty? then MakeNum(0) else result, Scaled(t)])
  }

  lemma ScaledValue(t: Term, w: World)
    requires t.coefficient != 0
    ensures Value(Scaled(t), w) == Abs(t.coefficient) * Value(t.e, w) && (Full(t.e) ==> Full(Scaled(t)))
  {
    assert Value(MakeNum(Abs(t.coefficient)), w) == Abs(t.coefficient);
  }

  lemma ExtendedValue(result: Expr, t: Term, w: World)
    requires w.empty == 0
    ensures Value(Extended(result, t), w) == Value(result, w) + t.coefficient * Value(t.e, w)
    ensures Full(t.e) && (Full(result) || result.kind.Empty?) ==>
            Full(Extended(result, t)) || Extended(result, t).kind.Empty?
  {
    if t.coefficient != 0 {
      ScaledValue(t, w);
      assert Value(MakeNum(0), w) == 0;
      assert t.coefficient > 0 ==> Abs(t.coefficient) * Value(t.e, w) == t.coefficient * Value(t.e, w);
      assert t.coefficient < 0 ==> Abs(t.coefficient) * Value(t.e, w) == -(t.coefficient * Value(t.e, w));
    }
  }

  /** A term as an addend of the result: alone or times its count. */
  function Written(t: Term): Term
    requires t.coefficient != 0
  {
    Term(if t.coefficient == 1 || t.coefficient == -1 then t.e
         else Expr(Binary, "*", [MakeNum(if t.coefficient > 0 then t.coefficient else -t.coefficient), t.e]),
         if t.coefficient > 0 then 1 else -1)
  }

  /** The terms that do not cancel, in order. */
  function WrittenAll(terms: seq<Term>): seq<Term> {
    if terms == [] then []
    else
      var last := terms[|terms| - 1];
      WrittenAll(terms[..|terms| - 1]) + if last.coefficient == 0 then [] else [Written(last)]
  }

  /** A sum cannot begin with a subtraction: then a zero comes first. */
  function FromZero(written: seq<Term>): seq<Term> {
    if written != [] && written[0].coefficient < 0 then [Term(MakeNum(0), 1)] + written else written
  }

  /** The addends of the result: the terms that do not cancel and the constant
      where it is not zero, or the constant alone. */
  function Listed(terms: seq<Term>, constant: int): seq<Term> {
    if WrittenAll(terms) == [] then [Term(MakeNum(constant), 1)]
    else FromZero(WrittenAll(terms)) + if constant == 0 then [] else [Term(MakeNum(constant), 1)]
  }

  /** Terms are no sums, no numbers and not empty. */
  predicate Atomic(terms: seq<Term>) {
    forall i | 0 <= i < |terms| :: !terms[i].e.kind.Empty? && !IsSum(terms[i].e) && NumValue(terms[i].e).None?
  }

  /** What was rebuilt so far lists these terms. */
  ghost predicate Lists(result: Expr, written: seq<Term>) {
    if written == [] then result == Expr(Empty, "", [])
    else !result.kind.Empty? && NumValue(result).None? && Addends(result, 1) == FromZero(written)
  }

  lemma ExtendedLists(result: Expr, terms: seq<Term>, t: Term)
    requires Lists(result, WrittenAll(terms)) && !t.e.kind.Empty? && !IsSum(t.e) && NumValue(t.e).None?
    ensures Lists(Extended(result, t), WrittenAll(terms + [t]))
  {
    assert (terms + [t])[..|terms|] == terms;
    if t.coefficient != 0 {
      WrittenScaled(t);
      FromZeroMore(WrittenAll(terms), Written(t));
      assert Addends(MakeNum(0), 1) == [Term(MakeNum(0), 1)];
    }
  }

  lemma WrittenScaled(t: Term)
    requires t.coefficient != 0 && !t.e.kind.Empty? && !IsSum(t.e) && NumValue(t.e).None?
    ensures Written(t) == Term(Scaled(t), if t.coefficient > 0 then 1 else -1)
    ensures !Scaled(t).kind.Empty? && NumValue(Scaled(t)).None?
    ensures forall sign: int :: Addends(Scaled(t), sign) == [Term(Scaled(t), sign)]
  {}

  lemma FromZeroMore(written: seq<Term>, t: Term)
    ensures written != [] ==> FromZero(written + [t]) == FromZero(written) + [t]
    ensures written == [] ==> FromZero(written + [t]) == if t.coefficient < 0 then [Term(MakeNum(0), 1), t] else [t]
  {}

  predicate TidyTerms(terms: seq<Term>) { forall i | 0 <= i < |terms| :: Tidy(terms[i].e) && !IsSum(terms[i].e) }

  lemma SumTidy(op: string, a: Expr, b: Expr)
    requires (op == "+" || op == "-") && Tidy(a) && Tidy(b) && (NumValue(a).None? || NumValue(b).None?)
    ensures Tidy(Expr(Binary, op, [a, b]))
  {}

  lemma ScaledTidy(t: Term)
    requires Tidy(t.e) && !IsSum(t.e) && NumValue(t.e).None?
    ensures Tidy(Scaled(t)) && NumValue(Scaled(t)).None?
  {
    assert Tidy(MakeNum(Abs(t.coefficient)));
  }

  lemma ExtendedTidy(result: Expr, t: Term)
    requires Tidy(result) && NumValue(result).None? && Tidy(t.e) && !IsSum(t.e) && NumValue(t.e).None?
    ensures Tidy(Extended(result, t)) && NumValue(Extended(result, t)).None?
  {
    if t.coefficient != 0 {
      ScaledTidy(t);
      assert Tidy(MakeNum(0));
      if !(result.kind.Empty? && t.coefficient > 0) {
        SumTidy(if t.coefficient > 0 then "+" else "-", if result.kind.Empty? then MakeNum(0) else result, Scaled(t));
      }
    }
  }

  /** The loop over the terms. */
  method RebuildTerms(terms: seq<Term>) returns (result: Expr)
    ensures forall w: World | w.empty == 0 :: Value(result, w) == TermsValue(terms, w)
    ensures FullTerms(terms) ==> Full(result) || result.kind.Empty?
    ensures |terms| == 1 && terms[0].e.kind.Empty? && terms[0].coefficient == 1 ==> result.kind.Empty?
    ensures Atomic(terms) ==> Lists(result, WrittenAll(terms))
    ensures TidyTerms(terms) && NumberFree(terms) ==> Tidy(result) && NumValue(result).None?
  {
    result := Expr(Empty, "", []);
    for k := 0 to |terms|
      invariant forall w: World | w.empty == 0 :: Value(result, w) == TermsValue(terms[..k], w)
      invariant FullTerms(terms) ==> Full(result) || result.kind.Empty?
      invariant |terms| == 1 && terms[0].e.kind.Empty? && terms[0].coefficient == 1 ==> result.kind.Empty?
      invariant Atomic(terms) ==> Lists(result, WrittenAll(terms[..k]))
      invariant TidyTerms(terms) && NumberFree(terms) ==> Tidy(result) && NumValue(result).None?
    {
      assert terms[..k + 1] == terms[..k] + [terms[k]];
      ExtendedValues(result, terms[..k], terms[k]);
      if Atomic(terms) { ExtendedLists(result, terms[..k], terms[k]); }
      if TidyTerms(terms) && NumberFree(terms) { ExtendedTidy(result, terms[k]); }
      result := Extended(result, terms[k]);
    }
    assert terms[..|terms|] == terms;
  }

  predicate NumberFree(terms: seq<Term>) { forall i | 0 <= i < |terms| :: NumValue(terms[i].e).None? }

  lemma ExtendedValues(result: Expr, terms: seq<Term>, t: Term)
    requires forall w: World | w.empty == 0 :: Value(result, w) == TermsValue(terms, w)
    ensures forall w: World | w.empty == 0 :: Value(Extended(result, t), w) == TermsValue(terms + [t], w)
    ensures Full(t.e) && (Full(result) || result.kind.Empty?) ==>
            Full(Extended(result, t)) || Extended(result, t).kind.Empty?
  {
    forall w: World | w.empty == 0 ensures Value(Extended(result, t), w) == TermsValue(terms + [t], w) {
      ExtendedValue(result, t, w);
      TermAppended(terms, t, w);
    }
    ExtendedValue(result, t, World(0, (k, v, s) => 0));
  }

  /** The sum of the collected terms and the constant. */
  method Rebuild(terms: seq<Term>, constant: int) returns (result: Expr)
    ensures forall w: World | w.empty == 0 :: Value(result, w) == TermsValue(terms, w) + constant
    ensures FullTerms(terms) ==> Full(result)
    ensures constant == 0 && |terms| == 1 && terms[0].e.kind.Empty? && terms[0].coefficient == 1 ==>
            result == MakeNum(0)
    ensures Atomic(terms) ==> Addends(result, 1) == Listed(terms, constant)
    ensures TidyTerms(terms) && NumberFree(terms) ==> Tidy(result)
  {
    result := RebuildTerms(terms);
    if result.kind.Empty? { return MakeNum(constant); }
    if constant != 0 {
      ghost var sum := result;
      result := Expr(Binary, "+", [result, MakeNum(constant)]);
      assert forall w: World :: Value(result, w) == Value(sum, w) + Value(MakeNum(constant), w);
      assert Addends(MakeNum(constant), 1) == [Term(MakeNum(constant), 1)];
      if TidyTerms(terms) && NumberFree(terms) { SumTidy("+", sum, MakeNum(constant)); }
    }
  }

  // ----- Addends of an expression ---------------------------------------------------------------------------------

  lemma {:induction false} ValueConcat(a: seq<Term>, b: seq<Term>, w: World)
    ensures TermsValue(a + b, w) == TermsValue(a, w) + TermsValue(b, w)
  {
    if b == [] {
      assert a + b == a;
    } else {
      var last := |b| - 1;
      ValueConcat(a, b[..last], w);
      assert (a + b)[..|a + b| - 1] == a + b[..last];
    }
  }

  lemma SignedSum(sign: int, x: int, y: int)
    ensures sign * x + sign * y == sign * (x + y) && sign * x + -sign * y == sign * (x - y)
  {}

  /** The signed addends add up to the expression. */
  lemma {:induction false} AddendsValue(e: Expr, sign: int, w: World)
    ensures TermsValue(Addends(e, sign), w) == sign * Value(e, w)
  {
    if IsSum(e) {
      var sign' := if e.value == "+" then sign else -sign;
      AddendsValue(e.sub[0], sign, w);
      AddendsValue(e.sub[1], sign', w);
      ValueConcat(Addends(e.sub[0], sign), Addends(e.sub[1], sign'), w);
      SignedSum(sign, Value(e.sub[0], w), Value(e.sub[1], w));
    } else {
      TermAppended([], Term(e, sign), w);
    }
  }

  lemma {:induction false} AddendsTidy(e: Expr, sign: int)
    ensures Tidy(e) ==> TidyTerms(Addends(e, sign))
    ensures Full(e) ==> FullTerms(Addends(e, sign))
  {
    if IsSum(e) {
      AddendsTidy(e.sub[0], sign);
      AddendsTidy(e.sub[1], if e.value == "+" then sign else -sign);
    }
  }

  /** Collected terms are addends, so they are what these are. */
  lemma TermsTidy(f: Expr, terms: seq<Term>, constant: int)
    requires Tidy(f) && Gathered(Addends(f, 1), terms, constant)
    ensures TidyTerms(terms) && NumberFree(terms) && (Full(f) ==> Atomic(terms) && FullTerms(terms))
  {
    AddendsTidy(f, 1);
    forall i | 0 <= i < |terms|
      ensures Tidy(terms[i].e) && !IsSum(terms[i].e) && NumValue(terms[i].e).None? && (Full(f) ==> Full(terms[i].e))
    {
      assert TermOf(Addends(f, 1), terms[i]);
    }
  }

  // ----- simplify ---------------------------------------------------------------------------------------------------

  /** A full expression does not see what empty nodes mean. */
  lemma {:induction false} FullIgnoresEmpty(e: Expr, w: World, x: int)
    requires Full(e)
    ensures Value(e, w.(empty := x)) == Value(e, w)
  {
    forall i | 0 <= i < |e.sub| ensures Value(e.sub[i], w.(empty := x)) == Value(e.sub[i], w) {
      FullIgnoresEmpty(e.sub[i], w, x);
    }
    assert Values(e.sub, w.(empty := x)) == Values(e.sub, w);
  }

  /** No coefficient is the one whose magnitude a 32-bit `int` does not have. */
  ghost predicate MagnitudesFit(adds: seq<Term>) {
    forall j | 0 <= j < |adds| && NumValue(adds[j].e).None? :: Net(adds, adds[j].e) != -0x8000_0000
  }

  /** Nothing overflows: no folding of two numbers, no counter of collecting and
      no magnitude of a coefficient. */
  ghost predicate Accepted(e: Expr) {
    var f := Prepared(e);
    f.Some? && FitsFrom([], Addends(f.value, 1)) && MagnitudesFit(Addends(f.value, 1))
  }

  /** The addends of `r` are the terms of `f` that do not cancel, each once with
      its net count, and the sum of the numbers. */
  ghost predicate Collected(f: Expr, r: Expr) {
    exists terms, constant :: Gathered(Addends(f, 1), terms, constant) && Addends(r, 1) == Listed(terms, constant)
  }

  lemma MagnitudesOf(adds: seq<Term>, terms: seq<Term>, constant: int)
    requires Gathered(adds, terms, constant)
    ensures MagnitudesFit(adds) <==> forall i | 0 <= i < |terms| :: terms[i].coefficient != -0x8000_0000
  {
    if MagnitudesFit(adds) {
      forall i | 0 <= i < |terms| ensures terms[i].coefficient != -0x8000_0000 { assert TermOf(adds, terms[i]); }
    }
    if forall i | 0 <= i < |terms| :: terms[i].coefficient != -0x8000_0000 {
      forall j | 0 <= j < |adds| && NumValue(adds[j].e).None? ensures Net(adds, adds[j].e) != -0x8000_0000 {
        assert HasTerm(terms, adds[j].e);
        var i :| 0 <= i < |terms| && Equal(terms[i].e, adds[j].e);
        NetAlike(adds, terms[i].e, adds[j].e);
        assert TermOf(adds, terms[i]);
      }
    }
  }

  /** Expr::simplify. It fails exactly where something overflows. Otherwise it
      keeps the value of the expression, whatever its opaque operations mean; an
      empty node counts as 0, so expressions without one keep their value in
      every world, and the bare empty node becomes the number 0. The result has
      no wrapper, no product of a sum and no operation on two numbers, and its
      addends are the terms that do not cancel. */
  method Simplify(e: Expr) returns (r: Option<Expr>)
    ensures r.Some? <==> Accepted(e)
    ensures r.Some? ==> forall w: World | w.empty == 0 || Full(e) :: Value(r.value, w) == Value(e, w)
    ensures r.Some? && Full(e) ==> Full(r.value)
    ensures r.Some? ==> Tidy(r.value)
    ensures r.Some? && Full(e) ==> Collected(Prepared(e).value, r.value)
    ensures e.kind.Empty? && e.sub == [] ==> r == Some(MakeNum(0))
  {
    var f := Prepare(e);
    if f.None? { return None; }
    var ok, terms, constant := CollectTerms(f.value);
    if e.kind.Empty? && e.sub == [] { EmptyFits(e); }
    if !ok { return None; }
    r := RebuildFrom(e, f.value, terms, constant);
  }

  /** The terms and the constant of a prepared expression, if no counter overflows. */
  method CollectTerms(f: Expr) returns (ok: bool, terms: seq<Term>, constant: int)
    ensures ok <==> FitsFrom([], Addends(f, 1)) && MagnitudesFit(Addends(f, 1))
    ensures ok ==> Gathered(Addends(f, 1), terms, constant)
  {
    var collector := new Collector();
    ok := collector.Collect(f, 1, []);
    assert [] + Addends(f, 1) == Addends(f, 1);
    terms, constant := collector.terms, collector.constant;
    if ok {
      MagnitudesOf(Addends(f, 1), terms, constant);
      ok := forall i | 0 <= i < |terms| :: terms[i].coefficient != -0x8000_0000;
    }
  }

  method RebuildFrom(e: Expr, f: Expr, terms: seq<Term>, constant: int) returns (r: Option<Expr>)
    requires Same(e, f) && Tidy(f) && Gathered(Addends(f, 1), terms, constant)
    ensures r.Some? && Tidy(r.value) && (Full(e) ==> Full(r.value) && Collected(f, r.value))
    ensures forall w: World | w.empty == 0 || Full(e) :: Value(r.value, w) == Value(e, w)
    ensures e == f && e.kind.Empty? && e.sub == [] ==> r == Some(MakeNum(0))
  {
    TermsTidy(f, terms, constant);
    if f.kind.Empty? { EmptyTerms(f, terms, constant); }
    var result := Rebuild(terms, constant);
    forall w: World | w.empty == 0 ensures Value(result, w) == Value(e, w) { AddendsValue(f, 1, w); }
    forall w: World | Full(e) ensures Value(result, w) == Value(e, w) {
      FullIgnoresEmpty(e, w, 0);
      FullIgnoresEmpty(result, w, 0);
    }
    return Some(result);
  }

  lemma EmptyFits(e: Expr)
    requires e.kind.Empty? && e.sub == []
    ensures Tidy(e) && FitsFrom([], Addends(e, 1)) && MagnitudesFit(Addends(e, 1))
  {
    EqualSelf(e);
    NetNext([], Term(e, 1), e);
    assert [] + [Term(e, 1)] == [Term(e, 1)];
    assert [Term(e, 1)][..1] == [Term(e, 1)];
  }

  lemma EmptyTerms(f: Expr, terms: seq<Term>, constant: int)
    requires f.kind.Empty? && Gathered(Addends(f, 1), terms, constant)
    ensures terms == [Term(f, 1)] && constant == 0
  {
    EqualSelf(f);
    assert Addends(f, 1) == [Term(f, 1)];
    NetNext([], Term(f, 1), f);
    assert HasTerm(terms, Addends(f, 1)[0].e);
    forall i | 0 <= i < |terms| ensures terms[i] == Term(f, 1) { assert TermOf(Addends(f, 1), terms[i]); }
    assert [] + [Term(f, 1)] == [Term(f, 1)];
    assert |terms| >= 2 ==> !Equal(terms[0].e, terms[1].e);
  }

  // ----- What cancels -----

  /** Every addend that is no number is subtracted as often as it is added. */
  ghost predicate AllCancel(adds: seq<Term>) {
    forall j | 0 <= j < |adds| && NumValue(adds[j].e).None? :: Net(adds, adds[j].e) == 0
  }

  /** The result is a number exactly if all terms cancel, and then it is the sum
      of the numbers. */
  lemma NumberExactly(f: Expr, r: Expr)
    requires Tidy(f) && Full(f) && Collected(f, r)
    ensures NumValue(r).Some? <==> AllCancel(Addends(f, 1))
    ensures NumValue(r).Some? ==> r == MakeNum(Numbers(Addends(f, 1)))
  {
    var terms, constant :| Gathered(Addends(f, 1), terms, constant) && Addends(r, 1) == Listed(terms, constant);
    NumberOf(f, r, terms, constant);
  }

  lemma NumberOf(f: Expr, r: Expr, terms: seq<Term>, constant: int)
    requires Tidy(f) && Full(f) && Gathered(Addends(f, 1), terms, constant) && Addends(r, 1) == Listed(terms, constant)
    ensures NumValue(r).Some? <==> AllCancel(Addends(f, 1))
    ensures NumValue(r).Some? ==> r == MakeNum(Numbers(Addends(f, 1)))
  {
    TermsTidy(f, terms, constant);
    CancelAlike(Addends(f, 1), terms, constant);
    NumberListed(r, terms, constant);
  }

  predicate CancelledTerms(terms: seq<Term>) { forall i | 0 <= i < |terms| :: terms[i].coefficient == 0 }

  lemma NumberListed(r: Expr, terms: seq<Term>, constant: int)
    requires Addends(r, 1) == Listed(terms, constant) && Atomic(terms)
    ensures NumValue(r).Some? <==> CancelledTerms(terms)
    ensures NumValue(r).Some? ==> r == MakeNum(constant)
  {
    WrittenNothing(terms);
    if WrittenAll(terms) == [] {
      OneAddend(r, MakeNum(constant));
    } else {
      ListedTerm(terms, constant);
      if NumValue(r).Some? { OneNumber(r); }
    }
  }

  lemma OneNumber(r: Expr)
    requires NumValue(r).Some?
    ensures Addends(r, 1) == [Term(r, 1)]
  {}

  lemma {:induction false} WrittenNothing(terms: seq<Term>)
    ensures WrittenAll(terms) == [] <==> CancelledTerms(terms)
  {
    if terms != [] { WrittenNothing(terms[..|terms| - 1]); }
  }

  lemma CancelAlike(adds: seq<Term>, terms: seq<Term>, constant: int)
    requires Gathered(adds, terms, constant)
    ensures CancelledTerms(terms) <==> AllCancel(adds)
  {
    if AllCancel(adds) {
      forall i | 0 <= i < |terms| ensures terms[i].coefficient == 0 { assert TermOf(adds, terms[i]); }
    }
    if CancelledTerms(terms) {
      forall j | 0 <= j < |adds| && NumValue(adds[j].e).None? ensures Net(adds, adds[j].e) == 0 {
        assert HasTerm(terms, adds[j].e);
        var i :| 0 <= i < |terms| && Equal(terms[i].e, adds[j].e);
        NetAlike(adds, terms[i].e, adds[j].e);
        assert TermOf(adds, terms[i]);
      }
    }
  }

  lemma {:induction false} AddendsSome(e: Expr, sign: int)
    ensures |Addends(e, sign)| >= 1 && (IsSum(e) ==> |Addends(e, sign)| >= 2)
  {
    if IsSum(e) {
      AddendsSome(e.sub[0], sign);
      AddendsSome(e.sub[1], if e.value == "+" then sign else -sign);
    }
  }

  lemma OneAddend(r: Expr, e: Expr)
    requires Addends(r, 1) == [Term(e, 1)]
    ensures r == e
  {
    AddendsSome(r, 1);
  }

  /** What lists a term is no number alone. */
  lemma ListedTerm(terms: seq<Term>, constant: int)
    requires WrittenAll(terms) != [] && Atomic(terms)
    ensures |Listed(terms, constant)| >= 2 || NumValue(Listed(terms, constant)[0].e).None?
  {
    WrittenAtomic(terms);
  }

  lemma {:induction false} WrittenAtomic(terms: seq<Term>)
    requires Atomic(terms)
    ensures forall i | 0 <= i < |WrittenAll(terms)| ::
              NumValue(WrittenAll(terms)[i].e).None? && WrittenAll(terms)[i].coefficient != 0
  {
    if terms != [] { WrittenAtomic(terms[..|terms| - 1]); }
  }

  /** The width `high - low + 1` of the `n` bits that index `i` selects: from
      `i * n` up to `i * n + (n - 1)`. */
  function Low(i: Expr, n: int): Expr { Expr(Binary, "*", [i, MakeNum(n)]) }
  function High(i: Expr, n: int): Expr { Expr(Binary, "+", [Low(i, n), MakeNum(n - 1)]) }
  function Span(i: Expr, n: int): Expr { Expr(Binary, "-", [High(i, n), Low(i, n)]) }
  function Width(i: Expr, n: int): Expr { Expr(Binary, "+", [Span(i, n), MakeNum(1)]) }

  /** For any index, nothing of it is left but the number `n`. */
  lemma SliceWidth(i: Expr, n: int, r: Expr)
    requires Tidy(i) && Full(i) && !IsSum(i) && NumValue(i).None? && Collected(Width(i, n), r)
    ensures r == MakeNum(n)
  {
    WidthTidy(i, n);
    WidthAddends(i, n);
    WidthCancels(Low(i, n), n);
    NumberExactly(Width(i, n), r);
  }

  function WidthTerms(low: Expr, n: int): seq<Term> {
    [Term(low, 1), Term(MakeNum(n - 1), 1), Term(low, -1), Term(MakeNum(1), 1)]
  }

  lemma WidthTidy(i: Expr, n: int)
    requires Tidy(i) && Full(i) && !IsSum(i) && NumValue(i).None?
    ensures Tidy(Width(i, n)) && Full(Width(i, n))
  {
    NumberTidy(n);
    NumberTidy(n - 1);
    NumberTidy(1);
    assert Tidy(Low(i, n)) && Full(Low(i, n));
    PlusTidy("+", Low(i, n), MakeNum(n - 1));
    PlusTidy("-", High(i, n), Low(i, n));
    PlusTidy("+", Span(i, n), MakeNum(1));
  }

  lemma NumberTidy(n: int)
    ensures Tidy(MakeNum(n)) && Full(MakeNum(n))
  {}

  lemma PlusTidy(op: string, a: Expr, b: Expr)
    requires (op == "+" || op == "-") && Tidy(a) && Full(a) && NumValue(a).None? && Tidy(b) && Full(b)
    ensures Tidy(Expr(Binary, op, [a, b])) && Full(Expr(Binary, op, [a, b]))
  {}

  lemma WidthAddends(i: Expr, n: int)
    ensures Addends(Width(i, n), 1) == WidthTerms(Low(i, n), n)
  {
    var low := Low(i, n);
    assert Addends(low, 1) == [Term(low, 1)] && Addends(low, -1) == [Term(low, -1)];
    assert Addends(MakeNum(n - 1), 1) == [Term(MakeNum(n - 1), 1)] && Addends(MakeNum(1), 1) == [Term(MakeNum(1), 1)];
    assert Addends(High(i, n), 1) == [Term(low, 1), Term(MakeNum(n - 1), 1)];
    assert Addends(Span(i, n), 1) == [Term(low, 1), Term(MakeNum(n - 1), 1), Term(low, -1)];
  }

  lemma WidthCancels(low: Expr, n: int)
    requires NumValue(low).None?
    ensures AllCancel(WidthTerms(low, n)) && Numbers(WidthTerms(low, n)) == n
  {
    var adds := WidthTerms(low, n);
    EqualSelf(low);
    NetNext([], adds[0], low);
    NetNext(adds[..1], adds[1], low);
    NetNext(adds[..2], adds[2], low);
    NetNext(adds[..3], adds[3], low);
    assert [] + [adds[0]] == adds[..1] && adds[..1] + [adds[1]] == adds[..2] && adds[..2] + [adds[2]] == adds[..3];
    assert adds[..3] + [adds[3]] == adds;
  }
}

/** What the addends of a simplified expression look like, and where two of them
    are alike after all. */
module ExprNormal {
  import opened Common
  import opened ExprSimplify
  import opened ExprForms
  import opened ExprTerms

  // ----- Numbers among the addends ----------------------------------------------------------------

  ghost predicate OneNumber(adds: seq<Term>) {
    forall i, j | 0 <= i < j < |adds| :: !(NumValue(adds[i].e).Some? && NumValue(adds[j].e).Some?)
  }

  /** Of what does not cancel, the first is subtracted. */
  ghost predicate BeginsNegative(adds: seq<Term>) {
    exists j :: 0 <= j < |adds| && NumValue(adds[j].e).None? && Net(adds, adds[j].e) < 0 && CancelsBefore(adds, j)
  }

  ghost predicate CancelsBefore(adds: seq<Term>, j: int) {
    forall i | 0 <= i < j && i < |adds| && NumValue(adds[i].e).None? :: Net(adds, adds[i].e) == 0
  }

  /** Two numbers stand in the result exactly where the constant follows the zero
      that a leading subtraction needs. */
  lemma OneNumberExactly(f: Expr, r: Expr)
    requires Tidy(f) && Full(f) && Collected(f, r)
    ensures OneNumber(Addends(r, 1)) <==> !(Numbers(Addends(f, 1)) != 0 && BeginsNegative(Addends(f, 1)))
  {
    var terms, constant :| Gathered(Addends(f, 1), terms, constant) && Addends(r, 1) == Listed(terms, constant);
    OneNumberOf(f, terms, constant);
  }

  lemma OneNumberOf(f: Expr, terms: seq<Term>, constant: int)
    requires Tidy(f) && Full(f) && Gathered(Addends(f, 1), terms, constant)
    ensures OneNumber(Listed(terms, constant)) <==> !(Numbers(Addends(f, 1)) != 0 && BeginsNegative(Addends(f, 1)))
  {
    TermsTidy(f, terms, constant);
    BeginsAlike(Addends(f, 1), terms, constant);
    NumbersListed(terms, constant);
  }

  ghost predicate WrittenNegative(terms: seq<Term>) {
    WrittenAll(terms) != [] && WrittenAll(terms)[0].coefficient < 0
  }

  lemma NumbersListed(terms: seq<Term>, constant: int)
    requires Atomic(terms)
    ensures OneNumber(Listed(terms, constant)) <==> !(constant != 0 && WrittenNegative(terms))
  {
    var written, listed := WrittenAll(terms), Listed(terms, constant);
    WrittenAtomic(terms);
    if constant != 0 && WrittenNegative(terms) {
      assert listed[0] == Term(MakeNum(0), 1) && listed[|listed| - 1] == Term(MakeNum(constant), 1);
    }
  }

  /** The first term that does not cancel. */
  ghost predicate Leads(terms: seq<Term>, i: nat) {
    i < |terms| && terms[i].coefficient != 0 && forall k | 0 <= k < i :: terms[k].coefficient == 0
  }

  lemma {:induction false} WrittenLeads(terms: seq<Term>) returns (i: nat)
    ensures if WrittenAll(terms) == [] then CancelledTerms(terms)
            else Leads(terms, i) && (WrittenAll(terms)[0].coefficient < 0 <==> terms[i].coefficient < 0)
  {
    i := 0;
    if terms != [] {
      var last := |terms| - 1;
      i := WrittenLeads(terms[..last]);
      if WrittenAll(terms[..last]) == [] { i := last; }
    }
  }

  lemma BeginsAlike(adds: seq<Term>, terms: seq<Term>, constant: int)
    requires Gathered(adds, terms, constant)
    ensures WrittenNegative(terms) <==> BeginsNegative(adds)
  {
    var i := WrittenLeads(terms);
    if WrittenNegative(terms) { LeadsBegin(adds, terms, i); }
    if BeginsNegative(adds) { BeginLeads(adds, terms, i); }
  }

  /** Every addend that is no number has its term, which comes first of its equals. */
  lemma TermFor(adds: seq<Term>, terms: seq<Term>, j: nat) returns (m: nat, q: nat)
    requires TermsOf(adds, terms) && Covered(adds, terms) && j < |adds| && NumValue(adds[j].e).None?
    ensures m < |terms| && terms[m].coefficient == Net(adds, adds[j].e) && FirstAt(adds, q, terms[m].e) && q <= j
  {
    assert HasTerm(terms, adds[j].e);
    m :| 0 <= m < |terms| && Equal(terms[m].e, adds[j].e);
    assert TermOf(adds, terms[m]);
    q :| FirstAt(adds, q, terms[m].e);
    NetAlike(adds, terms[m].e, adds[j].e);
    EqualSymmetric(terms[m].e, adds[j].e);
  }

  lemma LeadsBegin(adds: seq<Term>, terms: seq<Term>, i: nat)
    requires TermsOf(adds, terms) && Covered(adds, terms) && InOrder(adds, terms)
    requires Leads(terms, i) && terms[i].coefficient < 0
    ensures BeginsNegative(adds)
  {
    assert TermOf(adds, terms[i]);
    var j: nat :| FirstAt(adds, j, terms[i].e);
    forall k | 0 <= k < j && k < |adds| && NumValue(adds[k].e).None? ensures Net(adds, adds[k].e) == 0 {
      var m, q := TermFor(adds, terms, k);
      if m == i { FirstOnce(adds, terms[i].e, j, q); }
    }
    assert CancelsBefore(adds, j);
  }

  lemma FirstOnce(adds: seq<Term>, e: Expr, p: nat, q: nat)
    requires FirstAt(adds, p, e) && FirstAt(adds, q, e)
    ensures p == q
  {
    EqualSelf(e);
  }

  lemma BeginLeads(adds: seq<Term>, terms: seq<Term>, i: nat)
    requires TermsOf(adds, terms) && Covered(adds, terms) && InOrder(adds, terms) && BeginsNegative(adds)
    requires Leads(terms, i) || CancelledTerms(terms)
    ensures Leads(terms, i) && terms[i].coefficient < 0
  {
    var j :| 0 <= j < |adds| && NumValue(adds[j].e).None? && Net(adds, adds[j].e) < 0 && CancelsBefore(adds, j);
    var m, q := TermFor(adds, terms, j);
    if terms[i].coefficient != 0 { BeginsBy(adds, terms, i, m, j, q); }
  }

  lemma BeginsBy(adds: seq<Term>, terms: seq<Term>, i: nat, m: nat, j: nat, q: nat)
    requires TermsOf(adds, terms) && InOrder(adds, terms) && CancelsBefore(adds, j)
    requires i < |terms| && terms[i].coefficient != 0 && m < |terms| && FirstAt(adds, q, terms[m].e) && q <= j
    ensures m <= i
  {
    assert TermOf(adds, terms[i]);
    var p: nat :| FirstAt(adds, p, terms[i].e);
  }

  // ----- Equal addends -----------------------------------------------------------------------------

  function Times(count: int, e: Expr): Expr { Expr(Binary, "*", [MakeNum(count), e]) }

  /** A term that stands alone is the product that another one becomes. */
  ghost predicate Remade(adds: seq<Term>) {
    exists j, k :: 0 <= j < |adds| && 0 <= k < |adds| && Becomes(adds, adds[j].e, adds[k].e)
  }

  ghost predicate Becomes(adds: seq<Term>, a: Expr, b: Expr) {
    && NumValue(a).None? && NumValue(b).None? && Abs(Net(adds, a)) == 1 && Abs(Net(adds, b)) >= 2
    && Equal(a, Times(Abs(Net(adds, b)), b))
  }

  /** Addends of the result are pairwise different unless the expression already
      had the product that collecting makes of a repeated term. */
  lemma DifferentExactly(f: Expr, r: Expr)
    requires Tidy(f) && Full(f) && Collected(f, r)
    ensures Distinct(Addends(r, 1)) <==> !Remade(Addends(f, 1))
  {
    var terms, constant :| Gathered(Addends(f, 1), terms, constant) && Addends(r, 1) == Listed(terms, constant);
    TermsTidy(f, terms, constant);
    DifferentOf(Addends(f, 1), terms, constant);
  }

  lemma DifferentOf(adds: seq<Term>, terms: seq<Term>, constant: int)
    requires Gathered(adds, terms, constant) && Atomic(terms)
    ensures Distinct(Listed(terms, constant)) <==> !Remade(adds)
  {
    DistinctListed(terms, constant);
    DistinctWritten(terms);
    RemadeAlike(adds, terms);
  }

  lemma NumberDiffers(n: int, e: Expr)
    requires NumValue(e).None?
    ensures !Equal(MakeNum(n), e) && !Equal(e, MakeNum(n))
  {}

  ghost predicate NoNumber(s: seq<Term>) { forall x | x in s :: NumValue(x.e).None? }

  /** Numbers around terms leave them different. */
  lemma DistinctListed(terms: seq<Term>, constant: int)
    requires Atomic(terms)
    ensures Distinct(Listed(terms, constant)) <==> Distinct(WrittenAll(terms))
  {
    var written := WrittenAll(terms);
    WrittenAtomic(terms);
    if written != [] {
      assert NoNumber(written);
      DistinctFrom(MakeNum(0), written);
      if constant != 0 { DistinctTo(FromZero(written), written, constant); }
    }
  }

  lemma DistinctTo(s: seq<Term>, written: seq<Term>, constant: int)
    requires NoNumber(written) && constant != 0 && forall y | y in s :: y == Term(MakeNum(0), 1) || y in written
    ensures Distinct(s + [Term(MakeNum(constant), 1)]) <==> Distinct(s)
  {
    DistinctOneMore(s, Term(MakeNum(constant), 1));
    forall y | y in s ensures !Equal(y.e, MakeNum(constant)) {
      if y in written { NumberDiffers(constant, y.e); }
    }
  }

  lemma DistinctFrom(zero: Expr, s: seq<Term>)
    requires zero == MakeNum(0) && NoNumber(s)
    ensures Distinct([Term(zero, 1)] + s) <==> Distinct(s)
  {
    var t := [Term(zero, 1)] + s;
    assert forall i | 0 <= i < |s| :: t[i + 1] == s[i];
    if Distinct(t) {
      forall i, j | 0 <= i < j < |s| ensures !Equal(s[i].e, s[j].e) { assert !Equal(t[i + 1].e, t[j + 1].e); }
    }
    forall j | 0 < j < |t| ensures !Equal(t[0].e, t[j].e) {
      assert t[j] in s;
      NumberDiffers(0, t[j].e);
    }
  }

  /** No two terms that do not cancel are written alike. */
  ghost predicate WrittenApart(terms: seq<Term>) {
    forall i, j | 0 <= i < j < |terms| && terms[i].coefficient != 0 && terms[j].coefficient != 0 ::
      !Equal(Written(terms[i]).e, Written(terms[j]).e)
  }

  lemma {:induction false} WrittenFrom(terms: seq<Term>)
    ensures forall i | 0 <= i < |terms| && terms[i].coefficient != 0 :: Written(terms[i]) in WrittenAll(terms)
    ensures forall x | x in WrittenAll(terms) ::
              exists i :: 0 <= i < |terms| && terms[i].coefficient != 0 && Written(terms[i]) == x
  {
    if terms != [] {
      var last := |terms| - 1;
      WrittenFrom(terms[..last]);
      forall x | x in WrittenAll(terms)
        ensures exists i :: 0 <= i < |terms| && terms[i].coefficient != 0 && Written(terms[i]) == x
      {
        if x in WrittenAll(terms[..last]) {
          var i :| 0 <= i < last && terms[..last][i].coefficient != 0 && Written(terms[..last][i]) == x;
          assert terms[i].coefficient != 0 && Written(terms[i]) == x;
        } else {
          assert terms[last].coefficient != 0 && Written(terms[last]) == x;
        }
      }
    }
  }

  lemma {:induction false} DistinctWritten(terms: seq<Term>)
    ensures Distinct(WrittenAll(terms)) <==> WrittenApart(terms)
  {
    if terms != [] {
      var last := |terms| - 1;
      DistinctWritten(terms[..last]);
      ApartOneMore(terms[..last], terms[last]);
      assert terms[..last] + [terms[last]] == terms;
      if terms[last].coefficient != 0 {
        DistinctOneMore(WrittenAll(terms[..last]), Written(terms[last]));
      } else {
        assert WrittenAll(terms) == WrittenAll(terms[..last]);
      }
    }
  }

  lemma ApartOneMore(terms: seq<Term>, t: Term)
    ensures WrittenApart(terms + [t]) <==>
              && WrittenApart(terms)
              && (t.coefficient != 0 ==> forall x | x in WrittenAll(terms) :: !Equal(x.e, Written(t).e))
  {
    var all := terms + [t];
    WrittenFrom(terms);
    if WrittenApart(all) {
      forall i, j | 0 <= i < j < |terms| && terms[i].coefficient != 0 && terms[j].coefficient != 0
        ensures !Equal(Written(terms[i]).e, Written(terms[j]).e)
      {
        assert all[i] == terms[i] && all[j] == terms[j];
      }
      if t.coefficient != 0 {
        forall x | x in WrittenAll(terms) ensures !Equal(x.e, Written(t).e) {
          var i :| 0 <= i < |terms| && terms[i].coefficient != 0 && Written(terms[i]) == x;
          assert all[i] == terms[i] && all[|terms|] == t;
        }
      }
    }
  }

  lemma DistinctOneMore(s: seq<Term>, x: Term)
    ensures Distinct(s + [x]) <==> Distinct(s) && forall y | y in s :: !Equal(y.e, x.e)
  {
    if Distinct(s + [x]) {
      forall i, j | 0 <= i < j < |s| ensures !Equal(s[i].e, s[j].e) {
        assert (s + [x])[i] == s[i] && (s + [x])[j] == s[j];
      }
      forall y | y in s ensures !Equal(y.e, x.e) {
        var i :| 0 <= i < |s| && s[i] == y;
        assert (s + [x])[i] == y && (s + [x])[|s|] == x;
      }
    }
  }

  lemma TimesEqual(a: int, b: int, s: Expr, t: Expr)
    ensures Equal(Times(a, s), Times(b, t)) <==> a == b && Equal(s, t)
  {
    var u, v := [MakeNum(a), s], [MakeNum(b), t];
    assert u[1..] == [s] && v[1..] == [t];
    assert [s][1..] == [] && [t][1..] == [];
    assert EqualAll([s], [t]) <==> Equal(s, t);
    assert EqualAll(u, v) <==> Equal(MakeNum(a), MakeNum(b)) && EqualAll([s], [t]);
  }

  lemma RemadeAlike(adds: seq<Term>, terms: seq<Term>)
    requires Distinct(terms) && TermsOf(adds, terms) && Covered(adds, terms)
    ensures WrittenApart(terms) <==> !Remade(adds)
  {
    if Remade(adds) {
      var j, k :| 0 <= j < |adds| && 0 <= k < |adds| && Becomes(adds, adds[j].e, adds[k].e);
      NotApart(adds, terms, j, k);
    }
    if !Remade(adds) {
      AllApart(adds, terms);
    }
  }

  lemma AllApart(adds: seq<Term>, terms: seq<Term>)
    requires TermsOf(adds, terms) && Distinct(terms) && !Remade(adds)
    ensures WrittenApart(terms)
  {
    forall i, j | 0 <= i < j < |terms| && terms[i].coefficient != 0 && terms[j].coefficient != 0
      ensures !Equal(Written(terms[i]).e, Written(terms[j]).e)
    {
      Apart(adds, terms, i, j);
    }
  }

  lemma NotApart(adds: seq<Term>, terms: seq<Term>, j: nat, k: nat)
    requires TermsOf(adds, terms) && Covered(adds, terms)
    requires j < |adds| && k < |adds| && Becomes(adds, adds[j].e, adds[k].e)
    ensures !WrittenApart(terms)
  {
    var m := EqualTerm(adds, terms, adds[j].e, j);
    var n := EqualTerm(adds, terms, adds[k].e, k);
    WrittenAlike(terms[m], terms[n], adds[j].e, adds[k].e);
    assert m != n;
    assert Equal(Written(terms[m]).e, Written(terms[n]).e) && Equal(Written(terms[n]).e, Written(terms[m]).e);
  }

  lemma WrittenAlike(s: Term, t: Term, a: Expr, b: Expr)
    requires Abs(s.coefficient) == 1 && Abs(t.coefficient) >= 2
    requires Equal(s.e, a) && Equal(t.e, b) && Equal(a, Times(Abs(t.coefficient), b))
    ensures Equal(Written(s).e, Written(t).e) && Equal(Written(t).e, Written(s).e)
  {
    TimesAlike(s.e, a, b, t.e, Abs(t.coefficient));
    assert Written(s).e == s.e && Written(t).e == Times(Abs(t.coefficient), t.e);
    EqualSymmetric(Written(s).e, Written(t).e);
  }

  lemma EqualTerm(adds: seq<Term>, terms: seq<Term>, e: Expr, j: nat) returns (m: nat)
    requires TermsOf(adds, terms) && Covered(adds, terms) && j < |adds| && adds[j].e == e && NumValue(e).None?
    ensures m < |terms| && Equal(terms[m].e, e) && terms[m].coefficient == Net(adds, e)
  {
    assert HasTerm(terms, adds[j].e);
    m :| 0 <= m < |terms| && Equal(terms[m].e, e);
    assert TermOf(adds, terms[m]);
    NetAlike(adds, terms[m].e, e);
  }

  lemma TimesAlike(a: Expr, b: Expr, s: Expr, t: Expr, c: int)
    requires Equal(a, b) && Equal(b, Times(c, s)) && Equal(t, s)
    ensures Equal(a, Times(c, t))
  {
    EqualSymmetric(t, s);
    TimesEqual(c, c, s, t);
    EqualTransitive(a, b, Times(c, s));
    EqualTransitive(a, Times(c, s), Times(c, t));
  }

  lemma Apart(adds: seq<Term>, terms: seq<Term>, i: nat, j: nat)
    requires TermsOf(adds, terms) && Distinct(terms) && !Remade(adds) && i < j < |terms|
    requires terms[i].coefficient != 0 && terms[j].coefficient != 0
    ensures !Equal(Written(terms[i]).e, Written(terms[j]).e)
  {
    var a, b := terms[i], terms[j];
    assert TermOf(adds, a) && TermOf(adds, b);
    var p: nat :| FirstAt(adds, p, a.e);
    var q: nat :| FirstAt(adds, q, b.e);
    assert !Becomes(adds, adds[p].e, adds[q].e) && !Becomes(adds, adds[q].e, adds[p].e);
    if Equal(Written(a).e, Written(b).e) {
      EqualSymmetric(Written(a).e, Written(b).e);
      TimesEqual(Abs(a.coefficient), Abs(b.coefficient), a.e, b.e);
      assert false;
    }
  }

  // ----- Where two are alike ------------------------------------------------------------------------

  /** `5 - x` becomes `0 - x + 5`. */
  lemma LeadingZero(x: Expr, r: Expr)
    requires Tidy(x) && Full(x) && !IsSum(x) && NumValue(x).None?
    requires Collected(Expr(Binary, "-", [MakeNum(5), x]), r)
    ensures !OneNumber(Addends(r, 1))
  {
    ZeroBegins(x);
    OneNumberExactly(Expr(Binary, "-", [MakeNum(5), x]), r);
  }

  lemma ZeroBegins(x: Expr)
    requires Tidy(x) && Full(x) && !IsSum(x) && NumValue(x).None?
    ensures var f := Expr(Binary, "-", [MakeNum(5), x]);
            Tidy(f) && Full(f) && Numbers(Addends(f, 1)) == 5 && BeginsNegative(Addends(f, 1))
  {
    var f := Expr(Binary, "-", [MakeNum(5), x]);
    var adds := [Term(MakeNum(5), 1), Term(x, -1)];
    assert Addends(MakeNum(5), 1) == [adds[0]] && Addends(x, -1) == [adds[1]];
    assert Addends(f, 1) == adds;
    NumberDiffers(5, x);
    NetPair(adds, x);
    assert adds[1].e == x && CancelsBefore(adds, 1);
  }

  lemma NetPair(adds: seq<Term>, e: Expr)
    requires |adds| == 2 && adds[1].e == e && !Equal(adds[0].e, e) && NumValue(e).None?
    ensures Net(adds, e) == adds[1].coefficient
    ensures NumValue(adds[0].e).Some? ==> Numbers(adds) == adds[0].coefficient * NumValue(adds[0].e).value
  {
    EqualSelf(e);
    NetNext([], adds[0], e);
    NetNext([adds[0]], adds[1], e);
    assert [] + [adds[0]] == [adds[0]] && [adds[0]] + [adds[1]] == adds;
  }

  /** `2*y + y + y` becomes `2*y + 2*y`. */
  lemma ProductTwice(y: Expr, r: Expr)
    requires Tidy(y) && Full(y) && !IsSum(y) && NumValue(y).None?
    requires Collected(Twice(y), r)
    ensures !Distinct(Addends(r, 1))
  {
    TwiceTidy(y);
    TwiceBecomes(y);
    DifferentExactly(Twice(y), r);
  }

  function Plus(a: Expr, b: Expr): Expr { Expr(Binary, "+", [a, b]) }

  function Twice(y: Expr): Expr { Plus(Plus(Times(2, y), y), y) }

  function TwiceTerms(y: Expr): seq<Term> { [Term(Times(2, y), 1), Term(y, 1), Term(y, 1)] }

  lemma TwiceTidy(y: Expr)
    requires Tidy(y) && Full(y) && !IsSum(y) && NumValue(y).None?
    ensures Tidy(Twice(y)) && Full(Twice(y)) && Addends(Twice(y), 1) == TwiceTerms(y)
  {
    NumberTidy(2);
    assert Tidy(Times(2, y)) && Full(Times(2, y));
    PlusTidy("+", Times(2, y), y);
    PlusTidy("+", Plus(Times(2, y), y), y);
    assert Addends(Times(2, y), 1) == [Term(Times(2, y), 1)] && Addends(y, 1) == [Term(y, 1)];
    assert Addends(Plus(Times(2, y), y), 1) == [Term(Times(2, y), 1), Term(y, 1)];
  }

  lemma TwiceBecomes(y: Expr)
    requires NumValue(y).None?
    ensures Remade(TwiceTerms(y))
  {
    var adds := TwiceTerms(y);
    var p := Times(2, y);
    NotTwice(y);
    TwiceNet(y);
    assert adds[0].e == p && adds[1].e == y;
    assert Becomes(adds, adds[0].e, adds[1].e);
  }

  lemma EqualSecond(a: Expr, b: Expr)
    requires Equal(a, b) && NumValue(a).None? && |a.sub| == 2
    ensures NumValue(b).None? && |b.sub| == 2 && Equal(a.sub[1], b.sub[1])
  {
    EqualAllSecond(a.sub, b.sub);
  }

  lemma EqualAllSecond(s: seq<Expr>, t: seq<Expr>)
    requires |s| == |t| == 2 && EqualAll(s, t)
    ensures Equal(s[1], t[1])
  {
    var u, v := s[1..], t[1..];
    assert EqualAll(u, v);
    assert u[0] == s[1] && v[0] == t[1];
  }

  /** An expression is not equal to its second operand. */
  lemma {:induction false} NotSecond(e: Expr)
    requires NumValue(e).None? && |e.sub| == 2
    ensures !Equal(e, e.sub[1])
  {
    if Equal(e, e.sub[1]) {
      EqualSecond(e, e.sub[1]);
      NotSecond(e.sub[1]);
    }
  }

  lemma NotTwice(y: Expr)
    ensures !Equal(Times(2, y), y)
  {
    if Equal(Times(2, y), y) {
      EqualSecond(Times(2, y), y);
      assert Times(2, y).sub[1] == y;
      NotSecond(y);
    }
  }

  lemma TwiceNet(y: Expr)
    requires NumValue(y).None? && !Equal(Times(2, y), y)
    ensures Net(TwiceTerms(y), Times(2, y)) == 1 && Net(TwiceTerms(y), y) == 2 && Equal(Times(2, y), Times(2, y))
  {
    var p := Times(2, y);
    if Equal(y, p) { EqualSymmetric(y, p); }
    EqualSelf(p);
    EqualSelf(y);
    NetTriple(p, y, p);
    NetTriple(p, y, y);
  }

  lemma NetTriple(p: Expr, y: Expr, e: Expr)
    ensures Net([Term(p, 1), Term(y, 1), Term(y, 1)], e)
            == (if Equal(p, e) then 1 else 0) + if Equal(y, e) then 2 else 0
  {
    var t := Term(y, 1);
    NetNext([], Term(p, 1), e);
    NetNext([Term(p, 1)], t, e);
    NetNext([Term(p, 1), t], t, e);
    assert [] + [Term(p, 1)] == [Term(p, 1)] && [Term(p, 1)] + [t] == [Term(p, 1), t];
    assert [Term(p, 1), t] + [t] == [Term(p, 1), t, t];
  }
}

/** When the passes of Expr::simplify have nothing left to do, and that repeating
    them gets there: the three loops at the start of simplify. */
module ExprForms {
  import opened Common
  import opened ExprSimplify

  // ----- Nothing left to do --------------------------------------------------------------------

  /** No cast or parenthesis around an operand. */
  predicate NoWrapper(e: Expr) { !IsWrapper(e) && forall i | 0 <= i < |e.sub| :: NoWrapper(e.sub[i]) }

  /** No product of a sum. */
  predicate NoSumInProduct(e: Expr) {
    && (IsProduct(e) ==> !IsSum(e.sub[0]) && !IsSum(e.sub[1]))
    && forall i | 0 <= i < |e.sub| :: NoSumInProduct(e.sub[i])
  }

  /** An operation on two numbers. */
  predicate OnNumbers(e: Expr) {
    (IsSum(e) || IsProduct(e)) && NumValue(e.sub[0]).Some? && NumValue(e.sub[1]).Some?
  }

  predicate NoneOnNumbers(e: Expr) { !OnNumbers(e) && forall i | 0 <= i < |e.sub| :: NoneOnNumbers(e.sub[i]) }

  predicate Tidy(e: Expr) { NoWrapper(e) && NoSumInProduct(e) && NoneOnNumbers(e) }

  // ----- Unwrapping ------------------------------------------------------------------------------

  /** A traversal changes something exactly if there is a wrapper. */
  lemma {:induction false} UnwrapDone(e: Expr)
    ensures UnwrapPass(e).1 <==> !NoWrapper(e)
    ensures NoWrapper(e) ==> UnwrapPass(e).0 == e
    decreases e, 0
  {
    if !IsWrapper(e) {
      UnwrapAllDone(e.sub);
      assert e.(sub := e.sub) == e;
    }
  }

  lemma {:induction false} UnwrapAllDone(es: seq<Expr>)
    ensures UnwrapAll(es).1 <==> exists i :: 0 <= i < |es| && !NoWrapper(es[i])
    ensures !UnwrapAll(es).1 ==> UnwrapAll(es).0 == es
    decreases es, 1
  {
    if es != [] {
      UnwrapDone(es[0]);
      UnwrapAllDone(es[1..]);
      if i :| 0 <= i < |es[1..]| && !NoWrapper(es[1..][i]) { assert !NoWrapper(es[i + 1]); }
      if i :| 0 <= i < |es| && !NoWrapper(es[i]) {
        if i > 0 { assert !NoWrapper(es[1..][i - 1]); }
      }
    }
  }

  /** Unwrapping until nothing changes. */
  ghost function Unwrapped(e: Expr): (r: Expr)
    ensures Same(e, r) && NoWrapper(r) && (NoWrapper(e) ==> r == e)
    decreases Nodes(e)
  {
    UnwrapPassKeeps(e);
    UnwrapDone(e);
    if UnwrapPass(e).1 then
      SameTrans(e, UnwrapPass(e).0, Unwrapped(UnwrapPass(e).0));
      Unwrapped(UnwrapPass(e).0)
    else e
  }

  /** The first loop. */
  method UnwrapLoop(e: Expr) returns (r: Expr)
    ensures r == Unwrapped(e)
  {
    var changed := true;
    r := e;
    while changed
      invariant Unwrapped(r) == Unwrapped(e) && (!changed ==> r == Unwrapped(e))
      decreases Nodes(r), if changed then 1 else 0
    {
      UnwrapPassKeeps(r);
      UnwrapDone(r);
      var (next, c) := UnwrapPass(r);
      r, changed := next, c;
    }
  }

  // ----- Distribution -----------------------------------------------------------------------------

  lemma {:induction false} UnwrapNothing(e: Expr)
    requires NoWrapper(e)
    ensures Unwrap(e) == e
  {}

  /** Distributing at a node brings no wrapper and changes exactly a product of a sum. */
  lemma DistributeForms(e: Expr)
    requires NoWrapper(e)
    ensures NoWrapper(Distribute(e).0)
    ensures Distribute(e).1 <==> IsProduct(e) && (IsSum(e.sub[0]) || IsSum(e.sub[1]))
    ensures !Distribute(e).1 ==> Distribute(e).0 == e
  {
    if IsProduct(e) {
      UnwrapNothing(e.sub[0]);
      UnwrapNothing(e.sub[1]);
      assert e.sub == [e.sub[0], e.sub[1]] && e.(sub := e.sub) == e;
    }
  }

  lemma {:induction false} DistributeDone(e: Expr)
    requires NoWrapper(e)
    ensures NoWrapper(DistributePass(e).0)
    ensures DistributePass(e).1 <==> !NoSumInProduct(e)
    ensures NoSumInProduct(e) ==> DistributePass(e).0 == e
    decreases M(e), 1, 0
  {
    DistributeKeeps(e);
    DistributeForms(e);
    var f := Distribute(e).0;
    OperandsSmaller(f);
    DistributeAllDone(f.sub, M(f));
    DistributeAllKeeps(f.sub, M(f));
    assert f.(sub := f.sub) == f;
  }

  lemma {:induction false} DistributeAllDone(es: seq<Expr>, bound: nat)
    requires forall i | 0 <= i < |es| :: M(es[i]) < bound && NoWrapper(es[i])
    ensures forall i | 0 <= i < |DistributeAll(es, bound).0| :: NoWrapper(DistributeAll(es, bound).0[i])
    ensures DistributeAll(es, bound).1 <==> exists i :: 0 <= i < |es| && !NoSumInProduct(es[i])
    ensures !DistributeAll(es, bound).1 ==> DistributeAll(es, bound).0 == es
    decreases bound, 0, |es|
  {
    if es != [] {
      DistributeDone(es[0]);
      DistributeAllDone(es[1..], bound);
      SumsFirst(es);
      assert es == [es[0]] + es[1..];
    }
  }

  lemma SumsFirst(es: seq<Expr>)
    requires es != []
    ensures (exists i :: 0 <= i < |es| && !NoSumInProduct(es[i]))
       <==> !NoSumInProduct(es[0]) || exists i :: 0 <= i < |es[1..]| && !NoSumInProduct(es[1..][i])
  {
    if i :| 0 <= i < |es[1..]| && !NoSumInProduct(es[1..][i]) { assert !NoSumInProduct(es[i + 1]); }
    if i :| 0 <= i < |es| && !NoSumInProduct(es[i]) {
      if i > 0 { assert !NoSumInProduct(es[1..][i - 1]); }
    }
  }

  /** Distributing until nothing changes. */
  ghost function Distributed(e: Expr): (r: Expr)
    requires NoWrapper(e)
    ensures Same(e, r) && NoWrapper(r) && NoSumInProduct(r) && (NoSumInProduct(e) ==> r == e)
    decreases M(e)
  {
    DistributePassKeeps(e);
    DistributeDone(e);
    if DistributePass(e).1 then
      SameTrans(e, DistributePass(e).0, Distributed(DistributePass(e).0));
      Distributed(DistributePass(e).0)
    else e
  }

  /** The second loop. It terminates because every change shrinks the measure. */
  method DistributeLoop(e: Expr) returns (r: Expr)
    requires NoWrapper(e)
    ensures r == Distributed(e)
  {
    var changed := true;
    r := e;
    while changed
      invariant NoWrapper(r) && Distributed(r) == Distributed(e) && (!changed ==> r == Distributed(e))
      decreases M(r), if changed then 1 else 0
    {
      DistributePassKeeps(r);
      DistributeDone(r);
      var (next, c) := DistributePass(r);
      r, changed := next, c;
    }
  }

  // ----- Folding -------------------------------------------------------------------------------------

  /** Somewhere an operation on two numbers leaves 64 bits. */
  predicate Overflows(e: Expr) {
    if OnNumbers(e) then !Int64(Folded(e.value, NumValue(e.sub[0]).value, NumValue(e.sub[1]).value))
    else exists i | 0 <= i < |e.sub| :: Overflows(e.sub[i])
  }

  lemma {:induction false} FoldDone(e: Expr)
    ensures FoldPass(e).None? <==> Overflows(e)
    ensures FoldPass(e).Some? ==> (FoldPass(e).value.1 <==> !NoneOnNumbers(e))
    ensures NoneOnNumbers(e) ==> FoldPass(e) == Some((e, false))
    decreases e, 0
  {
    if !OnNumbers(e) {
      FoldAllDone(e.sub);
      assert e.(sub := e.sub) == e;
    }
  }

  lemma {:induction false} FoldAllDone(es: seq<Expr>)
    ensures FoldAll(es).None? <==> exists i :: 0 <= i < |es| && Overflows(es[i])
    ensures FoldAll(es).Some? ==> (FoldAll(es).value.1 <==> exists i :: 0 <= i < |es| && !NoneOnNumbers(es[i]))
    ensures (forall i | 0 <= i < |es| :: NoneOnNumbers(es[i])) ==> FoldAll(es) == Some((es, false))
    decreases es, 1
  {
    if es != [] {
      FoldDone(es[0]);
      FoldAllDone(es[1..]);
      FoldAllFirst(es);
      assert es == [es[0]] + es[1..];
    }
  }

  /** What holds of the rest holds of all but the first. */
  lemma FoldAllFirst(es: seq<Expr>)
    requires es != []
    ensures (exists i :: 0 <= i < |es| && Overflows(es[i]))
       <==> Overflows(es[0]) || exists i :: 0 <= i < |es[1..]| && Overflows(es[1..][i])
    ensures (exists i :: 0 <= i < |es| && !NoneOnNumbers(es[i]))
       <==> !NoneOnNumbers(es[0]) || exists i :: 0 <= i < |es[1..]| && !NoneOnNumbers(es[1..][i])
  {
    if i :| 0 <= i < |es[1..]| && Overflows(es[1..][i]) { assert Overflows(es[i + 1]); }
    if i :| 0 <= i < |es| && Overflows(es[i]) {
      if i > 0 { assert Overflows(es[1..][i - 1]); }
    }
    if i :| 0 <= i < |es[1..]| && !NoneOnNumbers(es[1..][i]) { assert !NoneOnNumbers(es[i + 1]); }
    if i :| 0 <= i < |es| && !NoneOnNumbers(es[i]) {
      if i > 0 { assert !NoneOnNumbers(es[1..][i - 1]); }
    }
  }

  /** Folding brings back neither wrappers nor products of sums. */
  lemma {:induction false} FoldForms(e: Expr)
    requires FoldPass(e).Some? && NoWrapper(e) && NoSumInProduct(e)
    ensures var f := FoldPass(e).value.0; NoWrapper(f) && NoSumInProduct(f) && (IsSum(f) ==> IsSum(e))
    decreases e, 0
  {
    if !OnNumbers(e) { FoldAllForms(e.sub); }
  }

  lemma {:induction false} FoldAllForms(es: seq<Expr>)
    requires FoldAll(es).Some? && forall i | 0 <= i < |es| :: NoWrapper(es[i]) && NoSumInProduct(es[i])
    ensures var fs := FoldAll(es).value.0;
            && |fs| == |es|
            && forall i | 0 <= i < |es| :: NoWrapper(fs[i]) && NoSumInProduct(fs[i]) && (IsSum(fs[i]) ==> IsSum(es[i]))
    decreases es, 1
  {
    if es != [] {
      FoldForms(es[0]);
      FoldAllForms(es[1..]);
    }
  }

  /** Folding until nothing changes, or nothing where a number leaves 64 bits. */
  ghost function FoldedAll(e: Expr): (r: Option<Expr>)
    requires NoWrapper(e) && NoSumInProduct(e)
    ensures r.Some? ==> Same(e, r.value) && Tidy(r.value)
    ensures NoneOnNumbers(e) ==> r == Some(e)
    decreases Nodes(e)
  {
    FoldDone(e);
    if FoldPass(e).None? then None
    else
      FoldPassKeeps(e);
      FoldForms(e);
      var (f, c) := FoldPass(e).value;
      if c then
        var r := FoldedAll(f);
        if r.Some? then SameTrans(e, f, r.value); r else r
      else Some(e)
  }

  /** The third loop. */
  method FoldLoop(e: Expr) returns (r: Option<Expr>)
    requires NoWrapper(e) && NoSumInProduct(e)
    ensures r == FoldedAll(e)
  {
    var changed, f := true, e;
    while changed
      invariant NoWrapper(f) && NoSumInProduct(f)
      invariant if changed then FoldedAll(f) == FoldedAll(e) else Some(f) == FoldedAll(e)
      decreases Nodes(f), if changed then 1 else 0
    {
      var pass := FoldPass(f);
      FoldDone(f);
      if pass.None? { return None; }
      FoldPassKeeps(f);
      FoldForms(f);
      f, changed := pass.value.0, pass.value.1;
    }
    return Some(f);
  }

  /** What the three loops make of an expression. */
  ghost function Prepared(e: Expr): (r: Option<Expr>)
    ensures r.Some? ==> Same(e, r.value) && Tidy(r.value)
    ensures Tidy(e) ==> r == Some(e)
  {
    var f := Unwrapped(e);
    var g := Distributed(f);
    SameTrans(e, f, g);
    var r := FoldedAll(g);
    if r.Some? then SameTrans(e, g, r.value); r else r
  }

  method Prepare(e: Expr) returns (r: Option<Expr>)
    ensures r == Prepared(e)
  {
    var unwrapped := UnwrapLoop(e);
    var distributed := DistributeLoop(unwrapped);
    r := FoldLoop(distributed);
  }
}

/** The passes of Expr::simplify (Expr.cpp) over integer expressions with opaque
    operations: unwrapping, distribution and folding. */
module ExprSimplify {
  import opened Common

  /** The expression types simplify tells apart. A number holds what its
      literal text reads as, if anything. */
  datatype Kind = Empty | Number(parsed: Option<int>) | Cast | Paren | Binary | OperatorCall | Opaque(tag: nat)

  datatype Expr = Expr(kind: Kind, value: string, sub: seq<Expr>)

  // ----- What an expression denotes ----------------------------------------------------------

  /** The meaning of everything simplify does not look into, on the values of
      the operands; a binary node and an operator call mean the same. */
  datatype World = World(empty: int, meaning: (Kind, string, seq<int>) -> int)

  predicate IsBinary(e: Expr) { e.kind.Binary? || e.kind.OperatorCall? }
  predicate IsSum(e: Expr) { IsBinary(e) && |e.sub| == 2 && (e.value == "+" || e.value == "-") }
  predicate IsProduct(e: Expr) { IsBinary(e) && |e.sub| == 2 && e.value == "*" }
  predicate IsWrapper(e: Expr) { (e.kind.Cast? || e.kind.Paren?) && |e.sub| >= 1 }

  /** numValue. */
  function NumValue(e: Expr): Option<int> { if e.kind.Number? then e.kind.parsed else None }

  function Normal(k: Kind): Kind { if k.OperatorCall? then Binary else k }

  function Value(e: Expr, w: World): int
    decreases e, 0
  {
    if e.kind.Empty? then w.empty
    else if NumValue(e).Some? then NumValue(e).value
    else if IsWrapper(e) then Value(e.sub[0], w)
    else if IsSum(e) then (if e.value == "+" then Value(e.sub[0], w) + Value(e.sub[1], w)
                           else Value(e.sub[0], w) - Value(e.sub[1], w))
    else if IsProduct(e) then Value(e.sub[0], w) * Value(e.sub[1], w)
    else w.meaning(Normal(e.kind), e.value, Values(e.sub, w))
  }

  function Values(es: seq<Expr>, w: World): (r: seq<int>)
    ensures |r| == |es|
    decreases es, 1
  {
    seq(|es|, i requires 0 <= i < |es| => Value(es[i], w))
  }

  /** No empty node in it. */
  predicate Full(e: Expr) { !e.kind.Empty? && forall i | 0 <= i < |e.sub| :: Full(e.sub[i]) }

  // ----- Measures -------------------------------------------------------------------------------

  /** Sums add and products multiply, so that distributing shrinks the measure
      although it copies an operand. */
  ghost function M(e: Expr): (r: nat)
    ensures r >= 2
    decreases e, 0
  {
    if IsSum(e) then M(e.sub[0]) + M(e.sub[1]) + 1
    else if IsProduct(e) then Times(M(e.sub[0]), M(e.sub[1]))
    else 2 + MAll(e.sub)
  }

  ghost function MAll(es: seq<Expr>): nat
    decreases es, 1
  {
    if es == [] then 0 else M(es[0]) + MAll(es[1..])
  }

  ghost function Times(a: nat, b: nat): (r: nat)
    requires a >= 2 && b >= 2
    ensures r >= 4 && r > a && r > b
  {
    TimesGrows(a, b);
    a * b
  }

  lemma TimesGrows(a: nat, b: nat)
    requires a >= 2 && b >= 2
    ensures a * b >= 4 && a * b > a && a * b > b
  {
    TimesMonotone(2, a, b, b);
    TimesMonotone(a, a, 2, b);
  }

  lemma {:induction false} TimesMonotone(a: nat, a': nat, b: nat, b': nat)
    requires a <= a' && b <= b'
    ensures a * b <= a' * b'
    ensures a < a' && b' >= 1 ==> a * b < a' * b' || b < b'
  {
    assert a' * b' == a * b + (a' - a) * b' + a * (b' - b);
    assert (a' - a) * b' >= 0 && a * (b' - b) >= 0;
    if a < a' && b' >= 1 { assert (a' - a) * b' >= 1; }
  }

  lemma {:induction false} MAllHas(es: seq<Expr>, i: nat)
    requires i < |es|
    ensures M(es[i]) <= MAll(es)
  {
    if i > 0 { MAllHas(es[1..], i - 1); }
  }

  /** Operands are smaller than their node. */
  lemma {:induction false} OperandSmaller(e: Expr, i: nat)
    requires i < |e.sub|
    ensures M(e.sub[i]) < M(e)
  {
    if !IsSum(e) && !IsProduct(e) { MAllHas(e.sub, i); }
  }

  ghost function Nodes(e: Expr): (r: nat)
    ensures r >= 1
    decreases e, 0
  {
    1 + NodesAll(e.sub)
  }

  ghost function NodesAll(es: seq<Expr>): nat
    decreases es, 1
  {
    if es == [] then 0 else Nodes(es[0]) + NodesAll(es[1..])
  }

  lemma {:induction false} NodesHas(es: seq<Expr>, i: nat)
    requires i < |es|
    ensures Nodes(es[i]) <= NodesAll(es)
  {
    if i > 0 { NodesHas(es[1..], i - 1); }
  }

  // ----- What a pass keeps -----------------------------------------------------------------------

  /** Same value in every world, and nothing empty appears. */
  ghost predicate Same(e: Expr, f: Expr) {
    (forall w: World :: Value(f, w) == Value(e, w)) && (Full(e) ==> Full(f))
  }

  ghost predicate SameAll(es: seq<Expr>, fs: seq<Expr>) {
    |fs| == |es| && forall i | 0 <= i < |es| :: Same(es[i], fs[i])
  }

  lemma SameTrans(e: Expr, f: Expr, g: Expr)
    requires Same(e, f) && Same(f, g)
    ensures Same(e, g)
  {}

  /** Operands may be replaced by equal ones. */
  lemma SameInside(e: Expr, fs: seq<Expr>)
    requires SameAll(e.sub, fs)
    ensures Same(e, e.(sub := fs))
  {
    var f := e.(sub := fs);
    forall w: World ensures Value(f, w) == Value(e, w) {
      forall i | 0 <= i < |fs| ensures Value(fs[i], w) == Value(e.sub[i], w) { assert Same(e.sub[i], fs[i]); }
      assert Values(fs, w) == Values(e.sub, w);
    }
    if Full(e) {
      forall i | 0 <= i < |fs| ensures Full(fs[i]) { assert Same(e.sub[i], fs[i]); }
    }
  }

  // ----- Unwrapping ---------------------------------------------------------------------------------

  /** unwrap: all wrappers around an operand. */
  function Unwrap(e: Expr): Expr { if IsWrapper(e) then Unwrap(e.sub[0]) else e }

  lemma {:induction false} UnwrapKeeps(e: Expr)
    ensures Same(e, Unwrap(e)) && M(Unwrap(e)) <= M(e) && Nodes(Unwrap(e)) <= Nodes(e)
  {
    if IsWrapper(e) {
      UnwrapKeeps(e.sub[0]);
      OperandSmaller(e, 0);
      NodesHas(e.sub, 0);
    }
  }

  /** One traversal that replaces each visited wrapper by its first operand; the
      replacement itself is not visited again, its operands are. */
  function UnwrapPass(e: Expr): (Expr, bool)
    decreases e, 0
  {
    var f := if IsWrapper(e) then e.sub[0] else e;
    var (subs, changed) := UnwrapAll(f.sub);
    (f.(sub := subs), IsWrapper(e) || changed)
  }

  function UnwrapAll(es: seq<Expr>): (seq<Expr>, bool)
    decreases es, 1
  {
    if es == [] then ([], false)
    else
      var (f, c) := UnwrapPass(es[0]);
      var (fs, d) := UnwrapAll(es[1..]);
      ([f] + fs, c || d)
  }

  lemma {:induction false} UnwrapPassKeeps(e: Expr)
    ensures Same(e, UnwrapPass(e).0) && Nodes(UnwrapPass(e).0) <= Nodes(e)
    ensures UnwrapPass(e).1 ==> Nodes(UnwrapPass(e).0) < Nodes(e)
    decreases e, 0
  {
    var f := if IsWrapper(e) then e.sub[0] else e;
    if IsWrapper(e) { NodesHas(e.sub, 0); }
    UnwrapAllKeeps(f.sub);
    SameInside(f, UnwrapAll(f.sub).0);
  }

  lemma {:induction false} UnwrapAllKeeps(es: seq<Expr>)
    ensures SameAll(es, UnwrapAll(es).0) && NodesAll(UnwrapAll(es).0) <= NodesAll(es)
    ensures UnwrapAll(es).1 ==> NodesAll(UnwrapAll(es).0) < NodesAll(es)
    decreases es, 1
  {
    if es != [] {
      UnwrapPassKeeps(es[0]);
      UnwrapAllKeeps(es[1..]);
      assert UnwrapAll(es).0[1..] == UnwrapAll(es[1..]).0;
    }
  }

  // ----- Distribution ----------------------------------------------------------------------------------

  function Product(k: Kind, a: Expr, b: Expr): Expr { Expr(k, "*", [a, b]) }

  /** The step of the distribution loop at one node. */
  function Distribute(e: Expr): (Expr, bool) {
    if !IsProduct(e) then (e, false)
    else
      var a, b := Unwrap(e.sub[0]), Unwrap(e.sub[1]);
      if IsSum(a) then
        (Expr(OperatorCall, a.value, [Product(Binary, a.sub[0], b), Product(OperatorCall, a.sub[1], b)]), true)
      else if IsSum(b) then
        (Expr(OperatorCall, b.value, [Product(Binary, a, b.sub[0]), Product(OperatorCall, a, b.sub[1])]), true)
      else (e.(sub := [a, b]), false)
  }

  lemma ProductM(k: Kind, a: Expr, b: Expr)
    requires k.Binary? || k.OperatorCall?
    ensures M(Product(k, a, b)) == M(a) * M(b)
    ensures forall w: World :: Value(Product(k, a, b), w) == Value(a, w) * Value(b, w)
    ensures Full(a) && Full(b) ==> Full(Product(k, a, b))
  {}

  lemma DistributeLaw(x: int, y: int, z: int)
    ensures (x + y) * z == x * z + y * z && (x - y) * z == x * z - y * z
    ensures z * (x + y) == z * x + z * y && z * (x - y) == z * x - z * y
  {}

  lemma DistributeSum(op: string, x: Expr, y: Expr)
    requires op == "+" || op == "-"
    ensures var s := Expr(OperatorCall, op, [x, y]);
            && M(s) == M(x) + M(y) + 1 && (Full(x) && Full(y) ==> Full(s))
            && forall w: World :: Value(s, w) == if op == "+" then Value(x, w) + Value(y, w)
                                                 else Value(x, w) - Value(y, w)
  {}

  lemma SumParts(a: Expr)
    requires IsSum(a)
    ensures M(a) == M(a.sub[0]) + M(a.sub[1]) + 1 && (Full(a) ==> Full(a.sub[0]) && Full(a.sub[1]))
    ensures forall w: World :: Value(a, w) == if a.value == "+" then Value(a.sub[0], w) + Value(a.sub[1], w)
                                              else Value(a.sub[0], w) - Value(a.sub[1], w)
  {}

  /** Distributing keeps the value and shrinks the measure. */
  lemma DistributeKeeps(e: Expr)
    ensures Same(e, Distribute(e).0) && M(Distribute(e).0) <= M(e) && (Distribute(e).1 ==> M(Distribute(e).0) < M(e))
  {
    if IsProduct(e) {
      var a, b := Unwrap(e.sub[0]), Unwrap(e.sub[1]);
      UnwrapKeeps(e.sub[0]);
      UnwrapKeeps(e.sub[1]);
      TimesMonotone(M(a), M(e.sub[0]), M(b), M(e.sub[1]));
      SameInside(e, [a, b]);
      ProductM(e.kind, a, b);
      assert e.(sub := [a, b]) == Product(e.kind, a, b);
      if IsSum(a) {
        DistributeLeft(e.kind, a, b);
        SameTrans(e, e.(sub := [a, b]), Distribute(e).0);
      } else if IsSum(b) {
        DistributeRight(e.kind, a, b);
        SameTrans(e, e.(sub := [a, b]), Distribute(e).0);
      }
    }
  }

  lemma {:induction false} DistributeLeft(k: Kind, a: Expr, b: Expr)
    requires (k.Binary? || k.OperatorCall?) && IsSum(a)
    ensures var f := Expr(OperatorCall, a.value, [Product(Binary, a.sub[0], b), Product(OperatorCall, a.sub[1], b)]);
            Same(Product(k, a, b), f) && M(f) < M(Product(k, a, b))
  {
    var x, y := Product(Binary, a.sub[0], b), Product(OperatorCall, a.sub[1], b);
    ProductM(k, a, b);
    ProductM(Binary, a.sub[0], b);
    ProductM(OperatorCall, a.sub[1], b);
    SumParts(a);
    DistributeSum(a.value, x, y);
    MeasureLaw(M(a.sub[0]), M(a.sub[1]), M(b));
    forall w: World ensures Value(Expr(OperatorCall, a.value, [x, y]), w) == Value(Product(k, a, b), w) {
      DistributeLaw(Value(a.sub[0], w), Value(a.sub[1], w), Value(b, w));
    }
    assert Full(Product(k, a, b)) ==> Full(Product(k, a, b).sub[0]) && Full(Product(k, a, b).sub[1]);
  }

  lemma {:induction false} DistributeRight(k: Kind, a: Expr, b: Expr)
    requires (k.Binary? || k.OperatorCall?) && IsSum(b)
    ensures var f := Expr(OperatorCall, b.value, [Product(Binary, a, b.sub[0]), Product(OperatorCall, a, b.sub[1])]);
            Same(Product(k, a, b), f) && M(f) < M(Product(k, a, b))
  {
    var x, y := Product(Binary, a, b.sub[0]), Product(OperatorCall, a, b.sub[1]);
    ProductM(k, a, b);
    ProductM(Binary, a, b.sub[0]);
    ProductM(OperatorCall, a, b.sub[1]);
    SumParts(b);
    DistributeSum(b.value, x, y);
    MeasureLaw(M(b.sub[0]), M(b.sub[1]), M(a));
    forall w: World ensures Value(Expr(OperatorCall, b.value, [x, y]), w) == Value(Product(k, a, b), w) {
      DistributeLaw(Value(b.sub[0], w), Value(b.sub[1], w), Value(a, w));
    }
    assert Full(Product(k, a, b)) ==> Full(Product(k, a, b).sub[0]) && Full(Product(k, a, b).sub[1]);
  }

  lemma MeasureLaw(x: nat, y: nat, z: nat)
    requires z >= 2
    ensures x * z + y * z + 1 < (x + y + 1) * z && z * x + z * y + 1 < z * (x + y + 1)
  {
    assert (x + y + 1) * z == x * z + y * z + z;
  }

  /** One traversal; it visits the operands of a distributed node at once. */
  function DistributePass(e: Expr): (Expr, bool)
    decreases M(e), 1, 0
  {
    DistributeKeeps(e);
    var (f, c) := Distribute(e);
    OperandsSmaller(f);
    var (subs, d) := DistributeAll(f.sub, M(f));
    (f.(sub := subs), c || d)
  }

  function DistributeAll(es: seq<Expr>, ghost bound: nat): (seq<Expr>, bool)
    requires forall i | 0 <= i < |es| :: M(es[i]) < bound
    decreases bound, 0, |es|
  {
    if es == [] then ([], false)
    else
      var (f, c) := DistributePass(es[0]);
      var (fs, d) := DistributeAll(es[1..], bound);
      ([f] + fs, c || d)
  }

  lemma {:induction false} OperandsSmaller(e: Expr)
    ensures forall i | 0 <= i < |e.sub| :: M(e.sub[i]) < M(e)
  {
    forall i | 0 <= i < |e.sub| ensures M(e.sub[i]) < M(e) { OperandSmaller(e, i); }
  }

  ghost predicate SmallerAll(es: seq<Expr>, fs: seq<Expr>) {
    |fs| == |es| && forall i | 0 <= i < |es| :: M(fs[i]) <= M(es[i])
  }

  lemma {:induction false} MAllMonotone(es: seq<Expr>, fs: seq<Expr>)
    requires SmallerAll(es, fs)
    ensures MAll(fs) <= MAll(es) && ((exists i :: 0 <= i < |es| && M(fs[i]) < M(es[i])) ==> MAll(fs) < MAll(es))
  {
    if es != [] {
      MAllMonotone(es[1..], fs[1..]);
      if i :| 0 <= i < |es| && M(fs[i]) < M(es[i]) {
        if i > 0 { assert M(fs[1..][i - 1]) < M(es[1..][i - 1]); }
      }
    }
  }

  /** The measure is monotone in the operands. */
  lemma {:induction false} MonotoneInside(e: Expr, fs: seq<Expr>)
    requires SmallerAll(e.sub, fs)
    ensures M(e.(sub := fs)) <= M(e)
    ensures (exists i :: 0 <= i < |fs| && M(fs[i]) < M(e.sub[i])) ==> M(e.(sub := fs)) < M(e)
  {
    if IsProduct(e) {
      TimesMonotone(M(fs[0]), M(e.sub[0]), M(fs[1]), M(e.sub[1]));
      if M(fs[0]) < M(e.sub[0]) || M(fs[1]) < M(e.sub[1]) { TimesStrict(M(fs[0]), M(e.sub[0]), M(fs[1]), M(e.sub[1])); }
    } else if !IsSum(e) {
      MAllMonotone(e.sub, fs);
    }
  }

  lemma TimesStrict(a: nat, a': nat, b: nat, b': nat)
    requires 1 <= a <= a' && 1 <= b <= b' && (a < a' || b < b')
    ensures a * b < a' * b'
  {
    assert a' * b' == a * b + (a' - a) * b' + a * (b' - b);
    if a < a' { assert (a' - a) * b' >= 1; } else { assert a * (b' - b) >= 1; }
  }

  lemma {:induction false} DistributePassKeeps(e: Expr)
    ensures var r := DistributePass(e); Same(e, r.0) && M(r.0) <= M(e) && (r.1 ==> M(r.0) < M(e))
    decreases M(e), 1, 0
  {
    DistributeKeeps(e);
    var f := Distribute(e).0;
    OperandsSmaller(f);
    DistributeAllKeeps(f.sub, M(f));
    var subs := DistributeAll(f.sub, M(f)).0;
    SameInside(f, subs);
    MonotoneInside(f, subs);
    SameTrans(e, f, f.(sub := subs));
  }

  lemma {:induction false} DistributeAllKeeps(es: seq<Expr>, bound: nat)
    requires forall i | 0 <= i < |es| :: M(es[i]) < bound
    ensures var r := DistributeAll(es, bound);
            SameAll(es, r.0) && SmallerAll(es, r.0) && (r.1 ==> exists i :: 0 <= i < |es| && M(r.0[i]) < M(es[i]))
    decreases bound, 0, |es|
  {
    if es != [] {
      DistributePassKeeps(es[0]);
      DistributeAllKeeps(es[1..], bound);
      var (f, c) := DistributePass(es[0]);
      var (fs, d) := DistributeAll(es[1..], bound);
      var r := [f] + fs;
      assert r[1..] == fs;
      forall i | 0 <= i < |es| ensures Same(es[i], r[i]) && M(r[i]) <= M(es[i]) {
        if i > 0 { assert es[i] == es[1..][i - 1] && r[i] == fs[i - 1]; }
      }
      if c {
        assert M(r[0]) < M(es[0]);
      } else if d {
        var i :| 0 <= i < |es[1..]| && M(fs[i]) < M(es[1..][i]);
        assert M(r[i + 1]) < M(es[i + 1]);
      }
    }
  }

  // ----- Folding --------------------------------------------------------------------------------------

  predicate Int64(x: int) { -0x8000_0000_0000_0000 <= x < 0x8000_0000_0000_0000 }
  predicate Int32(x: int) { -0x8000_0000 <= x < 0x8000_0000 }

  function MakeNum(x: int): Expr { Expr(Number(Some(x)), "", []) }

  function Folded(op: string, a: int, b: int): int { if op == "+" then a + b else if op == "-" then a - b else a * b }

  /** Nothing when the 64-bit arithmetic of the source overflows. */
  function FoldPass(e: Expr): Option<(Expr, bool)>
    decreases e, 0
  {
    if (IsSum(e) || IsProduct(e)) && NumValue(e.sub[0]).Some? && NumValue(e.sub[1]).Some? then
      var x := Folded(e.value, NumValue(e.sub[0]).value, NumValue(e.sub[1]).value);
      if Int64(x) then Some((MakeNum(x), true)) else None
    else
      var r := FoldAll(e.sub);
      if r.None? then None else Some((e.(sub := r.value.0), r.value.1))
  }

  function FoldAll(es: seq<Expr>): Option<(seq<Expr>, bool)>
    decreases es, 1
  {
    if es == [] then Some(([], false))
    else
      var f := FoldPass(es[0]);
      var fs := FoldAll(es[1..]);
      if f.None? || fs.None? then None else Some(([f.value.0] + fs.value.0, f.value.1 || fs.value.1))
  }

  lemma {:induction false} FoldPassKeeps(e: Expr)
    requires FoldPass(e).Some?
    ensures var r := FoldPass(e).value; Same(e, r.0) && Nodes(r.0) <= Nodes(e) && (r.1 ==> Nodes(r.0) < Nodes(e))
    decreases e, 0
  {
    if (IsSum(e) || IsProduct(e)) && NumValue(e.sub[0]).Some? && NumValue(e.sub[1]).Some? {
      NodesHas(e.sub, 0);
      FoldKeeps(e);
    } else {
      FoldAllKeeps(e.sub);
      SameInside(e, FoldAll(e.sub).value.0);
    }
  }

  lemma FoldKeeps(e: Expr)
    requires (IsSum(e) || IsProduct(e)) && NumValue(e.sub[0]).Some? && NumValue(e.sub[1]).Some?
    ensures Same(e, MakeNum(Folded(e.value, NumValue(e.sub[0]).value, NumValue(e.sub[1]).value)))
  {
    forall w: World
      ensures Value(e.sub[0], w) == NumValue(e.sub[0]).value && Value(e.sub[1], w) == NumValue(e.sub[1]).value {}
  }

  lemma {:induction false} FoldAllKeeps(es: seq<Expr>)
    requires FoldAll(es).Some?
    ensures var r := FoldAll(es).value;
            SameAll(es, r.0) && NodesAll(r.0) <= NodesAll(es) && (r.1 ==> NodesAll(r.0) < NodesAll(es))
    decreases es, 1
  {
    if es != [] {
      FoldPassKeeps(es[0]);
      FoldAllKeeps(es[1..]);
      assert FoldAll(es).value.0[1..] == FoldAll(es[1..]).value.0;
    }
  }
}

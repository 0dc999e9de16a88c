/** The integral types of C++ as a language of CombGraph, and exactly when a
    value may pass a storage by. */
module CombCpp {
  import opened Common
  import opened CombGraph
  import opened CombLeads
  import opened CombTyping

  // ----- Types and conversions -----------------------------------------------------------------

  /** The value of a type that an integer stands for: truncation to its width,
      and for `bool` the test for nonzero. */
  function Fit(t: Type, x: int): int {
    match t
    case Unsigned(n) => x % PowerOfTwo(n)
    case Signed(n) => (x + PowerOfTwo(n - 1)) % PowerOfTwo(n) - PowerOfTwo(n - 1)
    case Bool => if x != 0 then 1 else 0
    case Packed(_, n) => x % PowerOfTwo(n)
    case Class(_) => x
  }

  predicate Integral(t: Type) { t.Unsigned? || t.Signed? || t.Bool? }

  predicate Wide(t: Type) { t.Packed? && t.bits > 64 }

  /** Conversion to a type yields its value for the converted one; between
      built-in types and classes of more than 64 bits it passes one 64-bit word. */
  function Converted(from: Type, to: Type, x: int): int {
    if (Wide(from) && Integral(to)) || (Integral(from) && Wide(to)) then Fit(to, Fit(Unsigned(64), x)) else Fit(to, x)
  }

  function Cpp(result: (nat, seq<Type>) -> Type): Language {
    Language((t, x) => Fit(t, x), (from, to, x) => Converted(from, to, x), result)
  }

  function Width(t: Type): pos
    requires Integral(t)
  {
    match t case Unsigned(n) => n case Signed(n) => n case Bool => 1
  }

  predicate InType(t: Type, x: int)
    requires Integral(t)
  {
    match t
    case Unsigned(n) => 0 <= x < PowerOfTwo(n)
    case Signed(n) => 0 - PowerOfTwo(n - 1) <= x < PowerOfTwo(n - 1)
    case Bool => 0 <= x <= 1
  }

  // ----- Arithmetic ------------------------------------------------------------------------------

  lemma {:induction false} PowerMonotone(a: nat, b: nat)
    requires a <= b
    ensures PowerOfTwo(a) <= PowerOfTwo(b)
  {
    if a < b { PowerMonotone(a, b - 1); }
  }

  lemma {:induction false} PowerDivides(a: nat, b: nat) returns (q: nat)
    requires a <= b
    ensures PowerOfTwo(b) == q * PowerOfTwo(a)
  {
    if a == b {
      q := 1;
    } else {
      var h := PowerDivides(a, b - 1);
      q := 2 * h;
      assert PowerOfTwo(b) == 2 * (h * PowerOfTwo(a));
    }
  }

  /** A remainder is the only number of its residue below the modulus. */
  lemma Remainder(x: int, m: nat, k: int, r: int)
    requires m > 0 && x == k * m + r && 0 <= r < m
    ensures x % m == r
  {
    var d := x / m;
    assert x == d * m + x % m;
    assert (k - d) * m == x % m - r;
    Spread(k - d, m);
    Spread(d - k, m);
    assert (d - k) * m == r - x % m;
  }

  lemma Quotient(x: int, m: nat) returns (k: int)
    requires m > 0
    ensures x == k * m + x % m && 0 <= x % m < m
  {
    k := x / m;
  }

  /** Remainders by witness: a multiple of the modulus changes nothing. */
  lemma SameRemainder(x: int, y: int, k: int, m: nat)
    requires m > 0 && x == y + k * m
    ensures x % m == y % m
  {
    var q := Quotient(y, m);
    assert (k + q) * m == k * m + q * m;
    Remainder(x, m, k + q, y % m);
  }

  lemma RemainderMoves(x: int, m: nat) returns (k: int)
    requires m > 0
    ensures x % m == x + k * m && 0 <= x % m < m
  {
    var q := Quotient(x, m);
    k := -q;
    assert k * m == -(q * m);
  }

  /** Fitting leaves values of the type alone and moves others by multiples of
      the modulus into it. */
  lemma FitMoves(t: Type, x: int) returns (k: int)
    requires Integral(t) && !t.Bool?
    ensures InType(t, Fit(t, x)) && Fit(t, x) == x + k * PowerOfTwo(Width(t))
  {
    match t
    case Unsigned(n) => k := RemainderMoves(x, PowerOfTwo(n));
    case Signed(n) =>
      assert PowerOfTwo(n) == 2 * PowerOfTwo(n - 1);
      k := RemainderMoves(x + PowerOfTwo(n - 1), PowerOfTwo(n));
  }

  lemma FitSame(t: Type, x: int, y: int, k: int)
    requires Integral(t) && !t.Bool? && x == y + k * PowerOfTwo(Width(t))
    ensures Fit(t, x) == Fit(t, y)
  {
    match t
    case Unsigned(n) => SameRemainder(x, y, k, PowerOfTwo(n));
    case Signed(n) => SameRemainder(x + PowerOfTwo(n - 1), y + PowerOfTwo(n - 1), k, PowerOfTwo(n));
  }

  lemma FitOwn(t: Type, x: int)
    requires Integral(t) && InType(t, x)
    ensures Fit(t, x) == x
  {
    match t
    case Unsigned(n) => Remainder(x, PowerOfTwo(n), 0, x);
    case Signed(n) => Remainder(x + PowerOfTwo(n - 1), PowerOfTwo(n), 0, x + PowerOfTwo(n - 1));
    case Bool =>
  }

  lemma FitIn(t: Type, x: int)
    requires Integral(t)
    ensures InType(t, Fit(t, x))
  {
    if !t.Bool? { var k := FitMoves(t, x); }
  }

  /** The value of the type that a multiple of the modulus away is fitted to. */
  lemma FitsTo(t: Type, x: int, y: int, k: int)
    requires Integral(t) && !t.Bool? && x == y + k * PowerOfTwo(Width(t)) && InType(t, y)
    ensures Fit(t, x) == y
  {
    FitSame(t, x, y, k);
    FitOwn(t, y);
  }

  /** Numbers less than the modulus apart fit alike only if they are equal. */
  lemma FitApart(t: Type, x: int, y: int)
    requires Integral(t) && !t.Bool? && x != y && 0 - PowerOfTwo(Width(t)) < x - y < PowerOfTwo(Width(t))
    ensures Fit(t, x) != Fit(t, y)
  {
    var m := PowerOfTwo(Width(t));
    var j := FitMoves(t, x);
    var k := FitMoves(t, y);
    if Fit(t, x) == Fit(t, y) {
      assert (k - j) * m == k * m - j * m;
      assert (j - k) * m == j * m - k * m;
      Spread(k - j, m);
      Spread(j - k, m);
    }
  }

  /** A packed class holds what the built-in unsigned type of its width holds. */
  function Shape(t: Type): (r: Type)
    ensures forall x: int :: Fit(r, x) == Fit(t, x)
  {
    if t.Packed? then Unsigned(t.bits) else t
  }

  lemma FitTwice(t: Type, x: int)
    ensures Fit(t, Fit(t, x)) == Fit(t, x)
  {
    if Integral(Shape(t)) {
      FitIn(Shape(t), x);
      FitOwn(Shape(t), Fit(t, x));
    }
  }

  lemma ConvertedIn(from: Type, to: Type, x: int)
    ensures Fit(to, Converted(from, to, x)) == Converted(from, to, x)
  {
    FitTwice(to, x);
    FitTwice(to, Fit(Unsigned(64), x));
  }

  lemma FitBits(t: Type)
    ensures Fit(t, 0) == 0 && (Fit(t, 1) == 1 || (t.Signed? && Fit(t, 1) == -1))
  {
    var s := Shape(t);
    if Integral(s) {
      if !s.Bool? { assert PowerOfTwo(Width(s)) == 2 * PowerOfTwo(Width(s) - 1); }
      FitOwn(s, 0);
      if s == Signed(1) {
        FitSame(s, 1, -1, 1);
        FitOwn(s, -1);
      } else {
        if s.Signed? { PowerMonotone(1, s.bits - 1); }
        FitOwn(s, 1);
      }
    }
  }

  /** No type takes one or minus one for zero. */
  lemma OneShows(t: Type, y: int)
    requires y == 1 || y == -1
    ensures Fit(t, y) != Fit(t, 0)
  {
    var s := Shape(t);
    if Integral(s) && !s.Bool? {
      assert PowerOfTwo(Width(s)) == 2 * PowerOfTwo(Width(s) - 1);
      FitApart(s, 0, y);
    }
  }

  /** Zero and one stay apart in every type. */
  lemma BitsStayApart(a: Type, b: Type)
    ensures Converted(a, b, Fit(a, 0)) != Converted(a, b, Fit(a, 1))
  {
    FitBits(a);
    FitBits(Unsigned(64));
    OneShows(b, Fit(a, 1));
    if Integral(a) && Wide(b) && Fit(a, 1) == -1 {
      PowerMonotone(1, 64);
      FitsTo(Unsigned(64), -1, PowerOfTwo(64) - 1, -1);
      PowerMonotone(64, b.bits);
      FitOwn(Shape(b), PowerOfTwo(64) - 1);
      FitOwn(Shape(b), 0);
    }
  }

  /** These types are a language to which the exact condition applies. */
  lemma CppIsLanguage(result: (nat, seq<Type>) -> Type)
    ensures LanguageOk(Cpp(result)) && Discerning(Cpp(result))
  {
    var l := Cpp(result);
    forall t, x ensures KeepsOwn(l, t, x) { FitTwice(t, x); }
    forall from, to, x ensures Yields(l, from, to, x) { ConvertedIn(from, to, x); }
    forall a, b ensures Discerns(l, a, b) { BitsStayApart(a, b); }
  }

  // ----- Passing a storage by --------------------------------------------------------------------

  /** Every value of one type is a value of the other. */
  predicate Within(a: Type, b: Type)
    requires Integral(a) && Integral(b)
  {
    match (a, b)
    case (Unsigned(m), Unsigned(n)) => m <= n
    case (Unsigned(m), Signed(n)) => m < n
    case (Unsigned(m), Bool) => m == 1
    case (Signed(m), Signed(n)) => m <= n
    case (Signed(_), _) => false
    case (Bool, Signed(n)) => 1 < n
    case (Bool, _) => true
  }

  /** On the way from `a` to `c`, a storage of type `b` makes no difference: it
      holds every value, or enough bits of it for what follows. */
  predicate Direct(a: Type, b: Type, c: Type)
    requires Integral(a) && Integral(b) && Integral(c)
  {
    || b == c || Within(a, b)
    || (if c.Bool? then Width(a) <= Width(b)
        else if b.Bool? then a == Signed(1) && Width(c) == 1
        else Width(c) <= Width(b))
  }

  /** The value through `b` is the value without it. */
  ghost predicate Passing(a: Type, b: Type, c: Type, u: int) { Fit(c, Fit(b, Fit(a, u))) == Fit(c, Fit(a, u)) }

  lemma WithinIs(a: Type, b: Type, v: int)
    requires Integral(a) && Integral(b) && Within(a, b) && InType(a, v)
    ensures Fit(b, v) == v
  {
    match (a, b) {
      case (Unsigned(m), Unsigned(n)) => PowerMonotone(m, n);
      case (Unsigned(m), Signed(n)) => PowerMonotone(m, n - 1);
      case (Signed(m), Signed(n)) => PowerMonotone(m - 1, n - 1);
      case (Bool, Signed(n)) => PowerMonotone(1, n - 1);
      case (Bool, Unsigned(n)) => PowerMonotone(1, n);
      case _ =>
    }
    FitOwn(b, v);
  }

  lemma Regroup(k: int, q: int, x: int, y: int)
    requires y == q * x
    ensures k * y == (k * q) * x
  {}

  /** A storage with as many bits as what follows keeps the bits that count. */
  lemma EnoughBits(b: Type, c: Type, v: int)
    requires Integral(b) && Integral(c) && !b.Bool? && !c.Bool? && Width(c) <= Width(b)
    ensures Fit(c, Fit(b, v)) == Fit(c, v)
  {
    var k := FitMoves(b, v);
    var q := PowerDivides(Width(c), Width(b));
    Regroup(k, q, PowerOfTwo(Width(c)), PowerOfTwo(Width(b)));
    FitSame(c, Fit(b, v), v, k * q);
  }

  /** A storage that is as wide keeps a value from becoming zero. */
  lemma StaysNonzero(a: Type, b: Type, v: int)
    requires Integral(a) && Integral(b) && !b.Bool? && Width(a) <= Width(b) && InType(a, v) && v != 0
    ensures Fit(b, v) != 0
  {
    PowerMonotone(Width(a), Width(b));
    assert PowerOfTwo(Width(a)) == 2 * PowerOfTwo(Width(a) - 1);
    FitOwn(b, 0) by { assert PowerOfTwo(Width(b)) == 2 * PowerOfTwo(Width(b) - 1); }
    FitApart(b, v, 0);
  }

  lemma DirectPasses(a: Type, b: Type, c: Type, u: int)
    requires Integral(a) && Integral(b) && Integral(c) && Direct(a, b, c)
    ensures Passing(a, b, c, u)
  {
    var v := Fit(a, u);
    FitIn(a, u);
    if b == c {
      FitTwice(b, v);
    } else if Within(a, b) {
      WithinIs(a, b, v);
    } else if c.Bool? {
      if v == 0 { FitBits(b); } else { StaysNonzero(a, b, v); }
    } else if b.Bool? {
      if v == -1 { FitSame(c, 1, -1, 1) by { assert PowerOfTwo(1) == 2; } }
    } else {
      EnoughBits(b, c, v);
    }
  }

  /** A value that such a storage changes by its modulus. */
  lemma Moved(a: Type, b: Type) returns (v: int)
    requires Integral(a) && Integral(b) && !b.Bool? && !Within(a, b)
    ensures InType(a, v) && (Fit(b, v) == v - PowerOfTwo(Width(b)) || Fit(b, v) == v + PowerOfTwo(Width(b)))
  {
    var n: nat := b.bits;
    assert PowerOfTwo(n) == 2 * PowerOfTwo(n - 1);
    match (a, b) {
      case (Unsigned(m), Unsigned(_)) =>
        v := PowerOfTwo(n);
        PowerMonotone(n + 1, m);
        FitsTo(b, v, 0, 1);
      case (Unsigned(m), Signed(_)) =>
        v := PowerOfTwo(n - 1);
        PowerMonotone(n, m);
        FitsTo(b, v, v - PowerOfTwo(n), 1);
      case (Signed(m), Unsigned(_)) =>
        v := -1;
        FitsTo(b, v, v + PowerOfTwo(n), -1);
      case (Signed(m), Signed(_)) =>
        v := PowerOfTwo(n - 1);
        PowerMonotone(n, m - 1);
        FitsTo(b, v, v - PowerOfTwo(n), 1);
      case (Bool, _) =>
        v := 1;
        assert PowerOfTwo(1) == 2;
        FitsTo(b, v, -1, 1);
    }
  }

  /** A nonzero value that becomes zero. */
  lemma Vanishes(a: Type, b: Type) returns (v: int)
    requires Integral(a) && Integral(b) && !b.Bool? && Width(b) < Width(a)
    ensures InType(a, v) && v != 0 && Fit(b, v) == 0
  {
    var n: nat := Width(b);
    match a {
      case Unsigned(m) =>
        v := PowerOfTwo(n);
        PowerMonotone(n + 1, m);
        MultipleVanishes(b, v, 1);
      case Signed(m) =>
        var q := PowerDivides(n, m - 1);
        v := 0 - PowerOfTwo(m - 1);
        var minus: int := -1;
        Regroup(minus, q, PowerOfTwo(n), PowerOfTwo(m - 1));
        MultipleVanishes(b, v, minus * q);
    }
  }

  lemma MultipleVanishes(b: Type, v: int, k: int)
    requires Integral(b) && !b.Bool? && v == k * PowerOfTwo(Width(b))
    ensures Fit(b, v) == 0
  {
    FitBits(b);
    FitSame(b, v, 0, k);
  }

  lemma NotPassing(a: Type, b: Type, c: Type) returns (u: int)
    requires Integral(a) && Integral(b) && Integral(c) && !Direct(a, b, c)
    ensures !Passing(a, b, c, u)
  {
    if c.Bool? {
      u := Vanishes(a, b);
      FitOwn(a, u);
    } else if b.Bool? {
      u := if a.Unsigned? then 2 else if a == Signed(1) then -1 else -2;
      BoolChanges(a, c, u);
    } else {
      u := MovedShows(a, b, c);
    }
  }

  lemma MovedShows(a: Type, b: Type, c: Type) returns (u: int)
    requires Integral(a) && Integral(b) && Integral(c) && !b.Bool? && !c.Bool? && !Within(a, b) && Width(b) < Width(c)
    ensures !Passing(a, b, c, u)
  {
    u := Moved(a, b);
    FitOwn(a, u);
    PowerMonotone(Width(b) + 1, Width(c));
    FitApart(c, u, Fit(b, u));
  }

  lemma BoolChanges(a: Type, c: Type, u: int)
    requires Integral(a) && Integral(c) && !c.Bool? && !a.Bool? && !Within(a, Bool)
             && !(a == Signed(1) && Width(c) == 1)
    requires u == if a.Unsigned? then 2 else if a == Signed(1) then -1 else -2
    ensures !Passing(a, Bool, c, u)
  {
    assert PowerOfTwo(1) == 2 && PowerOfTwo(2) == 4;
    if a.Unsigned? { PowerMonotone(2, a.bits); } else if a.bits > 1 { PowerMonotone(1, a.bits - 1); }
    FitOwn(a, u);
    if Width(c) > 1 {
      PowerMonotone(2, Width(c));
      FitApart(c, u, 1);
    } else {
      PowerMonotone(1, Width(c));
      FitSame(c, u, 0, if a.Unsigned? then 1 else -1);
      FitApart(c, 0, 1);
    }
  }

  /** Exactly for which types leaving out a storage changes no value. */
  lemma PassingExact(a: Type, b: Type, c: Type)
    requires Integral(a) && Integral(b) && Integral(c)
    ensures (forall u: int :: Passing(a, b, c, u)) <==> Direct(a, b, c)
  {
    if Direct(a, b, c) {
      forall u: int ensures Passing(a, b, c, u) { DirectPasses(a, b, c, u); }
    } else {
      var u := NotPassing(a, b, c);
    }
  }

  // ----- The condition of a node by its types ------------------------------------------------------

  /** Numbers: packed classes and built-in types of at most 64 bits. */
  predicate Numeric(t: Type) { t.Packed? || (Integral(t) && Width(t) <= 64) }

  /** Where passing one word makes no difference. */
  predicate Plain(from: Type, to: Type) { !(from.Signed? && Wide(to)) && !(Wide(from) && to.Bool?) }

  /** Three numbers whose conversions only fit the value to the type. */
  predicate PlainPath(a: Type, b: Type, c: Type) {
    Numeric(a) && Numeric(b) && Numeric(c) && Plain(a, b) && Plain(b, c) && Plain(a, c)
  }

  lemma PlainConverts(from: Type, to: Type, u: int)
    requires Numeric(from) && Numeric(to) && Plain(from, to)
    ensures Converted(from, to, Fit(from, u)) == Fit(to, Fit(from, u))
  {
    if Wide(from) && Integral(to) {
      EnoughBits(Unsigned(64), to, Fit(from, u));
    } else if Integral(from) && Wide(to) {
      FitIn(from, u);
      WithinIs(from, Unsigned(64), Fit(from, u));
    }
  }

  /** On the way from `a` to `c`, leaving out a storage of type `b` changes no value. */
  predicate Passable(a: Type, b: Type, c: Type)
    requires PlainPath(a, b, c)
  {
    Direct(Shape(a), Shape(b), Shape(c))
  }

  /** The way through the storage and the way without it, for one value. */
  lemma PathPasses(a: Type, b: Type, c: Type, result: (nat, seq<Type>) -> Type, u: int)
    requires PlainPath(a, b, c)
    ensures Through(Cpp(result), a, b, c, Fit(a, u)) == Fit(c, Fit(b, Fit(a, u)))
    ensures Cpp(result).convert(a, c, Fit(a, u)) == Fit(c, Fit(a, u))
  {
    PlainConverts(a, b, u);
    PlainConverts(b, c, Fit(a, u));
    PlainConverts(a, c, u);
  }

  ghost predicate PassesAll(g: Graph, sharing: bool, id: nat)
    requires GraphOk(g) && id < |g.nodes|
  {
    forall u: int :: PassesOn(g, sharing, id, u)
  }

  /** Every value of its type arrives at the expression: it is an operation, a
      slot that no equation fixes, or a storage of the type of its operation. */
  predicate Full(g: Graph, e: Expr)
    requires GraphOk(g) && InRange(e, |g.nodes|)
  {
    e.Ref? && Equated(g, e.id) ==> g.expr[e.id].Apply? && TypeOf(g, g.expr[e.id]) == g.nodes[e.id].storage
  }

  lemma FullArrives(g: Graph, e: Expr, u: int)
    requires GraphOk(g) && g.language == Cpp(g.language.result) && InRange(e, |g.nodes|) && Full(g, e)
    ensures ArrivesAt(g, e, u) == Fit(TypeOf(g, e), u)
  {
    if e.Ref? && Equated(g, e.id) { FitTwice(g.nodes[e.id].storage, u); }
  }

  /** The types of a value that is only forwarded: where it comes from, the
      storage that is gone, and the storage it is assigned to. */
  predicate ForwardPath(g: Graph, sharing: bool, id: nat)
    requires GraphOk(g) && id < |g.nodes| && g.expr[id].Ref?
  {
    PlainPath(TypeOf(g, Target(g, sharing, g.expr[id].id)), g.nodes[g.expr[id].id].storage, g.nodes[id].storage)
  }

  /** A node that takes what another one is assigned, without the storage in
      between: the three types decide. */
  lemma ForwardedByTypes(g: Graph, sharing: bool, id: nat)
    requires GraphOk(g) && g.language == Cpp(g.language.result) && id < |g.nodes| && g.expr[id].Ref?
    requires Full(g, Target(g, sharing, g.expr[id].id)) && !ReadsShared(g, sharing, id) && ForwardPath(g, sharing, id)
    ensures PassesAll(g, sharing, id)
       <==> Passable(TypeOf(g, Target(g, sharing, g.expr[id].id)), g.nodes[g.expr[id].id].storage, g.nodes[id].storage)
  {
    var t := Target(g, sharing, g.expr[id].id);
    var a, b, c := TypeOf(g, t), g.nodes[g.expr[id].id].storage, g.nodes[id].storage;
    PassingExact(Shape(a), Shape(b), Shape(c));
    forall u: int ensures PassesOn(g, sharing, id, u) <==> Passing(Shape(a), Shape(b), Shape(c), u) {
      FullArrives(g, t, u);
      PathPasses(a, b, c, g.language.result, u);
    }
  }

  /** Wherever the value comes from, these three types suffice. */
  lemma DirectForwards(g: Graph, sharing: bool, id: nat)
    requires GraphOk(g) && g.language == Cpp(g.language.result) && id < |g.nodes| && g.expr[id].Ref?
    requires !ReadsShared(g, sharing, id) && ForwardPath(g, sharing, id)
    requires Passable(TypeOf(g, Target(g, sharing, g.expr[id].id)), g.nodes[g.expr[id].id].storage, g.nodes[id].storage)
    ensures PassesAll(g, sharing, id)
  {
    var t := Target(g, sharing, g.expr[id].id);
    var a, b, c := TypeOf(g, t), g.nodes[g.expr[id].id].storage, g.nodes[id].storage;
    forall u: int ensures PassesOn(g, sharing, id, u) {
      var v := ArrivesAt(g, t, u);
      ArrivesInType(g, t, u);
      PathPasses(a, b, c, g.language.result, v);
      DirectPasses(Shape(a), Shape(b), Shape(c), v);
    }
  }

  lemma ArrivesInType(g: Graph, e: Expr, u: int)
    requires GraphOk(g) && g.language == Cpp(g.language.result) && InRange(e, |g.nodes|)
    ensures Fit(TypeOf(g, e), ArrivesAt(g, e, u)) == ArrivesAt(g, e, u)
  {
    if e.Ref? && Equated(g, e.id) {
      OperandsEarlier(g, e.id);
      match g.expr[e.id] {
        case Ref(d) => ConvertedIn(g.nodes[d].storage, g.nodes[e.id].storage, Arrives(g, d, u));
        case Apply(_, _) =>
          ConvertedIn(TypeOf(g, g.expr[e.id]), g.nodes[e.id].storage, Fit(TypeOf(g, g.expr[e.id]), u));
      }
    } else {
      FitTwice(TypeOf(g, e), u);
    }
  }

  /** A comb that reads the storage of an equal one: its result, the other
      storage and its own storage decide. */
  lemma SharedByTypes(g: Graph, sharing: bool, id: nat)
    requires GraphOk(g) && g.language == Cpp(g.language.result) && id < |g.nodes| && g.expr[id].Apply?
             && ReadsShared(g, sharing, id)
    requires PlainPath(TypeOf(g, g.expr[id]), g.nodes[Lead(g, sharing, id)].storage, g.nodes[id].storage)
    ensures PassesAll(g, sharing, id)
       <==> Passable(TypeOf(g, g.expr[id]), g.nodes[Lead(g, sharing, id)].storage, g.nodes[id].storage)
  {
    var a, b, c := TypeOf(g, g.expr[id]), g.nodes[Lead(g, sharing, id)].storage, g.nodes[id].storage;
    PassingExact(Shape(a), Shape(b), Shape(c));
    forall u: int ensures PassesOn(g, sharing, id, u) <==> Passing(Shape(a), Shape(b), Shape(c), u) {
      PathPasses(a, b, c, g.language.result, u);
    }
  }
}

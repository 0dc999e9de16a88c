/** The balanced trees of CppGraphEnvironment.h as values: ordered, balanced,
    with cached heights and counts, and the finite map they stand for. */
module AvlTrees {
  import opened Common
  import opened Terms

  /** graph::Value behind a shared handle; handles are compared by identity. */
  class Shared {
    const term: Term
    constructor (t: Term)
      ensures term == t
    {
      term := t;
    }
  }

  datatype Tree = Leaf | Branch(key: string, value: Shared, left: Tree, right: Tree, height: nat, count: nat)

  // ----- Keys ------------------------------------------------------------------------------

  /** The order of std::string. */
  predicate Less(a: string, b: string) {
    |b| > 0 && (|a| == 0 || a[0] < b[0] || (a[0] == b[0] && Less(a[1..], b[1..])))
  }

  lemma {:induction false} LessTrans(a: string, b: string, c: string)
    requires Less(a, b) && Less(b, c)
    ensures Less(a, c)
    decreases |a|
  {
    if |a| > 0 && a[0] == b[0] && b[0] == c[0] { LessTrans(a[1..], b[1..], c[1..]); }
  }

  lemma {:induction false} LessTotal(a: string, b: string)
    ensures Less(a, b) || a == b || Less(b, a)
    ensures !(Less(a, b) && Less(b, a)) && (a == b ==> !Less(a, b))
    decreases |a|
  {
    if |a| > 0 && |b| > 0 {
      LessTotal(a[1..], b[1..]);
      assert a == [a[0]] + a[1..] && b == [b[0]] + b[1..];
    }
  }

  // ----- Trees ------------------------------------------------------------------------------

  function Depth(t: Tree): nat { if t.Leaf? then 0 else t.height }
  function Size(t: Tree): nat { if t.Leaf? then 0 else t.count }
  function Max(a: nat, b: nat): nat { if a >= b then a else b }

  function Make(key: string, value: Shared, left: Tree, right: Tree): Tree {
    Branch(key, value, left, right, 1 + Max(Depth(left), Depth(right)), 1 + Size(left) + Size(right))
  }

  ghost function Keys(t: Tree): set<string> {
    if t.Leaf? then {} else Keys(t.left) + {t.key} + Keys(t.right)
  }

  ghost predicate AllLess(s: set<string>, k: string) { forall x | x in s :: Less(x, k) }
  ghost predicate AllMore(s: set<string>, k: string) { forall x | x in s :: Less(k, x) }

  ghost predicate Ordered(t: Tree) {
    t.Leaf? || (Ordered(t.left) && Ordered(t.right) && AllLess(Keys(t.left), t.key) && AllMore(Keys(t.right), t.key))
  }

  /** Balanced, with the cached height and count of every node correct. */
  ghost predicate Avl(t: Tree) {
    t.Leaf? || (Avl(t.left) && Avl(t.right) && t == Make(t.key, t.value, t.left, t.right)
                && Depth(t.left) <= Depth(t.right) + 1 && Depth(t.right) <= Depth(t.left) + 1)
  }

  ghost predicate Good(t: Tree) { Ordered(t) && Avl(t) }

  // ----- Searching ----------------------------------------------------------------------------

  /** findNode: the subtree whose root has the key. */
  function SubtreeAt(t: Tree, key: string): Tree {
    if t.Leaf? || key == t.key then t else SubtreeAt(if Less(key, t.key) then t.left else t.right, key)
  }

  function Find(t: Tree, key: string): Option<Shared> {
    var n := SubtreeAt(t, key);
    if n.Leaf? then None else Some(n.value)
  }

  lemma FindStep(t: Tree, k: string)
    requires t.Branch?
    ensures Find(t, k) == if k == t.key then Some(t.value)
                          else if Less(k, t.key) then Find(t.left, k) else Find(t.right, k)
  {}

  lemma Sides(t: Tree, k: string)
    requires Ordered(t) && t.Branch?
    ensures k in Keys(t.left) ==> Less(k, t.key) && k != t.key && k !in Keys(t.right)
    ensures k in Keys(t.right) ==> !Less(k, t.key) && k != t.key
  {
    LessTotal(k, t.key);
  }

  /** Searching an ordered tree finds exactly its keys. */
  lemma {:induction false} FindExact(t: Tree, k: string)
    requires Ordered(t)
    ensures k in Keys(t) <==> Find(t, k).Some?
  {
    if t.Branch? {
      FindExact(t.left, k);
      FindExact(t.right, k);
      Sides(t, k);
    }
  }

  /** The finite map an ordered tree stands for. */
  ghost function Entries(t: Tree): map<string, Shared> {
    map k | k in Keys(t) && Find(t, k).Some? :: Find(t, k).value
  }

  // ----- Balancing --------------------------------------------------------------------------

  function Balance(key: string, value: Shared, left: Tree, right: Tree): (t: Tree)
    requires Avl(left) && Avl(right) && Depth(left) <= Depth(right) + 2 && Depth(right) <= Depth(left) + 2
    ensures Avl(t) && t.Branch? && Max(Depth(left), Depth(right)) <= Depth(t) <= Max(Depth(left), Depth(right)) + 1
    ensures Depth(left) <= Depth(right) + 1 && Depth(right) <= Depth(left) + 1 ==>
            Depth(t) == Max(Depth(left), Depth(right)) + 1
  {
    if Depth(left) > Depth(right) + 1 then
      if Depth(left.left) >= Depth(left.right) then
        Make(left.key, left.value, left.left, Make(key, value, left.right, right))
      else
        var pivot := left.right;
        assert Avl(pivot);
        assert Avl(Make(left.key, left.value, left.left, pivot.left)) && Avl(Make(key, value, pivot.right, right));
        Make(pivot.key, pivot.value, Make(left.key, left.value, left.left, pivot.left),
             Make(key, value, pivot.right, right))
    else if Depth(right) > Depth(left) + 1 then
      if Depth(right.right) >= Depth(right.left) then
        Make(right.key, right.value, Make(key, value, left, right.left), right.right)
      else
        var pivot := right.left;
        assert Avl(pivot);
        assert Avl(Make(key, value, left, pivot.left)) && Avl(Make(right.key, right.value, pivot.right, right.right));
        Make(pivot.key, pivot.value, Make(key, value, left, pivot.left),
             Make(right.key, right.value, pivot.right, right.right))
    else Make(key, value, left, right)
  }

  /** Both trees are ordered and hold the same entries. */
  ghost predicate Alike(t: Tree, u: Tree) {
    Ordered(t) && Ordered(u) && Keys(t) == Keys(u) && forall k :: Find(t, k) == Find(u, k)
  }

  lemma LessAll(s: set<string>, a: string, b: string)
    requires AllLess(s, a) && Less(a, b)
    ensures AllLess(s, b)
  {
    forall x | x in s ensures Less(x, b) { LessTrans(x, a, b); }
  }

  lemma MoreAll(s: set<string>, a: string, b: string)
    requires AllMore(s, a) && Less(b, a)
    ensures AllMore(s, b)
  {
    forall x | x in s ensures Less(b, x) { LessTrans(b, a, x); }
  }

  /** A single rotation, read in either direction. */
  lemma Rotation(a: string, va: Shared, b: string, vb: Shared, t: Tree, u: Tree, v: Tree)
    requires Ordered(Make(b, vb, Make(a, va, t, u), v)) || Ordered(Make(a, va, t, Make(b, vb, u, v)))
    ensures Alike(Make(b, vb, Make(a, va, t, u), v), Make(a, va, t, Make(b, vb, u, v)))
  {
    RotationOrdered(a, va, b, vb, t, u, v);
    forall k ensures Find(Make(b, vb, Make(a, va, t, u), v), k) == Find(Make(a, va, t, Make(b, vb, u, v)), k) {
      FindStep(Make(b, vb, Make(a, va, t, u), v), k);
      FindStep(Make(a, va, t, u), k);
      FindStep(Make(a, va, t, Make(b, vb, u, v)), k);
      FindStep(Make(b, vb, u, v), k);
      if Less(k, a) { LessTrans(k, a, b); }
      LessTotal(k, b);
      if Less(b, k) { LessTrans(a, b, k); }
      LessTotal(k, a);
    }
  }

  /** What both shapes of a rotation say about their parts. */
  ghost predicate Parts(a: string, b: string, t: Tree, u: Tree, v: Tree) {
    && Ordered(t) && Ordered(u) && Ordered(v) && Less(a, b)
    && AllLess(Keys(t), a) && AllMore(Keys(u), a) && AllLess(Keys(u), b) && AllMore(Keys(v), b)
  }

  lemma RotationOrdered(a: string, va: Shared, b: string, vb: Shared, t: Tree, u: Tree, v: Tree)
    requires Ordered(Make(b, vb, Make(a, va, t, u), v)) || Ordered(Make(a, va, t, Make(b, vb, u, v)))
    ensures Ordered(Make(b, vb, Make(a, va, t, u), v)) && Ordered(Make(a, va, t, Make(b, vb, u, v))) && Less(a, b)
    ensures Keys(Make(b, vb, Make(a, va, t, u), v)) == Keys(Make(a, va, t, Make(b, vb, u, v)))
  {
    if Ordered(Make(b, vb, Make(a, va, t, u), v)) {
      PartsOfLeft(a, va, b, vb, t, u, v);
    } else { PartsOfRight(a, va, b, vb, t, u, v); }
    PartsMake(a, va, b, vb, t, u, v);
  }

  lemma PartsOfLeft(a: string, va: Shared, b: string, vb: Shared, t: Tree, u: Tree, v: Tree)
    requires Ordered(Make(b, vb, Make(a, va, t, u), v))
    ensures Parts(a, b, t, u, v)
  {
    var x := Make(a, va, t, u);
    assert Ordered(x) && a in Keys(x) && Keys(u) <= Keys(x) && AllLess(Keys(x), b);
  }

  lemma PartsOfRight(a: string, va: Shared, b: string, vb: Shared, t: Tree, u: Tree, v: Tree)
    requires Ordered(Make(a, va, t, Make(b, vb, u, v)))
    ensures Parts(a, b, t, u, v)
  {
    var y := Make(b, vb, u, v);
    assert Ordered(y) && b in Keys(y) && Keys(u) <= Keys(y) && AllMore(Keys(y), a);
  }

  lemma PartsMake(a: string, va: Shared, b: string, vb: Shared, t: Tree, u: Tree, v: Tree)
    requires Parts(a, b, t, u, v)
    ensures Ordered(Make(b, vb, Make(a, va, t, u), v)) && Ordered(Make(a, va, t, Make(b, vb, u, v)))
    ensures Keys(Make(b, vb, Make(a, va, t, u), v)) == Keys(Make(a, va, t, Make(b, vb, u, v)))
  {
    var x, y := Make(a, va, t, u), Make(b, vb, u, v);
    assert Keys(x) == Keys(t) + {a} + Keys(u) && Keys(y) == Keys(u) + {b} + Keys(v);
    LessAll(Keys(t), a, b);
    MoreAll(Keys(v), b, a);
    assert AllLess(Keys(x), b) && AllMore(Keys(y), a);
    assert Keys(Make(b, vb, x, v)) == Keys(x) + {b} + Keys(v) && Keys(Make(a, va, t, y)) == Keys(t) + {a} + Keys(y);
  }

  lemma AlikeTrans(t: Tree, u: Tree, v: Tree)
    requires Alike(t, u) && Alike(u, v)
    ensures Alike(t, v)
  {}

  lemma AlikeInside(key: string, value: Shared, left: Tree, right: Tree, left': Tree, right': Tree)
    requires Alike(left, left') && Alike(right, right') && Ordered(Make(key, value, left, right))
    ensures Alike(Make(key, value, left, right), Make(key, value, left', right'))
  {
    forall k ensures Find(Make(key, value, left, right), k) == Find(Make(key, value, left', right'), k) {
      assert Find(left, k) == Find(left', k) && Find(right, k) == Find(right', k);
    }
  }

  /** Balancing changes neither the order nor the entries. */
  lemma {:induction false} BalanceAlike(key: string, value: Shared, left: Tree, right: Tree)
    requires Ordered(Make(key, value, left, right)) && Avl(left) && Avl(right)
    requires Depth(left) <= Depth(right) + 2 && Depth(right) <= Depth(left) + 2
    ensures Alike(Make(key, value, left, right), Balance(key, value, left, right))
  {
    if Depth(left) > Depth(right) + 1 {
      if Depth(left.left) >= Depth(left.right) {
        Rotation(left.key, left.value, key, value, left.left, left.right, right);
      } else {
        DoubleRight(key, value, left, right);
      }
    } else if Depth(right) > Depth(left) + 1 {
      if Depth(right.right) >= Depth(right.left) {
        Rotation(key, value, right.key, right.value, left, right.left, right.right);
      } else {
        DoubleLeft(key, value, left, right);
      }
    }
  }

  lemma {:induction false} DoubleRight(key: string, value: Shared, left: Tree, right: Tree)
    requires Ordered(Make(key, value, left, right)) && Avl(left) && left.Branch? && left.right.Branch?
    ensures var p := left.right;
            Alike(Make(key, value, left, right),
                  Make(p.key, p.value, Make(left.key, left.value, left.left, p.left), Make(key, value, p.right, right)))
  {
    var p := left.right;
    var turned := Make(p.key, p.value, Make(left.key, left.value, left.left, p.left), p.right);
    Rotation(left.key, left.value, p.key, p.value, left.left, p.left, p.right);
    AlikeInside(key, value, left, right, turned, right);
    Rotation(p.key, p.value, key, value, Make(left.key, left.value, left.left, p.left), p.right, right);
    AlikeTrans(Make(key, value, left, right), Make(key, value, turned, right),
               Make(p.key, p.value, Make(left.key, left.value, left.left, p.left), Make(key, value, p.right, right)));
  }

  lemma {:induction false} DoubleLeft(key: string, value: Shared, left: Tree, right: Tree)
    requires Ordered(Make(key, value, left, right)) && Avl(right) && right.Branch? && right.left.Branch?
    ensures var p := right.left;
            Alike(Make(key, value, left, right),
                  Make(p.key, p.value, Make(key, value, left, p.left),
                       Make(right.key, right.value, p.right, right.right)))
  {
    var p := right.left;
    var turned := Make(p.key, p.value, p.left, Make(right.key, right.value, p.right, right.right));
    Rotation(p.key, p.value, right.key, right.value, p.left, p.right, right.right);
    AlikeInside(key, value, left, right, left, turned);
    Rotation(key, value, p.key, p.value, left, p.left, Make(right.key, right.value, p.right, right.right));
    AlikeTrans(Make(key, value, left, right), Make(key, value, left, turned),
               Make(p.key, p.value, Make(key, value, left, p.left),
                    Make(right.key, right.value, p.right, right.right)));
  }

  // ----- Updating ---------------------------------------------------------------------------------

  function Leftmost(t: Tree): (r: Tree)
    requires t.Branch?
    ensures r.Branch?
  {
    if t.left.Leaf? then t else Leftmost(t.left)
  }

  /** update: Some inserts or replaces, None erases. The result is balanced and
      its height moves by at most one, up only when inserting. */
  function Update(t: Tree, key: string, bits: Option<Shared>): (r: Tree)
    requires Avl(t)
    ensures Avl(r)
    ensures if bits.Some? then Depth(t) <= Depth(r) <= Depth(t) + 1 else Depth(r) <= Depth(t) <= Depth(r) + 1
    decreases t
  {
    if t.Leaf? then (if bits.Some? then Make(key, bits.value, Leaf, Leaf) else t)
    else if Less(key, t.key) then
      var child := Update(t.left, key, bits);
      if child == t.left then t else Balance(t.key, t.value, child, t.right)
    else if Less(t.key, key) then
      var child := Update(t.right, key, bits);
      if child == t.right then t else Balance(t.key, t.value, t.left, child)
    else if bits.Some? then
      (if bits.value == t.value then t else Make(key, bits.value, t.left, t.right))
    else if t.left.Leaf? then t.right
    else if t.right.Leaf? then t.left
    else
      var next := Leftmost(t.right);
      Balance(next.key, next.value, t.left, Update(t.right, next.key, None))
  }

  lemma {:induction false} LeftmostIs(t: Tree)
    requires Ordered(t) && t.Branch?
    ensures var n := Leftmost(t);
            n.key in Keys(t) && Find(t, n.key) == Some(n.value)
              && forall x | x in Keys(t) :: x == n.key || Less(n.key, x)
  {
    if t.left.Branch? {
      LeftmostIs(t.left);
      var n := Leftmost(t.left);
      Sides(t, n.key);
      forall x | x in Keys(t.right) ensures Less(n.key, x) { LessTrans(n.key, t.key, x); }
    }
  }

  /** `u` is `t` with one key set to `bits`, as finite maps. */
  ghost predicate Updates(t: Tree, u: Tree, key: string, bits: Option<Shared>) {
    && Ordered(u) && Keys(u) == (if bits.Some? then Keys(t) + {key} else Keys(t) - {key})
    && forall k :: Find(u, k) == if k == key then bits else Find(t, k)
  }

  lemma {:induction false} UpdateUpdates(t: Tree, key: string, bits: Option<Shared>)
    requires Ordered(t) && Avl(t)
    ensures Updates(t, Update(t, key, bits), key, bits)
    decreases t
  {
    if t.Branch? {
      LessTotal(key, t.key);
      if Less(key, t.key) {
        UpdateUpdates(t.left, key, bits);
        UpdateLeft(t, Update(t.left, key, bits), key, bits);
        BalanceAlike(t.key, t.value, Update(t.left, key, bits), t.right);
      } else if Less(t.key, key) {
        UpdateUpdates(t.right, key, bits);
        UpdateRight(t, Update(t.right, key, bits), key, bits);
        BalanceAlike(t.key, t.value, t.left, Update(t.right, key, bits));
      } else if bits.None? {
        if t.right.Branch? { UpdateUpdates(t.right, Leftmost(t.right).key, None); }
        UpdateErase(t);
      } else {
        Sides(t, key);
      }
    } else {
      LessTotal(key, key);
    }
  }

  lemma {:induction false} UpdateLeft(t: Tree, child: Tree, key: string, bits: Option<Shared>)
    requires Ordered(t) && t.Branch? && Less(key, t.key) && Updates(t.left, child, key, bits)
    ensures Updates(t, Make(t.key, t.value, child, t.right), key, bits)
    ensures child == t.left ==> Updates(t, t, key, bits)
  {
    var u := Make(t.key, t.value, child, t.right);
    Sides(t, key);
    LessTotal(key, t.key);
    forall k ensures Find(u, k) == if k == key then bits else Find(t, k) {
      assert Find(child, k) == if k == key then bits else Find(t.left, k);
    }
  }

  lemma {:induction false} UpdateRight(t: Tree, child: Tree, key: string, bits: Option<Shared>)
    requires Ordered(t) && t.Branch? && Less(t.key, key) && Updates(t.right, child, key, bits)
    ensures Updates(t, Make(t.key, t.value, t.left, child), key, bits)
    ensures child == t.right ==> Updates(t, t, key, bits)
  {
    var u := Make(t.key, t.value, t.left, child);
    Sides(t, key);
    LessTotal(key, t.key);
    forall k ensures Find(u, k) == if k == key then bits else Find(t, k) {
      assert Find(child, k) == if k == key then bits else Find(t.right, k);
    }
  }

  lemma {:induction false} UpdateErase(t: Tree)
    requires Ordered(t) && Avl(t) && t.Branch?
    requires t.right.Branch? ==>
             Updates(t.right, Update(t.right, Leftmost(t.right).key, None), Leftmost(t.right).key, None)
    ensures Updates(t, Update(t, t.key, None), t.key, None)
  {
    LessTotal(t.key, t.key);
    Sides(t, t.key);
    if t.left.Branch? && t.right.Branch? {
      EraseInner(t, Update(t.right, Leftmost(t.right).key, None));
      BalanceAlike(Leftmost(t.right).key, Leftmost(t.right).value, t.left,
                   Update(t.right, Leftmost(t.right).key, None));
    } else {
      EraseOuter(t);
    }
  }

  lemma EraseOuter(t: Tree)
    requires Ordered(t) && t.Branch? && (t.left.Leaf? || t.right.Leaf?)
    ensures Updates(t, if t.left.Leaf? then t.right else t.left, t.key, None)
  {
    var u := if t.left.Leaf? then t.right else t.left;
    LessTotal(t.key, t.key);
    Sides(t, t.key);
    forall k ensures Find(u, k) == if k == t.key then None else Find(t, k) {
      FindExact(u, k);
      FindStep(t, k);
      Sides(t, k);
    }
  }

  /** The successor takes the erased entry's place. */
  lemma EraseInner(t: Tree, rest: Tree)
    requires Ordered(t) && t.Branch? && t.right.Branch? && Updates(t.right, rest, Leftmost(t.right).key, None)
    ensures var n := Leftmost(t.right); Updates(t, Make(n.key, n.value, t.left, rest), t.key, None)
  {
    var n := Leftmost(t.right);
    var u := Make(n.key, n.value, t.left, rest);
    LeftmostIs(t.right);
    LessAll(Keys(t.left), t.key, n.key);
    Sides(t, n.key);
    Sides(t, t.key);
    forall k ensures Find(u, k) == if k == t.key then None else Find(t, k) {
      LessTotal(k, t.key);
      LessTotal(k, n.key);
      if Less(k, t.key) { LessTrans(k, t.key, n.key); }
      FindExact(t.left, k);
      FindExact(t.right, k);
      FindExact(rest, k);
      Sides(t, k);
    }
  }

  /** Environments stay ordered and balanced, and refine a finite map. */
  lemma {:induction false} UpdateRefines(t: Tree, key: string, bits: Option<Shared>)
    requires Ordered(t) && Avl(t)
    ensures var r := Update(t, key, bits);
            && Ordered(r) && Avl(r)
            && Entries(r) == if bits.Some? then Entries(t)[key := bits.value] else Entries(t) - {key}
  {
    UpdateUpdates(t, key, bits);
    UpdatesEntries(t, Update(t, key, bits), key, bits);
  }

  lemma UpdatesEntries(t: Tree, r: Tree, key: string, bits: Option<Shared>)
    requires Ordered(t) && Updates(t, r, key, bits)
    ensures Entries(r) == if bits.Some? then Entries(t)[key := bits.value] else Entries(t) - {key}
  {
    EntriesFind(t);
    EntriesFind(r);
    var wanted := if bits.Some? then Entries(t)[key := bits.value] else Entries(t) - {key};
    forall k ensures (k in Entries(r) <==> k in wanted) && (k in wanted ==> Entries(r)[k] == wanted[k]) {
      assert Find(r, k) == if k == key then bits else Find(t, k);
    }
  }

  lemma EntriesFind(t: Tree)
    requires Ordered(t)
    ensures forall k ::
              (k in Entries(t) <==> Find(t, k).Some?) && (k in Entries(t) ==> Entries(t)[k] == Find(t, k).value)
  {
    forall k ensures k in Entries(t) <==> Find(t, k).Some? { FindExact(t, k); }
  }

  // ----- Size and height ------------------------------------------------------------------------------

  lemma ThreeParts(a: set<string>, k: string, b: set<string>)
    requires k !in a && k !in b && a !! b
    ensures |a + {k} + b| == |a| + |b| + 1
  {}

  lemma {:induction false} CountIsSize(t: Tree)
    requires Good(t)
    ensures Size(t) == |Keys(t)| && Keys(t) == Entries(t).Keys
  {
    if t.Branch? {
      CountIsSize(t.left);
      CountIsSize(t.right);
      forall k
        ensures !(k in Keys(t.left) && k in Keys(t.right)) && (k in Keys(t.left) || k in Keys(t.right) ==> k != t.key)
      {
        Sides(t, k);
      }
      ThreeParts(Keys(t.left), t.key, Keys(t.right));
    }
    forall k ensures k in Keys(t) <==> k in Entries(t) { FindExact(t, k); }
  }

  ghost function Fib(n: nat): nat { if n < 2 then n else Fib(n - 1) + Fib(n - 2) }

  /** A tree of height h holds at least Fib(h + 2) - 1 entries. */
  lemma {:induction false} FibonacciBound(t: Tree)
    requires Good(t)
    ensures Fib(Depth(t) + 2) <= Size(t) + 1
  {
    if t.Branch? {
      FibonacciBound(t.left);
      FibonacciBound(t.right);
      var h := Depth(t);
      FibMonotone(h, Depth(t.left) + 2);
      FibMonotone(h, Depth(t.right) + 2);
    }
  }

  lemma {:induction false} FibMonotone(a: nat, b: nat)
    requires a <= b
    ensures Fib(a) <= Fib(b)
    decreases b
  {
    if a < b {
      FibMonotone(a, b - 1);
      if b >= 2 { assert Fib(b) == Fib(b - 1) + Fib(b - 2); }
    }
  }

  lemma {:induction false} FibGrows(h: nat)
    ensures PowerOfTwo(h / 2) <= Fib(h + 2)
  {
    if h >= 2 {
      FibGrows(h - 2);
      assert h / 2 == (h - 2) / 2 + 1;
      FibMonotone(h, h + 1);
    }
  }

  /** The height is at most about twice the logarithm of the number of entries. */
  lemma HeightLogarithmic(t: Tree)
    requires Good(t)
    ensures PowerOfTwo(Depth(t) / 2) <= |Keys(t)| + 1
  {
    FibonacciBound(t);
    FibGrows(Depth(t));
    CountIsSize(t);
  }
}

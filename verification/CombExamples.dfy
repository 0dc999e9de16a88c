/** Concrete models on which simplification and reclassification behave
    differently from what one may expect. */
module CombExamples {
  import opened Common
  import opened CombGraph
  import opened CombLeads
  import opened CombTyping
  import opened CombCpp
  import opened CombPipeline
  import opened CombReclassify
  import opened CombEmission
  import opened DependencyGraph
  import CombDynamic
  import CombSchedule

  // ----- Types of texts --------------------------------------------------------------------------

  /** Integer promotion. */
  function Promoted(t: Type): Type {
    match t
    case Unsigned(n) => if n < 32 then Signed(32) else t
    case Signed(n) => if n < 32 then Signed(32) else t
    case Bool => Signed(32)
    case Packed(_, _) => t
    case Class(_) => t
  }

  /** A text without operands has type `r`; others promote their operand. */
  function Typing(r: Type): (nat, seq<Type>) -> Type { (op, types) => if types == [] then r else Promoted(types[0]) }

  lemma {:induction false} PowerSum(a: nat, b: nat)
    ensures PowerOfTwo(a + b) == PowerOfTwo(a) * PowerOfTwo(b)
  {
    if b > 0 {
      PowerSum(a, b - 1);
      assert PowerOfTwo(a) * (2 * PowerOfTwo(b - 1)) == 2 * (PowerOfTwo(a) * PowerOfTwo(b - 1));
    }
  }

  lemma Powers()
    ensures PowerOfTwo(4) == 16 && PowerOfTwo(8) == 0x100 && PowerOfTwo(16) == 0x1_0000
    ensures PowerOfTwo(32) == 0x1_0000_0000 && PowerOfTwo(64) == WORD
  {
    assert PowerOfTwo(2) == 4;
    Square(2, 4);
    Square(4, 16);
    Square(8, 0x100);
    Square(16, 0x1_0000);
    Square(32, 0x1_0000_0000);
  }

  lemma Square(n: nat, x: nat)
    requires PowerOfTwo(n) == x
    ensures PowerOfTwo(2 * n) == x * x
  {
    PowerSum(n, n);
    assert n + n == 2 * n;
  }

  // ----- Small graphs --------------------------------------------------------------------------------

  /** The node is eager, in its place, and depends on what it mentions: the
      node before it or nothing. */
  ghost predicate InPlace(g: Graph, id: nat, d: nat)
    requires |g.nodes| == |g.expr| == |g.deps| == |g.rank| == |g.schedule| && id < |g.nodes|
  {
    && Eager(g, id) && g.schedule[id] == id && g.rank[id] == id && Flat(g.expr[id], |g.nodes|)
    && (d in g.deps[id] <==> Mentions(g.expr[id], d)) && (d in g.deps[id] ==> id == d + 1)
  }

  lemma SmallGraphOk(g: Graph)
    requires |g.nodes| == |g.expr| == |g.deps| == |g.rank| == |g.schedule| && LanguageOk(g.language)
    requires forall id: nat, d: nat | id < |g.nodes| :: InPlace(g, id, d)
    ensures GraphOk(g)
  {
    forall i | 0 <= i < |g.schedule| ensures g.schedule[i] == i && g.rank[i] == i && Flat(g.expr[i], |g.nodes|) {
      assert InPlace(g, i, 0);
    }
    forall id: nat, d: nat | id < |g.deps| && d in g.deps[id]
      ensures id == d + 1 && Scheduled(g, d) && g.rank[d] < g.rank[id] && Eager(g, d) && Mentions(g.expr[id], d)
    {
      assert InPlace(g, id, d) && InPlace(g, d, 0);
    }
    forall id: nat, d: nat | id < |g.deps|
      ensures d in g.deps[id] <==> Mentions(g.expr[id], d)
    {
      assert InPlace(g, id, d);
    }
    forall id: nat, k: nat | id < |g.deps| && k < |g.deps[id]| ensures g.deps[id][k] < |g.nodes| {
      assert g.deps[id][k] in g.deps[id];
      assert InPlace(g, id, g.deps[id][k]);
    }
  }

  // ----- A node that is inlined ----------------------------------------------------------------------

  /** A child port or projected comb of type `mid` that stores a text of type
      `from` and is inlined where the comb of type `to` reads it. */
  function Inlined(read: Expr, from: Type, mid: Type, to: Type): Graph {
    Graph(Cpp(Typing(from)), [Node(Port, 0, mid, None, false, true), Node(Comb, 0, to, None, false, true)],
          [Apply(0, []), read], [[], [0]], [0, 1], {}, {0}, [0, 1])
  }

  const Forward: Expr := Ref(0)
  const Operate: Expr := Apply(1, [Ref(0)])

  lemma InlinedEdges(read: Expr, from: Type, mid: Type, to: Type, id: nat, d: nat)
    requires (read == Forward || read == Operate) && id < 2
    ensures InPlace(Inlined(read, from, mid, to), id, d)
  {
    var g := Inlined(read, from, mid, to);
    assert g.schedule[id] == id && g.deps[id] == if id == 0 then [] else [0];
    FlatMentions(g.expr[id], 2, d);
    if id == 1 && read == Operate { assert g.expr[1].args[0] == Ref(0); }
  }

  lemma InlinedOk(read: Expr, from: Type, mid: Type, to: Type)
    requires read == Forward || read == Operate
    ensures GraphOk(Inlined(read, from, mid, to)) && Discerning(Inlined(read, from, mid, to).language)
  {
    var g := Inlined(read, from, mid, to);
    CppIsLanguage(Typing(from));
    forall id: nat, d: nat | id < 2 ensures InPlace(g, id, d) { InlinedEdges(read, from, mid, to, id, d); }
    SmallGraphOk(g);
  }

  lemma InlinedTargets(read: Expr, from: Type, mid: Type, to: Type, sharing: bool)
    requires (read == Forward || read == Operate) && GraphOk(Inlined(read, from, mid, to))
    ensures var g := Inlined(read, from, mid, to);
            Eager(g, 0) && Lead(g, sharing, 0) == 0 && Lead(g, sharing, 1) == 1 && Target(g, sharing, 0) == Apply(0, [])
  {
    var g := Inlined(read, from, mid, to);
    InlinedEdges(read, from, mid, to, 0, 0);
    assert !Forwarding(g, 0) && !Forwarding(g, 1);
    TargetIs(g, sharing, 0);
    assert Operands(g, sharing, []) == [];
  }

  /** Where its value only passes on, inlining keeps values exactly if the
      three types let it pass the storage by. */
  lemma ForwardInlined(from: Type, mid: Type, to: Type, sharing: bool)
    requires PlainPath(from, mid, to)
    ensures GraphOk(Inlined(Forward, from, mid, to))
    ensures Kept(Inlined(Forward, from, mid, to), sharing) <==> Passable(from, mid, to)
  {
    var g := Inlined(Forward, from, mid, to);
    InlinedOk(Forward, from, mid, to);
    InlinedTargets(Forward, from, mid, to, sharing);
    TypingExact(g, sharing);
    assert TypeOf(g, Target(g, sharing, 0)) == from;
    ForwardedByTypes(g, sharing, 1);
    FirstMatches(g, sharing);
    assert Matches(g, sharing, 1) <==> PassesAll(g, sharing, 1);
    InlinedMatches(Forward, from, mid, to, sharing);
  }

  /** A node without operands that is left alone matches. */
  lemma FirstMatches(g: Graph, sharing: bool)
    requires GraphOk(g) && |g.nodes| > 0 && g.expr[0] == Apply(0, []) && Lead(g, sharing, 0) == 0
    ensures Matches(g, sharing, 0)
  {
    forall u: int ensures PassesOn(g, sharing, 0, u) {}
  }

  lemma InlinedMatches(read: Expr, from: Type, mid: Type, to: Type, sharing: bool)
    requires (read == Forward || read == Operate) && GraphOk(Inlined(read, from, mid, to))
    requires Matches(Inlined(read, from, mid, to), sharing, 0)
    ensures MatchesAll(Inlined(read, from, mid, to), sharing) <==> Matches(Inlined(read, from, mid, to), sharing, 1)
  {
    InlinedEdges(read, from, mid, to, 1, 0);
  }

  /** Where it is an operand, exactly if the storage had the type of the text. */
  lemma OperandInlined(from: Type, mid: Type, to: Type, sharing: bool)
    ensures GraphOk(Inlined(Operate, from, mid, to))
    ensures Kept(Inlined(Operate, from, mid, to), sharing) <==> from == mid
  {
    var g := Inlined(Operate, from, mid, to);
    InlinedOk(Operate, from, mid, to);
    InlinedTargets(Operate, from, mid, to, sharing);
    TypingExact(g, sharing);
    FirstMatches(g, sharing);
    OperandMatches(from, mid, to, sharing);
    InlinedMatches(Operate, from, mid, to, sharing);
  }

  lemma OperandMatches(from: Type, mid: Type, to: Type, sharing: bool)
    requires GraphOk(Inlined(Operate, from, mid, to))
    requires var g := Inlined(Operate, from, mid, to); Lead(g, sharing, 1) == 1 && Target(g, sharing, 0) == Apply(0, [])
    ensures Matches(Inlined(Operate, from, mid, to), sharing, 1) <==> from == mid
  {
    var g := Inlined(Operate, from, mid, to);
    assert TypeOf(g, Target(g, sharing, 0)) == from;
    assert g.expr[1].args[0] == Ref(0);
    forall u: int ensures PassesOn(g, sharing, 1, u) {}
  }

  // ----- The same with numbers -------------------------------------------------------------------------

  /** The text yields `a`; the operation is the complement of its operand. */
  function Complement(a: int): World { (op, types, vals) => if vals == [] then a else -vals[0] - 1 }

  lemma InlinedSolution(read: Expr, from: Type, mid: Type, to: Type, w: World, val: seq<int>)
    requires (read == Forward || read == Operate) && GraphOk(Inlined(read, from, mid, to)) && |val| == 2
    requires var g := Inlined(read, from, mid, to);
             val[0] == Assigned(g, 0, g.expr[0], val, w) && val[1] == Assigned(g, 1, g.expr[1], val, w)
    ensures Solves(Inlined(read, from, mid, to), val, w)
  {}

  /** What the reader is assigned when it reads `u` of type `t`. */
  function ReadAs(read: Expr, t: Type, to: Type, u: int, w: World): int {
    if read.Ref? then Converted(t, to, u) else Converted(Promoted(t), to, Fit(Promoted(t), w(1, [t], [u])))
  }

  lemma OperandLists(g: Graph, e: Expr, val: seq<int>, w: World)
    requires InRange(e, |g.nodes|) && |val| == |g.nodes|
    ensures TypesOf(g, []) == [] && Values(g, [], val, w) == []
    ensures TypesOf(g, [e]) == [TypeOf(g, e)] && Values(g, [e], val, w) == [Value(g, e, val, w)]
  {}

  /** What the two nodes are assigned before. */
  lemma InlinedBefore(read: Expr, from: Type, mid: Type, to: Type, w: World, val: seq<int>)
    requires (read == Forward || read == Operate) && GraphOk(Inlined(read, from, mid, to)) && |val| == 2
    ensures var g := Inlined(read, from, mid, to);
            && Assigned(g, 0, g.expr[0], val, w) == Converted(from, mid, Fit(from, w(0, [], [])))
            && Assigned(g, 1, g.expr[1], val, w) == ReadAs(read, mid, to, Fit(mid, val[0]), w)
  {
    OperandLists(Inlined(read, from, mid, to), Ref(0), val, w);
  }

  /** What the reader's expression becomes. */
  lemma InlinedFinal(read: Expr, from: Type, mid: Type, to: Type, sharing: bool)
    requires (read == Forward || read == Operate) && GraphOk(Inlined(read, from, mid, to))
    ensures FinalFor(Inlined(read, from, mid, to), sharing, 1) == if read.Ref? then Apply(0, [])
                                                                  else Apply(1, [Apply(0, [])])
  {
    var g := Inlined(read, from, mid, to);
    InlinedTargets(read, from, mid, to, sharing);
    if read == Operate { assert Operands(g, sharing, [Ref(0)]) == [Apply(0, [])]; }
  }

  /** What the reader is assigned afterwards. */
  lemma InlinedAfter(read: Expr, from: Type, mid: Type, to: Type, sharing: bool, w: World, val: seq<int>)
    requires (read == Forward || read == Operate) && GraphOk(Inlined(read, from, mid, to)) && |val| == 2
    ensures Assigned(Inlined(read, from, mid, to), 1, FinalFor(Inlined(read, from, mid, to), sharing, 1), val, w)
         == ReadAs(read, from, to, Fit(from, w(0, [], [])), w)
  {
    InlinedFinal(read, from, mid, to, sharing);
    OperandLists(Inlined(read, from, mid, to), Apply(0, []), val, w);
  }

  /** `val` is a solution of the graph, in which the reader is assigned
      `val[1]` before and `seen` afterwards. */
  ghost predicate Shows(read: Expr, from: Type, mid: Type, to: Type, sharing: bool, w: World, val: seq<int>,
                        seen: int)
  {
    var g := Inlined(read, from, mid, to);
    GraphOk(g) && Solves(g, val, w) && Assigned(g, 1, FinalFor(g, sharing, 1), val, w) == seen
  }

  lemma InlinedShows(read: Expr, from: Type, mid: Type, to: Type, sharing: bool, w: World, val: seq<int>)
    requires (read == Forward || read == Operate) && |val| == 2
    requires val[0] == Converted(from, mid, Fit(from, w(0, [], [])))
    requires val[1] == ReadAs(read, mid, to, Fit(mid, val[0]), w)
    ensures Shows(read, from, mid, to, sharing, w, val, ReadAs(read, from, to, Fit(from, w(0, [], [])), w))
  {
    InlinedOk(read, from, mid, to);
    InlinedBefore(read, from, mid, to, w, val);
    InlinedAfter(read, from, mid, to, sharing, w, val);
    InlinedSolution(read, from, mid, to, w, val);
  }

  /** A storage that changes `x` to `y` shows when its reader can hold both. */
  lemma ForwardShows(from: Type, mid: Type, to: Type, sharing: bool, x: int, y: int)
    requires Integral(from) && Integral(mid) && Integral(to)
    requires Fit(from, x) == x && Fit(mid, x) == y == Fit(mid, y) && Fit(to, y) == y && Fit(to, x) == x
    ensures Shows(Forward, from, mid, to, sharing, Complement(x), [y, y], x)
  {
    InlinedShows(Forward, from, mid, to, sharing, Complement(x), [y, y]);
  }

  lemma OneTooMany(width: pos, x: nat)
    requires (width == 8 && x == 255) || (width == 4 && x == 15)
    ensures Fit(Unsigned(64), x + 1) == x + 1 && Fit(Unsigned(width), x + 1) == 0
    ensures Fit(Unsigned(width), 0) == 0 && Fit(Unsigned(64), 0) == 0
  {
    Powers();
    FitOwn(Unsigned(64), x + 1);
    FitBits(Unsigned(width));
    FitBits(Unsigned(64));
    FitsTo(Unsigned(width), x + 1, 0, 1);
  }

  /** An 8-bit comb that stores 255 + 1 holds 0, and inlined it reads 256; a
      4-bit port that stores 15 + 1 holds 0, and inlined it reads 16. */
  lemma NarrowStorage(width: pos, x: nat, sharing: bool)
    requires (width == 8 && x == 255) || (width == 4 && x == 15)
    ensures Shows(Forward, Unsigned(64), Unsigned(width), Unsigned(64), sharing, Complement(x + 1), [0, 0], x + 1)
  {
    OneTooMany(width, x);
    ForwardShows(Unsigned(64), Unsigned(width), Unsigned(64), sharing, x + 1, 0);
  }

  lemma TwoHundred()
    ensures Fit(Unsigned(8), 200) == 200 && Fit(Signed(8), 200) == -56 && Fit(Signed(8), -56) == -56
  {
    Powers();
    assert PowerOfTwo(7) == 128;
    FitOwn(Unsigned(8), 200);
    FitsTo(Signed(8), 200, -56, 1);
    FitOwn(Signed(8), -56);
  }

  lemma TwoHundredRead()
    ensures Fit(Signed(32), -56) == -56 && Fit(Signed(32), 200) == 200
  {
    Powers();
    PowerMonotone(8, 31);
    FitOwn(Signed(32), -56);
    FitOwn(Signed(32), 200);
  }

  /** A signed 8-bit port bound to 200 holds -56, and inlined it reads 200. */
  lemma SignedStorage(sharing: bool)
    ensures Shows(Forward, Unsigned(8), Signed(8), Signed(32), sharing, Complement(200), [-56, -56], 200)
  {
    TwoHundred();
    TwoHundredRead();
    ForwardShows(Unsigned(8), Signed(8), Signed(32), sharing, 200, -56);
  }

  lemma MinusOne()
    ensures Converted(Unsigned(8), Unsigned(32), Fit(Unsigned(8), 0)) == 0 == Fit(Unsigned(32), 0)
    ensures ReadAs(Operate, Unsigned(32), Unsigned(64), 0, Complement(0)) == 0xFFFF_FFFF
    ensures Fit(Unsigned(8), 0) == 0
            && ReadAs(Operate, Unsigned(8), Unsigned(64), 0, Complement(0)) == 0xFFFF_FFFF_FFFF_FFFF
  {
    Powers();
    PowerMonotone(1, 31);
    FitBits(Unsigned(8));
    FitBits(Unsigned(32));
    FitsTo(Unsigned(32), -1, 0xFFFF_FFFF, -1);
    FitOwn(Unsigned(64), 0xFFFF_FFFF);
    FitOwn(Signed(32), -1);
    FitsTo(Unsigned(64), -1, 0xFFFF_FFFF_FFFF_FFFF, -1);
  }

  /** A wide enough storage is not enough: the complement of a 32-bit port that
      is bound to an 8-bit 0 is 2^32 - 1, and inlined, where the operand is
      promoted to `int`, it is 2^64 - 1 in a 64-bit comb. */
  lemma WiderStorage(sharing: bool)
    ensures Shows(Operate, Unsigned(8), Unsigned(32), Unsigned(64), sharing, Complement(0), [0, 0xFFFF_FFFF],
                  0xFFFF_FFFF_FFFF_FFFF)
  {
    MinusOne();
    InlinedShows(Operate, Unsigned(8), Unsigned(32), Unsigned(64), sharing, Complement(0), [0, 0xFFFF_FFFF]);
  }

  const Byte: Type := Packed(0, 8)
  const Short: Type := Packed(0, 16)

  lemma AllOnes()
    ensures Converted(Byte, Short, Fit(Byte, 0)) == 0 == Fit(Short, 0) && Fit(Byte, 0) == 0
    ensures ReadAs(Operate, Short, Short, 0, Complement(0)) == 65535
            && ReadAs(Operate, Byte, Short, 0, Complement(0)) == 255
  {
    Powers();
    FitBits(Byte);
    FitBits(Short);
    assert Shape(Byte) == Unsigned(8) && Shape(Short) == Unsigned(16);
    FitsTo(Unsigned(8), -1, 255, -1);
    FitsTo(Unsigned(16), -1, 65535, -1);
    FitOwn(Unsigned(16), 255);
    FitOwn(Unsigned(16), 65535);
  }

  /** The same with packed classes, whose complement keeps their width: of a
      `logic<16>` port that is bound to a `logic<8>` 0 it is 65535, inlined 255. */
  lemma WiderLogic(sharing: bool)
    ensures Shows(Operate, Byte, Short, Short, sharing, Complement(0), [0, 65535], 255)
  {
    AllOnes();
    InlinedShows(Operate, Byte, Short, Short, sharing, Complement(0), [0, 65535]);
  }

  // ----- Equal combs -------------------------------------------------------------------------------------

  /** Two combs with the same text and the same width in their types' text. */
  function Equal(from: Type, first: Type, second: Type): Graph {
    Graph(Cpp(Typing(from)), [Node(Comb, 0, first, Some(8), true, true), Node(Comb, 0, second, Some(8), true, true)],
          [Apply(0, []), Apply(0, [])], [[], []], [0, 1], {}, {}, [0, 1])
  }

  lemma EqualOk(from: Type, first: Type, second: Type)
    ensures GraphOk(Equal(from, first, second)) && Discerning(Equal(from, first, second).language)
  {
    var g := Equal(from, first, second);
    CppIsLanguage(Typing(from));
    forall id: nat, d: nat | id < 2 ensures InPlace(g, id, d) { EqualEdges(from, first, second, id, d); }
    SmallGraphOk(g);
  }

  lemma EqualEdges(from: Type, first: Type, second: Type, id: nat, d: nat)
    requires id < 2
    ensures InPlace(Equal(from, first, second), id, d)
  {
    assert Equal(from, first, second).schedule[id] == id && Equal(from, first, second).deps[id] == [];
  }

  lemma EqualShared(from: Type, first: Type, second: Type)
    requires GraphOk(Equal(from, first, second))
    ensures var g := Equal(from, first, second);
            Lead(g, true, 0) == 0 && Lead(g, true, 1) == 0 && Target(g, true, 1) == Ref(0)
  {
    var g := Equal(from, first, second);
    assert g.schedule[0] == 0 && g.schedule[1] == 1;
    assert Shareable(g, 0) && Shareable(g, 1);
    assert RenamedEach([], Forwarded(g)) == [];
    assert KeyOf(g, 0) == KeyOf(g, 1);
    FirstIsEarliest(g, KeyOf(g, 0), 2, 0);
    TargetIs(g, true, 1);
  }

  /** Sharing keeps values exactly if the result may pass the first storage by. */
  lemma EqualKept(from: Type, first: Type, second: Type)
    requires PlainPath(from, first, second)
    ensures GraphOk(Equal(from, first, second))
    ensures Kept(Equal(from, first, second), true) <==> Passable(from, first, second)
  {
    var g := Equal(from, first, second);
    EqualOk(from, first, second);
    EqualShared(from, first, second);
    TypingExact(g, true);
    FirstMatches(g, true);
    EqualMatches(from, first, second);
  }

  lemma EqualMatches(from: Type, first: Type, second: Type)
    requires PlainPath(from, first, second) && GraphOk(Equal(from, first, second))
    requires var g := Equal(from, first, second); Lead(g, true, 0) == 0 && Lead(g, true, 1) == 0 && Matches(g, true, 0)
    ensures MatchesAll(Equal(from, first, second), true) <==> Passable(from, first, second)
  {
    var g := Equal(from, first, second);
    assert TypeOf(g, g.expr[1]) == from;
    SharedByTypes(g, true, 1);
    EqualEdges(from, first, second, 1, 0);
    assert Matches(g, true, 1) <==> PassesAll(g, true, 1);
  }

  lemma EqualAssigns(from: Type, first: Type, second: Type, w: World, val: seq<int>)
    requires GraphOk(Equal(from, first, second)) && |val| == 2
    ensures var g := Equal(from, first, second); var u := w(0, [], []);
            && Assigned(g, 0, g.expr[0], val, w) == Converted(from, first, Fit(from, u))
            && Assigned(g, 1, g.expr[1], val, w) == Converted(from, second, Fit(from, u))
            && Assigned(g, 1, FinalFor(g, true, 1), val, w) == Converted(first, second, Fit(first, val[0]))
  {
    var g := Equal(from, first, second);
    EqualShared(from, first, second);
    assert TypesOf(g, []) == [] && Values(g, [], val, w) == [];
  }

  lemma EqualSolution(from: Type, first: Type, second: Type, w: World, val: seq<int>)
    requires GraphOk(Equal(from, first, second)) && |val| == 2
    requires var g := Equal(from, first, second);
             val[0] == Assigned(g, 0, g.expr[0], val, w) && val[1] == Assigned(g, 1, g.expr[1], val, w)
    ensures Solves(Equal(from, first, second), val, w)
  {}

  const TwoBytes: Type := Packed(1, 16)

  /** A `logic<8>` comb and an array of two `logic<8>` share the key 8: the second
      holds 511 before, and reads 255 from the first afterwards. */
  lemma SharedByText()
    ensures var g := Equal(Unsigned(16), Byte, TwoBytes); var w := Complement(511);
            GraphOk(g) && Solves(g, [255, 511], w) && Assigned(g, 1, FinalFor(g, true, 1), [255, 511], w) == 255
  {
    Powers();
    EqualOk(Unsigned(16), Byte, TwoBytes);
    EqualAssigns(Unsigned(16), Byte, TwoBytes, Complement(511), [255, 511]);
    FitOwn(Unsigned(16), 511);
    FitOwn(Unsigned(16), 255);
    FitOwn(Unsigned(8), 255);
    FitsTo(Unsigned(8), 511, 255, 1);
    assert Shape(Byte) == Unsigned(8) && Shape(TwoBytes) == Unsigned(16);
    EqualSolution(Unsigned(16), Byte, TwoBytes, Complement(511), [255, 511]);
  }

  // ----- An alias -------------------------------------------------------------------------------------------

  /** A comb, a port that only forwards it, and a comb that reads the port. */
  function Aliases(from: Type, mid: Type, to: Type): Graph {
    Graph(Cpp(Typing(from)), [Node(Comb, 0, from, None, false, true), Node(Port, 0, mid, None, false, true),
                              Node(Comb, 0, to, None, false, true)],
          [Apply(0, []), Ref(0), Ref(1)], [[], [0], [1]], [0, 1, 2], {}, {}, [0, 1, 2])
  }

  lemma AliasesEdges(from: Type, mid: Type, to: Type, id: nat, d: nat)
    requires id < 3
    ensures InPlace(Aliases(from, mid, to), id, d)
  {
    var g := Aliases(from, mid, to);
    assert g.schedule[id] == id && g.deps[id] == if id == 0 then [] else [id - 1];
  }

  lemma AliasesOk(from: Type, mid: Type, to: Type)
    ensures var g := Aliases(from, mid, to); GraphOk(g) && Discerning(g.language) && Forwarding(g, 1)
  {
    var g := Aliases(from, mid, to);
    CppIsLanguage(Typing(from));
    forall id: nat, d: nat | id < 3 ensures InPlace(g, id, d) { AliasesEdges(from, mid, to, id, d); }
    SmallGraphOk(g);
    AliasForwards(from, mid, to);
  }

  lemma AliasForwards(from: Type, mid: Type, to: Type)
    ensures Forwarding(Aliases(from, mid, to), 1)
  {
    assert Aliases(from, mid, to).schedule[1] == 1 && Aliases(from, mid, to).deps[1] == [0];
  }

  lemma AliasesTargets(from: Type, mid: Type, to: Type, sharing: bool)
    requires GraphOk(Aliases(from, mid, to)) && Forwarding(Aliases(from, mid, to), 1)
    ensures var g := Aliases(from, mid, to);
            && Target(g, sharing, 0) == Ref(0) && Target(g, sharing, 1) == Ref(0)
            && (forall id: nat | id < 3 :: !ReadsShared(g, sharing, id)) && Lead(g, sharing, 0) == 0
  {
    var g := Aliases(from, mid, to);
    AliasesEdges(from, mid, to, 0, 0);
    assert g.deps[1][0] == 0;
    assert !Forwarding(g, 0) && !Forwarding(g, 2);
    TargetIs(g, sharing, 0);
    TargetIs(g, sharing, 1);
  }

  /** Aliasing the port keeps values exactly if they may pass its storage by. */
  lemma AliasKept(from: Type, mid: Type, to: Type, sharing: bool)
    requires PlainPath(from, mid, to)
    ensures GraphOk(Aliases(from, mid, to))
    ensures Kept(Aliases(from, mid, to), sharing) <==> Passable(from, mid, to)
  {
    var g := Aliases(from, mid, to);
    AliasesOk(from, mid, to);
    AliasesTargets(from, mid, to, sharing);
    TypingExact(g, sharing);
    FirstMatches(g, sharing);
    AliasesEdges(from, mid, to, 0, 0);
    AliasMatches(from, mid, to, sharing);
    AliasMatchesAll(from, mid, to, sharing);
  }

  lemma AliasMatchesAll(from: Type, mid: Type, to: Type, sharing: bool)
    requires GraphOk(Aliases(from, mid, to))
    requires Matches(Aliases(from, mid, to), sharing, 0) && Matches(Aliases(from, mid, to), sharing, 1)
    ensures MatchesAll(Aliases(from, mid, to), sharing) <==> Matches(Aliases(from, mid, to), sharing, 2)
  {
    AliasesEdges(from, mid, to, 2, 0);
  }

  lemma AliasMatches(from: Type, mid: Type, to: Type, sharing: bool)
    requires PlainPath(from, mid, to) && GraphOk(Aliases(from, mid, to))
    requires var g := Aliases(from, mid, to);
             && Eager(g, 0) && Target(g, sharing, 0) == Ref(0) && Target(g, sharing, 1) == Ref(0)
             && !ReadsShared(g, sharing, 1) && !ReadsShared(g, sharing, 2)
    ensures var g := Aliases(from, mid, to);
            Matches(g, sharing, 1) && (Matches(g, sharing, 2) <==> Passable(from, mid, to))
  {
    var g := Aliases(from, mid, to);
    assert TypeOf(g, g.expr[0]) == from;
    ForwardedByTypes(g, sharing, 2);
    forall u: int ensures PassesOn(g, sharing, 1, u) {
      FullArrives(g, Ref(0), u);
      FitTwice(from, u);
    }
    assert Matches(g, sharing, 2) <==> PassesAll(g, sharing, 2);
  }

  // ----- A ring ----------------------------------------------------------------------------------

  const NoFacts := CombDynamic.Facts({}, {}, {}, {})

  /** A cached comb that reads a port which only forwards it. */
  function Ring(): Model {
    Model(Cpp(Typing(Unsigned(64))), [CombSchedule.Ready([1]), CombSchedule.Ready([0])], [0],
          [Node(Port, 0, Unsigned(64), None, false, true), Node(Comb, 0, Unsigned(64), None, false, true)],
          [Ref(1), Apply(0, [Ref(0)])], NoFacts, {}, {}, Ref(1))
  }

  lemma RingMentions(id: nat, d: nat)
    requires id < 2
    ensures Flat(Ring().expr[id], 2) && (Mentions(Ring().expr[id], d) <==> d == 1 - id)
  {
    if id == 1 {
      assert Ring().expr[1].args[0] == Ref(0);
      assert Mentions(Ring().expr[1].args[0], d) <==> d == 0;
    }
  }

  lemma RingOk()
    ensures ModelOk(Ring())
  {
    var m := Ring();
    assert m.roots == [0];
    CppIsLanguage(Typing(Unsigned(64)));
    forall id: nat, d: nat | id < 2
      ensures Flat(m.expr[id], 2) && (d in m.prepared[id].dependencies <==> Mentions(m.expr[id], d))
    {
      RingMentions(id, d);
    }
  }

  lemma RingReached()
    ensures var full := CombSchedule.Discovered(Ring().prepared);
            CombSchedule.FromRoots(full, [0], 0) && CombSchedule.FromRoots(full, [0], 1)
  {
    var full := CombSchedule.Discovered(Ring().prepared);
    assert Edge(full, 0, 1);
    ReachSelf(full, 0);
    ReachEdge(full, 0, 1);
    var roots: seq<nat> := [0];
    assert 0 in roots;
  }

  lemma RingIsCycle(schedule: seq<nat>, x: nat)
    requires 0 in schedule && 1 in schedule && x < 2
    ensures CombDynamic.ReachesSeed([[1], [0]], schedule, NoFacts, x)
  {
    var h := Digraph([[1], [0]], set y | y in schedule);
    assert Edge(h, x, 1 - x) && Edge(h, 1 - x, x);
    ReachEdge(h, 1 - x, x);
    ReachSelf(h, x);
    assert CombDynamic.Seed([[1], [0]], schedule, NoFacts, x);
  }

  ghost predicate RingGraph(g: Graph) {
    && g.nodes == Ring().nodes && g.expr == Ring().expr && |g.deps| == 2 && g.deps[0] == [1]
    && 0 in g.schedule && 1 in g.schedule && 0 in g.dynamicNodes && 1 in g.dynamicNodes
  }

  /** Both nodes are on a cycle, so both are on demand at first. */
  lemma RingIsLazy(g: Graph, f: Front)
    requires Classified(g, f) && f.prepared == Ring().prepared && f.roots == [0] && f.facts == NoFacts
    ensures 0 in g.schedule && 1 in g.schedule && 0 in g.dynamicNodes && 1 in g.dynamicNodes
  {
    RingReached();
    assert AllOf(f) == [[1], [0]];
    RingIsCycle(g.schedule, 0);
    RingIsCycle(g.schedule, 1);
  }

  /** The port leads to the comb, which then mentions only itself. */
  lemma RingShrinks(g: Graph, sharing: bool, d: nat)
    requires GraphOk(g) && RingGraph(g)
    ensures Left(g, sharing, 1) && (Mentions(Subst(g, sharing, g.expr[1]), d) <==> d == 1)
  {
    assert g.deps[0][0] == 1;
    assert Forwarding(g, 0) && !Forwarding(g, 1);
    TargetIs(g, sharing, 0);
    assert Target(g, sharing, 0) == Ref(1);
    SubstMentions(g, sharing, g.expr[1], d);
    RingMentions(1, 0);
    if Reaches(g, sharing, g.expr[1], d) {
      var y: nat :| y < |g.nodes| && Mentions(g.expr[1], y) && Mentions(Target(g, sharing, y), d);
      RingMentions(1, y);
    }
  }

  ghost predicate NoEdge(h: Digraph, x: nat) { forall y: nat :: !Edge(h, x, y) }

  /** Without edges and facts nothing keeps a node on demand. */
  lemma NothingLazy(uses: seq<seq<nat>>, schedule: seq<nat>, x: nat)
    requires NoEdge(Digraph(uses, set z | z in schedule), x)
    ensures !CombDynamic.ReachesSeed(uses, schedule, NoFacts, x)
  {
    var h := Digraph(uses, set z | z in schedule);
    assert (set z | z in schedule) * NoFacts.conditional == {};
    if CombDynamic.ReachesSeed(uses, schedule, NoFacts, x) {
      var seed: nat :| CombDynamic.Seed(uses, schedule, NoFacts, seed) && Reach(h, x, seed);
      if seed != x { var z := FirstStep(h, x, seed); }
    }
  }

  lemma RingAgain(p: Passes)
    requires PassesOk(p) && RingGraph(p.g) && p.facts == NoFacts
    ensures 1 in EagerAgain(p) && Mentions(p.r.expr[1], 1)
  {
    forall d: nat ensures Left(p.g, p.sharing, 1) && (Mentions(Subst(p.g, p.sharing, p.g.expr[1]), d) <==> d == 1) {
      RingShrinks(p.g, p.sharing, d);
    }
    assert NodeSimplified(p.g, p.sharing, p.r, 1);
    assert NoEdge(After(p), 1);
    NothingLazy(p.uses, LeftOf(p.g, p.sharing, p.g.schedule), 1);
  }

  lemma RingGraphOf(g: Graph, f: Front)
    requires Describes(Ring(), g, f) && |g.deps| == 2 && g.deps[0] == [1]
    ensures RingGraph(g)
  {
    RingIsLazy(g, f);
    RingNodes(Ring(), g);
  }

  /** Both nodes are cached from the start, so caching rights add nothing. */
  lemma RingNodes(m: Model, g: Graph)
    requires m == Ring() && |g.nodes| == 2
    requires forall id: nat | id < 2 ::
               g.nodes[id]
               == m.nodes[id].(cached := m.nodes[id].kind.Port? || m.nodes[id].cached || StaysMemoizable(m, g, id))
    ensures g.nodes == m.nodes
  {
    assert g.nodes[0] == m.nodes[0] && g.nodes[1] == m.nodes[1];
  }

  /** The ring is a cycle at first. Once the port is an alias, the comb reads
      itself, which is no edge of the simplified graph, so without any other
      reason it is eager the second time. */
  lemma RingReadsItself(e: Emitted)
    requires EmittedOk(Ring(), e) && e.p.g.deps[0] == [1] && e.p.facts == NoFacts
    ensures ModelOk(Ring()) && 1 in e.p.g.dynamicNodes && 1 in EagerAgain(e.p) && Mentions(e.p.r.expr[1], 1)
  {
    RingOk();
    RingGraphOf(e.p.g, e.p.front);
    RingAgain(e.p);
  }
}

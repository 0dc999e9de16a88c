/** Dynamic slices of CppGraph.h on the bits of one evaluation: barrel shifts of
    any width, range reads and writes, and indexed selections. */
module Slices {
  import opened Common

  /** Bit 0 first, as graph::Value. */
  type Bits = seq<bool>

  // ----- Graph primitives on values ------------------------------------------------------

  /** graph::slice: bits outside the value read as zero. */
  function Slice(v: Bits, offset: int, width: nat): (r: Bits)
    ensures |r| == width
  {
    seq(width, i requires 0 <= i < width => 0 <= offset + i < |v| && v[offset + i])
  }

  function Resize(v: Bits, width: nat, sign: bool): (r: Bits)
    ensures |r| == width
  {
    seq(width, i requires 0 <= i < width => if i < |v| then v[i] else sign && |v| > 0 && v[|v| - 1])
  }

  function Ones(n: nat): (r: Bits)
    ensures |r| == n
  {
    seq(n, i => true)
  }

  function Zeros(n: nat): (r: Bits)
    ensures |r| == n
  {
    seq(n, i => false)
  }

  function And(a: Bits, b: Bits): (r: Bits)
    requires |a| == |b|
    ensures |r| == |a|
  {
    seq(|a|, i requires 0 <= i < |a| => a[i] && b[i])
  }

  function Or(a: Bits, b: Bits): (r: Bits)
    requires |a| == |b|
    ensures |r| == |a|
  {
    seq(|a|, i requires 0 <= i < |a| => a[i] || b[i])
  }

  function Not(a: Bits): (r: Bits)
    ensures |r| == |a|
  {
    seq(|a|, i requires 0 <= i < |a| => !a[i])
  }

  function Mux(c: bool, yes: Bits, no: Bits): Bits { if c then yes else no }

  /** The 64-bit difference of two native words. */
  function Sub(a: nat, b: nat): nat { (a - b) % WORD }

  // ----- Mathematical shifts -----------------------------------------------------------------

  function ShiftedRight(v: Bits, amount: nat): (r: Bits)
    ensures |r| == |v|
  {
    seq(|v|, i requires 0 <= i < |v| => i + amount < |v| && v[i + amount])
  }

  function ShiftedLeft(v: Bits, amount: nat): (r: Bits)
    ensures |r| == |v|
  {
    seq(|v|, i requires 0 <= i < |v| => i >= amount && v[i - amount])
  }

  // ----- Barrel shifts ---------------------------------------------------------------------------

  /** Bit `n` of a number. */
  predicate BitOf(x: nat, n: nat) { if n == 0 then x % 2 == 1 else BitOf(x / 2, n - 1) }

  /** The low bits of an amount: what the stages so far have shifted by. */
  ghost function LowPart(x: nat, n: nat): nat { if n == 0 then 0 else x % 2 + 2 * LowPart(x / 2, n - 1) }

  lemma {:induction false} LowStep(x: nat, n: nat)
    ensures LowPart(x, n + 1) == LowPart(x, n) + if BitOf(x, n) then PowerOfTwo(n) else 0
  {
    if n > 0 { LowStep(x / 2, n - 1); } else { assert LowPart(x / 2, 0) == 0; }
  }

  lemma {:induction false} LowIsAll(x: nat, n: nat)
    requires x < PowerOfTwo(n)
    ensures LowPart(x, n) == x
  {
    if n > 0 { LowIsAll(x / 2, n - 1); }
  }

  lemma ShiftRightMore(v: Bits, a: nat, b: nat)
    ensures Slice(ShiftedRight(v, a), b, |v|) == ShiftedRight(v, a + b)
  {}

  lemma ShiftLeftMore(v: Bits, a: nat, b: nat)
    ensures Slice(ShiftedLeft(v, a), -(b as int), |v|) == ShiftedLeft(v, a + b)
  {}

  /** wideShiftRight: log-many stages and a guard against oversized amounts. */
  method WideShiftRight(value: Bits, amount: nat) returns (r: Bits)
    ensures r == ShiftedRight(value, amount)
  {
    var count := |value|;
    var bits, shift, bit := value, 1, 0;
    assert ShiftedRight(value, 0) == value;
    while shift < count
      invariant shift == PowerOfTwo(bit) && bits == ShiftedRight(value, LowPart(amount, bit))
      decreases count - shift
    {
      LowStep(amount, bit);
      ShiftRightMore(value, LowPart(amount, bit), shift);
      bits := Mux(BitOf(amount, bit), Slice(bits, shift, count), bits);
      shift, bit := shift * 2, bit + 1;
    }
    if amount < count { LowIsAll(amount, bit); }
    r := Mux(amount < count, bits, Zeros(count));
    assert amount >= count ==> ShiftedRight(value, amount) == Zeros(count);
  }

  /** wideShiftLeft. */
  method WideShiftLeft(value: Bits, amount: nat) returns (r: Bits)
    ensures r == ShiftedLeft(value, amount)
  {
    var count := |value|;
    var bits, shift, bit := value, 1, 0;
    assert ShiftedLeft(value, 0) == value;
    while shift < count
      invariant shift == PowerOfTwo(bit) && bits == ShiftedLeft(value, LowPart(amount, bit))
      decreases count - shift
    {
      LowStep(amount, bit);
      ShiftLeftMore(value, LowPart(amount, bit), shift);
      bits := Mux(BitOf(amount, bit), Slice(bits, -shift, count), bits);
      shift, bit := shift * 2, bit + 1;
    }
    if amount < count { LowIsAll(amount, bit); }
    r := Mux(amount < count, bits, Zeros(count));
    assert amount >= count ==> ShiftedLeft(value, amount) == Zeros(count);
  }

  // ----- Ranges high..low ----------------------------------------------------------------------------

  predicate RangeValid(count: nat, high: nat, low: nat) { high < count && low <= high }

  predicate InRange(count: nat, high: nat, low: nat, i: nat) { RangeValid(count, high, low) && low <= i <= high }

  /** wideSliceMask: exactly the selected positions. */
  method WideSliceMask(count: nat, high: nat, low: nat) returns (mask: Bits)
    requires 0 < count <= WORD && high < WORD && low < WORD
    ensures |mask| == count && forall i | 0 <= i < count :: mask[i] <==> InRange(count, high, low, i)
  {
    var valid := high < count && !(high < low);
    var padding := Sub(count - 1, high);
    var below := WideShiftRight(Ones(count), padding);
    var above := WideShiftLeft(Ones(count), low);
    mask := Mux(valid, And(below, above), Zeros(count));
    assert valid ==> padding == count - 1 - high;
  }

  /** What a range read means: the selected bits, the rest zero. */
  function RangeRead(source: Bits, high: nat, low: nat): (r: Bits)
    ensures |r| == |source|
  {
    seq(|source|, i requires 0 <= i < |source| => RangeValid(|source|, high, low) && i <= high - low && source[i + low])
  }

  /** wideSliceRead. */
  method WideSliceRead(source: Bits, high: nat, low: nat) returns (r: Bits)
    requires 0 < |source| <= WORD && high < WORD && low < WORD
    ensures r == RangeRead(source, high, low)
  {
    var count := |source|;
    var valid := high < count && !(high < low);
    var last := Sub(high, low);
    var padding := Sub(count - 1, last);
    var mask := WideShiftRight(Ones(count), padding);
    var selected := WideShiftRight(source, low);
    r := Mux(valid, And(selected, mask), Zeros(count));
    if valid {
      assert last == high - low && padding == count - 1 - last;
    }
    forall i | 0 <= i < count ensures r[i] == RangeRead(source, high, low)[i] {
      assert RangeRead(source, high, low)[i] == (RangeValid(count, high, low) && i <= high - low && source[i + low]);
      if valid {
        assert mask[i] <==> i <= last;
        assert r[i] == (selected[i] && mask[i]);
        if i <= last { assert selected[i] == source[i + low]; }
      }
    }
  }

  /** What a range write means: the selected bits take the incoming ones. */
  function RangeWrite(target: Bits, high: nat, low: nat, incoming: Bits): (r: Bits)
    requires |incoming| == |target|
    ensures |r| == |target|
  {
    seq(|target|, i requires 0 <= i < |target| => if InRange(|target|, high, low, i) then incoming[i - low]
                                                  else target[i])
  }

  /** The masked write of a range: kept bits or shifted incoming bits. */
  method WriteRange(target: Bits, high: nat, low: nat, source: Bits, sign: bool) returns (r: Bits)
    requires 0 < |target| <= WORD && high < WORD && low < WORD
    ensures r == RangeWrite(target, high, low, Resize(source, |target|, sign))
  {
    var mask := WideSliceMask(|target|, high, low);
    var incoming := WideShiftLeft(Resize(source, |target|, sign), low);
    var kept := And(target, Not(mask));
    r := Or(kept, And(incoming, mask));
  }

  /** Get-put, put-get and frame: writing back what was read changes nothing,
      reading what was written gives the written bits that fit the range, a
      disjoint range reads as before, and a second write hides the first. */
  lemma RangeLaws(target: Bits, high: nat, low: nat, incoming: Bits, high': nat, low': nat, incoming': Bits)
    requires |incoming| == |incoming'| == |target|
    ensures RangeWrite(target, high, low, RangeRead(target, high, low)) == target
    ensures var r := RangeRead(RangeWrite(target, high, low, incoming), high, low);
            forall i | 0 <= i < |target| :: r[i] <==> RangeValid(|target|, high, low) && i <= high - low && incoming[i]
    ensures high' < low || high < low' ==>
            RangeRead(RangeWrite(target, high, low, incoming), high', low') == RangeRead(target, high', low')
    ensures RangeWrite(RangeWrite(target, high, low, incoming), high, low, incoming')
            == RangeWrite(target, high, low, incoming')
  {
    var written := RangeWrite(target, high, low, incoming);
    if high' < low || high < low' {
      forall i | 0 <= i < |target| ensures RangeRead(written, high', low')[i] == RangeRead(target, high', low')[i] {
        if RangeValid(|target|, high', low') && i <= high' - low' { assert written[i + low'] == target[i + low']; }
      }
      assert RangeRead(written, high', low') == RangeRead(target, high', low');
    }
  }

  // ----- Offsets of nested selections ------------------------------------------------------------------

  /** The offset of a storage item: its exact sum in this evaluation, whether
      all of it is constant, and the lattice the source tracks. */
  datatype Offset = Offset(sum: nat, known: bool, stride: nat, residue: nat)

  function Gcd(a: nat, b: nat): (r: nat)
    requires a > 0 || b > 0
    ensures r > 0
    decreases b
  {
    if b == 0 then a else Gcd(b, a % b)
  }

  // Divisibility and congruence, by witness.

  ghost predicate Divides(d: nat, x: int) { exists k: int {:trigger Times(k, d)} :: x == Times(k, d) }

  ghost predicate Congruent(d: nat, x: int, y: int) { Divides(d, x - y) }

  function Times(k: int, d: int): int { k * d }

  lemma TimesLaws(j: int, k: int, d: int)
    ensures Times(j, d) + Times(k, d) == Times(j + k, d) && Times(j, d) - Times(k, d) == Times(j - k, d)
    ensures Times(j, Times(k, d)) == Times(Times(j, k), d)
    ensures j >= 1 && d >= 0 ==> Times(j, d) >= d
  {
    if j >= 1 && d >= 0 { assert (j - 1) * d >= 0; }
  }

  lemma DividesTimes(d: nat, x: int, j: int)
    requires Divides(d, x)
    ensures Divides(d, Times(j, x))
  {
    var k :| x == Times(k, d);
    TimesLaws(j, k, d);
    assert Times(j, x) == Times(Times(j, k), d);
  }

  lemma DividesSum(d: nat, x: int, y: int)
    requires Divides(d, x) && Divides(d, y)
    ensures Divides(d, x + y) && Divides(d, x - y)
  {
    var j :| x == Times(j, d);
    var k :| y == Times(k, d);
    TimesLaws(j, k, d);
    assert x + y == Times(j + k, d) && x - y == Times(j - k, d);
  }

  lemma Quotient(x: int, d: nat)
    requires d > 0
    ensures x == Times(x / d, d) + x % d
  {}

  /** A remainder is the one representative below the modulus. */
  lemma RemainderIs(x: nat, d: nat, r: nat)
    requires r < d && Congruent(d, x, r)
    ensures x % d == r
  {
    var k :| x - r == Times(k, d);
    Quotient(x, d);
    TimesLaws(k, x / d, d);
    TimesLaws(x / d - k, 0, d);
    TimesLaws(k - x / d, 0, d);
    TimesLaws(x / d, k, d);
  }

  lemma RemainderCongruent(x: nat, d: nat)
    requires d > 0
    ensures Congruent(d, x, x % d)
  {
    Quotient(x, d);
    assert x - x % d == Times(x / d, d);
  }

  /** The greatest common divisor divides both strides. */
  lemma {:induction false} GcdDivides(a: nat, b: nat)
    requires a > 0 || b > 0
    ensures Divides(Gcd(a, b), a) && Divides(Gcd(a, b), b)
    decreases b
  {
    if b == 0 {
      assert a == Times(1, a) && 0 == Times(0, a);
    } else {
      GcdDivides(b, a % b);
      Quotient(a, b);
      DividesTimes(Gcd(a, b), b, a / b);
      DividesSum(Gcd(a, b), Times(a / b, b), a % b);
    }
  }

  /** Congruence passes to divisors of the modulus and along equal differences. */
  lemma CongruentVia(g: nat, d: nat, x: int, y: int, z: int)
    requires Divides(g, d) && Congruent(d, x, y) && Congruent(g, y, z)
    ensures Congruent(g, x, z)
  {
    var k :| x - y == Times(k, d);
    DividesTimes(g, d, k);
    DividesSum(g, x - y, y - z);
  }

  lemma DividesItself(d: nat)
    ensures Divides(d, d) && Divides(d, 0)
  {
    assert d == Times(1, d) && 0 == Times(0, d);
  }

  ghost predicate OnLattice(o: Offset) {
    o.stride >= 1 && (o.known || (o.residue < o.stride && Congruent(o.stride, o.sum, o.residue)))
  }

  /** addOffset: a constant amount moves the residue, a dynamic one, which is a
      multiple of its element stride, coarsens the lattice. `sum` is the exact
      sum; the offset in the graph, and every constant, is its 64-bit word. */
  function AddOffset(o: Offset, amount: nat, fixed: bool, dynamicStride: nat): Offset
    requires o.stride >= 1 && dynamicStride >= 1
  {
    if fixed then
      o.(sum := o.sum + amount, residue := if o.known then o.residue else (o.residue + amount % WORD) % WORD % o.stride)
    else
      var stride := if o.known then dynamicStride else Gcd(o.stride, dynamicStride);
      Offset(o.sum + amount, false, stride, (if o.known then o.sum % WORD else o.residue) % stride)
  }

  /** Every reachable offset stays on the tracked lattice, however large the
      dynamic amounts are; only the constants must stay 64-bit words. */
  lemma AddOffsetOnLattice(o: Offset, amount: nat, fixed: bool, dynamicStride: nat)
    requires OnLattice(o) && dynamicStride >= 1 && (!fixed ==> Divides(dynamicStride, amount))
    requires o.known ==> o.sum < WORD
    requires fixed && !o.known ==> o.residue + amount < WORD
    ensures OnLattice(AddOffset(o, amount, fixed, dynamicStride))
  {
    if fixed {
      if !o.known {
        var residue := o.residue + amount;
        assert residue % WORD == residue && amount % WORD == amount;
        MovedResidue(o.stride, o.sum, o.residue, amount);
      }
    } else if o.known {
      assert o.sum % WORD == o.sum;
      DividesItself(dynamicStride);
      CoarserResidue(dynamicStride, dynamicStride, o.sum, o.sum, amount);
    } else {
      GcdDivides(o.stride, dynamicStride);
      DividesItself(Gcd(o.stride, dynamicStride));
      CongruentVia(Gcd(o.stride, dynamicStride), o.stride, o.sum, o.residue, o.residue);
      CoarserResidue(Gcd(o.stride, dynamicStride), dynamicStride, o.sum, o.residue, amount);
    }
  }

  lemma MovedResidue(stride: nat, sum: nat, residue: nat, amount: nat)
    requires stride >= 1 && Congruent(stride, sum, residue)
    ensures Congruent(stride, sum + amount, (residue + amount) % stride)
  {
    DividesItself(stride);
    RemainderCongruent(residue + amount, stride);
    assert (sum + amount) - (residue + amount) == sum - residue;
    CongruentVia(stride, stride, sum + amount, residue + amount, (residue + amount) % stride);
  }

  /** A multiple of a coarser stride is added to something of this residue. */
  lemma CoarserResidue(stride: nat, step: nat, sum: nat, from: nat, amount: nat)
    requires stride >= 1 && Divides(stride, step) && Divides(step, amount) && Congruent(stride, sum, from)
    ensures Congruent(stride, sum + amount, from % stride)
  {
    DividesItself(stride);
    RemainderCongruent(from, stride);
    CongruentVia(stride, stride, sum, from, from % stride);
    assert (sum + amount) - sum == amount;
    CongruentVia(stride, step, sum + amount, sum, from % stride);
  }

  // ----- A path of selections -------------------------------------------------------------------------------

  /** One addition: a constant amount, or an index times the stride of its elements. */
  datatype Step = Fixed(amount: nat) | Dynamic(stride: pos)

  function Added(step: Step, k: nat): nat { if step.Fixed? then step.amount else k * step.stride }

  /** The offset of a path that starts at a constant, for one choice of the indices. */
  function Walk(base: nat, steps: seq<Step>, ks: seq<nat>): (o: Offset)
    requires |ks| == |steps|
    ensures o.stride >= 1
  {
    if steps == [] then Offset(base, true, 1, 0)
    else
      var last := |steps| - 1;
      var step := steps[last];
      AddOffset(Walk(base, steps[..last], ks[..last]), Added(step, ks[last]), step.Fixed?,
                if step.Dynamic? then step.stride else 1)
  }

  function SumOf(steps: seq<Step>, ks: seq<nat>): nat
    requires |ks| == |steps|
  {
    if steps == [] then 0
    else SumOf(steps[..|steps| - 1], ks[..|steps| - 1]) + Added(steps[|steps| - 1], ks[|steps| - 1])
  }

  predicate AllFixed(steps: seq<Step>) { forall i | 0 <= i < |steps| :: steps[i].Fixed? }

  /** The offset is the exact sum, and constant exactly if all steps are. */
  lemma {:induction false} WalkSums(base: nat, steps: seq<Step>, ks: seq<nat>)
    requires |ks| == |steps|
    ensures Walk(base, steps, ks).sum == base + SumOf(steps, ks)
    ensures Walk(base, steps, ks).known <==> AllFixed(steps)
  {
    if steps != [] {
      var last := |steps| - 1;
      WalkSums(base, steps[..last], ks[..last]);
      assert AllFixed(steps) <==> AllFixed(steps[..last]) && steps[last].Fixed?;
    }
  }

  /** `d` divides the stride of every index. */
  ghost predicate DividesSteps(d: nat, steps: seq<Step>) {
    forall i | 0 <= i < |steps| && steps[i].Dynamic? :: Divides(d, steps[i].stride)
  }

  lemma {:induction false} GcdGreatest(d: nat, a: nat, b: nat)
    requires (a > 0 || b > 0) && Divides(d, a) && Divides(d, b)
    ensures Divides(d, Gcd(a, b))
    decreases b
  {
    if b > 0 {
      Quotient(a, b);
      DividesTimes(d, b, a / b);
      DividesSum(d, a, Times(a / b, b));
      GcdGreatest(d, b, a % b);
    }
  }

  lemma DividesGcd(d: nat, a: nat, b: nat)
    requires a > 0 || b > 0
    ensures Divides(d, Gcd(a, b)) <==> Divides(d, a) && Divides(d, b)
  {
    GcdDivides(a, b);
    if Divides(d, a) && Divides(d, b) { GcdGreatest(d, a, b); }
    if Divides(d, Gcd(a, b)) {
      DividesTrans(d, Gcd(a, b), a);
      DividesTrans(d, Gcd(a, b), b);
    }
  }

  lemma DividesTrans(d: nat, e: nat, x: nat)
    requires Divides(d, e) && Divides(e, x)
    ensures Divides(d, x)
  {
    var k :| x == Times(k, e);
    DividesTimes(d, e, k);
  }

  /** The tracked stride has exactly the divisors that the strides of all indices share. */
  lemma {:induction false} WalkDivisors(base: nat, steps: seq<Step>, ks: seq<nat>, d: nat)
    requires |ks| == |steps| && !AllFixed(steps)
    ensures Divides(d, Walk(base, steps, ks).stride) <==> DividesSteps(d, steps)
  {
    var last := |steps| - 1;
    var rest, step, o := steps[..last], steps[last], Walk(base, steps[..last], ks[..last]);
    WalkSums(base, rest, ks[..last]);
    assert DividesSteps(d, steps) <==> DividesSteps(d, rest) && (step.Dynamic? ==> Divides(d, step.stride));
    if AllFixed(rest) {
      assert DividesSteps(d, rest);
    } else {
      WalkDivisors(base, rest, ks[..last], d);
      if step.Dynamic? { DividesGcd(d, o.stride, step.stride); }
    }
  }

  /** All choices of the indices give the same offset modulo `d`. */
  ghost predicate AllCongruent(d: nat, base: nat, steps: seq<Step>) {
    forall ks: seq<nat>, js: seq<nat> | |ks| == |js| == |steps| ::
      Congruent(d, Walk(base, steps, ks).sum, Walk(base, steps, js).sum)
  }

  lemma {:induction false} SumsCongruent(d: nat, steps: seq<Step>, ks: seq<nat>, js: seq<nat>)
    requires |ks| == |js| == |steps| && DividesSteps(d, steps)
    ensures Congruent(d, SumOf(steps, ks), SumOf(steps, js))
  {
    DividesItself(d);
    if steps != [] {
      var last := |steps| - 1;
      SumsCongruent(d, steps[..last], ks[..last], js[..last]);
      var x: int, y: int := SumOf(steps[..last], ks[..last]), SumOf(steps[..last], js[..last]);
      var a: int, b: int := Added(steps[last], ks[last]), Added(steps[last], js[last]);
      AddedCongruent(d, steps[last], ks[last], js[last]);
      DividesSum(d, x - y, a - b);
      assert (x + a) - (y + b) == (x - y) + (a - b);
    }
  }

  lemma AddedCongruent(d: nat, step: Step, k: nat, j: nat)
    requires step.Dynamic? ==> Divides(d, step.stride)
    ensures Congruent(d, Added(step, k), Added(step, j))
  {
    DividesItself(d);
    if step.Dynamic? {
      TimesLaws(k, j, step.stride);
      DividesTimes(d, step.stride, k - j);
      assert Added(step, k) - Added(step, j) == Times(k - j, step.stride);
    }
  }

  /** All indices zero but one. */
  function OneAt(n: nat, i: nat, k: nat): (r: seq<nat>)
    ensures |r| == n
  {
    seq(n, j => if j == i then k else 0)
  }

  lemma {:induction false} SumAt(steps: seq<Step>, i: nat)
    requires i < |steps| && steps[i].Dynamic?
    ensures SumOf(steps, OneAt(|steps|, i, 1)) == SumOf(steps, OneAt(|steps|, i, 0)) + steps[i].stride
  {
    var n := |steps|;
    assert OneAt(n, i, 1)[..n - 1] == OneAt(n - 1, i, 1) && OneAt(n, i, 0)[..n - 1] == OneAt(n - 1, i, 0);
    if i == n - 1 {
      assert OneAt(n - 1, i, 1) == OneAt(n - 1, i, 0);
    } else {
      SumAt(steps[..n - 1], i);
    }
  }

  /** The tracked stride is the greatest modulus, by divisibility, on which the
      offsets of all choices of the indices agree. */
  lemma StrideGreatest(base: nat, steps: seq<Step>, ks: seq<nat>, d: nat)
    requires |ks| == |steps| && !AllFixed(steps)
    ensures Divides(d, Walk(base, steps, ks).stride) <==> AllCongruent(d, base, steps)
  {
    WalkDivisors(base, steps, ks, d);
    if DividesSteps(d, steps) {
      forall a: seq<nat>, b: seq<nat> | |a| == |b| == |steps|
        ensures Congruent(d, Walk(base, steps, a).sum, Walk(base, steps, b).sum)
      {
        WalkSums(base, steps, a);
        WalkSums(base, steps, b);
        SumsCongruent(d, steps, a, b);
        assert (base + SumOf(steps, a)) - (base + SumOf(steps, b)) == SumOf(steps, a) - SumOf(steps, b);
      }
    }
    if AllCongruent(d, base, steps) {
      forall i | 0 <= i < |steps| && steps[i].Dynamic? ensures Divides(d, steps[i].stride) {
        StepShows(d, base, steps, i);
      }
    }
  }

  lemma StepShows(d: nat, base: nat, steps: seq<Step>, i: nat)
    requires AllCongruent(d, base, steps) && i < |steps| && steps[i].Dynamic?
    ensures Divides(d, steps[i].stride)
  {
    var a, b := OneAt(|steps|, i, 1), OneAt(|steps|, i, 0);
    WalkSums(base, steps, a);
    WalkSums(base, steps, b);
    SumAt(steps, i);
    assert Congruent(d, Walk(base, steps, a).sum, Walk(base, steps, b).sum);
  }

  // ----- Indexed reads and writes --------------------------------------------------------------------------

  /** selectionValid, on the 64-bit offset. */
  predicate SelectionValid(offset: nat, stride: nat, residue: nat, extent: nat, count: nat) {
    count <= extent && offset < extent - count + 1 && (stride > 1 ==> offset % stride == residue)
  }

  /** Exactly which offsets are accepted: the 64-bit word fits, and what was
      wrapped away is a multiple of the stride. */
  lemma ValidExactly(o: Offset, extent: nat, count: nat)
    requires OnLattice(o) && !o.known
    ensures SelectionValid(o.sum % WORD, o.stride, o.residue, extent, count)
       <==> o.sum % WORD + count <= extent && Divides(o.stride, o.sum - o.sum % WORD)
  {
    var word := o.sum % WORD;
    if word % o.stride == o.residue {
      RemainderCongruent(word, o.stride);
      DividesSum(o.stride, o.sum - o.residue, word - o.residue);
      assert (o.sum - o.residue) - (word - o.residue) == o.sum - word;
    }
    if Divides(o.stride, o.sum - word) {
      DividesSum(o.stride, o.sum - o.residue, o.sum - word);
      assert (o.sum - o.residue) - (o.sum - word) == word - o.residue;
      RemainderIs(word, o.stride, o.residue);
    }
  }

  /** So the guard means that the slice fits, except for exactly those sums
      beyond 2^64 whose word is accepted: the wrapped part must not be a
      multiple of the stride. */
  lemma ValidIsInside(o: Offset, extent: nat, count: nat)
    requires OnLattice(o) && !o.known && extent <= WORD && count >= 1
    ensures (SelectionValid(o.sum % WORD, o.stride, o.residue, extent, count) <==> o.sum + count <= extent)
       <==> o.sum < WORD || o.sum % WORD + count > extent || !Divides(o.stride, o.sum - o.sum % WORD)
  {
    ValidExactly(o, extent, count);
    if o.sum < WORD {
      assert o.sum % WORD == o.sum;
      DividesItself(o.stride);
    }
  }

  /** Index 2^61 of an array of 8-bit elements reads element 0. */
  lemma WrappedIndexAccepted()
    ensures var o := AddOffset(Offset(0, true, 1, 0), 0x2000_0000_0000_0000 * 8, false, 8);
            OnLattice(o) && o.sum == WORD && SelectionValid(o.sum % WORD, o.stride, o.residue, 64, 8)
  {
    assert 0x2000_0000_0000_0000 * 8 == Times(0x2000_0000_0000_0000, 8);
    AddOffsetOnLattice(Offset(0, true, 1, 0), 0x2000_0000_0000_0000 * 8, false, 8);
  }

  /** An indexed read: the selected bits, or zero for an invalid selection. */
  method IndexedRead(source: Bits, offset: nat, stride: nat, residue: nat, count: nat) returns (r: Bits)
    ensures |r| == count
    ensures forall i | 0 <= i < count ::
              r[i] <==> SelectionValid(offset, stride, residue, |source|, count) && source[offset + i]
  {
    var shifted := WideShiftRight(source, offset);
    r := Mux(SelectionValid(offset, stride, residue, |source|, count), Resize(shifted, count, false), Zeros(count));
  }

  /** What an indexed write means: the selected bits, or nothing. */
  function IndexedWrite(previous: Bits, offset: nat, valid: bool, incoming: Bits): (r: Bits)
    ensures |r| == |previous|
  {
    seq(|previous|, i requires 0 <= i < |previous| => if valid
        && offset <= i < offset + |incoming| then incoming[i - offset] else previous[i])
  }

  /** One masked insertion of the shifted bits. */
  method MaskedWrite(previous: Bits, offset: nat, stride: nat, residue: nat, incoming: Bits) returns (r: Bits)
    ensures r == IndexedWrite(previous, offset, SelectionValid(offset, stride, residue, |previous|, |incoming|),
                              incoming)
  {
    var extent := |previous|;
    var valid := SelectionValid(offset, stride, residue, extent, |incoming|);
    var mask := WideShiftLeft(Resize(Ones(|incoming|), extent, false), offset);
    var shifted := WideShiftLeft(Resize(incoming, extent, false), offset);
    var replacement := Or(And(previous, Not(mask)), shifted);
    r := Mux(valid, replacement, previous);
  }

  /** One comparison and multiplexer per reachable lane. It writes exactly what
      the masked insertion writes, overlapping lanes included. */
  method SparseWrite(previous: Bits, offset: nat, stride: nat, residue: nat, incoming: Bits) returns (r: Bits)
    requires stride > 1 && residue < stride
    ensures r == IndexedWrite(previous, offset, SelectionValid(offset, stride, residue, |previous|, |incoming|),
                              incoming)
  {
    r := previous;
    var start, n := residue, 0;
    while start + |incoming| <= |previous|
      invariant start == residue + Times(n, stride) && |r| == |previous|
      invariant r == IndexedWrite(previous, offset, offset < start
                                  && SelectionValid(offset, stride, residue, |previous|, |incoming|), incoming)
      decreases |previous| - start
    {
      LaneResidue(offset, stride, residue, start, n);
      var lane := Mux(offset == start, incoming, Slice(r, start, |incoming|));
      r := r[..start] + lane + r[start + |incoming|..];
      TimesLaws(n, 1, stride);
      assert Times(1, stride) == stride;
      start, n := start + stride, n + 1;
    }
  }

  /** Lanes are the offsets of one residue, in steps of the stride. */
  lemma LaneResidue(offset: nat, stride: nat, residue: nat, start: nat, n: nat)
    requires stride > 1 && residue < stride && start == residue + Times(n, stride)
    ensures start % stride == residue
    ensures offset % stride == residue && start < offset ==> offset >= start + stride
  {
    assert start - residue == Times(n, stride);
    RemainderIs(start, stride, residue);
    if offset % stride == residue && start < offset {
      Quotient(offset, stride);
      TimesLaws(offset / stride, n, stride);
      TimesLaws(offset / stride - n, n, stride);
      TimesLaws(n - offset / stride, n, stride);
      TimesLaws(n, offset / stride, stride);
    }
  }
}

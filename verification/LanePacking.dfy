/** Longest-first packing of weighted components onto lanes, and Graham's bound
    on how far the heaviest lane can be from the best packing. */
module LanePacking {

  /** The weight that the first `|weights|` items put on a lane. */
  function Load(weights: seq<nat>, assignment: seq<nat>, lane: nat): nat
    requires |weights| == |assignment|
  {
    if weights == [] then 0
    else
      var last := |weights| - 1;
      Load(weights[..last], assignment[..last], lane) + if assignment[last] == lane then weights[last] else 0
  }

  function Total(weights: seq<nat>): nat {
    if weights == [] then 0 else Total(weights[..|weights| - 1]) + weights[|weights| - 1]
  }

  /** The weight of the lanes below `m` together. */
  function LoadSum(weights: seq<nat>, assignment: seq<nat>, m: nat): nat
    requires |weights| == |assignment|
  {
    if m == 0 then 0 else LoadSum(weights, assignment, m - 1) + Load(weights, assignment, m - 1)
  }

  ghost predicate Assigns(weights: seq<nat>, assignment: seq<nat>, m: nat) {
    |weights| == |assignment| && forall i | 0 <= i < |assignment| :: assignment[i] < m
  }

  /** No lane carries more than `bound`. */
  ghost predicate Within(weights: seq<nat>, assignment: seq<nat>, m: nat, bound: nat)
    requires |weights| == |assignment|
  {
    forall lane | 0 <= lane < m :: Load(weights, assignment, lane) <= bound
  }

  ghost predicate Decreasing(weights: seq<nat>) {
    forall i, j | 0 <= i <= j < |weights| :: weights[i] >= weights[j]
  }

  /** Each item goes to a lane that is lightest at that moment. */
  ghost predicate Greedy(weights: seq<nat>, assignment: seq<nat>, m: nat) {
    && Assigns(weights, assignment, m)
    && forall i | 0 <= i < |weights| :: LightestAt(weights, assignment, m, i)
  }

  ghost predicate LightestAt(weights: seq<nat>, assignment: seq<nat>, m: nat, i: nat)
    requires |weights| == |assignment| && i < |weights|
  {
    forall lane | 0 <= lane < m ::
      Load(weights[..i], assignment[..i], assignment[i]) <= Load(weights[..i], assignment[..i], lane)
  }

  // ----- Conservation ----------------------------------------------------------

  lemma {:induction false} LoadSumStep(weights: seq<nat>, assignment: seq<nat>, m: nat)
    requires |weights| == |assignment| > 0
    ensures var last := |weights| - 1;
            LoadSum(weights, assignment, m) ==
            LoadSum(weights[..last], assignment[..last], m) + if assignment[last] < m then weights[last] else 0
    decreases m
  {
    if m > 0 { LoadSumStep(weights, assignment, m - 1); }
  }

  /** The lanes together carry exactly the whole weight. */
  lemma {:induction false} LoadsConserveTotal(weights: seq<nat>, assignment: seq<nat>, m: nat)
    requires Assigns(weights, assignment, m)
    ensures LoadSum(weights, assignment, m) == Total(weights)
    decreases |weights|
  {
    if weights == [] {
      EmptyLoads(m);
    } else {
      var last := |weights| - 1;
      LoadSumStep(weights, assignment, m);
      LoadsConserveTotal(weights[..last], assignment[..last], m);
    }
  }

  lemma {:induction false} EmptyLoads(m: nat)
    ensures LoadSum([], [], m) == 0
  {
    if m > 0 { EmptyLoads(m - 1); }
  }

  lemma {:induction false} LoadSumAtMost(weights: seq<nat>, assignment: seq<nat>, m: nat, n: nat, bound: nat)
    requires |weights| == |assignment| && n <= m && Within(weights, assignment, m, bound)
    ensures LoadSum(weights, assignment, n) <= n * bound
    decreases n
  {
    if n > 0 {
      LoadSumAtMost(weights, assignment, m, n - 1, bound);
      assert n * bound == (n - 1) * bound + bound;
    }
  }

  lemma {:induction false} LoadSumAtLeast(weights: seq<nat>, assignment: seq<nat>, n: nat, bound: nat)
    requires |weights| == |assignment|
    requires forall lane | 0 <= lane < n :: Load(weights, assignment, lane) >= bound
    ensures LoadSum(weights, assignment, n) >= n * bound
    decreases n
  {
    if n > 0 {
      LoadSumAtLeast(weights, assignment, n - 1, bound);
      assert n * bound == (n - 1) * bound + bound;
    }
  }

  // ----- Counting items on lanes ----------------------------------------------------

  /** Items on a lane. */
  function Count(assignment: seq<nat>, lane: nat): nat {
    if assignment == [] then 0
    else Count(assignment[..|assignment| - 1], lane) + if assignment[|assignment| - 1] == lane then 1 else 0
  }

  function CountSum(assignment: seq<nat>, m: nat): nat {
    if m == 0 then 0 else CountSum(assignment, m - 1) + Count(assignment, m - 1)
  }

  lemma {:induction false} CountSumStep(assignment: seq<nat>, m: nat)
    requires |assignment| > 0
    ensures var last := |assignment| - 1;
            CountSum(assignment, m) == CountSum(assignment[..last], m) + if assignment[last] < m then 1 else 0
    decreases m
  {
    if m > 0 { CountSumStep(assignment, m - 1); }
  }

  lemma {:induction false} CountsConserve(assignment: seq<nat>, m: nat)
    requires forall i | 0 <= i < |assignment| :: assignment[i] < m
    ensures CountSum(assignment, m) == |assignment|
    decreases |assignment|
  {
    if assignment == [] {
      EmptyCounts(m);
    } else {
      CountSumStep(assignment, m);
      CountsConserve(assignment[..|assignment| - 1], m);
    }
  }

  lemma {:induction false} EmptyCounts(m: nat)
    ensures CountSum([], m) == 0
  {
    if m > 0 { EmptyCounts(m - 1); }
  }

  /** A lane with `count` items of at least `least` each. */
  lemma {:induction false} LoadOfMany(weights: seq<nat>, assignment: seq<nat>, lane: nat, least: nat)
    requires |weights| == |assignment| && forall i | 0 <= i < |weights| :: weights[i] >= least
    ensures Load(weights, assignment, lane) >= Count(assignment, lane) * least
    decreases |weights|
  {
    if weights != [] {
      var last := |weights| - 1;
      LoadOfMany(weights[..last], assignment[..last], lane, least);
      assert (Count(assignment[..last], lane) + 1) * least == Count(assignment[..last], lane) * least + least;
    }
  }

  /** A lane holding item `i` carries at least its weight, and with a second
      item at least `least` more. */
  lemma {:induction false} LoadWithItem(weights: seq<nat>, assignment: seq<nat>, lane: nat, i: nat, least: nat)
    requires |weights| == |assignment| && i < |weights| && assignment[i] == lane
    requires forall k | 0 <= k < |weights| :: weights[k] >= least
    ensures Count(assignment, lane) >= 1
    ensures Load(weights, assignment, lane) >= weights[i] + (Count(assignment, lane) - 1) * least
    decreases |weights|
  {
    var last := |weights| - 1;
    if i == last {
      LoadOfMany(weights[..last], assignment[..last], lane, least);
    } else {
      LoadWithItem(weights[..last], assignment[..last], lane, i, least);
      assert Count(assignment[..last], lane) * least == (Count(assignment[..last], lane) - 1) * least + least;
    }
  }

  /** A lane without items is empty; a lane with one item carries just it. */
  lemma {:induction false} LoadOfFew(weights: seq<nat>, assignment: seq<nat>, lane: nat, bound: nat)
    requires |weights| == |assignment| && Count(assignment, lane) <= 1
    requires forall i | 0 <= i < |weights| && assignment[i] == lane :: weights[i] <= bound
    ensures Load(weights, assignment, lane) <= bound
    ensures Count(assignment, lane) == 0 ==> Load(weights, assignment, lane) == 0
    decreases |weights|
  {
    if weights != [] {
      var last := |weights| - 1;
      LoadOfFew(weights[..last], assignment[..last], lane, bound);
    }
  }

  // ----- First milestone: average plus one item ------------------------------------------

  /** When the last item is placed greedily, its lane carries at most the
      average of the others plus the item. */
  lemma GreedyLastLane(weights: seq<nat>, assignment: seq<nat>, m: nat)
    requires Greedy(weights, assignment, m) && weights != []
    ensures var last := |weights| - 1;
            m * Load(weights, assignment, assignment[last]) <= Total(weights) + (m - 1) * weights[last]
  {
    var last := |weights| - 1;
    var w, a := weights[..last], assignment[..last];
    var least := Load(w, a, assignment[last]);
    assert LightestAt(weights, assignment, m, last);
    LoadsConserveTotal(w, a, m);
    LoadSumAtLeast(w, a, m, least);
    assert m * (least + weights[last]) == m * least + m * weights[last];
    assert m * weights[last] == (m - 1) * weights[last] + weights[last];
  }

  lemma {:induction false} LoadMonotone(weights: seq<nat>, assignment: seq<nat>, n: nat, lane: nat)
    requires |weights| == |assignment| && n <= |weights|
    ensures Load(weights[..n], assignment[..n], lane) <= Load(weights, assignment, lane)
    decreases |weights|
  {
    if n < |weights| {
      var last := |weights| - 1;
      LoadMonotone(weights[..last], assignment[..last], n, lane);
      assert weights[..last][..n] == weights[..n] && assignment[..last][..n] == assignment[..n];
    } else {
      assert weights[..n] == weights && assignment[..n] == assignment;
    }
  }

  // ----- Graham's bound ----------------------------------------------------------------------

  /** An item is big when no second item fits beside it. */
  ghost predicate Big(weights: seq<nat>, i: nat, small: nat, best: nat)
    requires i < |weights|
  {
    weights[i] + small > best
  }

  ghost predicate HasBig(weights: seq<nat>, assignment: seq<nat>, lane: nat, small: nat, best: nat)
    requires |weights| == |assignment|
  {
    exists i | 0 <= i < |weights| :: assignment[i] == lane && Big(weights, i, small, best)
  }

  function BigCount(weights: seq<nat>, small: nat, best: nat): nat {
    if weights == [] then 0
    else BigCount(weights[..|weights| - 1], small, best) + if weights[|weights| - 1] + small > best then 1 else 0
  }

  /** Lanes below `n` that hold a big item. */
  ghost function BigLanes(weights: seq<nat>, assignment: seq<nat>, n: nat, small: nat, best: nat): nat
    requires |weights| == |assignment|
  {
    if n == 0 then 0
    else
      BigLanes(weights, assignment, n - 1, small, best)
      + if HasBig(weights, assignment, n - 1, small, best) then 1 else 0
  }

  lemma {:induction false} BigLanesStep(weights: seq<nat>, assignment: seq<nat>, n: nat, small: nat, best: nat)
    requires |weights| == |assignment| > 0
    ensures var last := |weights| - 1;
            var before := BigLanes(weights[..last], assignment[..last], n, small, best);
            var big := Big(weights, last, small, best);
            && before <= BigLanes(weights, assignment, n, small, best) <= before + (if big then 1 else 0)
            && (big && assignment[last] < n
                && !HasBig(weights[..last], assignment[..last], assignment[last], small, best) ==>
                  BigLanes(weights, assignment, n, small, best) == before + 1)
    decreases n
  {
    if n > 0 {
      var last := |weights| - 1;
      BigLanesStep(weights, assignment, n - 1, small, best);
      var lane := n - 1;
      HasBigStep(weights, assignment, lane, small, best);
      if Big(weights, last, small, best) && assignment[last] == lane {
        BigLanesElsewhere(weights, assignment, n - 1, small, best);
      }
    }
  }

  lemma HasBigStep(weights: seq<nat>, assignment: seq<nat>, lane: nat, small: nat, best: nat)
    requires |weights| == |assignment| > 0
    ensures var last := |weights| - 1;
            HasBig(weights, assignment, lane, small, best) <==>
            HasBig(weights[..last], assignment[..last], lane, small, best)
              || (assignment[last] == lane && Big(weights, last, small, best))
  {
    var last := |weights| - 1;
    if HasBig(weights[..last], assignment[..last], lane, small, best) {
      var i :| 0 <= i < last && assignment[..last][i] == lane && Big(weights[..last], i, small, best);
      assert assignment[i] == lane && Big(weights, i, small, best);
    }
    if HasBig(weights, assignment, lane, small, best) {
      var i :| 0 <= i < |weights| && assignment[i] == lane && Big(weights, i, small, best);
      if i < last { assert assignment[..last][i] == lane && Big(weights[..last], i, small, best); }
    }
  }

  lemma {:induction false} BigLanesElsewhere(weights: seq<nat>, assignment: seq<nat>, n: nat, small: nat, best: nat)
    requires |weights| == |assignment| > 0 && assignment[|weights| - 1] >= n
    ensures BigLanes(weights, assignment, n, small, best)
            == BigLanes(weights[..|weights| - 1], assignment[..|weights| - 1], n, small, best)
    decreases n
  {
    if n > 0 {
      BigLanesElsewhere(weights, assignment, n - 1, small, best);
      HasBigStep(weights, assignment, n - 1, small, best);
    }
  }

  /** Any assignment has at most as many big lanes as big items; one that keeps
      every lane within `best` has exactly as many. */
  lemma {:induction false} BigLanesVersusItems(weights: seq<nat>, assignment: seq<nat>, m: nat, small: nat, best: nat)
    requires Assigns(weights, assignment, m) && forall i | 0 <= i < |weights| :: weights[i] >= small
    ensures BigLanes(weights, assignment, m, small, best) <= BigCount(weights, small, best)
    ensures Within(weights, assignment, m, best) ==>
            BigLanes(weights, assignment, m, small, best) == BigCount(weights, small, best)
    decreases |weights|
  {
    if weights != [] {
      var last := |weights| - 1;
      var w, a := weights[..last], assignment[..last];
      BigLanesVersusItems(w, a, m, small, best);
      BigLanesStep(weights, assignment, m, small, best);
      if Within(weights, assignment, m, best) {
        forall lane | 0 <= lane < m ensures Load(w, a, lane) <= best {
          LoadMonotone(weights, assignment, last, lane);
        }
        assert Load(weights, assignment, assignment[last]) <= best;
        if Big(weights, last, small, best) && HasBig(w, a, assignment[last], small, best) {
          var i :| 0 <= i < last && a[i] == assignment[last] && Big(w, i, small, best);
          LoadWithItem(w, a, assignment[last], i, 0);
        }
      }
    } else {
      NoBigLanes(m, small, best);
    }
  }

  lemma {:induction false} NoBigLanes(m: nat, small: nat, best: nat)
    ensures BigLanes([], [], m, small, best) == 0
  {
    if m > 0 { NoBigLanes(m - 1, small, best); }
  }

  lemma ThreeOrMore(count: nat, small: nat)
    ensures count >= 3 ==> count * small >= 3 * small
  {}

  /** With items above a third of `best`, a packing within `best` has at most
      two items a lane and one beside a big item. */
  lemma {:induction false} FewItemsFit(weights: seq<nat>, assignment: seq<nat>, m: nat, n: nat, small: nat, best: nat)
    requires |weights| == |assignment| && n <= m && Within(weights, assignment, m, best)
    requires 3 * small > best && forall i | 0 <= i < |weights| :: weights[i] >= small
    ensures CountSum(assignment, n) + BigLanes(weights, assignment, n, small, best) <= 2 * n
    decreases n
  {
    if n > 0 {
      var lane := n - 1;
      FewItemsFit(weights, assignment, m, n - 1, small, best);
      LoadOfMany(weights, assignment, lane, small);
      var count := Count(assignment, lane);
      ThreeOrMore(count, small);
      if HasBig(weights, assignment, lane, small, best) {
        var i :| 0 <= i < |weights| && assignment[i] == lane && Big(weights, i, small, best);
        LoadWithItem(weights, assignment, lane, i, small);
      }
    }
  }

  /** If even the lightest lane has no room for one more small item, every lane
      holds a big item or at least two items. */
  lemma {:induction false} CrowdedLanes(weights: seq<nat>, assignment: seq<nat>, n: nat, small: nat, best: nat)
    requires |weights| == |assignment| && best >= small
    requires forall lane | 0 <= lane < n :: Load(weights, assignment, lane) + small > best
    ensures CountSum(assignment, n) + BigLanes(weights, assignment, n, small, best) >= 2 * n
    decreases n
  {
    if n > 0 {
      var lane := n - 1;
      CrowdedLanes(weights, assignment, n - 1, small, best);
      if !HasBig(weights, assignment, lane, small, best) {
        forall i | 0 <= i < |weights| && assignment[i] == lane ensures weights[i] <= best - small {
          assert !Big(weights, i, small, best);
        }
        if Count(assignment, lane) <= 1 { LoadOfFew(weights, assignment, lane, best - small); }
      } else {
        var i :| 0 <= i < |weights| && assignment[i] == lane && Big(weights, i, small, best);
        LoadWithItem(weights, assignment, lane, i, 0);
      }
    }
  }

  /** If the last item is more than a third of what some packing achieves, the
      greedy placement of it stays within that packing. */
  lemma LargeLastItem(weights: seq<nat>, greedy: seq<nat>, other: seq<nat>, m: nat, best: nat)
    requires Greedy(weights, greedy, m) && Decreasing(weights) && weights != []
    requires Assigns(weights, other, m) && Within(weights, other, m, best)
    requires 3 * weights[|weights| - 1] > best
    ensures Load(weights, greedy, greedy[|weights| - 1]) <= best
  {
    var last := |weights| - 1;
    var small := weights[last];
    var w, g := weights[..last], greedy[..last];
    assert LightestAt(weights, greedy, m, last);
    LoadWithItem(weights, other, other[last], last, 0);
    if Load(w, g, greedy[last]) + small > best {
      CrowdedLanes(w, g, m, small, best);
      CountsConserve(g, m);
      BigLanesVersusItems(w, g, m, small, best);
      FewItemsFit(weights, other, m, m, small, best);
      CountsConserve(other, m);
      BigLanesVersusItems(weights, other, m, small, best);
    }
  }

  /** One lane against any other packing of the same items, counting only the
      items up to the last one the lane received. */
  lemma {:induction false} LaneBound(weights: seq<nat>, greedy: seq<nat>, other: seq<nat>, m: nat, best: nat, lane: nat)
    requires m >= 1 && lane < m && Greedy(weights, greedy, m) && Decreasing(weights)
    requires Assigns(weights, other, m) && Within(weights, other, m, best)
    ensures 3 * m * Load(weights, greedy, lane) <= (4 * m - 1) * best
    decreases |weights|
  {
    if weights != [] {
      var last := |weights| - 1;
      if greedy[last] == lane {
        LastLaneBound(weights, greedy, other, m, best);
      } else {
        ShorterGreedy(weights, greedy, m, last);
        forall l | 0 <= l < m ensures Load(weights[..last], other[..last], l) <= best {
          LoadMonotone(weights, other, last, l);
        }
        LaneBound(weights[..last], greedy[..last], other[..last], m, best, lane);
      }
    } else {
      assert (4 * m - 1) * best >= 0;
    }
  }

  lemma ShorterGreedy(weights: seq<nat>, greedy: seq<nat>, m: nat, n: nat)
    requires Greedy(weights, greedy, m) && n <= |weights|
    ensures Greedy(weights[..n], greedy[..n], m)
  {
    forall i | 0 <= i < n ensures LightestAt(weights[..n], greedy[..n], m, i) {
      assert LightestAt(weights, greedy, m, i);
      assert weights[..n][..i] == weights[..i] && greedy[..n][..i] == greedy[..i];
    }
  }

  lemma LastLaneBound(weights: seq<nat>, greedy: seq<nat>, other: seq<nat>, m: nat, best: nat)
    requires m >= 1 && Greedy(weights, greedy, m) && Decreasing(weights) && weights != []
    requires Assigns(weights, other, m) && Within(weights, other, m, best)
    ensures 3 * m * Load(weights, greedy, greedy[|weights| - 1]) <= (4 * m - 1) * best
  {
    var last := |weights| - 1;
    var load := Load(weights, greedy, greedy[last]);
    var small := weights[last];
    if 3 * small > best {
      LargeLastItem(weights, greedy, other, m, best);
      ScaleUp(m, load, best);
    } else {
      GreedyLastLane(weights, greedy, m);
      LoadsConserveTotal(weights, other, m);
      LoadSumAtMost(weights, other, m, m, best);
      Combine(m, load, small, best, Total(weights));
    }
  }

  lemma ScaleUp(m: nat, load: nat, best: nat)
    requires m >= 1 && load <= best
    ensures 3 * m * load <= (4 * m - 1) * best
  {
    assert (3 * m) * load <= (3 * m) * best by { Times(3 * m, load, best); }
    assert (4 * m - 1) * best == (3 * m) * best + (m - 1) * best;
    assert (m - 1) * best >= 0;
  }

  lemma Times(k: nat, a: nat, b: nat)
    requires a <= b
    ensures k * a <= k * b
  {}

  lemma Combine(m: nat, load: nat, small: nat, best: nat, total: nat)
    requires m >= 1 && 3 * small <= best && total <= m * best && m * load <= total + (m - 1) * small
    ensures 3 * m * load <= (4 * m - 1) * best
  {
    Times(m - 1, 3 * small, best);
    assert 3 * (m * load) <= 3 * (m * best) + (m - 1) * (3 * small);
    assert (4 * m - 1) * best == 3 * (m * best) + (m - 1) * best;
    assert 3 * m * load == 3 * (m * load);
  }

  /** Graham: greedy packing in decreasing order stays within 4/3 - 1/(3m) of
      every packing of the same items onto the same number of lanes. */
  lemma GrahamBound(weights: seq<nat>, greedy: seq<nat>, other: seq<nat>, m: nat, best: nat)
    requires m >= 1 && Greedy(weights, greedy, m) && Decreasing(weights)
    requires Assigns(weights, other, m) && Within(weights, other, m, best)
    ensures forall lane | 0 <= lane < m :: 3 * m * Load(weights, greedy, lane) <= (4 * m - 1) * best
  {
    forall lane | 0 <= lane < m ensures 3 * m * Load(weights, greedy, lane) <= (4 * m - 1) * best {
      LaneBound(weights, greedy, other, m, best, lane);
    }
  }
}

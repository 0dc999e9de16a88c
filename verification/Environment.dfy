/** CppGraphEnvironment.h: the persistent environment on shared immutable nodes,
    and the branch merge of CppGraph.h that relies on the sharing. */
module Environments {
  import opened Common
  import opened Terms
  import opened AvlTrees

  /** An immutable node. Two handles are the same node only by identity; `tree`
      is the value it stands for. */
  class Node {
    const key: string
    const value: Shared
    const left: Node?
    const right: Node?
    const height: nat
    const count: nat
    ghost const tree: Tree

    constructor (k: string, v: Shared, l: Node?, r: Node?)
      requires WellBuilt(l) && WellBuilt(r)
      ensures WellBuilt(this) && tree == Make(k, v, TreeOf(l), TreeOf(r))
    {
      key, value, left, right := k, v, l, r;
      height := 1 + if HeightOf(l) >= HeightOf(r) then HeightOf(l) else HeightOf(r);
      count := 1 + CountOf(l) + CountOf(r);
      tree := Make(k, v, TreeOf(l), TreeOf(r));
    }
  }

  function HeightOf(n: Node?): nat { if n == null then 0 else n.height }
  function CountOf(n: Node?): nat { if n == null then 0 else n.count }

  ghost function TreeOf(n: Node?): Tree { if n == null then Leaf else n.tree }

  ghost predicate WellBuilt(n: Node?)
    decreases TreeOf(n)
  {
    n != null ==>
      && n.tree == Branch(n.key, n.value, TreeOf(n.left), TreeOf(n.right), n.height, n.count)
      && WellBuilt(n.left) && WellBuilt(n.right)
  }

  // ----- Updating -----------------------------------------------------------------------

  method BalanceNodes(key: string, value: Shared, left: Node?, right: Node?) returns (r: Node)
    requires WellBuilt(left) && WellBuilt(right) && Avl(TreeOf(left)) && Avl(TreeOf(right))
    requires Depth(TreeOf(left)) <= Depth(TreeOf(right)) + 2 && Depth(TreeOf(right)) <= Depth(TreeOf(left)) + 2
    ensures WellBuilt(r) && r.tree == Balance(key, value, TreeOf(left), TreeOf(right))
  {
    if HeightOf(left) > HeightOf(right) + 1 {
      if HeightOf(left.left) >= HeightOf(left.right) {
        var low := new Node(key, value, left.right, right);
        r := new Node(left.key, left.value, left.left, low);
        return;
      }
      var pivot := left.right;
      var a := new Node(left.key, left.value, left.left, pivot.left);
      var b := new Node(key, value, pivot.right, right);
      r := new Node(pivot.key, pivot.value, a, b);
      return;
    }
    if HeightOf(right) > HeightOf(left) + 1 {
      if HeightOf(right.right) >= HeightOf(right.left) {
        var low := new Node(key, value, left, right.left);
        r := new Node(right.key, right.value, low, right.right);
        return;
      }
      var pivot := right.left;
      var a := new Node(key, value, left, pivot.left);
      var b := new Node(right.key, right.value, pivot.right, right.right);
      r := new Node(pivot.key, pivot.value, a, b);
      return;
    }
    r := new Node(key, value, left, right);
  }

  ghost predicate Usable(n: Node?) { WellBuilt(n) && Good(TreeOf(n)) }

  /** update. The very same node comes back exactly when nothing changes. */
  method UpdateNode(tree: Node?, key: string, bits: Shared?) returns (r: Node?)
    requires Usable(tree)
    ensures Usable(r) && TreeOf(r) == Update(TreeOf(tree), key, Given(bits))
    ensures r == tree <==> Find(TreeOf(tree), key) == Given(bits)
    decreases TreeOf(tree)
  {
    UpdateUpdates(TreeOf(tree), key, Given(bits));
    if tree == null {
      if bits != null { r := new Node(key, bits, null, null); } else { r := tree; }
      return;
    }
    LessTotal(key, tree.key);
    if Less(key, tree.key) {
      var child := UpdateNode(tree.left, key, bits);
      if child == tree.left { return tree; }
      r := BalanceNodes(tree.key, tree.value, child, tree.right);
      return;
    }
    if Less(tree.key, key) {
      var child := UpdateNode(tree.right, key, bits);
      if child == tree.right { return tree; }
      r := BalanceNodes(tree.key, tree.value, tree.left, child);
      return;
    }
    if bits != null {
      if bits == tree.value { return tree; }
      r := new Node(key, bits, tree.left, tree.right);
      return;
    }
    if tree.left == null { return tree.right; }
    if tree.right == null { return tree.left; }
    var successor := First(tree.right);
    var rest := UpdateNode(tree.right, successor.key, null);
    r := BalanceNodes(successor.key, successor.value, tree.left, rest);
  }

  ghost function Given(bits: Shared?): Option<Shared> { if bits == null then None else Some(bits as Shared) }

  /** The loop that finds the successor of an erased entry. */
  method First(tree: Node) returns (successor: Node)
    requires WellBuilt(tree)
    ensures WellBuilt(successor) && successor.tree == Leftmost(tree.tree)
  {
    successor := tree;
    while successor.left != null
      invariant WellBuilt(successor) && Leftmost(successor.tree) == Leftmost(tree.tree)
      decreases successor.tree
    {
      successor := successor.left;
    }
  }

  // ----- Searching ------------------------------------------------------------------------

  method FindNode(root: Node?, key: string) returns (r: Node?)
    requires WellBuilt(root)
    ensures WellBuilt(r) && TreeOf(r) == SubtreeAt(TreeOf(root), key)
  {
    r := root;
    while r != null && r.key != key
      invariant WellBuilt(r) && SubtreeAt(TreeOf(r), key) == SubtreeAt(TreeOf(root), key)
      decreases TreeOf(r)
    {
      r := if Less(key, r.key) then r.left else r.right;
    }
  }

  // ----- Changed keys -------------------------------------------------------------------------

  /** A subtree found in an ordered tree answers for its keys as the whole does. */
  lemma {:induction false} SharedSubtree(t: Tree, key: string, k: string)
    requires Ordered(t) && k in Keys(SubtreeAt(t, key))
    ensures Find(SubtreeAt(t, key), k) == Find(t, k) && k in Keys(t)
  {
    if t.Branch? && key != t.key {
      Sides(t, k);
      var side := if Less(key, t.key) then t.left else t.right;
      SharedSubtree(side, key, k);
      FindStep(t, k);
    }
  }

  ghost function Differing(t: Tree, other: Tree): (r: set<string>)
    ensures forall k :: k in r <==> k in Keys(t) && Find(t, k) != Find(other, k)
  {
    set k | k in Keys(t) && Find(t, k) != Find(other, k)
  }

  lemma {:induction false} DifferingParts(t: Tree, other: Tree)
    requires Ordered(t) && t.Branch?
    ensures Differing(t, other) == Differing(t.left, other) + Differing(t.right, other)
                                   + if Some(t.value) != Find(other, t.key) then {t.key} else {}
  {
    LessTotal(t.key, t.key);
    forall k | k in Keys(t)
      ensures Find(t, k) == if k == t.key then Some(t.value)
                            else if k in Keys(t.left) then Find(t.left, k) else Find(t.right, k)
    {
      FindStep(t, k);
      Sides(t, k);
      LessTotal(k, t.key);
    }
    forall k ensures k in Differing(t, other) <==> k in Differing(t.left, other) || k in Differing(t.right, other)
                                                   || (k == t.key && Some(t.value) != Find(other, t.key)) {
      Sides(t, k);
      Sides(t, t.key);
    }
  }

  /** changes: a node that `other` shares is skipped with its whole subtree. */
  method Changes(tree: Node?, other: Node?, keys: set<string>) returns (r: set<string>)
    requires WellBuilt(tree) && Ordered(TreeOf(tree)) && Usable(other)
    ensures r == keys + Differing(TreeOf(tree), TreeOf(other))
    decreases TreeOf(tree)
  {
    r := keys;
    if tree == null { return; }
    var previous := FindNode(other, tree.key);
    if previous == tree {
      forall k | k in Keys(tree.tree) ensures Find(tree.tree, k) == Find(TreeOf(other), k) {
        SharedSubtree(TreeOf(other), tree.key, k);
      }
      return;
    }
    if previous == null || previous.value != tree.value { r := r + {tree.key}; }
    r := Changes(tree.left, other, r);
    r := Changes(tree.right, other, r);
    DifferingParts(tree.tree, TreeOf(other));
  }

  // ----- The environment -------------------------------------------------------------------------

  datatype Entry = Entry(key: string, value: Shared)

  class Environment {
    var root: Node?

    ghost predicate Valid()
      reads this
    {
      Usable(root)
    }

    ghost function Lookup(key: string): Option<Shared>
      reads this
    {
      Find(TreeOf(root), key)
    }

    /** The finite map this environment stands for. */
    ghost function Contents(): map<string, Shared>
      reads this
    {
      Entries(TreeOf(root))
    }

    constructor ()
      ensures Valid() && Contents() == map[]
    {
      root := null;
    }

    /** A checkpoint: constant time, because nodes are shared. */
    constructor Copy(other: Environment)
      requires other.Valid()
      ensures Valid() && root == other.root
    {
      root := other.root;
    }

    method Count(key: string) returns (present: bool)
      requires Valid()
      ensures present <==> key in Contents()
    {
      var node := FindNode(root, key);
      EntriesFind(TreeOf(root));
      return node != null;
    }

    method LookupShared(key: string) returns (bits: Shared?)
      requires Valid()
      ensures Given(bits) == Lookup(key)
      ensures bits != null <==> key in Contents()
      ensures bits != null ==> Contents()[key] == bits
    {
      var node := FindNode(root, key);
      EntriesFind(TreeOf(root));
      bits := if node == null then null else node.value;
    }

    /** size() is the number of entries. */
    method Size() returns (n: nat)
      requires Valid()
      ensures n == |Contents()|
    {
      CountIsSize(TreeOf(root));
      n := CountOf(root);
    }

    method SetShared(key: string, bits: Shared)
      requires Valid()
      modifies this
      ensures Valid() && Contents() == old(Contents())[key := bits]
      ensures forall k :: Lookup(k) == if k == key then Some(bits) else old(Lookup(k))
    {
      UpdateRefines(TreeOf(root), key, Some(bits));
      UpdateUpdates(TreeOf(root), key, Some(bits));
      root := UpdateNode(root, key, bits);
    }

    method Set(key: string, t: Term)
      requires Valid()
      modifies this
      ensures Valid() && (forall k | k != key :: Lookup(k) == old(Lookup(k)))
      ensures Lookup(key).Some? && fresh(Lookup(key).value) && Lookup(key).value.term == t
    {
      var bits := new Shared(t);
      SetShared(key, bits);
    }

    method Erase(key: string)
      requires Valid()
      modifies this
      ensures Valid() && Contents() == old(Contents()) - {key}
      ensures forall k :: Lookup(k) == if k == key then None else old(Lookup(k))
    {
      UpdateRefines(TreeOf(root), key, None);
      UpdateUpdates(TreeOf(root), key, None);
      root := UpdateNode(root, key, null);
    }

    /** Exactly the keys whose presence or handle differs. */
    method ChangedKeys(other: Environment) returns (keys: set<string>)
      requires Valid() && other.Valid()
      ensures forall k :: k in keys <==> Lookup(k) != other.Lookup(k)
    {
      keys := Changes(root, other.root, {});
      keys := Changes(other.root, root, keys);
      forall k ensures k in keys <==> Lookup(k) != other.Lookup(k) {
        FindExact(TreeOf(root), k);
        FindExact(TreeOf(other.root), k);
      }
    }
  }

  // ----- Iteration ------------------------------------------------------------------------------------

  ghost function InOrder(t: Tree): seq<Entry> {
    if t.Leaf? then [] else InOrder(t.left) + [Entry(t.key, t.value)] + InOrder(t.right)
  }

  ghost function Remaining(pending: seq<Node>): seq<Entry> {
    if pending == [] then []
    else
      var top := pending[|pending| - 1];
      [Entry(top.key, top.value)] + InOrder(TreeOf(top.right)) + Remaining(pending[..|pending| - 1])
  }

  lemma RemainingPush(pending: seq<Node>, n: Node)
    requires WellBuilt(n)
    ensures InOrder(n.tree) + Remaining(pending) == InOrder(TreeOf(n.left)) + Remaining(pending + [n])
  {
    assert (pending + [n])[..|pending|] == pending;
    var e, a, b := [Entry(n.key, n.value)], InOrder(TreeOf(n.left)), InOrder(TreeOf(n.right));
    assert InOrder(n.tree) == a + e + b;
    assert a + e + b + Remaining(pending) == a + (e + b + Remaining(pending));
  }

  class Iterator {
    var pending: seq<Node>

    ghost predicate Valid()
      reads this
    {
      forall i | 0 <= i < |pending| :: WellBuilt(pending[i])
    }

    ghost function Rest(): seq<Entry>
      reads this
    {
      Remaining(pending)
    }

    constructor (tree: Node?)
      requires WellBuilt(tree)
      ensures Valid() && Rest() == InOrder(TreeOf(tree))
    {
      pending := [];
      new;
      Descend(tree);
    }

    method Descend(tree: Node?)
      requires Valid() && WellBuilt(tree)
      modifies this
      ensures Valid() && Rest() == InOrder(TreeOf(tree)) + old(Rest())
    {
      var current := tree;
      while current != null
        invariant Valid() && WellBuilt(current)
        invariant InOrder(TreeOf(tree)) + old(Rest()) == InOrder(TreeOf(current)) + Rest()
        decreases TreeOf(current)
      {
        RemainingPush(pending, current);
        pending := pending + [current];
        current := current.left;
      }
    }

    method Current() returns (e: Entry)
      requires Valid() && pending != []
      ensures Rest() != [] && e == Rest()[0]
    {
      var top := pending[|pending| - 1];
      e := Entry(top.key, top.value);
    }

    /** operator++. */
    method Next()
      requires Valid() && pending != []
      modifies this
      ensures Valid() && Rest() == old(Rest())[1..]
    {
      var current := pending[|pending| - 1];
      pending := pending[..|pending| - 1];
      Descend(current.right);
    }

    /** Equality with end(). */
    method AtEnd() returns (done: bool)
      requires Valid()
      ensures done <==> Rest() == []
    {
      done := pending == [];
    }
  }

  /** The list holds every entry of the tree once, by increasing key. */
  ghost predicate Listed(t: Tree, s: seq<Entry>) {
    && (forall i, j | 0 <= i < j < |s| :: Less(s[i].key, s[j].key))
    && (forall i | 0 <= i < |s| :: s[i].key in Keys(t) && Find(t, s[i].key) == Some(s[i].value))
    && (forall k | k in Keys(t) :: exists i :: 0 <= i < |s| && s[i].key == k)
  }

  /** Iteration visits every entry once, in strictly increasing key order. */
  lemma {:induction false} InOrderIncreasing(t: Tree)
    requires Ordered(t)
    ensures Listed(t, InOrder(t))
  {
    if t.Branch? {
      var a, b := InOrder(t.left), InOrder(t.right);
      var s := a + [Entry(t.key, t.value)] + b;
      InOrderIncreasing(t.left);
      InOrderIncreasing(t.right);
      InOrderParts(t, a, b, s);
    }
  }

  /** In-order lists of both subtrees around the root's entry. */
  ghost predicate Around(t: Tree, a: seq<Entry>, b: seq<Entry>, s: seq<Entry>) {
    Ordered(t) && t.Branch? && s == a + [Entry(t.key, t.value)] + b && Listed(t.left, a) && Listed(t.right, b)
  }

  /** What in-order lists of both subtrees make of the whole. */
  lemma InOrderParts(t: Tree, a: seq<Entry>, b: seq<Entry>, s: seq<Entry>)
    requires Around(t, a, b, s)
    ensures Listed(t, s)
  {
    forall i, j | 0 <= i < j < |s| ensures Less(s[i].key, s[j].key) { EntriesIncrease(t, a, b, s, i, j); }
    forall i | 0 <= i < |s| ensures s[i].key in Keys(t) && Find(t, s[i].key) == Some(s[i].value) {
      EntryFound(t, a, b, s, i);
    }
    forall k | k in Keys(t) ensures exists i :: 0 <= i < |s| && s[i].key == k { var i := EntryOfKey(t, a, b, s, k); }
  }

  lemma EntriesIncrease(t: Tree, a: seq<Entry>, b: seq<Entry>, s: seq<Entry>, i: nat, j: nat)
    requires Around(t, a, b, s) && i < j < |s|
    ensures Less(s[i].key, s[j].key)
  {
    if i < |a| < j { LessTrans(s[i].key, t.key, s[j].key); }
  }

  lemma EntryOfKey(t: Tree, a: seq<Entry>, b: seq<Entry>, s: seq<Entry>, k: string) returns (i: nat)
    requires Around(t, a, b, s) && k in Keys(t)
    ensures i < |s| && s[i].key == k
  {
    if k in Keys(t.left) {
      i :| 0 <= i < |a| && a[i].key == k;
    } else if k == t.key {
      i := |a|;
    } else {
      var j :| 0 <= j < |b| && b[j].key == k;
      i := |a| + 1 + j;
    }
  }

  lemma EntryFound(t: Tree, a: seq<Entry>, b: seq<Entry>, s: seq<Entry>, i: nat)
    requires Around(t, a, b, s) && i < |s|
    ensures s[i].key in Keys(t) && Find(t, s[i].key) == Some(s[i].value)
  {
    FindStep(t, s[i].key);
    Sides(t, s[i].key);
    LessTotal(t.key, t.key);
    if i < |a| { assert s[i] == a[i]; } else if i > |a| { assert s[i] == b[i - |a| - 1]; }
  }

  // ----- Branch merges -------------------------------------------------------------------------------------

  /** The branch value of a key, or what it was before either branch. */
  ghost function OrElse(bits: Option<Shared>, fallback: Option<Term>): Option<Term> {
    if bits.Some? then Some(bits.value.term) else fallback
  }

  ghost function Fallback(before: Option<Shared>, original: Option<Term>): Option<Term> {
    if before.Some? then Some(before.value.term) else original
  }

  /** The merge of one key is accepted. */
  ghost predicate Mergeable(fallback: Option<Term>, yes: Option<Shared>, no: Option<Shared>) {
    yes == no || (fallback.Some? && Width(OrElse(yes, fallback).value) == Width(OrElse(no, fallback).value))
  }

  /** `r` reads as mux(condition, yes, no), with the fallback where a branch lacks the key. */
  ghost predicate Merged(condition: Term, fallback: Option<Term>, yes: Option<Shared>, no: Option<Shared>,
                         r: Option<Shared>)
  {
    && (r.Some? <==> yes.Some? || no.Some?)
    && (r.Some? ==>
         var y, n := OrElse(yes, fallback), OrElse(no, fallback);
         && y.Some? && n.Some?
         && forall w :: Eval(r.value.term, w) == Eval(if Holds(condition, w) then y.value else n.value, w))
  }

  ghost function Original(originals: map<string, Term>, key: string): Option<Term> {
    if key in originals then Some(originals[key]) else None
  }

  /** One key of an accepted merge. */
  ghost predicate SettledKey(condition: Term, fallback: Option<Term>, yes: Option<Shared>, no: Option<Shared>,
                             r: Option<Shared>)
  {
    Mergeable(fallback, yes, no) && Merged(condition, fallback, yes, no, r)
  }

  lemma SettledSame(condition: Term, fallback: Option<Term>, bits: Option<Shared>)
    ensures SettledKey(condition, fallback, bits, bits, bits)
  {}

  lemma SettledMux(condition: Term, fallback: Term, yes: Option<Shared>, no: Option<Shared>, r: Shared)
    requires yes.Some? || no.Some?
    requires var y, n := OrElse(yes, Some(fallback)).value, OrElse(no, Some(fallback)).value;
             Width(y) == Width(n) && r.term == Mux(condition, y, n)
    ensures SettledKey(condition, Some(fallback), yes, no, Some(r))
  {}

  ghost predicate Settled(condition: Term, before: Environment, yes: Environment, no: Environment,
                          originals: map<string, Term>, r: Option<Shared>, k: string)
    reads before, yes, no
  {
    SettledKey(condition, Fallback(before.Lookup(k), Original(originals, k)), yes.Lookup(k), no.Lookup(k), r)
  }

  /** The multiplexed value of a key whose branches differ, if it has one. */
  method MuxOf(condition: Term, before: Shared?, originals: map<string, Term>, yes: Shared?, no: Shared?, key: string)
    returns (r: Option<Term>)
    requires yes != no
    ensures var fall := Fallback(Given(before), Original(originals, key));
            && (r.Some? <==> Mergeable(fall, Given(yes), Given(no)))
            && (r.Some? ==>
                fall.Some? && r.value == Mux(condition, OrElse(Given(yes), fall).value, OrElse(Given(no), fall).value))
  {
    if before == null && key !in originals { return None; }
    var fallback := if before != null then before.term else originals[key];
    var yesBits := if yes != null then yes.term else fallback;
    var noBits := if no != null then no.term else fallback;
    if Width(yesBits) != Width(noBits) { return None; }
    return Some(Mux(condition, yesBits, noBits));
  }

  class Cells {
    var cells: Environment

    constructor (c: Environment)
      ensures cells == c
    {
      cells := c;
    }

    /** merge. It is accepted exactly when every key is mergeable, and then every
        key, changed or not, reads as the multiplexed branch values. */
    method Merge(condition: Term, before: Environment, yes: Environment, no: Environment, originals: map<string, Term>)
      returns (ok: bool)
      requires before.Valid() && yes.Valid() && no.Valid()
      modifies this
      ensures fresh(cells) && cells.Valid()
      ensures ok <==> forall k ::
                        Mergeable(Fallback(before.Lookup(k), Original(originals, k)), yes.Lookup(k), no.Lookup(k))
      ensures ok ==> forall k ::
                Merged(condition, Fallback(before.Lookup(k), Original(originals, k)), yes.Lookup(k), no.Lookup(k),
                       cells.Lookup(k))
    {
      var keys := yes.ChangedKeys(before);
      var noKeys := no.ChangedKeys(before);
      keys := keys + noKeys;
      cells := new Environment.Copy(before);
      ok := MergeKeys(condition, before, yes, no, originals, keys);
      forall k | ok
        ensures Mergeable(Fallback(before.Lookup(k), Original(originals, k)), yes.Lookup(k), no.Lookup(k))
        ensures Merged(condition, Fallback(before.Lookup(k), Original(originals, k)), yes.Lookup(k), no.Lookup(k),
                       cells.Lookup(k))
      {
        assert Settled(condition, before, yes, no, originals, cells.Lookup(k), k);
      }
    }

    method MergeKeys(condition: Term, before: Environment, yes: Environment, no: Environment,
                     originals: map<string, Term>, changed: set<string>) returns (ok: bool)
      requires before.Valid() && yes.Valid() && no.Valid() && cells.Valid()
      requires cells != before && cells != yes && cells != no
      requires forall k | k !in changed :: Settled(condition, before, yes, no, originals, cells.Lookup(k), k)
      modifies cells
      ensures cells.Valid()
      ensures ok ==> forall k :: Settled(condition, before, yes, no, originals, cells.Lookup(k), k)
      ensures !ok ==>
              exists k :: !Mergeable(Fallback(before.Lookup(k), Original(originals, k)), yes.Lookup(k), no.Lookup(k))
    {
      var keys := changed;
      while keys != {}
        invariant cells.Valid()
        invariant forall k | k !in keys :: Settled(condition, before, yes, no, originals, cells.Lookup(k), k)
        decreases keys
      {
        var key :| key in keys;
        ok := MergeKey(condition, before, yes, no, originals, key);
        if !ok { return; }
        keys := keys - {key};
      }
      ok := true;
    }

    method MergeKey(condition: Term, before: Environment, yes: Environment, no: Environment,
                    originals: map<string, Term>, key: string) returns (ok: bool)
      requires before.Valid() && yes.Valid() && no.Valid() && cells.Valid()
      requires cells != before && cells != yes && cells != no
      modifies cells
      ensures cells.Valid()
      ensures ok ==> Settled(condition, before, yes, no, originals, cells.Lookup(key), key)
      ensures ok ==> forall k | k != key :: cells.Lookup(k) == old(cells.Lookup(k))
      ensures !ok ==>
              !Mergeable(Fallback(before.Lookup(key), Original(originals, key)), yes.Lookup(key), no.Lookup(key))
    {
      var yesValue := yes.LookupShared(key);
      var noValue := no.LookupShared(key);
      var beforeValue := before.LookupShared(key);
      ok := StoreMerged(condition, beforeValue, yesValue, noValue, originals, key);
    }

    /** Stores the merged value of one key: erased, shared or multiplexed. */
    method StoreMerged(condition: Term, before: Shared?, yes: Shared?, no: Shared?, originals: map<string, Term>,
                       key: string) returns (ok: bool)
      requires cells.Valid()
      modifies cells
      ensures cells.Valid()
      ensures ok <==> Mergeable(Fallback(Given(before), Original(originals, key)), Given(yes), Given(no))
      ensures ok ==>
              SettledKey(condition, Fallback(Given(before), Original(originals, key)), Given(yes), Given(no),
                         cells.Lookup(key))
      ensures ok ==> forall k | k != key :: cells.Lookup(k) == old(cells.Lookup(k))
    {
      ghost var fall := Fallback(Given(before), Original(originals, key));
      if yes == no {
        SettledSame(condition, fall, Given(yes));
        if yes == null { cells.Erase(key); } else { cells.SetShared(key, yes); }
        return true;
      }
      var merged := MuxOf(condition, before, originals, yes, no, key);
      if merged.None? { return false; }
      cells.Set(key, merged.value);
      SettledMux(condition, fall.value, Given(yes), Given(no), cells.Lookup(key).value);
      return true;
    }
  }
}

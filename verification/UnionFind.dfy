/** The path-compressing component array of buildStage (Combs.cpp): a ghost
    leader gives every member's representative. */
module UnionFind {

  /** `leader[x]` is the representative of member x; `rank` grows along parents. */
  ghost predicate Forest(parent: seq<nat>, member: seq<bool>, leader: seq<nat>, rank: seq<nat>, top: nat) {
    && |parent| == |member| == |leader| == |rank|
    && forall x | 0 <= x < |parent| && member[x] :: NodeOk(parent, member, leader, rank, top, x)
  }

  ghost predicate NodeOk(parent: seq<nat>, member: seq<bool>, leader: seq<nat>, rank: seq<nat>, top: nat, x: nat)
    requires |parent| == |member| == |leader| == |rank| && x < |parent|
  {
    var p, r := parent[x], leader[x];
    && p < |parent| && member[p] && leader[p] == r
    && r < |parent| && member[r] && leader[r] == r
    && (p == x <==> r == x)
    && (p != x ==> rank[x] < rank[p] && rank[x] < rank[r])
    && rank[x] <= top
  }

  ghost function Contents(a: array<nat>): seq<nat> reads a { a[..] }

  /** The merged labelling. */
  ghost function Joined(leader: seq<nat>, left: nat, right: nat): seq<nat>
    requires left < |leader| && right < |leader|
  {
    seq(|leader|, x requires 0 <= x < |leader| => if leader[x] == leader[right] then leader[left] else leader[x])
  }

  /** findComponent: returns the representative and shortens the path. */
  method Find(parent: array<nat>, x: nat, ghost member: seq<bool>, ghost leader: seq<nat>, ghost rank: seq<nat>,
              ghost top: nat)
    returns (root: nat)
    requires Forest(parent[..], member, leader, rank, top) && x < parent.Length && member[x]
    modifies parent
    ensures Forest(parent[..], member, leader, rank, top)
    ensures root == leader[x]
    decreases top - rank[x]
  {
    assert NodeOk(parent[..], member, leader, rank, top, x);
    if parent[x] != x {
      assert NodeOk(parent[..], member, leader, rank, top, parent[x]);
      var found := Find(parent, parent[x], member, leader, rank, top);
      ghost var before := parent[..];
      parent[x] := found;
      forall y | 0 <= y < parent.Length && member[y] ensures NodeOk(parent[..], member, leader, rank, top, y) {
        assert NodeOk(before, member, leader, rank, top, y);
        assert NodeOk(before, member, leader, rank, top, x);
        assert NodeOk(before, member, leader, rank, top, leader[x]);
      }
    }
    root := parent[x];
  }

  ghost function Raised(rank: seq<nat>, l: nat, r: nat): seq<nat>
    requires l < |rank| && r < |rank|
  {
    rank[l := if rank[l] > rank[r] then rank[l] else rank[r] + 1]
  }

  lemma {:induction false} JoinedForest(parent: seq<nat>, member: seq<bool>, leader: seq<nat>, rank: seq<nat>, top: nat,
                                        left: nat, right: nat)
    requires Forest(parent, member, leader, rank, top)
    requires left < |parent| && right < |parent| && member[left] && member[right] && leader[left] != leader[right]
    ensures leader[left] < |parent| && leader[right] < |parent|
    ensures Forest(parent[leader[right] := leader[left]], member, Joined(leader, left, right),
                   Raised(rank, leader[left], leader[right]), top + 1)
  {
    assert NodeOk(parent, member, leader, rank, top, left) && NodeOk(parent, member, leader, rank, top, right);
    var l, r := leader[left], leader[right];
    assert NodeOk(parent, member, leader, rank, top, l) && NodeOk(parent, member, leader, rank, top, r);
    var parent', leader', rank' := parent[r := l], Joined(leader, left, right), Raised(rank, l, r);
    assert forall x | 0 <= x < |leader| :: leader'[x] == if leader[x] == r then l else leader[x];
    forall y | 0 <= y < |parent| && member[y] ensures NodeOk(parent', member, leader', rank', top + 1, y) {
      assert NodeOk(parent, member, leader, rank, top, y);
      JoinedNode(parent, member, leader, rank, top, l, r, leader', y);
    }
  }

  lemma JoinedNode(parent: seq<nat>, member: seq<bool>, leader: seq<nat>, rank: seq<nat>, top: nat,
                   l: nat, r: nat, leader': seq<nat>, y: nat)
    requires |parent| == |member| == |leader| == |rank| == |leader'|
    requires l < |parent| && r < |parent| && y < |parent| && l != r
    requires NodeOk(parent, member, leader, rank, top, l) && leader[l] == l && member[l]
    requires NodeOk(parent, member, leader, rank, top, r) && leader[r] == r && member[r]
    requires NodeOk(parent, member, leader, rank, top, y)
    requires forall x | 0 <= x < |leader| :: leader'[x] == if leader[x] == r then l else leader[x]
    ensures NodeOk(parent[r := l], member, leader', Raised(rank, l, r), top + 1, y)
  {
    var rank' := Raised(rank, l, r);
    assert rank'[l] >= rank[l] && rank'[l] > rank[r] && forall x | 0 <= x < |rank| && x != l :: rank'[x] == rank[x];
  }

  /** mergeComponents: the right representative joins the left one. */
  method Merge(parent: array<nat>, left: nat, right: nat, ghost member: seq<bool>, ghost leader: seq<nat>,
               ghost rank: seq<nat>, ghost top: nat)
    returns (ghost rank': seq<nat>, ghost top': nat)
    requires Forest(parent[..], member, leader, rank, top)
    requires left < parent.Length && right < parent.Length && member[left] && member[right]
    modifies parent
    ensures Forest(parent[..], member, Joined(leader, left, right), rank', top')
  {
    var l := Find(parent, left, member, leader, rank, top);
    var r := Find(parent, right, member, leader, rank, top);
    rank', top' := rank, top;
    if l != r {
      JoinedForest(parent[..], member, leader, rank, top, left, right);
      rank', top' := Raised(rank, l, r), top + 1;
      parent[r] := l;
    } else {
      assert Joined(leader, left, right) == leader;
    }
  }
}

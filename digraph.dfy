/** Directed graphs over an arena: node i's successors are the indices in g[i].
    Reachability is the reflexive-transitive closure of the successor relation,
    and a strongly-connected component is a class of mutual reachability. */
module Digraph {

  /** Every successor index names a node of the arena. */
  ghost predicate Closed(g: seq<set<nat>>) {
    forall i, j :: 0 <= i < |g| && j in g[i] ==> j < |g|
  }

  ghost predicate IsPath(g: seq<set<nat>>, p: seq<nat>) {
    && |p| > 0
    && (forall k :: 0 <= k < |p| ==> p[k] < |g|)
    && (forall k :: 0 <= k < |p| - 1 ==> p[k + 1] in g[p[k]])
  }

  /** b can be reached from a by following successor edges (zero or more). */
  ghost predicate Reach(g: seq<set<nat>>, a: nat, b: nat) {
    exists p :: IsPath(g, p) && p[0] == a && p[|p| - 1] == b
  }

  ghost predicate Mutual(g: seq<set<nat>>, a: nat, b: nat) {
    Reach(g, a, b) && Reach(g, b, a)
  }

  lemma ReachRefl(g: seq<set<nat>>, a: nat)
    requires a < |g|
    ensures Reach(g, a, a)
  {
    assert IsPath(g, [a]);
  }

  lemma ReachEdge(g: seq<set<nat>>, a: nat, b: nat)
    requires a < |g| && b < |g| && b in g[a]
    ensures Reach(g, a, b)
  {
    assert IsPath(g, [a, b]);
  }

  lemma ReachTrans(g: seq<set<nat>>, a: nat, b: nat, c: nat)
    requires Reach(g, a, b) && Reach(g, b, c)
    ensures Reach(g, a, c)
  {
    var p :| IsPath(g, p) && p[0] == a && p[|p| - 1] == b;
    var q :| IsPath(g, q) && q[0] == b && q[|q| - 1] == c;
    var r := p + q[1..];
    forall k | 0 <= k < |r| - 1
      ensures r[k + 1] in g[r[k]]
    {
      if k < |p| - 1 {
        assert r[k] == p[k] && r[k + 1] == p[k + 1];
      } else {
        assert r[k] == q[k - |p| + 1] && r[k + 1] == q[k - |p| + 2];
      }
    }
    assert IsPath(g, r);
  }

  /** Reachability only ever starts and ends inside the arena. */
  lemma ReachInRange(g: seq<set<nat>>, a: nat, b: nat)
    requires Reach(g, a, b)
    ensures a < |g| && b < |g|
  {
  }

  lemma MutualRefl(g: seq<set<nat>>, a: nat)
    requires a < |g|
    ensures Mutual(g, a, a)
  {
    ReachRefl(g, a);
  }

  lemma MutualTrans(g: seq<set<nat>>, a: nat, b: nat, c: nat)
    requires Mutual(g, a, b) && Mutual(g, b, c)
    ensures Mutual(g, a, c)
  {
    ReachTrans(g, a, b, c);
    ReachTrans(g, c, b, a);
  }

  /** A set closed under successors traps every walk that starts in it. */
  lemma {:induction false} ReachStaysInside(g: seq<set<nat>>, s: set<nat>, p: seq<nat>)
    requires IsPath(g, p) && p[0] in s
    requires forall i, j :: i in s && i < |g| && j in g[i] ==> j in s
    ensures p[|p| - 1] in s
    decreases |p|
  {
    if |p| > 1 {
      assert IsPath(g, p[1..]);
      ReachStaysInside(g, s, p[1..]);
    }
  }

  lemma ReachClosed(g: seq<set<nat>>, s: set<nat>, a: nat, b: nat)
    requires Reach(g, a, b) && a in s
    requires forall i, j :: i in s && i < |g| && j in g[i] ==> j in s
    ensures b in s
  {
    var p :| IsPath(g, p) && p[0] == a && p[|p| - 1] == b;
    ReachStaysInside(g, s, p);
  }

  /** Every node on a path between two mutually reachable nodes belongs to
      their component. */
  lemma PathInsideComponent(g: seq<set<nat>>, p: seq<nat>, k: nat)
    requires IsPath(g, p) && k < |p| && Reach(g, p[|p| - 1], p[0])
    ensures Mutual(g, p[0], p[k])
  {
    assert IsPath(g, p[..k + 1]);
    assert Reach(g, p[0], p[k]);
    assert IsPath(g, p[k..]);
    assert Reach(g, p[k], p[|p| - 1]);
    ReachTrans(g, p[k], p[|p| - 1], p[0]);
  }

  /** A set closed under predecessors traps every walk that ends in it. */
  lemma {:induction false} BackStaysInside(g: seq<set<nat>>, s: set<nat>, p: seq<nat>)
    requires IsPath(g, p) && p[|p| - 1] in s
    requires PredClosed(g, s)
    ensures p[0] in s
    decreases |p|
  {
    if |p| > 1 {
      assert IsPath(g, p[1..]);
      BackStaysInside(g, s, p[1..]);
      assert p[1] in g[p[0]];
    }
  }

  /** Every predecessor of a member is a member. */
  ghost predicate PredClosed(g: seq<set<nat>>, s: set<nat>) {
    forall i, j :: 0 <= i < |g| && j in g[i] && j in s ==> i in s
  }

  lemma ReachBackClosed(g: seq<set<nat>>, s: set<nat>, a: nat, b: nat)
    requires Reach(g, a, b) && PredClosed(g, s)
    ensures b in s ==> a in s
  {
    var p :| IsPath(g, p) && p[0] == a && p[|p| - 1] == b;
    if b in s {
      BackStaysInside(g, s, p);
    }
  }

  /** The strongly-connected component of x: the nodes mutually reachable with x. */
  ghost function Scc(g: seq<set<nat>>, x: nat): set<nat> {
    set y: nat | y < |g| && Mutual(g, x, y)
  }

  /** Mutually reachable nodes have the same component. */
  lemma SccSame(g: seq<set<nat>>, x: nat, y: nat)
    requires Mutual(g, x, y)
    ensures Scc(g, x) == Scc(g, y)
  {
    forall z: nat | z in Scc(g, x)
      ensures z in Scc(g, y)
    {
      MutualTrans(g, y, x, z);
    }
    forall z: nat | z in Scc(g, y)
      ensures z in Scc(g, x)
    {
      MutualTrans(g, x, y, z);
    }
  }

  ghost predicate Covered(sol: set<set<nat>>, x: nat) {
    exists c :: c in sol && x in c
  }

  /** The components listed in sol are non-empty, each is exactly the
      component of each of its members, and every node of the arena lies in
      one of them. */
  ghost predicate IsSccPartition(g: seq<set<nat>>, sol: set<set<nat>>) {
    && (forall c :: c in sol ==> c != {})
    && (forall c, x :: c in sol && x in c ==> x < |g| && c == Scc(g, x))
    && (forall x: nat :: x < |g| ==> Covered(sol, x))
  }

  /** Such a family is a partition: two components sharing a node are equal,
      and two nodes lie in the same component exactly when they are mutually
      reachable. */
  lemma SccPartitionDisjoint(g: seq<set<nat>>, sol: set<set<nat>>, c: set<nat>, d: set<nat>, x: nat, y: nat)
    requires IsSccPartition(g, sol) && c in sol && d in sol && x in c && y in d
    ensures c != d ==> c !! d
    ensures (c == d) <==> Mutual(g, x, y)
  {
    if !(c !! d) {
      var z :| z in c && z in d;
      assert c == Scc(g, z) == d;
    }
    assert c == Scc(g, x) && d == Scc(g, y);
    MutualRefl(g, x);
    MutualRefl(g, y);
    if Mutual(g, x, y) {
      SccSame(g, x, y);
    }
  }

  /** The partition is determined by the graph: it is the family of all
      components. */
  lemma SccPartitionUnique(g: seq<set<nat>>, sol: set<set<nat>>)
    requires IsSccPartition(g, sol)
    ensures sol == set x | 0 <= x < |g| :: Scc(g, x)
  {
    forall c | c in sol
      ensures c in set x | 0 <= x < |g| :: Scc(g, x)
    {
      var x :| x in c;
      assert c == Scc(g, x);
    }
    forall x | 0 <= x < |g|
      ensures Scc(g, x) in sol
    {
      assert Covered(sol, x);
      var c :| c in sol && x in c;
      assert c == Scc(g, x);
    }
  }

  /** The partition is empty exactly when the arena is. */
  lemma SccPartitionEmpty(g: seq<set<nat>>, sol: set<set<nat>>)
    requires IsSccPartition(g, sol)
    ensures sol == {} <==> |g| == 0
  {
    if |g| > 0 {
      assert Covered(sol, 0);
    }
  }
}

/** The graphs of the engine's unit tests (TarjanCore_gtest.cpp), as arenas
    whose slot i is the i-th node created, and the one family of components
    any solution of each must be. Together with TarjanCore.Solve's
    guarantee these fix the component counts the tests expect. */
module Scenarios {
  import opened Digraph

  /** Nothing leaves a set closed under successors. */
  lemma NoWayOut(g: seq<set<nat>>, s: set<nat>, a: nat, b: nat)
    requires forall i, j :: i in s && i < |g| && j in g[i] ==> j in s
    requires a in s && b !in s
    ensures !Reach(g, a, b)
  {
    if Reach(g, a, b) {
      ReachClosed(g, s, a, b);
    }
  }

  /** A component is known once its members and its non-members are. */
  lemma SccIs(g: seq<set<nat>>, x: nat, s: set<nat>)
    requires forall y :: y in s ==> y < |g| && Mutual(g, x, y)
    requires forall y: nat :: y < |g| && y !in s ==> !Mutual(g, x, y)
    ensures Scc(g, x) == s
  {
  }

  lemma Cycle(g: seq<set<nat>>, a: nat, b: nat, c: nat)
    requires a < |g| && b < |g| && c < |g|
    requires b in g[a] && c in g[b] && a in g[c]
    ensures Mutual(g, a, b) && Mutual(g, b, c) && Mutual(g, a, c)
  {
    ReachEdge(g, a, b);
    ReachEdge(g, b, c);
    ReachEdge(g, c, a);
    ReachTrans(g, a, b, c);
    ReachTrans(g, b, c, a);
    ReachTrans(g, c, a, b);
  }

  /** Test2Nodes1Circle: 1 <-> 2. */
  const TwoLinked: seq<set<nat>> := [{1}, {0}]

  lemma TwoLinkedComponents(sol: set<set<nat>>)
    requires IsSccPartition(TwoLinked, sol)
    ensures sol == {{0, 1}} && |sol| == 1
  {
    var g := TwoLinked;
    ReachEdge(g, 0, 1);
    ReachEdge(g, 1, 0);
    MutualRefl(g, 0);
    MutualRefl(g, 1);
    SccIs(g, 0, {0, 1});
    SccIs(g, 1, {0, 1});
    SccPartitionUnique(g, sol);
    forall c | c in sol
      ensures c == {0, 1}
    {
      var x :| 0 <= x < |g| && c == Scc(g, x);
      assert x == 0 || x == 1;
    }
    assert Scc(g, 0) in sol;
  }

  /** Test2Nodes2Circle: two nodes, no edge. */
  const TwoApart: seq<set<nat>> := [{}, {}]

  lemma TwoApartComponents(sol: set<set<nat>>)
    requires IsSccPartition(TwoApart, sol)
    ensures sol == {{0}, {1}} && |sol| == 2
  {
    var g := TwoApart;
    NoWayOut(g, {0}, 0, 1);
    NoWayOut(g, {1}, 1, 0);
    MutualRefl(g, 0);
    MutualRefl(g, 1);
    SccIs(g, 0, {0});
    SccIs(g, 1, {1});
    SccPartitionUnique(g, sol);
    forall c | c in sol
      ensures c == {0} || c == {1}
    {
      var x :| 0 <= x < |g| && c == Scc(g, x);
      assert x == 0 || x == 1;
    }
    assert Scc(g, 0) in sol && Scc(g, 1) in sol;
  }

  /** Test5Nodes3Circle: 0->1->2->0 and 0->3->4. */
  const FiveNodes: seq<set<nat>> := [{1, 3}, {2}, {0}, {4}, {}]

  lemma FiveNodesSccs()
    ensures Scc(FiveNodes, 0) == Scc(FiveNodes, 1) == Scc(FiveNodes, 2) == {0, 1, 2}
    ensures Scc(FiveNodes, 3) == {3} && Scc(FiveNodes, 4) == {4}
  {
    var g := FiveNodes;
    Cycle(g, 0, 1, 2);
    MutualRefl(g, 0);
    MutualRefl(g, 3);
    MutualRefl(g, 4);
    NoWayOut(g, {3, 4}, 3, 0);
    NoWayOut(g, {3, 4}, 3, 1);
    NoWayOut(g, {3, 4}, 3, 2);
    NoWayOut(g, {4}, 4, 0);
    NoWayOut(g, {4}, 4, 1);
    NoWayOut(g, {4}, 4, 2);
    NoWayOut(g, {4}, 4, 3);
    SccIs(g, 0, {0, 1, 2});
    SccSame(g, 0, 1);
    SccSame(g, 0, 2);
    SccIs(g, 3, {3});
    SccIs(g, 4, {4});
  }

  lemma FiveNodesFamily()
    ensures (set x | 0 <= x < |FiveNodes| :: Scc(FiveNodes, x)) == {{0, 1, 2}, {3}, {4}}
  {
    var g := FiveNodes;
    FiveNodesSccs();
    var fam := set x | 0 <= x < |g| :: Scc(g, x);
    forall c | c in fam
      ensures c in {{0, 1, 2}, {3}, {4}}
    {
      var x :| 0 <= x < |g| && c == Scc(g, x);
      assert x in {0, 1, 2, 3, 4};
    }
    assert Scc(g, 0) in fam && Scc(g, 3) in fam && Scc(g, 4) in fam;
  }

  lemma FiveNodesComponents(sol: set<set<nat>>)
    requires IsSccPartition(FiveNodes, sol)
    ensures sol == {{0, 1, 2}, {3}, {4}} && |sol| == 3
  {
    SccPartitionUnique(FiveNodes, sol);
    FiveNodesFamily();
    assert 0 !in {3} && 0 !in {4} && 3 !in {4};
  }

  /** TestComprehensive: nodes a..h as 0..7 with a->b, a->f, b->c, b->f,
      c->d, c->g, e->a, f->e, f->g, g->c, h->g. */
  const EightNodes: seq<set<nat>> := [{1, 5}, {2, 5}, {3, 6}, {}, {0}, {4, 6}, {2}, {6}]

  lemma EightNodesMembers()
    ensures Mutual(EightNodes, 0, 1) && Mutual(EightNodes, 0, 4) && Mutual(EightNodes, 0, 5)
    ensures Mutual(EightNodes, 2, 6)
  {
    var g := EightNodes;
    Cycle(g, 0, 5, 4);
    ReachEdge(g, 0, 1);
    ReachEdge(g, 1, 5);
    ReachTrans(g, 1, 5, 0);
    ReachEdge(g, 2, 6);
    ReachEdge(g, 6, 2);
  }

  lemma EightNodesApart()
    ensures forall y :: y in {2, 3, 6, 7} ==> !Mutual(EightNodes, 0, y)
    ensures forall y :: y in {0, 1, 3, 4, 5, 7} ==> !Mutual(EightNodes, 2, y)
    ensures forall y :: y in {0, 1, 2, 4, 5, 6, 7} ==> !Mutual(EightNodes, 3, y)
  {
    var g := EightNodes;
    var inner := {2, 3, 6};
    var notH := {0, 1, 2, 3, 4, 5, 6};
    NoWayOut(g, inner, 2, 0);
    NoWayOut(g, inner, 3, 0);
    NoWayOut(g, inner, 6, 0);
    NoWayOut(g, notH, 0, 7);
    NoWayOut(g, inner, 2, 1);
    NoWayOut(g, inner, 2, 4);
    NoWayOut(g, inner, 2, 5);
    NoWayOut(g, {3}, 3, 2);
    NoWayOut(g, notH, 2, 7);
    forall y | y in {0, 1, 2, 4, 5, 6, 7}
      ensures !Mutual(g, 3, y)
    {
      NoWayOut(g, {3}, 3, y);
    }
  }

  lemma EightNodesSccs()
    ensures Scc(EightNodes, 0) == Scc(EightNodes, 1) == Scc(EightNodes, 4) == Scc(EightNodes, 5) == {0, 1, 4, 5}
    ensures Scc(EightNodes, 2) == Scc(EightNodes, 6) == {2, 6}
    ensures Scc(EightNodes, 3) == {3} && Scc(EightNodes, 7) == {7}
  {
    var g := EightNodes;
    EightNodesMembers();
    EightNodesApart();
    MutualRefl(g, 0);
    MutualRefl(g, 2);
    MutualRefl(g, 3);
    MutualRefl(g, 7);
    SccIs(g, 0, {0, 1, 4, 5});
    SccIs(g, 2, {2, 6});
    SccIs(g, 3, {3});
    forall y: nat | y < |g| && y != 7
      ensures !Mutual(g, 7, y)
    {
      NoWayOut(g, {0, 1, 2, 3, 4, 5, 6}, y, 7);
    }
    SccIs(g, 7, {7});
    SccSame(g, 0, 1);
    SccSame(g, 0, 4);
    SccSame(g, 0, 5);
    SccSame(g, 2, 6);
  }

  lemma EightNodesFamily()
    ensures (set x | 0 <= x < |EightNodes| :: Scc(EightNodes, x)) == {{0, 1, 4, 5}, {2, 6}, {3}, {7}}
  {
    var g := EightNodes;
    EightNodesSccs();
    var fam := set x | 0 <= x < |g| :: Scc(g, x);
    forall c | c in fam
      ensures c in {{0, 1, 4, 5}, {2, 6}, {3}, {7}}
    {
      var x :| 0 <= x < |g| && c == Scc(g, x);
      assert x in {0, 1, 2, 3, 4, 5, 6, 7};
    }
    assert Scc(g, 0) in fam && Scc(g, 2) in fam && Scc(g, 3) in fam && Scc(g, 7) in fam;
  }

  lemma FourComponentsDistinct()
    ensures |{{0, 1, 4, 5}, {2, 6}, {3}, {7}}| == 4
  {
    assert 0 !in {2, 6} && 0 !in {3} && 0 !in {7} && 2 !in {3} && 2 !in {7} && 3 !in {7};
  }

  lemma EightNodesComponents(sol: set<set<nat>>)
    requires IsSccPartition(EightNodes, sol)
    ensures sol == {{0, 1, 4, 5}, {2, 6}, {3}, {7}} && |sol| == 4
  {
    SccPartitionUnique(EightNodes, sol);
    EightNodesFamily();
    FourComponentsDistinct();
  }
}

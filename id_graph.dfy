/** The graph a caller hands to the solver, seen through ids: an edge a -> b
    exists when the Node with id a lists b among its children. Components here
    are the classes of mutual reachability over ids, and an arena "represents"
    a Graph when it has one engine node per id with exactly those edges. */
module IdGraphs {
  import opened DataStructure
  import opened Digraph
  import opened TarjanNodes
  import opened TarjanCoreAlgo

  /** The ids of the declared Nodes. */
  ghost function DeclaredIds(g: set<Node>): set<string> {
    set n | n in g :: n.id
  }

  /** The ids named as somebody's child. */
  ghost function ChildIds(g: set<Node>): set<string> {
    set n, c | n in g && c in n.childNodes :: c
  }

  /** Every id the solver makes a node for. */
  ghost function AllNodeIds(g: set<Node>): set<string> {
    DeclaredIds(g) + ChildIds(g)
  }

  /** Some Node of P with id a lists b as a child. */
  ghost predicate EdgeIn(P: set<Node>, a: string, b: string) {
    exists m :: m in P && m.id == a && b in m.childNodes
  }

  ghost predicate IdPath(g: Graph, p: seq<string>) {
    && |p| > 0
    && (forall k :: 0 <= k < |p| ==> p[k] in AllNodeIds(g))
    && (forall k :: 0 <= k < |p| - 1 ==> EdgeIn(g, p[k], p[k + 1]))
  }

  ghost predicate IdReach(g: Graph, a: string, b: string) {
    exists p :: IdPath(g, p) && p[0] == a && p[|p| - 1] == b
  }

  ghost predicate IdMutual(g: Graph, a: string, b: string) {
    IdReach(g, a, b) && IdReach(g, b, a)
  }

  /** The ids mutually reachable with a. */
  ghost function IdScc(g: Graph, a: string): set<string> {
    set b | b in AllNodeIds(g) && IdMutual(g, a, b)
  }

  /** The strongly-connected components of the Graph, as sets of ids. */
  ghost function IdComponents(g: Graph): set<set<string>> {
    set a | a in AllNodeIds(g) :: IdScc(g, a)
  }

  lemma IdReachRefl(g: Graph, a: string)
    requires a in AllNodeIds(g)
    ensures IdReach(g, a, a)
  {
    assert IdPath(g, [a]);
  }

  lemma IdReachTrans(g: Graph, a: string, b: string, c: string)
    requires IdReach(g, a, b) && IdReach(g, b, c)
    ensures IdReach(g, a, c)
  {
    var p :| IdPath(g, p) && p[0] == a && p[|p| - 1] == b;
    var q :| IdPath(g, q) && q[0] == b && q[|q| - 1] == c;
    var r := p + q[1..];
    forall k | 0 <= k < |r| - 1
      ensures EdgeIn(g, r[k], r[k + 1])
    {
      if k < |p| - 1 {
        assert r[k] == p[k] && r[k + 1] == p[k + 1];
      } else {
        assert r[k] == q[k - |p| + 1] && r[k + 1] == q[k - |p| + 2];
      }
    }
    assert IdPath(g, r);
  }

  lemma IdSccSame(g: Graph, a: string, b: string)
    requires IdMutual(g, a, b)
    ensures IdScc(g, a) == IdScc(g, b)
  {
    forall c | c in IdScc(g, a)
      ensures c in IdScc(g, b)
    {
      IdReachTrans(g, b, a, c);
      IdReachTrans(g, c, a, b);
    }
    forall c | c in IdScc(g, b)
      ensures c in IdScc(g, a)
    {
      IdReachTrans(g, a, b, c);
      IdReachTrans(g, c, b, a);
    }
  }

  /** The id components partition the ids: each is non-empty, every id lies
      in one, and two ids share a component exactly when they are mutually
      reachable. */
  lemma IdComponentsPartition(g: Graph)
    ensures forall c :: c in IdComponents(g) ==> c != {} && c <= AllNodeIds(g)
    ensures forall a :: a in AllNodeIds(g) ==> a in IdScc(g, a) && IdScc(g, a) in IdComponents(g)
    ensures forall c, a, b :: c in IdComponents(g) && a in c && b in c ==> IdMutual(g, a, b)
    ensures forall c, d :: c in IdComponents(g) && d in IdComponents(g) && c != d ==> c !! d
  {
    forall a | a in AllNodeIds(g)
      ensures a in IdScc(g, a)
    {
      IdReachRefl(g, a);
    }
    forall c, a, b | c in IdComponents(g) && a in c && b in c
      ensures IdMutual(g, a, b)
    {
      var x :| x in AllNodeIds(g) && c == IdScc(g, x);
      IdReachTrans(g, a, x, b);
      IdReachTrans(g, b, x, a);
    }
    forall c, d | c in IdComponents(g) && d in IdComponents(g) && c != d
      ensures c !! d
    {
      var x :| x in AllNodeIds(g) && c == IdScc(g, x);
      var y :| y in AllNodeIds(g) && d == IdScc(g, y);
      if z :| z in c && z in d {
        IdSccSame(g, x, z);
        IdSccSame(g, y, z);
      }
    }
  }

  /** A walk that goes somewhere starts at a declared Node. */
  lemma ReachLeavesDeclared(g: Graph, a: string, b: string)
    requires IdReach(g, a, b) && a != b
    ensures a in DeclaredIds(g)
  {
    var p :| IdPath(g, p) && p[0] == a && p[|p| - 1] == b;
    assert EdgeIn(g, p[0], p[1]);
    var m :| m in g && m.id == a && p[1] in m.childNodes;
    assert m.id in DeclaredIds(g);
  }

  /** ... and ends at a child id. */
  lemma ReachArrivesChild(g: Graph, a: string, b: string)
    requires IdReach(g, a, b) && a != b
    ensures b in ChildIds(g)
  {
    var p :| IdPath(g, p) && p[0] == a && p[|p| - 1] == b;
    var k := |p| - 2;
    assert EdgeIn(g, p[k], p[k + 1]);
    var m :| m in g && m.id == p[k] && b in m.childNodes;
  }

  /** An id no Node declares has no outgoing edge, so it reaches only itself
      and is a component on its own. */
  lemma DanglingSingleton(g: Graph, c: string)
    requires c in ChildIds(g) && c !in DeclaredIds(g)
    ensures forall b :: IdReach(g, c, b) ==> b == c
    ensures IdScc(g, c) == {c}
  {
    forall b | IdReach(g, c, b)
      ensures b == c
    {
      if b != c {
        ReachLeavesDeclared(g, c, b);
        assert false;
      }
    }
    IdReachRefl(g, c);
  }

  /** index is a bijection between the ids held in the arena and its slots. */
  ghost predicate Indexes(index: map<string, nat>, s: seq<TarjanNode>) {
    && (forall a :: a in index ==> KeyAt(index, s, a))
    && (forall i :: 0 <= i < |s| ==> SlotAt(index, s, i))
  }

  ghost predicate KeyAt(index: map<string, nat>, s: seq<TarjanNode>, a: string)
    requires a in index
  {
    index[a] < |s| && s[index[a]].id == a
  }

  ghost predicate SlotAt(index: map<string, nat>, s: seq<TarjanNode>, i: int)
    requires 0 <= i < |s|
  {
    s[i].id in index && index[s[i].id] == i
  }

  /** j is a successor of i exactly when the Node of i's id lists j's id. */
  ghost predicate LinkAt(P: set<Node>, s: seq<TarjanNode>, i: int, j: int)
    requires 0 <= i < |s| && 0 <= j < |s|
  {
    j in s[i].childNodes <==> EdgeIn(P, s[i].id, s[j].id)
  }

  /** The arena the solver hands to the engine for g: one unstamped node per
      id of g, no predecessors yet, and successor sets that are exactly the
      child lists of g. */
  ghost predicate Represents(g: Graph, s: seq<TarjanNode>) {
    && DistinctIds(s) && Unstamped(s)
    && (forall i :: 0 <= i < |s| ==> s[i].id in AllNodeIds(g) && s[i].parentNodes == {})
    && (forall a :: a in AllNodeIds(g) ==> exists i :: 0 <= i < |s| && s[i].id == a)
    && (forall i, j :: 0 <= i < |s| && j in s[i].childNodes ==> j < |s|)
    && (forall i, j :: 0 <= i < |s| && 0 <= j < |s| ==> LinkAt(g, s, i, j))
  }

  /** An empty Graph is represented only by the empty arena, a non-empty one
      only by a non-empty arena. */
  lemma RepresentsEmpty(g: Graph, s: seq<TarjanNode>)
    requires Represents(g, s)
    ensures |s| == 0 <==> g == {}
  {
    if g != {} {
      var n :| n in g;
      assert n.id in AllNodeIds(g);
      var i :| 0 <= i < |s| && s[i].id == n.id;
    }
    if |s| > 0 {
      var a := s[0].id;
      assert a in DeclaredIds(g) || a in ChildIds(g);
      if a in DeclaredIds(g) {
        var n :| n in g && n.id == a;
      } else {
        var n, c :| n in g && c in n.childNodes && c == a;
      }
    }
  }

  /** The slot of an id of g in a representing arena. */
  ghost function SlotOf(g: Graph, s: seq<TarjanNode>, a: string): (i: nat)
    requires Represents(g, s) && a in AllNodeIds(g)
    ensures i < |s| && s[i].id == a
  {
    var i :| 0 <= i < |s| && s[i].id == a; i
  }

  /** Arena paths read as id paths. */
  lemma PathToIds(g: Graph, s: seq<TarjanNode>, p: seq<nat>)
    requires Represents(g, s) && IsPath(ChildSeq(s), p)
    ensures IdPath(g, seq(|p|, k requires 0 <= k < |p| => s[p[k]].id))
  {
    var G := ChildSeq(s);
    var q := seq(|p|, k requires 0 <= k < |p| => s[p[k]].id);
    forall k | 0 <= k < |q| - 1
      ensures EdgeIn(g, q[k], q[k + 1])
    {
      assert p[k + 1] in G[p[k]];
      assert LinkAt(g, s, p[k], p[k + 1]);
    }
  }

  /** Id paths read as arena paths. */
  lemma PathToSlots(g: Graph, s: seq<TarjanNode>, q: seq<string>)
    requires Represents(g, s) && IdPath(g, q)
    ensures IsPath(ChildSeq(s), seq(|q|, k requires 0 <= k < |q| => SlotOf(g, s, q[k])))
  {
    var G := ChildSeq(s);
    var p := seq(|q|, k requires 0 <= k < |q| => SlotOf(g, s, q[k]));
    forall k | 0 <= k < |p| - 1
      ensures p[k + 1] in G[p[k]]
    {
      assert LinkAt(g, s, p[k], p[k + 1]);
    }
  }

  /** Reachability in a representing arena is reachability over ids. */
  lemma ReachIsIdReach(g: Graph, s: seq<TarjanNode>, i: nat, j: nat)
    requires Represents(g, s) && i < |s| && j < |s|
    ensures Reach(ChildSeq(s), i, j) <==> IdReach(g, s[i].id, s[j].id)
  {
    var G := ChildSeq(s);
    if Reach(G, i, j) {
      var p :| IsPath(G, p) && p[0] == i && p[|p| - 1] == j;
      PathToIds(g, s, p);
    }
    if IdReach(g, s[i].id, s[j].id) {
      var q :| IdPath(g, q) && q[0] == s[i].id && q[|q| - 1] == s[j].id;
      PathToSlots(g, s, q);
      assert SlotOf(g, s, q[0]) == i && SlotOf(g, s, q[|q| - 1]) == j;
    }
  }

  /** The ids of a set of slots. */
  ghost function IdsOf(s: seq<TarjanNode>, c: set<nat>): set<string> {
    set i | i in c && i < |s| :: s[i].id
  }

  /** The engine component of slot x carries exactly the id component of
      x's id. */
  lemma SccIds(g: Graph, s: seq<TarjanNode>, x: nat)
    requires Represents(g, s) && x < |s|
    ensures IdsOf(s, Scc(ChildSeq(s), x)) == IdScc(g, s[x].id)
  {
    var G := ChildSeq(s);
    forall b | b in IdsOf(s, Scc(G, x))
      ensures b in IdScc(g, s[x].id)
    {
      var y :| y in Scc(G, x) && y < |s| && s[y].id == b;
      ReachIsIdReach(g, s, x, y);
      ReachIsIdReach(g, s, y, x);
    }
    forall b | b in IdScc(g, s[x].id)
      ensures b in IdsOf(s, Scc(G, x))
    {
      var y := SlotOf(g, s, b);
      ReachIsIdReach(g, s, x, y);
      ReachIsIdReach(g, s, y, x);
      assert y in Scc(G, x);
    }
  }

  /** Mapping every component of an engine solution to its ids. */
  ghost function IdSets(s: seq<TarjanNode>, sol: set<set<nat>>): set<set<string>> {
    set c | c in sol :: IdsOf(s, c)
  }

  /** An engine partition of a representing arena, read through ids, is the
      family of id components of the Graph. */
  lemma SolutionIds(g: Graph, s: seq<TarjanNode>, sol: set<set<nat>>)
    requires Represents(g, s) && IsSccPartition(ChildSeq(s), sol)
    ensures IdSets(s, sol) == IdComponents(g)
  {
    var G := ChildSeq(s);
    SccPartitionUnique(G, sol);
    forall d | d in IdSets(s, sol)
      ensures d in IdComponents(g)
    {
      var c :| c in sol && d == IdsOf(s, c);
      var x :| 0 <= x < |s| && c == Scc(G, x);
      SccIds(g, s, x);
    }
    forall d | d in IdComponents(g)
      ensures d in IdSets(s, sol)
    {
      var a :| a in AllNodeIds(g) && d == IdScc(g, a);
      var x := SlotOf(g, s, a);
      SccIds(g, s, x);
      assert Scc(G, x) in sol;
    }
  }
}

/** The front end (class TarjanSolver, TarjanSolver.cpp): it turns a Graph of
    id-keyed Nodes into an arena of engine nodes, runs the engine, and turns
    the engine's components back into sets of ids. */
module TarjanSolvers {
  import opened Wrappers
  import opened DataStructure
  import opened Digraph
  import opened TarjanNodes
  import opened TarjanCoreAlgo
  import opened IdGraphs

  /** Every slot still holds a node as its constructor made it. */
  ghost predicate AllFresh(s: seq<TarjanNode>) {
    forall i :: 0 <= i < |s| ==> s[i] == NewTarjanNode(s[i].id)
  }

  lemma DeclaredIdsAdd(P: set<Node>, n: Node)
    ensures DeclaredIds(P + {n}) == DeclaredIds(P) + {n.id}
  {
    assert n.id in DeclaredIds(P + {n});
  }

  lemma ChildIdsAdd(P: set<Node>, n: Node)
    ensures ChildIds(P + {n}) == ChildIds(P) + n.childNodes
  {
    forall c | c in n.childNodes
      ensures c in ChildIds(P + {n})
    {
      assert n in P + {n};
    }
  }

  /** A Node's own id and its children's ids are ids of the Graph. */
  lemma IdsOfMember(g: set<Node>, n: Node)
    requires n in g
    ensures n.id in AllNodeIds(g) && forall c :: c in n.childNodes ==> c in AllNodeIds(g)
  {
    assert n.id in DeclaredIds(g);
    forall c | c in n.childNodes
      ensures c in ChildIds(g)
    {
    }
  }

  /** A Node not yet visited has an id no visited Node has. */
  lemma UnvisitedIdFree(g: Graph, todo: set<Node>, n: Node)
    requires todo <= g && n in todo
    ensures n.id !in DeclaredIds(g - todo)
  {
  }

  /** Giving a new id the next slot keeps the index a bijection. */
  lemma AddSlot(index: map<string, nat>, s: seq<TarjanNode>, a: string)
    requires Indexes(index, s) && AllFresh(s) && a !in index
    ensures Indexes(index[a := |s|], s + [NewTarjanNode(a)]) && AllFresh(s + [NewTarjanNode(a)])
  {
    var index', s' := index[a := |s|], s + [NewTarjanNode(a)];
    forall b | b in index'
      ensures KeyAt(index', s', b)
    {
      if b != a {
        assert KeyAt(index, s, b);
        assert s'[index[b]] == s[index[b]];
      }
    }
    forall i | 0 <= i < |s'|
      ensures SlotAt(index', s', i)
    {
      if i < |s| {
        assert SlotAt(index, s, i);
        assert s'[i] == s[i];
      }
    }
  }

  /** First loop of convertToCoreNodes_: a fresh engine node for every
      declared id. */
  method DeclareNodes(g: Graph) returns (index: map<string, nat>, arena: seq<TarjanNode>)
    ensures Indexes(index, arena) && AllFresh(arena)
    ensures forall a :: a in index <==> a in DeclaredIds(g)
  {
    index := map[];
    arena := [];
    var todo: set<Node> := g;
    while todo != {}
      invariant todo <= g
      invariant Indexes(index, arena) && AllFresh(arena)
      invariant forall a :: a in index <==> a in DeclaredIds(g - todo)
      decreases |todo|
    {
      var n :| n in todo;
      UnvisitedIdFree(g, todo, n);
      DeclaredIdsAdd(g - todo, n);
      assert g - (todo - {n}) == (g - todo) + {n};
      AddSlot(index, arena, n.id);
      index := index[n.id := |arena|];
      arena := arena + [NewTarjanNode(n.id)];
      todo := todo - {n};
    }
  }

  /** The body of the second loop for one child id: a fresh node unless the
      id already has one. */
  method AddSlotIfMissing(index0: map<string, nat>, arena0: seq<TarjanNode>, c: string)
    returns (index: map<string, nat>, arena: seq<TarjanNode>)
    requires Indexes(index0, arena0) && AllFresh(arena0)
    ensures Indexes(index, arena) && AllFresh(arena)
    ensures forall a :: a in index <==> a in index0 || a == c
  {
    index, arena := index0, arena0;
    if c !in index {
      AddSlot(index, arena, c);
      index := index[c := |arena|];
      arena := arena + [NewTarjanNode(c)];
    }
  }

  /** A fresh node for each id of kids that has none yet. */
  method AddSlots(index0: map<string, nat>, arena0: seq<TarjanNode>, kids0: set<string>)
    returns (index: map<string, nat>, arena: seq<TarjanNode>)
    requires Indexes(index0, arena0) && AllFresh(arena0)
    ensures Indexes(index, arena) && AllFresh(arena)
    ensures forall a :: a in index <==> a in index0 || a in kids0
  {
    index, arena := index0, arena0;
    var kids := kids0;
    while kids != {}
      invariant kids <= kids0
      invariant Indexes(index, arena) && AllFresh(arena)
      invariant forall a :: a in index <==> a in index0 || (a in kids0 && a !in kids)
      decreases |kids|
    {
      var c :| c in kids;
      index, arena := AddSlotIfMissing(index, arena, c);
      kids := kids - {c};
    }
  }

  /** Second loop: a fresh node for every child id that no Node declares. */
  method AddMissingChildren(g: Graph, index0: map<string, nat>, arena0: seq<TarjanNode>)
    returns (index: map<string, nat>, arena: seq<TarjanNode>)
    requires Indexes(index0, arena0) && AllFresh(arena0)
    requires forall a :: a in index0 <==> a in DeclaredIds(g)
    ensures Indexes(index, arena) && AllFresh(arena)
    ensures forall a :: a in index <==> a in AllNodeIds(g)
  {
    index, arena := index0, arena0;
    var todo: set<Node> := g;
    while todo != {}
      invariant todo <= g
      invariant Indexes(index, arena) && AllFresh(arena)
      invariant forall a :: a in index <==> a in DeclaredIds(g) || a in ChildIds(g - todo)
      decreases |todo|
    {
      var n :| n in todo;
      index, arena := AddSlots(index, arena, n.childNodes);
      ChildIdsAdd(g - todo, n);
      assert g - (todo - {n}) == (g - todo) + {n};
      todo := todo - {n};
    }
  }

  /** While the children of n are being linked: a successor link stands for
      a child listed by a finished Node, or by n among the children D done
      so far. */
  ghost predicate PartialLinkAt(P: set<Node>, n: Node, D: set<string>, s: seq<TarjanNode>, i: int, j: int)
    requires 0 <= i < |s| && 0 <= j < |s|
  {
    j in s[i].childNodes <==> EdgeIn(P, s[i].id, s[j].id) || (s[i].id == n.id && s[j].id in D)
  }

  ghost predicate PartiallyLinked(P: set<Node>, n: Node, D: set<string>, s: seq<TarjanNode>) {
    forall i, j :: 0 <= i < |s| && 0 <= j < |s| ==> PartialLinkAt(P, n, D, s, i, j)
  }

  ghost predicate LinkedBy(P: set<Node>, s: seq<TarjanNode>) {
    forall i, j :: 0 <= i < |s| && 0 <= j < |s| ==> LinkAt(P, s, i, j)
  }

  /** Only the successor sets differ, and those only within the arena. */
  ghost predicate SameSlots(index: map<string, nat>, s0: seq<TarjanNode>, s: seq<TarjanNode>) {
    && |s| == |s0| && Indexes(index, s)
    && (forall i :: 0 <= i < |s| ==> s[i] == s0[i].(childNodes := s[i].childNodes))
    && (forall i, j :: 0 <= i < |s| && j in s[i].childNodes ==> j < |s|)
  }

  lemma StartNode(P: set<Node>, n: Node, s: seq<TarjanNode>)
    requires LinkedBy(P, s)
    ensures PartiallyLinked(P, n, {}, s)
  {
    forall i, j | 0 <= i < |s| && 0 <= j < |s|
      ensures PartialLinkAt(P, n, {}, s, i, j)
    {
      assert LinkAt(P, s, i, j);
    }
  }

  /** Linking child c of n (slot u) to its slot v. */
  lemma LinkOne(index: map<string, nat>, P: set<Node>, n: Node, D: set<string>, s: seq<TarjanNode>, c: string)
    requires Indexes(index, s) && n.id in index && c in index
    requires PartiallyLinked(P, n, D, s)
    ensures PartiallyLinked(P, n, D + {c},
              s[index[n.id] := s[index[n.id]].(childNodes := s[index[n.id]].childNodes + {index[c]})])
  {
    var u, v := index[n.id], index[c];
    assert KeyAt(index, s, n.id) && KeyAt(index, s, c);
    var s' := s[u := s[u].(childNodes := s[u].childNodes + {v})];
    var D' := D + {c};
    forall i, j | 0 <= i < |s'| && 0 <= j < |s'|
      ensures PartialLinkAt(P, n, D', s', i, j)
    {
      assert PartialLinkAt(P, n, D, s, i, j);
      assert SlotAt(index, s, i) && SlotAt(index, s, j);
      assert s[j].id == c <==> j == v;
      assert s[i].id == n.id <==> i == u;
    }
  }

  lemma FinishNode(P: set<Node>, n: Node, s: seq<TarjanNode>)
    requires PartiallyLinked(P, n, n.childNodes, s)
    ensures LinkedBy(P + {n}, s)
  {
    forall i, j | 0 <= i < |s| && 0 <= j < |s|
      ensures LinkAt(P + {n}, s, i, j)
    {
      assert PartialLinkAt(P, n, n.childNodes, s, i, j);
      if s[i].id == n.id && s[j].id in n.childNodes {
        assert EdgeIn(P + {n}, s[i].id, s[j].id);
      }
      if EdgeIn(P + {n}, s[i].id, s[j].id) {
        var m :| m in P + {n} && m.id == s[i].id && s[j].id in m.childNodes;
      }
    }
  }

  lemma SameSlotsLink(index: map<string, nat>, s0: seq<TarjanNode>, s: seq<TarjanNode>, u: nat, v: nat)
    requires SameSlots(index, s0, s) && u < |s| && v < |s|
    ensures SameSlots(index, s0, s[u := s[u].(childNodes := s[u].childNodes + {v})])
  {
    var s' := s[u := s[u].(childNodes := s[u].childNodes + {v})];
    forall i | 0 <= i < |s'|
      ensures s'[i] == s0[i].(childNodes := s'[i].childNodes)
    {
      assert s[i] == s0[i].(childNodes := s[i].childNodes);
    }
    forall a | a in index
      ensures KeyAt(index, s', a)
    {
      assert KeyAt(index, s, a);
    }
    forall i | 0 <= i < |s'|
      ensures SlotAt(index, s', i)
    {
      assert SlotAt(index, s, i);
    }
  }

  /** The children of one Node n become successor links of its engine node. */
  method LinkNode(index: map<string, nat>, arena0: seq<TarjanNode>, s: seq<TarjanNode>, ghost P: set<Node>, n: Node)
    returns (arena: seq<TarjanNode>)
    requires SameSlots(index, arena0, s) && LinkedBy(P, s)
    requires n.id in index && forall c :: c in n.childNodes ==> c in index
    ensures SameSlots(index, arena0, arena) && LinkedBy(P + {n}, arena)
  {
    arena := s;
    var u := index[n.id];
    StartNode(P, n, arena);
    var kids := n.childNodes;
    assert n.childNodes - kids == {};
    while kids != {}
      invariant kids <= n.childNodes
      invariant SameSlots(index, arena0, arena) && PartiallyLinked(P, n, n.childNodes - kids, arena)
      decreases |kids|
    {
      var c :| c in kids;
      // every child id has a node, so the "Cannot find id" failure cannot happen
      var v := index[c];
      LinkOne(index, P, n, n.childNodes - kids, arena, c);
      SameSlotsLink(index, arena0, arena, u, v);
      arena := arena[u := arena[u].(childNodes := arena[u].childNodes + {v})];
      assert n.childNodes - (kids - {c}) == (n.childNodes - kids) + {c};
      kids := kids - {c};
    }
    assert n.childNodes - kids == n.childNodes;
    FinishNode(P, n, arena);
  }

  lemma LinkedRepresents(g: Graph, index: map<string, nat>, arena0: seq<TarjanNode>, s: seq<TarjanNode>)
    requires AllFresh(arena0) && (forall a :: a in index <==> a in AllNodeIds(g))
    requires SameSlots(index, arena0, s) && LinkedBy(g, s)
    ensures Represents(g, s)
  {
    forall i | 0 <= i < |s|
      ensures s[i].nom == 0 && s[i].denom == 0 && s[i].parentNodes == {} && s[i].id in AllNodeIds(g)
    {
      assert SlotAt(index, s, i);
      assert s[i] == arena0[i].(childNodes := s[i].childNodes);
      assert arena0[i] == NewTarjanNode(arena0[i].id);
    }
    forall a | a in AllNodeIds(g)
      ensures exists i :: 0 <= i < |s| && s[i].id == a
    {
      assert KeyAt(index, s, a);
    }
    forall i, j | 0 <= i < |s| && 0 <= j < |s| && s[i].id == s[j].id
      ensures i == j
    {
      assert SlotAt(index, s, i) && SlotAt(index, s, j);
    }
    forall i, j | 0 <= i < |s| && 0 <= j < |s|
      ensures LinkAt(g, s, i, j)
    {
    }
  }

  /** Before the third loop: nothing is linked yet. */
  lemma LinkStart(index: map<string, nat>, arena0: seq<TarjanNode>)
    requires Indexes(index, arena0) && AllFresh(arena0)
    ensures SameSlots(index, arena0, arena0) && LinkedBy({}, arena0)
  {
    forall i, j | 0 <= i < |arena0| && 0 <= j < |arena0|
      ensures LinkAt({}, arena0, i, j)
    {
      assert arena0[i] == NewTarjanNode(arena0[i].id);
    }
  }

  /** Third loop: every child id of every Node becomes a successor link from
      that Node's engine node. */
  method LinkChildren(g: Graph, index: map<string, nat>, arena0: seq<TarjanNode>) returns (arena: seq<TarjanNode>)
    requires Indexes(index, arena0) && AllFresh(arena0) && (forall a :: a in index <==> a in AllNodeIds(g))
    ensures Represents(g, arena)
  {
    arena := arena0;
    var todo: set<Node> := g;
    ghost var done: set<Node> := {};
    LinkStart(index, arena0);
    while todo != {}
      invariant done + todo == g
      invariant SameSlots(index, arena0, arena) && LinkedBy(done, arena)
      decreases |todo|
    {
      var n :| n in todo;
      assert n.id in index && forall c :: c in n.childNodes ==> c in index by {
        IdsOfMember(g, n);
      }
      arena := LinkNode(index, arena0, arena, done, n);
      done := done + {n};
      todo := todo - {n};
    }
    LinkedRepresents(g, index, arena0, arena);
  }

  /** The inner loop of convertFromCoreNodes_: the ids of one component. */
  method ComponentIds(s: seq<TarjanNode>, c: set<nat>) returns (ids: set<string>)
    requires forall i :: i in c ==> i < |s|
    ensures ids == IdsOf(s, c)
  {
    ids := {};
    var rest := c;
    while rest != {}
      invariant rest <= c
      invariant ids == IdsOf(s, c - rest)
      decreases |rest|
    {
      var i :| i in rest;
      ids := ids + {s[i].id};
      rest := rest - {i};
    }
    assert c - rest == c;
  }

  lemma IdsOfEmpty(s: seq<TarjanNode>, c: set<nat>)
    requires forall i :: i in c ==> i < |s|
    ensures IdsOf(s, c) == {} <==> c == {}
  {
    if c != {} {
      var i :| i in c;
      assert s[i].id in IdsOf(s, c);
    }
  }

  lemma IdSetsAdd(s: seq<TarjanNode>, sol: set<set<nat>>, c: set<nat>)
    ensures IdSets(s, sol + {c}) == IdSets(s, sol) + {IdsOf(s, c)}
  {
    assert IdsOf(s, c) in IdSets(s, sol + {c});
  }

  class TarjanSolver {
    const graph: Graph                    // mGraph
    var isSolved: bool
    var allTarjanNodes: seq<TarjanNode>   // mAllTarjanNodes
    var tarjanSolution: set<set<nat>>     // mTarjanSolution, as arena slots
    var solution: set<set<string>>        // mSolution

    /** Before a successful solve no engine node is held (an empty Graph
        converts to none); after one, the held arena represents the Graph and
        the cached components partition it. */
    ghost predicate Valid()
      reads this
    {
      && (!isSolved ==> allTarjanNodes == [])
      && (isSolved ==> Represents(graph, allTarjanNodes) && IsSccPartition(ChildSeq(allTarjanNodes), tarjanSolution))
    }

    constructor (allNodes: Graph)
      ensures Valid() && graph == allNodes && !isSolved
      ensures allTarjanNodes == [] && tarjanSolution == {} && solution == {}
    {
      graph := allNodes;
      isSolved := false;
      allTarjanNodes := [];
      tarjanSolution := {};
      solution := {};
    }

    /** convertToCoreNodes_: builds the id-to-node map in three loops, then
        moves its nodes into the (still empty) member collection. It cannot
        fail. */
    method ConvertToCoreNodes() returns (ok: bool)
      requires allTarjanNodes == []
      modifies this`allTarjanNodes
      ensures ok && Represents(graph, allTarjanNodes)
    {
      var index, arena := DeclareNodes(graph);
      index, arena := AddMissingChildren(graph, index, arena);
      arena := LinkChildren(graph, index, arena);
      assert allTarjanNodes + arena == arena;
      allTarjanNodes := allTarjanNodes + arena;
      ok := true;
    }

    /** solve: converts, runs the engine and caches its components on
        success; returns false exactly when the Graph is empty; once solved,
        further calls return true and change nothing. */
    method Solve() returns (ok: bool)
      requires Valid()
      modifies this`isSolved, this`allTarjanNodes, this`tarjanSolution
      ensures Valid() && ok == isSolved
      ensures old(isSolved) ==> ok && unchanged(this)
      ensures !old(isSolved) ==> (ok <==> graph != {})
    {
      if !isSolved {
        var converted := ConvertToCoreNodes();
        if !converted {
          return false;
        }
        RepresentsEmpty(graph, allTarjanNodes);
        var core := new TarjanCore(allTarjanNodes);
        isSolved := core.Solve();
        if isSolved {
          var r := core.GetSolution();
          tarjanSolution := r.value;
        }
      }
      ok := isSolved;
    }

    /** convertFromCoreNodes_: each component becomes the set of its ids; an
        empty component makes it fail. */
    method ConvertFromCoreNodes() returns (ok: bool)
      requires forall c, i :: c in tarjanSolution && i in c ==> i < |allTarjanNodes|
      modifies this`solution
      ensures ok <==> {} !in tarjanSolution
      ensures ok ==> solution == IdSets(allTarjanNodes, tarjanSolution)
    {
      solution := {};
      var todo := tarjanSolution;
      while todo != {}
        invariant todo <= tarjanSolution
        invariant {} !in tarjanSolution - todo
        invariant solution == IdSets(allTarjanNodes, tarjanSolution - todo)
        decreases |todo|
      {
        var c :| c in todo;
        var oneSolution := ComponentIds(allTarjanNodes, c);
        IdsOfEmpty(allTarjanNodes, c);
        if |oneSolution| == 0 {
          return false;
        }
        IdSetsAdd(allTarjanNodes, tarjanSolution - todo, c);
        assert tarjanSolution - (todo - {c}) == (tarjanSolution - todo) + {c};
        solution := solution + {oneSolution};
        todo := todo - {c};
      }
      ok := true;
    }

    /** getSolution: before a successful solve there is no fresh result;
        after one, the components of the Graph as sets of ids. */
    method GetSolution() returns (r: Option<set<set<string>>>)
      requires Valid()
      modifies this`solution
      ensures r.Some? <==> isSolved
      ensures isSolved ==> r == Some(IdComponents(graph)) && solution == IdComponents(graph)
      ensures !isSolved ==> solution == old(solution)
    {
      if !isSolved {
        return None;
      }
      var converted := ConvertFromCoreNodes();
      if !converted {
        r := Some({});
      } else {
        SolutionIds(graph, allTarjanNodes, tarjanSolution);
        r := Some(solution);
      }
    }
  }
}

/** The SCC engine (class TarjanCore, TarjanCore.cpp and TarjanCoreAlgo.cpp).

    Despite its name the engine runs Kosaraju's two passes: it rebuilds every
    node's predecessor set, stamps the nodes by a depth-first search over
    successor edges, lists them by finish stamp (descending), and then
    collects each component by a search over predecessor edges that skips
    nodes already grouped. Nodes live in an arena: a node is its index. */
module TarjanCoreAlgo {
  import opened Wrappers
  import opened Digraph
  import opened TarjanNodes
  import opened DfsNumbering

  /** The successor sets of an arena, as a graph. */
  ghost function ChildSeq(s: seq<TarjanNode>): (g: seq<set<nat>>)
    ensures |g| == |s| && forall i :: 0 <= i < |s| ==> g[i] == s[i].childNodes
  {
    seq(|s|, i requires 0 <= i < |s| => s[i].childNodes)
  }

  /** No node has been stamped yet. */
  ghost predicate Unstamped(s: seq<TarjanNode>) {
    forall i :: 0 <= i < |s| ==> s[i].nom == 0 && s[i].denom == 0
  }

  ghost predicate DistinctIds(s: seq<TarjanNode>) {
    forall i, j :: 0 <= i < |s| && 0 <= j < |s| && s[i].id == s[j].id ==> i == j
  }

  /** Each node's predecessor set is exactly the set of nodes listing it as a
      successor. */
  ghost predicate ParentsReverse(s: seq<TarjanNode>) {
    forall x, p: nat :: 0 <= x < |s| ==> ParentAt(s, x, p)
  }

  ghost predicate ParentAt(s: seq<TarjanNode>, x: int, p: nat)
    requires 0 <= x < |s|
  {
    p in s[x].parentNodes <==> p < |s| && x in s[p].childNodes
  }

  ghost predicate SameBesidesParentsAt(s0: seq<TarjanNode>, s: seq<TarjanNode>, j: int)
    requires 0 <= j < |s0| == |s|
  {
    s[j] == s0[j].(parentNodes := s[j].parentNodes)
  }

  /** s differs from s0 at most in the predecessor sets. */
  ghost predicate SameBesidesParents(s0: seq<TarjanNode>, s: seq<TarjanNode>) {
    |s0| == |s| && forall j :: 0 <= j < |s| ==> SameBesidesParentsAt(s0, s, j)
  }

  lemma SameBesidesParentsRefl(s: seq<TarjanNode>)
    ensures SameBesidesParents(s, s)
  {
    forall j | 0 <= j < |s|
      ensures SameBesidesParentsAt(s, s, j)
    {
    }
  }

  lemma SameBesidesParentsUpdate(s0: seq<TarjanNode>, s: seq<TarjanNode>, c: nat, ps: set<nat>)
    requires SameBesidesParents(s0, s) && c < |s|
    ensures SameBesidesParents(s0, s[c := s[c].(parentNodes := ps)])
  {
    var s' := s[c := s[c].(parentNodes := ps)];
    forall j | 0 <= j < |s'|
      ensures SameBesidesParentsAt(s0, s', j)
    {
      assert SameBesidesParentsAt(s0, s, j);
    }
  }

  lemma UnstampedKept(s0: seq<TarjanNode>, s: seq<TarjanNode>)
    requires SameBesidesParents(s0, s) && Unstamped(s0)
    ensures Unstamped(s)
  {
    forall j | 0 <= j < |s|
      ensures s[j].nom == 0 && s[j].denom == 0
    {
      assert SameBesidesParentsAt(s0, s, j);
    }
  }

  /** Pass 1 leaves the predecessor sets as they were. */
  lemma ParentsKept(s0: seq<TarjanNode>, s: seq<TarjanNode>, k: int)
    requires ParentsReverse(s0) && Preserves(s0, s, k)
    ensures ParentsReverse(s)
  {
    forall x, p: nat | 0 <= x < |s|
      ensures ParentAt(s, x, p)
    {
      assert ParentAt(s0, x, p) && KeptAt(s0, s, k, x);
      if p < |s| {
        assert KeptAt(s0, s, k, p);
      }
    }
  }

  ghost predicate LinkedAt(s: seq<TarjanNode>, i: nat, extra: set<nat>, x: int, p: nat)
    requires 0 <= x < |s| && i <= |s|
  {
    p in s[x].parentNodes <==> (p < i && x in s[p].childNodes) || (p == i && x in extra)
  }

  /** The predecessor sets record exactly the edges out of nodes 0..i-1, plus
      the edges from i to the nodes in extra. */
  ghost predicate LinkedUpTo(s: seq<TarjanNode>, i: nat, extra: set<nat>) {
    i <= |s| && forall x, p: nat :: 0 <= x < |s| ==> LinkedAt(s, i, extra, x, p)
  }

  /** Adding i to the predecessors of its successor c. */
  lemma LinkStep(s: seq<TarjanNode>, i: nat, extra: set<nat>, c: nat)
    requires LinkedUpTo(s, i, extra) && i < |s| && c < |s| && c !in extra
    ensures LinkedUpTo(s[c := s[c].(parentNodes := s[c].parentNodes + {i})], i, extra + {c})
  {
    var s' := s[c := s[c].(parentNodes := s[c].parentNodes + {i})];
    var extra' := extra + {c};
    forall x, p: nat | 0 <= x < |s'|
      ensures LinkedAt(s', i, extra', x, p)
    {
      assert LinkedAt(s, i, extra, x, p);
      if p < i {
        assert s'[p].childNodes == s[p].childNodes;
      }
    }
  }

  lemma LinkAdvance(s: seq<TarjanNode>, i: nat)
    requires i < |s| && LinkedUpTo(s, i, s[i].childNodes)
    ensures LinkedUpTo(s, i + 1, {})
  {
    var i' := i + 1;
    forall x, p: nat | 0 <= x < |s|
      ensures LinkedAt(s, i', {}, x, p)
    {
      assert LinkedAt(s, i, s[i].childNodes, x, p);
    }
  }

  lemma LinkDone(s: seq<TarjanNode>)
    requires LinkedUpTo(s, |s|, {})
    ensures ParentsReverse(s)
  {
    forall x, p: nat | 0 <= x < |s|
      ensures ParentAt(s, x, p)
    {
      assert LinkedAt(s, |s|, {}, x, p);
    }
  }

  /** list holds each index 0..n-1 exactly once. */
  ghost predicate IsOrdering(list: seq<nat>, n: nat) {
    && |list| == n
    && (forall i :: 0 <= i < |list| ==> list[i] < n)
    && (forall x: nat :: x in list <==> x < n)
    && (forall i, j :: 0 <= i < j < |list| ==> list[i] != list[j])
  }

  /** compare_denom order: no later entry finished after an earlier one. */
  ghost predicate DescendingByDenom(s: seq<TarjanNode>, list: seq<nat>) {
    forall i, j :: 0 <= i < j < |list| ==> list[i] < |s| && list[j] < |s| && s[list[i]].denom >= s[list[j]].denom
  }

  /** The nodes whose id has been recorded as visited. */
  ghost function Grouped(s: seq<TarjanNode>, visited: set<string>): set<nat> {
    set i: nat | i < |s| && s[i].id in visited
  }

  ghost function AllIds(s: seq<TarjanNode>): set<string> {
    set i | 0 <= i < |s| :: s[i].id
  }

  ghost predicate MatchAt(s: seq<TarjanNode>, children: seq<set<nat>>, ids: seq<string>, i: int)
    requires 0 <= i < |s| == |children| == |ids|
  {
    s[i].childNodes == children[i] && s[i].id == ids[i]
  }

  /** Node i carries the successor set children[i] and the id ids[i]. */
  ghost predicate Matches(s: seq<TarjanNode>, children: seq<set<nat>>, ids: seq<string>) {
    |s| == |children| == |ids| && forall i :: 0 <= i < |s| ==> MatchAt(s, children, ids, i)
  }

  lemma MatchesUpdate(s: seq<TarjanNode>, children: seq<set<nat>>, ids: seq<string>, u: nat, v: TarjanNode)
    requires Matches(s, children, ids) && u < |s| && v.id == s[u].id && v.childNodes == s[u].childNodes
    ensures Matches(s[u := v], children, ids)
  {
    var s' := s[u := v];
    forall i | 0 <= i < |s|
      ensures MatchAt(s', children, ids, i)
    {
      assert MatchAt(s, children, ids, i);
    }
  }

  lemma MatchesPreserved(s0: seq<TarjanNode>, s1: seq<TarjanNode>, k: int, children: seq<set<nat>>, ids: seq<string>)
    requires Matches(s0, children, ids) && Preserves(s0, s1, k)
    ensures Matches(s1, children, ids)
  {
    forall i | 0 <= i < |s1|
      ensures MatchAt(s1, children, ids, i)
    {
      assert MatchAt(s0, children, ids, i) && KeptAt(s0, s1, k, i);
    }
  }

  lemma IdsDistinct(s: seq<TarjanNode>, children: seq<set<nat>>, ids: seq<string>)
    requires Matches(s, children, ids)
    requires forall i, j :: 0 <= i < |ids| && 0 <= j < |ids| && ids[i] == ids[j] ==> i == j
    ensures DistinctIds(s)
  {
    forall i, j | 0 <= i < |s| && 0 <= j < |s| && s[i].id == s[j].id
      ensures i == j
    {
      assert MatchAt(s, children, ids, i) && MatchAt(s, children, ids, j);
    }
  }

  /** Marking x's id visited groups x and nothing else. */
  lemma GroupedAdd(s: seq<TarjanNode>, visited: set<string>, x: nat)
    requires DistinctIds(s) && x < |s|
    ensures Grouped(s, visited + {s[x].id}) == Grouped(s, visited) + {x}
  {
  }

  /** Components found so far: each non-empty and the component of each of
      its members, with union G. */
  ghost predicate FoundComponents(g: seq<set<nat>>, sol: set<set<nat>>, G: set<nat>) {
    && (forall c :: c in sol ==> c != {})
    && (forall c, x :: c in sol && x in c ==> x < |g| && c == Scc(g, x))
    && (forall x: nat :: x in G <==> Covered(sol, x))
  }

  /** The step of pass 2 that makes it correct: when the grouped nodes G are
      closed under predecessors and r finishes last among the ungrouped nodes,
      r's component does not meet G and holds every ungrouped node reaching r. */
  lemma RootComponent(g: seq<set<nat>>, s: seq<TarjanNode>, k: int, log: seq<Stamp>, tp: map<nat, nat>, G: set<nat>, r: nat)
    requires DfsInv(g, s, k, log, tp) && AllBlack(s) && PredClosed(g, G)
    requires r < |s| && r !in G
    requires forall a :: 0 <= a < |s| && a !in G ==> s[a].denom <= s[r].denom
    ensures Scc(g, r) !! G
    ensures forall t: nat :: t !in G && Reach(g, t, r) ==> t in Scc(g, r)
  {
    forall y | y in Scc(g, r)
      ensures y !in G
    {
      ReachBackClosed(g, G, r, y);
    }
    forall t: nat | t !in G && Reach(g, t, r)
      ensures t in Scc(g, r)
    {
      ComponentFinishesLast(g, s, k, log, tp, t, r);
      var a: nat :| a < |s| && Mutual(g, t, a) && s[r].denom <= s[a].denom;
      ReachBackClosed(g, G, t, a);
      DenomsDistinct(g, s, k, log, tp, a, r);
      ReachInRange(g, t, r);
    }
  }

  ghost predicate ReachAllAt(g: seq<set<nat>>, N: set<nat>, x: nat, t: nat) {
    t in N ==> Reach(g, t, x)
  }

  /** Every node of N reaches x. */
  ghost predicate ReachAll(g: seq<set<nat>>, N: set<nat>, x: nat) {
    forall t: nat :: ReachAllAt(g, N, x, t)
  }

  ghost predicate ParentsWithinAt(s: seq<TarjanNode>, N: set<nat>, G: set<nat>, x: nat, todo: set<nat>, t: nat, p: nat) {
    t in N && t < |s| && p in s[t].parentNodes ==> p in G || (t == x && p in todo)
  }

  /** Every predecessor of a node of N lies in G, except the predecessors of x
      still to be tried (todo). */
  ghost predicate ParentsWithin(s: seq<TarjanNode>, N: set<nat>, G: set<nat>, x: nat, todo: set<nat>) {
    forall t: nat, p: nat :: ParentsWithinAt(s, N, G, x, todo, t, p)
  }

  /** One iteration of the predecessor loop of pass 2: once the search from
      a predecessor p of x has grouped G2 - G1, everything grouped since the
      search from x began (G2 - G0) still reaches x, and every predecessor of it
      is grouped, except the predecessors of x still to be tried. */
  lemma CollectStep(g: seq<set<nat>>, s: seq<TarjanNode>, G0: set<nat>, G1: set<nat>, G2: set<nat>, x: nat, p: nat, todo: set<nat>)
    requires G0 <= G1 <= G2 && p in todo && p in G2 && Reach(g, p, x)
    requires ReachAll(g, G1 - G0, x) && ParentsWithin(s, G1 - G0, G1, x, todo)
    requires ReachAll(g, G2 - G1, p) && ParentsWithin(s, G2 - G1, G2, p, {})
    ensures ReachAll(g, G2 - G0, x) && ParentsWithin(s, G2 - G0, G2, x, todo - {p})
  {
    forall t: nat
      ensures ReachAllAt(g, G2 - G0, x, t)
    {
      assert ReachAllAt(g, G1 - G0, x, t) && ReachAllAt(g, G2 - G1, p, t);
      if t in G2 - G1 {
        ReachTrans(g, t, p, x);
      }
    }
    forall t: nat, q: nat
      ensures ParentsWithinAt(s, G2 - G0, G2, x, todo - {p}, t, q)
    {
      assert ParentsWithinAt(s, G1 - G0, G1, x, todo, t, q);
      assert ParentsWithinAt(s, G2 - G1, G2, p, {}, t, q);
    }
  }

  /** The search from x begins by grouping x alone. */
  lemma StartSearch(g: seq<set<nat>>, s: seq<TarjanNode>, G0: set<nat>, x: nat)
    requires x < |g| && x < |s| && x !in G0
    ensures ReachAll(g, (G0 + {x}) - G0, x)
    ensures ParentsWithin(s, (G0 + {x}) - G0, G0 + {x}, x, s[x].parentNodes)
  {
    ReachRefl(g, x);
    forall t: nat
      ensures ReachAllAt(g, (G0 + {x}) - G0, x, t)
    {
    }
    forall t: nat, p: nat
      ensures ParentsWithinAt(s, (G0 + {x}) - G0, G0 + {x}, x, s[x].parentNodes, t, p)
    {
    }
  }

  /** The nodes one pass-2 search groups, when it starts from such an r, are
      exactly r's component, and the grouped nodes stay closed under
      predecessors. */
  lemma NewComponent(g: seq<set<nat>>, s: seq<TarjanNode>, ids: seq<string>, sol: set<set<nat>>, G: set<nat>, G': set<nat>, r: nat)
    requires Closed(g) && Matches(s, g, ids) && ParentsReverse(s)
    requires FoundComponents(g, sol, G) && PredClosed(g, G)
    requires G <= G' && r in G' && r !in G && r < |s|
    requires ReachAll(g, G' - G, r) && ParentsWithin(s, G' - G, G', r, {})
    requires Scc(g, r) !! G
    requires forall t: nat :: t !in G && Reach(g, t, r) ==> t in Scc(g, r)
    ensures G' - G == Scc(g, r)
    ensures PredClosed(g, G')
    ensures FoundComponents(g, sol + {G' - G}, G')
  {
    forall i, j | 0 <= i < |g| && j in g[i] && j in G'
      ensures i in G'
    {
      if j !in G {
        assert MatchAt(s, g, ids, i) && ParentAt(s, j, i);
        assert ParentsWithinAt(s, G' - G, G', r, {}, j, i);
      }
    }
    forall y | y in Scc(g, r)
      ensures y in G'
    {
      ReachBackClosed(g, G', y, r);
    }
    var N := G' - G;
    forall t | t in N
      ensures t in Scc(g, r)
    {
      assert ReachAllAt(g, N, r, t);
    }
    assert N == Scc(g, r);
    forall x | x in N
      ensures x < |g| && N == Scc(g, x)
    {
      SccSame(g, r, x);
    }
    forall x: nat
      ensures x in G' <==> Covered(sol + {N}, x)
    {
      if x in N {
        assert x in N && N in sol + {N};
      }
    }
  }

  /** One iteration of pass 2, from r = list[j]: a grouped r yields nothing;
      otherwise the search yields r's component, and the grouped nodes stay a
      union of components closed under predecessors. */
  lemma SolutionStep(g: seq<set<nat>>, s: seq<TarjanNode>, ids: seq<string>, k: int, log: seq<Stamp>, tp: map<nat, nat>,
                     list: seq<nat>, j: nat, sol: set<set<nat>>, G: set<nat>, G': set<nat>, oneSol: set<nat>)
    requires DfsInv(g, s, k, log, tp) && AllBlack(s) && Matches(s, g, ids) && ParentsReverse(s)
    requires IsOrdering(list, |s|) && DescendingByDenom(s, list)
    requires j < |list| && forall m :: 0 <= m < j ==> list[m] in G
    requires FoundComponents(g, sol, G) && PredClosed(g, G)
    requires G <= G' && list[j] in G'
    requires list[j] in G ==> G' == G && oneSol == {}
    requires list[j] !in G ==> oneSol == G' - G && ReachAll(g, G' - G, list[j]) && ParentsWithin(s, G' - G, G', list[j], {})
    ensures FoundComponents(g, if oneSol != {} then sol + {oneSol} else sol, G') && PredClosed(g, G')
    ensures forall m :: 0 <= m <= j ==> list[m] in G'
    ensures list[j] !in G ==> oneSol == Scc(g, list[j])
  {
    var r := list[j];
    if r !in G {
      forall a | 0 <= a < |s| && a !in G
        ensures s[a].denom <= s[r].denom
      {
        assert a in list;
        var m :| 0 <= m < |list| && list[m] == a;
      }
      RootComponent(g, s, k, log, tp, G, r);
      NewComponent(g, s, ids, sol, G, G', r);
    }
  }

  /** Once every node of the list is grouped, the components found partition
      the arena. */
  lemma AllGrouped(g: seq<set<nat>>, list: seq<nat>, sol: set<set<nat>>, G: set<nat>)
    requires IsOrdering(list, |g|) && (forall m :: 0 <= m < |list| ==> list[m] in G)
    requires FoundComponents(g, sol, G)
    ensures IsSccPartition(g, sol)
  {
    forall x: nat | x < |g|
      ensures Covered(sol, x)
    {
      assert x in list;
      var m :| 0 <= m < |list| && list[m] == x;
    }
  }

  /** After pass 1 a permutation of the arena sorted by compare_denom is
      strictly descending by finish stamp. */
  lemma FirstIterListStrict(g: seq<set<nat>>, s: seq<TarjanNode>, k: int, log: seq<Stamp>, tp: map<nat, nat>, list: seq<nat>)
    requires DfsInv(g, s, k, log, tp) && AllBlack(s)
    requires IsOrdering(list, |s|) && DescendingByDenom(s, list)
    ensures forall i, j :: 0 <= i < j < |list| ==> s[list[i]].denom > s[list[j]].denom
  {
    forall i, j | 0 <= i < j < |list|
      ensures s[list[i]].denom > s[list[j]].denom
    {
      DenomsDistinct(g, s, k, log, tp, list[i], list[j]);
    }
  }

  class TarjanCore {
    var nodes: seq<TarjanNode>          // mAllNodes
    var isSolved: bool
    var solution: set<set<nat>>         // mSolution: each component as a set of arena indices
    var firstIterList: seq<nat>         // mFirstIterList
    var nomIndex: int                   // mNomIndex, the stamp counter
    ghost var log: seq<Stamp>           // what each counter value stamped
    ghost var tp: map<nat, nat>         // tree parent of each node entered from a child loop
    ghost const Children: seq<set<nat>>
    ghost const Ids: seq<string>

    /** The ids and successor sets, which no operation changes. */
    ghost predicate Wired()
      reads this
    {
      && |nodes| == |Children| == |Ids| && Closed(Children)
      && Matches(nodes, Children, Ids)
      && (forall i, j :: 0 <= i < |Ids| && 0 <= j < |Ids| && Ids[i] == Ids[j] ==> i == j)
    }

    /** What a successful solve establishes. */
    ghost predicate Solved()
      reads this
    {
      && Wired()
      && |nodes| > 0
      && ParentsReverse(nodes)
      && DfsInv(Children, nodes, nomIndex, log, tp) && AllBlack(nodes)
      && IsOrdering(firstIterList, |nodes|) && DescendingByDenom(nodes, firstIterList)
      && IsSccPartition(Children, solution)
    }

    ghost predicate Valid()
      reads this
    {
      && Wired()
      && (!isSolved ==> Unstamped(nodes))
      && (isSolved ==> Solved())
    }

    /** The engine takes a collection of unstamped nodes whose successors all
        belong to the collection, with one node per id. */
    constructor (allNodes: seq<TarjanNode>)
      requires Unstamped(allNodes) && Closed(ChildSeq(allNodes)) && DistinctIds(allNodes)
      ensures Valid() && Children == ChildSeq(allNodes)
      ensures Ids == seq(|allNodes|, i requires 0 <= i < |allNodes| => allNodes[i].id)
      ensures nodes == allNodes && !isSolved && nomIndex == 0
      ensures solution == {} && firstIterList == []
    {
      nodes := allNodes;
      isSolved := false;
      nomIndex := 0;
      solution := {};
      firstIterList := [];
      log := [];
      tp := map[];
      Children := ChildSeq(allNodes);
      Ids := seq(|allNodes|, i requires 0 <= i < |allNodes| => allNodes[i].id);
    }

    /** Rebuilds every predecessor set from the successor sets, discarding
        whatever the predecessor sets held before. */
    method GenerateParentNodes()
      requires Wired()
      modifies this`nodes
      ensures Wired() && SameBesidesParents(old(nodes), nodes)
      ensures ParentsReverse(nodes)
    {
      var i := 0;
      SameBesidesParentsRefl(nodes);
      while i < |nodes|
        invariant 0 <= i <= |nodes| && Wired() && SameBesidesParents(old(nodes), nodes)
        invariant forall j :: 0 <= j < i ==> nodes[j].parentNodes == {}
      {
        MatchesUpdate(nodes, Children, Ids, i, nodes[i].(parentNodes := {}));
        SameBesidesParentsUpdate(old(nodes), nodes, i, {});
        nodes := nodes[i := nodes[i].(parentNodes := {})];
        i := i + 1;
      }
      forall x, p: nat | 0 <= x < |nodes|
        ensures LinkedAt(nodes, 0, {}, x, p)
      {
        assert nodes[x].parentNodes == {};
      }
      i := 0;
      while i < |nodes|
        invariant 0 <= i <= |nodes|
        invariant Wired() && SameBesidesParents(old(nodes), nodes)
        invariant LinkedUpTo(nodes, i, {})
      {
        var todo := nodes[i].childNodes;
        assert MatchAt(nodes, Children, Ids, i);
        assert nodes[i].childNodes - todo == {};
        while todo != {}
          invariant i < |nodes| && Wired() && SameBesidesParents(old(nodes), nodes)
          invariant todo <= nodes[i].childNodes
          invariant LinkedUpTo(nodes, i, nodes[i].childNodes - todo)
          decreases todo
        {
          var c :| c in todo;
          assert MatchAt(nodes, Children, Ids, i);
          MatchesUpdate(nodes, Children, Ids, c, nodes[c].(parentNodes := nodes[c].parentNodes + {i}));
          SameBesidesParentsUpdate(old(nodes), nodes, c, nodes[c].parentNodes + {i});
          LinkStep(nodes, i, nodes[i].childNodes - todo, c);
          assert (nodes[i].childNodes - todo) + {c} == nodes[i].childNodes - (todo - {c});
          todo := todo - {c};
          nodes := nodes[c := nodes[c].(parentNodes := nodes[c].parentNodes + {i})];
        }
        assert nodes[i].childNodes - todo == nodes[i].childNodes;
        LinkAdvance(nodes, i);
        i := i + 1;
      }
      LinkDone(nodes);
    }

    /** Pre-increments the counter: the first stamp handed out is 1. */
    method NextIndex() returns (r: int)
      modifies this`nomIndex
      ensures nomIndex == old(nomIndex) + 1 && r == nomIndex
    {
      nomIndex := nomIndex + 1;
      r := nomIndex;
    }

    /** Pass 1 from u (updateNodeFirstIter_): a finished node is left alone;
        otherwise u is stamped on entry, every unstamped successor is visited
        in turn, and u is stamped again on exit. The caller never passes a
        node whose visit is still open, and every open node reaches u. */
    method UpdateNodeFirstIter(u: nat)
      requires Wired() && DfsInv(Children, nodes, nomIndex, log, tp)
      requires u < |nodes| && !Grey(nodes[u]) && GreysReach(Children, nodes, u)
      modifies this`nodes, this`nomIndex, this`log, this`tp
      ensures Wired() && DfsInv(Children, nodes, nomIndex, log, tp)
      ensures Preserves(old(nodes), nodes, old(nomIndex)) && old(nomIndex) <= nomIndex
      ensures Black(nodes[u])
      ensures White(old(nodes)[u]) ==> nodes[u].nom == old(nomIndex) + 1 && nodes[u].denom == nomIndex
      ensures (forall c :: c in old(tp) ==> c in tp) && TreeCovered(old(nodes), nodes, tp, u)
      decreases WhiteSet(nodes), 0
    {
      if nodes[u].HasNom() && nodes[u].HasDenom() {
        PreservesRefl(nodes, nomIndex);
        TreeCoveredRefl(nodes, tp, u);
        return;
      }
      ghost var s0, k0 := nodes, nomIndex;
      assert ColourAt(s0, u);
      DiscoverKeepsInv(Children, nodes, nomIndex, log, tp, u);
      DiscoverWhites(nodes, nomIndex + 1, u);
      MatchesUpdate(nodes, Children, Ids, u, nodes[u].(nom := nomIndex + 1));
      var k := NextIndex();
      nodes := nodes[u := nodes[u].(nom := k)];
      log := log + [Enter(u)];
      ghost var s1 := nodes;
      VisitChildren(u, s0, s1, k0);
      FinishNode(u, s0, s1, k0);
    }

    /** The exit stamp of updateNodeFirstIter_, once the child loop is done
        (s0 before u was entered at k0 + 1, s1 just after): u gets denom from
        the counter, and the whole visit, measured from s0, keeps earlier
        stamps, finishes u and gives a tree parent to every other node it
        stamped. */
    method FinishNode(u: nat, ghost s0: seq<TarjanNode>, ghost s1: seq<TarjanNode>, ghost k0: int)
      requires Wired() && DfsInv(Children, nodes, nomIndex, log, tp)
      requires u < |s0| && k0 >= 0 && White(s0[u]) && s0[u].denom == 0 && Bounded(s0, k0)
      requires s1 == s0[u := s0[u].(nom := k0 + 1)] && k0 + 1 <= nomIndex && Preserves(s1, nodes, k0 + 1)
      requires Children[u] !! WhiteSet(nodes) && TreeCovered(s1, nodes, tp, u)
      modifies this`nodes, this`nomIndex, this`log
      ensures Wired() && DfsInv(Children, nodes, nomIndex, log, tp)
      ensures Preserves(s0, nodes, k0) && k0 < nomIndex
      ensures Black(nodes[u]) && nodes[u].nom == k0 + 1 && nodes[u].denom == nomIndex
      ensures TreeCovered(s0, nodes, tp, u)
    {
      GreysOlder(s0, s1, nodes, k0, u);
      assert KeptAt(s1, nodes, k0 + 1, u);
      FinishKeepsInv(Children, nodes, nomIndex, log, tp, u);
      MatchesUpdate(nodes, Children, Ids, u, nodes[u].(denom := nomIndex + 1));
      ghost var s2 := nodes;
      var d := NextIndex();
      nodes := nodes[u := nodes[u].(denom := d)];
      log := log + [Leave(u)];
      VisitPreserves(s0, s1, s2, k0, d, u);
      TreeCoveredEnds(s0, s1, s2, tp, u, s1[u], s2[u].(denom := d));
    }

    /** The loop of updateNodeFirstIter_ over u's children, just after u was
        entered (s0 before, s1 after its entry stamp): each child still
        unstamped is visited, and becomes u's tree child. */
    method VisitChildren(u: nat, ghost s0: seq<TarjanNode>, ghost s1: seq<TarjanNode>, ghost k0: int)
      requires Wired() && DfsInv(Children, nodes, nomIndex, log, tp)
      requires u < |s0| && k0 >= 0 && White(s0[u]) && s0[u].denom == 0 && GreysReach(Children, s0, u)
      requires s1 == s0[u := s0[u].(nom := k0 + 1)] && nodes == s1 && nomIndex == k0 + 1
      modifies this`nodes, this`nomIndex, this`log, this`tp
      ensures Wired() && DfsInv(Children, nodes, nomIndex, log, tp)
      ensures k0 + 1 <= nomIndex && Preserves(s1, nodes, k0 + 1)
      ensures Children[u] !! WhiteSet(nodes)
      ensures (forall c :: c in old(tp) ==> c in tp) && TreeCovered(s1, nodes, tp, u)
      decreases WhiteSet(nodes), 1
    {
      PreservesRefl(s1, k0 + 1);
      TreeCoveredRefl(s1, tp, u);
      var todo := nodes[u].childNodes;
      assert MatchAt(nodes, Children, Ids, u);
      while todo != {}
        invariant Wired() && DfsInv(Children, nodes, nomIndex, log, tp)
        invariant todo <= Children[u] && k0 + 1 <= nomIndex
        invariant Preserves(s1, nodes, k0 + 1)
        invariant (Children[u] - todo) !! WhiteSet(nodes)
        invariant (forall c :: c in old(tp) ==> c in tp) && TreeCovered(s1, nodes, tp, u)
        decreases todo
      {
        var c :| c in todo;
        todo := todo - {c};
        if !nodes[c].HasNom() {
          GreysReachChild(Children, s0, s1, nodes, k0 + 1, u, c);
          PreservesWhites(s1, nodes, k0 + 1);
          ghost var s2, k2, tp2 := nodes, nomIndex, tp;
          UpdateNodeFirstIter(c);
          TreeCoveredStep(s1, s2, nodes, tp2, tp, u, c);
          PreservesTrans(s1, s2, nodes, k0 + 1, k2);
          PreservesWhites(s2, nodes, k2);
          assert KeptAt(s1, nodes, k0 + 1, u);
          TreeEdgeKeepsInv(Children, nodes, nomIndex, log, tp, u, c);
          tp := tp[c := u];
        }
      }
    }

    /** Orders the arena by finish stamp, descending (the partial_sort_copy
        with compare_denom over all nodes), by insertion. */
    static method SortByDenom(s: seq<TarjanNode>) returns (list: seq<nat>)
      ensures IsOrdering(list, |s|) && DescendingByDenom(s, list)
    {
      list := [];
      var i := 0;
      while i < |s|
        invariant 0 <= i <= |s|
        invariant IsOrdering(list, i) && DescendingByDenom(s, list)
      {
        var j := 0;
        while j < |list| && s[list[j]].denom >= s[i].denom
          invariant 0 <= j <= |list|
          invariant forall m :: 0 <= m < j ==> s[list[m]].denom >= s[i].denom
        {
          j := j + 1;
        }
        InsertKeepsOrder(s, list, i, j);
        list := list[..j] + [i] + list[j..];
        i := i + 1;
      }
    }

    static lemma InsertKeepsOrder(s: seq<TarjanNode>, list: seq<nat>, i: nat, j: nat)
      requires i < |s| && j <= |list| && IsOrdering(list, i) && DescendingByDenom(s, list)
      requires forall m :: 0 <= m < j ==> s[list[m]].denom >= s[i].denom
      requires j < |list| ==> s[list[j]].denom < s[i].denom
      ensures IsOrdering(list[..j] + [i] + list[j..], i + 1)
      ensures DescendingByDenom(s, list[..j] + [i] + list[j..])
    {
      var r := list[..j] + [i] + list[j..];
      InsertAt(list, i, j);
      forall a, b | 0 <= a < b < |r|
        ensures r[a] < |s| && r[b] < |s| && s[r[a]].denom >= s[r[b]].denom
      {
        if a == j && j < b - 1 {
          assert s[list[j]].denom >= s[list[b - 1]].denom;
        }
      }
    }

    /** Inserting a new index i at position j of an ordering of 0..i-1. */
    static lemma InsertAt(list: seq<nat>, i: nat, j: nat)
      requires j <= |list| && IsOrdering(list, i)
      ensures IsOrdering(list[..j] + [i] + list[j..], i + 1)
      ensures forall a :: 0 <= a < |list| + 1 ==>
        (list[..j] + [i] + list[j..])[a] == if a < j then list[a] else if a == j then i else list[a - 1]
    {
      var r := list[..j] + [i] + list[j..];
      InsertIndex(list, i, j);
      forall x: nat
        ensures x in r <==> x < i + 1
      {
        if x < i {
          assert x in list;
          var a :| 0 <= a < |list| && list[a] == x;
          assert r[if a < j then a else a + 1] == x;
        } else if x == i {
          assert r[j] == x;
        }
      }
    }

    /** Where each entry of list lands once i is inserted at position j. */
    static lemma InsertIndex(list: seq<nat>, i: nat, j: nat)
      requires j <= |list|
      ensures forall a :: 0 <= a < |list| + 1 ==>
        (list[..j] + [i] + list[j..])[a] == if a < j then list[a] else if a == j then i else list[a - 1]
    {
      var r := list[..j] + [i] + list[j..];
      forall a | 0 <= a < |list| + 1
        ensures r[a] == if a < j then list[a] else if a == j then i else list[a - 1]
      {
        if a < j {
          assert r[a] == list[..j][a];
        } else if a > j {
          assert r[a] == list[j..][a - j - 1];
        }
      }
    }

    /** Pass 1 over the whole arena (generateFirstIterList_): the counter is
        reset, every node is visited from the top level in turn, and the nodes
        are listed by finish stamp, descending. */
    method GenerateFirstIterList()
      requires Wired() && Unstamped(nodes)
      modifies this`nodes, this`nomIndex, this`log, this`tp, this`firstIterList
      ensures Wired() && DfsInv(Children, nodes, nomIndex, log, tp) && AllBlack(nodes)
      ensures Preserves(old(nodes), nodes, 0)
      ensures IsOrdering(firstIterList, |nodes|) && DescendingByDenom(nodes, firstIterList)
      ensures forall c :: c in tp ==> c < |nodes| && tp[c] < |nodes| && c in Children[tp[c]] && Encloses(nodes, tp[c], c)
      ensures forall c :: 0 <= c < |nodes| ==> (c in tp <==> exists a :: 0 <= a < |nodes| && Encloses(nodes, a, c))
    {
      firstIterList := [];
      nomIndex := 0;
      log, tp := [], map[];
      InitialInv(Children, nodes);
      RootsInitial(nodes);
      PreservesRefl(nodes, 0);
      ghost var s0 := nodes;
      var i := 0;
      while i < |nodes|
        invariant 0 <= i <= |nodes|
        invariant Wired() && DfsInv(Children, nodes, nomIndex, log, tp)
        invariant Preserves(s0, nodes, 0) && NoGrey(nodes) && BlackBelow(nodes, i)
        invariant Roots(nodes, tp)
      {
        NoGreyReach(Children, nodes, i);
        ghost var s1, k1, tp1 := nodes, nomIndex, tp;
        UpdateNodeFirstIter(i);
        PreservesTrans(s0, s1, nodes, 0, k1);
        PreservesSettled(s1, nodes, k1, i);
        RootsStep(s1, nodes, tp1, tp, k1, i);
        i := i + 1;
      }
      TreeParentsExact(Children, nodes, nomIndex, log, tp);
      firstIterList := SortByDenom(nodes);
    }

    /** Pass 2 from x (generateSolutionSetParentHelper_): a node whose id was
        already visited is skipped; otherwise x joins the component, its id is
        marked visited, and every predecessor is tried in turn. The nodes it
        groups all reach x, and every predecessor of a node it groups ends up
        grouped. */
    method CollectParents(x: nat, sol: set<nat>, visited: set<string>) returns (sol': set<nat>, visited': set<string>)
      requires Wired() && ParentsReverse(nodes) && x < |nodes|
      ensures visited <= visited' <= visited + AllIds(nodes)
      ensures sol' == sol + (Grouped(nodes, visited') - Grouped(nodes, visited))
      ensures x in Grouped(nodes, visited')
      ensures nodes[x].id in visited ==> sol' == sol && visited' == visited
      ensures ReachAll(Children, Grouped(nodes, visited') - Grouped(nodes, visited), x)
      ensures ParentsWithin(nodes, Grouped(nodes, visited') - Grouped(nodes, visited), Grouped(nodes, visited'), x, {})
      decreases AllIds(nodes) - visited
    {
      if nodes[x].id in visited {
        return sol, visited;
      }
      ghost var G0 := Grouped(nodes, visited);
      IdsDistinct(nodes, Children, Ids);
      GroupedAdd(nodes, visited, x);
      assert nodes[x].id in AllIds(nodes);
      sol' := sol + {x};
      visited' := visited + {nodes[x].id};
      var todo := nodes[x].parentNodes;
      StartSearch(Children, nodes, G0, x);
      while todo != {}
        invariant visited + {nodes[x].id} <= visited' <= visited + AllIds(nodes)
        invariant todo <= nodes[x].parentNodes
        invariant G0 <= Grouped(nodes, visited') && x in Grouped(nodes, visited')
        invariant sol' == sol + (Grouped(nodes, visited') - G0)
        invariant ReachAll(Children, Grouped(nodes, visited') - G0, x)
        invariant ParentsWithin(nodes, Grouped(nodes, visited') - G0, Grouped(nodes, visited'), x, todo)
        decreases todo
      {
        var p :| p in todo;
        ghost var todo0 := todo;
        todo := todo - {p};
        assert p in nodes[x].parentNodes && ParentAt(nodes, x, p);
        assert MatchAt(nodes, Children, Ids, p);
        ReachEdge(Children, p, x);
        ghost var G1 := Grouped(nodes, visited');
        var sol2, visited2 := CollectParents(p, sol', visited');
        CollectStep(Children, nodes, G0, G1, Grouped(nodes, visited2), x, p, todo0);
        sol', visited' := sol2, visited2;
      }
    }

    /** Pass 2 (generateSolutionSet_): the nodes are taken in first-iteration
        order and each one not yet grouped collects its component. */
    method GenerateSolutionSet()
      requires Wired() && ParentsReverse(nodes)
      requires DfsInv(Children, nodes, nomIndex, log, tp) && AllBlack(nodes)
      requires IsOrdering(firstIterList, |nodes|) && DescendingByDenom(nodes, firstIterList)
      requires solution == {}
      modifies this`solution
      ensures IsSccPartition(Children, solution)
    {
      var visited: set<string> := {};
      var j := 0;
      while j < |firstIterList|
        invariant 0 <= j <= |firstIterList|
        invariant FoundComponents(Children, solution, Grouped(nodes, visited))
        invariant PredClosed(Children, Grouped(nodes, visited))
        invariant forall m :: 0 <= m < j ==> firstIterList[m] in Grouped(nodes, visited)
      {
        var r := firstIterList[j];
        ghost var G := Grouped(nodes, visited);
        var oneSolution, visited' := CollectParents(r, {}, visited);
        SolutionStep(Children, nodes, Ids, nomIndex, log, tp, firstIterList, j, solution, G, Grouped(nodes, visited'), oneSolution);
        visited := visited';
        if oneSolution != {} {
          solution := solution + {oneSolution};
        }
        j := j + 1;
      }
      AllGrouped(Children, firstIterList, solution, Grouped(nodes, visited));
    }

    /** solve: on the first call the solution is cleared, the three phases
        run, and success is recorded exactly when some component was found,
        which happens exactly when the arena is non-empty; once solved, further
        calls return true and change nothing. */
    method Solve() returns (ok: bool)
      requires Valid()
      modifies this`nodes, this`nomIndex, this`log, this`tp, this`firstIterList, this`solution, this`isSolved
      ensures Valid() && ok == isSolved
      ensures old(isSolved) ==> ok && unchanged(this)
      ensures !old(isSolved) ==> (ok <==> |nodes| > 0)
      ensures ok ==> IsSccPartition(Children, solution)
    {
      if !isSolved {
        solution := {};
        GenerateParentNodes();
        UnstampedKept(old(nodes), nodes);
        ghost var s1 := nodes;
        GenerateFirstIterList();
        ParentsKept(s1, nodes, 0);
        GenerateSolutionSet();
        SccPartitionEmpty(Children, solution);
        isSolved := |solution| > 0;
      }
      ok := isSolved;
    }

    /** getSolution: the components after a successful solve, and no fresh
        result before one. */
    method GetSolution() returns (r: Option<set<set<nat>>>)
      requires Valid()
      ensures r.Some? <==> isSolved
      ensures isSolved ==> r == Some(solution)
      ensures r.Some? ==> IsSccPartition(Children, r.value)
    {
      if !isSolved {
        r := None;
      } else {
        r := Some(solution);
      }
    }
  }
}

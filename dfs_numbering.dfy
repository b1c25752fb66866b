/** The invariant of the engine's first pass (updateNodeFirstIter_ in
    TarjanCoreAlgo.cpp), a depth-first search that stamps every node with a
    discovery number (nom) and a finish number (denom) from one shared counter.

    A node is white before its discovery, grey while its subtree is being
    explored and black once it is finished. The lemmas show that discovering
    and finishing a node keep the invariant, and that the invariant over a
    fully numbered arena yields the property the second pass relies on: a node
    v reachable from u never finishes later than every node of u's component.

    Each clause of the invariant is stated per index (the ...At predicates),
    so that a proof instantiates it only where it names it. */
module DfsNumbering {
  import opened Digraph
  import opened TarjanNodes

  /** One tick of the counter: which node it stamped, and with which stamp. */
  datatype Stamp = Enter(node: nat) | Leave(node: nat)

  predicate White(v: TarjanNode) { !v.HasNom() }
  predicate Grey(v: TarjanNode) { v.HasNom() && !v.HasDenom() }
  predicate Black(v: TarjanNode) { v.HasNom() && v.HasDenom() }

  /** x's [nom, denom] interval lies inside a's. */
  ghost predicate Nested(s: seq<TarjanNode>, a: nat, x: nat)
    requires a < |s| && x < |s|
  {
    s[a].nom <= s[x].nom && s[x].denom <= s[a].denom
  }

  ghost function Entered(s: seq<TarjanNode>): set<nat> {
    set i: nat | i < |s| && s[i].nom > 0
  }

  ghost function Finished(s: seq<TarjanNode>): set<nat> {
    set i: nat | i < |s| && s[i].denom > 0
  }

  ghost predicate ColourAt(s: seq<TarjanNode>, i: int)
    requires 0 <= i < |s|
  {
    s[i].nom >= 0 && s[i].denom >= 0 && (s[i].denom > 0 ==> 0 < s[i].nom < s[i].denom)
  }

  /** Stamps are never negative, and a finish stamp follows the discovery stamp. */
  ghost predicate Colours(s: seq<TarjanNode>) {
    forall i :: 0 <= i < |s| ==> ColourAt(s, i)
  }

  ghost predicate BelowAt(s: seq<TarjanNode>, k: int, i: int)
    requires 0 <= i < |s|
  {
    s[i].nom <= k && s[i].denom <= k
  }

  /** No stamp exceeds the counter k. */
  ghost predicate Bounded(s: seq<TarjanNode>, k: int) {
    forall i :: 0 <= i < |s| ==> BelowAt(s, k, i)
  }

  ghost predicate ApartAt(s: seq<TarjanNode>, i: int, j: int)
    requires 0 <= i < |s| && 0 <= j < |s|
  {
    (s[i].nom > 0 ==> s[i].nom != s[j].nom && s[i].nom != s[j].denom) &&
    (s[i].denom > 0 ==> s[i].denom != s[j].denom)
  }

  /** No two nodes share a stamp (a node's own nom < denom is part of Colours). */
  ghost predicate StampsDistinct(s: seq<TarjanNode>) {
    forall i, j :: 0 <= i < |s| && 0 <= j < |s| && i != j ==> ApartAt(s, i, j)
  }

  ghost predicate LogAt(s: seq<TarjanNode>, log: seq<Stamp>, t: int)
    requires 0 <= t < |log|
  {
    log[t].node < |s| &&
    (if log[t].Enter? then s[log[t].node].nom == t + 1 else s[log[t].node].denom == t + 1)
  }

  /** log[t] records which node counter value t + 1 stamped, and how. */
  ghost predicate LogMatches(s: seq<TarjanNode>, log: seq<Stamp>) {
    forall t :: 0 <= t < |log| ==> LogAt(s, log, t)
  }

  /** With the stamps bounded by k, pairwise distinct and counted, the stamps
      in use are exactly 1..k, each used once. */
  ghost predicate StampLog(s: seq<TarjanNode>, k: int, log: seq<Stamp>) {
    && |log| == k
    && LogMatches(s, log)
    && Bounded(s, k)
    && StampsDistinct(s)
    && k == |Entered(s)| + |Finished(s)|
  }

  /** How an edge from a finished node v to w can look: w was discovered, and
      either finished no later than v, or is an ancestor enclosing v. */
  predicate EdgeOk(v: TarjanNode, w: TarjanNode) {
    !White(w) &&
    ((Black(w) && w.denom <= v.denom) || (w.nom <= v.nom && (Grey(w) || v.denom <= w.denom)))
  }

  ghost predicate BlackEdgesAt(g: seq<set<nat>>, s: seq<TarjanNode>, x: int)
    requires |s| == |g| && 0 <= x < |s|
  {
    Black(s[x]) ==> forall y :: y in g[x] ==> y < |s| && EdgeOk(s[x], s[y])
  }

  ghost predicate BlackEdges(g: seq<set<nat>>, s: seq<TarjanNode>)
    requires |s| == |g|
  {
    forall x :: 0 <= x < |s| ==> BlackEdgesAt(g, s, x)
  }

  ghost predicate LaminarAt(s: seq<TarjanNode>, x: int, y: int)
    requires 0 <= x < |s| && 0 <= y < |s|
  {
    Black(s[x]) && Black(s[y]) ==>
      s[x].denom < s[y].nom || s[y].denom < s[x].nom || Nested(s, x, y) || Nested(s, y, x)
  }

  /** Parenthesis structure: two finished intervals are disjoint or nested. */
  ghost predicate Laminar(s: seq<TarjanNode>) {
    forall x, y :: 0 <= x < |s| && 0 <= y < |s| ==> LaminarAt(s, x, y)
  }

  ghost predicate GreyBlackAt(s: seq<TarjanNode>, a: int, x: int)
    requires 0 <= a < |s| && 0 <= x < |s|
  {
    Grey(s[a]) && Black(s[x]) ==> s[x].denom < s[a].nom || s[a].nom < s[x].nom
  }

  /** A finished node either finished before a grey node was discovered, or was
      discovered after it (and so lies in its subtree). */
  ghost predicate GreyBlack(s: seq<TarjanNode>) {
    forall a, x :: 0 <= a < |s| && 0 <= x < |s| ==> GreyBlackAt(s, a, x)
  }

  ghost predicate AncestryAt(g: seq<set<nat>>, s: seq<TarjanNode>, a: int, x: int)
    requires 0 <= a < |s| && 0 <= x < |s|
  {
    (!White(s[a]) && !White(s[x]) && s[a].nom <= s[x].nom &&
     (Grey(s[a]) || (Black(s[x]) && s[x].denom <= s[a].denom)))
    ==> Reach(g, a, x)
  }

  /** An enclosing interval (or a grey node discovered earlier) belongs to an
      ancestor, which reaches the enclosed node. */
  ghost predicate Ancestry(g: seq<set<nat>>, s: seq<TarjanNode>) {
    forall a, x :: 0 <= a < |s| && 0 <= x < |s| ==> AncestryAt(g, s, a, x)
  }

  ghost predicate TreeEdgeAt(g: seq<set<nat>>, s: seq<TarjanNode>, tp: map<nat, nat>, c: nat)
    requires |s| == |g| && c in tp
  {
    c < |s| && tp[c] < |s| && c in g[tp[c]] && !White(s[c]) && !White(s[tp[c]]) &&
    s[tp[c]].nom < s[c].nom &&
    (Grey(s[c]) ==> Grey(s[tp[c]])) &&
    (Black(s[c]) && Black(s[tp[c]]) ==> s[c].denom < s[tp[c]].denom)
  }

  /** tp[c] is the node whose child loop first entered c: the parent's interval
      strictly encloses the child's. */
  ghost predicate TreeEdges(g: seq<set<nat>>, s: seq<TarjanNode>, tp: map<nat, nat>)
    requires |s| == |g|
  {
    forall c :: c in tp ==> TreeEdgeAt(g, s, tp, c)
  }

  ghost predicate DfsInv(g: seq<set<nat>>, s: seq<TarjanNode>, k: int, log: seq<Stamp>, tp: map<nat, nat>) {
    && |s| == |g| && Closed(g)
    && Colours(s)
    && StampLog(s, k, log)
    && BlackEdges(g, s)
    && Laminar(s)
    && GreyBlack(s)
    && Ancestry(g, s)
    && TreeEdges(g, s, tp)
  }

  /** The state before the first pass: nothing stamped, counter at 0. */
  lemma InitialInv(g: seq<set<nat>>, s: seq<TarjanNode>)
    requires |s| == |g| && Closed(g)
    requires forall i :: 0 <= i < |s| ==> s[i].nom == 0 && s[i].denom == 0
    ensures DfsInv(g, s, 0, [], map[])
  {
    assert Entered(s) == {};
    assert Finished(s) == {};
  }

  ghost predicate GreyReachesAt(g: seq<set<nat>>, s: seq<TarjanNode>, a: int, u: nat)
    requires 0 <= a < |s|
  {
    Grey(s[a]) ==> Reach(g, a, u)
  }

  /** Every node whose visit is open reaches u. */
  ghost predicate GreysReach(g: seq<set<nat>>, s: seq<TarjanNode>, u: nat) {
    forall a :: 0 <= a < |s| ==> GreyReachesAt(g, s, a, u)
  }

  /** Discovering a white node that every grey node reaches keeps the invariant. */
  lemma DiscoverKeepsInv(g: seq<set<nat>>, s: seq<TarjanNode>, k: int, log: seq<Stamp>, tp: map<nat, nat>, u: nat)
    requires DfsInv(g, s, k, log, tp) && u < |s| && White(s[u]) && GreysReach(g, s, u)
    ensures DfsInv(g, s[u := s[u].(nom := k + 1)], k + 1, log + [Enter(u)], tp)
  {
    assert ColourAt(s, u);
    DiscoverStampLog(s, k, log, u);
    DiscoverBlackEdges(g, s, k, u);
    DiscoverLaminar(s, k, u);
    DiscoverGreyBlack(s, k, u);
    DiscoverAncestry(g, s, k, u);
    DiscoverTreeEdges(g, s, k, tp, u);
  }

  lemma DiscoverStampLog(s: seq<TarjanNode>, k: int, log: seq<Stamp>, u: nat)
    requires Colours(s) && StampLog(s, k, log) && u < |s| && s[u].nom == 0 && s[u].denom == 0
    ensures Colours(s[u := s[u].(nom := k + 1)])
    ensures StampLog(s[u := s[u].(nom := k + 1)], k + 1, log + [Enter(u)])
  {
    var s' := s[u := s[u].(nom := k + 1)];
    forall i | 0 <= i < |s'|
      ensures ColourAt(s', i)
    {
      if i != u {
        assert ColourAt(s, i);
      }
    }
    DiscoverLog(s, k, log, u);
    DiscoverDistinct(s, k, u);
    DiscoverCounts(s, k, u);
  }

  lemma DiscoverCounts(s: seq<TarjanNode>, k: int, u: nat)
    requires u < |s| && s[u].nom == 0 && s[u].denom == 0 && k >= 0
    ensures |Entered(s[u := s[u].(nom := k + 1)])| == |Entered(s)| + 1
    ensures Finished(s[u := s[u].(nom := k + 1)]) == Finished(s)
  {
    var s' := s[u := s[u].(nom := k + 1)];
    assert Entered(s') == Entered(s) + {u};
    assert u !in Entered(s);
  }

  lemma DiscoverLog(s: seq<TarjanNode>, k: int, log: seq<Stamp>, u: nat)
    requires LogMatches(s, log) && |log| == k && u < |s| && s[u].nom == 0
    ensures LogMatches(s[u := s[u].(nom := k + 1)], log + [Enter(u)])
  {
    var s' := s[u := s[u].(nom := k + 1)];
    var log' := log + [Enter(u)];
    forall t | 0 <= t < |log'|
      ensures LogAt(s', log', t)
    {
      if t < |log| {
        assert LogAt(s, log, t);
        assert log'[t] == log[t];
        if log[t].node == u {
          assert log[t].Leave?;
        }
      }
    }
  }

  lemma DiscoverDistinct(s: seq<TarjanNode>, k: int, u: nat)
    requires StampsDistinct(s) && Bounded(s, k) && u < |s| && s[u].nom == 0 && s[u].denom == 0
    ensures StampsDistinct(s[u := s[u].(nom := k + 1)]) && Bounded(s[u := s[u].(nom := k + 1)], k + 1)
  {
    var s' := s[u := s[u].(nom := k + 1)];
    forall i, j | 0 <= i < |s'| && 0 <= j < |s'| && i != j
      ensures ApartAt(s', i, j)
    {
      if i != u && j != u {
        assert ApartAt(s, i, j);
      } else if i == u {
        assert BelowAt(s, k, j);
      } else {
        assert BelowAt(s, k, i);
      }
    }
    var k' := k + 1;
    forall i | 0 <= i < |s'|
      ensures BelowAt(s', k', i)
    {
      assert BelowAt(s, k, i);
    }
  }

  lemma DiscoverBlackEdges(g: seq<set<nat>>, s: seq<TarjanNode>, k: int, u: nat)
    requires |s| == |g| && BlackEdges(g, s) && u < |s| && s[u].nom == 0 && s[u].denom == 0
    ensures BlackEdges(g, s[u := s[u].(nom := k + 1)])
  {
    var s' := s[u := s[u].(nom := k + 1)];
    forall x | 0 <= x < |s'|
      ensures BlackEdgesAt(g, s', x)
    {
      if x != u {
        assert BlackEdgesAt(g, s, x);
        if Black(s[x]) {
          forall y | y in g[x]
            ensures y < |s'| && EdgeOk(s'[x], s'[y])
          {
            assert y != u;
          }
        }
      }
    }
  }

  lemma DiscoverLaminar(s: seq<TarjanNode>, k: int, u: nat)
    requires Laminar(s) && u < |s| && s[u].denom == 0
    ensures Laminar(s[u := s[u].(nom := k + 1)])
  {
    var s' := s[u := s[u].(nom := k + 1)];
    forall x, y | 0 <= x < |s'| && 0 <= y < |s'|
      ensures LaminarAt(s', x, y)
    {
      if x != u && y != u {
        assert LaminarAt(s, x, y);
      }
    }
  }

  lemma DiscoverGreyBlack(s: seq<TarjanNode>, k: int, u: nat)
    requires GreyBlack(s) && Bounded(s, k) && u < |s| && s[u].denom == 0
    ensures GreyBlack(s[u := s[u].(nom := k + 1)])
  {
    var s' := s[u := s[u].(nom := k + 1)];
    forall a, x | 0 <= a < |s'| && 0 <= x < |s'|
      ensures GreyBlackAt(s', a, x)
    {
      if x != u {
        if a != u {
          assert GreyBlackAt(s, a, x);
        } else {
          assert BelowAt(s, k, x);
        }
      }
    }
  }

  lemma DiscoverAncestry(g: seq<set<nat>>, s: seq<TarjanNode>, k: int, u: nat)
    requires |s| == |g| && Ancestry(g, s) && Bounded(s, k) && u < |s| && s[u].nom == 0 && s[u].denom == 0
    requires GreysReach(g, s, u)
    ensures Ancestry(g, s[u := s[u].(nom := k + 1)])
  {
    var s' := s[u := s[u].(nom := k + 1)];
    forall a, x | 0 <= a < |s'| && 0 <= x < |s'|
      ensures AncestryAt(g, s', a, x)
    {
      if x == u {
        if a == u {
          ReachRefl(g, u);
        } else {
          assert GreyReachesAt(g, s, a, u);
        }
      } else if a == u {
        assert BelowAt(s, k, x);
      } else {
        assert AncestryAt(g, s, a, x);
      }
    }
  }

  lemma DiscoverTreeEdges(g: seq<set<nat>>, s: seq<TarjanNode>, k: int, tp: map<nat, nat>, u: nat)
    requires |s| == |g| && TreeEdges(g, s, tp) && u < |s| && White(s[u])
    ensures TreeEdges(g, s[u := s[u].(nom := k + 1)], tp)
  {
    var s' := s[u := s[u].(nom := k + 1)];
    forall c | c in tp
      ensures TreeEdgeAt(g, s', tp, c)
    {
      assert TreeEdgeAt(g, s, tp, c);
    }
  }

  ghost predicate OlderAt(s: seq<TarjanNode>, a: int, u: nat)
    requires 0 <= a < |s| && u < |s|
  {
    a != u && Grey(s[a]) ==> s[a].nom < s[u].nom
  }

  /** Every other open node was discovered before u. */
  ghost predicate GreysOlderThan(s: seq<TarjanNode>, u: nat)
    requires u < |s|
  {
    forall a :: 0 <= a < |s| ==> OlderAt(s, a, u)
  }

  /** Every successor of u has been discovered. */
  ghost predicate ChildrenDone(g: seq<set<nat>>, s: seq<TarjanNode>, u: nat)
    requires u < |g|
  {
    forall c :: c in g[u] ==> c !in WhiteSet(s)
  }

  /** Finishing a grey node, once all its successors are discovered and it is
      the most recently discovered grey node, keeps the invariant. */
  lemma FinishKeepsInv(g: seq<set<nat>>, s: seq<TarjanNode>, k: int, log: seq<Stamp>, tp: map<nat, nat>, u: nat)
    requires DfsInv(g, s, k, log, tp) && u < |s| && Grey(s[u])
    requires ChildrenDone(g, s, u) && GreysOlderThan(s, u)
    ensures DfsInv(g, s[u := s[u].(denom := k + 1)], k + 1, log + [Leave(u)], tp)
  {
    assert BelowAt(s, k, u);
    FinishStampLog(s, k, log, u);
    FinishBlackEdges(g, s, k, u);
    FinishLaminar(s, k, u);
    FinishGreyBlack(s, k, u);
    FinishAncestry(g, s, k, u);
    FinishTreeEdges(g, s, k, tp, u);
  }

  lemma FinishStampLog(s: seq<TarjanNode>, k: int, log: seq<Stamp>, u: nat)
    requires Colours(s) && StampLog(s, k, log) && u < |s| && Grey(s[u]) && s[u].nom <= k
    ensures Colours(s[u := s[u].(denom := k + 1)])
    ensures StampLog(s[u := s[u].(denom := k + 1)], k + 1, log + [Leave(u)])
  {
    var s' := s[u := s[u].(denom := k + 1)];
    assert ColourAt(s, u);
    forall i | 0 <= i < |s'|
      ensures ColourAt(s', i)
    {
      if i != u {
        assert ColourAt(s, i);
      }
    }
    FinishLog(s, k, log, u);
    FinishDistinct(s, k, u);
    FinishCounts(s, k, u);
  }

  lemma FinishCounts(s: seq<TarjanNode>, k: int, u: nat)
    requires u < |s| && s[u].denom == 0 && k >= 0
    ensures Entered(s[u := s[u].(denom := k + 1)]) == Entered(s)
    ensures |Finished(s[u := s[u].(denom := k + 1)])| == |Finished(s)| + 1
  {
    var s' := s[u := s[u].(denom := k + 1)];
    assert Finished(s') == Finished(s) + {u};
    assert u !in Finished(s);
  }

  lemma FinishLog(s: seq<TarjanNode>, k: int, log: seq<Stamp>, u: nat)
    requires LogMatches(s, log) && |log| == k && u < |s| && s[u].denom == 0
    ensures LogMatches(s[u := s[u].(denom := k + 1)], log + [Leave(u)])
  {
    var s' := s[u := s[u].(denom := k + 1)];
    var log' := log + [Leave(u)];
    forall t | 0 <= t < |log'|
      ensures LogAt(s', log', t)
    {
      if t < |log| {
        assert LogAt(s, log, t);
        assert log'[t] == log[t];
        if log[t].node == u {
          assert log[t].Enter?;
        }
      }
    }
  }

  lemma FinishDistinct(s: seq<TarjanNode>, k: int, u: nat)
    requires StampsDistinct(s) && Bounded(s, k) && u < |s| && s[u].denom == 0 && 0 < s[u].nom <= k
    ensures StampsDistinct(s[u := s[u].(denom := k + 1)]) && Bounded(s[u := s[u].(denom := k + 1)], k + 1)
  {
    var s' := s[u := s[u].(denom := k + 1)];
    forall i, j | 0 <= i < |s'| && 0 <= j < |s'| && i != j
      ensures ApartAt(s', i, j)
    {
      if i != u && j != u {
        assert ApartAt(s, i, j);
      } else if i == u {
        assert ApartAt(s, i, j);
        assert BelowAt(s, k, j);
      } else {
        assert ApartAt(s, i, j);
        assert BelowAt(s, k, i);
      }
    }
    var k' := k + 1;
    forall i | 0 <= i < |s'|
      ensures BelowAt(s', k', i)
    {
      assert BelowAt(s, k, i);
    }
  }

  lemma FinishBlackEdges(g: seq<set<nat>>, s: seq<TarjanNode>, k: int, u: nat)
    requires |s| == |g| && Closed(g) && BlackEdges(g, s) && Bounded(s, k) && u < |s| && Grey(s[u])
    requires ChildrenDone(g, s, u) && GreysOlderThan(s, u)
    ensures BlackEdges(g, s[u := s[u].(denom := k + 1)])
  {
    var s' := s[u := s[u].(denom := k + 1)];
    forall x | 0 <= x < |s'|
      ensures BlackEdgesAt(g, s', x)
    {
      if x == u {
        forall y | y in g[u]
          ensures y < |s'| && EdgeOk(s'[u], s'[y])
        {
          assert y !in WhiteSet(s);
          if y != u {
            assert OlderAt(s, y, u);
            assert BelowAt(s, k, y);
          }
        }
      } else {
        assert BlackEdgesAt(g, s, x);
        if Black(s[x]) {
          assert BelowAt(s, k, x);
          forall y | y in g[x]
            ensures y < |s'| && EdgeOk(s'[x], s'[y])
          {
          }
        }
      }
    }
  }

  lemma FinishLaminar(s: seq<TarjanNode>, k: int, u: nat)
    requires Laminar(s) && GreyBlack(s) && Bounded(s, k) && Colours(s) && u < |s| && Grey(s[u])
    ensures Laminar(s[u := s[u].(denom := k + 1)])
  {
    var s' := s[u := s[u].(denom := k + 1)];
    forall x, y | 0 <= x < |s'| && 0 <= y < |s'|
      ensures LaminarAt(s', x, y)
    {
      if x == u && y != u {
        assert GreyBlackAt(s, u, y);
        assert BelowAt(s, k, y);
      } else if y == u && x != u {
        assert GreyBlackAt(s, u, x);
        assert BelowAt(s, k, x);
      } else if x != u && y != u {
        assert LaminarAt(s, x, y);
      }
    }
  }

  lemma FinishGreyBlack(s: seq<TarjanNode>, k: int, u: nat)
    requires GreyBlack(s) && Bounded(s, k) && u < |s| && Grey(s[u]) && GreysOlderThan(s, u)
    ensures GreyBlack(s[u := s[u].(denom := k + 1)])
  {
    var s' := s[u := s[u].(denom := k + 1)];
    assert BelowAt(s, k, u);
    forall a, x | 0 <= a < |s'| && 0 <= x < |s'|
      ensures GreyBlackAt(s', a, x)
    {
      if a != u {
        if x == u {
          assert OlderAt(s, a, u);
        } else {
          assert GreyBlackAt(s, a, x);
        }
      }
    }
  }

  lemma FinishAncestry(g: seq<set<nat>>, s: seq<TarjanNode>, k: int, u: nat)
    requires |s| == |g| && Ancestry(g, s) && Bounded(s, k) && u < |s| && Grey(s[u])
    ensures Ancestry(g, s[u := s[u].(denom := k + 1)])
  {
    var s' := s[u := s[u].(denom := k + 1)];
    forall a, x | 0 <= a < |s'| && 0 <= x < |s'|
      ensures AncestryAt(g, s', a, x)
    {
      assert AncestryAt(g, s, a, x);
      if x == u && a != u {
        assert BelowAt(s, k, a);
      }
    }
  }

  lemma FinishTreeEdges(g: seq<set<nat>>, s: seq<TarjanNode>, k: int, tp: map<nat, nat>, u: nat)
    requires |s| == |g| && TreeEdges(g, s, tp) && Bounded(s, k) && u < |s| && Grey(s[u])
    requires GreysOlderThan(s, u)
    ensures TreeEdges(g, s[u := s[u].(denom := k + 1)], tp)
  {
    var s' := s[u := s[u].(denom := k + 1)];
    forall c | c in tp
      ensures TreeEdgeAt(g, s', tp, c)
    {
      assert TreeEdgeAt(g, s, tp, c);
      var p := tp[c];
      if p == u && c != u {
        assert OlderAt(s, c, u);
        assert BelowAt(s, k, c);
      }
    }
  }

  /** Recording that p's child loop entered c keeps the invariant. */
  lemma TreeEdgeKeepsInv(g: seq<set<nat>>, s: seq<TarjanNode>, k: int, log: seq<Stamp>, tp: map<nat, nat>, p: nat, c: nat)
    requires DfsInv(g, s, k, log, tp) && p < |s| && c < |s| && c in g[p]
    requires Grey(s[p]) && Black(s[c]) && s[p].nom < s[c].nom
    ensures DfsInv(g, s, k, log, tp[c := p])
  {
    var tp' := tp[c := p];
    forall d | d in tp'
      ensures TreeEdgeAt(g, s, tp', d)
    {
      if d != c {
        assert TreeEdgeAt(g, s, tp, d);
      }
    }
  }

  ghost predicate AllBlack(s: seq<TarjanNode>) {
    forall i :: 0 <= i < |s| ==> Black(s[i])
  }

  /** Over a fully numbered arena, every walk u ->* v has an ancestor a of u
      (enclosing u's interval) that u reaches back and that finishes no earlier
      than v. */
  lemma {:induction false} PathAncestor(g: seq<set<nat>>, s: seq<TarjanNode>, k: int, log: seq<Stamp>, tp: map<nat, nat>, p: seq<nat>)
    requires DfsInv(g, s, k, log, tp) && AllBlack(s) && IsPath(g, p)
    ensures exists a: nat :: a < |s| && Nested(s, a, p[0]) && Reach(g, p[0], a) && s[p[|p| - 1]].denom <= s[a].denom
    decreases |p|
  {
    var u := p[0];
    if |p| == 1 {
      ReachRefl(g, u);
      assert Nested(s, u, u);
    } else {
      var w := p[1];
      assert IsPath(g, p[1..]);
      PathAncestor(g, s, k, log, tp, p[1..]);
      var aw: nat :| aw < |s| && Nested(s, aw, w) && Reach(g, w, aw) && s[p[|p| - 1]].denom <= s[aw].denom;
      ReachEdge(g, u, w);
      ReachTrans(g, u, w, aw);
      assert BlackEdgesAt(g, s, u);
      assert EdgeOk(s[u], s[w]);
      assert ColourAt(s, w) && ColourAt(s, u);
      if s[w].denom <= s[u].denom {
        if s[aw].denom <= s[u].denom {
          ReachRefl(g, u);
          assert Nested(s, u, u);
        } else {
          assert LaminarAt(s, aw, u);
          assert Nested(s, aw, u);
        }
      } else {
        assert Nested(s, w, u);
        assert Nested(s, aw, u);
      }
    }
  }

  /** The property pass 2 relies on: if u reaches v, some node of u's component
      finishes no earlier than v. */
  lemma ComponentFinishesLast(g: seq<set<nat>>, s: seq<TarjanNode>, k: int, log: seq<Stamp>, tp: map<nat, nat>, u: nat, v: nat)
    requires DfsInv(g, s, k, log, tp) && AllBlack(s) && Reach(g, u, v)
    ensures exists a: nat :: a < |s| && Mutual(g, u, a) && s[v].denom <= s[a].denom
  {
    var p :| IsPath(g, p) && p[0] == u && p[|p| - 1] == v;
    PathAncestor(g, s, k, log, tp, p);
    var a: nat :| a < |s| && Nested(s, a, u) && Reach(g, u, a) && s[v].denom <= s[a].denom;
    assert AncestryAt(g, s, a, u);
  }

  ghost function WhiteSet(s: seq<TarjanNode>): set<nat> {
    set i: nat | i < |s| && White(s[i])
  }

  ghost predicate KeptAt(s0: seq<TarjanNode>, s1: seq<TarjanNode>, k: int, i: int)
    requires 0 <= i < |s0| == |s1|
  {
    && s1[i].id == s0[i].id && s1[i].childNodes == s0[i].childNodes
    && s1[i].parentNodes == s0[i].parentNodes
    && (!White(s0[i]) ==> s1[i] == s0[i])
    && (White(s0[i]) && !White(s1[i]) ==> Black(s1[i]) && s1[i].nom > k)
  }

  /** What one visit leaves behind: ids and edges untouched, every node that
      was already stamped unchanged, and every node it stamped finished with a
      discovery stamp above k. */
  ghost predicate Preserves(s0: seq<TarjanNode>, s1: seq<TarjanNode>, k: int) {
    |s0| == |s1| && forall i :: 0 <= i < |s0| ==> KeptAt(s0, s1, k, i)
  }

  lemma PreservesRefl(s: seq<TarjanNode>, k: int)
    ensures Preserves(s, s, k)
  {
    forall i | 0 <= i < |s|
      ensures KeptAt(s, s, k, i)
    {
    }
  }

  lemma PreservesTrans(s0: seq<TarjanNode>, s1: seq<TarjanNode>, s2: seq<TarjanNode>, k0: int, k1: int)
    requires Preserves(s0, s1, k0) && Preserves(s1, s2, k1) && k0 <= k1
    ensures Preserves(s0, s2, k0)
  {
    forall i | 0 <= i < |s0|
      ensures KeptAt(s0, s2, k0, i)
    {
      assert KeptAt(s0, s1, k0, i) && KeptAt(s1, s2, k1, i);
    }
  }

  /** A visit never turns a stamped node white again. */
  lemma PreservesWhites(s0: seq<TarjanNode>, s1: seq<TarjanNode>, k: int)
    requires Preserves(s0, s1, k)
    ensures WhiteSet(s1) <= WhiteSet(s0)
  {
    forall i: nat | i in WhiteSet(s1)
      ensures i in WhiteSet(s0)
    {
      assert KeptAt(s0, s1, k, i);
    }
  }

  /** Stamping u on entry removes exactly u from the white nodes. */
  lemma DiscoverWhites(s0: seq<TarjanNode>, k: int, u: nat)
    requires u < |s0| && White(s0[u]) && k > 0
    ensures WhiteSet(s0[u := s0[u].(nom := k)]) == WhiteSet(s0) - {u}
    ensures WhiteSet(s0[u := s0[u].(nom := k)]) < WhiteSet(s0)
  {
    assert u in WhiteSet(s0);
  }

  /** Discovering u from a state where every grey node reaches u: after the
      nested visits (s1 to s) every grey node still reaches each successor c of u. */
  lemma GreysReachChild(g: seq<set<nat>>, s0: seq<TarjanNode>, s1: seq<TarjanNode>, s: seq<TarjanNode>, k: int, u: nat, c: nat)
    requires |s0| == |g| && u < |s0| && c < |s0| && c in g[u]
    requires GreysReach(g, s0, u)
    requires s1 == s0[u := s0[u].(nom := k)] && k > 0
    requires Preserves(s1, s, k)
    ensures GreysReach(g, s, c)
  {
    ReachEdge(g, u, c);
    forall a | 0 <= a < |s|
      ensures GreyReachesAt(g, s, a, c)
    {
      assert KeptAt(s1, s, k, a);
      if Grey(s[a]) && a != u {
        assert GreyReachesAt(g, s0, a, u);
        ReachTrans(g, a, u, c);
      }
    }
  }

  /** The grey nodes other than u were all discovered before u. */
  lemma GreysOlder(s0: seq<TarjanNode>, s1: seq<TarjanNode>, s: seq<TarjanNode>, k: int, u: nat)
    requires u < |s0| && Bounded(s0, k) && s1 == s0[u := s0[u].(nom := k + 1)]
    requires Preserves(s1, s, k + 1)
    ensures GreysOlderThan(s, u)
  {
    assert KeptAt(s1, s, k + 1, u);
    forall a | 0 <= a < |s|
      ensures OlderAt(s, a, u)
    {
      assert KeptAt(s1, s, k + 1, a);
      assert BelowAt(s0, k, a);
    }
  }

  /** Closing the visit of u: relative to the state before u was discovered,
      the whole visit preserves. */
  lemma VisitPreserves(s0: seq<TarjanNode>, s1: seq<TarjanNode>, s2: seq<TarjanNode>, k: int, d: int, u: nat)
    requires u < |s0| && White(s0[u]) && s1 == s0[u := s0[u].(nom := k + 1)] && k >= 0
    requires Preserves(s1, s2, k + 1) && d > k + 1
    ensures Preserves(s0, s2[u := s2[u].(denom := d)], k)
  {
    var s3 := s2[u := s2[u].(denom := d)];
    forall i | 0 <= i < |s0|
      ensures KeptAt(s0, s3, k, i)
    {
      assert KeptAt(s1, s2, k + 1, i);
    }
  }

  ghost predicate StampUsed(s: seq<TarjanNode>, t: int) {
    exists i :: 0 <= i < |s| && (s[i].nom == t || s[i].denom == t)
  }

  /** The indices 0..n-1. */
  ghost function Indices(n: nat): (r: set<nat>)
    ensures |r| == n && forall x: nat :: x in r <==> x < n
  {
    if n == 0 then {} else Indices(n - 1) + {n - 1}
  }

  /** Once every node is finished, the counter has reached 2n, every node has
      0 < nom < denom <= 2n, and every value 1..2n stamps a node (exactly one,
      by StampsDistinct). */
  lemma FullNumbering(g: seq<set<nat>>, s: seq<TarjanNode>, k: int, log: seq<Stamp>, tp: map<nat, nat>)
    requires DfsInv(g, s, k, log, tp) && AllBlack(s)
    ensures k == 2 * |s|
    ensures forall t :: 1 <= t <= k ==> StampUsed(s, t)
    ensures forall i :: 0 <= i < |s| ==> 0 < s[i].nom < s[i].denom <= k
  {
    assert Entered(s) == Indices(|s|);
    assert Finished(s) == Indices(|s|);
    forall t | 1 <= t <= k
      ensures StampUsed(s, t)
    {
      assert LogAt(s, log, t - 1);
    }
    forall i | 0 <= i < |s|
      ensures 0 < s[i].nom < s[i].denom <= k
    {
      assert ColourAt(s, i) && BelowAt(s, k, i);
    }
  }

  /** Between two top-level visits no visit is open. */
  ghost predicate NoGrey(s: seq<TarjanNode>) {
    forall i :: 0 <= i < |s| ==> !Grey(s[i])
  }

  /** The first n nodes are finished. */
  ghost predicate BlackBelow(s: seq<TarjanNode>, n: int) {
    forall i :: 0 <= i < n && i < |s| ==> Black(s[i])
  }

  /** A visit started with no visit open leaves none open, and nodes finished
      before it stay finished. */
  lemma PreservesSettled(s0: seq<TarjanNode>, s1: seq<TarjanNode>, k: int, n: int)
    requires Preserves(s0, s1, k) && NoGrey(s0) && BlackBelow(s0, n)
    ensures NoGrey(s1) && BlackBelow(s1, n)
  {
    forall i | 0 <= i < |s1|
      ensures !Grey(s1[i]) && (i < n ==> Black(s1[i]))
    {
      assert KeptAt(s0, s1, k, i);
    }
  }

  /** With no visit open, the requirement on open visits holds vacuously. */
  lemma NoGreyReach(g: seq<set<nat>>, s: seq<TarjanNode>, u: nat)
    requires NoGrey(s)
    ensures GreysReach(g, s, u)
  {
    forall a | 0 <= a < |s|
      ensures GreyReachesAt(g, s, a, u)
    {
    }
  }

  ghost predicate CoveredAt(s0: seq<TarjanNode>, s1: seq<TarjanNode>, tp: map<nat, nat>, x: int)
    requires 0 <= x < |s0| == |s1|
  {
    White(s0[x]) && !White(s1[x]) ==> x in tp
  }

  /** Every node stamped between s0 and s1, except u, has a tree parent. */
  ghost predicate TreeCovered(s0: seq<TarjanNode>, s1: seq<TarjanNode>, tp: map<nat, nat>, u: int) {
    |s0| == |s1| && forall x :: 0 <= x < |s0| && x != u ==> CoveredAt(s0, s1, tp, x)
  }

  lemma TreeCoveredRefl(s: seq<TarjanNode>, tp: map<nat, nat>, u: int)
    ensures TreeCovered(s, s, tp, u)
  {
    forall x | 0 <= x < |s| && x != u
      ensures CoveredAt(s, s, tp, x)
    {
    }
  }

  /** A child loop step: the nodes stamped before the visit of c, and those
      the visit of c stamped, are all covered once c's own tree edge is added. */
  lemma TreeCoveredStep(s1: seq<TarjanNode>, s2: seq<TarjanNode>, s3: seq<TarjanNode>,
                        tp2: map<nat, nat>, tp3: map<nat, nat>, u: nat, c: nat)
    requires TreeCovered(s1, s2, tp2, u) && TreeCovered(s2, s3, tp3, c)
    requires forall x :: x in tp2 ==> x in tp3
    ensures TreeCovered(s1, s3, tp3[c := u], u)
  {
    var tp' := tp3[c := u];
    forall x | 0 <= x < |s1| && x != u
      ensures CoveredAt(s1, s3, tp', x)
    {
      if x != c {
        assert CoveredAt(s1, s2, tp2, x) && CoveredAt(s2, s3, tp3, x);
      }
    }
  }

  /** Stamping u itself, on entry and on exit, changes nothing for the rest. */
  lemma TreeCoveredEnds(s0: seq<TarjanNode>, s1: seq<TarjanNode>, s2: seq<TarjanNode>, tp: map<nat, nat>, u: nat, v: TarjanNode, w: TarjanNode)
    requires u < |s0| && s1 == s0[u := v] && TreeCovered(s1, s2, tp, u)
    ensures TreeCovered(s0, s2[u := w], tp, u)
  {
    var s3 := s2[u := w];
    forall x | 0 <= x < |s0| && x != u
      ensures CoveredAt(s0, s3, tp, x)
    {
      assert CoveredAt(s1, s2, tp, x);
    }
  }

  ghost predicate RootAt(s: seq<TarjanNode>, c: int)
    requires 0 <= c < |s|
  {
    forall x :: 0 <= x < |s| && !White(s[x]) && s[x].nom < s[c].nom ==> Black(s[x]) && s[x].denom < s[c].nom
  }

  /** A stamped node without a tree parent was entered from the top level:
      every node entered before it had already finished. */
  ghost predicate Roots(s: seq<TarjanNode>, tp: map<nat, nat>) {
    forall c :: 0 <= c < |s| && !White(s[c]) && c !in tp ==> RootAt(s, c)
  }

  lemma RootsInitial(s: seq<TarjanNode>)
    requires forall i :: 0 <= i < |s| ==> s[i].nom == 0
    ensures Roots(s, map[])
  {
  }

  /** A top-level visit of i, started with no visit open, keeps Roots: i is
      the only node it stamps without giving it a tree parent. */
  lemma RootsStep(s1: seq<TarjanNode>, s2: seq<TarjanNode>, tp1: map<nat, nat>, tp2: map<nat, nat>, k: int, i: nat)
    requires Roots(s1, tp1) && NoGrey(s1) && Bounded(s1, k) && i < |s1|
    requires Preserves(s1, s2, k) && TreeCovered(s1, s2, tp2, i)
    requires forall x :: x in tp1 ==> x in tp2
    requires White(s1[i]) ==> s2[i].nom == k + 1
    ensures Roots(s2, tp2)
  {
    forall c | 0 <= c < |s2| && !White(s2[c]) && c !in tp2
      ensures RootAt(s2, c)
    {
      assert KeptAt(s1, s2, k, c) && BelowAt(s1, k, c);
      if White(s1[c]) {
        assert CoveredAt(s1, s2, tp2, c) || c == i;
      }
      forall x | 0 <= x < |s2| && !White(s2[x]) && s2[x].nom < s2[c].nom
        ensures Black(s2[x]) && s2[x].denom < s2[c].nom
      {
        assert KeptAt(s1, s2, k, x) && BelowAt(s1, k, x);
        if !White(s1[c]) {
          assert RootAt(s1, c);
        }
      }
    }
  }

  /** c's interval lies strictly inside a's. */
  ghost predicate Encloses(s: seq<TarjanNode>, a: nat, c: nat)
    requires a < |s| && c < |s|
  {
    s[a].nom < s[c].nom && s[c].denom < s[a].denom
  }

  /** After the first pass the tree-parent map is the depth-first forest: each
      recorded parent has c among its children and encloses c, and a node
      has a tree parent exactly when some interval encloses its own. */
  lemma TreeParentsExact(g: seq<set<nat>>, s: seq<TarjanNode>, k: int, log: seq<Stamp>, tp: map<nat, nat>)
    requires DfsInv(g, s, k, log, tp) && AllBlack(s) && Roots(s, tp)
    ensures forall c :: c in tp ==> c < |s| && tp[c] < |s| && c in g[tp[c]] && Encloses(s, tp[c], c)
    ensures forall c :: 0 <= c < |s| ==> (c in tp <==> exists a :: 0 <= a < |s| && Encloses(s, a, c))
  {
    forall c | c in tp
      ensures c < |s| && tp[c] < |s| && c in g[tp[c]] && Encloses(s, tp[c], c)
    {
      assert TreeEdgeAt(g, s, tp, c);
    }
    forall c | 0 <= c < |s| && c !in tp
      ensures forall a :: 0 <= a < |s| ==> !Encloses(s, a, c)
    {
      assert RootAt(s, c) && ColourAt(s, c);
    }
  }

  /** Over a fully numbered arena, distinct nodes have distinct finish stamps. */
  lemma DenomsDistinct(g: seq<set<nat>>, s: seq<TarjanNode>, k: int, log: seq<Stamp>, tp: map<nat, nat>, i: nat, j: nat)
    requires DfsInv(g, s, k, log, tp) && AllBlack(s) && i < |s| && j < |s|
    ensures s[i].denom == s[j].denom ==> i == j
  {
    assert i != j ==> ApartAt(s, i, j);
  }
}

/** The Graphs of the front end's unit tests (TarjanSolver_gtest.cpp), and the
    one family of id components each has. With TarjanSolver.GetSolution's
    guarantee these fix the number of id sets the tests expect. */
module SolverScenarios {
  import opened DataStructure
  import opened IdGraphs

  /** Test2Nodes1Circle: "1" <-> "2". */
  const LinkedPair: Graph := {Node("1", {"2"}), Node("2", {"1"})}

  lemma LinkedPairIds()
    ensures AllNodeIds(LinkedPair) == {"1", "2"}
  {
    var g := LinkedPair;
    assert Node("1", {"2"}) in g && Node("2", {"1"}) in g;
    assert "1" in DeclaredIds(g) && "2" in DeclaredIds(g);
  }

  lemma LinkedPairComponents()
    ensures IdComponents(LinkedPair) == {{"1", "2"}}
  {
    var g := LinkedPair;
    LinkedPairIds();
    assert EdgeIn(g, "1", "2") by { assert Node("1", {"2"}) in g; }
    assert EdgeIn(g, "2", "1") by { assert Node("2", {"1"}) in g; }
    assert IdPath(g, ["1", "2"]) && IdPath(g, ["2", "1"]);
    IdReachRefl(g, "1");
    IdReachRefl(g, "2");
    assert IdScc(g, "1") == {"1", "2"};
    IdSccSame(g, "1", "2");
  }

  /** Test2Nodes2Circle: "1" and "2", no edge. */
  const ApartPair: Graph := {Node("1", {}), Node("2", {})}

  /** Without edges an id reaches only itself. */
  lemma ApartPairReach(a: string, b: string)
    requires IdReach(ApartPair, a, b)
    ensures a == b
  {
    var g := ApartPair;
    assert ChildIds(g) == {};
    if a != b {
      ReachArrivesChild(g, a, b);
      assert false;
    }
  }

  lemma ApartPairComponents()
    ensures IdComponents(ApartPair) == {{"1"}, {"2"}}
  {
    var g := ApartPair;
    assert Node("1", {}) in g && Node("2", {}) in g;
    assert "1" in DeclaredIds(g) && "2" in DeclaredIds(g);
    assert ChildIds(g) == {};
    IdReachRefl(g, "1");
    IdReachRefl(g, "2");
    forall b | b in IdScc(g, "1")
      ensures b == "1"
    {
      ApartPairReach("1", b);
    }
    forall b | b in IdScc(g, "2")
      ensures b == "2"
    {
      ApartPairReach("2", b);
    }
    assert IdScc(g, "1") == {"1"} && IdScc(g, "2") == {"2"};
  }
}

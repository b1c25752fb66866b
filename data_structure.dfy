/** The user-facing graph (DataStructure.h, DataStructure.cpp): a Node is an
    id with the ids of the nodes it points to, and a Graph is an ordered set of
    Nodes whose comparator looks at ids only. */
module DataStructure {

  /** std::string's operator<: lexicographic on characters, a proper prefix
      coming first. */
  predicate StrLess(a: string, b: string) {
    if |a| == 0 then |b| > 0
    else if |b| == 0 then false
    else if a[0] != b[0] then a[0] < b[0]
    else StrLess(a[1..], b[1..])
  }

  lemma {:induction false} StrLessIrreflexive(a: string)
    ensures !StrLess(a, a)
  {
    if |a| > 0 {
      StrLessIrreflexive(a[1..]);
    }
  }

  lemma {:induction false} StrLessTransitive(a: string, b: string, c: string)
    requires StrLess(a, b) && StrLess(b, c)
    ensures StrLess(a, c)
  {
    if |a| > 0 && a[0] == b[0] && b[0] == c[0] {
      StrLessTransitive(a[1..], b[1..], c[1..]);
    }
  }

  /** Any two different strings are ordered one way or the other. */
  lemma {:induction false} StrLessTotal(a: string, b: string)
    ensures a == b || StrLess(a, b) || StrLess(b, a)
  {
    if |a| > 0 && |b| > 0 && a[0] == b[0] {
      StrLessTotal(a[1..], b[1..]);
      if a[1..] == b[1..] {
        assert a == [a[0]] + a[1..] && b == [b[0]] + b[1..];
      }
    }
  }

  lemma StrLessAsymmetric(a: string, b: string)
    requires StrLess(a, b)
    ensures !StrLess(b, a)
  {
    if StrLess(b, a) {
      StrLessTransitive(a, b, a);
      StrLessIrreflexive(a);
    }
  }

  datatype Node = Node(id: string, childNodes: set<string>)

  /** The constructor Node(id): no children yet. */
  function NewNode(id: string): (n: Node)
    ensures n.id == id && n.childNodes == {}
  {
    Node(id, {})
  }

  /** operator< on Node compares the ids and nothing else. */
  predicate NodeLess(a: Node, b: Node) {
    StrLess(a.id, b.id)
  }

  /** NodeLess is a strict weak order whose equivalence classes are the ids:
      an ordered set keyed by it keeps one Node per id. */
  lemma NodeLessStrictOrder(a: Node, b: Node, c: Node)
    ensures !NodeLess(a, a)
    ensures NodeLess(a, b) && NodeLess(b, c) ==> NodeLess(a, c)
    ensures (!NodeLess(a, b) && !NodeLess(b, a)) <==> a.id == b.id
  {
    StrLessIrreflexive(a.id);
    if NodeLess(a, b) && NodeLess(b, c) {
      StrLessTransitive(a.id, b.id, c.id);
    }
    StrLessTotal(a.id, b.id);
  }

  predicate OnePerId(g: set<Node>) {
    forall a, b :: a in g && b in g && a.id == b.id ==> a == b
  }

  /** Graph: a std::set<Node> under the id-only comparator. */
  type Graph = g: set<Node> | OnePerId(g) witness {}

  predicate HasId(g: Graph, id: string) {
    exists m :: m in g && m.id == id
  }

  /** Graph::insert: a Node whose id is already present is dropped, whatever
      its children; otherwise it is added. */
  function Insert(g: Graph, n: Node): (r: Graph)
    ensures g <= r <= g + {n}
    ensures HasId(r, n.id)
    ensures n in r <==> n in g || !HasId(g, n.id)
  {
    if HasId(g, n.id) then g else g + {n}
  }

  /** A second Node with an id already present leaves the Graph unchanged. */
  lemma InsertSameIdUnchanged(g: Graph, n: Node, n': Node)
    requires n in g && n'.id == n.id
    ensures Insert(g, n') == g
  {
    assert HasId(g, n'.id);
  }

  /** Every element of s other than m comes after m. */
  predicate IsLeast(m: string, s: set<string>) {
    m in s && forall x :: x in s && x != m ==> StrLess(m, x)
  }

  lemma {:induction false} LeastExists(s: set<string>)
    requires s != {}
    ensures exists m :: IsLeast(m, s)
    decreases |s|
  {
    var y :| y in s;
    if s - {y} == {} {
      assert s == {y};
      assert IsLeast(y, s);
    } else {
      LeastExists(s - {y});
      var m :| IsLeast(m, s - {y});
      StrLessTotal(m, y);
      if StrLess(m, y) {
        assert IsLeast(m, s);
      } else {
        forall x | x in s && x != y
          ensures StrLess(y, x)
        {
          if x != m {
            StrLessTransitive(y, m, x);
          }
        }
        assert IsLeast(y, s);
      }
    }
  }

  lemma LeastUnique(s: set<string>)
    ensures forall a, b :: IsLeast(a, s) && IsLeast(b, s) ==> a == b
  {
    forall a, b | IsLeast(a, s) && IsLeast(b, s)
      ensures a == b
    {
      if a != b {
        StrLessAsymmetric(a, b);
      }
    }
  }

  predicate Ascending(xs: seq<string>) {
    forall i, j :: 0 <= i < j < |xs| ==> StrLess(xs[i], xs[j])
  }

  /** The elements of s in ascending order: the iteration order of a
      std::set<std::string>. */
  function SortedStrings(s: set<string>): (r: seq<string>)
    ensures |r| == |s| && (forall x :: x in r <==> x in s)
    ensures Ascending(r)
    decreases |s|
  {
    if s == {} then []
    else
      LeastExists(s);
      LeastUnique(s);
      var m :| IsLeast(m, s);
      [m] + SortedStrings(s - {m})
  }

  /** The head of an ascending enumeration of s is the least element of s. */
  lemma HeadIsLeast(xs: seq<string>, s: set<string>)
    requires Ascending(xs) && (forall x :: x in xs <==> x in s) && xs != []
    ensures IsLeast(xs[0], s)
  {
    forall x | x in s && x != xs[0]
      ensures StrLess(xs[0], x)
    {
      var j :| 0 <= j < |xs| && xs[j] == x;
    }
  }

  /** ... and its tail enumerates the rest. */
  lemma TailEnumerates(xs: seq<string>, s: set<string>)
    requires Ascending(xs) && (forall x :: x in xs <==> x in s) && xs != []
    ensures Ascending(xs[1..]) && forall x :: x in xs[1..] <==> x in s - {xs[0]}
  {
    forall x
      ensures x in xs[1..] <==> x in s - {xs[0]}
    {
      if x in xs[1..] {
        var j :| 1 <= j < |xs| && xs[j] == x;
        StrLessIrreflexive(xs[0]);
      }
      if x in s - {xs[0]} {
        var j :| 0 <= j < |xs| && xs[j] == x;
      }
    }
  }

  /** The ascending enumeration of a set is unique. */
  lemma {:induction false} AscendingUnique(xs: seq<string>, s: set<string>)
    requires Ascending(xs) && (forall x :: x in xs <==> x in s)
    ensures xs == SortedStrings(s)
    decreases |xs|
  {
    if xs == [] {
      assert s == {};
    } else {
      var r := SortedStrings(s);
      HeadIsLeast(xs, s);
      HeadIsLeast(r, s);
      LeastUnique(s);
      var m := xs[0];
      assert r[0] == m;
      TailEnumerates(xs, s);
      TailEnumerates(r, s);
      AscendingUnique(xs[1..], s - {m});
      AscendingUnique(r[1..], s - {m});
      assert xs == [m] + xs[1..] && r == [m] + r[1..];
    }
  }

  /** Each item followed by one space. */
  function Spaced(xs: seq<string>): string {
    if xs == [] then "" else xs[0] + " " + Spaced(xs[1..])
  }

  /** toString: the id, then the children in a " Child (...)" section when
      there are any. */
  function ToString(n: Node): (r: string)
    ensures |r| >= |n.id| && r[..|n.id|] == n.id
    ensures n.childNodes == {} ==> r == n.id
  {
    n.id + if |n.childNodes| > 0 then " Child (" + Spaced(SortedStrings(n.childNodes)) + ")" else ""
  }

  /** With children, the rendering lists them in ascending order, each
      followed by a space, between " Child (" and ")". */
  lemma ToStringChildren(n: Node, xs: seq<string>)
    requires n.childNodes != {}
    requires Ascending(xs) && (forall x :: x in xs <==> x in n.childNodes)
    ensures ToString(n) == n.id + " Child (" + Spaced(xs) + ")"
  {
    AscendingUnique(xs, n.childNodes);
  }

  /** operator<<: appends the node's toString to the stream. */
  function Put(os: string, n: Node): (r: string)
    ensures |r| == |os| + |ToString(n)|
    ensures r[..|os|] == os && r[|os|..] == ToString(n)
  {
    os + ToString(n)
  }
}

/** The engine's node record (TarjanNode in TarjanCore.h), as an entry of an
    index arena: successor and predecessor sets hold arena indices instead of
    shared pointers, so the node's identity is its index. */
module TarjanNodes {

  datatype TarjanNode = TarjanNode(
    id: string,
    childNodes: set<nat>,   // successors
    parentNodes: set<nat>,  // predecessors, derived by the engine
    nom: int,               // discovery stamp, 0 while unvisited
    denom: int              // finish stamp, 0 until the node's subtree is done
  )
  {
    predicate HasNom() { nom > 0 }
    predicate HasDenom() { denom > 0 }
  }

  /** A freshly constructed node: no stamps and no edges. */
  function NewTarjanNode(id: string): (v: TarjanNode)
    ensures v.id == id && v.childNodes == {} && v.parentNodes == {}
    ensures !v.HasNom() && !v.HasDenom()
  {
    TarjanNode(id, {}, {}, 0, 0)
  }

  /** The decimal digit character for d. */
  function Digit(d: nat): (c: char)
    requires d < 10
    ensures '0' <= c <= '9' && c as int - '0' as int == d
  {
    "0123456789"[d]
  }

  predicate AllDigits(s: string) {
    forall i :: 0 <= i < |s| ==> '0' <= s[i] <= '9'
  }

  /** The number a string of decimal digits denotes. */
  function DecimalValue(s: string): nat
    requires AllDigits(s)
  {
    if s == [] then 0
    else DecimalValue(s[..|s| - 1]) * 10 + (s[|s| - 1] as int - '0' as int)
  }

  /** How operator<< writes a non-negative int: its decimal digits, without
      leading zeros. */
  function NatToString(n: nat): (r: string)
    ensures |r| > 0 && AllDigits(r)
    ensures r[0] == '0' ==> r == "0"
  {
    if n < 10 then [Digit(n)] else NatToString(n / 10) + [Digit(n % 10)]
  }

  lemma {:induction false} NatToStringRoundTrip(n: nat)
    ensures DecimalValue(NatToString(n)) == n
  {
    var r := NatToString(n);
    if n >= 10 {
      NatToStringRoundTrip(n / 10);
      assert r[..|r| - 1] == NatToString(n / 10);
    }
  }

  /** How operator<< writes any int: a minus sign before negative values. */
  function IntToString(n: int): (r: string)
    ensures n >= 0 ==> AllDigits(r) && DecimalValue(r) == n
    ensures n < 0 ==> |r| > 1 && r[0] == '-' && AllDigits(r[1..]) && DecimalValue(r[1..]) == -n
  {
    if n < 0 then
      NatToStringRoundTrip(-n);
      "-" + NatToString(-n)
    else
      NatToStringRoundTrip(n);
      NatToString(n)
  }

  /** One id as str() writes it: in double quotes, followed by a space. */
  function Quote(id: string): string {
    "\"" + id + "\" "
  }

  /** The ids quoted one after another. */
  function QuotedList(ids: seq<string>): string {
    if ids == [] then "" else Quote(ids[0]) + QuotedList(ids[1..])
  }

  /** Every id of the list appears quoted in its own place: after the quoted
      ids before it and before the quoted ids after it. */
  lemma {:induction false} QuotedListSplit(ids: seq<string>, k: nat)
    requires k < |ids|
    ensures QuotedList(ids) == QuotedList(ids[..k]) + Quote(ids[k]) + QuotedList(ids[k + 1..])
  {
    if k > 0 {
      QuotedListSplit(ids[1..], k - 1);
      assert ids[1..][..k - 1] == ids[..k][1..];
      assert ids[1..][k - 1] == ids[k] && ids[1..][k..] == ids[k + 1..];
      assert QuotedList(ids[..k]) == Quote(ids[0]) + QuotedList(ids[..k][1..]);
    } else {
      assert QuotedList(ids[..0]) == "";
    }
  }

  /** xs lists the references of refs, each once, in the order the set of
      shared pointers is iterated. */
  ghost predicate Enumerates(xs: seq<nat>, refs: set<nat>) {
    (forall i, j :: 0 <= i < j < |xs| ==> xs[i] != xs[j]) && (forall x :: x in xs <==> x in refs)
  }

  /** The ids of the arena entries xs, in order. */
  function IdsAt(arena: seq<TarjanNode>, xs: seq<nat>): (r: seq<string>)
    requires forall i :: 0 <= i < |xs| ==> xs[i] < |arena|
    ensures |r| == |xs| && forall i :: 0 <= i < |xs| ==> r[i] == arena[xs[i]].id
  {
    if xs == [] then [] else [arena[xs[0]].id] + IdsAt(arena, xs[1..])
  }

  /** A labelled section of str(), written only when it lists something. */
  function Section(heading: string, ids: seq<string>): string {
    if ids == [] then "" else heading + QuotedList(ids) + ")"
  }

  /** The section of an enumerated reference set is present exactly when the
      set is not empty. */
  lemma SectionPresent(heading: string, arena: seq<TarjanNode>, order: seq<nat>, refs: set<nat>)
    requires Enumerates(order, refs) && forall i :: 0 <= i < |order| ==> order[i] < |arena|
    ensures Section(heading, IdsAt(arena, order)) ==
              if refs != {} then heading + QuotedList(IdsAt(arena, order)) + ")" else ""
  {
    if order != [] {
      assert order[0] in refs;
    }
  }

  /** The leading part of str(): the quoted id, then nom:denom. */
  function StrHead(v: TarjanNode): string {
    "\"" + v.id + "\" " + IntToString(v.nom) + ":" + IntToString(v.denom)
  }

  /** The references of v lie in the arena, and the two orders enumerate them. */
  ghost predicate StrArgs(v: TarjanNode, arena: seq<TarjanNode>, childOrder: seq<nat>, parentOrder: seq<nat>) {
    Enumerates(childOrder, v.childNodes) && Enumerates(parentOrder, v.parentNodes) &&
    (forall i :: 0 <= i < |childOrder| ==> childOrder[i] < |arena|) &&
    (forall i :: 0 <= i < |parentOrder| ==> parentOrder[i] < |arena|)
  }

  /** str() of v, whose references point into arena: the head, then a
      " Child ( ... )" section when v has successors, then a
      " Parent ( ... )" section when it has predecessors, each listing the
      quoted ids of the referenced nodes in the order the reference sets are
      iterated (childOrder and parentOrder). */
  function Str(v: TarjanNode, arena: seq<TarjanNode>, childOrder: seq<nat>, parentOrder: seq<nat>): (r: string)
    requires StrArgs(v, arena, childOrder, parentOrder)
    ensures r == StrHead(v)
      + (if v.childNodes != {} then " Child ( " + QuotedList(IdsAt(arena, childOrder)) + ")" else "")
      + (if v.parentNodes != {} then " Parent ( " + QuotedList(IdsAt(arena, parentOrder)) + ")" else "")
    ensures v.childNodes == {} && v.parentNodes == {} <==> r == StrHead(v)
  {
    SectionPresent(" Child ( ", arena, childOrder, v.childNodes);
    SectionPresent(" Parent ( ", arena, parentOrder, v.parentNodes);
    StrHead(v) + Section(" Child ( ", IdsAt(arena, childOrder)) + Section(" Parent ( ", IdsAt(arena, parentOrder))
  }

  lemma Regroup(h: string, c: string, a: string, q: string, b: string, e: string)
    ensures h + (c + (a + q + b) + e) == h + c + a + q + b + e
  {
  }

  /** The quoted ids of order, with the k-th one's quotation singled out. */
  lemma QuotedAt(arena: seq<TarjanNode>, order: seq<nat>, k: nat)
    requires (forall i :: 0 <= i < |order| ==> order[i] < |arena|) && k < |order|
    ensures QuotedList(IdsAt(arena, order)) ==
              QuotedList(IdsAt(arena, order[..k])) + Quote(arena[order[k]].id) + QuotedList(IdsAt(arena, order[k + 1..]))
  {
    IdsAtAround(arena, order, k);
    QuotedListSplit(IdsAt(arena, order), k);
  }

  lemma IdsAtAround(arena: seq<TarjanNode>, order: seq<nat>, k: nat)
    requires (forall i :: 0 <= i < |order| ==> order[i] < |arena|) && k < |order|
    ensures IdsAt(arena, order)[..k] == IdsAt(arena, order[..k])
    ensures IdsAt(arena, order)[k] == arena[order[k]].id
    ensures IdsAt(arena, order)[k + 1..] == IdsAt(arena, order[k + 1..])
  {
    var ids, front, back := IdsAt(arena, order), IdsAt(arena, order[..k]), IdsAt(arena, order[k + 1..]);
    forall t | 0 <= t < k
      ensures ids[..k][t] == front[t]
    {
      assert order[..k][t] == order[t];
    }
    forall t | 0 <= t < |order| - k - 1
      ensures ids[k + 1..][t] == back[t]
    {
      assert order[k + 1..][t] == order[k + 1 + t];
    }
  }

  /** The k-th successor in iteration order (and every successor is one, by
      Enumerates) is named, quoted, in its place in the Child section. */
  lemma StrNamesChild(v: TarjanNode, arena: seq<TarjanNode>, childOrder: seq<nat>, parentOrder: seq<nat>, k: nat)
    requires StrArgs(v, arena, childOrder, parentOrder) && k < |childOrder|
    ensures Str(v, arena, childOrder, parentOrder) ==
              StrHead(v) + " Child ( " + QuotedList(IdsAt(arena, childOrder[..k])) + Quote(arena[childOrder[k]].id)
              + QuotedList(IdsAt(arena, childOrder[k + 1..])) + ")" + Section(" Parent ( ", IdsAt(arena, parentOrder))
  {
    var ids := IdsAt(arena, childOrder);
    assert Section(" Child ( ", ids) == " Child ( " + QuotedList(ids) + ")";
    QuotedAt(arena, childOrder, k);
    Regroup(StrHead(v), " Child ( ", QuotedList(IdsAt(arena, childOrder[..k])), Quote(arena[childOrder[k]].id),
            QuotedList(IdsAt(arena, childOrder[k + 1..])), ")");
  }

  /** Likewise the k-th predecessor in the Parent section. */
  lemma StrNamesParent(v: TarjanNode, arena: seq<TarjanNode>, childOrder: seq<nat>, parentOrder: seq<nat>, k: nat)
    requires StrArgs(v, arena, childOrder, parentOrder) && k < |parentOrder|
    ensures Str(v, arena, childOrder, parentOrder) ==
              StrHead(v) + Section(" Child ( ", IdsAt(arena, childOrder)) + " Parent ( "
              + QuotedList(IdsAt(arena, parentOrder[..k])) + Quote(arena[parentOrder[k]].id)
              + QuotedList(IdsAt(arena, parentOrder[k + 1..])) + ")"
  {
    var ids := IdsAt(arena, parentOrder);
    assert Section(" Parent ( ", ids) == " Parent ( " + QuotedList(ids) + ")";
    QuotedAt(arena, parentOrder, k);
    Regroup(StrHead(v) + Section(" Child ( ", IdsAt(arena, childOrder)), " Parent ( ",
            QuotedList(IdsAt(arena, parentOrder[..k])), Quote(arena[parentOrder[k]].id),
            QuotedList(IdsAt(arena, parentOrder[k + 1..])), ")");
    assert Str(v, arena, childOrder, parentOrder) == StrHead(v) + Section(" Child ( ", IdsAt(arena, childOrder)) + Section(" Parent ( ", ids);
  }

  /** A fresh node renders as its quoted id and 0:0. */
  lemma StrFresh(id: string)
    ensures Str(NewTarjanNode(id), [], [], []) == "\"" + id + "\" 0:0"
  {
    assert IntToString(0) == "0";
  }
}

/** The leaf template L1, the generalised all-FULL template and the P-node templates
    P1-P6 of pqtree/PQTree.java. Each one first matches the labels of the children of
    `x` and, if they fit, rewrites the tree in place. A template that does not match
    returns false and changes nothing. */
module PTemplates {
  import opened Outcomes
  import opened PQNodes
  import opened Helpers

  // ---------------------------------------------------------------------------------
  // Label counts

  /** Two labels' filters together take at most all of a list, and all of it exactly
      when every member carries one of the two labels. */
  lemma {:induction false} LabelPartition(nodes: seq<Node>, cs: seq<Id>, l1: Label, l2: Label)
    requires AllIn(cs, |nodes|) && l1 != l2
    ensures |OfLabel(nodes, cs, l1)| + |OfLabel(nodes, cs, l2)| <= |cs|
    ensures |OfLabel(nodes, cs, l1)| + |OfLabel(nodes, cs, l2)| == |cs| <==>
      forall c :: c in cs ==> nodes[c].mark == l1 || nodes[c].mark == l2
  {
    if cs != [] {
      var init, last := cs[..|cs| - 1], cs[|cs| - 1];
      assert forall c :: c in cs <==> c in init || c == last;
      LabelPartition(nodes, init, l1, l2);
    }
  }

  // ---------------------------------------------------------------------------------
  // L1, the generalised template 1, P1

  /** `TEMPLATE_L1`: a pure type test. */
  function TemplateL1(nodes: seq<Node>, x: Id): (r: bool)
    requires x < |nodes|
    ensures r <==> nodes[x].kind !in {PNode, QNode}
  {
    !(nodes[x].kind == PNode || nodes[x].kind == QNode)
  }

  /** The loop of `GENERALIZED_TEMPLATE_1`: is every child labelled `l`? */
  method ChildrenAllLabelled(a: Arena, x: Id, l: Label) returns (r: bool)
    requires a.Valid() && x < |a.nodes|
    ensures r <==> forall c :: c in a.nodes[x].children ==> a.nodes[c].mark == l
  {
    var cs := a.nodes[x].children;
    assert NodeIn(a.nodes[x], |a.nodes|);
    for i := 0 to |cs|
      invariant forall j :: 0 <= j < i ==> cs[j] < |a.nodes| && a.nodes[cs[j]].mark == l
    {
      assert cs[i] in cs;
      if a.nodes[cs[i]].mark != l {
        return false;
      }
    }
    return true;
  }

  /** Template 1 applies to `x` as seen by `GENERALIZED_TEMPLATE_1`: `x` is not yet FULL
      and all its children are. */
  ghost predicate AllFullBelow(nodes: seq<Node>, x: Id)
    requires x < |nodes|
  {
    nodes[x].mark != Full && forall c :: c in nodes[x].children ==> c < |nodes| && nodes[c].mark == Full
  }

  /** `GENERALIZED_TEMPLATE_1`: succeeds iff `x` is not FULL and every child is; then it
      labels `x` FULL and changes nothing else. */
  method GeneralizedTemplate1(a: Arena, x: Id) returns (r: bool)
    requires a.Valid() && x < |a.nodes|
    modifies a
    ensures a.Valid()
    ensures r <==> AllFullBelow(old(a.nodes), x)
    ensures a.nodes == if r then old(a.nodes)[x := old(a.nodes)[x].(mark := Full)] else old(a.nodes)
  {
    assert NodeIn(a.nodes[x], |a.nodes|);
    if a.nodes[x].mark != Full {
      var all := ChildrenAllLabelled(a, x, Full);
      if !all {
        return false;
      }
      a.SetLabel(x, Full);
      return true;
    }
    return false;
  }

  ghost predicate P1Matches(nodes: seq<Node>, x: Id)
    requires x < |nodes|
  {
    nodes[x].kind == PNode && AllFullBelow(nodes, x)
  }

  /** `TEMPLATE_P1`: template 1 on a P-node. */
  method TemplateP1(a: Arena, x: Id) returns (r: bool)
    requires a.Valid() && x < |a.nodes|
    modifies a
    ensures a.Valid()
    ensures r <==> P1Matches(old(a.nodes), x)
    ensures a.nodes == if r then old(a.nodes)[x := old(a.nodes)[x].(mark := Full)] else old(a.nodes)
  {
    if a.nodes[x].kind == PNode {
      r := GeneralizedTemplate1(a, x);
      return;
    }
    return false;
  }

  // ---------------------------------------------------------------------------------
  // P2 and P3: a P-node with EMPTY and FULL children only

  /** The matching phase P2 and P3 share: `x` is a P-node, its lists of EMPTY and of
      FULL children are both non-empty, and together they are as long as its children. */
  predicate SplitsEmptyFull(nodes: seq<Node>, x: Id)
    requires ValidNodes(nodes) && x < |nodes|
  {
    var e := ChildrenOfLabel(nodes, x, Empty);
    var f := ChildrenOfLabel(nodes, x, Full);
    nodes[x].kind == PNode && |f| != 0 && |e| != 0 && |f| + |e| == |nodes[x].children|
  }

  /** What the size test means: `x` is a P-node with an EMPTY child and a FULL child, and
      every child is EMPTY or FULL. */
  lemma SplitsEmptyFullMeans(nodes: seq<Node>, x: Id)
    requires ValidNodes(nodes) && x < |nodes|
    ensures SplitsEmptyFull(nodes, x) <==>
      && nodes[x].kind == PNode
      && (exists c :: c in nodes[x].children && nodes[c].mark == Empty)
      && (exists c :: c in nodes[x].children && nodes[c].mark == Full)
      && forall c :: c in nodes[x].children ==> nodes[c].mark == Empty || nodes[c].mark == Full
  {
    assert NodeIn(nodes[x], |nodes|);
    var cs := nodes[x].children;
    LabelPartition(nodes, cs, Full, Empty);
    var e := OfLabel(nodes, cs, Empty);
    var f := OfLabel(nodes, cs, Full);
    if |e| != 0 { assert e[0] in e; }
    if |f| != 0 { assert f[0] in f; }
  }

  /** `TEMPLATE_P2` (on the root of the pertinent subtree). It matches iff
      `SplitsEmptyFull`. With one FULL child it changes nothing. Otherwise the FULL
      children move, in order, to a new FULL P-node whose parent is `x`, and `x` keeps
      its EMPTY children, in order, followed by the new node. */
  method TemplateP2(a: Arena, x: Id) returns (r: bool)
    requires a.Valid() && x < |a.nodes|
    modifies a
    ensures a.Valid()
    ensures r <==> SplitsEmptyFull(old(a.nodes), x)
    ensures !r || |ChildrenOfLabel(old(a.nodes), x, Full)| == 1 ==> a.nodes == old(a.nodes)
    ensures r && |ChildrenOfLabel(old(a.nodes), x, Full)| > 1 ==>
      a.nodes == old(a.nodes)[x := old(a.nodes)[x].(children := ChildrenOfLabel(old(a.nodes), x, Empty) + [|old(a.nodes)|])]
                 + [Fresh(PNode, Full).(parent := Ref(x), children := ChildrenOfLabel(old(a.nodes), x, Full))]
  {
    if a.nodes[x].kind != PNode {
      return false;
    }
    var empties := ChildrenOfLabel(a.nodes, x, Empty);
    var fulls := ChildrenOfLabel(a.nodes, x, Full);
    if |fulls| == 0 || |empties| == 0 || |fulls| + |empties| != |a.nodes[x].children| {
      return false;
    }
    if |fulls| == 1 {
      return true;
    }
    assert NodeIn(a.nodes[x], |a.nodes|);
    LabelPartition(a.nodes, a.nodes[x].children, Full, Empty);
    WithoutFullIsEmpty(a.nodes, a.nodes[x].children);
    GatherFulls(a, x, fulls);
    return true;
  }

  /** The replacement phase of P2: a new FULL P-node with parent `x` is added to the
      children of `x`, takes `fulls` as its children, and `fulls` leave `x`. */
  method GatherFulls(a: Arena, x: Id, fulls: seq<Id>)
    requires a.Valid() && x < |a.nodes| && AllIn(fulls, |a.nodes|)
    modifies a
    ensures a.Valid()
    ensures a.nodes == old(a.nodes)[x := old(a.nodes)[x].(children := Without(old(a.nodes)[x].children, fulls) + [|old(a.nodes)|])]
                       + [Fresh(PNode, Full).(parent := Ref(x), children := fulls)]
  {
    ghost var was := a.nodes;
    ghost var made := Fresh(PNode, Full).(parent := Ref(x), children := fulls);
    assert NodeIn(was[x], |was|);
    var fullParent := a.NewNode(PNode, Full);
    a.SetParent(fullParent, Ref(x));
    assert a.nodes == was + [Fresh(PNode, Full).(parent := Ref(x))];
    a.SetChildren(x, a.nodes[x].children + [fullParent]);
    assert a.nodes == was[x := was[x].(children := was[x].children + [fullParent])]
                      + [Fresh(PNode, Full).(parent := Ref(x))];
    AddChildren(a, fullParent, fulls);
    assert [] + fulls == fulls;
    assert a.nodes == was[x := was[x].(children := was[x].children + [fullParent])] + [made];
    WithoutAppend(was[x].children, [fullParent], fulls);
    assert Without([fullParent], fulls) == [fullParent] by {
      assert fullParent !in fulls;
      assert Without([], fulls) == [];
    }
    ghost var left := Without(was[x].children, fulls) + [fullParent];
    assert Without(was[x].children + [fullParent], fulls) == left;
    UpdateBeforeLast(was, x, was[x].(children := was[x].children + [fullParent]), was[x].(children := left), made);
    RemoveChildren(a, x, fulls);
  }

  /** Updating a position before the last one of `s + [m]`. */
  lemma UpdateBeforeLast(s: seq<Node>, x: nat, u: Node, v: Node, m: Node)
    requires x < |s|
    ensures (s[x := u] + [m])[x := v] == s[x := v] + [m]
  {
  }

  /** The ring of the two new children of the Q-node P3 builds, in order: the EMPTY side
      first unless it is a lone EMPTY child next to a new FULL P-node. Position n + 1 is
      the new EMPTY P-node and n + 2 the new FULL one, for an arena of n nodes. */
  function P3Ring(nodes: seq<Node>, x: Id): seq<Id>
    requires ValidNodes(nodes) && x < |nodes| && SplitsEmptyFull(nodes, x)
  {
    SidesRing(|nodes|, ChildrenOfLabel(nodes, x, Empty), ChildrenOfLabel(nodes, x, Full))
  }

  /** The ring P3 builds under the new Q-node `q` from the EMPTY children `e` and the
      FULL children `f`. */
  function SidesRing(q: Id, e: seq<Id>, f: seq<Id>): seq<Id>
    requires |e| > 0 && |f| > 0
  {
    if |e| == 1 && |f| == 1 then [e[0], f[0]]
    else if |e| == 1 then [q + 2, e[0]]
    else if |f| == 1 then [q + 1, f[0]]
    else [q + 1, q + 2]
  }

  /** `TEMPLATE_P3` (on a node below the root). It matches iff `SplitsEmptyFull`. Then a
      new PARTIAL Q-node takes the place of `x`; its two children, a lone EMPTY (FULL)
      child or a new EMPTY (FULL) P-node over all of them, form a closed ring and have
      the Q-node as their parent. No label or counter of an existing node changes. */
  method TemplateP3(a: Arena, x: Id) returns (r: bool)
    requires a.Valid() && x < |a.nodes|
    modifies a
    ensures a.Valid()
    ensures r <==> SplitsEmptyFull(old(a.nodes), x)
    ensures !r ==> a.nodes == old(a.nodes)
    ensures r ==> var n := |old(a.nodes)|;
      && |a.nodes| > n
      && a.nodes[n].kind == QNode && a.nodes[n].mark == Partial
      && (forall c :: c in a.nodes[n].children ==> a.nodes[c].parent == Ref(n))
      && CountsKept(old(a.nodes), a.nodes) && LabelsKept(old(a.nodes), a.nodes)
      && IsRing(a.nodes, P3Ring(old(a.nodes), x))
    ensures r ==> var p := old(a.nodes)[x].parent; var n := |old(a.nodes)|;
      && (p != Null ==> a.nodes[p.id].children == Replaced(old(a.nodes)[p.id].children, n, x))
      && (forall i :: 0 <= i < n && Ref(i) != p ==> a.nodes[i].children == old(a.nodes)[i].children)
      && (a.nodes[n].parent == p || a.nodes[n].parent == Ref(n))
    ensures r && |ChildrenOfLabel(old(a.nodes), x, Empty)| + |ChildrenOfLabel(old(a.nodes), x, Full)| > 2 ==>
      var n := |old(a.nodes)|;
      && |a.nodes| == n + 3
      && a.nodes[n + 1].kind == PNode && a.nodes[n + 1].mark == Empty && a.nodes[n + 1].parent == Ref(n)
      && a.nodes[n + 1].children == ChildrenOfLabel(old(a.nodes), x, Empty)
      && a.nodes[n + 2].kind == PNode && a.nodes[n + 2].mark == Full && a.nodes[n + 2].parent == Ref(n)
      && a.nodes[n + 2].children == ChildrenOfLabel(old(a.nodes), x, Full)
  {
    if a.nodes[x].kind != PNode {
      return false;
    }
    var empties := ChildrenOfLabel(a.nodes, x, Empty);
    var fulls := ChildrenOfLabel(a.nodes, x, Full);
    if |fulls| == 0 || |empties| == 0 || |fulls| + |empties| != |a.nodes[x].children| {
      return false;
    }
    assert NodeIn(a.nodes[x], |a.nodes|);
    assert empties[0] in empties && fulls[0] in fulls;
    assert empties[0] != fulls[0];
    MakePartialQNode(a, x, empties, fulls);
    return true;
  }

  /** Attributes kept, children kept except those of `q`, and every parent either kept or
      set to `q`. */
  ghost predicate PlacedUnder(was: seq<Node>, now: seq<Node>, q: Id) {
    && |was| == |now|
    && (forall i :: 0 <= i < |was| ==> SameAttributes(was[i], now[i]))
    && (forall i :: 0 <= i < |was| && i != q ==> now[i].children == was[i].children)
    && (forall i :: 0 <= i < |was| ==> now[i].parent == was[i].parent || now[i].parent == Ref(q))
  }

  /** The last steps of every branch of P3: `u` and `w` become a ring of two, the
      endmost children of `q` are set, and the children of `q` point at it. */
  method PairUnder(a: Arena, q: Id, u: Id, w: Id)
    requires a.Valid() && q < |a.nodes| && u < |a.nodes| && w < |a.nodes| && u != w
    modifies a
    ensures a.Valid() && PlacedUnder(old(a.nodes), a.nodes, q)
    ensures IsRing(a.nodes, [u, w])
    ensures forall c :: c in a.nodes[q].children ==> a.nodes[c].parent == Ref(q)
  {
    ghost var was := a.nodes;
    SetCircularLinks(a, [u, w]);
    SetQNodeEndmostChildren(a, q, Ref(u), Ref(w));
    SetParentQNodeChildren(a, q);
  }

  /** Counters and labels survive a step that keeps every node's attributes. */
  lemma KeptThrough(was: seq<Node>, mid: seq<Node>, now: seq<Node>)
    requires CountsKept(was, mid) && LabelsKept(was, mid)
    requires |mid| == |now| && forall i :: 0 <= i < |mid| ==> SameAttributes(mid[i], now[i])
    ensures CountsKept(was, now) && LabelsKept(was, now)
  {
  }

  lemma KeptTrans(s1: seq<Node>, s2: seq<Node>, s3: seq<Node>)
    requires CountsKept(s1, s2) && LabelsKept(s1, s2)
    requires CountsKept(s2, s3) && LabelsKept(s2, s3)
    ensures CountsKept(s1, s3) && LabelsKept(s1, s3)
  {
  }

  /** The replacement phase of P3, given the EMPTY and FULL children of `x`. */
  method MakePartialQNode(a: Arena, x: Id, empties: seq<Id>, fulls: seq<Id>)
    requires a.Valid() && x < |a.nodes| && AllIn(empties, |a.nodes|) && AllIn(fulls, |a.nodes|)
    requires |empties| > 0 && |fulls| > 0 && empties[0] != fulls[0]
    modifies a
    ensures a.Valid()
    ensures var n := |old(a.nodes)|;
      && |a.nodes| == n + (if |empties| == 1 && |fulls| == 1 then 1 else 3)
      && a.nodes[n].kind == QNode && a.nodes[n].mark == Partial
      && (forall c :: c in a.nodes[n].children ==> a.nodes[c].parent == Ref(n))
      && CountsKept(old(a.nodes), a.nodes) && LabelsKept(old(a.nodes), a.nodes)
    ensures IsRing(a.nodes, SidesRing(|old(a.nodes)|, empties, fulls))
    ensures var p := old(a.nodes)[x].parent; var n := |old(a.nodes)|;
      && (p != Null ==> a.nodes[p.id].children == Replaced(old(a.nodes)[p.id].children, n, x))
      && (forall i :: 0 <= i < n && Ref(i) != p ==> a.nodes[i].children == old(a.nodes)[i].children)
      && (a.nodes[n].parent == p || a.nodes[n].parent == Ref(n))
    ensures |empties| + |fulls| > 2 ==> var n := |old(a.nodes)|;
      && a.nodes[n + 1].kind == PNode && a.nodes[n + 1].mark == Empty && a.nodes[n + 1].parent == Ref(n)
      && a.nodes[n + 1].children == empties
      && a.nodes[n + 2].kind == PNode && a.nodes[n + 2].mark == Full && a.nodes[n + 2].parent == Ref(n)
      && a.nodes[n + 2].children == fulls
  {
    ghost var was := a.nodes;
    assert empties[0] in empties && fulls[0] in fulls;
    var xQ := a.NewNode(QNode, Partial);
    ReplaceParent(a, xQ, x);
    ghost var placed := a.nodes;
    assert CountsKept(was, placed) && LabelsKept(was, placed);
    if |empties| == 1 && |fulls| == 1 {
      PairUnder(a, xQ, empties[0], fulls[0]);
      KeptThrough(was, placed, a.nodes);
      return;
    }
    BuildSides(a, xQ, empties, fulls);
    CountsKeptTrans(was, placed, a.nodes);
  }

  /** The branches of P3 with more than two children to place: new EMPTY and FULL
      P-nodes under `q`, linked with any lone child into a ring of two. */
  method BuildSides(a: Arena, q: Id, empties: seq<Id>, fulls: seq<Id>)
    requires a.Valid() && q == |a.nodes| - 1 && AllIn(empties, |a.nodes|) && AllIn(fulls, |a.nodes|)
    requires |empties| > 0 && |fulls| > 0 && |empties| + |fulls| > 2 && empties[0] != fulls[0]
    modifies a
    ensures a.Valid() && |a.nodes| == q + 3
    ensures SameAttributes(old(a.nodes)[q], a.nodes[q])
    ensures forall c :: c in a.nodes[q].children ==> a.nodes[c].parent == Ref(q)
    ensures CountsKept(old(a.nodes), a.nodes) && LabelsKept(old(a.nodes), a.nodes)
    ensures IsRing(a.nodes, SidesRing(q, empties, fulls))
    ensures a.nodes[q + 1].kind == PNode && a.nodes[q + 1].mark == Empty && a.nodes[q + 1].parent == Ref(q)
    ensures a.nodes[q + 1].children == empties
    ensures a.nodes[q + 2].kind == PNode && a.nodes[q + 2].mark == Full && a.nodes[q + 2].parent == Ref(q)
    ensures a.nodes[q + 2].children == fulls
    ensures forall i :: 0 <= i < q ==> a.nodes[i].children == old(a.nodes)[i].children
    ensures a.nodes[q].parent == old(a.nodes)[q].parent || a.nodes[q].parent == Ref(q)
  {
    ghost var was := a.nodes;
    assert empties[0] in empties && fulls[0] in fulls;
    var emptyPNode, fullPNode := MakeSides(a, q, empties, fulls);
    ghost var built := a.nodes;
    LinkSides(a, q, emptyPNode, fullPNode, |empties| == 1, |fulls| == 1, empties[0], fulls[0]);
    SidesPlaced(was, built, a.nodes, q, empties, fulls);
  }

  /** What `BuildSides` leaves, from the two steps it takes. */
  lemma SidesPlaced(was: seq<Node>, built: seq<Node>, now: seq<Node>, q: Id, empties: seq<Id>, fulls: seq<Id>)
    requires q == |was| - 1
    requires built == was + [Fresh(PNode, Empty).(parent := Ref(q), children := empties),
                             Fresh(PNode, Full).(parent := Ref(q), children := fulls)]
    requires PlacedUnder(built, now, q)
    requires |empties| > 0 && |fulls| > 0 && |empties| + |fulls| > 2
    requires IsRing(now, if |empties| == 1 && !(|fulls| == 1) then [q + 2, empties[0]]
                         else if |fulls| == 1 && !(|empties| == 1) then [q + 1, fulls[0]]
                         else [q + 1, q + 2])
    ensures IsRing(now, SidesRing(q, empties, fulls))
    ensures |now| == q + 3 && SameAttributes(was[q], now[q])
    ensures CountsKept(was, now) && LabelsKept(was, now)
    ensures now[q + 1].kind == PNode && now[q + 1].mark == Empty && now[q + 1].parent == Ref(q)
    ensures now[q + 1].children == empties
    ensures now[q + 2].kind == PNode && now[q + 2].mark == Full && now[q + 2].parent == Ref(q)
    ensures now[q + 2].children == fulls
    ensures forall i :: 0 <= i < q ==> now[i].children == was[i].children
    ensures now[q].parent == was[q].parent || now[q].parent == Ref(q)
  {
    GrownKept(was, built);
    assert built[q] == was[q];
    KeptThrough(was, built, now);
  }

  /** Appending fresh nodes keeps every counter and label. */
  lemma GrownKept(was: seq<Node>, now: seq<Node>)
    requires |was| <= |now| && now[..|was|] == was
    requires forall i :: |was| <= i < |now| ==> now[i].pertinentChildCount == 0
    ensures CountsKept(was, now) && LabelsKept(was, now)
  {
    forall i | 0 <= i < |was|
      ensures now[i] == was[i]
    {
      assert now[..|was|][i] == now[i];
    }
  }

  /** The new EMPTY and FULL P-nodes of P3, with parent `q`, over `empties` and `fulls`. */
  method MakeSides(a: Arena, q: Id, empties: seq<Id>, fulls: seq<Id>) returns (e: Id, f: Id)
    requires a.Valid() && q < |a.nodes| && AllIn(empties, |a.nodes|) && AllIn(fulls, |a.nodes|)
    modifies a
    ensures a.Valid() && e == |old(a.nodes)| && f == e + 1
    ensures a.nodes == old(a.nodes) + [Fresh(PNode, Empty).(parent := Ref(q), children := empties),
                                       Fresh(PNode, Full).(parent := Ref(q), children := fulls)]
  {
    e := a.NewNode(PNode, Empty);
    f := a.NewNode(PNode, Full);
    a.SetParent(e, Ref(q));
    a.SetParent(f, Ref(q));
    AddChildren(a, e, empties);
    AddChildren(a, f, fulls);
    assert [] + empties == empties && [] + fulls == fulls;
  }

  /** The three general branches of P3: link a lone child or the new P-node of each side
      into a ring of two under `q`, then point the children of `q` at it once more. */
  method LinkSides(a: Arena, q: Id, e: Id, f: Id, loneEmpty: bool, loneFull: bool, e0: Id, f0: Id)
    requires a.Valid() && q < |a.nodes| && e < |a.nodes| && f < |a.nodes| && e0 < |a.nodes| && f0 < |a.nodes|
    requires e != f && f != e0 && e != f0
    modifies a
    ensures a.Valid() && PlacedUnder(old(a.nodes), a.nodes, q)
    ensures IsRing(a.nodes, if loneEmpty && !loneFull then [f, e0] else if loneFull && !loneEmpty then [e, f0] else [e, f])
    ensures forall c :: c in a.nodes[q].children ==> a.nodes[c].parent == Ref(q)
  {
    ghost var was := a.nodes;
    ghost var ring := if loneEmpty && !loneFull then [f, e0] else if loneFull && !loneEmpty then [e, f0] else [e, f];
    if loneEmpty && !loneFull {
      PairUnder(a, q, f, e0);
    } else if loneFull && !loneEmpty {
      PairUnder(a, q, e, f0);
    } else {
      SetCircularLinks(a, [e, f]);
      ghost var linked := a.nodes;
      PairUnder(a, q, e, f);
      PlacedUnderTrans(was, linked, a.nodes, q);
    }
    ghost var paired := a.nodes;
    SetParentQNodeChildren(a, q);
    RingKeptByParents(paired, a.nodes, ring);
    PlacedUnderTrans(was, paired, a.nodes, q);
  }

  lemma PlacedUnderTrans(s1: seq<Node>, s2: seq<Node>, s3: seq<Node>, q: Id)
    requires PlacedUnder(s1, s2, q) || LinksOnly(s1, s2)
    requires PlacedUnder(s2, s3, q) ||
      (|s2| == |s3| && forall i :: 0 <= i < |s2| ==> s3[i] == s2[i].(parent := s3[i].parent) && (s3[i].parent == s2[i].parent || s3[i].parent == Ref(q)))
    ensures PlacedUnder(s1, s3, q)
  {
  }

  /** Changing parents only keeps a ring. */
  lemma RingKeptByParents(s: seq<Node>, t: seq<Node>, ring: seq<Id>)
    requires IsRing(s, ring) && |s| == |t|
    requires forall i :: 0 <= i < |s| ==> t[i] == s[i].(parent := t[i].parent)
    ensures IsRing(t, ring)
  {
    forall i | 0 <= i < |ring|
      ensures t[ring[i]].next == Ref(ring[Succ(i, |ring|)]) && t[ring[i]].prev == Ref(ring[Pred(i, |ring|)])
    {
      assert s[ring[i]].next == Ref(ring[Succ(i, |ring|)]);
      assert s[ring[i]].prev == Ref(ring[Pred(i, |ring|)]);
    }
  }

  // ---------------------------------------------------------------------------------
  // P4: one PARTIAL Q-node child (root of the pertinent subtree)

  /** The matching phase of P4: `x` is a P-node whose children are EMPTY, FULL or
      PARTIAL with exactly one PARTIAL child, a Q-node whose FULL children and whose
      EMPTY children are each consecutive. */
  ghost predicate P4Matches(nodes: seq<Node>, x: Id)
    requires ValidNodes(nodes) && x < |nodes|
  {
    var e := ChildrenOfLabel(nodes, x, Empty);
    var f := ChildrenOfLabel(nodes, x, Full);
    var p := ChildrenOfLabel(nodes, x, Partial);
    && nodes[x].kind == PNode
    && |p| == 1
    && |f| + |e| + |p| == |nodes[x].children|
    && (assert p[0] in p; nodes[p[0]].kind == QNode)
    && Consecutive(nodes, ChildrenOfLabel(nodes, p[0], Full))
    && Consecutive(nodes, ChildrenOfLabel(nodes, p[0], Empty))
  }

  /** The PARTIAL child of a node with exactly one. */
  function ThePartial(nodes: seq<Node>, x: Id): (q: Id)
    requires ValidNodes(nodes) && x < |nodes| && |ChildrenOfLabel(nodes, x, Partial)| == 1
    ensures q < |nodes| && q in nodes[x].children && nodes[q].mark == Partial
  {
    var p := ChildrenOfLabel(nodes, x, Partial);
    assert p[0] in p;
    p[0]
  }

  /** `TEMPLATE_P4`. A non-match returns false and changes nothing; a match never
      returns false. It fails (IndexOutOfBoundsException) exactly when the PARTIAL Q-node
      has fewer than two children. On success the FULL children of `x` are gone from
      it, and the lone FULL child, or a new FULL P-node over all of them, has the Q-node
      as parent; every child of the Q-node points at it; no label or counter of an
      existing node changes. */
  method TemplateP4(a: Arena, x: Id) returns (r: Outcome<bool>)
    requires a.Valid() && x < |a.nodes|
    modifies a
    ensures a.Valid()
    ensures !P4Matches(old(a.nodes), x) ==> r == Value(false) && a.nodes == old(a.nodes)
    ensures P4Matches(old(a.nodes), x) ==>
      var q := ThePartial(old(a.nodes), x);
      var f := ChildrenOfLabel(old(a.nodes), x, Full);
      var n := |old(a.nodes)|;
      && (r == Fault <==> |old(a.nodes)[q].children| < 2)
      && (r != Fault ==> r == Value(true))
      && (r == Value(true) ==>
            && CountsKept(old(a.nodes), a.nodes) && LabelsKept(old(a.nodes), a.nodes)
            && (forall c :: c in a.nodes[q].children ==> a.nodes[c].parent == Ref(q))
            && (forall c :: c in f ==> c !in a.nodes[x].children)
            && (|f| == 1 ==> |a.nodes| == n && forall c :: c in f ==> a.nodes[c].parent == Ref(q))
            && (|f| != 1 ==> |a.nodes| == n + 1 && a.nodes[n].kind == PNode && a.nodes[n].mark == Full
                             && a.nodes[n].children == f && a.nodes[n].parent == Ref(q)))
  {
    if a.nodes[x].kind != PNode {
      return Value(false);
    }
    var empties := ChildrenOfLabel(a.nodes, x, Empty);
    var fulls := ChildrenOfLabel(a.nodes, x, Full);
    var partials := ChildrenOfLabel(a.nodes, x, Partial);
    if |partials| != 1 {
      return Value(false);
    }
    if |fulls| + |empties| + |partials| != |a.nodes[x].children| {
      return Value(false);
    }
    assert partials[0] in partials;
    if a.nodes[partials[0]].kind != QNode {
      return Value(false);
    }
    var partialNode := partials[0];
    if !Consecutive(a.nodes, ChildrenOfLabel(a.nodes, partialNode, Full)) {
      return Value(false);
    }
    if !Consecutive(a.nodes, ChildrenOfLabel(a.nodes, partialNode, Empty)) {
      return Value(false);
    }
    var qNode := partialNode;
    assert NodeIn(a.nodes[qNode], |a.nodes|);
    if |a.nodes[qNode].children| < 2 {
      return Fault;
    }
    var leftMost, rightMost := a.nodes[qNode].children[0], a.nodes[qNode].children[1];
    assert leftMost in a.nodes[qNode].children && rightMost in a.nodes[qNode].children;
    assert qNode !in fulls;
    MoveFullsToQNode(a, x, qNode, fulls, leftMost, rightMost);
    return Value(true);
  }

  /** The replacement phase of P4, once the ends of the Q-node `q` are known. */
  method MoveFullsToQNode(a: Arena, x: Id, q: Id, fulls: seq<Id>, leftMost: Id, rightMost: Id)
    requires a.Valid() && x < |a.nodes| && q < |a.nodes| && x != q && AllIn(fulls, |a.nodes|)
    requires q !in fulls && leftMost < |a.nodes| && rightMost < |a.nodes| && |a.nodes[q].children| >= 2
    modifies a
    ensures a.Valid()
    ensures var n := |old(a.nodes)|;
      && CountsKept(old(a.nodes), a.nodes) && LabelsKept(old(a.nodes), a.nodes)
      && (forall c :: c in a.nodes[q].children ==> a.nodes[c].parent == Ref(q))
      && (forall c :: c in fulls ==> c !in a.nodes[x].children)
      && (|fulls| == 1 ==> |a.nodes| == n && forall c :: c in fulls ==> a.nodes[c].parent == Ref(q))
      && (|fulls| != 1 ==> |a.nodes| == n + 1 && a.nodes[n].kind == PNode && a.nodes[n].mark == Full
                           && a.nodes[n].children == fulls && a.nodes[n].parent == Ref(q))
  {
    ghost var was := a.nodes;
    var side := DetachFulls(a, x, q, fulls);
    ghost var sided := a.nodes;
    Reattach(a, x, q, side, leftMost, rightMost);
    KeptThrough(was, sided, a.nodes);
    assert forall c :: c in fulls ==> c !in a.nodes[x].children;
    if |fulls| == 1 {
      assert fulls == [side];
    }
  }

  /** The first half of the replacement phase of P4: the FULL children leave `x`, and the
      lone one or a new FULL P-node over all of them gets `q` as its parent. */
  method DetachFulls(a: Arena, x: Id, q: Id, fulls: seq<Id>) returns (side: Id)
    requires a.Valid() && x < |a.nodes| && q < |a.nodes| && AllIn(fulls, |a.nodes|)
    modifies a
    ensures a.Valid() && side < |a.nodes| && |a.nodes| >= |old(a.nodes)|
    ensures Detached(old(a.nodes), a.nodes, x, q, fulls, side)
  {
    ghost var was := a.nodes;
    RemoveChildren(a, x, fulls);
    ghost var removed := a.nodes;
    if |fulls| == 1 {
      side := fulls[0];
      assert side in fulls;
      a.SetParent(side, Ref(q));
      DetachedLone(was, removed, a.nodes, x, q, fulls);
    } else {
      side := a.NewNode(PNode, Full);
      ghost var made := a.nodes;
      AddChildren(a, side, fulls);
      ghost var added := a.nodes;
      a.SetParent(side, Ref(q));
      DetachedMany(was, removed, made, added, a.nodes, x, q, fulls);
    }
  }

  /** What the first half of P4 leaves: counters and labels kept, the FULL children
      gone from `x` (the children of `q` are those when `q` is `x`), and `side`, the lone
      FULL child or a new FULL P-node over all of them, has `q` as its parent. */
  ghost predicate Detached(was: seq<Node>, now: seq<Node>, x: Id, q: Id, fulls: seq<Id>, side: Id)
    requires x < |was| && q < |was| && |was| <= |now| && side < |now|
  {
    var n := |was|;
    && (|fulls| != 1 ==> now[x].parent == was[x].parent)
    && CountsKept(was, now) && LabelsKept(was, now)
    && now[q].children == (if q == x then Without(was[x].children, fulls) else was[q].children)
    && (forall c :: c in fulls ==> c !in now[x].children)
    && now[side].parent == Ref(q)
    && (|fulls| == 1 ==> |now| == n && side == fulls[0])
    && (|fulls| != 1 ==> |now| == n + 1 && side == n && now[n].kind == PNode && now[n].mark == Full
                         && now[n].children == fulls)
  }

  lemma DetachedLone(was: seq<Node>, removed: seq<Node>, now: seq<Node>, x: Id, q: Id, fulls: seq<Id>)
    requires x < |was| && q < |was| && |fulls| == 1 && fulls[0] < |was|
    requires removed == was[x := was[x].(children := Without(was[x].children, fulls))]
    requires now == removed[fulls[0] := removed[fulls[0]].(parent := Ref(q))]
    ensures Detached(was, now, x, q, fulls, fulls[0])
  {
  }

  lemma DetachedMany(was: seq<Node>, removed: seq<Node>, made: seq<Node>, added: seq<Node>, now: seq<Node>,
                     x: Id, q: Id, fulls: seq<Id>)
    requires x < |was| && q < |was| && |fulls| != 1
    requires removed == was[x := was[x].(children := Without(was[x].children, fulls))]
    requires made == removed + [Fresh(PNode, Full)]
    requires added == made[|was| := made[|was|].(children := made[|was|].children + fulls)]
    requires now == added[|was| := added[|was|].(parent := Ref(q))]
    ensures Detached(was, now, x, q, fulls, |was|)
  {
    var n := |was|;
    assert [] + fulls == fulls;
    assert now[n] == Fresh(PNode, Full).(children := fulls, parent := Ref(q));
    assert forall i :: 0 <= i < n ==> now[i] == removed[i];
    DetachedNew(was, now, x, q, fulls);
  }

  lemma DetachedNew(was: seq<Node>, now: seq<Node>, x: Id, q: Id, fulls: seq<Id>)
    requires x < |was| && q < |was| && |fulls| != 1 && |now| == |was| + 1
    requires forall i :: 0 <= i < |was| && i != x ==> now[i] == was[i]
    requires now[x] == was[x].(children := Without(was[x].children, fulls))
    requires now[|was|] == Fresh(PNode, Full).(children := fulls, parent := Ref(q))
    ensures Detached(was, now, x, q, fulls, |was|)
  {
    var v := Fresh(PNode, Full);
    assert now[|was|].pertinentChildCount == v.pertinentChildCount == 0;
    forall i | |was| <= i < |now|
      ensures now[i].pertinentChildCount == 0
    {
      assert i == |was|;
    }
    forall i | 0 <= i < |was|
      ensures SameAttributes(was[i], now[i])
    {
      if i == x {
        assert now[i] == was[i].(children := Without(was[i].children, fulls));
      }
    }
    AttributesKept(was, now);
  }

  /** Nodes that keep their attributes keep their counters and labels. */
  lemma AttributesKept(was: seq<Node>, now: seq<Node>)
    requires |was| <= |now| && forall i :: 0 <= i < |was| ==> SameAttributes(was[i], now[i])
    requires forall i :: |was| <= i < |now| ==> now[i].pertinentChildCount == 0
    ensures CountsKept(was, now) && LabelsKept(was, now)
  {
  }

  /** The second half of the replacement phase of P4: `side` joins the Q-node `q` at its
      non-EMPTY end; if `x` is left with one child, `q` takes its place in the parent of
      `x`; the children of `q` point at it. The children of `x` and the parent of `side`
      keep their values. */
  method Reattach(a: Arena, x: Id, q: Id, side: Id, leftMost: Id, rightMost: Id)
    requires a.Valid() && x < |a.nodes| && q < |a.nodes| && x != q && side < |a.nodes|
    requires leftMost < |a.nodes| && rightMost < |a.nodes| && |a.nodes[q].children| > 0
    requires a.nodes[side].parent == Ref(q)
    modifies a
    ensures a.Valid() && |a.nodes| == |old(a.nodes)|
    ensures forall i :: 0 <= i < |a.nodes| ==> SameAttributes(old(a.nodes)[i], a.nodes[i])
    ensures forall c :: c in a.nodes[q].children ==> a.nodes[c].parent == Ref(q)
    ensures forall c :: c in a.nodes[x].children ==> c in old(a.nodes)[x].children || c == q
    ensures a.nodes[side].parent == Ref(q)
    ensures forall i :: 0 <= i < |a.nodes| && i != q && Ref(i) != old(a.nodes)[x].parent ==>
      a.nodes[i].children == old(a.nodes)[i].children
    ensures var p := old(a.nodes)[x].parent;
      a.nodes[x].parent != Ref(q) && |old(a.nodes)[x].children| == 1 && p != Null ==>
        a.nodes[p.id].children == Replaced(old(a.nodes)[p.id].children, q, x)
    ensures var p := old(a.nodes)[x].parent;
      a.nodes[x].parent != Ref(q) && (|old(a.nodes)[x].children| != 1 || p == Null) ==>
        forall i :: 0 <= i < |a.nodes| && i != q ==> a.nodes[i].children == old(a.nodes)[i].children
  {
    AttachAtFullEnd(a, q, side, leftMost, rightMost);
    ghost var attached := a.nodes;
    var xParent := a.nodes[x].parent;
    if |a.nodes[x].children| == 1 && xParent != Null {
      ReplaceChild(a, xParent.id, q, x);
    }
    ghost var replaced := a.nodes;
    assert replaced[x].parent == attached[x].parent;
    SetParentQNodeChildren(a, q);
    assert a.nodes[x].parent != Ref(q) ==> attached[x].parent == old(a.nodes)[x].parent;
  }

  /** The insertion P4 does in both of its branches: `side` goes next to the end of the
      Q-node `q` that is not EMPTY and becomes that endmost child, and the children of
      `q` point at it. Only sibling links, the children of `q` and parents (set to `q`)
      change. */
  method AttachAtFullEnd(a: Arena, q: Id, side: Id, leftMost: Id, rightMost: Id)
    requires a.Valid() && q < |a.nodes| && side < |a.nodes| && leftMost < |a.nodes| && rightMost < |a.nodes|
    requires |a.nodes[q].children| > 0
    modifies a
    ensures a.Valid() && |a.nodes| == |old(a.nodes)|
    ensures forall c :: c in a.nodes[q].children ==> a.nodes[c].parent == Ref(q)
    ensures forall i :: 0 <= i < |a.nodes| ==> SameAttributes(old(a.nodes)[i], a.nodes[i])
    ensures forall i :: 0 <= i < |a.nodes| && i != q ==> a.nodes[i].children == old(a.nodes)[i].children
    ensures forall i :: 0 <= i < |a.nodes| ==>
      a.nodes[i].parent == old(a.nodes)[i].parent || a.nodes[i].parent == Ref(q)
    ensures forall i :: 0 <= i < |a.nodes| && i !in a.nodes[q].children ==>
      a.nodes[i].parent == old(a.nodes)[i].parent
  {
    var first := a.nodes[q].children[0];
    assert NodeIn(a.nodes[q], |a.nodes|) && first in a.nodes[q].children;
    if a.nodes[first].mark != Empty {
      InsertNodeIntoCircularList(a, side, leftMost, rightMost);
      SetQNodeEndmostChildren(a, q, Ref(side), Null);
    } else {
      InsertNodeIntoCircularList(a, side, rightMost, leftMost);
      SetQNodeEndmostChildren(a, q, Null, Ref(side));
    }
    SetParentQNodeChildren(a, q);
  }

  // ---------------------------------------------------------------------------------
  // P5 and P6: the children loop they share

  /** The Q-node children among `cs`, in order. */
  function QNodesIn(nodes: seq<Node>, cs: seq<Id>): (r: seq<Id>)
    requires AllIn(cs, |nodes|)
    ensures |r| <= |cs| && AllIn(r, |nodes|)
    ensures forall c :: c in r <==> c in cs && nodes[c].kind == QNode
  {
    if cs == [] then []
    else
      var init, last := cs[..|cs| - 1], cs[|cs| - 1];
      assert forall c :: c in cs <==> c in init || c == last;
      assert last in cs;
      if nodes[last].kind == QNode then QNodesIn(nodes, init) + [last] else QNodesIn(nodes, init)
  }

  /** The children among `cs` that are not Q-nodes and are labelled `l`, in order. */
  function PlainOfLabel(nodes: seq<Node>, cs: seq<Id>, l: Label): (r: seq<Id>)
    requires AllIn(cs, |nodes|)
    ensures |r| <= |cs| && AllIn(r, |nodes|)
    ensures forall c :: c in r <==> c in cs && nodes[c].kind != QNode && nodes[c].mark == l
  {
    if cs == [] then []
    else
      var init, last := cs[..|cs| - 1], cs[|cs| - 1];
      assert forall c :: c in cs <==> c in init || c == last;
      assert last in cs;
      if nodes[last].kind != QNode && nodes[last].mark == l then PlainOfLabel(nodes, init, l) + [last]
      else PlainOfLabel(nodes, init, l)
  }

  /** The loop of P5 and P6 over the children of `x`: the Q-node children, and the other
      children labelled EMPTY and FULL, each in order. */
  method ClassifyChildren(a: Arena, x: Id) returns (qs: seq<Id>, es: seq<Id>, fs: seq<Id>)
    requires a.Valid() && x < |a.nodes|
    ensures AllIn(a.nodes[x].children, |a.nodes|)
    ensures qs == QNodesIn(a.nodes, a.nodes[x].children)
    ensures es == PlainOfLabel(a.nodes, a.nodes[x].children, Empty)
    ensures fs == PlainOfLabel(a.nodes, a.nodes[x].children, Full)
  {
    var cs := a.nodes[x].children;
    assert NodeIn(a.nodes[x], |a.nodes|);
    forall i | 0 <= i <= |cs|
      ensures AllIn(cs[..i], |a.nodes|)
    {
      assert forall c :: c in cs[..i] ==> c in cs;
    }
    qs, es, fs := [], [], [];
    for i := 0 to |cs|
      invariant qs == QNodesIn(a.nodes, cs[..i])
      invariant es == PlainOfLabel(a.nodes, cs[..i], Empty)
      invariant fs == PlainOfLabel(a.nodes, cs[..i], Full)
    {
      assert cs[i] in cs;
      assert cs[..i + 1][..i] == cs[..i];
      var n := cs[i];
      if a.nodes[n].kind == QNode {
        qs := qs + [n];
      } else if a.nodes[n].mark == Empty {
        es := es + [n];
      } else if a.nodes[n].mark == Full {
        fs := fs + [n];
      }
    }
    assert cs[..|cs|] == cs;
  }

  // ---------------------------------------------------------------------------------
  // P5: one PARTIAL Q-node child (below the root)

  /** The matching phase of P5: `x` is a P-node with children, exactly one of which (as
      counted along the children list) is a Q-node, and that one is PARTIAL. Children
      that are neither Q-nodes nor EMPTY or FULL are not looked at. */
  ghost predicate P5Matches(nodes: seq<Node>, x: Id)
    requires ValidNodes(nodes) && x < |nodes|
  {
    assert NodeIn(nodes[x], |nodes|);
    var qs := QNodesIn(nodes, nodes[x].children);
    nodes[x].kind == PNode && |nodes[x].children| != 0 && |qs| == 1
    && assert qs[0] in qs; nodes[qs[0]].mark == Partial
  }

  /** `TEMPLATE_P5`. A non-match returns false and changes nothing; a match never returns
      false, and fails (NullPointerException) when `x` has no parent. On success the
      Q-node takes the place of `x` among the children of its parent, every child of the
      Q-node points at it and no label or counter of an existing node changes. The
      parent of `x` is read after the groups join the Q-node, so the fault and the
      placement are stated for a node that is neither its own child nor its parent's
      parent. */
  method TemplateP5(a: Arena, x: Id) returns (r: Outcome<bool>)
    requires a.Valid() && x < |a.nodes|
    modifies a
    ensures a.Valid()
    ensures !P5Matches(old(a.nodes), x) ==> r == Value(false) && a.nodes == old(a.nodes)
    ensures P5Matches(old(a.nodes), x) ==> r != Value(false)
    ensures P5Matches(old(a.nodes), x) && LocallyTree(old(a.nodes), x) ==>
      (r == Fault <==> old(a.nodes)[x].parent == Null)
    ensures r == Value(true) ==>
      var q := QNodesIn(old(a.nodes), old(a.nodes)[x].children)[0];
      && CountsKept(old(a.nodes), a.nodes) && LabelsKept(old(a.nodes), a.nodes)
      && forall c :: c in a.nodes[q].children ==> a.nodes[c].parent == Ref(q)
    ensures r == Value(true) && LocallyTree(old(a.nodes), x) ==>
      var q := QNodesIn(old(a.nodes), old(a.nodes)[x].children)[0];
      var p := old(a.nodes)[x].parent.id;
      && a.nodes[p].children == Replaced(old(a.nodes)[p].children, q, x)
      && (q !in a.nodes[q].children ==> a.nodes[q].parent == old(a.nodes)[x].parent)
  {
    if a.nodes[x].kind != PNode {
      return Value(false);
    }
    if |a.nodes[x].children| == 0 {
      return Value(false);
    }
    var qs, emptyChildList, fullChildList := ClassifyChildren(a, x);
    if |qs| != 1 || (assert qs[|qs| - 1] in qs; a.nodes[qs[|qs| - 1]].mark != Partial) {
      return Value(false);
    }
    var qNode := qs[0];
    assert qNode in qs;
    assert LocallyTree(a.nodes, x) ==> Apart(a.nodes, x, qNode, emptyChildList, fullChildList);
    r := GroupUnderQNode(a, x, qNode, emptyChildList, fullChildList);
  }

  /** The replacement phase of P5: the EMPTY children, the lone one or a new EMPTY P-node
      over all of them, join the Q-node, then likewise the FULL ones; the Q-node takes the
      place of `x` in the parent of `x`, and its children point at it. */
  method GroupUnderQNode(a: Arena, x: Id, q: Id, es: seq<Id>, fs: seq<Id>) returns (r: Outcome<bool>)
    requires a.Valid() && x < |a.nodes| && q < |a.nodes| && AllIn(es, |a.nodes|) && AllIn(fs, |a.nodes|)
    modifies a
    ensures a.Valid() && r != Value(false)
    ensures Apart(old(a.nodes), x, q, es, fs) ==> (r == Fault <==> old(a.nodes)[x].parent == Null)
    ensures r == Value(true) ==>
      && CountsKept(old(a.nodes), a.nodes) && LabelsKept(old(a.nodes), a.nodes)
      && forall c :: c in a.nodes[q].children ==> a.nodes[c].parent == Ref(q)
    ensures r == Value(true) && Apart(old(a.nodes), x, q, es, fs) ==>
      var p := old(a.nodes)[x].parent.id;
      && a.nodes[p].children == Replaced(old(a.nodes)[p].children, q, x)
      && (q !in a.nodes[q].children ==> a.nodes[q].parent == old(a.nodes)[x].parent)
  {
    ghost var was := a.nodes;
    Group(a, q, es, Empty);
    ghost var grouped := a.nodes;
    Group(a, q, fs, Full);
    KeptTrans(was, grouped, a.nodes);
    ghost var both := a.nodes;
    assert Apart(was, x, q, es, fs) ==> both[x].parent == was[x].parent;
    r := TakePlace(a, x, q);
    if r == Value(true) {
      KeptThrough(was, both, a.nodes);
    }
  }

  /** Neither `x` nor its parent is the Q-node or one of the children being grouped, so
      grouping leaves the parent of `x` and that parent's children as they were. */
  ghost predicate Apart(nodes: seq<Node>, x: Id, q: Id, es: seq<Id>, fs: seq<Id>)
    requires x < |nodes|
  {
    var p := nodes[x].parent;
    && x != q && x !in es && x !in fs
    && (p != Null ==> p.id != q && p.id !in es && p.id !in fs)
  }

  /** Neither `x` nor its parent is among the children of `x`, as in any tree. */
  ghost predicate LocallyTree(nodes: seq<Node>, x: Id)
    requires x < |nodes|
  {
    var p := nodes[x].parent;
    x !in nodes[x].children && (p != Null ==> p.id !in nodes[x].children)
  }

  /** The Q-node `q` takes the place of `x` in the parent of `x`, and its children point
      at it; a fault when `x` has no parent, after `q` was given the null parent. Only
      parents and the parent's children list change. */
  method TakePlace(a: Arena, x: Id, q: Id) returns (r: Outcome<bool>)
    requires a.Valid() && x < |a.nodes| && q < |a.nodes|
    modifies a
    ensures a.Valid() && r != Value(false) && |a.nodes| == |old(a.nodes)|
    ensures r == Fault <==> old(a.nodes)[x].parent == Null
    ensures r == Fault ==> a.nodes == old(a.nodes)[q := old(a.nodes)[q].(parent := Null)]
    ensures r == Value(true) ==>
      var p := old(a.nodes)[x].parent.id;
      && (forall i :: 0 <= i < |a.nodes| ==> SameAttributes(old(a.nodes)[i], a.nodes[i]))
      && (forall c :: c in a.nodes[q].children ==> a.nodes[c].parent == Ref(q))
      && a.nodes[p].children == Replaced(old(a.nodes)[p].children, q, x)
      && (q !in a.nodes[q].children ==> a.nodes[q].parent == old(a.nodes)[x].parent)
      && (forall i :: 0 <= i < |a.nodes| && i != p ==> a.nodes[i].children == old(a.nodes)[i].children)
      && (forall i :: 0 <= i < |a.nodes| && i != q && i !in a.nodes[q].children ==>
            a.nodes[i].parent == old(a.nodes)[i].parent)
  {
    var xParent := a.nodes[x].parent;
    assert NodeIn(a.nodes[x], |a.nodes|);
    a.SetParent(q, xParent);
    if xParent == Null {
      return Fault;
    }
    ghost var placed := a.nodes;
    ReplaceChild(a, xParent.id, q, x);
    ghost var replaced := a.nodes;
    SetParentQNodeChildren(a, q);
    forall i | 0 <= i < |a.nodes|
      ensures SameAttributes(old(a.nodes)[i], a.nodes[i])
    {
      assert SameAttributes(old(a.nodes)[i], placed[i]);
      assert SameAttributes(placed[i], replaced[i]);
    }
    return Value(true);
  }

  /** One group of P5: nothing for no children; the lone child; or a new P-node labelled
      `l` over them all; which then joins the Q-node `q`. */
  method Group(a: Arena, q: Id, list: seq<Id>, l: Label)
    requires a.Valid() && q < |a.nodes| && AllIn(list, |a.nodes|)
    modifies a
    ensures a.Valid() && CountsKept(old(a.nodes), a.nodes) && LabelsKept(old(a.nodes), a.nodes)
    ensures forall i :: 0 <= i < |old(a.nodes)| && i != q && i !in list ==>
      a.nodes[i].parent == old(a.nodes)[i].parent && a.nodes[i].children == old(a.nodes)[i].children
  {
    if |list| > 0 {
      var grouped: Id;
      if |list| == 1 {
        grouped := list[0];
        assert grouped in list;
      } else {
        grouped := a.NewNode(PNode, l);
        AddChildren(a, grouped, list);
      }
      ghost var made := a.nodes;
      AddNodesAsChildrenToQNode(a, [grouped], q);
      KeptThrough(old(a.nodes), made, a.nodes);
    }
  }

  // ---------------------------------------------------------------------------------
  // P6: two PARTIAL Q-node children (root of the pertinent subtree)

  /** The matching phase of P6: `x` is a P-node with children, exactly two of which are
      Q-nodes; both are PARTIAL, have two children each, and keep their EMPTY children and
      their FULL children consecutive. */
  ghost predicate P6Matches(nodes: seq<Node>, x: Id)
    requires ValidNodes(nodes) && x < |nodes|
  {
    assert NodeIn(nodes[x], |nodes|);
    var qs := QNodesIn(nodes, nodes[x].children);
    && nodes[x].kind == PNode && |nodes[x].children| != 0 && |qs| == 2
    && (assert qs[0] in qs && qs[1] in qs; QNodeMatchesP6(nodes, qs[0]) && QNodeMatchesP6(nodes, qs[1]))
  }

  /** What P6 asks of each of its two Q-nodes. */
  ghost predicate QNodeMatchesP6(nodes: seq<Node>, q: Id)
    requires ValidNodes(nodes) && q < |nodes|
  {
    && nodes[q].mark == Partial && |nodes[q].children| == 2
    && Consecutive(nodes, ChildrenOfLabel(nodes, q, Empty))
    && Consecutive(nodes, ChildrenOfLabel(nodes, q, Full))
  }

  /** `TEMPLATE_P6`. A non-match returns false and changes nothing; a match returns
      true. Then a FULL P-node (node `n`, holding the FULL children of `x` when there are
      more than one) and a PARTIAL Q-node (node `n + 1`) are new; the ends `l1`, `r1` of
      the first Q-node and `l2`, `r2` of the second are joined into one ring, through the
      P-node when it holds children; the new Q-node's children point at it; if `x` was the
      root it loses its FULL children and both Q-nodes and gains the new Q-node, and
      otherwise the new Q-node takes the place of `x` in its parent. No label or counter of
      an existing node changes. */
  method TemplateP6(a: Arena, x: Id) returns (r: bool, ghost l1: Id, ghost r1: Id, ghost l2: Id, ghost r2: Id)
    requires a.Valid() && x < |a.nodes|
    modifies a
    ensures a.Valid()
    ensures !P6Matches(old(a.nodes), x) ==> !r && a.nodes == old(a.nodes)
    ensures P6Matches(old(a.nodes), x) ==>
      var was := old(a.nodes);
      var n := |was|;
      var qs := QNodesIn(was, was[x].children);
      var fs := PlainOfLabel(was, was[x].children, Full);
      && r && |a.nodes| == n + 2
      && CountsKept(was, a.nodes) && LabelsKept(was, a.nodes)
      && MergedAs(was, a.nodes, x, qs[0], qs[1], fs, l1, r1, l2, r2)
  {
    var m, qs, fs := MatchP6(a, x);
    if !m {
      return false, 0, 0, 0, 0;
    }
    assert qs[0] in qs && qs[1] in qs;
    l1, r1, l2, r2 := MergeQNodes(a, x, qs[0], qs[1], fs);
    r := true;
  }

  /** The matching phase of P6, which changes nothing: true exactly when `P6Matches`
      holds, and then the two Q-node children and the FULL P-node children of `x`. */
  method MatchP6(a: Arena, x: Id) returns (m: bool, qs: seq<Id>, fs: seq<Id>)
    requires a.Valid() && x < |a.nodes|
    ensures m <==> P6Matches(a.nodes, x)
    ensures m ==>
      && AllIn(a.nodes[x].children, |a.nodes|)
      && qs == QNodesIn(a.nodes, a.nodes[x].children) && |qs| == 2
      && fs == PlainOfLabel(a.nodes, a.nodes[x].children, Full)
      && (assert qs[0] in qs && qs[1] in qs;
          && x != qs[0] && x != qs[1]
          && |a.nodes[qs[0]].children| == 2 && |a.nodes[qs[1]].children| == 2)
  {
    if a.nodes[x].kind != PNode {
      return false, [], [];
    }
    if |a.nodes[x].children| == 0 {
      return false, [], [];
    }
    var emptyRootChildList;
    qs, emptyRootChildList, fs := ClassifyChildren(a, x);
    if |qs| != 2 {
      return false, qs, fs;
    }
    var qNode1, qNode2 := qs[0], qs[1];
    assert qNode1 in qs && qNode2 in qs;
    if a.nodes[qNode1].mark != Partial || a.nodes[qNode2].mark != Partial {
      return false, qs, fs;
    }
    if |EndmostChildren(a.nodes, qNode1).value| != 2 || |EndmostChildren(a.nodes, qNode2).value| != 2 {
      return false, qs, fs;
    }
    if !Consecutive(a.nodes, ChildrenOfLabel(a.nodes, qNode1, Empty))
       || !Consecutive(a.nodes, ChildrenOfLabel(a.nodes, qNode1, Full))
       || !Consecutive(a.nodes, ChildrenOfLabel(a.nodes, qNode2, Empty))
       || !Consecutive(a.nodes, ChildrenOfLabel(a.nodes, qNode2, Full)) {
      return false, qs, fs;
    }
    m := true;
  }

  /** The outcome of the replacement phase of P6 on `was`, with FULL children `fs` of `x`,
      Q-nodes `q1`, `q2` and the ends `l1`, `r1`, `l2`, `r2` it found on them: the two new
      nodes, the ring through both Q-nodes' ends, and where the merging Q-node goes. */
  ghost predicate MergedAs(was: seq<Node>, now: seq<Node>, x: Id, q1: Id, q2: Id, fs: seq<Id>,
                           l1: Id, r1: Id, l2: Id, r2: Id)
    requires x < |was| && q1 < |was| && q2 < |was|
  {
    var n := |was|;
    && |now| == n + 2
    && l1 < n && r1 < n && l2 < n && r2 < n
    && l1 in was[q1].children && r1 in was[q1].children
    && l2 in was[q2].children && r2 in was[q2].children
    && MergedNodes(was, now, fs)
    && JoinedAt(now, n, |fs| > 1, l1, r1, l2, r2)
    && MergedPlace(was, now, x, q1, q2, fs, r1, l2)
  }

  /** The new FULL P-node (node `n`) and the new merging Q-node (node `n + 1`) of P6. */
  ghost predicate MergedNodes(was: seq<Node>, now: seq<Node>, fs: seq<Id>)
    requires |now| == |was| + 2
  {
    var n := |was|;
    && now[n].kind == PNode && now[n].mark == Full
    && now[n].children == (if |fs| > 1 then fs else [])
    && now[n + 1].kind == QNode && now[n + 1].mark == Partial
    && (forall c :: c in now[n + 1].children ==> c < |now| && now[c].parent == Ref(n + 1))
  }

  /** Where P6 puts the merging Q-node: if `x` was the root it loses its FULL children and
      both Q-nodes and gains the new Q-node; otherwise the new Q-node takes the place of
      `x` in its parent. (Unless `x` is one of the inner ends, whose parent P6 clears.) */
  ghost predicate MergedPlace(was: seq<Node>, now: seq<Node>, x: Id, q1: Id, q2: Id, fs: seq<Id>,
                              r1: Id, l2: Id)
    requires x < |was| && |now| == |was| + 2
  {
    var n := |was|;
    && (x != r1 && x != l2 && was[x].parent == Null ==>
          now[x].children == Without(Without(Without(was[x].children, fs), [q1]), [q2]) + [n + 1])
    && (x != r1 && x != l2 && was[x].parent.Ref? && was[x].parent.id < n
        && was[x].parent.id != q1 && was[x].parent.id != q2 ==>
          now[was[x].parent.id].children == Replaced(was[was[x].parent.id].children, n + 1, x))
  }

  /** The replacement phase of P6. */
  method MergeQNodes(a: Arena, x: Id, q1: Id, q2: Id, fs: seq<Id>)
    returns (ghost l1: Id, ghost r1: Id, ghost l2: Id, ghost r2: Id)
    requires a.Valid() && x < |a.nodes| && q1 < |a.nodes| && q2 < |a.nodes| && AllIn(fs, |a.nodes|)
    requires x != q1 && x != q2
    requires |a.nodes[q1].children| == 2 && |a.nodes[q2].children| == 2
    modifies a
    ensures a.Valid()
    ensures CountsKept(old(a.nodes), a.nodes) && LabelsKept(old(a.nodes), a.nodes)
    ensures MergedAs(old(a.nodes), a.nodes, x, q1, q2, fs, l1, r1, l2, r2)
  {
    ghost var was := a.nodes;
    var p, le1, ri1, le2, ri2 := JoinQNodes(a, q1, q2, fs);
    l1, r1, l2, r2 := le1, ri1, le2, ri2;
    ghost var joined := a.nodes;
    var m := EncloseInQNode(a, x, q1, q2, fs, ri1, le2, le1, ri2);
    MergedFromHalves(was, joined, a.nodes, x, q1, q2, fs, p, l1, r1, l2, r2, m);
  }

  /** The two halves of the replacement phase of P6 make up the whole. */
  lemma MergedFromHalves(was: seq<Node>, joined: seq<Node>, now: seq<Node>, x: Id, q1: Id, q2: Id,
                         fs: seq<Id>, p: Id, l1: Id, r1: Id, l2: Id, r2: Id, m: Id)
    requires ValidNodes(was) && x < |was| && q1 < |was| && q2 < |was| && x != q1 && x != q2
    requires JoinedFrom(was, joined, q1, q2, fs, p, l1, r1, l2, r2)
    requires EnclosedFrom(joined, now, x, q1, q2, fs, r1, l2, m)
    ensures CountsKept(was, now) && LabelsKept(was, now)
    ensures MergedAs(was, now, x, q1, q2, fs, l1, r1, l2, r2)
  {
    MergedKeeps(was, joined, now, x, q1, q2, fs, p, l1, r1, l2, r2, m);
    MergedNew(was, joined, now, x, q1, q2, fs, p, l1, r1, l2, r2, m);
    JoinedAtKept(joined, now, p, |fs| > 1, l1, r1, l2, r2);
    MergedPlaced(was, joined, now, x, q1, q2, fs, p, l1, r1, l2, r2, m);
  }

  lemma MergedKeeps(was: seq<Node>, joined: seq<Node>, now: seq<Node>, x: Id, q1: Id, q2: Id,
                    fs: seq<Id>, p: Id, l1: Id, r1: Id, l2: Id, r2: Id, m: Id)
    requires x < |was| && q1 < |was| && q2 < |was|
    requires JoinedFrom(was, joined, q1, q2, fs, p, l1, r1, l2, r2)
    requires EnclosedFrom(joined, now, x, q1, q2, fs, r1, l2, m)
    ensures CountsKept(was, now) && LabelsKept(was, now)
  {
    forall i | 0 <= i < |was|
      ensures SameAttributes(was[i], now[i])
    {
      assert SameAttributes(was[i], joined[i]);
    }
    assert joined[p].pertinentChildCount == 0;
    forall i | |was| <= i < |now|
      ensures now[i].pertinentChildCount == 0
    {
      if i == p {
        assert SameAttributes(joined[p], now[p]);
      } else {
        assert i == m;
      }
    }
  }

  lemma MergedNew(was: seq<Node>, joined: seq<Node>, now: seq<Node>, x: Id, q1: Id, q2: Id,
                  fs: seq<Id>, p: Id, l1: Id, r1: Id, l2: Id, r2: Id, m: Id)
    requires ValidNodes(was) && x < |was| && q1 < |was| && q2 < |was|
    requires JoinedFrom(was, joined, q1, q2, fs, p, l1, r1, l2, r2)
    requires EnclosedFrom(joined, now, x, q1, q2, fs, r1, l2, m)
    ensures MergedNodes(was, now, fs)
  {
    assert NodeIn(was[x], |was|);
    assert joined[x].parent == was[x].parent;
    assert Ref(p) != joined[x].parent;
    assert now[p].children == joined[p].children;
    assert joined[p].children == (if |fs| > 1 then fs else []);
    assert SameAttributes(joined[p], now[p]);
    assert joined[p].kind == PNode && joined[p].mark == Full;
  }

  lemma MergedPlaced(was: seq<Node>, joined: seq<Node>, now: seq<Node>, x: Id, q1: Id, q2: Id,
                     fs: seq<Id>, p: Id, l1: Id, r1: Id, l2: Id, r2: Id, m: Id)
    requires ValidNodes(was) && x < |was| && q1 < |was| && q2 < |was| && x != q1 && x != q2
    requires JoinedFrom(was, joined, q1, q2, fs, p, l1, r1, l2, r2)
    requires EnclosedFrom(joined, now, x, q1, q2, fs, r1, l2, m)
    ensures MergedPlace(was, now, x, q1, q2, fs, r1, l2)
  {
    assert joined[x] == was[x].(next := joined[x].next, prev := joined[x].prev);
    var xp := was[x].parent;
    if xp.Ref? && xp.id < |was| && xp.id != q1 && xp.id != q2 {
      assert joined[xp.id].children == was[xp.id].children;
    }
  }

  /** The links of P6's ring survive changes that keep the links of its five nodes. */
  lemma JoinedAtKept(s: seq<Node>, t: seq<Node>, p: Id, bridge: bool, l1: Id, r1: Id, l2: Id, r2: Id)
    requires p < |s| <= |t| && l1 < |s| && r1 < |s| && l2 < |s| && r2 < |s|
    requires forall i :: 0 <= i < |s| ==> t[i].next == s[i].next && t[i].prev == s[i].prev
    requires JoinedAt(s, p, bridge, l1, r1, l2, r2)
    ensures JoinedAt(t, p, bridge, l1, r1, l2, r2)
  {
    assert t[p].next == s[p].next && t[p].prev == s[p].prev;
    assert t[l1].next == s[l1].next && t[l1].prev == s[l1].prev;
    assert t[r1].next == s[r1].next && t[r1].prev == s[r1].prev;
    assert t[l2].next == s[l2].next && t[l2].prev == s[l2].prev;
    assert t[r2].next == s[r2].next && t[r2].prev == s[r2].prev;
  }

  /** What the first half of the replacement phase of P6 leaves, from `was`. */
  ghost predicate JoinedFrom(was: seq<Node>, now: seq<Node>, q1: Id, q2: Id, fs: seq<Id>,
                             p: Id, l1: Id, r1: Id, l2: Id, r2: Id)
    requires q1 < |was| && q2 < |was|
  {
    && |now| == |was| + 1 && p == |was|
    && (forall i :: 0 <= i < |was| ==>
          now[i] == was[i].(next := now[i].next, prev := now[i].prev,
                            children := if i == q1 || i == q2 then now[i].children else was[i].children))
    && now[p] == Fresh(PNode, Full).(children := if |fs| > 1 then fs else [],
                                     next := now[p].next, prev := now[p].prev)
    && l1 < |was| && r1 < |was| && l2 < |was| && r2 < |was|
    && l1 in was[q1].children && r1 in was[q1].children
    && l2 in was[q2].children && r2 in was[q2].children
    && JoinedAt(now, p, |fs| > 1, l1, r1, l2, r2)
  }

  /** The first half of the replacement phase of P6: the FULL P-node `p` is made, both
      Q-nodes are turned as needed, and the ends of the two are linked. Only links, and the
      children of the two Q-nodes, change among the existing nodes. */
  method JoinQNodes(a: Arena, q1: Id, q2: Id, fs: seq<Id>) returns (p: Id, l1: Id, r1: Id, l2: Id, r2: Id)
    requires a.Valid() && q1 < |a.nodes| && q2 < |a.nodes| && AllIn(fs, |a.nodes|)
    requires |a.nodes[q1].children| == 2 && |a.nodes[q2].children| == 2
    modifies a
    ensures a.Valid() && JoinedFrom(old(a.nodes), a.nodes, q1, q2, fs, p, l1, r1, l2, r2)
  {
    ghost var was := a.nodes;
    assert NodeIn(a.nodes[q1], |a.nodes|) && NodeIn(a.nodes[q2], |a.nodes|);
    p := a.NewNode(PNode, Full);
    if |fs| > 1 {
      AddChildren(a, p, fs);
      assert [] + fs == fs;
    }
    ghost var made := a.nodes;
    assert made == was + [Fresh(PNode, Full).(children := if |fs| > 1 then fs else [])];
    l1, r1, l2, r2 := OrientQNodes(a, q1, q2);
    ghost var turned := a.nodes;
    assert p !in made[q1].children && p !in made[q2].children;
    JoinRings(a, l1, r1, l2, r2, p, |fs| > 1);
    JoinedSteps(was, made, turned, a.nodes, q1, q2, fs, p, l1, r1, l2, r2);
  }

  lemma JoinedSteps(was: seq<Node>, made: seq<Node>, turned: seq<Node>, now: seq<Node>, q1: Id, q2: Id,
                    fs: seq<Id>, p: Id, l1: Id, r1: Id, l2: Id, r2: Id)
    requires ValidNodes(was) && q1 < |was| && q2 < |was| && p == |was|
    requires made == was + [Fresh(PNode, Full).(children := if |fs| > 1 then fs else [])]
    requires ReorderedBoth(made, turned, q1, q2) && LinksOnly(turned, now)
    requires l1 in made[q1].children && r1 in made[q1].children
    requires l2 in made[q2].children && r2 in made[q2].children
    requires p < |now| && l1 < |now| && r1 < |now| && l2 < |now| && r2 < |now|
    requires JoinedAt(now, p, |fs| > 1, l1, r1, l2, r2)
    ensures JoinedFrom(was, now, q1, q2, fs, p, l1, r1, l2, r2)
  {
    assert NodeIn(was[q1], |was|) && NodeIn(was[q2], |was|);
    assert made[q1] == was[q1] && made[q2] == was[q2];
    assert turned[p] == made[p].(next := turned[p].next, prev := turned[p].prev);
  }

  /** The links that the first half of the replacement phase of P6 leaves between the ends
      of the two Q-nodes and the P-node `p`. */
  ghost predicate JoinedAt(nodes: seq<Node>, p: Id, bridge: bool, l1: Id, r1: Id, l2: Id, r2: Id)
    requires p < |nodes| && l1 < |nodes| && r1 < |nodes| && l2 < |nodes| && r2 < |nodes|
  {
    && (bridge ==>
          && nodes[r1].next == Ref(p) && nodes[p].next == Ref(l2)
          && nodes[l2].prev == Ref(p) && nodes[p].prev == Ref(r1)
          && (r1 != r2 ==> nodes[r2].next == Ref(l1))
          && (l1 != l2 ==> nodes[l1].prev == Ref(r2)))
    && (!bridge ==>
          && nodes[p].next == Null && nodes[p].prev == Null
          && nodes[r2].next == Ref(l1) && nodes[l1].prev == Ref(r2)
          && (r1 != r2 ==> nodes[r1].next == Ref(l2))
          && (l1 != l2 ==> nodes[l2].prev == Ref(r1)))
  }

  /** Only the order of the children of `q1` and `q2`, and sibling links, changed. */
  predicate ReorderedBoth(was: seq<Node>, now: seq<Node>, q1: Id, q2: Id)
    requires q1 < |was| && q2 < |was|
  {
    && |was| == |now|
    && multiset(now[q1].children) == multiset(was[q1].children)
    && multiset(now[q2].children) == multiset(was[q2].children)
    && (forall i :: 0 <= i < |was| ==>
         now[i] == was[i].(next := now[i].next, prev := now[i].prev,
                           children := if i == q1 || i == q2 then now[i].children else was[i].children))
    && (forall i :: 0 <= i < |was| && i !in was[q1].children && i !in was[q2].children ==>
         now[i].next == was[i].next && now[i].prev == was[i].prev)
  }

  lemma ReorderedBothTrans(was: seq<Node>, mid: seq<Node>, now: seq<Node>, q1: Id, q2: Id, q: Id)
    requires q1 < |was| && q2 < |was| && (q == q1 || q == q2)
    requires ReorderedBoth(was, mid, q1, q2) && ReorderedOnly(mid, now, q)
    ensures ReorderedBoth(was, now, q1, q2)
  {
    assert multiset(mid[q].children) == multiset(was[q].children);
    forall i | 0 <= i < |was| && i !in was[q1].children && i !in was[q2].children
      ensures now[i].next == was[i].next && now[i].prev == was[i].prev
    {
      assert i !in multiset(was[q].children);
      assert i !in mid[q].children;
    }
  }

  /** The turning of P6: the first Q-node is turned (by two `rotate` calls) when its ends
      are FULL then EMPTY, the second (by one) when its ends are EMPTY then FULL; the ends
      are read again afterwards. */
  method OrientQNodes(a: Arena, q1: Id, q2: Id) returns (l1: Id, r1: Id, l2: Id, r2: Id)
    requires a.Valid() && q1 < |a.nodes| && q2 < |a.nodes|
    requires |a.nodes[q1].children| == 2 && |a.nodes[q2].children| == 2
    modifies a
    ensures a.Valid() && ReorderedBoth(old(a.nodes), a.nodes, q1, q2)
    ensures l1 in old(a.nodes)[q1].children && r1 in old(a.nodes)[q1].children
    ensures l2 in old(a.nodes)[q2].children && r2 in old(a.nodes)[q2].children
  {
    ghost var was := a.nodes;
    assert ReorderedBoth(was, was, q1, q2);
    l1, r1 := Ends(a, q1);
    if a.nodes[l1].mark == Full && a.nodes[r1].mark == Empty {
      Rotate(a, q1);
      ReorderedBothTrans(was, old(a.nodes), a.nodes, q1, q2, q1);
      ghost var once := a.nodes;
      Rotate(a, q1);
      ReorderedBothTrans(was, once, a.nodes, q1, q2, q1);
      assert |multiset(a.nodes[q1].children)| == 2;
      l1, r1 := Ends(a, q1);
      assert l1 in multiset(a.nodes[q1].children) && r1 in multiset(a.nodes[q1].children);
    }
    ghost var first := a.nodes;
    assert |multiset(a.nodes[q2].children)| == 2;
    l2, r2 := Ends(a, q2);
    assert l2 in multiset(a.nodes[q2].children) && r2 in multiset(a.nodes[q2].children);
    if a.nodes[l2].mark == Empty && a.nodes[r2].mark == Full {
      Rotate(a, q2);
      ReorderedBothTrans(was, first, a.nodes, q1, q2, q2);
      assert |multiset(a.nodes[q2].children)| == 2;
      l2, r2 := Ends(a, q2);
      assert l2 in multiset(a.nodes[q2].children) && r2 in multiset(a.nodes[q2].children);
    }
  }

  /** `endmostChildren().get(0)` and `.get(1)` of a Q-node with two children. */
  method Ends(a: Arena, q: Id) returns (l: Id, r: Id)
    requires a.Valid() && q < |a.nodes| && |a.nodes[q].children| == 2
    ensures l == a.nodes[q].children[0] && r == a.nodes[q].children[1]
    ensures l < |a.nodes| && r < |a.nodes|
  {
    assert NodeIn(a.nodes[q], |a.nodes|);
    l, r := a.nodes[q].children[0], a.nodes[q].children[1];
    assert l in a.nodes[q].children && r in a.nodes[q].children;
  }

  /** The link writes of P6, in their order. */
  method JoinRings(a: Arena, l1: Id, r1: Id, l2: Id, r2: Id, p: Id, bridge: bool)
    requires a.Valid() && l1 < |a.nodes| && r1 < |a.nodes| && l2 < |a.nodes| && r2 < |a.nodes| && p < |a.nodes|
    requires p != l1 && p != r1 && p != l2 && p != r2
    requires a.nodes[p].next == Null && a.nodes[p].prev == Null
    modifies a
    ensures a.Valid() && LinksOnly(old(a.nodes), a.nodes)
    ensures JoinedAt(a.nodes, p, bridge, l1, r1, l2, r2)
  {
    a.SetNext(r2, Ref(l1));
    a.SetPrev(l1, Ref(r2));
    ghost var closed := a.nodes;
    assert LinksOnly(old(a.nodes), closed);
    if bridge {
      Bridge(a, l1, r1, l2, r2, p);
    } else {
      Close(a, l1, r1, l2, r2);
      assert a.nodes[p] == closed[p];
    }
    LinksOnlyTrans(old(a.nodes), closed, a.nodes);
  }

  lemma LinksOnlyTrans(s1: seq<Node>, s2: seq<Node>, s3: seq<Node>)
    requires LinksOnly(s1, s2) && LinksOnly(s2, s3)
    ensures LinksOnly(s1, s3)
  {
  }

  /** P6 with more than one FULL child: `p` sits between `r1` and `l2`. */
  method Bridge(a: Arena, l1: Id, r1: Id, l2: Id, r2: Id, p: Id)
    requires a.Valid() && l1 < |a.nodes| && r1 < |a.nodes| && l2 < |a.nodes| && r2 < |a.nodes| && p < |a.nodes|
    requires p != l1 && p != r1 && p != l2 && p != r2
    requires a.nodes[r2].next == Ref(l1) && a.nodes[l1].prev == Ref(r2)
    modifies a
    ensures a.Valid() && LinksOnly(old(a.nodes), a.nodes)
    ensures JoinedAt(a.nodes, p, true, l1, r1, l2, r2)
  {
    ghost var was := a.nodes;
    a.SetNext(r1, Ref(p));
    ghost var s1 := a.nodes;
    OneLink(was, s1, r1);
    a.SetNext(p, Ref(l2));
    ghost var s2 := a.nodes;
    OneLink(s1, s2, p);
    LinksOnlyTrans(was, s1, s2);
    a.SetPrev(l2, Ref(p));
    ghost var s3 := a.nodes;
    OneLink(s2, s3, l2);
    LinksOnlyTrans(was, s2, s3);
    a.SetPrev(p, Ref(r1));
    OneLink(s3, a.nodes, p);
    LinksOnlyTrans(was, s3, a.nodes);
  }

  /** One link of node `u` written. */
  lemma OneLink(was: seq<Node>, now: seq<Node>, u: Id)
    requires u < |was| && |now| == |was|
    requires now == was[u := was[u].(next := now[u].next, prev := now[u].prev)]
    ensures LinksOnly(was, now)
    ensures forall i :: 0 <= i < |was| && i != u ==> now[i] == was[i]
  {
  }

  /** P6 with at most one FULL child: `r1` and `l2` are linked directly, and the first two
      writes are done again. */
  method Close(a: Arena, l1: Id, r1: Id, l2: Id, r2: Id)
    requires a.Valid() && l1 < |a.nodes| && r1 < |a.nodes| && l2 < |a.nodes| && r2 < |a.nodes|
    modifies a
    ensures a.Valid() && LinksOnly(old(a.nodes), a.nodes)
    ensures forall i :: 0 <= i < |a.nodes| && i != l1 && i != r1 && i != l2 && i != r2 ==>
      a.nodes[i] == old(a.nodes)[i]
    ensures a.nodes[r2].next == Ref(l1) && a.nodes[l1].prev == Ref(r2)
    ensures r1 != r2 ==> a.nodes[r1].next == Ref(l2)
    ensures l1 != l2 ==> a.nodes[l2].prev == Ref(r1)
  {
    ghost var was := a.nodes;
    a.SetNext(r1, Ref(l2));
    a.SetPrev(l2, Ref(r1));
    ghost var half := a.nodes;
    LinkedPair(was, half, r1, l2);
    a.SetNext(r2, Ref(l1));
    a.SetPrev(l1, Ref(r2));
    LinkedPair(half, a.nodes, r2, l1);
    LinksOnlyTrans(was, half, a.nodes);
  }

  /** `u.next := w` then `w.prev := u`. */
  lemma LinkedPair(was: seq<Node>, now: seq<Node>, u: Id, w: Id)
    requires u < |was| && w < |was|
    requires now == was[u := was[u].(next := Ref(w))][w := was[u := was[u].(next := Ref(w))][w].(prev := Ref(u))]
    ensures LinksOnly(was, now)
    ensures now[u].next == Ref(w) && now[w].prev == Ref(u)
    ensures forall i :: 0 <= i < |was| && i != u && i != w ==> now[i] == was[i]
    ensures u != w ==> now[u].prev == was[u].prev && now[w].next == was[w].next
  {
  }

  /** What the second half of the replacement phase of P6 leaves, from `was`. */
  ghost predicate EnclosedFrom(was: seq<Node>, now: seq<Node>, x: Id, q1: Id, q2: Id, fs: seq<Id>,
                               r1: Id, l2: Id, m: Id)
    requires x < |was|
  {
    && |now| == |was| + 1 && m == |was|
    && (forall i :: 0 <= i < |was| ==>
          && SameAttributes(was[i], now[i])
          && now[i].next == was[i].next && now[i].prev == was[i].prev)
    && (forall i :: 0 <= i < |was| && i != x && Ref(i) != was[x].parent ==>
          now[i].children == was[i].children)
    && now[m].kind == QNode && now[m].mark == Partial && now[m].pertinentChildCount == 0
    && (forall c :: c in now[m].children ==> c < |now| && now[c].parent == Ref(m))
    && (x != r1 && x != l2 && was[x].parent == Null ==>
          now[x].children == Without(Without(Without(was[x].children, fs), [q1]), [q2]) + [m])
    && (x != r1 && x != l2 && was[x].parent.Ref? && was[x].parent.id < |was| ==>
          now[was[x].parent.id].children == Replaced(was[was[x].parent.id].children, m, x))
  }

  /** The second half of the replacement phase of P6: the inner ends lose their parent,
      the merging Q-node `m` is made and put in place, gets the outer ends as its endmost
      children, and its children point at it. Links do not change. */
  method EncloseInQNode(a: Arena, x: Id, q1: Id, q2: Id, fs: seq<Id>, r1: Id, l2: Id, l1: Id, r2: Id)
    returns (m: Id)
    requires a.Valid() && x < |a.nodes| && q1 < |a.nodes| && q2 < |a.nodes| && AllIn(fs, |a.nodes|)
    requires r1 < |a.nodes| && l2 < |a.nodes| && l1 < |a.nodes| && r2 < |a.nodes|
    modifies a
    ensures a.Valid() && EnclosedFrom(old(a.nodes), a.nodes, x, q1, q2, fs, r1, l2, m)
  {
    ghost var was := a.nodes;
    assert NodeIn(a.nodes[x], |a.nodes|);
    a.SetParent(r1, Null);
    a.SetParent(l2, Null);
    ghost var cut := a.nodes;
    assert forall i :: 0 <= i < |was| ==>
      cut[i] == was[i].(parent := if i == r1 || i == l2 then Null else was[i].parent);
    m := a.NewNode(QNode, Partial);
    ghost var made := a.nodes;
    Adopt(a, x, m, fs, q1, q2);
    ghost var adopted := a.nodes;
    SetQNodeEndmostChildren(a, m, Ref(l1), Ref(r2));
    ghost var ended := a.nodes;
    SetParentQNodeChildren(a, m);
    EnclosedSteps(was, cut, made, adopted, ended, a.nodes, x, q1, q2, fs, r1, l2, m);
  }

  lemma EnclosedSteps(was: seq<Node>, cut: seq<Node>, made: seq<Node>, adopted: seq<Node>,
                      ended: seq<Node>, now: seq<Node>, x: Id, q1: Id, q2: Id, fs: seq<Id>,
                      r1: Id, l2: Id, m: Id)
    requires ValidNodes(was) && x < |was| && r1 < |was| && l2 < |was|
    requires |cut| == |was|
    requires forall i :: 0 <= i < |was| ==>
      cut[i] == was[i].(parent := if i == r1 || i == l2 then Null else was[i].parent)
    requires m == |was| && made == cut + [Fresh(QNode, Partial)]
    requires AdoptedFrom(made, adopted, x, m, fs, q1, q2)
    requires |ended| == |adopted| && ended[m] == adopted[m].(children := ended[m].children)
    requires forall i :: 0 <= i < |ended| && i != m ==> ended[i] == adopted[i]
    requires |now| == |ended| && now[m].children == ended[m].children
    requires forall i :: 0 <= i < |now| ==> now[i] == ended[i].(parent := now[i].parent)
    requires forall c :: c in now[m].children ==> c < |now| && now[c].parent == Ref(m)
    ensures EnclosedFrom(was, now, x, q1, q2, fs, r1, l2, m)
  {
    assert NodeIn(was[x], |was|);
    assert made[x].children == was[x].children;
    assert x != r1 && x != l2 ==> made[x].parent == was[x].parent;
    forall i | 0 <= i < |was|
      ensures made[i] == was[i].(parent := made[i].parent)
      ensures SameAttributes(was[i], now[i])
      ensures now[i].next == was[i].next && now[i].prev == was[i].prev
      ensures now[i].children == adopted[i].children
    {
      assert made[i] == cut[i];
      assert ended[i] == adopted[i];
      assert adopted[i] == made[i].(parent := adopted[i].parent, children := adopted[i].children);
    }
    assert now[m].kind == QNode && now[m].mark == Partial && now[m].pertinentChildCount == 0 by {
      assert adopted[m] == made[m].(parent := adopted[m].parent, children := adopted[m].children);
    }
    forall i | 0 <= i < |was| && i != x && Ref(i) != was[x].parent
      ensures now[i].children == was[i].children
    {
      assert adopted[i].children == made[i].children;
    }
  }

  /** Where P6 puts the merging Q-node `m`, from `was`: in place of `x` in the parent of
      `x`, or, when `x` has none, among the children of `x`, which lose their FULL
      children and both Q-nodes. */
  ghost predicate AdoptedFrom(was: seq<Node>, now: seq<Node>, x: Id, m: Id, fs: seq<Id>, q1: Id, q2: Id)
    requires x < |was| && m < |was|
  {
    && |now| == |was|
    && (was[x].parent.Ref? && was[x].parent.id < |was| ==>
          var xp := was[x].parent.id;
          && now[xp] == was[xp].(children := Replaced(was[xp].children, m, x))
          && forall i :: 0 <= i < |was| && i != xp ==> now[i] == was[i])
    && (was[x].parent == Null ==>
          && now[m] == was[m].(parent := Ref(x))
          && now[x] == was[x].(children := Without(Without(Without(was[x].children, fs), [q1]), [q2]) + [m])
          && forall i :: 0 <= i < |was| && i != x && i != m ==> now[i] == was[i])
  }

  /** The placing of the merging Q-node in P6 (see `AdoptedFrom`). */
  method Adopt(a: Arena, x: Id, m: Id, fs: seq<Id>, q1: Id, q2: Id)
    requires a.Valid() && x < |a.nodes| && m < |a.nodes| && x != m
    modifies a
    ensures a.Valid() && AdoptedFrom(old(a.nodes), a.nodes, x, m, fs, q1, q2)
  {
    var xParent := a.nodes[x].parent;
    assert NodeIn(a.nodes[x], |a.nodes|);
    if xParent != Null {
      ReplaceChild(a, xParent.id, m, x);
    } else {
      AdoptAtRoot(a, x, m, fs, q1, q2);
    }
  }

  /** The root case of `Adopt`: `m` becomes a child of `x` in place of the FULL children
      and both Q-nodes. */
  method AdoptAtRoot(a: Arena, x: Id, m: Id, fs: seq<Id>, q1: Id, q2: Id)
    requires a.Valid() && x < |a.nodes| && m < |a.nodes| && x != m
    modifies a
    ensures a.Valid() && |a.nodes| == |old(a.nodes)|
    ensures a.nodes[m] == old(a.nodes)[m].(parent := Ref(x))
    ensures a.nodes[x] == old(a.nodes)[x].(children := Without(Without(Without(old(a.nodes)[x].children, fs), [q1]), [q2]) + [m])
    ensures forall i :: 0 <= i < |a.nodes| && i != x && i != m ==> a.nodes[i] == old(a.nodes)[i]
  {
    a.SetParent(m, Ref(x));
    ghost var s0 := a.nodes;
    RemoveChildren(a, x, fs);
    ghost var s1 := a.nodes;
    RemoveChild(a, x, q1);
    ghost var s2 := a.nodes;
    RemoveChild(a, x, q2);
    ghost var s3 := a.nodes;
    AddChild(a, x, m);
    assert s1[x].children == Without(s0[x].children, fs);
    assert s3[x].children == Without(Without(s1[x].children, [q1]), [q2]);
    assert a.nodes[x] == s0[x].(children := a.nodes[x].children);
  }
}

/** The helpers the templates call: the methods of PQHelpers and the node methods of the
    Q-node and P-node classes that the templates use. Their code is not part of this
    model. Those whose names fix what they do (label filters, list edits, building a
    ring, pointing children at their parent) are written out; the others get bodies
    that may change the tree's structure arbitrarily and nothing else. */
module Helpers {
  import opened PQNodes

  // ---------------------------------------------------------------------------------
  // What a helper may change

  /** Only the sibling links changed. */
  predicate LinksOnly(was: seq<Node>, now: seq<Node>) {
    |was| == |now| &&
    forall i :: 0 <= i < |was| ==> now[i] == was[i].(next := now[i].next, prev := now[i].prev)
  }

  /** The node keeps everything but its place in the tree: kind, label, counters and
      flags. */
  predicate SameAttributes(u: Node, v: Node) {
    && u.kind == v.kind && u.mark == v.mark
    && u.pertinentChildCount == v.pertinentChildCount
    && u.pertinentLeafCount == v.pertinentLeafCount
    && u.queued == v.queued && u.blocked == v.blocked && u.childCount == v.childCount
  }

  /** Only the structure (links, parents, children lists) changed. */
  predicate StructureOnly(was: seq<Node>, now: seq<Node>) {
    |was| == |now| && forall i :: 0 <= i < |was| ==> SameAttributes(was[i], now[i])
  }

  /** The tree grew by fresh nodes, and every node it had keeps its counters and flags;
      the fresh nodes have no pertinent children. Every template keeps this. */
  ghost predicate CountsKept(was: seq<Node>, now: seq<Node>) {
    && |was| <= |now|
    && (forall i :: 0 <= i < |was| ==>
          && now[i].pertinentChildCount == was[i].pertinentChildCount
          && now[i].pertinentLeafCount == was[i].pertinentLeafCount
          && now[i].queued == was[i].queued && now[i].blocked == was[i].blocked)
    && (forall i :: |was| <= i < |now| ==> now[i].pertinentChildCount == 0)
  }

  /** Every node the tree had keeps its label. */
  ghost predicate LabelsKept(was: seq<Node>, now: seq<Node>) {
    |was| <= |now| && forall i :: 0 <= i < |was| ==> now[i].mark == was[i].mark
  }

  /** Every node the tree had keeps its label, except possibly `x`. */
  ghost predicate LabelsKeptBut(was: seq<Node>, now: seq<Node>, x: Id) {
    |was| <= |now| && forall i :: 0 <= i < |was| && i != x ==> now[i].mark == was[i].mark
  }

  lemma CountsKeptTrans(s1: seq<Node>, s2: seq<Node>, s3: seq<Node>)
    requires CountsKept(s1, s2) && CountsKept(s2, s3)
    ensures CountsKept(s1, s3)
  {
  }

  // ---------------------------------------------------------------------------------
  // Pure helpers

  /** `getChildrenOfLabel(l)`; `collectChildrenByLabel` and `gatherQNodeChildren` are
      the EMPTY and FULL instances. */
  function ChildrenOfLabel(nodes: seq<Node>, v: Id, l: Label): (r: seq<Id>)
    requires ValidNodes(nodes) && v < |nodes|
    ensures AllIn(r, |nodes|) && |r| <= |nodes[v].children|
    ensures forall c :: c in r <==> c in nodes[v].children && nodes[c].mark == l
  {
    assert NodeIn(nodes[v], |nodes|);
    OfLabel(nodes, nodes[v].children, l)
  }

  /** `checkIfConsecutive(list)`, whose code is not part of this model, read as: each
      member's `next` is the member after it. A list that runs along `prev` instead is
      not consecutive under this reading. */
  predicate Consecutive(nodes: seq<Node>, list: seq<Id>)
    requires AllIn(list, |nodes|)
  {
    forall i :: 0 <= i < |list| - 1 ==> (assert list[i] in list; nodes[list[i]].next == Ref(list[i + 1]))
  }

  /** `cs` without the members of `drop`, in order (`removeChildren`, `removeChild`). */
  function Without(cs: seq<Id>, drop: seq<Id>): (r: seq<Id>)
    ensures |r| <= |cs|
    ensures forall c :: c in r <==> c in cs && c !in drop
  {
    if cs == [] then []
    else
      var init, last := cs[..|cs| - 1], cs[|cs| - 1];
      assert forall c :: c in cs <==> c in init || c == last;
      if last in drop then Without(init, drop) else Without(init, drop) + [last]
  }

  /** Removing from a concatenation removes from each part. */
  lemma {:induction false} WithoutAppend(a: seq<Id>, b: seq<Id>, drop: seq<Id>)
    ensures Without(a + b, drop) == Without(a, drop) + Without(b, drop)
  {
    if b != [] {
      var b' := b[..|b| - 1];
      assert (a + b)[..|a + b| - 1] == a + b';
      assert (a + b)[|a + b| - 1] == b[|b| - 1];
      WithoutAppend(a, b', drop);
    } else {
      assert a + b == a;
    }
  }

  /** Removing the FULL children from a list of EMPTY and FULL children leaves exactly the
      EMPTY ones, in order. */
  lemma {:induction false} WithoutFullIsEmpty(nodes: seq<Node>, cs: seq<Id>)
    requires AllIn(cs, |nodes|)
    requires forall c :: c in cs ==> nodes[c].mark == Empty || nodes[c].mark == Full
    ensures Without(cs, OfLabel(nodes, cs, Full)) == OfLabel(nodes, cs, Empty)
  {
    WithoutFilter(nodes, cs, cs);
  }

  lemma {:induction false} WithoutFilter(nodes: seq<Node>, cs: seq<Id>, all: seq<Id>)
    requires AllIn(all, |nodes|) && forall c :: c in cs ==> c in all
    requires forall c :: c in cs ==> nodes[c].mark == Empty || nodes[c].mark == Full
    ensures AllIn(cs, |nodes|)
    ensures Without(cs, OfLabel(nodes, all, Full)) == OfLabel(nodes, cs, Empty)
  {
    if cs != [] {
      var init, last := cs[..|cs| - 1], cs[|cs| - 1];
      assert forall c :: c in init ==> c in cs;
      assert last in cs;
      WithoutFilter(nodes, init, all);
    }
  }

  /** The children list after `replaceChild(y, x)`: `x` replaced by `y`. */
  function Replaced(cs: seq<Id>, y: Id, x: Id): (r: seq<Id>)
    ensures |r| == |cs|
    ensures forall i :: 0 <= i < |cs| ==> r[i] == if cs[i] == x then y else cs[i]
    ensures forall c :: c in r ==> c in cs || c == y
  {
    seq(|cs|, i requires 0 <= i < |cs| => if cs[i] == x then y else cs[i])
  }

  // ---------------------------------------------------------------------------------
  // Children-list edits

  /** `addChildren(list)`: the list is appended to the children. */
  method AddChildren(a: Arena, v: Id, list: seq<Id>)
    requires a.Valid() && v < |a.nodes| && AllIn(list, |a.nodes|)
    modifies a
    ensures a.Valid()
    ensures a.nodes == old(a.nodes)[v := old(a.nodes)[v].(children := old(a.nodes)[v].children + list)]
  {
    assert NodeIn(a.nodes[v], |a.nodes|);
    a.SetChildren(v, a.nodes[v].children + list);
  }

  /** `addChild(c)`. */
  method AddChild(a: Arena, v: Id, c: Id)
    requires a.Valid() && v < |a.nodes| && c < |a.nodes|
    modifies a
    ensures a.Valid()
    ensures a.nodes == old(a.nodes)[v := old(a.nodes)[v].(children := old(a.nodes)[v].children + [c])]
  {
    assert AllIn([c], |a.nodes|);
    AddChildren(a, v, [c]);
  }

  /** `removeChildren(list)`: every member of the list leaves the children. */
  method RemoveChildren(a: Arena, v: Id, list: seq<Id>)
    requires a.Valid() && v < |a.nodes|
    modifies a
    ensures a.Valid()
    ensures a.nodes == old(a.nodes)[v := old(a.nodes)[v].(children := Without(old(a.nodes)[v].children, list))]
  {
    assert NodeIn(a.nodes[v], |a.nodes|);
    a.SetChildren(v, Without(a.nodes[v].children, list));
  }

  /** `removeChild(c)`. */
  method RemoveChild(a: Arena, v: Id, c: Id)
    requires a.Valid() && v < |a.nodes|
    modifies a
    ensures a.Valid()
    ensures a.nodes == old(a.nodes)[v := old(a.nodes)[v].(children := Without(old(a.nodes)[v].children, [c]))]
  {
    RemoveChildren(a, v, [c]);
  }

  /** `replaceChild(y, x)`: `y` takes the place of `x` among the children. */
  method ReplaceChild(a: Arena, v: Id, y: Id, x: Id)
    requires a.Valid() && v < |a.nodes| && y < |a.nodes|
    modifies a
    ensures a.Valid()
    ensures a.nodes == old(a.nodes)[v := old(a.nodes)[v].(children := Replaced(old(a.nodes)[v].children, y, x))]
  {
    assert NodeIn(a.nodes[v], |a.nodes|);
    a.SetChildren(v, Replaced(a.nodes[v].children, y, x));
  }

  /** `setParentQNodeChildren()`: every child of `q` gets `q` as its parent; nothing else
      changes. */
  method SetParentQNodeChildren(a: Arena, q: Id)
    requires a.Valid() && q < |a.nodes|
    modifies a
    ensures a.Valid() && |a.nodes| == |old(a.nodes)|
    ensures a.nodes[q].children == old(a.nodes)[q].children
    ensures forall c :: c in a.nodes[q].children ==> a.nodes[c].parent == Ref(q)
    ensures forall i :: 0 <= i < |a.nodes| ==>
      a.nodes[i] == old(a.nodes)[i].(parent := a.nodes[i].parent)
    ensures forall i :: 0 <= i < |a.nodes| && i !in a.nodes[q].children ==>
      a.nodes[i] == old(a.nodes)[i]
  {
    var cs := a.nodes[q].children;
    assert NodeIn(a.nodes[q], |a.nodes|);
    assert forall j :: 0 <= j < |cs| ==> cs[j] in cs;
    for k := 0 to |cs|
      invariant a.Valid() && |a.nodes| == |old(a.nodes)|
      invariant forall j :: 0 <= j < |cs| ==> cs[j] < |a.nodes|
      invariant a.nodes[q].children == cs
      invariant forall j :: 0 <= j < k ==> a.nodes[cs[j]].parent == Ref(q)
      invariant forall i :: 0 <= i < |a.nodes| ==>
        a.nodes[i] == old(a.nodes)[i].(parent := a.nodes[i].parent)
      invariant forall i :: 0 <= i < |a.nodes| && i !in cs ==> a.nodes[i] == old(a.nodes)[i]
    {
      assert cs[k] in cs;
      a.SetParent(cs[k], Ref(q));
    }
  }

  /** `setCircularLinks(list)`: the members of the list are linked into one closed ring in
      list order; only their links change. */
  method SetCircularLinks(a: Arena, list: seq<Id>)
    requires a.Valid() && AllIn(list, |a.nodes|)
    modifies a
    ensures a.Valid() && LinksOnly(old(a.nodes), a.nodes)
    ensures forall i :: 0 <= i < |a.nodes| && i !in list ==> a.nodes[i] == old(a.nodes)[i]
    ensures |list| > 0 && Distinct(list) ==> IsRing(a.nodes, list)
  {
    var n := |list|;
    assert forall j :: 0 <= j < n ==> list[j] in list;
    for k := 0 to n
      invariant a.Valid() && LinksOnly(old(a.nodes), a.nodes)
      invariant forall j :: 0 <= j < n ==> list[j] < |a.nodes|
      invariant forall i :: 0 <= i < |a.nodes| && i !in list ==> a.nodes[i] == old(a.nodes)[i]
      invariant Distinct(list) ==> forall j :: 0 <= j < k ==>
        a.nodes[list[j]].next == Ref(list[Succ(j, n)]) && a.nodes[list[j]].prev == Ref(list[Pred(j, n)])
    {
      assert list[k] in list && list[Succ(k, n)] in list && list[Pred(k, n)] in list;
      ghost var was := a.nodes;
      a.ReplaceInImmediateSiblings(list[k], Ref(list[Pred(k, n)]), Ref(list[Succ(k, n)]));
      LinkStep(old(a.nodes), was, a.nodes, list, k);
    }
  }

  /** One step of `setCircularLinks`: linking `list[k]` to its neighbours in the list
      changes its links only and keeps the links already set. */
  lemma LinkStep(base: seq<Node>, s: seq<Node>, t: seq<Node>, list: seq<Id>, k: nat)
    requires k < |list| && LinksOnly(base, s)
    requires forall j :: 0 <= j < |list| ==> list[j] < |s|
    requires t == s[list[k] := s[list[k]].(prev := Ref(list[Pred(k, |list|)]), next := Ref(list[Succ(k, |list|)]))]
    requires Distinct(list) ==> forall j :: 0 <= j < k ==>
      s[list[j]].next == Ref(list[Succ(j, |list|)]) && s[list[j]].prev == Ref(list[Pred(j, |list|)])
    ensures LinksOnly(base, t)
    ensures forall i :: 0 <= i < |t| && i != list[k] ==> t[i] == s[i]
    ensures Distinct(list) ==> forall j :: 0 <= j < k + 1 ==>
      t[list[j]].next == Ref(list[Succ(j, |list|)]) && t[list[j]].prev == Ref(list[Pred(j, |list|)])
  {
    if Distinct(list) {
      forall j | 0 <= j < k + 1
        ensures t[list[j]].next == Ref(list[Succ(j, |list|)]) && t[list[j]].prev == Ref(list[Pred(j, |list|)])
      {
        if j < k {
          assert list[j] != list[k];
        }
      }
    }
  }

  // ---------------------------------------------------------------------------------
  // Helpers whose code is not part of this model: they may change structure only

  /** Only the order of the children of `q` and the sibling links of those children
      changed. */
  predicate ReorderedOnly(was: seq<Node>, now: seq<Node>, q: Id)
    requires q < |was|
  {
    && |was| == |now|
    && multiset(now[q].children) == multiset(was[q].children)
    && (forall i :: 0 <= i < |was| ==>
         now[i] == was[i].(next := now[i].next, prev := now[i].prev,
                           children := if i == q then now[i].children else was[i].children))
    && (forall i :: 0 <= i < |was| && i !in was[q].children ==>
         now[i].next == was[i].next && now[i].prev == was[i].prev)
  }

  /** `rotate()` on a Q-node: turns it around, which reorders its children and their
      sibling links and touches nothing else. */
  method Rotate(a: Arena, q: Id)
    requires a.Valid() && q < |a.nodes|
    modifies a
    ensures a.Valid() && ReorderedOnly(old(a.nodes), a.nodes, q)
  {
    assert ReorderedOnly(a.nodes, a.nodes, q);
    var s :| ValidNodes(s) && ReorderedOnly(a.nodes, s, q);
    a.nodes := s;
  }

  /** `PQHelpers.rotateIfNeeded(q)`: may turn `q` around; reports whether it succeeded. */
  method RotateIfNeeded(a: Arena, q: Id) returns (ok: bool)
    requires a.Valid() && q < |a.nodes|
    modifies a
    ensures a.Valid() && ReorderedOnly(old(a.nodes), a.nodes, q)
  {
    Rotate(a, q);
    ok :| true;
  }

  /** `PQHelpers.reduceChildQNodeIntoParentQNode(child, q)`: splices the children of the
      Q-node `child` into the children of `q` in its place. */
  method ReduceChildQNodeIntoParentQNode(a: Arena, child: Id, q: Id)
    requires a.Valid() && child < |a.nodes| && q < |a.nodes|
    modifies a
    ensures a.Valid() && StructureOnly(old(a.nodes), a.nodes)
  {
    Restructure(a);
  }

  /** What `addNodesAsChildrenToQNode(list, q)` may change: sibling links, the children
      of `q` and the parents of the members of `list`. */
  predicate AddedUnder(was: seq<Node>, now: seq<Node>, q: Id, list: seq<Id>) {
    && |was| == |now|
    && forall i :: 0 <= i < |was| ==>
         now[i] == was[i].(next := now[i].next, prev := now[i].prev,
                           children := if i == q then now[i].children else was[i].children,
                           parent := if i in list then now[i].parent else was[i].parent)
  }

  /** `PQHelpers.addNodesAsChildrenToQNode(list, q)`: the members of `list` join the
      children of `q`. Its code is not part of this model; the contract bounds what it
      may touch and does not fix the order it produces. */
  method AddNodesAsChildrenToQNode(a: Arena, list: seq<Id>, q: Id)
    requires a.Valid() && AllIn(list, |a.nodes|) && q < |a.nodes|
    modifies a
    ensures a.Valid() && StructureOnly(old(a.nodes), a.nodes)
    ensures AddedUnder(old(a.nodes), a.nodes, q, list)
  {
    assert AddedUnder(a.nodes, a.nodes, q, list);
    var s: seq<Node> :| ValidNodes(s) && AddedUnder(a.nodes, s, q, list);
    assert AddedUnder(a.nodes, s, q, list);
    forall i | 0 <= i < |s|
      ensures SameAttributes(a.nodes[i], s[i])
    {
      assert s[i] == a.nodes[i].(next := s[i].next, prev := s[i].prev, children := s[i].children, parent := s[i].parent);
    }
    a.nodes := s;
  }

  /** What `replaceParent(y, x)` leaves: `y` has the former parent of `x`, which has `y`
      in the place of `x` among its children; beyond that only sibling links change. */
  predicate TookPlace(was: seq<Node>, now: seq<Node>, y: Id, x: Id)
    requires y < |was| && x < |was| && LinkIn(was[x].parent, |was|)
  {
    var p := was[x].parent;
    && |was| == |now|
    && now[y].parent == p
    && (p != Null ==> now[p.id].children == Replaced(was[p.id].children, y, x))
    && forall i :: 0 <= i < |was| ==>
         now[i] == was[i].(next := now[i].next, prev := now[i].prev,
                           parent := if i == y then p else was[i].parent,
                           children := if Ref(i) == p then now[i].children else was[i].children)
  }

  /** `PQHelpers.replaceParent(y, x)`: `y` takes the place of `x` under the parent of `x`.
      Its code is not part of this model; it may also rewrite sibling links. */
  method ReplaceParent(a: Arena, y: Id, x: Id)
    requires a.Valid() && y < |a.nodes| && x < |a.nodes|
    modifies a
    ensures a.Valid() && StructureOnly(old(a.nodes), a.nodes)
    ensures assert NodeIn(old(a.nodes)[x], |old(a.nodes)|); TookPlace(old(a.nodes), a.nodes, y, x)
  {
    assert NodeIn(a.nodes[x], |a.nodes|);
    var p := a.nodes[x].parent;
    var s := a.nodes[y := a.nodes[y].(parent := p)];
    if p != Null {
      assert NodeIn(s[p.id], |s|);
      s := s[p.id := s[p.id].(children := Replaced(s[p.id].children, y, x))];
    }
    assert TookPlace(a.nodes, s, y, x);
    assert ValidNodes(s) by {
      forall i | 0 <= i < |s|
        ensures NodeIn(s[i], |s|)
      {
        assert NodeIn(a.nodes[i], |a.nodes|);
      }
    }
    var t: seq<Node> :| ValidNodes(t) && TookPlace(a.nodes, t, y, x);
    assert TookPlace(a.nodes, t, y, x);
    forall i | 0 <= i < |t|
      ensures SameAttributes(a.nodes[i], t[i])
    {
      assert t[i] == a.nodes[i].(next := t[i].next, prev := t[i].prev, children := t[i].children, parent := t[i].parent);
    }
    a.nodes := t;
  }

  /** `PQHelpers.insertNodeIntoCircularList(v, l, r)`: links `v` into a ring next to `l`
      and `r`; only sibling links change. */
  method InsertNodeIntoCircularList(a: Arena, v: Id, l: Id, r: Id)
    requires a.Valid() && v < |a.nodes| && l < |a.nodes| && r < |a.nodes|
    modifies a
    ensures a.Valid() && LinksOnly(old(a.nodes), a.nodes)
  {
    assert LinksOnly(a.nodes, a.nodes);
    var s :| ValidNodes(s) && LinksOnly(a.nodes, s);
    a.nodes := s;
  }

  /** `setQNodeEndmostChildren(l, r)` (either may be null): its code is not part of this
      model, and the children list of the shown node class is what `endmostChildren`
      returns, so the only change allowed is to the children of `q`. */
  method SetQNodeEndmostChildren(a: Arena, q: Id, l: Link, r: Link)
    requires a.Valid() && q < |a.nodes| && LinkIn(l, |a.nodes|) && LinkIn(r, |a.nodes|)
    modifies a
    ensures a.Valid() && |a.nodes| == |old(a.nodes)|
    ensures a.nodes == old(a.nodes)[q := old(a.nodes)[q].(children := a.nodes[q].children)]
  {
    assert AllIn([], |a.nodes|);
    var cs: seq<Id> :| AllIn(cs, |a.nodes|);
    a.SetChildren(q, cs);
  }

  /** Any change of structure that keeps the arena valid. */
  method Restructure(a: Arena)
    requires a.Valid()
    modifies a
    ensures a.Valid() && StructureOnly(old(a.nodes), a.nodes)
  {
    assert StructureOnly(a.nodes, a.nodes);
    var s :| ValidNodes(s) && StructureOnly(a.nodes, s);
    a.nodes := s;
  }
}

/** The Q-node templates of pqtree/PQTree.java: the all-alike template for Q-nodes and
    Q1, Q2 and Q3. The children of a Q-node are in order along their sibling ring; the
    templates walk that ring, or the children list, and on a match rewrite the tree in
    place. */
module QTemplates {
  import opened Outcomes
  import opened PQNodes
  import opened Helpers
  import opened Counting
  import PTemplates
  import opened Q3Scanner

  // ---------------------------------------------------------------------------------
  // Rings in an arena

  /** A ring has no more members than the arena has nodes. */
  lemma RingBound(nodes: seq<Node>, ring: seq<Id>)
    requires IsRing(nodes, ring)
    ensures |ring| <= |nodes|
  {
    if |ring| > |nodes| {
      assert ring[0] < |nodes|;
      Pigeonhole(ring, |nodes|);
    }
  }

  /** Changes that keep every sibling link keep a ring. */
  lemma RingKept(s: seq<Node>, t: seq<Node>, ring: seq<Id>)
    requires IsRing(s, ring) && |s| <= |t|
    requires forall i :: 0 <= i < |s| ==> t[i].next == s[i].next && t[i].prev == s[i].prev
    ensures IsRing(t, ring)
  {
    forall i | 0 <= i < |ring|
      ensures t[ring[i]].next == Ref(ring[Succ(i, |ring|)]) && t[ring[i]].prev == Ref(ring[Pred(i, |ring|)])
    {
      assert s[ring[i]].next == Ref(ring[Succ(i, |ring|)]);
      assert s[ring[i]].prev == Ref(ring[Pred(i, |ring|)]);
    }
  }

  // ---------------------------------------------------------------------------------
  // QNODE_TEMPLATE_1: every child labelled alike

  /** The do-while loop of `QNODE_TEMPLATE_1` from `iter`: false at the first sibling not
      labelled `l`, true when `next` comes back to `front`, and a failure when a `next`
      link is null (the next `getLabel` dereferences it). A walk that would go on for
      more than `fuel` further steps is reported as a failure too. */
  function LabelWalk(nodes: seq<Node>, front: Id, l: Label, iter: Id, fuel: nat): (r: Outcome<bool>)
    requires ValidNodes(nodes) && iter < |nodes|
    ensures r == Value(true) ==> nodes[iter].mark == l
    decreases fuel
  {
    assert NodeIn(nodes[iter], |nodes|);
    if nodes[iter].mark != l then Value(false)
    else match nodes[iter].next
      case Null => Fault
      case Ref(n) =>
        if n == front then Value(true)
        else if fuel == 0 then Fault
        else LabelWalk(nodes, front, l, n, fuel - 1)
  }

  /** Every member of `ring` from position `k` on is labelled `l`. */
  ghost predicate MarkedFrom(nodes: seq<Node>, ring: seq<Id>, k: nat, l: Label)
    requires forall i :: 0 <= i < |ring| ==> ring[i] < |nodes|
    decreases |ring| - k
  {
    k >= |ring| || (nodes[ring[k]].mark == l && MarkedFrom(nodes, ring, k + 1, l))
  }

  /** `MarkedFrom` read as a statement about every position from `k` on. */
  lemma {:induction false} MarkedFromEvery(nodes: seq<Node>, ring: seq<Id>, k: nat, l: Label)
    requires forall i :: 0 <= i < |ring| ==> ring[i] < |nodes|
    ensures MarkedFrom(nodes, ring, k, l) <==> forall j :: k <= j < |ring| ==> nodes[ring[j]].mark == l
    decreases |ring| - k
  {
    if k < |ring| {
      MarkedFromEvery(nodes, ring, k + 1, l);
    }
  }

  /** On a ring listed from `front`, the walk from position `k` is the question whether
      every member from `k` on is labelled `l`, given enough fuel. */
  lemma {:induction false} WalkOnRing(nodes: seq<Node>, ring: seq<Id>, l: Label, k: nat, fuel: nat)
    requires ValidNodes(nodes) && IsRing(nodes, ring) && k < |ring| && fuel + k + 1 >= |ring|
    ensures var r := LabelWalk(nodes, ring[0], l, ring[k], fuel);
      r.Value? && (r.value <==> MarkedFrom(nodes, ring, k, l))
    decreases |ring| - k
  {
    var n := |ring|;
    var front, v := ring[0], ring[k];
    assert nodes[v].next == Ref(ring[Succ(k, n)]);
    if nodes[v].mark == l && k + 1 < n {
      assert ring[k + 1] != front;
      WalkOnRing(nodes, ring, l, k + 1, fuel - 1);
    }
  }

  /** What `QNODE_TEMPLATE_1(x)` returns: `endmostChildren().get(0)` fails for a node that
      is not a Q-node (null list) or has no children; otherwise the walk round the
      siblings of the first child, comparing with its label. */
  ghost function QNodeTemplate1Result(nodes: seq<Node>, x: Id): (r: Outcome<bool>)
    requires ValidNodes(nodes) && x < |nodes|
    ensures r == Fault <== nodes[x].kind != QNode || |nodes[x].children| == 0
  {
    match EndmostChildren(nodes, x)
    case None => Fault
    case Some(cs) =>
      if |cs| == 0 then Fault
      else
        assert NodeIn(nodes[x], |nodes|) && cs[0] in cs;
        LabelWalk(nodes, cs[0], nodes[cs[0]].mark, cs[0], |nodes|)
  }

  /** When the children of the Q-node `x` form its sibling ring, in order, the template
      answers whether all of them carry the label of the first. */
  lemma QNodeTemplate1OnRing(nodes: seq<Node>, x: Id)
    requires ValidNodes(nodes) && x < |nodes| && nodes[x].kind == QNode
    requires IsRing(nodes, nodes[x].children)
    ensures var cs := nodes[x].children;
      QNodeTemplate1Result(nodes, x) == Value(forall c :: c in cs ==> nodes[c].mark == nodes[cs[0]].mark)
  {
    var cs := nodes[x].children;
    var l := nodes[cs[0]].mark;
    RingBound(nodes, cs);
    assert QNodeTemplate1Result(nodes, x) == LabelWalk(nodes, cs[0], l, cs[0], |nodes|);
    WalkOnRing(nodes, cs, l, 0, |nodes|);
    MarkedFromEvery(nodes, cs, 0, l);
    if MarkedFrom(nodes, cs, 0, l) {
      forall c | c in cs
        ensures nodes[c].mark == l
      {
        var j :| 0 <= j < |cs| && cs[j] == c;
      }
    }
  }

  /** `QNODE_TEMPLATE_1`: on success `x` takes the label shared by its children; nothing
      else changes, and nothing at all when it returns false or fails. */
  method QNodeTemplate1(a: Arena, x: Id) returns (r: Outcome<bool>)
    requires a.Valid() && x < |a.nodes|
    modifies a
    ensures a.Valid() && r == QNodeTemplate1Result(old(a.nodes), x)
    ensures r == Value(true) ==>
      |old(a.nodes)[x].children| > 0
      && var front := old(a.nodes)[x].children[0];
         front < |old(a.nodes)|
         && a.nodes == old(a.nodes)[x := old(a.nodes)[x].(mark := old(a.nodes)[front].mark)]
    ensures r != Value(true) ==> a.nodes == old(a.nodes)
  {
    var ends := EndmostChildren(a.nodes, x);
    if ends.None? || |ends.value| == 0 {
      return Fault;
    }
    assert NodeIn(a.nodes[x], |a.nodes|) && ends.value[0] in ends.value;
    var front := ends.value[0];
    var consistentLabel := a.nodes[front].mark;
    var iter: Id := front;
    var fuel: nat := |a.nodes|;
    while true
      invariant iter < |a.nodes|
      invariant LabelWalk(a.nodes, front, consistentLabel, front, |a.nodes|)
             == LabelWalk(a.nodes, front, consistentLabel, iter, fuel)
      decreases fuel
    {
      if a.nodes[iter].mark != consistentLabel {
        return Value(false);
      }
      assert NodeIn(a.nodes[iter], |a.nodes|);
      var next := a.nodes[iter].next;
      if next == Null {
        return Fault;
      }
      if next == Ref(front) {
        break;
      }
      if fuel == 0 {
        return Fault;
      }
      iter, fuel := next.id, fuel - 1;
    }
    a.SetLabel(x, consistentLabel);
    return Value(true);
  }

  /** `TEMPLATE_Q1`: false for a node that is not a Q-node, and otherwise the all-alike
      template. */
  method TemplateQ1(a: Arena, x: Id) returns (r: Outcome<bool>)
    requires a.Valid() && x < |a.nodes|
    modifies a
    ensures a.Valid()
    ensures old(a.nodes)[x].kind != QNode ==> r == Value(false) && a.nodes == old(a.nodes)
    ensures old(a.nodes)[x].kind == QNode ==> r == QNodeTemplate1Result(old(a.nodes), x)
    ensures r == Value(true) ==>
      |old(a.nodes)[x].children| > 0
      && var front := old(a.nodes)[x].children[0];
         front < |old(a.nodes)|
         && a.nodes == old(a.nodes)[x := old(a.nodes)[x].(mark := old(a.nodes)[front].mark)]
    ensures r != Value(true) ==> a.nodes == old(a.nodes)
  {
    if a.nodes[x].kind == QNode {
      r := QNodeTemplate1(a, x);
    } else {
      r := Value(false);
    }
  }

  // ---------------------------------------------------------------------------------
  // Q2: at most one PARTIAL child, a Q-node, merged into x

  /** The matching phase of `TEMPLATE_Q2`: `x` is a Q-node whose FULL children are
      consecutive, with at most one PARTIAL child; that child, if there is one, is a
      Q-node whose FULL children and whose EMPTY children are each consecutive. */
  ghost predicate Q2Matches(nodes: seq<Node>, x: Id)
    requires ValidNodes(nodes) && x < |nodes|
  {
    var p := ChildrenOfLabel(nodes, x, Partial);
    && nodes[x].kind == QNode
    && Consecutive(nodes, ChildrenOfLabel(nodes, x, Full))
    && |p| <= 1
    && (|p| == 1 ==>
          var q := PTemplates.ThePartial(nodes, x);
          && nodes[q].kind == QNode
          && Consecutive(nodes, ChildrenOfLabel(nodes, q, Full))
          && Consecutive(nodes, ChildrenOfLabel(nodes, q, Empty)))
  }

  /** Where the replacement of Q2 fails: `endmostChildren().get(1)` of the PARTIAL child
      `q` or of `x` needs two children, and the sibling read next (`next` when `q` is
      the first child of `x`, `prev` otherwise) must not be null. */
  predicate Q2Faults(nodes: seq<Node>, x: Id, q: Id)
    requires ValidNodes(nodes) && x < |nodes| && q < |nodes|
  {
    var qc, xc := nodes[q].children, nodes[x].children;
    |qc| < 2 || |xc| < 2 || (q == xc[0] && nodes[q].next == Null) || (q != xc[0] && nodes[q].prev == Null)
  }

  /** Whether Q2 turns the PARTIAL child `q` around before merging it: when `q` is the
      first child of `x`, if its `next` sibling and its own first child are FULL; when it
      is the second, if its `prev` sibling and its own second child are FULL; otherwise,
      if its `prev` sibling is FULL and its first child EMPTY. */
  predicate Q2Turns(nodes: seq<Node>, x: Id, q: Id)
    requires ValidNodes(nodes) && x < |nodes| && q < |nodes| && !Q2Faults(nodes, x, q)
  {
    var qc, xc := nodes[q].children, nodes[x].children;
    assert NodeIn(nodes[q], |nodes|) && qc[0] in qc && qc[1] in qc;
    if q == xc[0] then
      nodes[nodes[q].next.id].mark == Full && nodes[qc[0]].mark == Full
    else if q == xc[1] then
      nodes[nodes[q].prev.id].mark == Full && nodes[qc[1]].mark == Full
    else
      nodes[nodes[q].prev.id].mark == Full && nodes[qc[0]].mark == Empty
  }

  /** `TEMPLATE_Q2`. A non-match returns false and changes nothing. With no PARTIAL child
      the match only labels `x` PARTIAL. With one, the match fails exactly where
      `Q2Faults` says, after `x` has been labelled; otherwise it returns true, with `x`
      PARTIAL, no other label and no counter changed, and, after a merge, every child of
      `x` pointing at it. */
  method TemplateQ2(a: Arena, x: Id) returns (r: Outcome<bool>)
    requires a.Valid() && x < |a.nodes|
    modifies a
    ensures a.Valid()
    ensures r == Value(true) ==>
      && |a.nodes| == |old(a.nodes)| && a.nodes[x].mark == Partial && LabelsKeptBut(old(a.nodes), a.nodes, x)
      && CountsKept(old(a.nodes), a.nodes)
    ensures !Q2Matches(old(a.nodes), x) ==> r == Value(false) && a.nodes == old(a.nodes)
    ensures Q2Matches(old(a.nodes), x) && |ChildrenOfLabel(old(a.nodes), x, Partial)| == 0 ==>
      r == Value(true) && a.nodes == old(a.nodes)[x := old(a.nodes)[x].(mark := Partial)]
    ensures Q2Matches(old(a.nodes), x) && |ChildrenOfLabel(old(a.nodes), x, Partial)| == 1 ==>
      var q := PTemplates.ThePartial(old(a.nodes), x);
      && (r == Fault <==> Q2Faults(old(a.nodes), x, q))
      && r != Value(false)
      && (r == Value(true) ==> forall c :: c in a.nodes[x].children ==> a.nodes[c].parent == Ref(x))
    ensures r == Fault ==> a.nodes == old(a.nodes)[x := old(a.nodes)[x].(mark := Partial)]
  {
    if a.nodes[x].kind != QNode {
      return Value(false);
    }
    if !Consecutive(a.nodes, ChildrenOfLabel(a.nodes, x, Full)) {
      return Value(false);
    }
    var partials := ChildrenOfLabel(a.nodes, x, Partial);
    if |partials| > 1 {
      return Value(false);
    }
    if |partials| == 0 {
      a.SetLabel(x, Partial);
      return Value(true);
    }
    var partialNode := PTemplates.ThePartial(a.nodes, x);
    if a.nodes[partialNode].kind != QNode {
      return Value(false);
    }
    if !Consecutive(a.nodes, ChildrenOfLabel(a.nodes, partialNode, Full)) {
      return Value(false);
    }
    if !Consecutive(a.nodes, ChildrenOfLabel(a.nodes, partialNode, Empty)) {
      return Value(false);
    }
    r := MergePartialChild(a, x, partialNode);
  }

  /** The replacement phase of Q2: label `x` PARTIAL, read the ends of the PARTIAL child
      `q` and of `x`, turn `q` around when `Q2Turns` says so, splice its children into
      those of `x` and point them at `x`. */
  method MergePartialChild(a: Arena, x: Id, q: Id) returns (r: Outcome<bool>)
    requires a.Valid() && x < |a.nodes| && q < |a.nodes|
    modifies a
    ensures a.Valid() && r != Value(false)
    ensures r == Fault <==> Q2Faults(old(a.nodes), x, q)
    ensures r == Fault ==> a.nodes == old(a.nodes)[x := old(a.nodes)[x].(mark := Partial)]
    ensures r == Value(true) ==>
      && |a.nodes| == |old(a.nodes)| && a.nodes[x].mark == Partial && LabelsKeptBut(old(a.nodes), a.nodes, x)
      && CountsKept(old(a.nodes), a.nodes)
      && forall c :: c in a.nodes[x].children ==> a.nodes[c].parent == Ref(x)
  {
    a.SetLabel(x, Partial);
    ghost var labelled := a.nodes;
    assert Q2Faults(labelled, x, q) == Q2Faults(old(a.nodes), x, q);
    var turn := TurnDecision(a, x, q);
    if turn.Fault? {
      return Fault;
    }
    if turn.value {
      Rotate(a, q);
    }
    ReduceChildQNodeIntoParentQNode(a, q, x);
    ghost var merged := a.nodes;
    assert LabelsKeptBut(old(a.nodes), merged, x) && CountsKept(old(a.nodes), merged);
    assert merged[x].mark == Partial;
    SetParentQNodeChildren(a, x);
    return Value(true);
  }

  /** The reads of the replacement of Q2 that decide whether to turn the PARTIAL child
      `q` around; they fail where the Java code dereferences null or reads past the end
      of a children list. */
  method TurnDecision(a: Arena, x: Id, q: Id) returns (r: Outcome<bool>)
    requires a.Valid() && x < |a.nodes| && q < |a.nodes|
    ensures r == Fault <==> Q2Faults(a.nodes, x, q)
    ensures r.Value? ==> r.value == Q2Turns(a.nodes, x, q)
  {
    var qc := a.nodes[q].children;
    if |qc| < 2 {
      return Fault;
    }
    assert NodeIn(a.nodes[q], |a.nodes|) && qc[0] in qc && qc[1] in qc;
    var leftMostChildOfQ, rightMostChildOfQ := qc[0], qc[1];
    var xc := a.nodes[x].children;
    if |xc| < 2 {
      return Fault;
    }
    var sibling: Link;
    if q == xc[0] {
      sibling := a.nodes[q].next;
    } else {
      sibling := a.nodes[q].prev;
    }
    if sibling == Null {
      return Fault;
    }
    var siblingFull := a.nodes[sibling.id].mark == Full;
    if q == xc[0] {
      r := Value(siblingFull && a.nodes[leftMostChildOfQ].mark == Full);
    } else if q == xc[1] {
      r := Value(siblingFull && a.nodes[rightMostChildOfQ].mark == Full);
    } else {
      r := Value(siblingFull && a.nodes[leftMostChildOfQ].mark == Empty);
    }
  }

  // ---------------------------------------------------------------------------------
  // Q3: two PARTIAL Q-node children, merged into x (root of the pertinent subtree)

  /** The corrected scan of the children of `x`. */
  function ChildrenScan(nodes: seq<Node>, x: Id): (r: Option<ScanState>)
    requires ValidNodes(nodes) && x < |nodes|
    ensures r.Some? ==> |r.value.left| + |r.value.right| <= |nodes[x].children|
  {
    assert NodeIn(nodes[x], |nodes|);
    Scan(true, nodes, nodes[x].children)
  }

  /** The `i`-th PARTIAL child of `x`. */
  function PartialAt(nodes: seq<Node>, x: Id, i: nat): (c: Id)
    requires ValidNodes(nodes) && x < |nodes| && i < |ChildrenOfLabel(nodes, x, Partial)|
    ensures c < |nodes| && c == ChildrenOfLabel(nodes, x, Partial)[i]
    ensures c in nodes[x].children && nodes[c].mark == Partial
  {
    var p := ChildrenOfLabel(nodes, x, Partial);
    assert p[i] in p;
    p[i]
  }

  /** The matching phase of `TEMPLATE_Q3`: `x` is a Q-node with exactly two PARTIAL
      children, both Q-nodes whose FULL children and whose EMPTY children are each
      consecutive, and its children pass the (corrected) scan. */
  ghost predicate Q3Matches(nodes: seq<Node>, x: Id)
    requires ValidNodes(nodes) && x < |nodes|
  {
    && nodes[x].kind == QNode
    && |ChildrenOfLabel(nodes, x, Partial)| == 2
    && var p0, p1 := PartialAt(nodes, x, 0), PartialAt(nodes, x, 1);
    && nodes[p0].kind == QNode && nodes[p1].kind == QNode
    && Consecutive(nodes, ChildrenOfLabel(nodes, p0, Full))
    && Consecutive(nodes, ChildrenOfLabel(nodes, p1, Full))
    && Consecutive(nodes, ChildrenOfLabel(nodes, p0, Empty))
    && Consecutive(nodes, ChildrenOfLabel(nodes, p1, Empty))
    && ChildrenScan(nodes, x).Some?
  }

  /** The scan loop of `TEMPLATE_Q3`, corrected; it reads and changes nothing else. */
  method ScanChildren(a: Arena, x: Id) returns (ok: bool, left: seq<Id>, right: seq<Id>)
    requires a.Valid() && x < |a.nodes|
    ensures ok == ChildrenScan(a.nodes, x).Some?
    ensures ok ==> left == ChildrenScan(a.nodes, x).value.left && right == ChildrenScan(a.nodes, x).value.right
  {
    var cs := a.nodes[x].children;
    assert NodeIn(a.nodes[x], |a.nodes|);
    var flips: nat := 0;
    left, right := [], [];
    for i := 0 to |cs|
      invariant AllIn(cs[..i], |a.nodes|)
      invariant Scan(true, a.nodes, cs[..i]) == Some(ScanState(flips, left, right))
    {
      ScanSnoc(true, a.nodes, cs, i);
      var n := cs[i];
      var l := a.nodes[n].mark;
      if flips == 0 {
        if l == Partial {
          flips := flips + 1;
        } else if l != Empty {
          ScanStuck(true, a.nodes, cs, i + 1);
          return false, left, right;
        } else {
          left := left + [n];
        }
      } else if flips == 1 {
        if l == Full {
          flips := flips + 1;
        } else if l != Partial {
          ScanStuck(true, a.nodes, cs, i + 1);
          return false, left, right;
        } else {
          flips := flips + 2;
        }
      } else if flips == 2 {
        if l == Partial {
          flips := flips + 1;
        } else if l != Full {
          ScanStuck(true, a.nodes, cs, i + 1);
          return false, left, right;
        }
      } else if flips == 3 {
        if l == Empty {
          flips := flips + 1;
          right := right + [n];
        } else if l != Partial {
          ScanStuck(true, a.nodes, cs, i + 1);
          return false, left, right;
        }
      } else {
        if l != Empty {
          ScanStuck(true, a.nodes, cs, i + 1);
          return false, left, right;
        } else {
          right := right + [n];
        }
      }
    }
    assert cs[..|cs|] == cs;
    ok := true;
  }

  /** What a successful replacement of Q3 leaves: `x` PARTIAL, no other label and no
      counter changed, every child of `x` pointing at it; the new children list leads
      with the left EMPTY children and ends with the right ones, and is a ring when its
      members are distinct; the first and last of the old children of `x` have `x` as
      parent; and when `x` is not among its own children, the list holds exactly the
      left EMPTY children, the children of the two PARTIAL children, the FULL children
      of `x` and the right EMPTY children. */
  ghost predicate Q3Replaced(was: seq<Node>, now: seq<Node>, x: Id, list: seq<Id>)
    requires ValidNodes(was) && x < |was|
    requires |ChildrenOfLabel(was, x, Partial)| == 2 && ChildrenScan(was, x).Some?
  {
    var cs, sc := was[x].children, ChildrenScan(was, x).value;
    var left, right := sc.left, sc.right;
    && |now| == |was| && ValidNodes(now) && now[x].mark == Partial
    && LabelsKeptBut(was, now, x) && CountsKept(was, now)
    && (forall c :: c in now[x].children ==> now[c].parent == Ref(x))
    && |left| > 0 && |right| > 0 && |left| + |right| <= |list|
    && list[..|left|] == left && list[|list| - |right|..] == right
    && cs[0] in cs && cs[|cs| - 1] in cs
    && now[cs[0]].parent == Ref(x) && now[cs[|cs| - 1]].parent == Ref(x)
    && (Distinct(list) ==> IsRing(now, list))
    && (x !in cs ==>
          multiset(list) == multiset(left) + multiset(was[PartialAt(was, x, 0)].children)
            + multiset(ChildrenOfLabel(was, x, Full))
            + multiset(was[PartialAt(was, x, 1)].children) + multiset(right))
  }

  /** `TEMPLATE_Q3`, run with the corrected scan (`Scan(true, ...)`), not the scan as
      written: on EMPTY, PARTIAL, PARTIAL, EMPTY the code as written returns false where
      this method goes on to the replacement, and on EMPTY, PARTIAL, PARTIAL, FULL the
      code as written accepts and then throws on the empty right list where this method
      returns false. A non-match returns false and changes nothing. A match fails
      exactly when the template has no EMPTY child on the left or none on the right
      (`leftEmpties.get(0)`, `rightEmpties.get(size() - 1)`), returns false when
      `rotateIfNeeded` refuses one of the PARTIAL children, and otherwise returns true
      with the tree as `Q3Replaced` says. The label of `x` is set to PARTIAL before
      `rotateIfNeeded` is called, so on that refusal the template returns false with
      `x` already PARTIAL and the PARTIAL children possibly turned; the model keeps
      that half-done state. */
  method TemplateQ3(a: Arena, x: Id) returns (r: Outcome<bool>, ghost list: seq<Id>)
    requires a.Valid() && x < |a.nodes|
    modifies a
    ensures a.Valid()
    ensures !Q3Matches(old(a.nodes), x) ==> r == Value(false) && a.nodes == old(a.nodes)
    ensures r == Fault ==>
      && Q3Matches(old(a.nodes), x)
      && (|ChildrenScan(old(a.nodes), x).value.left| == 0 || |ChildrenScan(old(a.nodes), x).value.right| == 0)
    ensures Q3Matches(old(a.nodes), x)
      && |ChildrenScan(old(a.nodes), x).value.left| > 0 && |ChildrenScan(old(a.nodes), x).value.right| > 0
      ==> r != Fault
    ensures r == Value(true) ==> Q3Matches(old(a.nodes), x) && Q3Replaced(old(a.nodes), a.nodes, x, list)
    ensures r == Value(false) && Q3Matches(old(a.nodes), x) ==>
      && |a.nodes| == |old(a.nodes)| && a.nodes[x].mark == Partial
      && LabelsKeptBut(old(a.nodes), a.nodes, x)
      && CountsKept(old(a.nodes), a.nodes)
  {
    list := [];
    if a.nodes[x].kind != QNode {
      return Value(false), list;
    }
    if |ChildrenOfLabel(a.nodes, x, Partial)| != 2 {
      return Value(false), list;
    }
    var first, second := PartialAt(a.nodes, x, 0), PartialAt(a.nodes, x, 1);
    if a.nodes[first].kind != QNode || a.nodes[second].kind != QNode {
      return Value(false), list;
    }
    if !Consecutive(a.nodes, ChildrenOfLabel(a.nodes, first, Full))
      || !Consecutive(a.nodes, ChildrenOfLabel(a.nodes, second, Full))
      || !Consecutive(a.nodes, ChildrenOfLabel(a.nodes, first, Empty))
      || !Consecutive(a.nodes, ChildrenOfLabel(a.nodes, second, Empty))
    {
      return Value(false), list;
    }
    var ok, leftEmpties, rightEmpties := ScanChildren(a, x);
    if !ok {
      return Value(false), list;
    }
    r, list := Q3Replace(a, x, leftEmpties, rightEmpties);
  }

  /** The replacement phase of Q3, given the EMPTY children the scan collected. */
  method Q3Replace(a: Arena, x: Id, left: seq<Id>, right: seq<Id>) returns (r: Outcome<bool>, ghost list: seq<Id>)
    requires a.Valid() && x < |a.nodes| && a.nodes[x].kind == QNode
    requires |ChildrenOfLabel(a.nodes, x, Partial)| == 2 && ChildrenScan(a.nodes, x).Some?
    requires a.nodes[PartialAt(a.nodes, x, 0)].kind == QNode && a.nodes[PartialAt(a.nodes, x, 1)].kind == QNode
    requires left == ChildrenScan(a.nodes, x).value.left && right == ChildrenScan(a.nodes, x).value.right
    modifies a
    ensures a.Valid()
    ensures r == Fault ==> |left| == 0 || |right| == 0
    ensures |left| > 0 && |right| > 0 ==> r != Fault
    ensures r == Value(true) ==> Q3Replaced(old(a.nodes), a.nodes, x, list)
    ensures r == Value(false) ==>
      && |a.nodes| == |old(a.nodes)| && a.nodes[x].mark == Partial
      && LabelsKeptBut(old(a.nodes), a.nodes, x)
      && CountsKept(old(a.nodes), a.nodes)
  {
    ghost var was := a.nodes;
    var ok, p0, p1 := OrientPartials(a, x);
    if !ok {
      return Value(false), [];
    }
    r, list := Q3Join(a, x, left, p0, p1, right, was);
  }

  /** The replacement of Q3 once both PARTIAL children are turned round: `JoinHalves`,
      with what it leaves stated against the arena `was` before the replacement. */
  method Q3Join(a: Arena, x: Id, left: seq<Id>, p0: Id, p1: Id, right: seq<Id>, ghost was: seq<Node>)
    returns (r: Outcome<bool>, ghost list: seq<Id>)
    requires ValidNodes(was) && x < |was|
    requires |ChildrenOfLabel(was, x, Partial)| == 2 && ChildrenScan(was, x).Some?
    requires left == ChildrenScan(was, x).value.left && right == ChildrenScan(was, x).value.right
    requires a.Valid() && |a.nodes| == |was| && p0 < |a.nodes| && p1 < |a.nodes|
    requires a.nodes[x].mark == Partial && LabelsKeptBut(was, a.nodes, x) && CountsKept(was, a.nodes)
    requires multiset(a.nodes[p0].children) == multiset(was[p0].children)
    requires multiset(a.nodes[p1].children) == multiset(was[p1].children)
    requires x !in was[x].children ==>
      && [p0, p1] == ChildrenOfLabel(was, x, Partial)
      && ChildrenOfLabel(a.nodes, x, Full) == ChildrenOfLabel(was, x, Full)
    modifies a
    ensures a.Valid()
    ensures r != Value(false) && (r == Fault <==> |left| == 0 || |right| == 0)
    ensures r == Value(true) ==> Q3Replaced(was, a.nodes, x, list)
  {
    ScanEnds(was, x);
    ghost var turned := a.nodes;
    r, list := JoinHalves(a, x, left, p0, p1, right);
    if r == Value(true) {
      Q3Combined(was, turned, x, left, p0, p1, right, list);
      Q3ReplacedFrom(was, turned, a.nodes, x, left, turned[p0].children + ChildrenOfLabel(turned, x, Full) + turned[p1].children, right, list);
    }
  }

  /** The EMPTY children the scan collects lead and end the children list. */
  lemma ScanEnds(nodes: seq<Node>, x: Id)
    requires ValidNodes(nodes) && x < |nodes| && ChildrenScan(nodes, x).Some?
    ensures var cs, s := nodes[x].children, ChildrenScan(nodes, x).value;
      && AllIn(s.left, |nodes|) && AllIn(s.right, |nodes|)
      && s.left == cs[..|s.left|] && s.right == cs[|cs| - |s.right|..]
  {
    var cs := nodes[x].children;
    assert NodeIn(nodes[x], |nodes|) && ChildrenScan(nodes, x) == Scan(true, nodes, cs);
    ScanCollects(nodes, cs);
    PrefixIn(cs, |nodes|, |ChildrenScan(nodes, x).value.left|);
    SuffixIn(cs, |nodes|, |cs| - |ChildrenScan(nodes, x).value.right|);
  }

  /** The facts the two halves of the replacement establish make up `Q3Replaced`. */
  lemma Q3ReplacedFrom(was: seq<Node>, turned: seq<Node>, now: seq<Node>, x: Id,
                       left: seq<Id>, mid: seq<Id>, right: seq<Id>, list: seq<Id>)
    requires ValidNodes(was) && x < |was|
    requires |ChildrenOfLabel(was, x, Partial)| == 2 && ChildrenScan(was, x).Some?
    requires left == ChildrenScan(was, x).value.left && right == ChildrenScan(was, x).value.right
    requires left == was[x].children[..|left|] && right == was[x].children[|was[x].children| - |right|..]
    requires ValidNodes(turned) && |turned| == |was| && turned[x].mark == Partial
    requires LabelsKeptBut(was, turned, x) && CountsKept(was, turned)
    requires ValidNodes(now) && StructureOnly(turned, now)
    requires |left| > 0 && |right| > 0
    requires list == left + mid + right
    requires left[0] < |now| && right[|right| - 1] < |now|
    requires now[left[0]].parent == Ref(x) && now[right[|right| - 1]].parent == Ref(x)
    requires Distinct(list) ==> IsRing(now, list)
    requires forall c :: c in now[x].children ==> now[c].parent == Ref(x)
    requires x !in was[x].children ==>
      multiset(list) == multiset(left) + multiset(was[PartialAt(was, x, 0)].children)
        + multiset(ChildrenOfLabel(was, x, Full)) + multiset(was[PartialAt(was, x, 1)].children) + multiset(right)
    ensures Q3Replaced(was, now, x, list)
  {
    assert list[..|left|] == left && list[|list| - |right|..] == right;
  }

  /** The replacement of Q3 up to building the new children list: `x` is labelled
      PARTIAL, its PARTIAL children are read again and each is turned round if
      `rotateIfNeeded` says so; false when it refuses. The casts to Q-node cannot fail:
      the PARTIAL children read again are the two read before, or `x` itself. */
  method OrientPartials(a: Arena, x: Id) returns (ok: bool, p0: Id, p1: Id)
    requires a.Valid() && x < |a.nodes| && a.nodes[x].kind == QNode
    requires |ChildrenOfLabel(a.nodes, x, Partial)| == 2
    requires a.nodes[PartialAt(a.nodes, x, 0)].kind == QNode && a.nodes[PartialAt(a.nodes, x, 1)].kind == QNode
    modifies a
    ensures a.Valid() && |a.nodes| == |old(a.nodes)| && p0 < |a.nodes| && p1 < |a.nodes|
    ensures a.nodes[x].mark == Partial && LabelsKeptBut(old(a.nodes), a.nodes, x)
    ensures CountsKept(old(a.nodes), a.nodes)
    ensures ok ==> a.nodes[p0].kind == QNode && a.nodes[p1].kind == QNode
    ensures ok ==>
      && multiset(a.nodes[p0].children) == multiset(old(a.nodes)[p0].children)
      && multiset(a.nodes[p1].children) == multiset(old(a.nodes)[p1].children)
    ensures ok && x !in old(a.nodes)[x].children ==>
      && [p0, p1] == ChildrenOfLabel(old(a.nodes), x, Partial)
      && a.nodes[x].children == old(a.nodes)[x].children
      && ChildrenOfLabel(a.nodes, x, Full) == ChildrenOfLabel(old(a.nodes), x, Full)
  {
    ghost var was := a.nodes;
    a.SetLabel(x, Partial);
    ghost var labelled := a.nodes;
    RelabelPartials(was, labelled, x);
    var partials := ChildrenOfLabel(a.nodes, x, Partial);
    assert partials[0] in partials && partials[1] in partials;
    p0, p1 := partials[0], partials[1];
    ok := RotatePair(a, p0, p1);
    RelabelledThenTurned(was, labelled, a.nodes, x);
    if ok && x !in was[x].children {
      KeptWhenNotOwnChild(was, labelled, a.nodes, x, p0, p1);
    }
  }

  /** When `x` is not its own child, the PARTIAL children read again are the two read
      before, and turning them round leaves the children of `x` and its FULL children. */
  lemma KeptWhenNotOwnChild(was: seq<Node>, labelled: seq<Node>, now: seq<Node>, x: Id, p0: Id, p1: Id)
    requires ValidNodes(was) && x < |was| && labelled == was[x := was[x].(mark := Partial)]
    requires x !in was[x].children && |ChildrenOfLabel(was, x, Partial)| == 2
    requires ValidNodes(labelled) && ChildrenOfLabel(labelled, x, Partial) == ChildrenOfLabel(was, x, Partial)
    requires p0 == ChildrenOfLabel(labelled, x, Partial)[0] && p1 == ChildrenOfLabel(labelled, x, Partial)[1]
    requires ValidNodes(now) && StructureOnly(labelled, now)
    requires forall i :: 0 <= i < |now| && i != p0 && i != p1 ==> now[i].children == labelled[i].children
    ensures [p0, p1] == ChildrenOfLabel(was, x, Partial)
    ensures now[x].children == was[x].children
    ensures ChildrenOfLabel(now, x, Full) == ChildrenOfLabel(was, x, Full)
  {
    var p := ChildrenOfLabel(was, x, Partial);
    assert p == [p[0], p[1]];
    assert p[0] in p && p[1] in p;
    assert p0 != x && p1 != x;
    assert now[x].children == was[x].children;
    assert NodeIn(was[x], |was|);
    forall c | c in was[x].children
      ensures now[c].mark == was[c].mark
    {
      assert SameAttributes(labelled[c], now[c]);
    }
    OfLabelSame(was, now, was[x].children, Full);
  }

  /** Labelling `x` PARTIAL and then changing only structure keeps every counter and
      every other label. */
  lemma RelabelledThenTurned(was: seq<Node>, labelled: seq<Node>, now: seq<Node>, x: Id)
    requires x < |was| && labelled == was[x := was[x].(mark := Partial)]
    requires StructureOnly(labelled, now)
    ensures |now| == |was| && now[x].mark == Partial && LabelsKeptBut(was, now, x)
    ensures CountsKept(was, now)
    ensures forall i :: 0 <= i < |now| ==> now[i].kind == labelled[i].kind
  {
    assert SameAttributes(labelled[x], now[x]);
  }

  /** `rotateIfNeeded` on `p0`, then, unless it refused, on `p1`: kinds, labels and
      counters stay, the children of `p0` and `p1` keep their members, and no other
      node's children change. */
  method RotatePair(a: Arena, p0: Id, p1: Id) returns (ok: bool)
    requires a.Valid() && p0 < |a.nodes| && p1 < |a.nodes|
    modifies a
    ensures a.Valid() && StructureOnly(old(a.nodes), a.nodes)
    ensures multiset(a.nodes[p0].children) == multiset(old(a.nodes)[p0].children)
    ensures multiset(a.nodes[p1].children) == multiset(old(a.nodes)[p1].children)
    ensures forall i :: 0 <= i < |a.nodes| && i != p0 && i != p1 ==> a.nodes[i].children == old(a.nodes)[i].children
  {
    ok := RotateIfNeeded(a, p0);
    if ok {
      ok := RotateIfNeeded(a, p1);
    }
  }

  /** Labels and kinds after `x` is labelled PARTIAL: at least the two PARTIAL children,
      all Q-nodes, and the same two when `x` is not its own child. */
  lemma RelabelPartials(s: seq<Node>, t: seq<Node>, x: Id)
    requires ValidNodes(s) && x < |s| && s[x].kind == QNode && t == s[x := s[x].(mark := Partial)]
    requires |ChildrenOfLabel(s, x, Partial)| == 2
    requires s[PartialAt(s, x, 0)].kind == QNode && s[PartialAt(s, x, 1)].kind == QNode
    ensures ValidNodes(t)
    ensures |ChildrenOfLabel(t, x, Partial)| >= 2
    ensures forall c :: c in ChildrenOfLabel(t, x, Partial) ==> t[c].kind == QNode
    ensures x !in s[x].children ==> ChildrenOfLabel(t, x, Partial) == ChildrenOfLabel(s, x, Partial)
  {
    RelabelValid(s, t, x);
    var cs := s[x].children;
    assert NodeIn(s[x], |s|);
    assert t[x].children == cs;
    OfLabelGrows(s, t, cs, Partial);
    PartialsQ(s, x);
    forall c | c in ChildrenOfLabel(t, x, Partial)
      ensures t[c].kind == QNode
    {
      RelabelledKind(s, t, x, c);
    }
    if x !in cs {
      OfLabelSame(s, t, cs, Partial);
    }
  }

  lemma RelabelValid(s: seq<Node>, t: seq<Node>, x: Id)
    requires ValidNodes(s) && x < |s| && t == s[x := s[x].(mark := Partial)]
    ensures ValidNodes(t)
  {
    forall i | 0 <= i < |t| ensures NodeIn(t[i], |t|) { assert NodeIn(s[i], |s|); }
  }

  /** The two PARTIAL children, both Q-nodes, are all the PARTIAL children. */
  lemma PartialsQ(s: seq<Node>, x: Id)
    requires ValidNodes(s) && x < |s| && |ChildrenOfLabel(s, x, Partial)| == 2
    requires s[PartialAt(s, x, 0)].kind == QNode && s[PartialAt(s, x, 1)].kind == QNode
    ensures forall c :: c in ChildrenOfLabel(s, x, Partial) ==> s[c].kind == QNode
  {
    var p := ChildrenOfLabel(s, x, Partial);
    assert p == [PartialAt(s, x, 0), PartialAt(s, x, 1)];
  }

  lemma RelabelledKind(s: seq<Node>, t: seq<Node>, x: Id, c: Id)
    requires ValidNodes(s) && x < |s| && s[x].kind == QNode && t == s[x := s[x].(mark := Partial)]
    requires ValidNodes(t)
    requires forall d :: d in ChildrenOfLabel(s, x, Partial) ==> s[d].kind == QNode
    requires c in ChildrenOfLabel(t, x, Partial)
    ensures t[c].kind == QNode
  {
    if c != x {
      assert c in ChildrenOfLabel(s, x, Partial);
    }
  }

  /** A list filtered from labels that changed nowhere in it. */
  lemma {:induction false} OfLabelSame(s: seq<Node>, t: seq<Node>, cs: seq<Id>, l: Label)
    requires AllIn(cs, |s|) && |s| <= |t|
    requires forall c :: c in cs ==> t[c].mark == s[c].mark
    ensures AllIn(cs, |t|) && OfLabel(t, cs, l) == OfLabel(s, cs, l)
  {
    if cs != [] {
      var init := cs[..|cs| - 1];
      assert forall c :: c in init ==> c in cs;
      assert cs[|cs| - 1] in cs;
      OfLabelSame(s, t, init, l);
    }
  }

  /** A filter from labels that changed only to `l` keeps at least as many members. */
  lemma {:induction false} OfLabelGrows(s: seq<Node>, t: seq<Node>, cs: seq<Id>, l: Label)
    requires AllIn(cs, |s|) && |s| <= |t|
    requires forall c :: c in cs ==> t[c].mark == s[c].mark || t[c].mark == l
    ensures AllIn(cs, |t|) && |OfLabel(t, cs, l)| >= |OfLabel(s, cs, l)|
  {
    if cs != [] {
      var init := cs[..|cs| - 1];
      assert forall c :: c in init ==> c in cs;
      assert cs[|cs| - 1] in cs;
      OfLabelGrows(s, t, init, l);
    }
  }

  /** The end of the replacement of Q3: the new children list is the left EMPTY children,
      the children of `p0`, the FULL children of `x`, the children of `p1` and the right
      EMPTY children; the first and last of them get `x` as parent, the list is linked
      into a ring, becomes the children of `x`, and they point at `x`. Fails when either
      side has no EMPTY child. */
  method JoinHalves(a: Arena, x: Id, left: seq<Id>, p0: Id, p1: Id, right: seq<Id>)
    returns (r: Outcome<bool>, ghost list: seq<Id>)
    requires a.Valid() && x < |a.nodes| && p0 < |a.nodes| && p1 < |a.nodes|
    requires AllIn(left, |a.nodes|) && AllIn(right, |a.nodes|)
    modifies a
    ensures a.Valid() && StructureOnly(old(a.nodes), a.nodes)
    ensures r != Value(false) && (r == Fault <==> |left| == 0 || |right| == 0)
    ensures r == Value(true) ==>
      && |left| > 0 && |right| > 0
      && list == left + (old(a.nodes)[p0].children + ChildrenOfLabel(old(a.nodes), x, Full)
                         + old(a.nodes)[p1].children) + right
      && left[0] in left && right[|right| - 1] in right
      && a.nodes[left[0]].parent == Ref(x) && a.nodes[right[|right| - 1]].parent == Ref(x)
      && (Distinct(list) ==> IsRing(a.nodes, list))
      && forall c :: c in a.nodes[x].children ==> a.nodes[c].parent == Ref(x)
  {
    assert NodeIn(a.nodes[p0], |a.nodes|) && NodeIn(a.nodes[p1], |a.nodes|);
    var replacementChildren := left + (a.nodes[p0].children + ChildrenOfLabel(a.nodes, x, Full)
                                       + a.nodes[p1].children) + right;
    list := replacementChildren;
    if |left| == 0 {
      return Fault, list;
    }
    assert left[0] in left;
    a.SetParent(left[0], Ref(x));
    if |right| == 0 {
      return Fault, list;
    }
    assert right[|right| - 1] in right;
    a.SetParent(right[|right| - 1], Ref(x));
    ghost var parented := a.nodes;
    assert StructureOnly(old(a.nodes), parented);
    assert parented[left[0]].parent == Ref(x) && parented[right[|right| - 1]].parent == Ref(x);
    LinkAsChildren(a, x, replacementChildren);
    StructureOnlyTrans(old(a.nodes), parented, a.nodes);
    return Value(true), list;
  }

  /** The last three steps of Q3: `setCircularLinks(list)`, the endmost children of `x`
      set to the ends of the list, and the children of `x` pointed at it. Parents change
      only to `x`. */
  method LinkAsChildren(a: Arena, x: Id, list: seq<Id>)
    requires a.Valid() && x < |a.nodes| && AllIn(list, |a.nodes|) && |list| > 0
    modifies a
    ensures a.Valid() && StructureOnly(old(a.nodes), a.nodes)
    ensures forall i :: 0 <= i < |a.nodes| ==> a.nodes[i].parent == old(a.nodes)[i].parent || a.nodes[i].parent == Ref(x)
    ensures Distinct(list) ==> IsRing(a.nodes, list)
    ensures forall c :: c in a.nodes[x].children ==> a.nodes[c].parent == Ref(x)
  {
    SetCircularLinks(a, list);
    ghost var linked := a.nodes;
    var first, last := list[0], list[|list| - 1];
    assert first in list && last in list;
    SetQNodeEndmostChildren(a, x, Ref(first), Ref(last));
    ghost var ended := a.nodes;
    assert StructureOnly(linked, ended);
    SetParentQNodeChildren(a, x);
    assert StructureOnly(ended, a.nodes);
    StructureOnlyTrans(old(a.nodes), linked, ended);
    StructureOnlyTrans(old(a.nodes), ended, a.nodes);
    if Distinct(list) {
      RingKept(linked, a.nodes, list);
    }
  }

  lemma StructureOnlyTrans(s1: seq<Node>, s2: seq<Node>, s3: seq<Node>)
    requires StructureOnly(s1, s2) && StructureOnly(s2, s3)
    ensures StructureOnly(s1, s3)
  {
  }

  /** The two halves of the replacement of Q3 taken together. */
  lemma Q3Combined(was: seq<Node>, turned: seq<Node>, x: Id,
                   left: seq<Id>, p0: Id, p1: Id, right: seq<Id>, list: seq<Id>)
    requires ValidNodes(was) && x < |was| && |was| == |turned| && p0 < |turned| && p1 < |turned|
    requires multiset(turned[p0].children) == multiset(was[p0].children)
    requires multiset(turned[p1].children) == multiset(was[p1].children)
    requires ValidNodes(turned)
    requires x !in was[x].children ==>
      && [p0, p1] == ChildrenOfLabel(was, x, Partial)
      && ChildrenOfLabel(turned, x, Full) == ChildrenOfLabel(was, x, Full)
    requires list == left + (turned[p0].children + ChildrenOfLabel(turned, x, Full) + turned[p1].children) + right
    ensures x !in was[x].children ==>
      multiset(list) == multiset(left) + multiset(was[PartialAt(was, x, 0)].children)
        + multiset(ChildrenOfLabel(was, x, Full)) + multiset(was[PartialAt(was, x, 1)].children) + multiset(right)
  {
  }
}

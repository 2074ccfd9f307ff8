/** `reduce(T, S)` of pqtree/PQTree.java: the queue of pertinent nodes is processed
    bottom-up; each node passes its pertinent leaves and one pertinent child to its parent
    and is then matched against the templates, in a fixed order, the first template that
    applies doing the replacement. No applicable template gives the null tree. */
module Reduction {
  import opened Outcomes
  import opened PQNodes
  import opened Helpers
  import PTemplates
  import QTemplates

  datatype Template = L1 | P1 | P2 | P3 | P4 | P5 | P6 | Q1 | Q2 | Q3

  /** The order `reduce` tries the templates in for a node that is not the root of the
      pertinent subtree (PQTree.java:135-140) and for the root (PQTree.java:148-155). */
  const NonRootOrder: seq<Template> := [L1, P1, P3, P5, Q1, Q2]
  const RootOrder: seq<Template> := [L1, P1, P2, P4, P6, Q1, Q2, Q3]

  /** The template `t` does not apply to `x`: its matching phase fails, so it returns
      false and leaves the tree as it was. */
  ghost predicate Declines(nodes: seq<Node>, x: Id, t: Template)
    requires ValidNodes(nodes) && x < |nodes|
  {
    match t
    case L1 => !PTemplates.TemplateL1(nodes, x)
    case P1 => !PTemplates.P1Matches(nodes, x)
    case P2 => !PTemplates.SplitsEmptyFull(nodes, x)
    case P3 => !PTemplates.SplitsEmptyFull(nodes, x)
    case P4 => !PTemplates.P4Matches(nodes, x)
    case P5 => !PTemplates.P5Matches(nodes, x)
    case P6 => !PTemplates.P6Matches(nodes, x)
    case Q1 => nodes[x].kind != QNode || QTemplates.QNodeTemplate1Result(nodes, x) == Value(false)
    case Q2 => !QTemplates.Q2Matches(nodes, x)
    case Q3 => !QTemplates.Q3Matches(nodes, x)
  }

  /** What every template promises the loop of `reduce`: a template that declines returns
      false and changes nothing; one that applies does not return false (except Q3, which
      can refuse to rotate a PARTIAL child after matching); and a replacement keeps every
      counter of the nodes the tree had, the nodes it adds having no pertinent children. */
  method Apply(a: Arena, x: Id, t: Template) returns (r: Outcome<bool>)
    requires a.Valid() && x < |a.nodes|
    modifies a
    ensures a.Valid()
    ensures Declines(old(a.nodes), x, t) ==> r == Value(false) && a.nodes == old(a.nodes)
    ensures !Declines(old(a.nodes), x, t) && t != Q3 ==> r != Value(false)
    ensures r == Value(true) ==> CountsKept(old(a.nodes), a.nodes)
  {
    if t.L1? || t.P1? || t.P2? || t.P3? || t.P4? || t.P5? || t.P6? {
      r := ApplyP(a, x, t);
    } else {
      r := ApplyQ(a, x, t);
    }
  }

  method ApplyP(a: Arena, x: Id, t: Template) returns (r: Outcome<bool>)
    requires a.Valid() && x < |a.nodes| && (t.L1? || t.P1? || t.P2? || t.P3? || t.P4? || t.P5? || t.P6?)
    modifies a
    ensures a.Valid()
    ensures Declines(old(a.nodes), x, t) ==> r == Value(false) && a.nodes == old(a.nodes)
    ensures !Declines(old(a.nodes), x, t) ==> r != Value(false)
    ensures r == Value(true) ==> CountsKept(old(a.nodes), a.nodes)
  {
    match t
    case L1 =>
      r := Value(PTemplates.TemplateL1(a.nodes, x));
    case P1 =>
      var b := PTemplates.TemplateP1(a, x);
      r := Value(b);
    case P2 =>
      r := ApplyP2(a, x);
    case P3 =>
      var b := PTemplates.TemplateP3(a, x);
      r := Value(b);
    case P4 =>
      r := PTemplates.TemplateP4(a, x);
    case P5 =>
      r := PTemplates.TemplateP5(a, x);
    case P6 =>
      var b;
      ghost var l1, r1, l2, r2;
      b, l1, r1, l2, r2 := PTemplates.TemplateP6(a, x);
      r := Value(b);
  }

  method ApplyQ(a: Arena, x: Id, t: Template) returns (r: Outcome<bool>)
    requires a.Valid() && x < |a.nodes| && (t.Q1? || t.Q2? || t.Q3?)
    modifies a
    ensures a.Valid()
    ensures Declines(old(a.nodes), x, t) ==> r == Value(false) && a.nodes == old(a.nodes)
    ensures !Declines(old(a.nodes), x, t) && t != Q3 ==> r != Value(false)
    ensures r == Value(true) ==> CountsKept(old(a.nodes), a.nodes)
  {
    match t
    case Q1 =>
      r := QTemplates.TemplateQ1(a, x);
    case Q2 =>
      r := QTemplates.TemplateQ2(a, x);
    case Q3 =>
      ghost var list;
      r, list := QTemplates.TemplateQ3(a, x);
  }

  /** `TEMPLATE_P2`, with the counters it keeps. */
  method ApplyP2(a: Arena, x: Id) returns (r: Outcome<bool>)
    requires a.Valid() && x < |a.nodes|
    modifies a
    ensures a.Valid()
    ensures r == Value(PTemplates.SplitsEmptyFull(old(a.nodes), x))
    ensures !PTemplates.SplitsEmptyFull(old(a.nodes), x) ==> a.nodes == old(a.nodes)
    ensures CountsKept(old(a.nodes), a.nodes)
  {
    var b := PTemplates.TemplateP2(a, x);
    r := Value(b);
    ghost var was := old(a.nodes);
    forall i | 0 <= i < |was|
      ensures a.nodes[i].pertinentChildCount == was[i].pertinentChildCount
      ensures a.nodes[i].pertinentLeafCount == was[i].pertinentLeafCount
      ensures a.nodes[i].queued == was[i].queued && a.nodes[i].blocked == was[i].blocked
    {
    }
  }

  /** The non-root cascade of PQTree.java:135-143: L1, P1, P3, P5, Q1, Q2 in order, the
      first that does not return false deciding. `which` is the position of that
      template, every template before it having declined; false means all declined. */
  method TryNonRoot(a: Arena, x: Id) returns (r: Outcome<bool>, ghost which: nat)
    requires a.Valid() && x < |a.nodes|
    modifies a
    ensures a.Valid()
    ensures which <= |NonRootOrder|
    ensures forall k :: 0 <= k < which ==> Declines(old(a.nodes), x, NonRootOrder[k])
    ensures which < |NonRootOrder| ==> !Declines(old(a.nodes), x, NonRootOrder[which]) && r != Value(false)
    ensures which == |NonRootOrder| ==> r == Value(false) && a.nodes == old(a.nodes)
    ensures r == Value(true) ==> CountsKept(old(a.nodes), a.nodes)
  {
    which := 0;
    r := Apply(a, x, L1);
    if r != Value(false) { return; }
    which := 1;
    r := Apply(a, x, P1);
    if r != Value(false) { return; }
    which := 2;
    r := Apply(a, x, P3);
    if r != Value(false) { return; }
    which := 3;
    r := Apply(a, x, P5);
    if r != Value(false) { return; }
    which := 4;
    r := Apply(a, x, Q1);
    if r != Value(false) { return; }
    which := 5;
    r := Apply(a, x, Q2);
    if r != Value(false) { return; }
    which := 6;
    r := Value(false);
  }

  /** The root cascade of PQTree.java:148-158: L1, P1, P2, P4, P6, Q1, Q2, Q3 in order.
      As for `TryNonRoot`, except that Q3 may return false after matching. */
  method TryRoot(a: Arena, x: Id) returns (r: Outcome<bool>, ghost which: nat)
    requires a.Valid() && x < |a.nodes|
    modifies a
    ensures a.Valid()
    ensures which <= |RootOrder|
    ensures forall k :: 0 <= k < which ==> Declines(old(a.nodes), x, RootOrder[k])
    ensures which < |RootOrder| ==> !Declines(old(a.nodes), x, RootOrder[which])
    ensures which < |RootOrder| - 1 ==> r != Value(false)
    ensures which == |RootOrder| ==> r == Value(false) && a.nodes == old(a.nodes)
    ensures r == Value(true) ==> CountsKept(old(a.nodes), a.nodes)
  {
    which := 0;
    r := Apply(a, x, L1);
    if r != Value(false) { return; }
    which := 1;
    r := Apply(a, x, P1);
    if r != Value(false) { return; }
    which := 2;
    r := Apply(a, x, P2);
    if r != Value(false) { return; }
    ghost var was := a.nodes;
    r, which := TryRootP(a, x);
    forall k | 0 <= k < which
      ensures Declines(was, x, RootOrder[k])
    {
      if k == 0 {
        assert RootOrder[k] == L1;
      } else if k == 1 {
        assert RootOrder[k] == P1;
      } else if k == 2 {
        assert RootOrder[k] == P2;
      }
    }
  }

  /** The P-node part of the root cascade after P2: P4 and P6, at positions 3 and 4. */
  method TryRootP(a: Arena, x: Id) returns (r: Outcome<bool>, ghost which: nat)
    requires a.Valid() && x < |a.nodes|
    modifies a
    ensures a.Valid()
    ensures 3 <= which <= |RootOrder|
    ensures forall k :: 3 <= k < which ==> Declines(old(a.nodes), x, RootOrder[k])
    ensures which < |RootOrder| ==> !Declines(old(a.nodes), x, RootOrder[which])
    ensures which < |RootOrder| - 1 ==> r != Value(false)
    ensures which == |RootOrder| ==> r == Value(false) && a.nodes == old(a.nodes)
    ensures r == Value(true) ==> CountsKept(old(a.nodes), a.nodes)
  {
    which := 3;
    r := Apply(a, x, P4);
    if r != Value(false) { return; }
    which := 4;
    r := Apply(a, x, P6);
    if r != Value(false) { return; }
    ghost var was := a.nodes;
    r, which := TryRootQ(a, x);
    forall k | 3 <= k < which
      ensures Declines(was, x, RootOrder[k])
    {
      if k == 3 {
        assert RootOrder[k] == P4;
      } else if k == 4 {
        assert RootOrder[k] == P6;
      }
    }
  }

  /** The Q-node part of the root cascade: Q1, Q2 and Q3, at positions 5 to 7. */
  method TryRootQ(a: Arena, x: Id) returns (r: Outcome<bool>, ghost which: nat)
    requires a.Valid() && x < |a.nodes|
    modifies a
    ensures a.Valid()
    ensures 5 <= which <= |RootOrder|
    ensures forall k :: 5 <= k < which ==> Declines(old(a.nodes), x, RootOrder[k])
    ensures which < |RootOrder| ==> !Declines(old(a.nodes), x, RootOrder[which])
    ensures which < |RootOrder| - 1 ==> r != Value(false)
    ensures which == |RootOrder| ==> r == Value(false) && a.nodes == old(a.nodes)
    ensures r == Value(true) ==> CountsKept(old(a.nodes), a.nodes)
  {
    which := 5;
    r := Apply(a, x, Q1);
    if r != Value(false) { return; }
    which := 6;
    r := Apply(a, x, Q2);
    if r != Value(false) { return; }
    which := 7;
    r := Apply(a, x, Q3);
    if r != Value(false) { return; }
    which := if Declines(old(a.nodes), x, Q3) then 8 else 7;
  }

  // ---------------------------------------------------------------------------------
  // The counters

  /** The nodes that still wait for a pertinent child. */
  ghost function PendingSet(nodes: seq<Node>): set<Id> {
    set i | 0 <= i < |nodes| && nodes[i].pertinentChildCount > 0
  }

  /** A replacement leaves the waiting nodes as they were. */
  lemma PendingKept(was: seq<Node>, now: seq<Node>)
    requires CountsKept(was, now)
    ensures PendingSet(now) == PendingSet(was)
  {
  }

  /** The first loop of `reduce` (PQTree.java:121-123): every member of S gets a
      pertinent leaf count of 1, and nothing else changes. */
  method InitLeafCounts(a: Arena, S: seq<Id>)
    requires a.Valid() && AllIn(S, |a.nodes|)
    modifies a
    ensures a.Valid() && |a.nodes| == |old(a.nodes)|
    ensures forall i :: 0 <= i < |a.nodes| ==>
      a.nodes[i] == if i in S then old(a.nodes)[i].(pertinentLeafCount := 1) else old(a.nodes)[i]
  {
    for k := 0 to |S|
      invariant a.Valid() && |a.nodes| == |old(a.nodes)|
      invariant forall i :: 0 <= i < |a.nodes| ==>
        a.nodes[i] == if i in S[..k] then old(a.nodes)[i].(pertinentLeafCount := 1) else old(a.nodes)[i]
    {
      assert S[k] in S;
      a.SetPertinentLeafCount(S[k], 1);
      assert S[..k + 1] == S[..k] + [S[k]];
    }
    assert S[..|S|] == S;
  }

  /** PQTree.java:127-133: the parent `y` of `x` (a fault on null) gains the pertinent
      leaves of `x` and loses one pending pertinent child; `enqueue` says whether that was
      the last. */
  method PassUp(a: Arena, x: Id) returns (r: Outcome<Id>, enqueue: bool)
    requires a.Valid() && x < |a.nodes|
    modifies a
    ensures a.Valid()
    ensures r == Fault <==> old(a.nodes)[x].parent == Null
    ensures r == Fault ==> a.nodes == old(a.nodes)
    ensures r.Value? ==>
      var was := old(a.nodes);
      var y := r.value;
      && was[x].parent == Ref(y) && y < |was|
      && a.nodes == was[y := was[y].(pertinentLeafCount := was[y].pertinentLeafCount + was[x].pertinentLeafCount,
                                     pertinentChildCount := was[y].pertinentChildCount - 1)]
      && (enqueue <==> was[y].pertinentChildCount == 1)
  {
    enqueue := false;
    var p := a.nodes[x].parent;
    if p.Null? {
      return Fault, enqueue;
    }
    assert NodeIn(a.nodes[x], |a.nodes|);
    var y := p.id;
    a.SetPertinentLeafCount(y, a.nodes[y].pertinentLeafCount + a.nodes[x].pertinentLeafCount);
    a.SetPertinentChildCount(y, a.nodes[y].pertinentChildCount - 1);
    enqueue := a.nodes[y].pertinentChildCount == 0;
    r := Value(y);
  }

  /** Passing up removes the parent from the waiting nodes exactly when it is enqueued,
      and changes no other node's wait. */
  lemma PendingAfterPassUp(was: seq<Node>, y: Id, now: seq<Node>)
    requires y < |was| && |now| == |was|
    requires forall i :: 0 <= i < |was| && i != y ==> now[i].pertinentChildCount == was[i].pertinentChildCount
    requires now[y].pertinentChildCount == was[y].pertinentChildCount - 1
    ensures was[y].pertinentChildCount == 1 ==> PendingSet(now) == PendingSet(was) - {y} && y in PendingSet(was)
    ensures was[y].pertinentChildCount != 1 ==> PendingSet(now) == PendingSet(was)
  {
  }

  // ---------------------------------------------------------------------------------
  // The reduction

  /** Why `reduce` gave the null tree: the node `x` it was at, and the tree the templates
      saw, on which every template of the non-root order declines, or, for the root,
      every template before Q3 declines. */
  ghost predicate StuckAt(nodes: seq<Node>, x: Id, asRoot: bool)
    requires ValidNodes(nodes) && x < |nodes|
  {
    if asRoot then forall k :: 0 <= k < |RootOrder| - 1 ==> Declines(nodes, x, RootOrder[k])
    else forall k :: 0 <= k < |NonRootOrder| ==> Declines(nodes, x, NonRootOrder[k])
  }

  /** `reduce(T, S)`: true for the tree `T`, false for the null tree. The loop always
      ends: each round takes a node off the queue, and one goes back on only when a node
      stops waiting for a pertinent child; a replacement adds no waiting node. */
  method Reduce(a: Arena, S: seq<Id>) returns (r: Outcome<bool>, ghost stuck: seq<Node>, ghost at: Id, ghost asRoot: bool)
    requires a.Valid() && AllIn(S, |a.nodes|)
    modifies a
    ensures a.Valid()
    ensures r == Value(false) ==> ValidNodes(stuck) && at < |stuck| && StuckAt(stuck, at, asRoot)
  {
    stuck, at, asRoot := [], 0, false;
    InitLeafCounts(a, S);
    var queue := S;
    while |queue| > 0
      invariant a.Valid() && AllIn(queue, |a.nodes|)
      decreases |queue| + |PendingSet(a.nodes)|
    {
      var x := queue[0];
      assert x in queue;
      ghost var old_queue := queue;
      queue := queue[1..];
      assert forall c :: c in queue ==> c in old_queue;
      ghost var was := a.nodes;
      if a.nodes[x].pertinentLeafCount < |S| {
        var y, enqueue := PassUp(a, x);
        if y.Fault? {
          return Fault, stuck, at, asRoot;
        }
        PendingAfterPassUp(was, y.value, a.nodes);
        if enqueue {
          queue := queue + [y.value];
          assert forall c :: c in queue ==> c in old_queue[1..] || c == y.value;
        }
        ghost var passed := a.nodes;
        var res;
        ghost var which;
        res, which := TryNonRoot(a, x);
        if res != Value(true) {
          if res == Value(false) {
            stuck, at, asRoot := passed, x, false;
          }
          return res, stuck, at, asRoot;
        }
        PendingKept(passed, a.nodes);
      } else {
        var res;
        ghost var which;
        res, which := TryRoot(a, x);
        if res != Value(true) {
          if res == Value(false) {
            stuck, at, asRoot := was, x, true;
          }
          return res, stuck, at, asRoot;
        }
        PendingKept(was, a.nodes);
      }
    }
    return Value(true), stuck, at, asRoot;
  }
}

/** `bubble(_root, S)` of pqtree/PQTree.java: the queue-driven pass that, from the
    members of S upwards, marks nodes blocked or unblocked and counts, for each parent,
    the pertinent children that reach it. It changes only parents, blocked flags and
    pertinent child counts. */
module Bubbling {
  import opened Outcomes
  import opened PQNodes
  import SiblingRuns

  // ---------------------------------------------------------------------------------
  // What the pass keeps

  /** A ranking of the nodes under which every parent ranks below its child and the two
      sibling neighbours of a node rank with it. A tree whose siblings share their parent
      has one (the depth); it is what makes the pass end. */
  ghost predicate Ranked(nodes: seq<Node>, rank: seq<nat>)
    requires ValidNodes(nodes)
  {
    && |rank| == |nodes|
    && forall i :: 0 <= i < |nodes| ==>
         && (nodes[i].parent.Ref? ==> assert NodeIn(nodes[i], |nodes|); rank[nodes[i].parent.id] < rank[i])
         && (nodes[i].next.Ref? ==> assert NodeIn(nodes[i], |nodes|); rank[nodes[i].next.id] == rank[i])
         && (nodes[i].prev.Ref? ==> assert NodeIn(nodes[i], |nodes|); rank[nodes[i].prev.id] == rank[i])
  }

  /** From `was` to `now` only parents, blocked flags and pertinent child counts changed,
      and no pertinent child count went down. */
  ghost predicate BubbleFrame(was: seq<Node>, now: seq<Node>) {
    && |now| == |was|
    && forall i :: 0 <= i < |was| ==>
         && now[i] == was[i].(parent := now[i].parent, blocked := now[i].blocked,
                              pertinentChildCount := now[i].pertinentChildCount)
         && now[i].pertinentChildCount >= was[i].pertinentChildCount
  }

  lemma BubbleFrameTrans(s1: seq<Node>, s2: seq<Node>, s3: seq<Node>)
    requires BubbleFrame(s1, s2) && BubbleFrame(s2, s3)
    ensures BubbleFrame(s1, s3)
  {
    forall i | 0 <= i < |s1|
      ensures s3[i] == s1[i].(parent := s3[i].parent, blocked := s3[i].blocked,
                              pertinentChildCount := s3[i].pertinentChildCount)
    {
    }
  }

  /** Giving `x` the parent of its sibling neighbour `u`, and changing blocked flags and
      counts, keeps the ranking. */
  lemma RankedReparent(was: seq<Node>, now: seq<Node>, rank: seq<nat>, x: Id, u: Id)
    requires ValidNodes(was) && ValidNodes(now) && Ranked(was, rank) && x < |was|
    requires Ref(u) == was[x].prev || Ref(u) == was[x].next
    requires BubbleFrame(was, now)
    requires forall i :: 0 <= i < |was| && i != x ==> now[i].parent == was[i].parent
    requires now[x].parent == was[u].parent || now[x].parent == was[x].parent
    ensures Ranked(now, rank)
  {
    assert NodeIn(was[x], |was|);
    forall i | 0 <= i < |now|
      ensures now[i].parent.Ref? ==> rank[now[i].parent.id] < rank[i]
    {
      assert NodeIn(was[i], |was|);
    }
  }

  // ---------------------------------------------------------------------------------
  // Termination

  function Pow2(k: nat): (r: nat)
    ensures r >= 1
  {
    if k == 0 then 1 else 2 * Pow2(k - 1)
  }

  lemma {:induction false} Pow2Less(i: nat, j: nat)
    requires i < j
    ensures Pow2(i) < Pow2(j)
    decreases j
  {
    if i < j - 1 {
      Pow2Less(i, j - 1);
    }
  }

  /** The weight of the queue: each node in it counts two to the power of its rank, so
      that a node replaced by its parent makes the weight go down. */
  function Weight(q: seq<Id>, rank: seq<nat>): (w: nat)
    requires AllIn(q, |rank|)
  {
    if q == [] then 0
    else
      assert q[0] in q && forall c :: c in q[1..] ==> c in q;
      Pow2(rank[q[0]]) + Weight(q[1..], rank)
  }

  lemma {:induction false} WeightAppend(q: seq<Id>, y: Id, rank: seq<nat>)
    requires AllIn(q, |rank|) && y < |rank|
    ensures AllIn(q + [y], |rank|) && Weight(q + [y], rank) == Weight(q, rank) + Pow2(rank[y])
  {
    if q != [] {
      assert (q + [y])[1..] == q[1..] + [y];
      assert forall c :: c in q[1..] ==> c in q;
      WeightAppend(q[1..], y, rank);
    }
  }

  // ---------------------------------------------------------------------------------
  // Blocked and unblocked siblings

  /** The members of `cs` whose blocked flag is `b`, in order (ids beyond the arena are
      in neither list). */
  function OfBlocked(nodes: seq<Node>, cs: seq<Id>, b: bool): (r: seq<Id>)
    ensures |r| <= |cs| && AllIn(r, |nodes|)
    ensures forall u :: u in r <==> u in cs && u < |nodes| && nodes[u].blocked == b
  {
    if cs == [] then []
    else
      var u := cs[|cs| - 1];
      var r0 := OfBlocked(nodes, cs[..|cs| - 1], b);
      assert forall c :: c in cs <==> c in cs[..|cs| - 1] || c == u;
      r0 + (if u < |nodes| && nodes[u].blocked == b then [u] else [])
  }

  /** The blocked and the unblocked members of a list split it between them. */
  lemma {:induction false} OfBlockedSplits(nodes: seq<Node>, cs: seq<Id>)
    requires AllIn(cs, |nodes|)
    ensures |OfBlocked(nodes, cs, true)| + |OfBlocked(nodes, cs, false)| == |cs|
  {
    if cs != [] {
      PrefixAllIn(cs, |nodes|, |cs| - 1);
      assert cs[|cs| - 1] in cs;
      OfBlockedSplits(nodes, cs[..|cs| - 1]);
    }
  }

  /** Extending the prefix by one member extends one of the two lists by it. */
  lemma OfBlockedStep(nodes: seq<Node>, cs: seq<Id>, k: nat)
    requires k < |cs| && cs[k] < |nodes|
    ensures OfBlocked(nodes, cs[..k + 1], nodes[cs[k]].blocked) == OfBlocked(nodes, cs[..k], nodes[cs[k]].blocked) + [cs[k]]
    ensures OfBlocked(nodes, cs[..k + 1], !nodes[cs[k]].blocked) == OfBlocked(nodes, cs[..k], !nodes[cs[k]].blocked)
  {
    assert cs[..k + 1][..k] == cs[..k];
  }

  lemma SiblingsIn(nodes: seq<Node>, x: Id)
    requires ValidNodes(nodes) && x < |nodes|
    ensures AllIn(ImmediateSiblings(nodes, x), |nodes|)
  {
    assert NodeIn(nodes[x], |nodes|);
  }

  /** The loop of PQTree.java:52-62 over the immediate siblings of `x`: the blocked ones
      go to `bs` and the others to `us`, each in the order of the siblings. */
  method Classify(a: Arena, x: Id) returns (bs: seq<Id>, us: seq<Id>)
    requires a.Valid() && x < |a.nodes|
    ensures bs == OfBlocked(a.nodes, ImmediateSiblings(a.nodes, x), true)
    ensures us == OfBlocked(a.nodes, ImmediateSiblings(a.nodes, x), false)
  {
    var sibs := ImmediateSiblings(a.nodes, x);
    SiblingsIn(a.nodes, x);
    bs, us := [], [];
    for k := 0 to |sibs|
      invariant bs == OfBlocked(a.nodes, sibs[..k], true) && us == OfBlocked(a.nodes, sibs[..k], false)
    {
      assert sibs[k] in sibs;
      OfBlockedStep(a.nodes, sibs, k);
      if a.nodes[sibs[k]].blocked {
        bs := bs + [sibs[k]];
      } else {
        us := us + [sibs[k]];
      }
    }
    assert sibs[..|sibs|] == sibs;
  }

  // ---------------------------------------------------------------------------------
  // One round of the pass

  /** The tree after PQTree.java:45-69: `x` is blocked, then unblocked again, taking
      the parent of its first unblocked sibling, when it has one, or when it has fewer
      than two siblings. */
  function Settled(was: seq<Node>, x: Id): (now: seq<Node>)
    requires ValidNodes(was) && x < |was|
  {
    var w := was[x := was[x].(blocked := true)];
    var sibs := ImmediateSiblings(was, x);
    var us := OfBlocked(w, sibs, false);
    if |us| > 0 then
      assert us[0] in us;
      var moved := w[x := w[x].(parent := w[us[0]].parent)];
      moved[x := moved[x].(blocked := false)]
    else if |sibs| < 2 then w[x := w[x].(blocked := false)]
    else w
  }

  /** What settling does: `x` stays blocked exactly when none of its siblings is
      unblocked and it has two; nothing but its parent and flag changes; and the ranking
      and the validity of the tree are kept. */
  lemma SettledMeans(was: seq<Node>, rank: seq<nat>, x: Id)
    requires ValidNodes(was) && Ranked(was, rank) && x < |was|
    ensures var now := Settled(was, x);
      var w := was[x := was[x].(blocked := true)];
      var sibs := ImmediateSiblings(was, x);
      && ValidNodes(now) && BubbleFrame(was, now) && Ranked(now, rank)
      && (now[x].blocked <==> |OfBlocked(w, sibs, false)| == 0 && |sibs| == 2)
      && (forall i :: 0 <= i < |was| && i != x ==> now[i] == was[i])
      && (now[x].parent == was[x].parent || exists u :: u in sibs && now[x].parent == was[u].parent)
  {
    var now := Settled(was, x);
    var w := was[x := was[x].(blocked := true)];
    var sibs := ImmediateSiblings(was, x);
    var us := OfBlocked(w, sibs, false);
    assert NodeIn(was[x], |was|);
    if |us| > 0 {
      assert us[0] in us && us[0] in sibs;
      ReparentedKeeps(was, now, rank, x, us[0]);
    } else {
      FlaggedKeeps(was, now, rank, x, now[x].blocked);
    }
  }

  /** `x` blocked and unblocked again, with the parent of its sibling `u`. */
  lemma ReparentedKeeps(was: seq<Node>, now: seq<Node>, rank: seq<nat>, x: Id, u: Id)
    requires ValidNodes(was) && Ranked(was, rank) && x < |was| && u < |was|
    requires Ref(u) == was[x].prev || Ref(u) == was[x].next
    requires now == was[x := was[x].(parent := was[u].parent, blocked := false)]
    ensures ValidNodes(now) && BubbleFrame(was, now) && Ranked(now, rank)
  {
    assert NodeIn(was[u], |was|);
    assert ValidNodes(now) by {
      forall i | 0 <= i < |now|
        ensures NodeIn(now[i], |now|)
      {
        assert NodeIn(was[i], |was|);
      }
    }
    RankedReparent(was, now, rank, x, u);
  }

  /** Only the blocked flag of `x` changed. */
  lemma FlaggedKeeps(was: seq<Node>, now: seq<Node>, rank: seq<nat>, x: Id, b: bool)
    requires ValidNodes(was) && Ranked(was, rank) && x < |was|
    requires now == was[x := was[x].(blocked := b)]
    ensures ValidNodes(now) && BubbleFrame(was, now) && Ranked(now, rank)
  {
    assert ValidNodes(now) by {
      forall i | 0 <= i < |now|
        ensures NodeIn(now[i], |now|)
      {
        assert NodeIn(was[i], |was|);
      }
    }
    ParentsKept(was, now, rank);
  }

  /** PQTree.java:45-69 on the arena; `bs` are the blocked siblings of `x` once `x` itself
      is blocked. */
  method Settle(a: Arena, x: Id) returns (bs: seq<Id>)
    requires a.Valid() && x < |a.nodes|
    modifies a
    ensures a.nodes == Settled(old(a.nodes), x)
    ensures bs == OfBlocked(old(a.nodes)[x := old(a.nodes)[x].(blocked := true)], ImmediateSiblings(old(a.nodes), x), true)
  {
    a.SetBlocked(x, true);
    ghost var w := a.nodes;
    assert ImmediateSiblings(w, x) == ImmediateSiblings(old(a.nodes), x);
    var us;
    bs, us := Classify(a, x);
    if |us| > 0 {
      assert us[0] in us;
      assert NodeIn(a.nodes[us[0]], |a.nodes|);
      var p := a.nodes[us[0]].parent;
      a.SetParent(x, p);
      a.SetBlocked(x, false);
    } else if |ImmediateSiblings(a.nodes, x)| < 2 {
      a.SetBlocked(x, false);
    }
  }

  /** The nodes of `list` unblocked and `y` given `k` more pertinent children; nothing
      else changed. */
  ghost predicate Counted(was: seq<Node>, now: seq<Node>, list: set<Id>, y: Link, k: nat) {
    now == Recounted(was, list, y, k)
  }

  /** Node `i`, `v`, once the members of `list` are unblocked and `y` has `k` more
      pertinent children. */
  function Recount(v: Node, i: Id, list: set<Id>, y: Link, k: nat): Node {
    v.(blocked := if i in list then false else v.blocked,
       pertinentChildCount := v.pertinentChildCount + if y == Ref(i) then k else 0)
  }

  ghost function Recounted(was: seq<Node>, list: set<Id>, y: Link, k: nat): (now: seq<Node>)
    ensures |now| == |was|
    decreases |was|
  {
    if was == [] then []
    else Recounted(was[..|was| - 1], list, y, k) + [Recount(was[|was| - 1], |was| - 1, list, y, k)]
  }

  lemma {:induction false} RecountedAt(was: seq<Node>, list: set<Id>, y: Link, k: nat, i: nat)
    requires i < |was|
    ensures Recounted(was, list, y, k)[i] == Recount(was[i], i, list, y, k)
    decreases |was|
  {
    var n := |was| - 1;
    if i < n {
      RecountedAt(was[..n], list, y, k, i);
    }
  }

  /** `Counted`, node by node. */
  lemma CountedAt(was: seq<Node>, now: seq<Node>, list: set<Id>, y: Link, k: nat)
    requires Counted(was, now, list, y, k)
    ensures |now| == |was| && forall i :: 0 <= i < |was| ==> now[i] == Recount(was[i], i, list, y, k)
  {
    forall i | 0 <= i < |was|
      ensures now[i] == Recount(was[i], i, list, y, k)
    {
      RecountedAt(was, list, y, k, i);
    }
  }

  lemma CountedFromAt(was: seq<Node>, now: seq<Node>, list: set<Id>, y: Link, k: nat)
    requires |now| == |was| && forall i :: 0 <= i < |was| ==> now[i] == Recount(was[i], i, list, y, k)
    ensures Counted(was, now, list, y, k)
  {
    var e := Recounted(was, list, y, k);
    forall i | 0 <= i < |was|
      ensures e[i] == now[i]
    {
      RecountedAt(was, list, y, k, i);
    }
  }

  lemma CountedFrame(was: seq<Node>, now: seq<Node>, list: set<Id>, y: Link, k: nat)
    requires Counted(was, now, list, y, k)
    ensures BubbleFrame(was, now)
    ensures forall i :: 0 <= i < |now| ==> now[i].parent == was[i].parent
  {
    CountedAt(was, now, list, y, k);
  }

  /** One round of the loop over the run: `z` unblocked, then one more child for `y`;
      the members of `list` not in `rest` were counted before. */
  lemma CountedStep(was: seq<Node>, s: seq<Node>, t: seq<Node>, list: set<Id>, rest: set<Id>, z: Id, y: Link)
    requires Counted(was, s, list - rest, y, |list - rest|) && z in rest && rest <= list
    requires z < |s| && y.Ref? && y.id < |s|
    requires var m := s[z := s[z].(blocked := false)];
      t == m[y.id := m[y.id].(pertinentChildCount := m[y.id].pertinentChildCount + 1)]
    ensures Counted(was, t, list - (rest - {z}), y, |list - (rest - {z})|)
  {
    var done := list - rest;
    assert done + {z} == list - (rest - {z});
    assert |done + {z}| == |done| + 1;
    CountedBump(was, s, t, done, z, y);
  }

  lemma CountedBump(was: seq<Node>, s: seq<Node>, t: seq<Node>, done: set<Id>, z: Id, y: Link)
    requires Counted(was, s, done, y, |done|) && z !in done && z < |s| && y.Ref? && y.id < |s|
    requires var m := s[z := s[z].(blocked := false)];
      t == m[y.id := m[y.id].(pertinentChildCount := m[y.id].pertinentChildCount + 1)]
    ensures Counted(was, t, done + {z}, y, |done| + 1)
  {
    CountedAt(was, s, done, y, |done|);
    CountedFromAt(was, t, done + {z}, y, |done| + 1);
  }

  /** With a null `y` the first round only unblocks its member. */
  lemma CountedNull(was: seq<Node>, s: seq<Node>, t: seq<Node>, z: Id)
    requires Counted(was, s, {}, Null, 0) && z < |s| && t == s[z := s[z].(blocked := false)]
    ensures Counted(was, t, {z}, Null, 1)
  {
    CountedAt(was, s, {}, Null, 0);
    CountedFromAt(was, t, {z}, Null, 1);
  }

  /** The loop of PQTree.java:78-84 over the run `list`: each member is unblocked and adds
      one to the pertinent child count of `y`. A fault when `y` is null and the run is not
      empty, after its first member `first` has been unblocked. */
  method UnblockRun(a: Arena, list: set<Id>, y: Link) returns (r: Outcome<()>, ghost first: Id)
    requires a.Valid() && LinkIn(y, |a.nodes|) && forall z :: z in list ==> z < |a.nodes|
    modifies a
    ensures a.Valid()
    ensures r == Fault <==> y.Null? && list != {}
    ensures r == Fault ==> first in list && Counted(old(a.nodes), a.nodes, {first}, y, 1)
    ensures r.Value? ==> Counted(old(a.nodes), a.nodes, list, y, |list|)
  {
    first := 0;
    var rest := list;
    assert list - rest == {};
    CountedNone(a.nodes, y);
    while rest != {}
      invariant a.Valid() && rest <= list
      invariant Counted(old(a.nodes), a.nodes, list - rest, y, |list - rest|)
      invariant y.Null? ==> rest == list
      decreases rest
    {
      var z :| z in rest;
      var step := UnblockOne(a, z, y, old(a.nodes), list, rest);
      if step.Fault? {
        return Fault, z;
      }
      rest := rest - {z};
    }
    assert list - rest == list;
    r := Value(());
  }

  /** One round of the loop over the run: `z.blocked = false`, then one more pertinent
      child for `y`, a fault when `y` is null. The members of `list` not in `rest` were
      unblocked before. */
  method UnblockOne(a: Arena, z: Id, y: Link, ghost was: seq<Node>, ghost list: set<Id>, ghost rest: set<Id>)
    returns (r: Outcome<()>)
    requires a.Valid() && z < |a.nodes| && LinkIn(y, |a.nodes|) && z in rest && rest <= list
    requires Counted(was, a.nodes, list - rest, y, |list - rest|)
    requires y.Null? ==> rest == list
    modifies a
    ensures a.Valid()
    ensures r == Fault <==> y.Null?
    ensures r.Fault? ==> Counted(was, a.nodes, {z}, y, 1)
    ensures r.Value? ==> Counted(was, a.nodes, list - (rest - {z}), y, |list - (rest - {z})|)
  {
    ghost var s := a.nodes;
    a.SetBlocked(z, false);
    if y.Null? {
      assert list - rest == {};
      CountedNull(was, s, a.nodes, z);
      return Fault;
    }
    a.SetPertinentChildCount(y.id, a.nodes[y.id].pertinentChildCount + 1);
    CountedStep(was, s, a.nodes, list, rest, z, y);
    r := Value(());
  }

  /** The run the pass unblocks for `x` with blocked siblings `bs`: none without a
      blocked sibling, the maximal run of blocked siblings through `x` otherwise, empty
      when there is none. The Java calls the method as written; this uses the corrected
      `SiblingRuns.MaximalConsecutive`, which gives the same result here because the pass
      asks only for an unblocked `x` (`SiblingRuns.MaximalConsecutiveAsWritten` states that
      the two agree for a node in the other state). */
  function RunToUnblock(nodes: seq<Node>, x: Id, bs: seq<Id>): (r: Outcome<set<Id>>)
    requires ValidNodes(nodes) && x < |nodes|
    ensures r.Value? ==> forall z :: z in r.value ==> z < |nodes| && nodes[z].blocked
    ensures |bs| == 0 ==> r == Value({})
  {
    if |bs| == 0 then Value({})
    else
      match SiblingRuns.MaximalConsecutive(nodes, x, true)
      case Fault => Fault
      case Value(None) => Value({})
      case Value(Some(list)) => Value(list)
  }

  /** PQTree.java:71-96 for an unblocked `x`, with its blocked siblings `bs`: the run
      `RunToUnblock` gives is unblocked and counted at the parent `y` of `x`; then `y`
      gets one more pertinent child and joins the queue unless already in it, or, when
      there is no parent, the pass goes off the top. A fault when the run cannot be
      found, or is not empty and `y` is null. */
  method Release(a: Arena, x: Id, bs: seq<Id>, queue: seq<Id>)
    returns (r: Outcome<()>, queue': seq<Id>, listSize: nat, offTop: bool, ghost touched: set<Id>, ghost bump: nat)
    requires a.Valid() && x < |a.nodes| && AllIn(queue, |a.nodes|)
    modifies a
    ensures a.Valid() && AllIn(queue', |a.nodes|)
    ensures Counted(old(a.nodes), a.nodes, touched, old(a.nodes)[x].parent, bump)
    ensures var run := RunToUnblock(old(a.nodes), x, bs); var y := old(a.nodes)[x].parent;
      r == Fault <==> run.Fault? || (y.Null? && run.value != {})
    ensures r.Value? ==> var y := old(a.nodes)[x].parent; var list := RunToUnblock(old(a.nodes), x, bs).value;
      && offTop == y.Null? && listSize == |list| && touched == list && bump == |list| + 1
      && (y.Null? ==> queue' == queue)
      && (y.Ref? ==> queue' == if y.id in queue then queue else queue + [y.id])
  {
    queue', listSize, offTop, touched, bump := queue, 0, false, {}, 0;
    var y := a.nodes[x].parent;
    assert NodeIn(a.nodes[x], |a.nodes|);
    var run := RunToUnblock(a.nodes, x, bs);
    if run.Fault? {
      CountedNone(a.nodes, y);
      return Fault, queue', listSize, offTop, touched, bump;
    }
    var list := run.value;
    listSize := |list|;
    ghost var first;
    r, first := UnblockRun(a, list, y);
    if r.Fault? {
      touched, bump := {first}, 1;
      return;
    }
    queue', offTop := CountParent(a, y, queue, old(a.nodes), list);
    touched, bump := list, |list| + 1;
  }

  /** PQTree.java:86-95: `y` gets one more pertinent child and joins the queue unless
      already in it; a null `y` means the pass went off the top. */
  method CountParent(a: Arena, y: Link, queue: seq<Id>, ghost was: seq<Node>, ghost list: set<Id>)
    returns (queue': seq<Id>, offTop: bool)
    requires a.Valid() && LinkIn(y, |a.nodes|) && AllIn(queue, |a.nodes|)
    requires Counted(was, a.nodes, list, y, |list|)
    modifies a
    ensures a.Valid() && AllIn(queue', |a.nodes|)
    ensures Counted(was, a.nodes, list, y, |list| + 1)
    ensures offTop == y.Null?
    ensures y.Null? ==> queue' == queue
    ensures y.Ref? ==> queue' == if y.id in queue then queue else queue + [y.id]
  {
    ghost var mid := a.nodes;
    queue', offTop := queue, false;
    if y.Null? {
      offTop := true;
    } else {
      a.SetPertinentChildCount(y.id, a.nodes[y.id].pertinentChildCount + 1);
      if y.id !in queue {
        queue' := queue + [y.id];
      }
    }
    CountedMore(was, mid, a.nodes, list, y);
  }

  /** Nothing unblocked and nothing counted. */
  lemma CountedNone(nodes: seq<Node>, y: Link)
    ensures Counted(nodes, nodes, {}, y, 0)
  {
    CountedFromAt(nodes, nodes, {}, y, 0);
  }

  /** The last pertinent child `Release` counts at `y`. */
  lemma CountedMore(was: seq<Node>, mid: seq<Node>, now: seq<Node>, list: set<Id>, y: Link)
    requires Counted(was, mid, list, y, |list|) && LinkIn(y, |mid|)
    requires y.Null? ==> now == mid
    requires y.Ref? ==> now == mid[y.id := mid[y.id].(pertinentChildCount := mid[y.id].pertinentChildCount + 1)]
    ensures Counted(was, now, list, y, |list| + 1)
  {
    CountedAt(was, mid, list, y, |list|);
    CountedFromAt(was, now, list, y, |list| + 1);
  }

  // ---------------------------------------------------------------------------------
  // The pass

  /** `bubble(_root, S)`: true for `_root`, false for the null tree. It gives the null
      tree exactly when the queue runs empty while the queue length, the blocked count and
      the off-the-top flag still add up to more than one, and otherwise stops once they
      add up to at most one; the off-the-top flag is 0 or 1, and a queue started without
      duplicates never holds one. The final queue, blocked count and flag are returned
      as ghosts. A fault comes from one round (`Visit`, through `Release`): the run of
      blocked siblings cannot be found because a sibling walk faults, or the run is not
      empty and the unblocked node has no parent. */
  method Bubble(a: Arena, S: seq<Id>, ghost rank: seq<nat>)
    returns (r: Outcome<bool>, ghost queue: seq<Id>, ghost blockCount: int, ghost offTheTop: int)
    requires a.Valid() && AllIn(S, |a.nodes|) && Ranked(a.nodes, rank)
    modifies a
    ensures a.Valid() && BubbleFrame(old(a.nodes), a.nodes) && Ranked(a.nodes, rank)
    ensures offTheTop == 0 || offTheTop == 1
    ensures r == Value(false) ==> |queue| == 0 && blockCount + offTheTop > 1
    ensures r == Value(true) ==> |queue| + blockCount + offTheTop <= 1
    ensures Distinct(S) ==> Distinct(queue)
  {
    var q := S;
    var blocks: int, blockedNodes: int, off: int := 0, 0, 0;
    while |q| + blocks + off > 1
      invariant a.Valid() && BubbleFrame(old(a.nodes), a.nodes) && Ranked(a.nodes, rank)
      invariant AllIn(q, |a.nodes|) && (off == 0 || off == 1)
      invariant Distinct(S) ==> Distinct(q)
      decreases Weight(q, rank)
    {
      if |q| == 0 {
        return Value(false), q, blocks, off;
      }
      var x := q[0];
      var rest := q[1..];
      HeadIn(q, |a.nodes|);
      ghost var before := a.nodes;
      var res, q', blocked, bsSize, listSize, offTop;
      ghost var touched, bump;
      res, q', blocked, bsSize, listSize, offTop, touched, bump := Visit(a, x, rest, rank);
      BubbleFrameTrans(old(a.nodes), before, a.nodes);
      if res.Fault? {
        return Fault, rest, blocks, off;
      }
      q := q';
      if !blocked {
        if offTop {
          off := 1;
        }
        blocks := blocks - bsSize;
        blockedNodes := blockedNodes - listSize;
      } else {
        blocks := blocks + 1 - bsSize;
        blockedNodes := blockedNodes + 1;
      }
    }
    return Value(true), q, blocks, off;
  }

  /** One round of the pass for the head `x` of the queue, `rest` the remainder: `x` is
      settled; when it ends unblocked, the run of blocked siblings through it is released
      and counted at its new parent, which joins the queue. The queue that results weighs
      less than the one the round started from, and holds no duplicate when that had
      none. */
  method Visit(a: Arena, x: Id, rest: seq<Id>, ghost rank: seq<nat>)
    returns (r: Outcome<()>, q': seq<Id>, blocked: bool, bsSize: nat, listSize: nat, offTop: bool,
             ghost touched: set<Id>, ghost bump: nat)
    requires a.Valid() && x < |a.nodes| && AllIn(rest, |a.nodes|) && Ranked(a.nodes, rank)
    modifies a
    ensures a.Valid() && BubbleFrame(old(a.nodes), a.nodes) && Ranked(a.nodes, rank)
    ensures var settled := Settled(old(a.nodes), x);
      && blocked == settled[x].blocked
      && Counted(settled, a.nodes, touched, settled[x].parent, bump)
      && (blocked ==> r == Value(()) && q' == rest && touched == {} && bump == 0)
      && (!blocked && r.Value? ==> var y := settled[x].parent;
            && offTop == y.Null?
            && (y.Null? ==> q' == rest)
            && (y.Ref? ==> q' == if y.id in rest then rest else rest + [y.id]))
    ensures bsSize == |OfBlocked(old(a.nodes)[x := old(a.nodes)[x].(blocked := true)], ImmediateSiblings(old(a.nodes), x), true)|
    ensures r.Value? ==> AllIn(q', |a.nodes|) && Weight(q', rank) < Weight([x] + rest, rank)
    ensures r.Value? && Distinct([x] + rest) ==> Distinct(q')
  {
    ghost var before := a.nodes;
    var bs := Settle(a, x);
    bsSize := |bs|;
    ghost var settled := a.nodes;
    SettledMeans(before, rank, x);
    if a.nodes[x].blocked {
      blocked, q', listSize, offTop, touched, bump := true, rest, 0, false, {}, 0;
      CountedNone(a.nodes, settled[x].parent);
      assert Weight([x] + rest, rank) == Pow2(rank[x]) + Weight(rest, rank) by {
        assert ([x] + rest)[1..] == rest;
      }
      if Distinct([x] + rest) {
        DistinctTail(x, rest);
      }
      return Value(()), q', blocked, bsSize, listSize, offTop, touched, bump;
    }
    blocked := false;
    r, q', listSize, offTop, touched, bump := Release(a, x, bs, rest);
    CountedFrame(settled, a.nodes, touched, settled[x].parent, bump);
    BubbleFrameTrans(before, settled, a.nodes);
    ParentsKept(settled, a.nodes, rank);
    if r.Value? {
      assert NodeIn(settled[x], |settled|);
      QueueShrinks(settled, rank, x, rest, q');
      if Distinct([x] + rest) {
        DistinctTail(x, rest);
      }
    }
  }

  lemma HeadIn(q: seq<Id>, n: nat)
    requires AllIn(q, n) && |q| > 0
    ensures q == [q[0]] + q[1..] && q[0] < n && AllIn(q[1..], n)
  {
    assert q[0] in q && forall c :: c in q[1..] ==> c in q;
  }

  lemma DistinctTail(x: Id, rest: seq<Id>)
    requires Distinct([x] + rest)
    ensures Distinct(rest)
    ensures forall y :: y !in rest ==> Distinct(rest + [y])
  {
    assert ([x] + rest)[1..] == rest;
  }

  /** A change that keeps every parent and stays in the frame keeps the ranking. */
  lemma ParentsKept(was: seq<Node>, now: seq<Node>, rank: seq<nat>)
    requires ValidNodes(was) && ValidNodes(now) && Ranked(was, rank) && BubbleFrame(was, now)
    requires forall i :: 0 <= i < |now| ==> now[i].parent == was[i].parent
    ensures Ranked(now, rank)
  {
    forall i | 0 <= i < |now|
      ensures now[i].next == was[i].next && now[i].prev == was[i].prev
    {
      assert now[i] == was[i].(parent := now[i].parent, blocked := now[i].blocked,
                               pertinentChildCount := now[i].pertinentChildCount);
    }
  }

  /** Replacing `x` at the head of the queue by its parent lowers the weight. */
  lemma QueueShrinks(nodes: seq<Node>, rank: seq<nat>, x: Id, rest: seq<Id>, q: seq<Id>)
    requires ValidNodes(nodes) && Ranked(nodes, rank) && x < |nodes| && AllIn(rest, |nodes|)
    requires var y := nodes[x].parent;
      (y.Null? ==> q == rest) && (y.Ref? ==> q == if y.id in rest then rest else rest + [y.id])
    ensures AllIn(q, |nodes|) && Weight(q, rank) < Weight([x] + rest, rank)
  {
    assert ([x] + rest)[1..] == rest;
    var y := nodes[x].parent;
    assert NodeIn(nodes[x], |nodes|);
    if y.Ref? && y.id !in rest {
      WeightAppend(rest, y.id, rank);
      Pow2Less(rank[y.id], rank[x]);
    }
  }
}

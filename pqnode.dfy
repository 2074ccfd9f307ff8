/** The node of a PQ-tree and the primitive operations on one node
    (planaritypq/PQNode.java).

    Java object references become indices into an arena: the nodes live in the sequence
    `Arena.nodes`, and a `Link` is a nullable reference, `Ref(i)` designating the node
    stored at index i. The children of a node are a list of such indices; its siblings
    are reached through the `next`/`prev` links of a circular doubly-linked list. */
module PQNodes {
  import opened Outcomes
  import Counting

  type Id = nat

  datatype Link = Null | Ref(id: Id)

  /** The node type. A node constructed without one (the empty type string) is a Leaf. */
  datatype Kind = Leaf | PNode | QNode | PseudoNode

  /** The label. A node constructed without one (the empty label string) is Unlabelled. */
  datatype Label = Unlabelled | Empty | Full | Partial

  datatype Node = Node(
    kind: Kind,
    mark: Label,            // the label
    next: Link,              // circularLink_next
    prev: Link,              // circularLink_prev
    parent: Link,
    children: seq<Id>,
    pertinentChildCount: int,
    pertinentLeafCount: int,
    queued: bool,
    blocked: bool,
    childCount: int)

  /** The record the constructor builds: not blocked, not queued, every counter 0, no ring
      links, no parent and no children. The kind and label are those the P-node and Q-node
      constructors are given. */
  function Fresh(kind: Kind, l: Label): (v: Node)
    ensures !v.blocked && !v.queued
    ensures v.pertinentChildCount == 0 && v.pertinentLeafCount == 0 && v.childCount == 0
    ensures v.next == Null && v.prev == Null && v.parent == Null && v.children == []
    ensures v.kind == kind && v.mark == l
  {
    Node(kind, l, Null, Null, Null, [], 0, 0, false, false, 0)
  }

  predicate LinkIn(l: Link, n: nat) {
    l.Ref? ==> l.id < n
  }

  predicate NodeIn(v: Node, n: nat) {
    && LinkIn(v.next, n) && LinkIn(v.prev, n) && LinkIn(v.parent, n)
    && forall c :: c in v.children ==> c < n
  }

  /** Every reference stored in the arena designates a node of the arena. */
  predicate ValidNodes(nodes: seq<Node>) {
    forall i :: 0 <= i < |nodes| ==> NodeIn(nodes[i], |nodes|)
  }

  predicate AllIn(cs: seq<Id>, n: nat) {
    forall c :: c in cs ==> c < n
  }

  lemma NodeInGrows(v: Node, n: nat, m: nat)
    requires NodeIn(v, n) && n <= m
    ensures NodeIn(v, m)
  {
  }

  /** Appending a node whose references are in range keeps the arena valid. */
  lemma ValidAppend(nodes: seq<Node>, v: Node)
    requires ValidNodes(nodes) && NodeIn(v, |nodes| + 1)
    ensures ValidNodes(nodes + [v])
  {
    forall i | 0 <= i < |nodes| + 1
      ensures NodeIn((nodes + [v])[i], |nodes| + 1)
    {
      if i < |nodes| {
        NodeInGrows(nodes[i], |nodes|, |nodes| + 1);
      }
    }
  }

  // ---------------------------------------------------------------------------------
  // Children filtered by label (partialChildren, fullChildren, getChildrenOfLabel)

  /** The members of `cs` whose label is `l`, in their order in `cs`. */
  function OfLabel(nodes: seq<Node>, cs: seq<Id>, l: Label): (r: seq<Id>)
    requires AllIn(cs, |nodes|)
    ensures |r| <= |cs|
    ensures forall c :: c in r ==> c in cs && nodes[c].mark == l
    ensures forall c :: c in cs && nodes[c].mark == l ==> c in r
  {
    if cs == [] then []
    else
      var init := cs[..|cs| - 1];
      var last := cs[|cs| - 1];
      assert forall c :: c in cs ==> c in init || c == last;
      assert forall c :: c in init ==> c in cs;
      assert last in cs;
      if nodes[last].mark == l then OfLabel(nodes, init, l) + [last] else OfLabel(nodes, init, l)
  }

  /** One more element of the list extends the filter by that element when it has the
      label. */
  lemma OfLabelSnoc(nodes: seq<Node>, cs: seq<Id>, i: nat, l: Label)
    requires AllIn(cs, |nodes|) && i < |cs|
    ensures AllIn(cs[..i], |nodes|) && AllIn(cs[..i + 1], |nodes|) && cs[i] < |nodes|
    ensures OfLabel(nodes, cs[..i + 1], l)
         == if nodes[cs[i]].mark == l then OfLabel(nodes, cs[..i], l) + [cs[i]] else OfLabel(nodes, cs[..i], l)
  {
    assert cs[i] in cs;
    PrefixAllIn(cs, |nodes|, i);
    PrefixAllIn(cs, |nodes|, i + 1);
    var p := cs[..i + 1];
    assert p[..|p| - 1] == cs[..i] && p[|p| - 1] == cs[i];
  }

  lemma PrefixAllIn(cs: seq<Id>, n: nat, k: nat)
    requires AllIn(cs, n) && k <= |cs|
    ensures AllIn(cs[..k], n)
  {
    forall c | c in cs[..k]
      ensures c < n
    {
      assert c in cs;
    }
  }

  /** Filtering by label distributes over concatenation: the filter keeps the order of
      the list it filters. */
  lemma {:induction false} OfLabelAppend(nodes: seq<Node>, a: seq<Id>, b: seq<Id>, l: Label)
    requires AllIn(a, |nodes|) && AllIn(b, |nodes|)
    ensures AllIn(a + b, |nodes|)
    ensures OfLabel(nodes, a + b, l) == OfLabel(nodes, a, l) + OfLabel(nodes, b, l)
  {
    assert forall c :: c in a + b ==> c in a || c in b;
    if b != [] {
      var b' := b[..|b| - 1];
      assert (a + b)[..|a + b| - 1] == a + b';
      assert forall c :: c in b' ==> c in b;
      OfLabelAppend(nodes, a, b', l);
    } else {
      assert a + b == a;
    }
  }

  // ---------------------------------------------------------------------------------
  // Circular sibling lists

  function Succ(i: nat, n: nat): nat
    requires i < n
  {
    if i + 1 == n then 0 else i + 1
  }

  function Pred(i: nat, n: nat): nat
    requires i < n
  {
    if i == 0 then n - 1 else i - 1
  }

  ghost predicate Distinct(r: seq<Id>) {
    forall i, j :: 0 <= i < j < |r| ==> r[i] != r[j]
  }

  /** `r` lists the members of one closed ring in `next` order: distinct nodes of the
      arena, each one's `next` being the following member (the last one's the first), and
      each one's `prev` the member before it. */
  ghost predicate IsRing(nodes: seq<Node>, r: seq<Id>) {
    && |r| > 0
    && (forall i :: 0 <= i < |r| ==> r[i] < |nodes|)
    && Distinct(r)
    && (forall i {:trigger nodes[r[i]]} :: 0 <= i < |r| ==> nodes[r[i]].next == Ref(r[Succ(i, |r|)]))
    && (forall i {:trigger nodes[r[i]]} :: 0 <= i < |r| ==> nodes[r[i]].prev == Ref(r[Pred(i, |r|)]))
  }

  lemma DistinctIndex(r: seq<Id>, i: nat, j: nat)
    requires Distinct(r) && i < |r| && j < |r| && r[i] == r[j]
    ensures i == j
  {
  }

  /** Position `m` of the ring is the first one after position 0 labelled EMPTY. */
  ghost predicate FirstEmptyAt(nodes: seq<Node>, ring: seq<Id>, m: int)
    requires forall i :: 0 <= i < |ring| ==> ring[i] < |nodes|
  {
    && 0 < m < |ring| && nodes[ring[m]].mark == Empty
    && forall j :: 0 < j < m ==> nodes[ring[j]].mark != Empty
  }

  /** The node reached from `v` after `k` steps along `next`, or null once a link was
      null. */
  function Along(nodes: seq<Node>, v: Id, k: nat): (l: Link)
    requires ValidNodes(nodes) && v < |nodes|
    ensures LinkIn(l, |nodes|)
  {
    if k == 0 then Ref(v)
    else
      var w := Along(nodes, v, k - 1);
      if w.Null? then Null else assert NodeIn(nodes[w.id], |nodes|); nodes[w.id].next
  }

  /** The `emptySibling` loop from the `k`-th node of the walk on, with `fuel` further
      steps: an EMPTY node other than `v` is the answer, coming back to `v` gives null,
      and a null link is the NullPointerException of reading its label. */
  function EmptySiblingFrom(nodes: seq<Node>, v: Id, k: nat, fuel: nat): (r: Outcome<Link>)
    requires ValidNodes(nodes) && v < |nodes|
    ensures r.Value? ==> r.value != Ref(v)
    ensures r.Value? && r.value.Ref? ==> r.value.id < |nodes| && nodes[r.value.id].mark == Empty
    decreases fuel
  {
    var w := Along(nodes, v, k);
    if w.Null? then Fault
    else if nodes[w.id].mark == Empty && w != Ref(v) then Value(w)
    else if w == Ref(v) then Value(Null)
    else if fuel == 0 then Fault
    else EmptySiblingFrom(nodes, v, k + 1, fuel - 1)
  }

  /** The walk from `v` goes on past its `k`-th node: a node other than `v`, not EMPTY. */
  ghost predicate Passes(nodes: seq<Node>, v: Id, k: nat)
    requires ValidNodes(nodes) && v < |nodes|
  {
    var w := Along(nodes, v, k);
    w.Ref? && w != Ref(v) && nodes[w.id].mark != Empty
  }

  lemma {:induction false} AlongOnRing(nodes: seq<Node>, ring: seq<Id>, k: nat)
    requires ValidNodes(nodes) && IsRing(nodes, ring) && k <= |ring|
    ensures Along(nodes, ring[0], k) == Ref(ring[if k == |ring| then 0 else k])
    decreases k
  {
    if k > 0 {
      AlongOnRing(nodes, ring, k - 1);
      assert nodes[ring[k - 1]].next == Ref(ring[Succ(k - 1, |ring|)]);
    }
  }

  /** A ring has at most as many members as the arena has nodes. */
  lemma RingFits(nodes: seq<Node>, ring: seq<Id>)
    requires IsRing(nodes, ring)
    ensures |ring| <= |nodes|
  {
    assert ring[0] < |nodes|;
    if |ring| > |nodes| {
      Counting.Pigeonhole(ring, |nodes|);
      assert false;
    }
  }

  /** Position `m` of the ring is the first one from position `k` on labelled EMPTY. */
  ghost predicate FirstEmptyFrom(nodes: seq<Node>, ring: seq<Id>, k: nat, m: nat)
    requires forall i :: 0 <= i < |ring| ==> ring[i] < |nodes|
  {
    && k <= m < |ring| && nodes[ring[m]].mark == Empty
    && forall j :: k <= j < m ==> nodes[ring[j]].mark != Empty
  }

  /** No position of the ring from `k` on is labelled EMPTY. */
  ghost predicate NoEmptyFrom(nodes: seq<Node>, ring: seq<Id>, k: nat)
    requires forall i :: 0 <= i < |ring| ==> ring[i] < |nodes|
  {
    forall m :: k <= m < |ring| ==> nodes[ring[m]].mark != Empty
  }

  lemma NoEmptyFromStep(nodes: seq<Node>, ring: seq<Id>, k: nat)
    requires forall i :: 0 <= i < |ring| ==> ring[i] < |nodes|
    requires k < |ring| && nodes[ring[k]].mark != Empty
    ensures NoEmptyFrom(nodes, ring, k) <==> NoEmptyFrom(nodes, ring, k + 1)
  {
  }

  /** The walk from the first member of `ring` visits the members in order and then comes
      back to the first; the first does not occur again. */
  ghost predicate WalksRing(nodes: seq<Node>, ring: seq<Id>)
    requires ValidNodes(nodes)
  {
    && |ring| > 0
    && (forall i :: 0 <= i < |ring| ==> ring[i] < |nodes|)
    && (forall i :: 0 < i < |ring| ==> ring[i] != ring[0])
    && (forall i :: 0 <= i < |ring| ==> Along(nodes, ring[0], i) == Ref(ring[i]))
    && Along(nodes, ring[0], |ring|) == Ref(ring[0])
  }

  lemma IsRingWalks(nodes: seq<Node>, ring: seq<Id>)
    requires ValidNodes(nodes) && IsRing(nodes, ring)
    ensures WalksRing(nodes, ring)
  {
    forall i | 0 <= i <= |ring|
      ensures Along(nodes, ring[0], i) == Ref(ring[if i == |ring| then 0 else i])
    {
      AlongOnRing(nodes, ring, i);
    }
  }

  lemma {:induction false} EmptySiblingFromOnRing(nodes: seq<Node>, ring: seq<Id>, k: nat, fuel: nat)
    requires ValidNodes(nodes) && WalksRing(nodes, ring) && 1 <= k <= |ring| && |ring| - k <= fuel
    ensures var r := EmptySiblingFrom(nodes, ring[0], k, fuel);
      && r.Value?
      && (r.value == Null <==> NoEmptyFrom(nodes, ring, k))
      && (r.value.Ref? ==> exists m: nat :: FirstEmptyFrom(nodes, ring, k, m) && ring[m] == r.value.id)
    decreases |ring| - k
  {
    var v := ring[0];
    if k == |ring| {
      assert EmptySiblingFrom(nodes, v, k, fuel) == Value(Null);
      assert NoEmptyFrom(nodes, ring, k);
    } else {
      assert ring[k] != v;
      if nodes[ring[k]].mark == Empty {
        assert EmptySiblingFrom(nodes, v, k, fuel) == Value(Ref(ring[k]));
        assert FirstEmptyFrom(nodes, ring, k, k);
        assert !NoEmptyFrom(nodes, ring, k);
      } else {
        EmptySiblingFromOnRing(nodes, ring, k + 1, fuel - 1);
        NoEmptyFromStep(nodes, ring, k);
        var r := EmptySiblingFrom(nodes, v, k + 1, fuel - 1);
        assert EmptySiblingFrom(nodes, v, k, fuel) == r;
        assert r.value == Null <==> NoEmptyFrom(nodes, ring, k);
        if r.value.Ref? {
          var m: nat :| FirstEmptyFrom(nodes, ring, k + 1, m) && ring[m] == r.value.id;
          assert FirstEmptyFrom(nodes, ring, k, m);
        }
      }
    }
  }

  /** On a closed ring listed from `v`, `emptySibling` returns the first EMPTY member
      after `v`, or null when there is none. */
  lemma EmptySiblingOnRing(nodes: seq<Node>, ring: seq<Id>)
    requires ValidNodes(nodes) && IsRing(nodes, ring)
    ensures var r := EmptySiblingFrom(nodes, ring[0], 1, |nodes|);
      && r.Value?
      && (r.value == Null <==> forall m :: 0 < m < |ring| ==> nodes[ring[m]].mark != Empty)
      && (r.value.Ref? ==> exists m :: FirstEmptyAt(nodes, ring, m) && ring[m] == r.value.id)
  {
    RingFits(nodes, ring);
    IsRingWalks(nodes, ring);
    EmptySiblingFromOnRing(nodes, ring, 1, |nodes|);
    assert NoEmptyFrom(nodes, ring, 1) <==> forall m :: 0 < m < |ring| ==> nodes[ring[m]].mark != Empty;
    var r := EmptySiblingFrom(nodes, ring[0], 1, |nodes|);
    if r.value.Ref? {
      var m: nat :| FirstEmptyFrom(nodes, ring, 1, m) && ring[m] == r.value.id;
      assert FirstEmptyAt(nodes, ring, m);
    }
  }

  /** The walk from `v` meets a null link at its `d`-th node, having passed the ones
      from the `k`-th on before it. */
  ghost predicate NullAfter(nodes: seq<Node>, v: Id, k: nat, d: nat)
    requires ValidNodes(nodes) && v < |nodes|
  {
    k <= d && Along(nodes, v, d).Null? && forall m :: k <= m < d ==> Passes(nodes, v, m)
  }

  /** `Fault` means the walk met a null link, or it passed `fuel + 1` nodes. */
  lemma {:induction false} EmptySiblingFromFault(nodes: seq<Node>, v: Id, k: nat, fuel: nat)
    requires ValidNodes(nodes) && v < |nodes| && EmptySiblingFrom(nodes, v, k, fuel) == Fault
    ensures
      || (exists d: nat :: d <= k + fuel && NullAfter(nodes, v, k, d))
      || (forall m :: k <= m <= k + fuel ==> Passes(nodes, v, m))
    decreases fuel
  {
    if Along(nodes, v, k).Null? {
      assert NullAfter(nodes, v, k, k);
    } else {
      assert Passes(nodes, v, k);
      if fuel > 0 {
        EmptySiblingFromFault(nodes, v, k + 1, fuel - 1);
        var k1 := k + 1;
        if exists d: nat :: d <= k + fuel && NullAfter(nodes, v, k1, d) {
          var d: nat :| d <= k + fuel && NullAfter(nodes, v, k1, d);
          assert NullAfter(nodes, v, k, d);
        } else {
          forall m | k <= m <= k + fuel
            ensures Passes(nodes, v, m)
          {
            if m > k {
              assert k + 1 <= m <= k + 1 + (fuel - 1);
            }
          }
        }
      } else {
        forall m | k <= m <= k + fuel
          ensures Passes(nodes, v, m)
        {
          assert m == k;
        }
      }
    }
  }

  lemma {:induction false} AlongRepeats(nodes: seq<Node>, v: Id, i: nat, j: nat, m: nat)
    requires ValidNodes(nodes) && v < |nodes| && Along(nodes, v, i) == Along(nodes, v, j)
    ensures Along(nodes, v, i + m) == Along(nodes, v, j + m)
  {
    if m > 0 {
      AlongRepeats(nodes, v, i, j, m - 1);
    }
  }

  lemma {:induction false} PassesPeriodic(nodes: seq<Node>, v: Id, i: nat, j: nat, k: nat)
    requires ValidNodes(nodes) && v < |nodes| && 1 <= i < j && 1 <= k
    requires Along(nodes, v, i) == Along(nodes, v, j)
    requires forall t :: 1 <= t <= j ==> Passes(nodes, v, t)
    ensures Passes(nodes, v, k)
    decreases k
  {
    if k > j {
      AlongRepeats(nodes, v, i, j, k - j);
      PassesPeriodic(nodes, v, i, j, i + (k - j));
    }
  }

  /** With the top-level bound `|nodes|`, `Fault` is exact: the Java loop either reads the
      label of a null link, or goes round a cycle that avoids `v` and every EMPTY node
      and never ends. */
  lemma EmptySiblingFaultIsEndless(nodes: seq<Node>, v: Id)
    requires ValidNodes(nodes) && v < |nodes| && EmptySiblingFrom(nodes, v, 1, |nodes|) == Fault
    ensures (exists d: nat :: NullAfter(nodes, v, 1, d)) || (forall k :: 1 <= k ==> Passes(nodes, v, k))
  {
    var n := |nodes|;
    EmptySiblingFromFault(nodes, v, 1, n);
    if exists d: nat :: d <= 1 + n && NullAfter(nodes, v, 1, d) {
      var d: nat :| d <= 1 + n && NullAfter(nodes, v, 1, d);
      assert NullAfter(nodes, v, 1, d);
    } else {
      var s: seq<nat> := seq(n + 1, t requires 0 <= t <= n =>
        var w := Along(nodes, v, t + 1); if w.Ref? then w.id else 0);
      forall t | 0 <= t < |s|
        ensures s[t] < n && Along(nodes, v, t + 1) == Ref(s[t])
      {
        assert Passes(nodes, v, t + 1);
      }
      Counting.Pigeonhole(s, n);
      var i, j :| 0 <= i < j < |s| && s[i] == s[j];
      forall k | 1 <= k
        ensures Passes(nodes, v, k)
      {
        PassesPeriodic(nodes, v, i + 1, j + 1, k);
      }
    }
  }

  /** The list `immediateSiblings` builds: `prev`, then `next`, each only when non-null. */
  function ImmediateSiblings(nodes: seq<Node>, v: Id): (r: seq<Id>)
    requires v < |nodes|
    ensures |r| <= 2
    ensures forall u :: u in r ==> Ref(u) == nodes[v].prev || Ref(u) == nodes[v].next
    ensures nodes[v].prev.Ref? ==> |r| > 0 && r[0] == nodes[v].prev.id
    ensures nodes[v].next.Ref? ==> |r| > 0 && r[|r| - 1] == nodes[v].next.id
    ensures |r| == (if nodes[v].prev.Ref? then 1 else 0) + (if nodes[v].next.Ref? then 1 else 0)
  {
    (if nodes[v].prev.Ref? then [nodes[v].prev.id] else [])
      + (if nodes[v].next.Ref? then [nodes[v].next.id] else [])
  }

  /** On a ring of three or more, the immediate siblings of a member are the members
      before and after it. */
  lemma ImmediateSiblingsOnRing(nodes: seq<Node>, r: seq<Id>, k: nat)
    requires IsRing(nodes, r) && |r| >= 3 && k < |r|
    ensures ImmediateSiblings(nodes, r[k]) == [r[Pred(k, |r|)], r[Succ(k, |r|)]]
  {
    assert Succ(Pred(k, |r|), |r|) == k;
  }

  /** `endmostChildren`: the children of a Q-node, and null (the caught
      IllegalNodeTypeException) for any other node. */
  function EndmostChildren(nodes: seq<Node>, v: Id): (r: Option<seq<Id>>)
    requires v < |nodes|
    ensures r.Some? <==> nodes[v].kind == QNode
    ensures r.Some? ==> r.value == nodes[v].children
  {
    if nodes[v].kind != QNode then None else Some(nodes[v].children)
  }

  /** `getImmediateSiblingOfNodeType`: `next` if it has kind `k`, else `prev` if that has
      kind `k`, else null. The Java code dereferences `next` unconditionally and `prev`
      when `next` does not match; a null link there is a NullPointerException. */
  function ImmediateSiblingOfKind(nodes: seq<Node>, v: Id, k: Kind): (r: Outcome<Link>)
    requires ValidNodes(nodes) && v < |nodes|
    ensures r == Fault <==>
      nodes[v].next.Null? || (nodes[nodes[v].next.id].kind != k && nodes[v].prev.Null?)
    ensures r.Value? && r.value.Ref? ==>
      (r.value == nodes[v].next || r.value == nodes[v].prev) && nodes[r.value.id].kind == k
    ensures nodes[v].next.Ref? && nodes[nodes[v].next.id].kind == k ==> r == Value(nodes[v].next)
    ensures r == Value(Null) <==>
      && nodes[v].next.Ref? && nodes[v].prev.Ref?
      && nodes[nodes[v].next.id].kind != k && nodes[nodes[v].prev.id].kind != k
  {
    assert NodeIn(nodes[v], |nodes|);
    if nodes[v].next.Null? then Fault
    else if nodes[nodes[v].next.id].kind == k then Value(nodes[v].next)
    else if nodes[v].prev.Null? then Fault
    else if nodes[nodes[v].prev.id].kind == k then Value(nodes[v].prev)
    else Value(Null)
  }

  /** The arena after `removeFromCircularLink` on `v`, whose links are both non-null:
      `next.prev := prev`, `prev.next := next`, then both links of `v` become null. */
  function Unlinked(nodes: seq<Node>, v: Id): (s: seq<Node>)
    requires ValidNodes(nodes) && v < |nodes|
    requires nodes[v].next.Ref? && nodes[v].prev.Ref?
    ensures |s| == |nodes|
  {
    var n := nodes[v].next.id;
    var s1 := nodes[n := nodes[n].(prev := nodes[v].prev)];
    var p := s1[v].prev.id;
    var s2 := s1[p := s1[p].(next := s1[v].next)];
    s2[v := s2[v].(next := Null, prev := Null)]
  }

  /** What `removeFromCircularLink` promises: the former neighbours of `v` now point at
      each other, `v` has no links, and nothing else changes. */
  lemma UnlinkedEffect(nodes: seq<Node>, v: Id)
    requires ValidNodes(nodes) && v < |nodes|
    requires nodes[v].next.Ref? && nodes[v].prev.Ref?
    ensures var s := Unlinked(nodes, v); var n := nodes[v].next.id; var p := nodes[v].prev.id;
      && ValidNodes(s)
      && s[v].next == Null && s[v].prev == Null
      && (p != v ==> s[p].next == nodes[v].next)
      && (n != v ==> s[n].prev == nodes[v].prev)
      && (forall i :: 0 <= i < |s| && i != v && i != n && i != p ==> s[i] == nodes[i])
      && (forall i :: 0 <= i < |s| ==>
            s[i].(next := nodes[i].next, prev := nodes[i].prev) == nodes[i])
      && (p != v && p != n ==> s[p].prev == nodes[p].prev)
      && (n != v && n != p ==> s[n].next == nodes[n].next)
  {
    var s := Unlinked(nodes, v);
    forall i | 0 <= i < |s|
      ensures NodeIn(s[i], |s|)
    {
      assert NodeIn(nodes[i], |nodes|);
    }
  }

  /** The arena after `replaceInCircularLink(x)` on `v`:
      `next.prev := x`, `prev.next := x`, `x.prev := prev`, `x.next := next`, and then
      both links of `v` become null. Each step reads the links as the previous steps
      left them, so when `v` is its own `next` the first step gives it the `prev` `x`. */
  function Spliced(nodes: seq<Node>, v: Id, x: Id): (s: seq<Node>)
    requires ValidNodes(nodes) && v < |nodes| && x < |nodes|
    requires nodes[v].next.Ref? && (nodes[v].prev.Ref? || nodes[v].next == Ref(v))
    ensures |s| == |nodes|
  {
    var n := nodes[v].next.id;
    var s1 := nodes[n := nodes[n].(prev := Ref(x))];
    var p := s1[v].prev.id;
    var s2 := s1[p := s1[p].(next := Ref(x))];
    var s3 := s2[x := s2[x].(prev := s2[v].prev)];
    var s4 := s3[x := s3[x].(next := s3[v].next)];
    s4[v := s4[v].(next := Null, prev := Null)]
  }

  /** What `replaceInCircularLink(x)` promises when `v` is not its own neighbour and `x`
      is neither `v` nor one of its neighbours: the neighbours of `v` point at `x`, `x`
      has the links `v` had, `v` has none, and nothing else changes. */
  lemma SplicedEffect(nodes: seq<Node>, v: Id, x: Id)
    requires ValidNodes(nodes) && v < |nodes| && x < |nodes|
    requires nodes[v].next.Ref? && nodes[v].prev.Ref?
    requires nodes[v].next != Ref(v) && nodes[v].prev != Ref(v)
    requires x != v && Ref(x) != nodes[v].next && Ref(x) != nodes[v].prev
    ensures var s := Spliced(nodes, v, x); var n := nodes[v].next.id; var p := nodes[v].prev.id;
      && ValidNodes(s)
      && s[v].next == Null && s[v].prev == Null
      && s[x].next == nodes[v].next && s[x].prev == nodes[v].prev
      && s[p].next == Ref(x) && s[n].prev == Ref(x)
      && (forall i :: 0 <= i < |s| && i != v && i != n && i != p && i != x ==> s[i] == nodes[i])
      && (forall i :: 0 <= i < |s| ==>
            s[i].(next := nodes[i].next, prev := nodes[i].prev) == nodes[i])
      && (p != n ==> s[p].prev == nodes[p].prev && s[n].next == nodes[n].next)
  {
    var s := Spliced(nodes, v, x);
    forall i | 0 <= i < |s|
      ensures NodeIn(s[i], |s|)
    {
      assert NodeIn(nodes[i], |nodes|);
    }
  }

  // ---------------------------------------------------------------------------------
  // The arena and the node operations that change it

  class Arena {
    var nodes: seq<Node>

    ghost predicate Valid()
      reads this
    {
      ValidNodes(nodes)
    }

    constructor ()
      ensures Valid() && nodes == []
    {
      nodes := [];
    }

    /** `new PQNode()` (kind Leaf, Unlabelled), or the P-node / Q-node constructors that
        also set the kind and label. */
    method NewNode(kind: Kind, l: Label) returns (v: Id)
      requires Valid()
      modifies this
      ensures Valid()
      ensures v == |old(nodes)| && nodes == old(nodes) + [Fresh(kind, l)]
    {
      ValidAppend(nodes, Fresh(kind, l));
      v := |nodes|;
      nodes := nodes + [Fresh(kind, l)];
    }

    method SetLabel(v: Id, l: Label)
      requires Valid() && v < |nodes|
      modifies this
      ensures Valid() && nodes == old(nodes)[v := old(nodes)[v].(mark := l)]
    {
      nodes := nodes[v := nodes[v].(mark := l)];
    }

    method SetParent(v: Id, p: Link)
      requires Valid() && v < |nodes| && LinkIn(p, |nodes|)
      modifies this
      ensures Valid() && nodes == old(nodes)[v := old(nodes)[v].(parent := p)]
    {
      nodes := nodes[v := nodes[v].(parent := p)];
    }

    method SetNext(v: Id, l: Link)
      requires Valid() && v < |nodes| && LinkIn(l, |nodes|)
      modifies this
      ensures Valid() && nodes == old(nodes)[v := old(nodes)[v].(next := l)]
    {
      nodes := nodes[v := nodes[v].(next := l)];
    }

    method SetPrev(v: Id, l: Link)
      requires Valid() && v < |nodes| && LinkIn(l, |nodes|)
      modifies this
      ensures Valid() && nodes == old(nodes)[v := old(nodes)[v].(prev := l)]
    {
      nodes := nodes[v := nodes[v].(prev := l)];
    }

    method SetChildren(v: Id, cs: seq<Id>)
      requires Valid() && v < |nodes| && AllIn(cs, |nodes|)
      modifies this
      ensures Valid() && nodes == old(nodes)[v := old(nodes)[v].(children := cs)]
    {
      nodes := nodes[v := nodes[v].(children := cs)];
    }

    method SetBlocked(v: Id, b: bool)
      requires Valid() && v < |nodes|
      modifies this
      ensures Valid() && nodes == old(nodes)[v := old(nodes)[v].(blocked := b)]
    {
      nodes := nodes[v := nodes[v].(blocked := b)];
    }

    method SetPertinentChildCount(v: Id, k: int)
      requires Valid() && v < |nodes|
      modifies this
      ensures Valid() && nodes == old(nodes)[v := old(nodes)[v].(pertinentChildCount := k)]
    {
      nodes := nodes[v := nodes[v].(pertinentChildCount := k)];
    }

    method SetPertinentLeafCount(v: Id, k: int)
      requires Valid() && v < |nodes|
      modifies this
      ensures Valid() && nodes == old(nodes)[v := old(nodes)[v].(pertinentLeafCount := k)]
    {
      nodes := nodes[v := nodes[v].(pertinentLeafCount := k)];
    }

    /** `partialChildren`: the children labelled PARTIAL, in order. */
    method PartialChildren(v: Id) returns (r: seq<Id>)
      requires Valid() && v < |nodes|
      ensures r == OfLabel(nodes, nodes[v].children, Partial)
    {
      r := ChildrenLabelled(v, Partial);
    }

    /** `fullChildren`: the children labelled FULL, in order. */
    method FullChildren(v: Id) returns (r: seq<Id>)
      requires Valid() && v < |nodes|
      ensures r == OfLabel(nodes, nodes[v].children, Full)
    {
      r := ChildrenLabelled(v, Full);
    }

    /** The loop both filters run: walk the children, keep those labelled `l`. */
    method ChildrenLabelled(v: Id, l: Label) returns (r: seq<Id>)
      requires Valid() && v < |nodes|
      ensures r == OfLabel(nodes, nodes[v].children, l)
    {
      var cs := nodes[v].children;
      assert NodeIn(nodes[v], |nodes|);
      forall i | 0 <= i <= |cs|
        ensures AllIn(cs[..i], |nodes|)
      {
        assert forall c :: c in cs[..i] ==> c in cs;
      }
      r := [];
      for i := 0 to |cs|
        invariant r == OfLabel(nodes, cs[..i], l)
      {
        OfLabelSnoc(nodes, cs, i, l);
        if nodes[cs[i]].mark == l {
          r := r + [cs[i]];
        }
      }
      assert cs[..|cs|] == cs;
    }

    /** `emptySibling`: the walk along `next` from `v`, as `EmptySiblingFrom` describes
        it. The Java loop has no bound; this one stops after `|nodes| + 1` nodes, where the
        Java loop provably never ends (`EmptySiblingFaultIsEndless`). */
    method EmptySibling(v: Id) returns (r: Outcome<Link>)
      requires Valid() && v < |nodes|
      ensures r == EmptySiblingFrom(nodes, v, 1, |nodes|)
    {
      var cur := nodes[v].next;
      var k := 1;
      while true
        invariant 1 <= k <= |nodes| + 1
        invariant cur == Along(nodes, v, k)
        invariant EmptySiblingFrom(nodes, v, 1, |nodes|) == EmptySiblingFrom(nodes, v, k, |nodes| + 1 - k)
        decreases |nodes| + 1 - k
      {
        if cur.Null? {
          return Fault;
        }
        if nodes[cur.id].mark == Empty && cur != Ref(v) {
          return Value(cur);
        } else if cur == Ref(v) {
          return Value(Null);
        }
        if k == |nodes| + 1 {
          return Fault;
        }
        assert NodeIn(nodes[cur.id], |nodes|);
        cur := nodes[cur.id].next;
        k := k + 1;
      }
    }

    /** `removeFromCircularLink`: splice `v` out of its ring. A null `next` throws before
        anything changes; a null `prev` throws after `next.prev` was set to null. */
    method RemoveFromCircularLink(v: Id) returns (r: Outcome<()>)
      requires Valid() && v < |nodes|
      modifies this
      ensures Valid()
      ensures old(nodes)[v].next.Null? ==> r == Fault && nodes == old(nodes)
      ensures old(nodes)[v].next.Ref? && old(nodes)[v].prev.Null? ==>
        var n := old(nodes)[v].next.id;
        r == Fault && nodes == old(nodes)[n := old(nodes)[n].(prev := Null)]
      ensures old(nodes)[v].next.Ref? && old(nodes)[v].prev.Ref? ==>
        r == Value(()) && nodes == Unlinked(old(nodes), v)
    {
      if nodes[v].next.Null? {
        return Fault;
      }
      assert NodeIn(nodes[v], |nodes|);
      var n := nodes[v].next.id;
      if nodes[v].prev.Null? {
        nodes := nodes[n := nodes[n].(prev := nodes[v].prev)];
        return Fault;
      }
      UnlinkedEffect(nodes, v);
      nodes := nodes[n := nodes[n].(prev := nodes[v].prev)];
      var p := nodes[v].prev.id;
      nodes := nodes[p := nodes[p].(next := nodes[v].next)];
      nodes := nodes[v := nodes[v].(next := Null, prev := Null)];
      r := Value(());
    }

    /** `replaceInCircularLink(x)`: put `x` in the ring position of `v`. A null `next`
        throws before anything changes; a `prev` still null after `next.prev := x` throws
        after that one update. */
    method ReplaceInCircularLink(v: Id, x: Id) returns (r: Outcome<()>)
      requires Valid() && v < |nodes| && x < |nodes|
      modifies this
      ensures Valid()
      ensures old(nodes)[v].next.Null? ==> r == Fault && nodes == old(nodes)
      ensures old(nodes)[v].next.Ref? && old(nodes)[v].prev.Null? && old(nodes)[v].next != Ref(v) ==>
        var n := old(nodes)[v].next.id;
        r == Fault && nodes == old(nodes)[n := old(nodes)[n].(prev := Ref(x))]
      ensures old(nodes)[v].next.Ref? && (old(nodes)[v].prev.Ref? || old(nodes)[v].next == Ref(v)) ==>
        r == Value(()) && nodes == Spliced(old(nodes), v, x)
    {
      if nodes[v].next.Null? {
        return Fault;
      }
      assert NodeIn(nodes[v], |nodes|);
      var n := nodes[v].next.id;
      SetPrev(n, Ref(x));
      if nodes[v].prev.Null? {
        return Fault;
      }
      assert NodeIn(nodes[v], |nodes|);
      var p := nodes[v].prev.id;
      SetNext(p, Ref(x));
      assert NodeIn(nodes[v], |nodes|);
      SetPrev(x, nodes[v].prev);
      assert NodeIn(nodes[v], |nodes|);
      SetNext(x, nodes[v].next);
      SetNext(v, Null);
      SetPrev(v, Null);
      r := Value(());
    }

    /** `replaceInImmediateSiblings(x, y)`: `v`'s `prev` becomes `x` and its `next`
        becomes `y`; nothing else changes. */
    method ReplaceInImmediateSiblings(v: Id, x: Link, y: Link)
      requires Valid() && v < |nodes| && LinkIn(x, |nodes|) && LinkIn(y, |nodes|)
      modifies this
      ensures Valid()
      ensures nodes == old(nodes)[v := old(nodes)[v].(prev := x, next := y)]
    {
      nodes := nodes[v := nodes[v].(prev := x)];
      nodes := nodes[v := nodes[v].(next := y)];
    }
  }
}

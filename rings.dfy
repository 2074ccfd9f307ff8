/** What the circular-list operations of planaritypq/PQNode.java do to a whole ring of
    siblings. The ring is listed starting from the node being operated on. */
module Rings {
  import opened PQNodes

  /** `removeFromCircularLink` on the first member of a ring of two or more: the others
      still form a ring, in their old order, and the removed node is detached. */
  lemma {:induction false} UnlinkKeepsRing(nodes: seq<Node>, r: seq<Id>)
    requires ValidNodes(nodes) && IsRing(nodes, r) && |r| >= 2
    ensures nodes[r[0]].next.Ref? && nodes[r[0]].prev.Ref?
    ensures var s := Unlinked(nodes, r[0]);
      && IsRing(s, r[1..])
      && s[r[0]].next == Null && s[r[0]].prev == Null
  {
    var v := r[0];
    var n := |r|;
    assert nodes[r[0]].next == Ref(r[1]);
    assert nodes[r[0]].prev == Ref(r[n - 1]);
    UnlinkedEffect(nodes, v);
    var s := Unlinked(nodes, v);
    var q := r[1..];
    var m := n - 1;
    forall i | 0 <= i < m
      ensures s[q[i]].next == Ref(q[Succ(i, m)])
      ensures s[q[i]].prev == Ref(q[Pred(i, m)])
    {
      assert q[i] == r[i + 1];
      assert r[i + 1] != r[0];
      assert nodes[r[i + 1]].next == Ref(r[Succ(i + 1, n)]);
      assert nodes[r[i + 1]].prev == Ref(r[Pred(i + 1, n)]);
      if i > 0 {
        assert r[i + 1] != r[1];
      }
      if i + 1 < m {
        assert r[i + 1] != r[n - 1];
      }
    }
  }

  /** `replaceInCircularLink(x)` on the first member of a ring of two or more, with `x`
      outside the ring: `x` takes the place of the replaced node, which is detached. */
  lemma {:induction false} SpliceKeepsRing(nodes: seq<Node>, r: seq<Id>, x: Id)
    requires ValidNodes(nodes) && IsRing(nodes, r) && |r| >= 2
    requires x < |nodes| && x !in r
    ensures nodes[r[0]].next.Ref? && nodes[r[0]].prev.Ref?
    ensures var s := Spliced(nodes, r[0], x);
      && ValidNodes(s)
      && IsRing(s, [x] + r[1..])
      && s[r[0]].next == Null && s[r[0]].prev == Null
      && (forall i :: 0 <= i < |s| && i !in r && i != x ==> s[i] == nodes[i])
      && (forall i :: 0 <= i < |s| ==>
            s[i].(next := nodes[i].next, prev := nodes[i].prev) == nodes[i])
  {
    var n := |r|;
    assert nodes[r[0]].next == Ref(r[1]);
    assert nodes[r[0]].prev == Ref(r[n - 1]);
    assert r[1] != r[0] && r[n - 1] != r[0];
    SplicedEffect(nodes, r[0], x);
    SpliceRing(nodes, Spliced(nodes, r[0], x), r, x);
  }

  /** A relinking that makes the neighbours of `r[0]` point at `x`, and `x` at them, and
      touches no other member, turns the ring `r` into one with `x` in place of `r[0]`. */
  lemma SpliceRing(nodes: seq<Node>, s: seq<Node>, r: seq<Id>, x: Id)
    requires IsRing(nodes, r) && |r| >= 2 && |s| == |nodes|
    requires x < |nodes| && x !in r
    requires s[x].next == Ref(r[1]) && s[x].prev == Ref(r[|r| - 1])
    requires s[r[|r| - 1]].next == Ref(x) && s[r[1]].prev == Ref(x)
    requires r[1] != r[|r| - 1] ==> s[r[|r| - 1]].prev == nodes[r[|r| - 1]].prev && s[r[1]].next == nodes[r[1]].next
    requires forall i :: 0 <= i < |s| && i != r[0] && i != r[1] && i != r[|r| - 1] && i != x ==> s[i] == nodes[i]
    ensures IsRing(s, [x] + r[1..])
  {
    var n := |r|;
    var q := [x] + r[1..];
    forall i | 0 <= i < n
      ensures s[q[i]].next == Ref(q[Succ(i, n)])
      ensures s[q[i]].prev == Ref(q[Pred(i, n)])
    {
      if i > 0 {
        assert q[i] == r[i];
        SpliceMember(nodes, s, r, x, i);
      }
    }
    SpliceDistinct(r, x);
  }

  /** After the splice, a member of the ring other than the replaced one still links to its
      old neighbours, with `x` standing for the replaced node. */
  lemma SpliceMember(nodes: seq<Node>, s: seq<Node>, r: seq<Id>, x: Id, i: nat)
    requires IsRing(nodes, r) && |r| >= 2 && |s| == |nodes|
    requires x < |nodes| && x !in r && 0 < i < |r|
    requires s[r[|r| - 1]].next == Ref(x) && s[r[1]].prev == Ref(x)
    requires r[1] != r[|r| - 1] ==> s[r[|r| - 1]].prev == nodes[r[|r| - 1]].prev && s[r[1]].next == nodes[r[1]].next
    requires forall i :: 0 <= i < |s| && i != r[0] && i != r[1] && i != r[|r| - 1] && i != x ==> s[i] == nodes[i]
    ensures var q := [x] + r[1..];
      && s[r[i]].next == Ref(q[Succ(i, |r|)])
      && s[r[i]].prev == Ref(q[Pred(i, |r|)])
  {
    var n := |r|;
    var q := [x] + r[1..];
    assert r[i] != r[0];
    assert nodes[r[i]].next == Ref(r[Succ(i, n)]);
    assert nodes[r[i]].prev == Ref(r[Pred(i, n)]);
    if Succ(i, n) != 0 {
      assert q[Succ(i, n)] == r[Succ(i, n)];
    }
    if Pred(i, n) != 0 {
      assert q[Pred(i, n)] == r[Pred(i, n)];
    }
    if i > 1 {
      assert r[i] != r[1];
    }
    if i < n - 1 {
      assert r[i] != r[n - 1];
    }
  }

  lemma SpliceDistinct(r: seq<Id>, x: Id)
    requires Distinct(r) && |r| > 0 && x !in r
    ensures Distinct([x] + r[1..])
  {
    var q := [x] + r[1..];
    forall i, j | 0 <= i < j < |q|
      ensures q[i] != q[j]
    {
      assert q[j] == r[j];
      if i > 0 {
        assert q[i] == r[i];
      }
    }
  }

  /** On a ring of exactly one node (whose links are itself), `replaceInCircularLink(x)`
      does not make `x` a ring of its own: `x.next` is left pointing at the detached
      node. */
  lemma SpliceSingleton(nodes: seq<Node>, v: Id, x: Id)
    requires ValidNodes(nodes) && v < |nodes| && IsRing(nodes, [v]) && x < |nodes| && x != v
    ensures nodes[v].next.Ref? && nodes[v].prev.Ref?
    ensures var s := Spliced(nodes, v, x);
      s[x].next == Ref(v) && s[x].prev == Ref(x) && s[v].next == Null
  {
    assert nodes[[v][0]].next == Ref([v][Succ(0, 1)]);
    assert nodes[[v][0]].prev == Ref([v][Pred(0, 1)]);
  }
}

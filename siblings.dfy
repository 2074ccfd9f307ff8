/** The runs of consecutive siblings in one blocked state (planaritypq/PQNode.java,
    `siblingsAdjacent` and `maximalConsecutiveSetOfSiblingsAdjacent`). Both are pure: they
    read the sibling links and build sets without changing any node. */
module SiblingRuns {
  import opened Outcomes
  import opened PQNodes
  import Counting

  /** A Java set built by `siblingsAdjacent`: its members, and whether it is the
      immutable one-element set of `Collections.singleton`, on which `add` throws. */
  datatype RunSet = RunSet(members: set<Id>, immutable: bool)

  /** Where `siblingsAdjacent` recurses from `u`: to `prev` when walking left and `prev`
      is non-null, otherwise to `next` (which may be null). */
  function Step(nodes: seq<Node>, u: Id, goLeft: bool): (l: Link)
    requires u < |nodes|
    ensures l == nodes[u].prev || l == nodes[u].next
  {
    if goLeft && nodes[u].prev.Ref? then nodes[u].prev else nodes[u].next
  }

  /** The node reached from `v` after `k` steps, or null once a step found no link. */
  function Walk(nodes: seq<Node>, v: Id, goLeft: bool, k: nat): (l: Link)
    requires ValidNodes(nodes) && v < |nodes|
    ensures LinkIn(l, |nodes|)
  {
    if k == 0 then Ref(v)
    else
      var w := Walk(nodes, v, goLeft, k - 1);
      if w.Null? then Null else assert NodeIn(nodes[w.id], |nodes|); Step(nodes, w.id, goLeft)
  }

  /** The `k`-th node of the walk exists and is in the blocked state `b`. */
  ghost predicate Continues(nodes: seq<Node>, v: Id, b: bool, goLeft: bool, k: nat)
    requires ValidNodes(nodes) && v < |nodes|
  {
    var w := Walk(nodes, v, goLeft, k);
    w.Ref? && nodes[w.id].blocked == b
  }

  /** The first `d` nodes of the walk, as a set. */
  ghost function WalkSet(nodes: seq<Node>, v: Id, goLeft: bool, d: nat): set<Id>
    requires ValidNodes(nodes) && v < |nodes|
  {
    if d == 0 then {}
    else
      var w := Walk(nodes, v, goLeft, d - 1);
      WalkSet(nodes, v, goLeft, d - 1) + (if w.Ref? then {w.id} else {})
  }

  /** `siblingsAdjacent(b, goLeft)` called on `v`. A node not in state `b` gives null.
      Otherwise the node adds itself to the set its successor returns, and a successor
      that returns null (the caught NullPointerException) or no successor at all gives
      the immutable `{v}`. The recursion has no progress check: each call on a node in
      state `b` spends one unit of `fuel`, the top-level call gives `|nodes|`, and a walk
      that exhausts it provably never ends in Java (`SiblingsAdjacentFaultIsEndless`). */
  function SiblingsAdjacent(nodes: seq<Node>, v: Id, b: bool, goLeft: bool, fuel: nat)
    : (r: Outcome<Option<RunSet>>)
    requires ValidNodes(nodes) && v < |nodes|
    ensures r.Value? ==> (r.value.None? <==> nodes[v].blocked != b)
    ensures r.Value? && r.value.Some? ==>
      && v in r.value.value.members
      && (forall u :: u in r.value.value.members ==> u < |nodes| && nodes[u].blocked == b)
      && (r.value.value.immutable ==> r.value.value.members == {v})
    decreases fuel
  {
    if nodes[v].blocked != b then Value(None)
    else if fuel == 0 then Fault
    else
      var nx := Step(nodes, v, goLeft);
      assert NodeIn(nodes[v], |nodes|);
      if nx.Null? then Value(Some(RunSet({v}, true)))
      else
        match SiblingsAdjacent(nodes, nx.id, b, goLeft, fuel - 1)
        case Fault => Fault
        case Value(None) => Value(Some(RunSet({v}, true)))
        case Value(Some(rest)) => Value(Some(RunSet(rest.members + {v}, false)))
  }

  // ---------------------------------------------------------------------------------
  // What `siblingsAdjacent` computes, stated through the walk

  /** The walk from `v` is the walk from its successor, one step later. */
  lemma {:induction false} WalkShift(nodes: seq<Node>, v: Id, goLeft: bool, k: nat)
    requires ValidNodes(nodes) && v < |nodes| && Step(nodes, v, goLeft).Ref?
    ensures Step(nodes, v, goLeft).id < |nodes|
    ensures Walk(nodes, v, goLeft, k + 1) == Walk(nodes, Step(nodes, v, goLeft).id, goLeft, k)
  {
    assert NodeIn(nodes[v], |nodes|);
    if k > 0 {
      WalkShift(nodes, v, goLeft, k - 1);
    }
  }

  lemma {:induction false} WalkSetShift(nodes: seq<Node>, v: Id, goLeft: bool, d: nat)
    requires ValidNodes(nodes) && v < |nodes| && Step(nodes, v, goLeft).Ref?
    ensures Step(nodes, v, goLeft).id < |nodes|
    ensures WalkSet(nodes, v, goLeft, d + 1)
         == {v} + WalkSet(nodes, Step(nodes, v, goLeft).id, goLeft, d)
  {
    assert NodeIn(nodes[v], |nodes|);
    if d > 0 {
      WalkSetShift(nodes, v, goLeft, d - 1);
      WalkShift(nodes, v, goLeft, d - 1);
    }
  }

  /** The walk from `v` stays in state `b` for its first `d` nodes and stops there:
      its `d`-th node is missing or in the other state. */
  ghost predicate RunEndsAt(nodes: seq<Node>, v: Id, b: bool, goLeft: bool, d: nat)
    requires ValidNodes(nodes) && v < |nodes|
  {
    && (forall i :: 0 <= i < d ==> Continues(nodes, v, b, goLeft, i))
    && !Continues(nodes, v, b, goLeft, d)
  }

  lemma RunEndsAtShift(nodes: seq<Node>, v: Id, b: bool, goLeft: bool, d: nat)
    requires ValidNodes(nodes) && v < |nodes| && Step(nodes, v, goLeft).Ref?
    ensures Step(nodes, v, goLeft).id < |nodes|
    ensures RunEndsAt(nodes, v, b, goLeft, d + 1) <==>
      Continues(nodes, v, b, goLeft, 0) && RunEndsAt(nodes, Step(nodes, v, goLeft).id, b, goLeft, d)
  {
    var w := Step(nodes, v, goLeft).id;
    WalkShift(nodes, v, goLeft, d);
    forall i | 0 <= i
      ensures Continues(nodes, v, b, goLeft, i + 1) == Continues(nodes, w, b, goLeft, i)
    {
      WalkShift(nodes, v, goLeft, i);
    }
    if RunEndsAt(nodes, v, b, goLeft, d + 1) {
      forall i | 0 <= i < d
        ensures Continues(nodes, w, b, goLeft, i)
      {
        assert Continues(nodes, v, b, goLeft, i + 1);
      }
    }
    if Continues(nodes, v, b, goLeft, 0) && RunEndsAt(nodes, w, b, goLeft, d) {
      forall i | 0 <= i < d + 1
        ensures Continues(nodes, v, b, goLeft, i)
      {
        if i > 0 {
          assert Continues(nodes, w, b, goLeft, i - 1);
        }
      }
    }
  }

  /** When the walk from a node in state `b` stops within `fuel` nodes, the result
      is exactly the set of nodes walked before it stopped; it is the immutable set
      exactly when that is `v` alone. */
  lemma {:induction false} SiblingsAdjacentIsRun(
      nodes: seq<Node>, v: Id, b: bool, goLeft: bool, fuel: nat, d: nat)
    requires ValidNodes(nodes) && v < |nodes|
    requires 1 <= d <= fuel && RunEndsAt(nodes, v, b, goLeft, d)
    ensures SiblingsAdjacent(nodes, v, b, goLeft, fuel)
         == Value(Some(RunSet(WalkSet(nodes, v, goLeft, d), d == 1)))
    decreases fuel
  {
    assert Continues(nodes, v, b, goLeft, 0);
    var nx := Step(nodes, v, goLeft);
    if nx.Null? || d == 1 {
      LoneRun(nodes, v, b, goLeft, fuel, d);
    } else {
      RunEndsAtShift(nodes, v, b, goLeft, d - 1);
      SiblingsAdjacentIsRun(nodes, nx.id, b, goLeft, fuel - 1, d - 1);
      LongerRun(nodes, v, b, goLeft, fuel, d);
    }
  }

  /** A run of one node: the immutable `{v}`. */
  lemma LoneRun(nodes: seq<Node>, v: Id, b: bool, goLeft: bool, fuel: nat, d: nat)
    requires ValidNodes(nodes) && v < |nodes|
    requires 1 <= d <= fuel && RunEndsAt(nodes, v, b, goLeft, d)
    requires Step(nodes, v, goLeft).Null? || d == 1
    ensures d == 1 && WalkSet(nodes, v, goLeft, 1) == {v}
    ensures SiblingsAdjacent(nodes, v, b, goLeft, fuel) == Value(Some(RunSet({v}, true)))
  {
    assert Continues(nodes, v, b, goLeft, 0);
    var nx := Step(nodes, v, goLeft);
    assert Walk(nodes, v, goLeft, 1) == nx;
    assert WalkSet(nodes, v, goLeft, 1) == {v};
    if nx.Null? {
      assert !Continues(nodes, v, b, goLeft, 1);
    } else {
      WalkShift(nodes, v, goLeft, 0);
      assert !Continues(nodes, nx.id, b, goLeft, 0);
    }
  }

  /** A run of more than one node: `v` added to the run of its successor. */
  lemma LongerRun(nodes: seq<Node>, v: Id, b: bool, goLeft: bool, fuel: nat, d: nat)
    requires ValidNodes(nodes) && v < |nodes| && nodes[v].blocked == b && 1 < d <= fuel
    requires Step(nodes, v, goLeft).Ref? && Step(nodes, v, goLeft).id < |nodes|
    requires SiblingsAdjacent(nodes, Step(nodes, v, goLeft).id, b, goLeft, fuel - 1)
          == Value(Some(RunSet(WalkSet(nodes, Step(nodes, v, goLeft).id, goLeft, d - 1), d - 1 == 1)))
    ensures SiblingsAdjacent(nodes, v, b, goLeft, fuel)
         == Value(Some(RunSet(WalkSet(nodes, v, goLeft, d), false)))
  {
    var nx := Step(nodes, v, goLeft);
    WalkSetShift(nodes, v, goLeft, d - 1);
    var rest := WalkSet(nodes, nx.id, goLeft, d - 1);
    assert SiblingsAdjacent(nodes, v, b, goLeft, fuel) == Value(Some(RunSet(rest + {v}, false)));
    assert rest + {v} == {v} + rest;
  }

  /** Conversely, every set `siblingsAdjacent` returns is such a run. */
  lemma {:induction false} SiblingsAdjacentOnlyRun(
      nodes: seq<Node>, v: Id, b: bool, goLeft: bool, fuel: nat)
    requires ValidNodes(nodes) && v < |nodes|
    ensures SiblingsAdjacent(nodes, v, b, goLeft, fuel).Value? &&
            SiblingsAdjacent(nodes, v, b, goLeft, fuel).value.Some? ==>
              exists d :: 1 <= d <= fuel && RunEndsAt(nodes, v, b, goLeft, d)
    decreases fuel
  {
    var r := SiblingsAdjacent(nodes, v, b, goLeft, fuel);
    if r.Value? && r.value.Some? {
      var nx := Step(nodes, v, goLeft);
      assert Walk(nodes, v, goLeft, 1) == nx;
      assert Continues(nodes, v, b, goLeft, 0);
      if nx.Null? || SiblingsAdjacent(nodes, nx.id, b, goLeft, fuel - 1) == Value(None) {
        assert RunEndsAt(nodes, v, b, goLeft, 1);
      } else {
        SiblingsAdjacentOnlyRun(nodes, nx.id, b, goLeft, fuel - 1);
        var d :| 1 <= d <= fuel - 1 && RunEndsAt(nodes, nx.id, b, goLeft, d);
        RunEndsAtShift(nodes, v, b, goLeft, d);
      }
    }
  }

  /** `Fault` means the bound was reached: the first `fuel + 1` nodes of the walk are all
      in state `b`. */
  lemma {:induction false} SiblingsAdjacentFault(
      nodes: seq<Node>, v: Id, b: bool, goLeft: bool, fuel: nat)
    requires ValidNodes(nodes) && v < |nodes|
    requires SiblingsAdjacent(nodes, v, b, goLeft, fuel) == Fault
    ensures forall i :: 0 <= i <= fuel ==> Continues(nodes, v, b, goLeft, i)
    decreases fuel
  {
    var nx := Step(nodes, v, goLeft);
    assert Walk(nodes, v, goLeft, 1) == nx;
    assert Continues(nodes, v, b, goLeft, 0);
    if fuel > 0 {
      WalkShift(nodes, v, goLeft, fuel);
      SiblingsAdjacentFault(nodes, nx.id, b, goLeft, fuel - 1);
      forall i | 0 < i <= fuel
        ensures Continues(nodes, v, b, goLeft, i)
      {
        WalkShift(nodes, v, goLeft, i - 1);
        assert Continues(nodes, nx.id, b, goLeft, i - 1);
      }
    }
  }

  /** Once the walk is back at a node it visited, it repeats itself. */
  lemma {:induction false} WalkRepeats(nodes: seq<Node>, v: Id, goLeft: bool, i: nat, j: nat, m: nat)
    requires ValidNodes(nodes) && v < |nodes|
    requires Walk(nodes, v, goLeft, i) == Walk(nodes, v, goLeft, j)
    ensures Walk(nodes, v, goLeft, i + m) == Walk(nodes, v, goLeft, j + m)
  {
    if m > 0 {
      WalkRepeats(nodes, v, goLeft, i, j, m - 1);
    }
  }

  /** With the top-level bound `|nodes|`, `Fault` is exact: the Java recursion goes
      round a cycle of nodes in state `b` and never returns. */
  lemma SiblingsAdjacentFaultIsEndless(nodes: seq<Node>, v: Id, b: bool, goLeft: bool)
    requires ValidNodes(nodes) && v < |nodes|
    requires SiblingsAdjacent(nodes, v, b, goLeft, |nodes|) == Fault
    ensures forall k :: 0 <= k ==> Continues(nodes, v, b, goLeft, k)
  {
    var n := |nodes|;
    SiblingsAdjacentFault(nodes, v, b, goLeft, n);
    var s: seq<nat> := seq(n + 1, k requires 0 <= k <= n =>
      var w := Walk(nodes, v, goLeft, k); if w.Ref? then w.id else 0);
    forall k | 0 <= k < |s|
      ensures s[k] < n
    {
      assert Continues(nodes, v, b, goLeft, k);
    }
    Counting.Pigeonhole(s, n);
    var i, j :| 0 <= i < j < |s| && s[i] == s[j];
    assert Continues(nodes, v, b, goLeft, i) && Continues(nodes, v, b, goLeft, j);
    forall k | 0 <= k
      ensures Continues(nodes, v, b, goLeft, k)
    {
      ContinuesPeriodic(nodes, v, b, goLeft, i, j, k);
    }
  }

  lemma {:induction false} ContinuesPeriodic(
      nodes: seq<Node>, v: Id, b: bool, goLeft: bool, i: nat, j: nat, k: nat)
    requires ValidNodes(nodes) && v < |nodes| && i < j
    requires Walk(nodes, v, goLeft, i) == Walk(nodes, v, goLeft, j)
    requires forall t :: 0 <= t <= j ==> Continues(nodes, v, b, goLeft, t)
    ensures Continues(nodes, v, b, goLeft, k)
    decreases k
  {
    if k > j {
      var m := k - j;
      WalkRepeats(nodes, v, goLeft, i, j, m);
      ContinuesPeriodic(nodes, v, b, goLeft, i, j, i + m);
    }
  }

  /** And a walk that goes on for ever in state `b` does give `Fault`. */
  lemma EndlessIsFault(nodes: seq<Node>, v: Id, b: bool, goLeft: bool, fuel: nat)
    requires ValidNodes(nodes) && v < |nodes|
    requires forall k :: 0 <= k ==> Continues(nodes, v, b, goLeft, k)
    ensures SiblingsAdjacent(nodes, v, b, goLeft, fuel) == Fault
  {
    assert Continues(nodes, v, b, goLeft, 0);
    SiblingsAdjacentOnlyRun(nodes, v, b, goLeft, fuel);
    assert forall d :: 1 <= d <= fuel ==> !RunEndsAt(nodes, v, b, goLeft, d);
  }

  // ---------------------------------------------------------------------------------
  // maximalConsecutiveSetOfSiblingsAdjacent

  /** The run to the left of `v`: `siblingsAdjacent(b, true)` on `prev`, or null. */
  function LeftRun(nodes: seq<Node>, v: Id, b: bool): (r: Outcome<Option<RunSet>>)
    requires ValidNodes(nodes) && v < |nodes|
    ensures nodes[v].prev.Null? ==> r == Value(None)
    ensures r.Value? && r.value.Some? ==>
      forall u :: u in r.value.value.members ==> u < |nodes| && nodes[u].blocked == b
  {
    assert NodeIn(nodes[v], |nodes|);
    if nodes[v].prev.Ref? then SiblingsAdjacent(nodes, nodes[v].prev.id, b, true, |nodes|)
    else Value(None)
  }

  /** The run to the right of `v`: `siblingsAdjacent(b, false)` on `next`, or null. */
  function RightRun(nodes: seq<Node>, v: Id, b: bool): (r: Outcome<Option<RunSet>>)
    requires ValidNodes(nodes) && v < |nodes|
    ensures nodes[v].next.Null? ==> r == Value(None)
    ensures r.Value? && r.value.Some? ==>
      forall u :: u in r.value.value.members ==> u < |nodes| && nodes[u].blocked == b
  {
    assert NodeIn(nodes[v], |nodes|);
    if nodes[v].next.Ref? then SiblingsAdjacent(nodes, nodes[v].next.id, b, false, |nodes|)
    else Value(None)
  }

  function Members(o: Option<RunSet>): set<Id> {
    if o.Some? then o.value.members else {}
  }

  predicate IsImmutable(o: Option<RunSet>) {
    o.Some? && o.value.immutable
  }

  /** `maximalConsecutiveSetOfSiblingsAdjacent(b)` AS WRITTEN. When `v` is in state `b` it
      adds `v` to the side runs, and `add` (or `addAll`) on the immutable one-element set
      a side run may be throws UnsupportedOperationException. */
  function MaximalConsecutiveAsWritten(nodes: seq<Node>, v: Id, b: bool): (r: Outcome<Option<set<Id>>>)
    requires ValidNodes(nodes) && v < |nodes|
    ensures LeftRun(nodes, v, b).Fault? || RightRun(nodes, v, b).Fault? ==> r.Fault?
    ensures nodes[v].blocked != b ==> r == MaximalConsecutive(nodes, v, b)
  {
    var left := LeftRun(nodes, v, b);
    var right := RightRun(nodes, v, b);
    if left.Fault? || right.Fault? then Fault
    else
      var l, rt := left.value, right.value;
      var here := nodes[v].blocked == b;
      if l.None? && rt.Some? then
        if here then (if rt.value.immutable then Fault else Value(Some(rt.value.members + {v})))
        else Value(Some(rt.value.members))
      else if rt.None? && l.Some? then
        if here then (if l.value.immutable then Fault else Value(Some(l.value.members + {v})))
        else Value(Some(l.value.members))
      else if l.None? && rt.None? then Value(None)
      else if here then
        (if l.value.immutable || rt.value.immutable then Fault
         else Value(Some(l.value.members + rt.value.members + {v})))
      else if |l.value.members| > |rt.value.members| then Value(Some(l.value.members))
      else Value(Some(rt.value.members))
  }

  /** `maximalConsecutiveSetOfSiblingsAdjacent(b)` as evidently intended: null when
      neither side has a run; when `v` is in state `b`, the union of both side runs and
      `v`; otherwise the strictly larger side run, the right one on a tie. */
  function MaximalConsecutive(nodes: seq<Node>, v: Id, b: bool): (r: Outcome<Option<set<Id>>>)
    requires ValidNodes(nodes) && v < |nodes|
    ensures r.Fault? <==> LeftRun(nodes, v, b).Fault? || RightRun(nodes, v, b).Fault?
    ensures r.Value? ==>
      (r.value.None? <==> LeftRun(nodes, v, b).value.None? && RightRun(nodes, v, b).value.None?)
    ensures r.Value? && r.value.Some? ==>
      forall u :: u in r.value.value ==> u < |nodes| && nodes[u].blocked == b
  {
    var left := LeftRun(nodes, v, b);
    var right := RightRun(nodes, v, b);
    if left.Fault? || right.Fault? then Fault
    else
      var l, rt := left.value, right.value;
      if l.None? && rt.None? then Value(None)
      else Value(Some(Combined(l, rt, nodes[v].blocked == b, v)))
  }

  /** The run through a node from the runs `l` and `rt` beside it: with the node itself
      (`here`), both runs and the node; otherwise the strictly larger run, the right one on
      a tie. */
  function Combined(l: Option<RunSet>, rt: Option<RunSet>, here: bool, v: Id): (m: set<Id>)
    ensures m <= Members(l) + Members(rt) + (if here then {v} else {})
  {
    if here then Members(l) + Members(rt) + {v}
    else if l.None? then Members(rt)
    else if rt.None? then Members(l)
    else if |l.value.members| > |rt.value.members| then Members(l)
    else Members(rt)
  }

  /** When `v` is in state `b`, the run through `v` is both side runs and `v` itself. */
  lemma MaximalConsecutiveJoins(nodes: seq<Node>, v: Id, b: bool)
    requires ValidNodes(nodes) && v < |nodes| && nodes[v].blocked == b
    requires MaximalConsecutive(nodes, v, b).Value?
    ensures var l, rt := LeftRun(nodes, v, b).value, RightRun(nodes, v, b).value;
      MaximalConsecutive(nodes, v, b).value ==
        if l.None? && rt.None? then None else Some(Members(l) + Members(rt) + {v})
  {
  }

  /** When `v` is not in state `b`, the result is the larger side run, the right one
      when the two are equally large. */
  lemma MaximalConsecutiveChoosesLarger(nodes: seq<Node>, v: Id, b: bool)
    requires ValidNodes(nodes) && v < |nodes| && nodes[v].blocked != b
    requires MaximalConsecutive(nodes, v, b).Value? && MaximalConsecutive(nodes, v, b).value.Some?
    ensures var l, rt := LeftRun(nodes, v, b).value, RightRun(nodes, v, b).value;
      var m := MaximalConsecutive(nodes, v, b).value.value;
      && (m == Members(l) || m == Members(rt))
      && |m| >= |Members(l)| && |m| >= |Members(rt)|
      && (|Members(l)| == |Members(rt)| ==> m == Members(rt))
      && v !in m
  {
  }

  /** The code as written fails exactly where the intended computation fails, or where
      `v` is in state `b` and one of the side runs is its one-element immutable set;
      otherwise the two agree. */
  lemma MaximalConsecutiveAsWrittenFaults(nodes: seq<Node>, v: Id, b: bool)
    requires ValidNodes(nodes) && v < |nodes|
    ensures var l, rt := LeftRun(nodes, v, b), RightRun(nodes, v, b);
      MaximalConsecutiveAsWritten(nodes, v, b).Fault? <==>
        || MaximalConsecutive(nodes, v, b).Fault?
        || (nodes[v].blocked == b && l.Value? && rt.Value?
            && (IsImmutable(l.value) || IsImmutable(rt.value)))
    ensures MaximalConsecutiveAsWritten(nodes, v, b).Value? ==>
      MaximalConsecutiveAsWritten(nodes, v, b) == MaximalConsecutive(nodes, v, b)
  {
    var l, rt := LeftRun(nodes, v, b), RightRun(nodes, v, b);
    if l.Value? && rt.Value? && (l.value.Some? || rt.value.Some?) {
      var here := nodes[v].blocked == b;
      var m := Combined(l.value, rt.value, here, v);
      if here && l.value.None? {
        assert m == rt.value.value.members + {v};
      } else if here && rt.value.None? {
        assert m == l.value.value.members + {v};
      }
    }
  }

  /** A concrete input where the code as written throws: node 0 is blocked, has no `next`,
      and its `prev` (node 1, blocked) is followed on the left by the unblocked node 2.
      The left run is the immutable `{1}`, so adding node 0 to it throws, while the
      intended result is `{0, 1}`. */
  lemma MaximalConsecutiveAsWrittenThrows()
    ensures var nodes := [
        Fresh(Leaf, Empty).(blocked := true, prev := Ref(1)),
        Fresh(Leaf, Empty).(blocked := true, prev := Ref(2), next := Ref(0)),
        Fresh(Leaf, Empty)];
      && ValidNodes(nodes)
      && MaximalConsecutiveAsWritten(nodes, 0, true) == Fault
      && MaximalConsecutive(nodes, 0, true) == Value(Some({0, 1}))
  {
    var nodes := [
        Fresh(Leaf, Empty).(blocked := true, prev := Ref(1)),
        Fresh(Leaf, Empty).(blocked := true, prev := Ref(2), next := Ref(0)),
        Fresh(Leaf, Empty)];
    assert ValidNodes(nodes) by {
      forall i | 0 <= i < |nodes|
        ensures NodeIn(nodes[i], |nodes|)
      {
      }
    }
    assert SiblingsAdjacent(nodes, 2, true, true, 2) == Value(None);
    assert SiblingsAdjacent(nodes, 1, true, true, 3) == Value(Some(RunSet({1}, true)));
    assert LeftRun(nodes, 0, true) == Value(Some(RunSet({1}, true)));
    assert RightRun(nodes, 0, true) == Value(None);
    assert MaximalConsecutiveAsWritten(nodes, 0, true) == Fault;
    assert Combined(Some(RunSet({1}, true)), None, true, 0) == {1} + {} + {0};
    assert MaximalConsecutive(nodes, 0, true) == Value(Some({1} + {} + {0}));
    assert {1} + {} + {0} == {0, 1};
  }
}

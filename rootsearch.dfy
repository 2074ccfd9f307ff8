/** `root(T, S)` of pqtree/PQTree.java: the search for the root of the pertinent subtree.
    Every member of S climbs towards `T`, recording the ancestors it passes; an ancestor
    already recorded is recorded a second time and stops that climb. Of the ancestors
    recorded twice, the one fewest parent steps below `T` wins, the first one found on a
    tie. The search reads the tree and changes nothing. */
module PertinentRoot {
  import opened Outcomes
  import opened PQNodes
  import Counting

  /** What both phases keep of the first one: the ancestors passed (`nodesReached`) and
      those passed a second time (`nodesSame`). Both may hold the null link. */
  datatype Gathered = Gathered(reached: seq<Link>, same: seq<Link>)

  /** What the second phase keeps: the best node so far (`lowestDepthNode`) and its depth
      (`lowestDepth`). */
  datatype Best = Best(node: Link, depth: int)

  /** `Integer.MAX_VALUE`, the depth the second phase starts from. */
  const IntMax := 0x7fff_ffff

  predicate LinksIn(ls: seq<Link>, n: nat) {
    forall l :: l in ls ==> LinkIn(l, n)
  }

  /** Every link a traversal can hold: null or one of the `n` nodes. */
  ghost function Links(n: nat): set<Link> {
    {Null} + set i | 0 <= i < n :: Ref(i)
  }

  lemma LinkInLinks(l: Link, n: nat)
    requires LinkIn(l, n)
    ensures l in Links(n)
  {
    if l.Ref? {
      assert Ref(l.id) in set i | 0 <= i < n :: Ref(i);
    }
  }

  // ---------------------------------------------------------------------------------
  // The walk up the tree

  /** The link reached from `l` after `k` parent steps; null stays null. */
  function Up(nodes: seq<Node>, l: Link, k: nat): (r: Link)
    requires ValidNodes(nodes) && LinkIn(l, |nodes|)
    ensures LinkIn(r, |nodes|)
    decreases k
  {
    if k == 0 || l.Null? then l
    else
      assert NodeIn(nodes[l.id], |nodes|);
      Up(nodes, nodes[l.id].parent, k - 1)
  }

  /** The second-phase loop on one node (PQTree.java:208-212): the number of parent steps
      from `l` up to `T`. Reading the parent of null throws; a walk that has taken `fuel`
      steps without reaching `T` is declared a fault, and with the fuel `root` gives
      (`|nodes|`) such a walk never reaches `T` (`DepthFaultNeverReaches`). */
  function Depth(nodes: seq<Node>, l: Link, t: Id, fuel: nat): (r: Outcome<nat>)
    requires ValidNodes(nodes) && LinkIn(l, |nodes|)
    ensures r.Value? ==> r.value <= fuel
    decreases fuel
  {
    if l == Ref(t) then Value(0)
    else if l.Null? || fuel == 0 then Fault
    else
      assert NodeIn(nodes[l.id], |nodes|);
      match Depth(nodes, nodes[l.id].parent, t, fuel - 1)
      case Fault => Fault
      case Value(d) => Value(d + 1)
  }

  /** A depth is the length of the walk: `T` is reached after exactly that many steps, and
      no earlier step is `T` or null. */
  lemma {:induction false} DepthIsWalk(nodes: seq<Node>, l: Link, t: Id, fuel: nat)
    requires ValidNodes(nodes) && LinkIn(l, |nodes|) && Depth(nodes, l, t, fuel).Value?
    ensures var d := Depth(nodes, l, t, fuel).value;
      && Up(nodes, l, d) == Ref(t)
      && forall j :: 0 <= j < d ==> Up(nodes, l, j).Ref? && Up(nodes, l, j) != Ref(t)
    decreases fuel
  {
    if l != Ref(t) {
      assert NodeIn(nodes[l.id], |nodes|);
      var p := nodes[l.id].parent;
      DepthIsWalk(nodes, p, t, fuel - 1);
      var d := Depth(nodes, l, t, fuel).value;
      forall j | 0 <= j < d
        ensures Up(nodes, l, j).Ref? && Up(nodes, l, j) != Ref(t)
      {
        if j > 0 {
          assert Up(nodes, l, j) == Up(nodes, p, j - 1);
        }
      }
    }
  }

  /** A depth that is a fault with fuel `fuel` means a null link is read first, or the
      walk stays on nodes other than `T` for `fuel + 1` steps. */
  lemma {:induction false} DepthFault(nodes: seq<Node>, l: Link, t: Id, fuel: nat)
    requires ValidNodes(nodes) && LinkIn(l, |nodes|) && Depth(nodes, l, t, fuel) == Fault
    ensures forall j :: 0 <= j <= fuel ==> Up(nodes, l, j) != Ref(t)
    decreases fuel
  {
    if l.Ref? && fuel > 0 {
      assert NodeIn(nodes[l.id], |nodes|);
      var p := nodes[l.id].parent;
      DepthFault(nodes, p, t, fuel - 1);
      forall j | 0 < j <= fuel
        ensures Up(nodes, l, j) != Ref(t)
      {
        assert Up(nodes, l, j) == Up(nodes, p, j - 1);
      }
    } else if l.Null? {
      forall j | 0 <= j <= fuel
        ensures Up(nodes, l, j) != Ref(t)
      {
        UpNull(nodes, j);
      }
    }
  }

  lemma {:induction false} UpNull(nodes: seq<Node>, k: nat)
    requires ValidNodes(nodes)
    ensures Up(nodes, Null, k) == Null
  {
  }

  /** `k + m` steps are `k` steps, then `m` more. */
  lemma {:induction false} UpAdd(nodes: seq<Node>, l: Link, k: nat, m: nat)
    requires ValidNodes(nodes) && LinkIn(l, |nodes|)
    ensures Up(nodes, l, k + m) == Up(nodes, Up(nodes, l, k), m)
    decreases k
  {
    if k > 0 && l.Ref? {
      assert NodeIn(nodes[l.id], |nodes|);
      UpAdd(nodes, nodes[l.id].parent, k - 1, m);
    } else if k > 0 {
      UpNull(nodes, k + m);
      UpNull(nodes, k);
      UpNull(nodes, m);
    }
  }

  /** With the fuel `root` gives, a fault means the Java loop never reaches `T`: it
      throws on a null parent or goes round a cycle of parents for ever. */
  lemma DepthFaultNeverReaches(nodes: seq<Node>, l: Link, t: Id)
    requires ValidNodes(nodes) && LinkIn(l, |nodes|) && |nodes| > 0
    requires Depth(nodes, l, t, |nodes|) == Fault
    ensures forall k :: 0 <= k ==> Up(nodes, l, k) != Ref(t)
  {
    var n := |nodes|;
    DepthFault(nodes, l, t, n);
    if exists j :: 0 <= j <= n && Up(nodes, l, j).Null? {
      var j :| 0 <= j <= n && Up(nodes, l, j).Null?;
      forall k | k > n
        ensures Up(nodes, l, k) != Ref(t)
      {
        UpAdd(nodes, l, j, k - j);
        UpNull(nodes, k - j);
      }
    } else {
      var s: seq<nat> := seq(n + 1, k requires 0 <= k <= n => Up(nodes, l, k).id);
      Counting.Pigeonhole(s, n);
      var i, j :| 0 <= i < j < |s| && s[i] == s[j];
      assert Up(nodes, l, i) == Up(nodes, l, j);
      forall k | k > n
        ensures Up(nodes, l, k) != Ref(t)
      {
        UpPeriodic(nodes, l, t, i, j, k);
      }
    }
  }

  /** Once the walk is back at a link it held, it holds only links it held before. */
  lemma {:induction false} UpPeriodic(nodes: seq<Node>, l: Link, t: Id, i: nat, j: nat, k: nat)
    requires ValidNodes(nodes) && LinkIn(l, |nodes|) && i < j
    requires Up(nodes, l, i) == Up(nodes, l, j)
    requires forall m :: 0 <= m <= j ==> Up(nodes, l, m) != Ref(t)
    ensures Up(nodes, l, k) != Ref(t)
    decreases k
  {
    if k > j {
      UpAdd(nodes, l, j, k - j);
      UpAdd(nodes, l, i, k - j);
      UpPeriodic(nodes, l, t, i, j, i + (k - j));
    }
  }

  // ---------------------------------------------------------------------------------
  // The first phase: climbing from every member of S

  /** The inner loop of the first phase for one climb (PQTree.java:195-204), from `trav`:
      until `T` is reached, step to the parent (a fault on null); a parent already in
      `reached` goes to `same` and ends the climb; any other joins `reached`. */
  function Climb(nodes: seq<Node>, t: Id, trav: Link, g: Gathered): (r: Outcome<Gathered>)
    requires ValidNodes(nodes) && LinkIn(trav, |nodes|)
    requires LinksIn(g.reached, |nodes|) && LinksIn(g.same, |nodes|)
    ensures r.Value? ==> LinksIn(r.value.reached, |nodes|) && LinksIn(r.value.same, |nodes|)
    ensures r.Value? ==>
      && g.reached <= r.value.reached
      && (r.value.same == g.same || (|r.value.same| == |g.same| + 1 && r.value.same[..|g.same|] == g.same
                                     && r.value.same[|g.same|] in r.value.reached))
    decreases Links(|nodes|) - set l | l in g.reached
  {
    if trav == Ref(t) then Value(g)
    else if trav.Null? then Fault
    else
      assert NodeIn(nodes[trav.id], |nodes|);
      var p := nodes[trav.id].parent;
      if p in g.reached then
        assert (g.same + [p])[..|g.same|] == g.same;
        Value(Gathered(g.reached, g.same + [p]))
      else
        LinkInLinks(p, |nodes|);
        assert (set l | l in g.reached + [p]) == (set l | l in g.reached) + {p};
        Climb(nodes, t, p, Gathered(g.reached + [p], g.same))
  }

  /** The first phase over the members of `S` in order (PQTree.java:194-205). */
  function Gather(nodes: seq<Node>, t: Id, S: seq<Id>): (r: Outcome<Gathered>)
    requires ValidNodes(nodes) && AllIn(S, |nodes|)
    ensures r.Value? ==> LinksIn(r.value.reached, |nodes|) && LinksIn(r.value.same, |nodes|)
  {
    if S == [] then Value(Gathered([], []))
    else
      PrefixAllIn(S, |nodes|, |S| - 1);
      assert S[|S| - 1] in S;
      match Gather(nodes, t, S[..|S| - 1])
      case Fault => Fault
      case Value(g) => Climb(nodes, t, Ref(S[|S| - 1]), g)
  }

  /** Every link recorded a second time was recorded a first time. */
  lemma {:induction false} GatherSameReached(nodes: seq<Node>, t: Id, S: seq<Id>)
    requires ValidNodes(nodes) && AllIn(S, |nodes|) && Gather(nodes, t, S).Value?
    ensures forall l :: l in Gather(nodes, t, S).value.same ==> l in Gather(nodes, t, S).value.reached
  {
    if S != [] {
      var init := S[..|S| - 1];
      PrefixAllIn(S, |nodes|, |S| - 1);
      assert S[|S| - 1] in S;
      GatherSameReached(nodes, t, init);
      var g := Gather(nodes, t, init).value;
      var h := Gather(nodes, t, S).value;
      forall l | l in h.same
        ensures l in h.reached
      {
        if l in g.same {
          assert l in g.reached;
        } else {
          assert h.same != g.same && l == h.same[|g.same|];
        }
      }
    }
  }

  // ---------------------------------------------------------------------------------
  // The second phase: the lowest of the links recorded twice

  /** The second phase over `same` in order (PQTree.java:207-217): a node replaces the
      best so far only when strictly less deep, so the first of the least deep stays. */
  function Lowest(nodes: seq<Node>, t: Id, same: seq<Link>): (r: Outcome<Best>)
    requires ValidNodes(nodes) && LinksIn(same, |nodes|)
    ensures r.Value? ==> LinkIn(r.value.node, |nodes|)
  {
    if same == [] then Value(Best(Null, IntMax))
    else
      assert forall l :: l in same[..|same| - 1] ==> l in same;
      var n := same[|same| - 1];
      assert n in same;
      match Lowest(nodes, t, same[..|same| - 1])
      case Fault => Fault
      case Value(b) =>
        match Depth(nodes, n, t, |nodes|)
        case Fault => Fault
        case Value(d) => if b.depth > d then Value(Best(n, d)) else Value(b)
  }

  /** All of `same` have a depth up to `T`. */
  ghost predicate AllDeep(nodes: seq<Node>, t: Id, same: seq<Link>)
    requires ValidNodes(nodes) && LinksIn(same, |nodes|)
  {
    forall j :: 0 <= j < |same| ==> (assert same[j] in same; Depth(nodes, same[j], t, |nodes|).Value?)
  }

  function DepthAt(nodes: seq<Node>, t: Id, same: seq<Link>, j: nat): int
    requires ValidNodes(nodes) && LinksIn(same, |nodes|) && AllDeep(nodes, t, same) && j < |same|
  {
    assert same[j] in same;
    Depth(nodes, same[j], t, |nodes|).value
  }

  /** What the second phase finds: every link has a depth; the best is null at depth
      `IntMax` when no depth is below `IntMax`, and otherwise the first link of least
      depth, with that depth. */
  lemma {:induction false} LowestIsFirstLeast(nodes: seq<Node>, t: Id, same: seq<Link>)
    requires ValidNodes(nodes) && LinksIn(same, |nodes|) && Lowest(nodes, t, same).Value?
    ensures AllDeep(nodes, t, same)
    ensures var b := Lowest(nodes, t, same).value;
      || (b == Best(Null, IntMax) && forall j :: 0 <= j < |same| ==> DepthAt(nodes, t, same, j) >= IntMax)
      || exists k: nat :: k < |same| && FirstLeastAt(nodes, t, same, k) && b == Best(same[k], DepthAt(nodes, t, same, k))
  {
    if same != [] {
      var init := same[..|same| - 1];
      assert forall l :: l in init ==> l in same;
      LowestIsFirstLeast(nodes, t, init);
      var n := same[|same| - 1];
      assert n in same;
      var b := Lowest(nodes, t, init).value;
      var d := Depth(nodes, n, t, |nodes|).value;
      forall j | 0 <= j < |same|
        ensures assert same[j] in same; Depth(nodes, same[j], t, |nodes|).Value?
      {
        if j < |init| {
          assert same[j] == init[j] && init[j] in init;
        }
      }
      DepthAtPrefix(nodes, t, same);
      assert d == DepthAt(nodes, t, same, |init|);
      if b.depth > d {
        if b == Best(Null, IntMax) {
          assert forall j :: 0 <= j < |init| ==> DepthAt(nodes, t, same, j) >= b.depth;
        } else {
          var k: nat :| k < |init| && FirstLeastAt(nodes, t, init, k) && b == Best(init[k], DepthAt(nodes, t, init, k));
          assert forall j :: 0 <= j < |init| ==> DepthAt(nodes, t, same, j) >= b.depth;
        }
        LeastIsNew(nodes, t, same, b.depth);
      } else if b == Best(Null, IntMax) {
        assert forall j :: 0 <= j < |same| ==> DepthAt(nodes, t, same, j) >= IntMax;
      } else {
        var k: nat :| k < |init| && FirstLeastAt(nodes, t, init, k) && b == Best(init[k], DepthAt(nodes, t, init, k));
        LeastIsKept(nodes, t, same, k);
      }
    }
  }

  /** A last link less deep than every other is the first least deep one. */
  lemma LeastIsNew(nodes: seq<Node>, t: Id, same: seq<Link>, bound: int)
    requires ValidNodes(nodes) && LinksIn(same, |nodes|) && AllDeep(nodes, t, same) && |same| > 0
    requires forall j :: 0 <= j < |same| - 1 ==> DepthAt(nodes, t, same, j) >= bound
    requires bound > DepthAt(nodes, t, same, |same| - 1)
    ensures FirstLeastAt(nodes, t, same, |same| - 1)
  {
  }

  /** The first least deep link of the prefix stays first when the last link is no less deep. */
  lemma LeastIsKept(nodes: seq<Node>, t: Id, same: seq<Link>, k: nat)
    requires ValidNodes(nodes) && LinksIn(same, |nodes|) && AllDeep(nodes, t, same) && |same| > 0
    requires LinksIn(same[..|same| - 1], |nodes|) && AllDeep(nodes, t, same[..|same| - 1])
    requires forall j :: 0 <= j < |same| - 1 ==>
      DepthAt(nodes, t, same[..|same| - 1], j) == DepthAt(nodes, t, same, j)
    requires FirstLeastAt(nodes, t, same[..|same| - 1], k)
    requires DepthAt(nodes, t, same, k) <= DepthAt(nodes, t, same, |same| - 1)
    ensures FirstLeastAt(nodes, t, same, k)
  {
  }

  /** `same[k]` has the least depth of all of `same`, and every link before it is deeper. */
  ghost predicate FirstLeastAt(nodes: seq<Node>, t: Id, same: seq<Link>, k: nat)
    requires ValidNodes(nodes) && LinksIn(same, |nodes|) && AllDeep(nodes, t, same)
  {
    && k < |same|
    && (forall j :: 0 <= j < |same| ==> DepthAt(nodes, t, same, j) >= DepthAt(nodes, t, same, k))
    && (forall j :: 0 <= j < k ==> DepthAt(nodes, t, same, j) > DepthAt(nodes, t, same, k))
  }

  lemma DepthAtPrefix(nodes: seq<Node>, t: Id, same: seq<Link>)
    requires ValidNodes(nodes) && LinksIn(same, |nodes|) && AllDeep(nodes, t, same) && |same| > 0
    ensures LinksIn(same[..|same| - 1], |nodes|) && AllDeep(nodes, t, same[..|same| - 1])
    ensures forall j :: 0 <= j < |same| - 1 ==>
      DepthAt(nodes, t, same[..|same| - 1], j) == DepthAt(nodes, t, same, j)
  {
    var init := same[..|same| - 1];
    assert forall l :: l in init ==> l in same;
    forall j | 0 <= j < |init|
      ensures assert init[j] in init; Depth(nodes, init[j], t, |nodes|).Value?
    {
      assert init[j] == same[j] && same[j] in same;
    }
  }

  // ---------------------------------------------------------------------------------
  // The whole search

  /** `root(T, S)`: null for an empty S, the one member of a singleton S, and otherwise
      the best link of the second phase, or the first link recorded twice when that best
      is null (`nodesSame.get(0)`, which throws when there is none). */
  function RootOf(nodes: seq<Node>, t: Id, S: seq<Id>): (r: Outcome<Link>)
    requires ValidNodes(nodes) && AllIn(S, |nodes|)
  {
    if |S| == 0 then Value(Null)
    else if |S| == 1 then Value(Ref(S[0]))
    else
      match Gather(nodes, t, S)
      case Fault => Fault
      case Value(g) =>
        match Lowest(nodes, t, g.same)
        case Fault => Fault
        case Value(b) =>
          if b.node.Ref? then Value(b.node)
          else if |g.same| == 0 then Fault
          else Value(g.same[0])
  }

  /** What `root` promises: null for an empty S and the member of a singleton S; for more,
      a node recorded twice in the first phase with a depth up to `T` that no other node
      recorded twice undercuts, and that is the first such node. A fault when no node is
      recorded twice. */
  lemma RootOfIsFirstLowest(nodes: seq<Node>, t: Id, S: seq<Id>)
    requires ValidNodes(nodes) && AllIn(S, |nodes|) && |nodes| < IntMax
    ensures |S| == 0 ==> RootOf(nodes, t, S) == Value(Null)
    ensures |S| == 1 ==> RootOf(nodes, t, S) == Value(Ref(S[0]))
    ensures |S| >= 2 && Gather(nodes, t, S).Value? && Gather(nodes, t, S).value.same == [] ==>
      RootOf(nodes, t, S) == Fault
    ensures |S| >= 2 && RootOf(nodes, t, S).Value? ==>
      && Gather(nodes, t, S).Value?
      && var same := Gather(nodes, t, S).value.same;
      && AllDeep(nodes, t, same)
      && exists k: nat :: k < |same| && FirstLeastAt(nodes, t, same, k) && RootOf(nodes, t, S) == Value(same[k])
  {
    if |S| >= 2 && Gather(nodes, t, S).Value? {
      var same := Gather(nodes, t, S).value.same;
      if Lowest(nodes, t, same).Value? {
        LowestIsFirstLeast(nodes, t, same);
        if same != [] {
          assert same[0] in same;
          assert DepthAt(nodes, t, same, 0) <= |nodes|;
        }
      }
    }
  }

  // ---------------------------------------------------------------------------------
  // The method, with the loops of PQTree.java:180-226

  /** `root(T, S)`. */
  method Root(a: Arena, t: Id, S: seq<Id>) returns (r: Outcome<Link>)
    requires a.Valid() && t < |a.nodes| && AllIn(S, |a.nodes|)
    ensures r == RootOf(a.nodes, t, S)
  {
    if |S| == 0 {
      return Value(Null);
    }
    if |S| == 1 {
      return Value(Ref(S[0]));
    }
    var g := GatherAll(a, t, S);
    if g.Fault? {
      return Fault;
    }
    var b := LowestOf(a, t, g.value.same);
    if b.Fault? {
      return Fault;
    }
    if b.value.node.Null? {
      if |g.value.same| == 0 {
        return Fault;
      }
      return Value(g.value.same[0]);
    }
    return Value(b.value.node);
  }

  /** The first phase of `root` (PQTree.java:194-205). */
  method GatherAll(a: Arena, t: Id, S: seq<Id>) returns (r: Outcome<Gathered>)
    requires a.Valid() && AllIn(S, |a.nodes|)
    ensures r == Gather(a.nodes, t, S)
  {
    var g := Gathered([], []);
    for i := 0 to |S|
      invariant LinksIn(g.reached, |a.nodes|) && LinksIn(g.same, |a.nodes|)
      invariant AllIn(S[..i], |a.nodes|) && Gather(a.nodes, t, S[..i]) == Value(g)
    {
      assert S[i] in S;
      var c := ClimbFrom(a, t, S[i], g);
      assert S[..i + 1][..i] == S[..i];
      PrefixAllIn(S, |a.nodes|, i + 1);
      if c.Fault? {
        GatherFaultStays(a.nodes, t, S, i + 1);
        return Fault;
      }
      g := c.value;
    }
    assert S[..|S|] == S;
    return Value(g);
  }

  /** The second phase of `root` (PQTree.java:207-217). */
  method LowestOf(a: Arena, t: Id, same: seq<Link>) returns (r: Outcome<Best>)
    requires a.Valid() && LinksIn(same, |a.nodes|)
    ensures r == Lowest(a.nodes, t, same)
  {
    var b := Best(Null, IntMax);
    for i := 0 to |same|
      invariant LinksIn(same[..i], |a.nodes|) && Lowest(a.nodes, t, same[..i]) == Value(b)
    {
      assert same[i] in same;
      var d := DepthOf(a, same[i], t);
      assert same[..i + 1][..i] == same[..i];
      assert forall l :: l in same[..i + 1] ==> l in same;
      if d.Fault? {
        LowestFaultStays(a.nodes, t, same, i + 1);
        return Fault;
      }
      if b.depth > d.value {
        b := Best(same[i], d.value);
      }
    }
    assert same[..|same|] == same;
    return Value(b);
  }

  /** The inner loop of the first phase, for the member `s` of S. */
  method ClimbFrom(a: Arena, t: Id, s: Id, g0: Gathered) returns (r: Outcome<Gathered>)
    requires a.Valid() && s < |a.nodes| && LinksIn(g0.reached, |a.nodes|) && LinksIn(g0.same, |a.nodes|)
    ensures r == Climb(a.nodes, t, Ref(s), g0)
  {
    var trav := Ref(s);
    var g := g0;
    while trav != Ref(t)
      invariant LinkIn(trav, |a.nodes|) && LinksIn(g.reached, |a.nodes|) && LinksIn(g.same, |a.nodes|)
      invariant Climb(a.nodes, t, trav, g) == Climb(a.nodes, t, Ref(s), g0)
      decreases Links(|a.nodes|) - set l | l in g.reached
    {
      if trav.Null? {
        return Fault;
      }
      assert NodeIn(a.nodes[trav.id], |a.nodes|);
      trav := a.nodes[trav.id].parent;
      if trav in g.reached {
        return Value(Gathered(g.reached, g.same + [trav]));
      }
      LinkInLinks(trav, |a.nodes|);
      assert (set l | l in g.reached + [trav]) == (set l | l in g.reached) + {trav};
      g := Gathered(g.reached + [trav], g.same);
    }
    return Value(g);
  }

  /** The inner loop of the second phase: the parent steps from `l` up to `T`, with the
      bound `Depth` uses. */
  method DepthOf(a: Arena, l: Link, t: Id) returns (r: Outcome<nat>)
    requires a.Valid() && LinkIn(l, |a.nodes|)
    ensures r == Depth(a.nodes, l, t, |a.nodes|)
  {
    var trav := l;
    var d := 0;
    while trav != Ref(t)
      invariant d <= |a.nodes| && LinkIn(trav, |a.nodes|)
      invariant Depth(a.nodes, l, t, |a.nodes|) == Shifted(Depth(a.nodes, trav, t, |a.nodes| - d), d)
      decreases |a.nodes| - d
    {
      if trav.Null? || d == |a.nodes| {
        return Fault;
      }
      assert NodeIn(a.nodes[trav.id], |a.nodes|);
      trav := a.nodes[trav.id].parent;
      d := d + 1;
    }
    return Value(d);
  }

  function Shifted(o: Outcome<nat>, d: nat): Outcome<nat> {
    if o.Fault? then Fault else Value(o.value + d)
  }

  lemma {:induction false} GatherFaultStays(nodes: seq<Node>, t: Id, S: seq<Id>, i: nat)
    requires ValidNodes(nodes) && AllIn(S, |nodes|) && 0 < i <= |S|
    requires AllIn(S[..i], |nodes|) && Gather(nodes, t, S[..i]) == Fault
    ensures Gather(nodes, t, S) == Fault
    decreases |S| - i
  {
    if i < |S| {
      PrefixAllIn(S, |nodes|, i + 1);
      assert S[..i + 1][..i] == S[..i];
      GatherFaultStays(nodes, t, S, i + 1);
    } else {
      assert S[..i] == S;
    }
  }

  lemma {:induction false} LowestFaultStays(nodes: seq<Node>, t: Id, same: seq<Link>, i: nat)
    requires ValidNodes(nodes) && LinksIn(same, |nodes|) && 0 < i <= |same|
    requires LinksIn(same[..i], |nodes|) && Lowest(nodes, t, same[..i]) == Fault
    ensures Lowest(nodes, t, same) == Fault
    decreases |same| - i
  {
    if i < |same| {
      assert forall l :: l in same[..i + 1] ==> l in same;
      assert same[..i + 1][..i] == same[..i];
      LowestFaultStays(nodes, t, same, i + 1);
    } else {
      assert same[..i] == same;
    }
  }
}

/** The scan in the matching phase of `TEMPLATE_Q3` (pqtree/PQTree.java): one pass over
    the children of the Q-node, in order, with a counter `flips` of label changes seen,
    collecting the EMPTY children before the first PARTIAL one (`leftEmpties`) and those
    after the second (`rightEmpties`). The template it checks for is
    EMPTY* PARTIAL FULL* PARTIAL EMPTY*. */
module Q3Scanner {
  import opened Outcomes
  import opened PQNodes

  /** The variables of the scan loop. */
  datatype ScanState = ScanState(flips: nat, left: seq<Id>, right: seq<Id>)

  const Start := ScanState(0, [], [])

  /** The label of position `i` of `cs`. */
  function MarkAt(nodes: seq<Node>, cs: seq<Id>, i: nat): (l: Label)
    requires AllIn(cs, |nodes|) && i < |cs|
    ensures cs[i] < |nodes| && l == nodes[cs[i]].mark
  {
    assert cs[i] in cs;
    nodes[cs[i]].mark
  }

  /** One turn of the loop body on child `n` with label `l`; `None` is `return false`.
      With `corrected` false this is the code as written, where a PARTIAL child read
      with `flips == 1` leaves `flips` at 1; with `corrected` true that second PARTIAL
      child moves the scan on to `flips == 3`, as when FULL children come between the
      two. */
  function Step(corrected: bool, s: ScanState, n: Id, l: Label): (r: Option<ScanState>)
    ensures r.Some? ==> s.flips <= r.value.flips
    ensures r.Some? ==> |r.value.left| + |r.value.right| <= |s.left| + |s.right| + 1
  {
    if s.flips == 0 then
      if l == Partial then Some(s.(flips := 1))
      else if l != Empty then None
      else Some(s.(left := s.left + [n]))
    else if s.flips == 1 then
      if l == Full then Some(s.(flips := 2))
      else if l != Partial then None
      else if corrected then Some(s.(flips := 3))
      else Some(s)
    else if s.flips == 2 then
      if l == Partial then Some(s.(flips := 3))
      else if l != Full then None
      else Some(s)
    else if s.flips == 3 then
      if l == Empty then Some(s.(flips := 4, right := s.right + [n]))
      else if l != Partial then None
      else Some(s)
    else
      if l != Empty then None
      else Some(s.(right := s.right + [n]))
  }

  /** The loop over the whole children list `cs`: the final variables, or `None` when it
      returns false. */
  function Scan(corrected: bool, nodes: seq<Node>, cs: seq<Id>): (r: Option<ScanState>)
    requires AllIn(cs, |nodes|)
    ensures r.Some? ==> |r.value.left| + |r.value.right| <= |cs|
  {
    if cs == [] then Some(Start)
    else
      var init, last := cs[..|cs| - 1], cs[|cs| - 1];
      assert forall c :: c in init ==> c in cs;
      assert last in cs;
      match Scan(corrected, nodes, init)
      case None => None
      case Some(s) => Step(corrected, s, last, nodes[last].mark)
  }

  /** `cs` is `a` EMPTY children, a PARTIAL one, `b` FULL ones, a PARTIAL one and then
      only EMPTY ones: the template of Q3. */
  ghost predicate Q3Shape(nodes: seq<Node>, cs: seq<Id>, a: nat, b: nat)
    requires AllIn(cs, |nodes|)
  {
    && a + b + 2 <= |cs|
    && (forall i :: 0 <= i < a ==> MarkAt(nodes, cs, i) == Empty)
    && MarkAt(nodes, cs, a) == Partial
    && (forall i :: a < i <= a + b ==> MarkAt(nodes, cs, i) == Full)
    && MarkAt(nodes, cs, a + b + 1) == Partial
    && (forall i :: a + b + 1 < i < |cs| ==> MarkAt(nodes, cs, i) == Empty)
  }

  lemma PrefixIn(cs: seq<Id>, n: nat, k: nat)
    requires AllIn(cs, n) && k <= |cs|
    ensures AllIn(cs[..k], n)
  {
    assert forall c :: c in cs[..k] ==> c in cs;
  }

  lemma SuffixIn(cs: seq<Id>, n: nat, k: nat)
    requires AllIn(cs, n) && k <= |cs|
    ensures AllIn(cs[k..], n)
  {
    forall c | c in cs[k..]
      ensures c < n
    {
      var i :| 0 <= i < |cs[k..]| && cs[k..][i] == c;
      assert cs[k + i] in cs;
    }
  }

  /** The scan of one child more. */
  lemma ScanSnoc(corrected: bool, nodes: seq<Node>, cs: seq<Id>, i: nat)
    requires AllIn(cs, |nodes|) && i < |cs|
    ensures AllIn(cs[..i], |nodes|) && AllIn(cs[..i + 1], |nodes|) && cs[i] < |nodes|
    ensures Scan(corrected, nodes, cs[..i + 1])
         == match Scan(corrected, nodes, cs[..i])
            case None => None
            case Some(s) => Step(corrected, s, cs[i], nodes[cs[i]].mark)
  {
    assert cs[i] in cs;
    PrefixIn(cs, |nodes|, i);
    PrefixIn(cs, |nodes|, i + 1);
    var p := cs[..i + 1];
    assert p[..|p| - 1] == cs[..i] && p[|p| - 1] == cs[i];
  }

  /** Once the loop has returned false it stays so: a rejected prefix rejects the
      whole list. */
  lemma {:induction false} ScanStuck(corrected: bool, nodes: seq<Node>, cs: seq<Id>, k: nat)
    requires AllIn(cs, |nodes|) && k <= |cs|
    requires AllIn(cs[..k], |nodes|) && Scan(corrected, nodes, cs[..k]) == None
    ensures Scan(corrected, nodes, cs) == None
    decreases |cs| - k
  {
    if k == |cs| {
      assert cs[..k] == cs;
    } else {
      PrefixIn(cs, |nodes|, k + 1);
      assert cs[..k + 1][..k] == cs[..k];
      ScanStuck(corrected, nodes, cs, k + 1);
    }
  }

  // ---------------------------------------------------------------------------------
  // The corrected scan accepts every Q3 shape

  /** Where the corrected scan stands after the first `k` children of a Q3 shape. */
  function Expected(cs: seq<Id>, a: nat, b: nat, k: nat): ScanState
    requires a + b + 2 <= |cs| && k <= |cs|
  {
    if k <= a then ScanState(0, cs[..k], [])
    else if k == a + 1 then ScanState(1, cs[..a], [])
    else if k <= a + b + 1 then ScanState(2, cs[..a], [])
    else if k == a + b + 2 then ScanState(3, cs[..a], [])
    else ScanState(4, cs[..a], cs[a + b + 2..k])
  }

  lemma {:induction false} ScanPrefix(nodes: seq<Node>, cs: seq<Id>, a: nat, b: nat, k: nat)
    requires AllIn(cs, |nodes|) && Q3Shape(nodes, cs, a, b) && k <= |cs|
    ensures AllIn(cs[..k], |nodes|) && Scan(true, nodes, cs[..k]) == Some(Expected(cs, a, b, k))
  {
    PrefixIn(cs, |nodes|, k);
    if k > 0 {
      ScanPrefix(nodes, cs, a, b, k - 1);
      var p := cs[..k];
      assert p[..|p| - 1] == cs[..k - 1];
      assert p[|p| - 1] == cs[k - 1];
      var l := MarkAt(nodes, cs, k - 1);
      assert Scan(true, nodes, p) == Step(true, Expected(cs, a, b, k - 1), cs[k - 1], l);
      ExpectedStep(nodes, cs, a, b, k);
    }
  }

  /** The corrected scan moves from one `Expected` state to the next on a Q3 shape. */
  lemma ExpectedStep(nodes: seq<Node>, cs: seq<Id>, a: nat, b: nat, k: nat)
    requires AllIn(cs, |nodes|) && Q3Shape(nodes, cs, a, b) && 0 < k <= |cs|
    ensures Step(true, Expected(cs, a, b, k - 1), cs[k - 1], MarkAt(nodes, cs, k - 1)) == Some(Expected(cs, a, b, k))
  {
    var l := MarkAt(nodes, cs, k - 1);
    if k <= a {
      assert l == Empty;
      assert cs[..k] == cs[..k - 1] + [cs[k - 1]];
    } else if k > a + b + 3 {
      assert l == Empty;
      assert cs[a + b + 2..k] == cs[a + b + 2..k - 1] + [cs[k - 1]];
    } else if k == a + b + 3 {
      assert l == Empty;
      assert Expected(cs, a, b, k - 1) == ScanState(3, cs[..a], []);
      assert cs[a + b + 2..k] == [] + [cs[k - 1]];
    } else if k == a + 1 {
      assert l == Partial;
    } else if k <= a + b + 1 {
      assert l == Full;
    } else {
      assert l == Partial;
    }
  }

  /** Every Q3 shape passes the corrected scan, which collects the EMPTY children on
      either side. */
  lemma ScanAcceptsShape(nodes: seq<Node>, cs: seq<Id>, a: nat, b: nat)
    requires AllIn(cs, |nodes|) && Q3Shape(nodes, cs, a, b)
    ensures Scan(true, nodes, cs) == Some(ScanState(if a + b + 2 == |cs| then 3 else 4, cs[..a], cs[a + b + 2..]))
  {
    ScanPrefix(nodes, cs, a, b, |cs|);
    assert cs[..|cs|] == cs;
    if a + b + 2 == |cs| {
      assert Expected(cs, a, b, |cs|) == ScanState(3, cs[..a], []);
      assert cs[a + b + 2..] == [];
    } else {
      assert Expected(cs, a, b, |cs|) == ScanState(4, cs[..a], cs[a + b + 2..|cs|]);
      assert cs[a + b + 2..|cs|] == cs[a + b + 2..];
    }
  }

  // ---------------------------------------------------------------------------------
  // What the corrected scan has read when it accepts

  ghost predicate AllMarked(nodes: seq<Node>, cs: seq<Id>, lo: nat, hi: nat, l: Label)
    requires AllIn(cs, |nodes|) && hi <= |cs|
  {
    forall i :: lo <= i < hi ==> MarkAt(nodes, cs, i) == l
  }

  /** Positions `lo` to `hi` hold FULL children and then PARTIAL ones. */
  ghost predicate FullThenPartial(nodes: seq<Node>, cs: seq<Id>, lo: nat, hi: nat)
    requires AllIn(cs, |nodes|) && hi <= |cs|
  {
    && (forall i :: lo <= i < hi ==> MarkAt(nodes, cs, i) == Full || MarkAt(nodes, cs, i) == Partial)
    && (forall i, j :: lo <= i < j < hi && MarkAt(nodes, cs, i) == Partial ==> MarkAt(nodes, cs, j) == Partial)
  }

  /** The loop invariant of the corrected scan after reading all of `cs`: what it has
      collected and what it has read. */
  ghost predicate Reached(nodes: seq<Node>, cs: seq<Id>, s: ScanState)
    requires AllIn(cs, |nodes|)
  {
    && Collected(cs, s)
    && MarksRead(nodes, cs, |cs|, s.flips, |s.left|, |s.right|)
  }

  /** The EMPTY children collected are the leading and the trailing ones. */
  predicate Collected(cs: seq<Id>, s: ScanState) {
    var a, c := |s.left|, |s.right|;
    a + c <= |cs| && s.left == cs[..a] && s.right == cs[|cs| - c..]
  }

  /** The labels of the first `k` children read, by `flips`, with `a` leading and `c`
      trailing EMPTY children among them. */
  ghost predicate MarksRead(nodes: seq<Node>, cs: seq<Id>, k: nat, flips: nat, a: nat, c: nat)
    requires AllIn(cs, |nodes|) && k <= |cs|
  {
    && a + c <= k
    && AllMarked(nodes, cs, 0, a, Empty) && AllMarked(nodes, cs, k - c, k, Empty)
    && flips <= 4
    && (flips == 0 ==> a == k)
    && (flips == 1 ==> c == 0 && a + 1 == k && MarkAt(nodes, cs, a) == Partial)
    && (flips == 2 ==>
          && c == 0 && a + 2 <= k && MarkAt(nodes, cs, a) == Partial
          && AllMarked(nodes, cs, a + 1, k, Full))
    && (flips == 3 ==>
          && c == 0 && a + 2 <= k && MarkAt(nodes, cs, a) == Partial
          && MarkAt(nodes, cs, k - 1) == Partial && FullThenPartial(nodes, cs, a + 1, k - 1))
    && (flips == 4 ==>
          && c >= 1 && a + c + 2 <= k && MarkAt(nodes, cs, a) == Partial
          && MarkAt(nodes, cs, k - c - 1) == Partial && FullThenPartial(nodes, cs, a + 1, k - c - 1))
  }

  /** One more child keeps the invariant. */
  lemma ReachedStep(nodes: seq<Node>, cs: seq<Id>, k: nat, s: ScanState)
    requires AllIn(cs, |nodes|) && 0 < k <= |cs|
    requires Collected(cs[..k - 1], s) && MarksRead(nodes, cs, k - 1, s.flips, |s.left|, |s.right|)
    requires Step(true, s, cs[k - 1], MarkAt(nodes, cs, k - 1)).Some?
    ensures var t := Step(true, s, cs[k - 1], MarkAt(nodes, cs, k - 1)).value;
      Collected(cs[..k], t) && MarksRead(nodes, cs, k, t.flips, |t.left|, |t.right|)
  {
    var last := cs[k - 1];
    var t := Step(true, s, last, MarkAt(nodes, cs, k - 1)).value;
    var a, c := |s.left|, |s.right|;
    var p := cs[..k];
    assert p[..|p| - 1] == cs[..k - 1] && p[|p| - 1] == last;
    assert t.left == s.left || (t.left == s.left + [last] && a == k - 1 && s.right == []);
    assert (t.right == s.right && s.right == []) || t.right == s.right + [last];
    CollectedStep(p, s, t);
    assert t.flips == FlipsAfter(s.flips, MarkAt(nodes, cs, k - 1));
    MarksStep(nodes, cs, k, s.flips, a, c, |t.left|, |t.right|);
  }

  /** The counter after one more child with label `l`, when the scan goes on. */
  function FlipsAfter(flips: nat, l: Label): nat {
    if flips == 0 then (if l == Partial then 1 else 0)
    else if flips == 1 then (if l == Full then 2 else 3)
    else if flips == 2 then (if l == Partial then 3 else 2)
    else if flips == 3 then (if l == Empty then 4 else 3)
    else 4
  }

  /** The collected lists grow only at the ends they collect at. */
  lemma CollectedStep(cs: seq<Id>, s: ScanState, t: ScanState)
    requires |cs| > 0 && Collected(cs[..|cs| - 1], s)
    requires t.left == s.left || (t.left == s.left + [cs[|cs| - 1]] && |s.left| == |cs| - 1 && s.right == [])
    requires (t.right == s.right && s.right == []) || t.right == s.right + [cs[|cs| - 1]]
    requires |t.left| + |t.right| <= |cs|
    ensures Collected(cs, t)
  {
    var init, last, n := cs[..|cs| - 1], cs[|cs| - 1], |cs|;
    var a, c := |s.left|, |s.right|;
    assert cs[..a] == init[..a];
    if |t.right| == c + 1 {
      assert cs[n - c - 1..] == init[n - 1 - c..] + [last];
    }
    if |t.left| == a + 1 {
      assert cs[..a + 1] == init[..a] + [last];
    }
  }

  /** The labels read, one child further on. */
  lemma MarksStep(nodes: seq<Node>, cs: seq<Id>, k: nat, flips: nat, a: nat, c: nat, a': nat, c': nat)
    requires AllIn(cs, |nodes|) && 0 < k <= |cs|
    requires MarksRead(nodes, cs, k - 1, flips, a, c)
    requires Step(true, ScanState(flips, [], []), 0, MarkAt(nodes, cs, k - 1)).Some?
    requires a' == (if flips == 0 && MarkAt(nodes, cs, k - 1) == Empty then a + 1 else a)
    requires c' == (if flips >= 3 && MarkAt(nodes, cs, k - 1) == Empty then c + 1 else c)
    ensures MarksRead(nodes, cs, k, FlipsAfter(flips, MarkAt(nodes, cs, k - 1)), a', c')
  {
  }

  lemma {:induction false} ScanReachedAt(nodes: seq<Node>, cs: seq<Id>, k: nat)
    requires AllIn(cs, |nodes|) && k <= |cs|
    requires AllIn(cs[..k], |nodes|) && Scan(true, nodes, cs[..k]).Some?
    ensures var s := Scan(true, nodes, cs[..k]).value;
      Collected(cs[..k], s) && MarksRead(nodes, cs, k, s.flips, |s.left|, |s.right|)
  {
    if k > 0 {
      PrefixIn(cs, |nodes|, k - 1);
      var p := cs[..k];
      assert p[..|p| - 1] == cs[..k - 1] && p[|p| - 1] == cs[k - 1];
      ScanReachedAt(nodes, cs, k - 1);
      ReachedStep(nodes, cs, k, Scan(true, nodes, cs[..k - 1]).value);
    }
  }

  lemma ScanReached(nodes: seq<Node>, cs: seq<Id>)
    requires AllIn(cs, |nodes|) && Scan(true, nodes, cs).Some?
    ensures Reached(nodes, cs, Scan(true, nodes, cs).value)
  {
    assert cs[..|cs|] == cs;
    ScanReachedAt(nodes, cs, |cs|);
  }

  /** What the corrected scan collects are the leading and the trailing children. */
  lemma ScanCollects(nodes: seq<Node>, cs: seq<Id>)
    requires AllIn(cs, |nodes|) && Scan(true, nodes, cs).Some?
    ensures var s := Scan(true, nodes, cs).value;
      s.left == cs[..|s.left|] && s.right == cs[|cs| - |s.right|..]
  {
    ScanReached(nodes, cs);
  }

  // ---------------------------------------------------------------------------------
  // Counting PARTIAL children

  lemma {:induction false} NoneOfLabel(nodes: seq<Node>, cs: seq<Id>, l: Label)
    requires AllIn(cs, |nodes|)
    requires forall i :: 0 <= i < |cs| ==> MarkAt(nodes, cs, i) != l
    ensures OfLabel(nodes, cs, l) == []
  {
    if cs != [] {
      var init := cs[..|cs| - 1];
      PrefixIn(cs, |nodes|, |cs| - 1);
      assert forall i :: 0 <= i < |init| ==> MarkAt(nodes, init, i) == MarkAt(nodes, cs, i);
      NoneOfLabel(nodes, init, l);
      assert MarkAt(nodes, cs, |cs| - 1) != l;
    }
  }

  lemma SomeOfLabel(nodes: seq<Node>, cs: seq<Id>, l: Label, i: nat)
    requires AllIn(cs, |nodes|) && i < |cs| && MarkAt(nodes, cs, i) == l
    ensures |OfLabel(nodes, cs, l)| >= 1
  {
    assert cs[i] in cs;
    assert cs[i] in OfLabel(nodes, cs, l);
  }

  /** Splitting `cs` round position `j`. */
  lemma CountAround(nodes: seq<Node>, cs: seq<Id>, l: Label, j: nat)
    requires AllIn(cs, |nodes|) && j < |cs|
    ensures AllIn(cs[..j], |nodes|) && AllIn(cs[j + 1..], |nodes|)
    ensures |OfLabel(nodes, cs, l)|
         == |OfLabel(nodes, cs[..j], l)| + (if MarkAt(nodes, cs, j) == l then 1 else 0) + |OfLabel(nodes, cs[j + 1..], l)|
  {
    assert cs == cs[..j] + [cs[j]] + cs[j + 1..];
    PrefixIn(cs, |nodes|, j);
    SuffixIn(cs, |nodes|, j + 1);
    assert cs[j] in cs;
    assert AllIn([cs[j]], |nodes|);
    OfLabelAppend(nodes, cs[..j], [cs[j]], l);
    OfLabelAppend(nodes, cs[..j] + [cs[j]], cs[j + 1..], l);
    assert OfLabel(nodes, [cs[j]], l) == OfLabel(nodes, [], l) + (if nodes[cs[j]].mark == l then [cs[j]] else []);
  }

  /** Three PARTIAL positions make three PARTIAL children. */
  lemma ThreePartials(nodes: seq<Node>, cs: seq<Id>, i: nat, j: nat, k: nat)
    requires AllIn(cs, |nodes|) && i < j < k < |cs|
    requires MarkAt(nodes, cs, i) == Partial && MarkAt(nodes, cs, j) == Partial && MarkAt(nodes, cs, k) == Partial
    ensures |OfLabel(nodes, cs, Partial)| >= 3
  {
    CountAround(nodes, cs, Partial, j);
    var before, after := cs[..j], cs[j + 1..];
    assert before[i] == cs[i] && after[k - j - 1] == cs[k];
    assert MarkAt(nodes, before, i) == Partial && MarkAt(nodes, after, k - j - 1) == Partial;
    SomeOfLabel(nodes, before, Partial, i);
    SomeOfLabel(nodes, after, Partial, k - j - 1);
  }

  /** Only position `a` PARTIAL makes one PARTIAL child. */
  lemma OnePartial(nodes: seq<Node>, cs: seq<Id>, a: nat)
    requires AllIn(cs, |nodes|) && a < |cs|
    requires forall i :: 0 <= i < |cs| && i != a ==> MarkAt(nodes, cs, i) != Partial
    ensures |OfLabel(nodes, cs, Partial)| <= 1
  {
    CountAround(nodes, cs, Partial, a);
    var before, after := cs[..a], cs[a + 1..];
    forall i | 0 <= i < |before|
      ensures MarkAt(nodes, before, i) != Partial
    {
      assert MarkAt(nodes, before, i) == MarkAt(nodes, cs, i);
    }
    NoneOfLabel(nodes, before, Partial);
    forall i | 0 <= i < |after|
      ensures MarkAt(nodes, after, i) != Partial
    {
      assert MarkAt(nodes, after, i) == MarkAt(nodes, cs, a + 1 + i);
    }
    NoneOfLabel(nodes, after, Partial);
  }

  // ---------------------------------------------------------------------------------
  // The corrected scan accepts exactly the Q3 shapes

  /** With exactly two PARTIAL children, a list the corrected scan accepts is a Q3
      shape, split where the scan puts its EMPTY children. */
  lemma ScanSound(nodes: seq<Node>, cs: seq<Id>)
    requires AllIn(cs, |nodes|) && |OfLabel(nodes, cs, Partial)| == 2 && Scan(true, nodes, cs).Some?
    ensures var s := Scan(true, nodes, cs).value;
      && |s.left| + |s.right| + 2 <= |cs|
      && Q3Shape(nodes, cs, |s.left|, |cs| - |s.left| - |s.right| - 2)
      && s.left == cs[..|s.left|] && s.right == cs[|cs| - |s.right|..]
  {
    var s := Scan(true, nodes, cs).value;
    ScanReached(nodes, cs);
    if s.flips <= 2 {
      FewFlips(nodes, cs, s.flips, |s.left|, |s.right|);
    } else {
      ManyFlips(nodes, cs, s.flips, |s.left|, |s.right|);
    }
  }

  /** A scan that has not passed a second PARTIAL child has seen at most one. */
  lemma FewFlips(nodes: seq<Node>, cs: seq<Id>, flips: nat, a: nat, c: nat)
    requires AllIn(cs, |nodes|) && MarksRead(nodes, cs, |cs|, flips, a, c) && flips <= 2
    ensures |OfLabel(nodes, cs, Partial)| <= 1
  {
    if flips == 0 {
      NoneOfLabel(nodes, cs, Partial);
    } else {
      OnePartial(nodes, cs, a);
    }
  }

  /** A scan past both PARTIAL children, on a list with only two, has read a Q3 shape. */
  lemma ManyFlips(nodes: seq<Node>, cs: seq<Id>, flips: nat, a: nat, c: nat)
    requires AllIn(cs, |nodes|) && MarksRead(nodes, cs, |cs|, flips, a, c) && flips >= 3
    requires |OfLabel(nodes, cs, Partial)| == 2
    ensures a + c + 2 <= |cs|
    ensures Q3Shape(nodes, cs, a, |cs| - a - c - 2)
  {
    var e := |cs| - c - 1;
    if flips == 3 {
      assert c == 0;
    }
    assert a < e < |cs| && MarkAt(nodes, cs, a) == Partial && MarkAt(nodes, cs, e) == Partial;
    assert FullThenPartial(nodes, cs, a + 1, e);
    MiddleFull(nodes, cs, a, e);
  }

  /** Between the only two PARTIAL children, FULL children followed by PARTIAL ones are
      all FULL. */
  lemma MiddleFull(nodes: seq<Node>, cs: seq<Id>, a: nat, e: nat)
    requires AllIn(cs, |nodes|) && a < e < |cs| && |OfLabel(nodes, cs, Partial)| == 2
    requires MarkAt(nodes, cs, a) == Partial && MarkAt(nodes, cs, e) == Partial
    requires FullThenPartial(nodes, cs, a + 1, e)
    ensures AllMarked(nodes, cs, a + 1, e, Full)
  {
    forall j | a < j < e
      ensures MarkAt(nodes, cs, j) == Full
    {
      if MarkAt(nodes, cs, j) == Partial {
        ThreePartials(nodes, cs, a, j, e);
      }
    }
  }

  /** With exactly two PARTIAL children, the corrected scan accepts if and only if the
      children form a Q3 shape. */
  lemma ScanAcceptsExactlyShapes(nodes: seq<Node>, cs: seq<Id>)
    requires AllIn(cs, |nodes|) && |OfLabel(nodes, cs, Partial)| == 2
    ensures Scan(true, nodes, cs).Some? <==> exists a: nat, b: nat :: Q3Shape(nodes, cs, a, b)
  {
    if Scan(true, nodes, cs).Some? {
      ScanSound(nodes, cs);
      var s := Scan(true, nodes, cs).value;
      assert Q3Shape(nodes, cs, |s.left|, |cs| - |s.left| - |s.right| - 2);
    }
    if exists a: nat, b: nat :: Q3Shape(nodes, cs, a, b) {
      var a: nat, b: nat :| Q3Shape(nodes, cs, a, b);
      ScanAcceptsShape(nodes, cs, a, b);
    }
  }

  // ---------------------------------------------------------------------------------
  // The scan as written

  /** EMPTY, PARTIAL, PARTIAL, EMPTY is a Q3 shape (with no FULL child between the
      PARTIAL ones), which the scan as written rejects and the corrected one accepts. */
  lemma AsWrittenRejectsShape()
    ensures var nodes := [Fresh(Leaf, Empty), Fresh(Leaf, Partial), Fresh(Leaf, Partial), Fresh(Leaf, Empty)];
      var cs := [0, 1, 2, 3];
      && AllIn(cs, |nodes|) && Q3Shape(nodes, cs, 1, 0)
      && Scan(false, nodes, cs) == None
      && Scan(true, nodes, cs) == Some(ScanState(4, [0], [3]))
  {
    var nodes := [Fresh(Leaf, Empty), Fresh(Leaf, Partial), Fresh(Leaf, Partial), Fresh(Leaf, Empty)];
    var cs := [0, 1, 2, 3];
    ScanFour(false, nodes);
    assert [] + [0] == [0];
    assert Scan(false, nodes, [0]) == Some(ScanState(0, [0], []));
    assert Scan(false, nodes, [0, 1]) == Some(ScanState(1, [0], []));
    assert Scan(false, nodes, [0, 1, 2]) == Some(ScanState(1, [0], []));
    assert Q3Shape(nodes, cs, 1, 0);
    ScanAcceptsShape(nodes, cs, 1, 0);
  }

  /** EMPTY, PARTIAL, PARTIAL, FULL has two PARTIAL children and is no Q3 shape, but
      the scan as written accepts it. */
  lemma AsWrittenAcceptsNonShape()
    ensures var nodes := [Fresh(Leaf, Empty), Fresh(Leaf, Partial), Fresh(Leaf, Partial), Fresh(Leaf, Full)];
      var cs := [0, 1, 2, 3];
      && AllIn(cs, |nodes|) && |OfLabel(nodes, cs, Partial)| == 2
      && (forall a: nat, b: nat :: !Q3Shape(nodes, cs, a, b))
      && Scan(false, nodes, cs) == Some(ScanState(2, [0], []))
      && Scan(true, nodes, cs) == None
  {
    var nodes := [Fresh(Leaf, Empty), Fresh(Leaf, Partial), Fresh(Leaf, Partial), Fresh(Leaf, Full)];
    var cs := [0, 1, 2, 3];
    ScanFour(false, nodes);
    ScanFour(true, nodes);
    assert [] + [0] == [0];
    assert Scan(false, nodes, [0]) == Some(ScanState(0, [0], []));
    assert Scan(false, nodes, [0, 1]) == Some(ScanState(1, [0], []));
    assert Scan(false, nodes, [0, 1, 2]) == Some(ScanState(1, [0], []));
    assert Scan(true, nodes, [0]) == Some(ScanState(0, [0], []));
    assert Scan(true, nodes, [0, 1]) == Some(ScanState(1, [0], []));
    assert Scan(true, nodes, [0, 1, 2]) == Some(ScanState(3, [0], []));
    assert OfLabel(nodes, [0], Partial) == [];
    assert OfLabel(nodes, [0, 1], Partial) == [] + [1];
    assert OfLabel(nodes, [0, 1, 2], Partial) == [1] + [2];
    assert OfLabel(nodes, cs, Partial) == [1, 2];
    ScanAcceptsExactlyShapes(nodes, cs);
  }

  /** The scan of the four children of a four-node arena, one child at a time. */
  lemma ScanFour(corrected: bool, nodes: seq<Node>)
    requires |nodes| == 4
    ensures AllIn([0, 1, 2, 3], 4) && AllIn([0, 1, 2], 4) && AllIn([0, 1], 4) && AllIn([0], 4)
    ensures Scan(corrected, nodes, [0]) == Step(corrected, Start, 0, nodes[0].mark)
    ensures Scan(corrected, nodes, [0, 1]) == match Scan(corrected, nodes, [0])
      case None => None case Some(s) => Step(corrected, s, 1, nodes[1].mark)
    ensures Scan(corrected, nodes, [0, 1, 2]) == match Scan(corrected, nodes, [0, 1])
      case None => None case Some(s) => Step(corrected, s, 2, nodes[2].mark)
    ensures Scan(corrected, nodes, [0, 1, 2, 3]) == match Scan(corrected, nodes, [0, 1, 2])
      case None => None case Some(s) => Step(corrected, s, 3, nodes[3].mark)
    ensures [0, 1, 2, 3][..3] == [0, 1, 2] && [0, 1, 2][..2] == [0, 1] && [0, 1][..1] == [0] && [0][..0] == []
  {
    assert [0, 1, 2, 3][..3] == [0, 1, 2];
    assert [0, 1, 2][..2] == [0, 1];
    assert [0, 1][..1] == [0];
    assert [0][..0] == [];
  }
}

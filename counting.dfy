/** Counting facts used to show that a pointer walk which has taken more steps than
    there are nodes must have come back to a node it already visited. */
module Counting {

  /** Among more than `n` values below `n`, two are equal. */
  lemma {:induction false} Pigeonhole(s: seq<nat>, n: nat)
    requires 0 < n < |s|
    requires forall i :: 0 <= i < |s| ==> s[i] < n
    ensures exists i, j :: 0 <= i < j < |s| && s[i] == s[j]
    decreases n
  {
    if n == 1 {
      assert s[0] == 0 && s[1] == 0;
    } else if exists i, j :: 0 <= i < j < |s| && s[i] == n - 1 && s[j] == n - 1 {
    } else if exists k :: 0 <= k < |s| && s[k] == n - 1 {
      var k :| 0 <= k < |s| && s[k] == n - 1;
      var t := s[..k] + s[k + 1..];
      forall i | 0 <= i < |t|
        ensures t[i] < n - 1
      {
        if i < k {
          assert t[i] == s[i];
          assert i != k;
        } else {
          assert t[i] == s[i + 1];
          assert i + 1 != k;
        }
      }
      Pigeonhole(t, n - 1);
      var i, j :| 0 <= i < j < |t| && t[i] == t[j];
      var i' := if i < k then i else i + 1;
      var j' := if j < k then j else j + 1;
      assert s[i'] == t[i] && s[j'] == t[j];
    } else {
      forall i | 0 <= i < |s|
        ensures s[i] < n - 1
      {
        assert s[i] != n - 1;
      }
      Pigeonhole(s, n - 1);
    }
  }
}

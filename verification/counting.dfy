/** Counting the elements of a sequence that satisfy a predicate, as the
    metric loops do with a running `count`. */
module Counting {

  /** Number of elements of `s` satisfying `p`, scanning oldest first. */
  function Count<T>(s: seq<T>, p: T -> bool): (c: nat)
    ensures c <= |s|
  {
    if s == [] then 0
    else Count(s[..|s| - 1], p) + (if p(s[|s| - 1]) then 1 else 0)
  }

  /** The positions at or after `k` whose element satisfies `p`. */
  function MatchingFrom<T>(s: seq<T>, k: nat, p: T -> bool): set<nat>
  {
    set i: nat | k <= i < |s| && p(s[i])
  }

  /** Counting the suffix that starts at `k` counts exactly the matching
      positions at or after `k`. */
  lemma {:induction false} CountSuffixIsMatchingPositions<T>(s: seq<T>, k: nat, p: T -> bool)
    requires k <= |s|
    ensures Count(s[k..], p) == |MatchingFrom(s, k, p)|
    decreases |s|
  {
    if |s| == k {
      assert MatchingFrom(s, k, p) == {};
    } else {
      var n := |s| - 1;
      assert s[k..][..|s[k..]| - 1] == s[..n][k..];
      CountSuffixIsMatchingPositions(s[..n], k, p);
      var before := MatchingFrom(s[..n], k, p);
      if p(s[n]) {
        assert MatchingFrom(s, k, p) == before + {n};
      } else {
        assert MatchingFrom(s, k, p) == before;
      }
    }
  }

  /** Every element satisfies `p` exactly when all of them are counted. */
  lemma {:induction false} CountAll<T>(s: seq<T>, p: T -> bool)
    ensures Count(s, p) == |s| <==> forall i :: 0 <= i < |s| ==> p(s[i])
    decreases |s|
  {
    if s != [] {
      var n := |s| - 1;
      CountAll(s[..n], p);
      if forall i :: 0 <= i < |s| ==> p(s[i]) {
        assert forall i :: 0 <= i < n ==> p(s[..n][i]);
      }
      if forall i :: 0 <= i < n ==> p(s[..n][i]) {
        assert forall i :: 0 <= i < n ==> p(s[i]);
      }
    }
  }

  /** No element satisfies `p` exactly when the count is zero. */
  lemma {:induction false} CountNone<T>(s: seq<T>, p: T -> bool)
    ensures Count(s, p) == 0 <==> forall i :: 0 <= i < |s| ==> !p(s[i])
    decreases |s|
  {
    if s != [] {
      var n := |s| - 1;
      CountNone(s[..n], p);
      if forall i :: 0 <= i < |s| ==> !p(s[i]) {
        assert forall i :: 0 <= i < n ==> !p(s[..n][i]);
      }
      if forall i :: 0 <= i < n ==> !p(s[..n][i]) {
        assert forall i :: 0 <= i < n ==> !p(s[i]);
      }
    }
  }

  /** A weaker predicate counts at least as many elements. */
  lemma {:induction false} CountMonotonic<T>(s: seq<T>, p: T -> bool, q: T -> bool)
    requires forall i :: 0 <= i < |s| ==> p(s[i]) ==> q(s[i])
    ensures Count(s, p) <= Count(s, q)
    decreases |s|
  {
    if s != [] {
      var n := |s| - 1;
      assert forall i :: 0 <= i < n ==> s[..n][i] == s[i];
      CountMonotonic(s[..n], p, q);
    }
  }
}

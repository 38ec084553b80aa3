/** The twin's two fixed-capacity history buffers (a double-ended queue with a
    maximum length of 100), modelled as sequences whose first element is the
    oldest entry and whose last element is the newest. */
module BoundedHistory {

  /** Maximum number of entries either history holds. */
  const Capacity: nat := 100

  /** The newest `n` entries of `s`: all of `s` when it holds fewer than `n`. */
  function LastN<T>(s: seq<T>, n: nat): (r: seq<T>)
    ensures |r| == if |s| < n then |s| else n
  {
    if |s| <= n then s else s[|s| - n..]
  }

  /** Appends `x` as the newest entry; when the buffer is already full the
      oldest entry is evicted first. */
  function Append<T>(h: seq<T>, x: T): (r: seq<T>)
    requires |h| <= Capacity
    ensures |r| <= Capacity
    ensures |r| == if |h| < Capacity then |h| + 1 else Capacity
    ensures r[|r| - 1] == x
    ensures |h| < Capacity ==> r[..|r| - 1] == h
    ensures |h| == Capacity ==> r[..|r| - 1] == h[1..]
  {
    if |h| < Capacity then h + [x] else h[1..] + [x]
  }

  /** Appends every element of `xs` in order, oldest first. */
  function AppendAll<T>(h: seq<T>, xs: seq<T>): (r: seq<T>)
    requires |h| <= Capacity
    ensures |r| <= Capacity
    decreases |xs|
  {
    if xs == [] then h else AppendAll(Append(h, xs[0]), xs[1..])
  }

  /** Truncating to the newest `n` entries twice, around further appends, is
      the same as truncating once at the end. */
  lemma LastNAbsorbs<T>(s: seq<T>, t: seq<T>, n: nat)
    ensures LastN(LastN(s, n) + t, n) == LastN(s + t, n)
  {
    var u := LastN(s, n);
    assert s == s[..|s| - |u|] + u;
    var k := |s| - |u|;
    assert s + t == s[..k] + (u + t);
  }

  /** One append keeps exactly the newest `Capacity` entries of the arrival
      stream. */
  lemma AppendKeepsNewest<T>(h: seq<T>, x: T)
    requires |h| <= Capacity
    ensures Append(h, x) == LastN(h + [x], Capacity)
  {
  }

  /** However many entries arrive, the buffer holds exactly the newest
      `Capacity` of them, in arrival order (first in, first out). */
  lemma {:induction false} AppendAllKeepsNewest<T>(h: seq<T>, xs: seq<T>)
    requires |h| <= Capacity
    ensures AppendAll(h, xs) == LastN(h + xs, Capacity)
    decreases |xs|
  {
    if xs == [] {
      assert h + xs == h;
    } else {
      var s := h + [xs[0]];
      var h' := Append(h, xs[0]);
      assert AppendAll(h, xs) == AppendAll(h', xs[1..]);
      assert h' == LastN(s, Capacity) by { AppendKeepsNewest(h, xs[0]); }
      assert AppendAll(h', xs[1..]) == LastN(h' + xs[1..], Capacity) by {
        AppendAllKeepsNewest(h', xs[1..]);
      }
      assert LastN(h' + xs[1..], Capacity) == LastN(s + xs[1..], Capacity) by {
        LastNAbsorbs(s, xs[1..], Capacity);
      }
      assert s + xs[1..] == h + xs;
    }
  }

  /** Starting from an empty buffer, `n` appends leave `min(n, Capacity)`
      entries: the newest ones. */
  lemma AppendAllFromEmpty<T>(xs: seq<T>)
    ensures |AppendAll([], xs)| == if |xs| < Capacity then |xs| else Capacity
    ensures AppendAll([], xs) == LastN(xs, Capacity)
  {
    AppendAllKeepsNewest([], xs);
    assert [] + xs == xs;
  }
}

/** The synchronisation-quality metrics: timeliness over the latency
    observations, reliability over the update history, the constant
    availability, and their product ODTE (overall digital-twin effectiveness). */
module Metrics {
  import opened Counting
  import opened Telemetry
  import BoundedHistory

  // ---------------------------------------------------------------- timeliness

  /** An observed latency meets the deadline when it is at or under it. */
  function WithinDeadline(deadline: real): real -> bool
  {
    obs => obs <= deadline
  }

  /** Fraction of latency observations at or under `deadline`; zero when
      nothing has been observed. */
  function Timeliness(obs: seq<real>, deadline: real): (r: real)
    ensures 0.0 <= r <= 1.0
    ensures obs == [] ==> r == 0.0
    ensures r == 1.0 <==> obs != [] && forall i :: 0 <= i < |obs| ==> obs[i] <= deadline
    ensures r == 0.0 <==> forall i :: 0 <= i < |obs| ==> deadline < obs[i]
  {
    if |obs| == 0 then 0.0
    else
      var c := Count(obs, WithinDeadline(deadline));
      CountAll(obs, WithinDeadline(deadline));
      CountNone(obs, WithinDeadline(deadline));
      FractionFacts(c, |obs|);
      c as real / |obs| as real
  }

  /** A part `c` of a positive whole `n` is a fraction in [0, 1], which is 1
      only for the whole and 0 only for nothing. */
  lemma FractionFacts(c: nat, n: nat)
    requires 0 < n && c <= n
    ensures 0.0 <= c as real / n as real <= 1.0
    ensures c as real / n as real == 1.0 <==> c == n
    ensures c as real / n as real == 0.0 <==> c == 0
  {
    var f := c as real / n as real;
    assert f * n as real == c as real;
  }

  /** Timeliness is the number of positions whose latency meets the deadline,
      divided by the number of observations. */
  lemma TimelinessIsFraction(obs: seq<real>, deadline: real)
    requires obs != []
    ensures Timeliness(obs, deadline)
            == |set i: nat | i < |obs| && obs[i] <= deadline| as real / |obs| as real
  {
    CountSuffixIsMatchingPositions(obs, 0, WithinDeadline(deadline));
    assert obs[0..] == obs;
    assert MatchingFrom(obs, 0, WithinDeadline(deadline))
        == set i: nat | i < |obs| && obs[i] <= deadline;
  }

  /** A later deadline never lowers timeliness. */
  lemma TimelinessMonotonic(obs: seq<real>, d1: real, d2: real)
    requires d1 <= d2
    ensures Timeliness(obs, d1) <= Timeliness(obs, d2)
  {
    if obs != [] {
      CountMonotonic(obs, WithinDeadline(d1), WithinDeadline(d2));
      var c1 := Count(obs, WithinDeadline(d1)) as real;
      var c2 := Count(obs, WithinDeadline(d2)) as real;
      QuotientBounds(c1, c2, |obs| as real);
    }
  }

  /** The counting loop of the timeliness computation. */
  method ComputeTimeliness(obs: seq<real>, deadline: real) returns (r: real)
    ensures r == Timeliness(obs, deadline)
  {
    if |obs| == 0 {
      return 0.0;
    }
    var count := 0;
    for i := 0 to |obs|
      invariant count == Count(obs[..i], WithinDeadline(deadline))
    {
      assert obs[..i + 1][..i] == obs[..i];
      if obs[i] <= deadline {
        count := count + 1;
      }
    }
    assert obs[..|obs|] == obs;
    r := count as real / |obs| as real;
  }

  // --------------------------------------------------------------- reliability

  /** Start index of the slice `s[-w:]` on a list of length `n`: the newest
      `w` positions when `w` is positive; for `w <= 0` the negated index counts
      from the front, clamped to the length. */
  function SliceFromEndStart(n: nat, w: int): (k: nat)
    ensures k <= n
    ensures w > 0 ==> n - k == (if w < n then w else n)
    ensures w <= 0 ==> k == (if -w < n then -w else n)
  {
    if w > 0 then (if w < n then n - w else 0)
    else if -w < n then -w else n
  }

  /** The records the reliability metric looks at: selected by position in
      the history, not by timestamp. */
  function Examined(h: seq<UpdateRecord>, w: int): seq<UpdateRecord>
  {
    h[SliceFromEndStart(|h|, w)..]
  }

  /** A record was sent within the last `w` seconds before `now`, bounds
      included. */
  predicate InWindow(rec: UpdateRecord, now: real, w: int)
  {
    now - w as real <= rec.timestamp <= now
  }

  function InWindowOf(now: real, w: int): UpdateRecord -> bool
  {
    rec => InWindow(rec, now, w)
  }

  /** Examined records sent within the window, over the number expected in it
      (`w` seconds at `e` per second). The product `w * e` must be non-zero:
      nothing guards the division. */
  function Reliability(h: seq<UpdateRecord>, w: int, e: int, now: real): (r: real)
    requires w * e != 0
    ensures h == [] ==> r == 0.0
    ensures w * e > 0 ==> 0.0 <= r
    ensures w > 0 && e > 0 ==> r <= (if |h| < w then |h| else w) as real / (w * e) as real
  {
    // An empty history counts nothing, so the quotient is zero; the case is
    // split out only to keep the proof small.
    if h == [] then 0.0
    else
      var c := Count(Examined(h, w), InWindowOf(now, w));
      CountBounds(c, |h|, w, e);
      c as real / (w * e) as real
  }

  /** Dividing by a positive number keeps `0 <= c <= m` in order. */
  lemma QuotientBounds(c: real, m: real, d: real)
    requires 0.0 <= c <= m && d > 0.0
    ensures 0.0 <= c / d <= m / d
  {
    assert m / d - c / d == (m - c) / d;
  }

  /** Bounds on a count of at most `min(w, n)` records divided by `w * e`. */
  lemma CountBounds(c: nat, n: nat, w: int, e: int)
    requires w * e != 0
    requires w > 0 ==> c <= (if n < w then n else w)
    ensures w * e > 0 ==> 0.0 <= c as real / (w * e) as real
    ensures w > 0 && e > 0 ==> c as real / (w * e) as real <= (if n < w then n else w) as real / (w * e) as real
  {
    var d := (w * e) as real;
    if w > 0 && e > 0 {
      assert w * e > 0;
      QuotientBounds(c as real, (if n < w then n else w) as real, d);
    } else if w * e > 0 {
      QuotientBounds(c as real, c as real, d);
    }
  }

  /** For a positive window, exactly the newest `min(w, |h|)` records are
      examined. */
  lemma ExaminedIsNewest(h: seq<UpdateRecord>, w: int)
    requires w > 0
    ensures Examined(h, w) == BoundedHistory.LastN(h, w as nat)
  {
  }

  /** Reliability counts the positions among the newest `min(w, |h|)` whose
      timestamp lies in `[now - w, now]`. */
  lemma ReliabilityIsWindowCount(h: seq<UpdateRecord>, w: int, e: int, now: real)
    requires w > 0 && e != 0
    ensures Reliability(h, w, e, now)
            == |set i: nat | |h| - w <= i < |h| && now - w as real <= h[i].timestamp <= now| as real
               / (w * e) as real
  {
    var k := SliceFromEndStart(|h|, w);
    CountSuffixIsMatchingPositions(h, k, InWindowOf(now, w));
    assert MatchingFrom(h, k, InWindowOf(now, w))
        == set i: nat | |h| - w <= i < |h| && now - w as real <= h[i].timestamp <= now;
  }

  /** Records older than the newest `w` never affect reliability. */
  lemma ReliabilityIgnoresOlder(older: seq<UpdateRecord>, h: seq<UpdateRecord>, w: int, e: int, now: real)
    requires w > 0 && e != 0 && |h| >= w
    ensures Reliability(older + h, w, e, now) == Reliability(h, w, e, now)
  {
    assert Examined(older + h, w) == Examined(h, w);
  }

  /** When every examined record lies in the window, reliability is the number
      examined over the number expected. */
  lemma ReliabilityAllInWindow(h: seq<UpdateRecord>, w: int, e: int, now: real)
    requires w > 0 && e != 0
    requires forall i :: 0 <= i < |Examined(h, w)| ==> InWindow(Examined(h, w)[i], now, w)
    ensures Reliability(h, w, e, now) == (if |h| < w then |h| else w) as real / (w * e) as real
  {
    CountAll(Examined(h, w), InWindowOf(now, w));
  }

  /** The counting loop of the reliability computation: how many of the
      given records were sent within the window. */
  method CountInWindow(required: seq<UpdateRecord>, w: int, now: real) returns (count: nat)
    ensures count == Count(required, InWindowOf(now, w))
  {
    count := 0;
    for i := 0 to |required|
      invariant count == Count(required[..i], InWindowOf(now, w))
    {
      assert required[..i + 1][..i] == required[..i];
      if required[i].timestamp >= now - w as real && required[i].timestamp <= now {
        count := count + 1;
      }
    }
    assert required[..|required|] == required;
  }

  /** The reliability computation: slice the newest `w` records, count those
      in the window, divide by the expected number. */
  method ComputeReliability(h: seq<UpdateRecord>, w: int, e: int, now: real) returns (r: real)
    requires w * e != 0
    ensures r == Reliability(h, w, e, now)
  {
    var required := h[SliceFromEndStart(|h|, w)..];
    var count := CountInWindow(required, w, now);
    r := count as real / (w * e) as real;
  }

  // ----------------------------------------------------- availability and ODTE

  /** Availability is not measured: it is always full. */
  function Availability(): (a: real)
    ensures a == 1.0
  {
    1.0
  }

  /** ODTE: timeliness times reliability times availability. */
  function Odte(obs: seq<real>, h: seq<UpdateRecord>, w: int, deadline: real, e: int, now: real): (r: real)
    requires w * e != 0
    ensures obs == [] ==> r == 0.0
    ensures h == [] ==> r == 0.0
    ensures w * e > 0 ==> 0.0 <= r <= Reliability(h, w, e, now)
    ensures r == 0.0 <==> Timeliness(obs, deadline) == 0.0 || Reliability(h, w, e, now) == 0.0
  {
    var t := Timeliness(obs, deadline);
    var rel := Reliability(h, w, e, now);
    assert w * e > 0 ==> t * rel <= rel by {
      if w * e > 0 {
        assert rel - t * rel == (1.0 - t) * rel;
      }
    }
    t * rel * Availability()
  }

  /** ODTE is exactly timeliness times reliability: availability contributes
      a factor of 1. */
  lemma OdteIsProduct(obs: seq<real>, h: seq<UpdateRecord>, w: int, deadline: real, e: int, now: real)
    requires w * e != 0
    ensures Odte(obs, h, w, deadline, e, now) == Timeliness(obs, deadline) * Reliability(h, w, e, now)
  {
  }
}

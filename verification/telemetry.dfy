/** The decoded update records the twin ingests, and the mean power draw
    recomputed over the update history after every ingestion. */
module Telemetry {

  /** One update from the device: the text of its state, the power it reports
      and the producer-clock time (seconds) at which it was sent. */
  datatype UpdateRecord = UpdateRecord(state: string, power: real, timestamp: real)

  /** Sum of the power readings in `h`, accumulated oldest first. */
  function TotalPower(h: seq<UpdateRecord>): real
  {
    if h == [] then 0.0 else TotalPower(h[..|h| - 1]) + h[|h| - 1].power
  }

  /** Adding one reading at the end adds it to the total. */
  lemma TotalPowerSnoc(h: seq<UpdateRecord>, x: UpdateRecord)
    ensures TotalPower(h + [x]) == TotalPower(h) + x.power
  {
    assert (h + [x])[..|h|] == h;
  }

  /** Arithmetic mean of the power readings of a non-empty history. */
  function MeanPower(h: seq<UpdateRecord>): real
    requires |h| > 0
  {
    TotalPower(h) / |h| as real
  }

  /** The averaging loop of the ingestion path: sums every reading held, then
      divides by how many there are. */
  method AveragePower(h: seq<UpdateRecord>) returns (avg: real)
    requires |h| > 0
    ensures avg == MeanPower(h)
  {
    var tot := 0.0;
    for i := 0 to |h|
      invariant tot == TotalPower(h[..i])
    {
      assert h[..i + 1][..i] == h[..i];
      tot := tot + h[i].power;
    }
    assert h[..|h|] == h;
    avg := tot / |h| as real;
  }

  /** Smallest reading in a non-empty history. */
  function MinPower(h: seq<UpdateRecord>): (m: real)
    requires |h| > 0
    ensures exists i :: 0 <= i < |h| && h[i].power == m
    ensures forall i :: 0 <= i < |h| ==> m <= h[i].power
  {
    if |h| == 1 then h[0].power
    else
      var m' := MinPower(h[..|h| - 1]);
      if h[|h| - 1].power < m' then h[|h| - 1].power else m'
  }

  /** Largest reading in a non-empty history. */
  function MaxPower(h: seq<UpdateRecord>): (m: real)
    requires |h| > 0
    ensures exists i :: 0 <= i < |h| && h[i].power == m
    ensures forall i :: 0 <= i < |h| ==> h[i].power <= m
  {
    if |h| == 1 then h[0].power
    else
      var m' := MaxPower(h[..|h| - 1]);
      if m' < h[|h| - 1].power then h[|h| - 1].power else m'
  }

  lemma {:induction false} TotalAtLeast(h: seq<UpdateRecord>, lo: real)
    requires forall i :: 0 <= i < |h| ==> lo <= h[i].power
    ensures |h| as real * lo <= TotalPower(h)
    decreases |h|
  {
    if h != [] {
      TotalAtLeast(h[..|h| - 1], lo);
    }
  }

  lemma {:induction false} TotalAtMost(h: seq<UpdateRecord>, hi: real)
    requires forall i :: 0 <= i < |h| ==> h[i].power <= hi
    ensures TotalPower(h) <= |h| as real * hi
    decreases |h|
  {
    if h != [] {
      TotalAtMost(h[..|h| - 1], hi);
    }
  }

  /** A lower bound on every reading bounds the mean from below. */
  lemma MeanAtLeast(h: seq<UpdateRecord>, lo: real)
    requires |h| > 0
    requires forall i :: 0 <= i < |h| ==> lo <= h[i].power
    ensures lo <= MeanPower(h)
  {
    TotalAtLeast(h, lo);
    var n := |h| as real;
    assert TotalPower(h) / n - lo == (TotalPower(h) - n * lo) / n;
  }

  /** An upper bound on every reading bounds the mean from above. */
  lemma MeanAtMost(h: seq<UpdateRecord>, hi: real)
    requires |h| > 0
    requires forall i :: 0 <= i < |h| ==> h[i].power <= hi
    ensures MeanPower(h) <= hi
  {
    TotalAtMost(h, hi);
    var n := |h| as real;
    assert hi - TotalPower(h) / n == (n * hi - TotalPower(h)) / n;
  }

  /** The mean lies between the smallest and the largest reading held. */
  lemma MeanBetweenExtremes(h: seq<UpdateRecord>)
    requires |h| > 0
    ensures MinPower(h) <= MeanPower(h) <= MaxPower(h)
  {
    MeanAtLeast(h, MinPower(h));
    MeanAtMost(h, MaxPower(h));
  }

  /** Non-negative readings have a non-negative mean. */
  lemma MeanNonNegative(h: seq<UpdateRecord>)
    requires |h| > 0
    requires forall i :: 0 <= i < |h| ==> 0.0 <= h[i].power
    ensures 0.0 <= MeanPower(h)
  {
    MeanAtLeast(h, 0.0);
  }
}

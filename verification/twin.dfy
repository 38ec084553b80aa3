/** The digital twin of one LED: its synchronisation state, its view of the
    device, the two bounded histories and the derived mean power, together
    with the operations that change them (connect, disconnect, ingest an
    update, one tick of the evaluator). */
module DigitalTwin {
  import opened BoundedHistory
  import opened VirtualLed
  import opened Telemetry
  import opened Metrics

  /** How far the twin's view of the device can be trusted. */
  datatype TwinState = Unbound | Bound | Entangled | Disentangled | Done

  datatype Option<T> = None | Some(value: T)

  /** The twin aggregate. `averagePower` is absent until the first update. */
  datatype Twin = Twin(
    state: TwinState,
    led: LedView,
    updates: seq<UpdateRecord>,
    latencies: seq<real>,
    averagePower: Option<real>)

  /** ODTE level that separates a trusted view from an untrusted one. */
  const OdteThreshold: real := 0.6

  /** Evaluator parameters: a window of 10 positions / seconds, a 0.5 s
      latency deadline, one update expected per second. */
  const EvaluationWindow: int := 10
  const EvaluationDeadline: real := 0.5
  const ExpectedRate: int := 1

  /** A freshly constructed twin, before it connects to the transport. The
      constructor connects straight away, so the evaluator's first tick sees
      `Connect(Fresh)`, which is BOUND. */
  const Fresh: Twin := Twin(Unbound, InitialView, [], [], None)

  /** What every reachable twin satisfies: both histories within capacity and
      of equal length (one latency per update), and the stored mean agreeing
      with the updates currently held. */
  predicate Valid(t: Twin)
  {
    && |t.updates| <= Capacity
    && |t.latencies| == |t.updates|
    && (if t.updates == [] then t.averagePower == None
        else t.averagePower == Some(MeanPower(t.updates)))
  }

  lemma FreshIsValid()
    ensures Valid(Fresh) && Fresh.state == Unbound
  {
  }

  // ------------------------------------------------------ connection lifecycle

  /** Establishing the transport subscription binds the twin. */
  function Connect(t: Twin): (r: Twin)
    ensures r.state == Bound
    ensures r.led == t.led && r.updates == t.updates && r.latencies == t.latencies
    ensures r.averagePower == t.averagePower
    ensures Valid(t) ==> Valid(r)
  {
    t.(state := Bound)
  }

  /** Stopping the transport loop unbinds the twin; the histories are kept. */
  function Disconnect(t: Twin): (r: Twin)
    ensures r.state == Unbound
    ensures r.led == t.led && r.updates == t.updates && r.latencies == t.latencies
    ensures r.averagePower == t.averagePower
    ensures Valid(t) ==> Valid(r)
  {
    t.(state := Unbound)
  }

  // ------------------------------------------------------------------- ingest

  /** Perceived latency of one update: time from its producer timestamp to its
      reception, plus the twin's own processing time. */
  function Latency(rec: UpdateRecord, received: real, execDuration: real): real
  {
    received - rec.timestamp + execDuration
  }

  /** The twin after an update, and whether the power alert fires. */
  datatype Ingested = Ingested(twin: Twin, alert: bool)

  /** Handles one decoded update received at `received` whose processing took
      `execDuration`. */
  function Ingest(t: Twin, rec: UpdateRecord, received: real, execDuration: real, powerThreshold: real): (o: Ingested)
    requires |t.updates| <= Capacity && |t.latencies| <= Capacity
    ensures o.twin.updates == Append(t.updates, rec)
    ensures o.twin.averagePower == Some(MeanPower(o.twin.updates))
    ensures o.alert <==> MeanPower(o.twin.updates) > powerThreshold
    ensures o.twin.led.state == On <==> IsSubstring(rec.state, "ON")
    ensures o.twin.led.power == rec.power
    ensures o.twin.latencies == Append(t.latencies, received - rec.timestamp + execDuration)
    ensures o.twin.state == t.state
  {
    var updates := Append(t.updates, rec);
    var led := LedView(StateFromText(rec.state), rec.power);
    var average := MeanPower(updates);
    var alert := average > powerThreshold;
    var latencies := Append(t.latencies, Latency(rec, received, execDuration));
    Ingested(Twin(t.state, led, updates, latencies, Some(average)), alert)
  }

  /** Ingestion keeps a valid twin valid, and the new mean lies between the
      smallest and largest power held; it is non-negative when every held
      power is. */
  lemma IngestPreservesValid(t: Twin, rec: UpdateRecord, received: real, execDuration: real, powerThreshold: real)
    requires Valid(t)
    ensures var o := Ingest(t, rec, received, execDuration, powerThreshold);
      && Valid(o.twin)
      && o.twin.updates != []
      && MinPower(o.twin.updates) <= o.twin.averagePower.value <= MaxPower(o.twin.updates)
      && ((forall i :: 0 <= i < |o.twin.updates| ==> 0.0 <= o.twin.updates[i].power)
          ==> 0.0 <= o.twin.averagePower.value)
  {
    var o := Ingest(t, rec, received, execDuration, powerThreshold);
    MeanBetweenExtremes(o.twin.updates);
    if forall i :: 0 <= i < |o.twin.updates| ==> 0.0 <= o.twin.updates[i].power {
      MeanNonNegative(o.twin.updates);
    }
  }

  /** One delivery from the transport: the decoded record, the time it was
      received and how long the twin took to process it. */
  datatype Arrival = Arrival(record: UpdateRecord, received: real, execDuration: real)

  function RecordsOf(arrivals: seq<Arrival>): (r: seq<UpdateRecord>)
    ensures |r| == |arrivals|
    ensures forall i :: 0 <= i < |arrivals| ==> r[i] == arrivals[i].record
  {
    seq(|arrivals|, i requires 0 <= i < |arrivals| => arrivals[i].record)
  }

  function LatenciesOf(arrivals: seq<Arrival>): (r: seq<real>)
    ensures |r| == |arrivals|
    ensures forall i :: 0 <= i < |arrivals| ==>
      r[i] == Latency(arrivals[i].record, arrivals[i].received, arrivals[i].execDuration)
  {
    seq(|arrivals|, i requires 0 <= i < |arrivals| =>
      Latency(arrivals[i].record, arrivals[i].received, arrivals[i].execDuration))
  }

  /** Ingests a stream of deliveries in arrival order. */
  function IngestAll(t: Twin, arrivals: seq<Arrival>, powerThreshold: real): (r: Twin)
    requires |t.updates| <= Capacity && |t.latencies| <= Capacity
    ensures |r.updates| <= Capacity && |r.latencies| <= Capacity
    decreases |arrivals|
  {
    if arrivals == [] then t
    else
      var a := arrivals[0];
      IngestAll(Ingest(t, a.record, a.received, a.execDuration, powerThreshold).twin, arrivals[1..], powerThreshold)
  }

  /** Ingesting a stream appends its records to the update history one by
      one, in arrival order. */
  lemma {:induction false} IngestAllAppendsRecords(t: Twin, arrivals: seq<Arrival>, powerThreshold: real)
    requires |t.updates| <= Capacity && |t.latencies| <= Capacity
    ensures IngestAll(t, arrivals, powerThreshold).updates == AppendAll(t.updates, RecordsOf(arrivals))
    decreases |arrivals|
  {
    if arrivals != [] {
      var a := arrivals[0];
      var t' := Ingest(t, a.record, a.received, a.execDuration, powerThreshold).twin;
      assert IngestAll(t, arrivals, powerThreshold) == IngestAll(t', arrivals[1..], powerThreshold);
      IngestAllAppendsRecords(t', arrivals[1..], powerThreshold);
      var rs := RecordsOf(arrivals);
      assert RecordsOf(arrivals[1..]) == rs[1..];
      assert AppendAll(t.updates, rs) == AppendAll(Append(t.updates, rs[0]), rs[1..]);
    }
  }

  /** Ingesting a stream appends one latency per delivery to the latency
      history, in arrival order. */
  lemma {:induction false} IngestAllAppendsLatencies(t: Twin, arrivals: seq<Arrival>, powerThreshold: real)
    requires |t.updates| <= Capacity && |t.latencies| <= Capacity
    ensures IngestAll(t, arrivals, powerThreshold).latencies == AppendAll(t.latencies, LatenciesOf(arrivals))
    decreases |arrivals|
  {
    if arrivals != [] {
      var a := arrivals[0];
      var t' := Ingest(t, a.record, a.received, a.execDuration, powerThreshold).twin;
      assert IngestAll(t, arrivals, powerThreshold) == IngestAll(t', arrivals[1..], powerThreshold);
      IngestAllAppendsLatencies(t', arrivals[1..], powerThreshold);
      var ls := LatenciesOf(arrivals);
      assert LatenciesOf(arrivals[1..]) == ls[1..];
      assert AppendAll(t.latencies, ls) == AppendAll(Append(t.latencies, ls[0]), ls[1..]);
    }
  }

  /** Ingestion never touches the synchronisation state. */
  lemma {:induction false} IngestAllKeepsState(t: Twin, arrivals: seq<Arrival>, powerThreshold: real)
    requires |t.updates| <= Capacity && |t.latencies| <= Capacity
    ensures IngestAll(t, arrivals, powerThreshold).state == t.state
    decreases |arrivals|
  {
    if arrivals != [] {
      var a := arrivals[0];
      var t' := Ingest(t, a.record, a.received, a.execDuration, powerThreshold).twin;
      IngestAllKeepsState(t', arrivals[1..], powerThreshold);
    }
  }

  /** Ingestion of any stream keeps a valid twin valid. */
  lemma {:induction false} IngestAllPreservesValid(t: Twin, arrivals: seq<Arrival>, powerThreshold: real)
    requires Valid(t)
    ensures Valid(IngestAll(t, arrivals, powerThreshold))
    decreases |arrivals|
  {
    if arrivals != [] {
      var a := arrivals[0];
      IngestPreservesValid(t, a.record, a.received, a.execDuration, powerThreshold);
      var t' := Ingest(t, a.record, a.received, a.execDuration, powerThreshold).twin;
      IngestAllPreservesValid(t', arrivals[1..], powerThreshold);
    }
  }

  /** After any stream, the update history holds exactly the newest
      `Capacity` records in arrival order, the latency history the matching
      latencies, and the stored mean is the mean over those records. From a
      fresh twin, `n` deliveries leave `min(n, Capacity)` records. */
  lemma IngestAllKeepsNewest(t: Twin, arrivals: seq<Arrival>, powerThreshold: real)
    requires Valid(t)
    ensures var r := IngestAll(t, arrivals, powerThreshold);
      && r.updates == LastN(t.updates + RecordsOf(arrivals), Capacity)
      && r.latencies == LastN(t.latencies + LatenciesOf(arrivals), Capacity)
      && (r.updates != [] ==> r.averagePower == Some(MeanPower(r.updates)))
      && (t.updates == [] ==> |r.updates| == if |arrivals| < Capacity then |arrivals| else Capacity)
  {
    IngestAllAppendsRecords(t, arrivals, powerThreshold);
    IngestAllAppendsLatencies(t, arrivals, powerThreshold);
    IngestAllPreservesValid(t, arrivals, powerThreshold);
    AppendAllKeepsNewest(t.updates, RecordsOf(arrivals));
    AppendAllKeepsNewest(t.latencies, LatenciesOf(arrivals));
    if t.updates == [] {
      assert t.updates + RecordsOf(arrivals) == RecordsOf(arrivals);
    }
  }

  // ------------------------------------------------------------ state machine

  /** The states in which the evaluator scores the twin. */
  predicate Evaluating(s: TwinState)
  {
    s == Bound || s == Entangled || s == Disentangled
  }

  /** The transition rule applied to one freshly computed ODTE: a drop below
      the threshold disentangles an entangled twin, then a score above it
      entangles a bound or disentangled one. Both comparisons are strict. */
  function Transition(s: TwinState, odte: real, threshold: real): (s': TwinState)
    ensures s == Unbound || s == Done ==> s' == s
    ensures s == Entangled ==> s' == (if odte < threshold then Disentangled else Entangled)
    ensures s == Bound ==> s' == (if odte > threshold then Entangled else Bound)
    ensures s == Disentangled ==> s' == (if odte > threshold then Entangled else Disentangled)
  {
    var afterDrop := if odte < threshold && s == Entangled then Disentangled else s;
    if odte > threshold && (afterDrop == Disentangled || afterDrop == Bound) then Entangled
    else afterDrop
  }

  /** The edges of the synchronisation state machine that the evaluator can
      take. */
  predicate Edge(s: TwinState, s': TwinState)
  {
    || (s == Bound && s' == Entangled)
    || (s == Entangled && s' == Disentangled)
    || (s == Disentangled && s' == Entangled)
  }

  /** A score exactly at the threshold changes no state. */
  lemma TransitionAtThreshold(s: TwinState, threshold: real)
    ensures Transition(s, threshold, threshold) == s
  {
  }

  /** A tick takes at most one edge, never from BOUND straight to
      DISENTANGLED, and never yields DONE from another state. */
  lemma TransitionTakesOneEdge(s: TwinState, odte: real, threshold: real)
    ensures Transition(s, odte, threshold) == s || Edge(s, Transition(s, odte, threshold))
    ensures s == Bound ==> Transition(s, odte, threshold) != Disentangled
    ensures Transition(s, odte, threshold) == Done <==> s == Done
  {
  }

  /** Re-applying the rule with the same score changes nothing more. */
  lemma TransitionSettles(s: TwinState, odte: real, threshold: real)
    ensures Transition(Transition(s, odte, threshold), odte, threshold) == Transition(s, odte, threshold)
  {
  }

  /** ODTE as the evaluator computes it. */
  function EvaluatorOdte(t: Twin, now: real): real
  {
    Odte(t.latencies, t.updates, EvaluationWindow, EvaluationDeadline, ExpectedRate, now)
  }

  /** One tick of the evaluator at time `now`: a bound, entangled or
      disentangled twin is scored and the transition rule applied; an unbound
      or finished twin is left alone. Only the state can change. */
  function Tick(t: Twin, now: real): (r: Twin)
    ensures r.led == t.led && r.updates == t.updates && r.latencies == t.latencies
    ensures r.averagePower == t.averagePower
    ensures !Evaluating(t.state) ==> r == t
    ensures Evaluating(t.state) ==> Evaluating(r.state)
    ensures r.state == t.state || Edge(t.state, r.state)
    ensures t.state == Entangled ==>
      (r.state == Disentangled <==> EvaluatorOdte(t, now) < OdteThreshold)
    ensures t.state == Bound || t.state == Disentangled ==>
      (r.state == Entangled <==> EvaluatorOdte(t, now) > OdteThreshold)
    ensures Valid(t) ==> Valid(r)
  {
    if Evaluating(t.state) then
      var s' := Transition(t.state, EvaluatorOdte(t, now), OdteThreshold);
      TransitionTakesOneEdge(t.state, EvaluatorOdte(t, now), OdteThreshold);
      t.(state := s')
    else t
  }

  /** Before any latency has been observed the score is zero: an entangled
      twin disentangles and every other state stays put. */
  lemma TickWithoutObservations(t: Twin, now: real)
    requires t.latencies == []
    ensures Tick(t, now).state == if t.state == Entangled then Disentangled else t.state
  {
    assert EvaluatorOdte(t, now) == 0.0;
  }

  /** Once every one of the newest `EvaluationWindow` records was sent within
      the last `EvaluationWindow` seconds and every latency meets the
      deadline, the score is 1 and a bound or disentangled twin entangles. */
  lemma TickWithPerfectScore(t: Twin, now: real)
    requires |t.updates| >= EvaluationWindow && t.latencies != []
    requires forall i :: 0 <= i < |t.latencies| ==> t.latencies[i] <= EvaluationDeadline
    requires forall i :: |t.updates| - EvaluationWindow <= i < |t.updates| ==>
      InWindow(t.updates[i], now, EvaluationWindow)
    ensures EvaluatorOdte(t, now) == 1.0
    ensures t.state == Bound || t.state == Disentangled ==> Tick(t, now).state == Entangled
  {
    var ex := Examined(t.updates, EvaluationWindow);
    forall i | 0 <= i < |ex|
      ensures InWindow(ex[i], now, EvaluationWindow)
    {
      assert ex[i] == t.updates[|t.updates| - EvaluationWindow + i];
    }
    ReliabilityAllInWindow(t.updates, EvaluationWindow, ExpectedRate, now);
  }
}

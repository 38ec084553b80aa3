# Digital twin of an LED: synchronisation quality and state machine

This project models the twin side of a digital-twin system for one LED. The
twin consumes a stream of device updates. Each update carries a state text, a
power reading and a producer timestamp. The twin keeps the newest 100 updates
and the newest 100 latency observations. It tracks the last-seen LED state and
power and recomputes the mean power after every update. From the two histories
it scores the synchronisation quality, ODTE (timeliness × reliability ×
availability). A once-per-second evaluator uses that score to move the twin
between BOUND, ENTANGLED and DISENTANGLED.

The model consists of pure functions over an immutable `Twin` record, and of
loop methods without side effects for the three computation loops. Exact `real`
arithmetic stands in for floating point. Time is passed in as parameters:
`received`, `execDuration` and `now`.

Files and modules:

- `bounded_history.dfy` (`BoundedHistory`): a buffer that holds at most 100
  entries and evicts the oldest first.
- `virtual_led.dfy` (`VirtualLed`): the LED view and the `"ON"` substring test
  that decides the LED state.
- `telemetry.dfy` (`Telemetry`): update records, the total and mean power, and
  the averaging loop.
- `counting.dfy` (`Counting`): counting the elements that satisfy a predicate.
  Both metric loops use it.
- `metrics.dfy` (`Metrics`): timeliness, reliability, availability and ODTE,
  plus the two counting loops.
- `twin.dfy` (`DigitalTwin`): the twin record and its invariant, connect and
  disconnect, ingestion (one update or a stream), the transition rule and the
  evaluator tick.
- `scenarios.dfy` (`Scenarios`): concrete scenarios (the power alert, a timeliness
  value, a walk through the states).

Behaviour of the code that the model keeps as it is:

- Reliability divides by window × rate without a guard (dt/main.py:145-147).
  A zero product raises a division error, so `Metrics.Reliability` and
  `Metrics.Odte` require `w * e != 0`.
- BOUND and DISENTANGLED both enter ENTANGLED only on a score strictly above
  the threshold (dt/main.py:169). A score exactly at 0.6 therefore changes no
  state.
- The LED state comes from a substring test on the update's state text
  (dt/main.py:79). The code checks whether `"ON"` occurs anywhere in the text,
  so `"LED_STATE.ON"` counts as on.
- The mean power is never computed over an empty history. It stays absent
  (`None`) until the first update and is recomputed after every update
  (dt/main.py:56, 84-87).

## Model

| member | source | states |
|---|---|---|
| BoundedHistory.Append | dt/main.py:55-57 | at most 100 entries stay; the new item is last; below capacity nothing is dropped; at capacity exactly the oldest is dropped and the rest keep their order |
| BoundedHistory.AppendKeepsNewest | dt/main.py:55-57 | one append leaves exactly the newest 100 entries of the old contents followed by the new item |
| BoundedHistory.AppendAllKeepsNewest | dt/main.py:55-57 | after any sequence of appends the buffer equals the newest 100 entries of everything appended, in arrival order (FIFO eviction) |
| BoundedHistory.AppendAllFromEmpty | dt/main.py:55-57 | n appends to an empty buffer leave min(n, 100) entries, the newest ones |
| VirtualLed.ContainsIsSubstring | dt/main.py:79 | the executable containment test holds iff the pattern occurs as a contiguous block somewhere in the text |
| VirtualLed.StateFromText | dt/main.py:79 | the derived LED state is ON iff the state text contains "ON", otherwise OFF |
| Telemetry.AveragePower | dt/main.py:84-87 | the summing loop over the history, divided by the count, yields the arithmetic mean of exactly the readings held |
| Telemetry.MeanAtLeast | dt/main.py:84-87 | a lower bound on every reading is a lower bound on the mean |
| Telemetry.MeanAtMost | dt/main.py:84-87 | an upper bound on every reading is an upper bound on the mean |
| Telemetry.MeanBetweenExtremes | dt/main.py:84-87 | the mean lies between the smallest and the largest reading held |
| Telemetry.MeanNonNegative | dt/main.py:84-87 | non-negative readings give a non-negative mean |
| Metrics.Timeliness | dt/main.py:118-131 | the result lies in [0, 1]; it is 0 with no observations; it is 1 iff there are observations and all meet the deadline; it is 0 iff none does |
| Metrics.TimelinessIsFraction | dt/main.py:124-129 | with observations, timeliness is the number of positions whose latency is at or under the deadline divided by the number of observations |
| Metrics.TimelinessMonotonic | dt/main.py:118-131 | a later deadline never lowers timeliness for the same observations |
| Metrics.ComputeTimeliness | dt/main.py:118-131 | the counting loop, with its early return on no observations, computes timeliness |
| Metrics.Reliability | dt/main.py:133-147 | the result is 0 on an empty history; it is non-negative when w*e > 0; for w, e > 0 it is at most min(w, n)/(w*e) |
| Metrics.SliceFromEndStart | dt/main.py:138 | the slice `[-w:]` starts inside the history; for positive w it leaves exactly min(w, n) entries after the start; for w <= 0 it starts at index -w, clamped to the length |
| Metrics.ExaminedIsNewest | dt/main.py:137-138 | for a positive window the examined records are the newest min(w, n) by position |
| Metrics.ReliabilityIsWindowCount | dt/main.py:137-147 | reliability is the number of positions among the newest w whose timestamp lies in [now - w, now], divided by w*e |
| Metrics.ReliabilityIgnoresOlder | dt/main.py:137-138 | records older than the newest w never change reliability |
| Metrics.ReliabilityAllInWindow | dt/main.py:140-147 | when every examined record lies in the window, reliability is min(w, n)/(w*e) |
| Metrics.CountInWindow | dt/main.py:140-143 | the counting loop counts exactly the records whose timestamp lies in [now - w, now] |
| Metrics.ComputeReliability | dt/main.py:133-147 | the slice-and-count loop computes reliability |
| Metrics.Availability | dt/main.py:149-150 | availability is the constant 1.0 |
| Metrics.Odte | dt/main.py:149-157 | ODTE is 0 with no observations or no updates; for w*e > 0 it lies between 0 and reliability; it is 0 iff timeliness or reliability is 0 |
| Metrics.OdteIsProduct | dt/main.py:149-157 | ODTE equals timeliness times reliability, availability being the constant 1 |
| DigitalTwin.FreshIsValid | dt/main.py:50-57 | a new twin is UNBOUND with empty histories and no mean, which satisfies the twin invariant; the constructor then connects at once (dt/main.py:59, 110), so the evaluator only ever sees it BOUND or later |
| DigitalTwin.Connect | dt/main.py:110 | connecting yields BOUND; the device view, histories and mean are untouched; the invariant is kept |
| DigitalTwin.Disconnect | dt/main.py:114-116 | disconnecting yields UNBOUND; the device view, histories and mean are untouched; the invariant is kept |
| DigitalTwin.Ingest | dt/main.py:68-99 | the record is appended to the bounded update history; the LED view is ON iff the text contains "ON" and its power is the record's power; the stored mean is the mean over the updates now held; the alert fires iff that mean exceeds the threshold; exactly the latency received - timestamp + execDuration is appended; the synchronisation state is unchanged |
| DigitalTwin.IngestPreservesValid | dt/main.py:84-87 | after ingest the history is non-empty, the invariant holds, and the mean lies between the smallest and largest reading, non-negative when every reading is |
| DigitalTwin.IngestAllAppendsRecords | dt/main.py:74 | ingesting a stream appends its records to the update history one by one in arrival order |
| DigitalTwin.IngestAllAppendsLatencies | dt/main.py:94-99 | ingesting a stream appends one latency per delivery, in arrival order |
| DigitalTwin.IngestAllKeepsState | dt/main.py:68-99 | ingesting any stream leaves the synchronisation state unchanged |
| DigitalTwin.IngestAllPreservesValid | dt/main.py:68-99 | ingesting any stream keeps a valid twin valid |
| DigitalTwin.IngestAllKeepsNewest | dt/main.py:55-57 | after any stream, the update history is the newest 100 records and the latency history the matching latencies; the stored mean is the mean over the records held; from a fresh twin n deliveries leave min(n, 100) records |
| DigitalTwin.Transition | dt/main.py:167-170 | UNBOUND and DONE are unchanged; ENTANGLED goes to DISENTANGLED iff the score is strictly below the threshold; BOUND and DISENTANGLED go to ENTANGLED iff the score is strictly above it, otherwise stay |
| DigitalTwin.TransitionAtThreshold | dt/main.py:167-170 | a score exactly at the threshold changes no state |
| DigitalTwin.TransitionTakesOneEdge | dt/main.py:167-170 | one application takes at most one edge of the state machine; BOUND never goes straight to DISENTANGLED; DONE is produced only from DONE |
| DigitalTwin.TransitionSettles | dt/main.py:167-170 | applying the rule again with the same score changes nothing further |
| DigitalTwin.Tick | dt/main.py:161-171 | an UNBOUND or DONE twin is left alone; otherwise only the state changes, along at most one edge, staying among the evaluated states; an ENTANGLED twin becomes DISENTANGLED iff the (10, 0.5, 1) score is below 0.6; a BOUND or DISENTANGLED twin becomes ENTANGLED iff that score is above 0.6; the invariant is kept |
| DigitalTwin.TickWithoutObservations | dt/main.py:162-170 | with no latency observed, the score is 0: ENTANGLED disentangles and every other state stays |
| DigitalTwin.TickWithPerfectScore | dt/main.py:162-170 | when the newest 10 records lie in the 10-second window and every latency meets 0.5 s, the score is 1 and BOUND or DISENTANGLED becomes ENTANGLED |
| Scenarios.PowerAlertScenario | dt/main.py:84-92 | three readings of 0.1 average 0.1 with no alert at 0.2; a fourth of 1.0 averages 0.325 and alerts |
| Scenarios.TimelinessScenario | dt/main.py:118-131 | latencies 0.1, 0.6, 0.2 against 0.5 give timeliness 2/3 |
| Scenarios.EntanglementScenario | dt/main.py:159-170 | BOUND enters ENTANGLED above 0.6; a drop below disentangles; exactly 0.6 does not recover; above does; disconnect unbinds |

## Left out

- MQTT client setup, subscription and the network loop (dt/main.py:102-116) are transport plumbing. Only the resulting state assignments are modelled, as `Connect` and `Disconnect`.
- The key-value store writes and the startup restore (dt/main.py:12, 76-77, 82, 88, 177-192) are external storage I/O. The restore rebuilds the history newest-first and restores the power and state as raw strings. A restored twin need not satisfy `Valid`.
- The HTTP `/metrics` endpoint (dt/main.py:194-201) is formatting around one ODTE call with window 30, deadline 0.5 and rate 1. `Metrics.Odte` covers that call.
- Environment configuration and process exit (dt/main.py:5-23) are left out. The power threshold is a `real` parameter. A threshold set through the environment would stay a string (dt/main.py:13), and the comparison at dt/main.py:91 would then fail at run time.
- Ingestion is modelled as all-or-nothing: the model assumes every delivery's handler (dt/main.py:68-99) runs to completion. In the code an exception after the append at dt/main.py:74 leaves the record held but appends no latency (dt/main.py:99), so `Valid`'s one latency per update no longer holds. A failing store write (dt/main.py:76-77, 82) also leaves the LED view and the mean stale. A threshold that stayed a string (dt/main.py:13) makes every delivery raise at dt/main.py:91; the latency history then stays empty, timeliness and ODTE stay 0, and the twin never leaves BOUND.
- JSON decoding of the payload (dt/main.py:73) is left out. Ingestion takes an already-decoded record.
- Clocks, the evaluator thread, its one-second sleep and the lack of locking between ingestion and evaluation are left out. `received`, `execDuration` and `now` are inputs. The two clock reads that bound the reliability window (dt/main.py:134-135) are one `now`.
- Diagnostic printing, including the alert message, is left out. The alert is returned as a boolean.
- IEEE floating-point rounding is not modelled. All arithmetic is exact `real`.
- The device simulator (pt/main.py) is not part of this model. It produces updates using random power draw and random toggling.
- The unused `_ODTE` field (dt/main.py:54) is not modelled.

/** Concrete scenarios of the twin: the power-alert sequence, a timeliness value
    and a walk through the synchronisation states. */
module Scenarios {
  import opened Counting
  import opened Telemetry
  import opened Metrics
  import opened DigitalTwin

  /** Three readings of 0.1 average 0.1 and raise no alert at threshold 0.2;
      a fourth reading of 1.0 lifts the average to 0.325 and raises it,
      whatever state text the updates carry. */
  lemma PowerAlertScenario(text: string)
    ensures var r := UpdateRecord(text, 0.1, 0.0);
      var o1 := Ingest(Fresh, r, 0.0, 0.0, 0.2);
      var o2 := Ingest(o1.twin, r, 0.0, 0.0, 0.2);
      var o3 := Ingest(o2.twin, r, 0.0, 0.0, 0.2);
      var o4 := Ingest(o3.twin, UpdateRecord(text, 1.0, 0.0), 0.0, 0.0, 0.2);
      && o3.twin.averagePower == Some(0.1) && !o3.alert
      && o4.twin.averagePower == Some(0.325) && o4.alert
  {
    var r := UpdateRecord(text, 0.1, 0.0);
    var r4 := UpdateRecord(text, 1.0, 0.0);
    var o1 := Ingest(Fresh, r, 0.0, 0.0, 0.2);
    assert o1.twin.updates == [r];
    var o2 := Ingest(o1.twin, r, 0.0, 0.0, 0.2);
    assert o2.twin.updates == [r, r];
    var o3 := Ingest(o2.twin, r, 0.0, 0.0, 0.2);
    assert o3.twin.updates == [r, r, r];
    var o4 := Ingest(o3.twin, r4, 0.0, 0.0, 0.2);
    assert o4.twin.updates == [r, r, r, r4];
    assert TotalPower([r, r, r]) == 0.3 by {
      TotalPowerSnoc([], r);
      TotalPowerSnoc([r], r);
      TotalPowerSnoc([r, r], r);
    }
    assert TotalPower([r, r, r, r4]) == 1.3 by {
      TotalPowerSnoc([r, r, r], r4);
    }
  }

  /** Latencies 0.1, 0.6 and 0.2 against a 0.5 s deadline: two of three meet
      it. */
  lemma TimelinessScenario()
    ensures Timeliness([0.1, 0.6, 0.2], 0.5) == 2.0 / 3.0
  {
    var obs := [0.1, 0.6, 0.2];
    var p := WithinDeadline(0.5);
    assert obs[..2] == [0.1, 0.6] && obs[..2][..1] == [0.1] && obs[..2][..1][..0] == [];
    assert Count(obs, p) == 2;
  }

  /** A bound twin scoring above 0.6 entangles, a drop below disentangles, a
      score of exactly 0.6 does not recover it, a score above does, and a
      disconnect unbinds it from there. */
  lemma EntanglementScenario()
    ensures Transition(Bound, 0.6, OdteThreshold) == Bound
    ensures Transition(Bound, 0.7, OdteThreshold) == Entangled
    ensures Transition(Entangled, 0.5, OdteThreshold) == Disentangled
    ensures Transition(Disentangled, 0.6, OdteThreshold) == Disentangled
    ensures Transition(Disentangled, 0.61, OdteThreshold) == Entangled
    ensures Disconnect(Fresh.(state := Entangled)).state == Unbound
  {
  }
}

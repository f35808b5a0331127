/** Health probing: the locked update of one backend's flag from one probe outcome,
    and one sweep of the probe loop over the whole list. */
module Health {
  import opened Registry
  import opened Selector

  /** What one probe of `url + healthCheckPath` observed: a transport-level failure
      (refused connection, timeout, DNS failure) or a response with its status code. */
  datatype ProbeOutcome = TransportError | Response(status: int)

  /** One probe result written into the registry: backend `i` is up exactly when the
      probe got a response with status 200. Nothing else in the registry changes. */
  function SetHealth(p: Pool, i: nat, o: ProbeOutcome): (q: Pool)
    requires i < |p.backends|
    ensures q.cursor == p.cursor
    ensures SameBackendsUpToHealth(p, q)
    ensures q.backends[i].healthy <==> o == Response(200)
    ensures forall j :: 0 <= j < |p.backends| && j != i ==> q.backends[j] == p.backends[j]
  {
    var up := match o
      case TransportError => false
      case Response(code) => code == 200;
    p.(backends := p.backends[i := p.backends[i].(healthy := up)])
  }

  /** Probing keeps no history: only the latest outcome for a backend matters. */
  lemma LatestProbeWins(p: Pool, i: nat, o1: ProbeOutcome, o2: ProbeOutcome)
    requires i < |p.backends|
    ensures SetHealth(SetHealth(p, i, o1), i, o2) == SetHealth(p, i, o2)
  {
  }

  /** Probes of different backends do not interfere: their updates commute. */
  lemma ProbesCommute(p: Pool, i: nat, oi: ProbeOutcome, j: nat, oj: ProbeOutcome)
    requires i < |p.backends| && j < |p.backends| && i != j
    ensures SetHealth(SetHealth(p, i, oi), j, oj) == SetHealth(SetHealth(p, j, oj), i, oi)
  {
    var a := SetHealth(SetHealth(p, i, oi), j, oj);
    var b := SetHealth(SetHealth(p, j, oj), i, oi);
    assert a.backends == b.backends;
  }

  /** One sweep of the probe loop: backend `i` is probed with outcome `outcomes[i]`,
      in list order, each update its own atomic step. */
  method ProbeRound(p: Pool, outcomes: seq<ProbeOutcome>) returns (q: Pool)
    requires |outcomes| == |p.backends|
    ensures q.cursor == p.cursor
    ensures SameBackendsUpToHealth(p, q)
    ensures forall i :: 0 <= i < |p.backends| ==> (q.backends[i].healthy <==> outcomes[i] == Response(200))
  {
    q := p;
    for i := 0 to |p.backends|
      invariant q.cursor == p.cursor
      invariant SameBackendsUpToHealth(p, q)
      invariant forall j :: 0 <= j < i ==> (q.backends[j].healthy <==> outcomes[j] == Response(200))
    {
      q := SetHealth(q, i, outcomes[i]);
    }
  }

  /** Recovery is immediate: the very next selection after a successful probe succeeds,
      and when no other backend is up it returns the recovered one. */
  lemma RecoveryIsImmediate(p: Pool, i: nat)
    requires i < |p.backends|
    ensures Select(SetHealth(p, i, Response(200))).selection.Picked?
    ensures NoneHealthy(p) ==> Select(SetHealth(p, i, Response(200))).selection == Picked(i)
  {
    var q := SetHealth(p, i, Response(200));
    assert q.backends[i].healthy;
  }

  /** A failed probe (transport error or any status other than 200) takes the backend
      out of the next selection. */
  lemma FailedProbeExcludes(p: Pool, i: nat, o: ProbeOutcome)
    requires i < |p.backends| && o != Response(200)
    ensures Select(SetHealth(p, i, o)).selection != Picked(i)
  {
  }
}

/** Consecutive selections against a registry whose health flags do not change in
    between: the round-robin guarantees of `getNextHealthyBackend` over many calls. */
module Rotation {
  import opened Registry
  import opened Selector
  import Arith

  /** The outcomes of a run of selections, in call order, and the registry after it. */
  datatype Trace = Trace(picks: seq<Selection>, pool: Pool)

  /** `m` consecutive selections, each one an atomic step on the registry. */
  function Run(p: Pool, m: nat): (t: Trace)
    ensures |t.picks| == m
    ensures t.pool.backends == p.backends
    decreases m
  {
    if m == 0 then Trace([], p)
    else
      var s := Select(p);
      var rest := Run(s.pool, m - 1);
      Trace([s.selection] + rest.picks, rest.pool)
  }

  /** A shorter run is a prefix of a longer one from the same registry. */
  lemma {:induction false} RunPrefix(p: Pool, a: nat, b: nat)
    requires a <= b
    ensures Run(p, a).picks == Run(p, b).picks[..a]
    decreases a
  {
    if a > 0 {
      RunPrefix(Select(p).pool, a - 1, b - 1);
    }
  }

  /** A run of `m + 1` calls is a run of `m` calls followed by one more selection. */
  lemma {:induction false} RunLast(p: Pool, m: nat)
    ensures Run(p, m + 1).picks == Run(p, m).picks + [Select(Run(p, m).pool).selection]
    ensures Run(p, m + 1).pool == Select(Run(p, m).pool).pool
    decreases m
  {
    if m > 0 {
      RunLast(Select(p).pool, m - 1);
    }
  }

  /** The cursor invariant `0 <= currentIdx < len(backends)` holds after any number of
      selections once it holds initially (and it holds for the initial cursor 0). */
  lemma {:induction false} RunKeepsCursorInRange(p: Pool, m: nat)
    requires CursorInRange(p)
    ensures CursorInRange(Run(p, m).pool)
    decreases m
  {
    if m > 0 {
      RunKeepsCursorInRange(Select(p).pool, m - 1);
    }
  }

  /** With every backend healthy, call `j` of a run returns the backend `j` places after
      the cursor, wrapping around the list. */
  lemma {:induction false} RoundRobinAllHealthy(p: Pool, m: nat)
    requires CursorInRange(p) && |p.backends| > 0
    requires forall k :: 0 <= k < |p.backends| ==> p.backends[k].healthy
    ensures forall j :: 0 <= j < m ==> Run(p, m).picks[j] == Picked(Slot(|p.backends|, p.cursor, j))
    decreases m
  {
    var n := |p.backends|;
    if m > 0 {
      SelectAllHealthy(p);
      var q := Select(p).pool;
      RoundRobinAllHealthy(q, m - 1);
      forall j | 1 <= j < m
        ensures Run(p, m).picks[j] == Picked(Slot(n, p.cursor, j))
      {
        assert Run(p, m).picks[j] == Run(q, m - 1).picks[j - 1];
        Arith.ModReduce(n, p.cursor + 1, j - 1);
      }
    }
  }

  /** Rotation fairness: with all `n` backends healthy, `n` consecutive selections return
      every backend exactly once. */
  lemma EachBackendOnce(p: Pool)
    requires CursorInRange(p) && |p.backends| > 0
    requires forall k :: 0 <= k < |p.backends| ==> p.backends[k].healthy
    ensures forall i, j :: 0 <= i < j < |p.backends| ==> Run(p, |p.backends|).picks[i] != Run(p, |p.backends|).picks[j]
    ensures forall k :: 0 <= k < |p.backends| ==> Picked(k) in Run(p, |p.backends|).picks
  {
    var n := |p.backends|;
    var picks := Run(p, n).picks;
    RoundRobinAllHealthy(p, n);
    forall i, j | 0 <= i < j < n
      ensures picks[i] != picks[j]
    {
      SlotDist(n, p.cursor, Slot(n, p.cursor, i), i);
      SlotDist(n, p.cursor, Slot(n, p.cursor, i), j);
    }
    forall k | 0 <= k < n
      ensures Picked(k) in picks
    {
      SlotDist(n, p.cursor, k, Dist(n, p.cursor, k));
      assert picks[Dist(n, p.cursor, k)] == Picked(k);
    }
  }

  /** A registry with exactly one healthy backend returns that backend on every call. */
  lemma {:induction false} SingleHealthyAlwaysPicked(p: Pool, h: nat, m: nat)
    requires h < |p.backends|
    requires forall k :: 0 <= k < |p.backends| ==> (p.backends[k].healthy <==> k == h)
    ensures forall j :: 0 <= j < m ==> Run(p, m).picks[j] == Picked(h)
    decreases m
  {
    if m > 0 {
      assert p.backends[h].healthy;
      assert Select(p).selection == Picked(h);
      SingleHealthyAlwaysPicked(Select(p).pool, h, m - 1);
      assert Run(p, m).picks == [Select(p).selection] + Run(Select(p).pool, m - 1).picks;
    }
  }

  /** With no healthy backend every call fails and the registry never changes. */
  lemma {:induction false} NoneHealthyAlwaysFails(p: Pool, m: nat)
    requires NoneHealthy(p)
    ensures forall j :: 0 <= j < m ==> Run(p, m).picks[j] == NoHealthyBackend
    ensures Run(p, m).pool == p
    decreases m
  {
    if m > 0 {
      NoneHealthyAlwaysFails(p, m - 1);
      assert Run(p, m).picks == [NoHealthyBackend] + Run(p, m - 1).picks;
    }
  }

  /** An unhealthy backend is never returned while its flag stays down. */
  lemma {:induction false} UnhealthyNeverPicked(p: Pool, k: nat, m: nat)
    requires !IsHealthy(p, k)
    ensures Picked(k) !in Run(p, m).picks
    decreases m
  {
    if m > 0 {
      UnhealthyNeverPicked(Select(p).pool, k, m - 1);
      assert Run(p, m).picks == [Select(p).selection] + Run(Select(p).pool, m - 1).picks;
    }
  }

  /** Moving the cursor past a backend nearer than `k` brings `k` that much closer. */
  lemma DistAfterPick(n: nat, c: nat, idx: nat, k: nat)
    requires c < n && idx < n && k < n
    requires Dist(n, c, idx) < Dist(n, c, k)
    ensures (idx + 1) % n < n
    ensures Dist(n, (idx + 1) % n, k) == Dist(n, c, k) - Dist(n, c, idx) - 1
  {
    Arith.ModOnce(n, idx + 1);
  }

  /** A selection that does not return the healthy backend `k` moves the cursor strictly
      closer to it, keeping the cursor in range. */
  lemma StepTowards(p: Pool, k: nat)
    requires CursorInRange(p) && IsHealthy(p, k)
    requires Select(p).selection != Picked(k)
    ensures CursorInRange(Select(p).pool) && IsHealthy(Select(p).pool, k)
    ensures Dist(|p.backends|, Select(p).pool.cursor, k) < Dist(|p.backends|, p.cursor, k)
  {
    var n := |p.backends|;
    var s := Select(p);
    var idx := s.selection.index;
    SelectIsFirstHealthy(p, idx);
    SlotDist(n, p.cursor, k, Dist(n, p.cursor, k));
    SlotDist(n, p.cursor, idx, Dist(n, p.cursor, k));
    DistAfterPick(n, p.cursor, idx, k);
  }

  /** The first call of a run is one selection; the rest runs from its registry. */
  lemma RunCons(p: Pool, m: nat)
    requires m > 0
    ensures Run(p, m).picks == [Select(p).selection] + Run(Select(p).pool, m - 1).picks
    ensures Run(p, m).pool == Run(Select(p).pool, m - 1).pool
  {
  }

  /** No starvation: a healthy backend is returned within the calls needed to reach it
      from the cursor. */
  lemma {:induction false} NoStarvation(p: Pool, k: nat)
    requires CursorInRange(p) && IsHealthy(p, k)
    ensures Picked(k) in Run(p, Dist(|p.backends|, p.cursor, k) + 1).picks
    decreases Dist(|p.backends|, p.cursor, k)
  {
    var s := Select(p);
    var dk := Dist(|p.backends|, p.cursor, k);
    RunCons(p, dk + 1);
    if s.selection != Picked(k) {
      StepTowards(p, k);
      var dk' := Dist(|p.backends|, s.pool.cursor, k);
      NoStarvation(s.pool, k);
      RunPrefix(s.pool, dk' + 1, dk);
      var tail := Run(s.pool, dk).picks;
      assert Picked(k) in tail[..dk' + 1];
    }
  }

  /** Every healthy backend is returned within `len(backends)` consecutive calls. */
  lemma NoStarvationWithinLen(p: Pool, k: nat)
    requires CursorInRange(p) && IsHealthy(p, k)
    ensures Picked(k) in Run(p, |p.backends|).picks
  {
    NoStarvation(p, k);
    PickSurvivesLongerRun(p, Dist(|p.backends|, p.cursor, k) + 1, |p.backends|, Picked(k));
  }

  /** An outcome of a shorter run from the same registry is an outcome of a longer one. */
  lemma PickSurvivesLongerRun(p: Pool, a: nat, b: nat, x: Selection)
    requires a <= b && x in Run(p, a).picks
    ensures x in Run(p, b).picks
  {
    RunPrefix(p, a, b);
    var i :| 0 <= i < a && Run(p, a).picks[i] == x;
    assert Run(p, b).picks[i] == x;
  }


  /** After any run that ends in a successful pick, the cursor sits just past the backend
      picked last. */
  lemma RunCursorFollowsLastPick(p: Pool, m: nat, idx: nat)
    requires m > 0 && Run(p, m).picks[m - 1] == Picked(idx)
    ensures |p.backends| > 0
    ensures Run(p, m).pool.cursor == (idx + 1) % |p.backends|
  {
    RunLast(p, m - 1);
    assert Select(Run(p, m - 1).pool).selection == Picked(idx);
  }
}

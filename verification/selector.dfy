/** Round-robin selection with skip-unhealthy: the critical section of
    `getNextHealthyBackend`, taken as one atomic step on the registry. */
module Selector {
  import opened Registry
  import Arith

  /** The position visited at offset `i` of a scan that starts at `cursor`. */
  function Slot(n: nat, cursor: nat, i: nat): (k: nat)
    requires n > 0
    ensures k < n
  {
    (cursor + i) % n
  }

  /** How many steps forward from `cursor` (already below `n`) position `k` lies. */
  function Dist(n: nat, cursor: nat, k: nat): (d: nat)
    requires cursor < n && k < n
    ensures d < n
  {
    if cursor <= k then k - cursor else k + n - cursor
  }

  /** The scan offset `Dist` is the one offset that reaches `k`: every position is
      reached exactly once in a full scan. */
  lemma SlotDist(n: nat, cursor: nat, k: nat, i: nat)
    requires cursor < n && k < n && i < n
    ensures Slot(n, cursor, i) == k <==> i == Dist(n, cursor, k)
  {
    Arith.ModOnce(n, cursor + i);
  }

  /** Whatever the cursor, a full scan of `n` offsets reaches position `k`. */
  lemma SlotCovers(n: nat, cursor: nat, k: nat) returns (d: nat)
    requires k < n
    ensures d < n && Slot(n, cursor, d) == k
  {
    d := Dist(n, cursor % n, k);
    Arith.ModReduce(n, cursor, d);
    SlotDist(n, cursor % n, k, d);
  }

  /** The remainder of the scan from offset `i`: the first offset at or after `i`
      whose position is healthy, or `None` when every remaining position is unhealthy. */
  function Scan(bs: seq<Backend>, cursor: nat, i: nat): (d: Option<nat>)
    requires i <= |bs|
    ensures d.Some? ==> i <= d.value < |bs| && bs[Slot(|bs|, cursor, d.value)].healthy
    ensures d.Some? ==> forall j :: i <= j < d.value ==> !bs[Slot(|bs|, cursor, j)].healthy
    ensures d.None? ==> forall j :: i <= j < |bs| ==> !bs[Slot(|bs|, cursor, j)].healthy
    decreases |bs| - i
  {
    if i == |bs| then None
    else if bs[Slot(|bs|, cursor, i)].healthy then Some(i)
    else Scan(bs, cursor, i + 1)
  }

  /** A scan over all offsets fails only when no backend at all is healthy. */
  lemma FullScanFindsAnyHealthy(p: Pool)
    ensures Scan(p.backends, p.cursor, 0).None? <==> NoneHealthy(p)
  {
    if Scan(p.backends, p.cursor, 0).None? && !NoneHealthy(p) {
      var k :| 0 <= k < |p.backends| && p.backends[k].healthy;
      var d := SlotCovers(|p.backends|, p.cursor, k);
    }
  }

  /** Backend `k` is reached by the scan from the cursor, and every slot the scan passes
      before reaching it is unhealthy. */
  predicate ReachedFirst(p: Pool, k: nat)
  {
    exists d :: 0 <= d < |p.backends| && Slot(|p.backends|, p.cursor, d) == k
      && forall j :: 0 <= j < d ==> !p.backends[Slot(|p.backends|, p.cursor, j)].healthy
  }

  datatype Selection = Picked(index: nat) | NoHealthyBackend

  /** The outcome of one selection and the registry after it. */
  datatype Step = Step(selection: Selection, pool: Pool)

  /** One call of the selector. On success the chosen backend is healthy, it is the
      first healthy position reached from the cursor, and the cursor moves to the slot
      just after it; otherwise nothing changes. Selection writes nothing but the cursor. */
  function Select(p: Pool): (s: Step)
    ensures s.pool.backends == p.backends
    ensures s.selection.NoHealthyBackend? <==> NoneHealthy(p)
    ensures s.selection.NoHealthyBackend? ==> s.pool == p
    ensures s.selection.Picked? ==>
      && IsHealthy(p, s.selection.index)
      && s.pool.cursor == (s.selection.index + 1) % |p.backends|
      && s.pool.cursor < |p.backends|
    ensures s.selection.Picked? ==> ReachedFirst(p, s.selection.index)
  {
    var n := |p.backends|;
    FullScanFindsAnyHealthy(p);
    match Scan(p.backends, p.cursor, 0)
    case None => Step(NoHealthyBackend, p)
    case Some(d) =>
      var k := Slot(n, p.cursor, d);
      Step(Picked(k), p.(cursor := (k + 1) % n))
  }

  /** The selector's loop as `getNextHealthyBackend` writes it (loadbalancer.go:71-78):
      scan at most `len(backends)` offsets from the cursor, stop at the first healthy
      position. */
  method NextHealthyBackend(p: Pool) returns (sel: Selection, next: Pool)
    ensures Step(sel, next) == Select(p)
  {
    var n := |p.backends|;
    var i := 0;
    while i < n
      invariant 0 <= i <= n
      invariant Scan(p.backends, p.cursor, i) == Scan(p.backends, p.cursor, 0)
    {
      var idx := (p.cursor + i) % n;
      if p.backends[idx].healthy {
        return Picked(idx), p.(cursor := (idx + 1) % n);
      }
      i := i + 1;
    }
    return NoHealthyBackend, p;
  }

  /** Reference definition of the round-robin choice: `k` is healthy and no healthy
      position lies strictly closer ahead of the cursor. */
  predicate FirstHealthyFrom(p: Pool, k: nat)
    requires CursorInRange(p)
  {
    && IsHealthy(p, k)
    && forall j :: 0 <= j < |p.backends| && p.backends[j].healthy ==>
         Dist(|p.backends|, p.cursor, k) <= Dist(|p.backends|, p.cursor, j)
  }

  /** Under the registry invariant, the selector picks `k` exactly when `k` is the first
      healthy backend at or after the cursor in rotation order. */
  lemma SelectIsFirstHealthy(p: Pool, k: nat)
    requires CursorInRange(p)
    ensures Select(p).selection == Picked(k) <==> FirstHealthyFrom(p, k)
  {
    var n := |p.backends|;
    var s := Select(p);
    if s.selection.Picked? {
      var idx := s.selection.index;
      var d :| 0 <= d < n && Slot(n, p.cursor, d) == idx
        && forall j :: 0 <= j < d ==> !p.backends[Slot(n, p.cursor, j)].healthy;
      SlotDist(n, p.cursor, idx, d);
      forall j | 0 <= j < n && p.backends[j].healthy
        ensures Dist(n, p.cursor, idx) <= Dist(n, p.cursor, j)
      {
        var e := Dist(n, p.cursor, j);
        SlotDist(n, p.cursor, j, e);
      }
      if FirstHealthyFrom(p, k) && k != idx {
        SlotDist(n, p.cursor, k, Dist(n, p.cursor, k));
        SlotDist(n, p.cursor, idx, Dist(n, p.cursor, k));
      }
    }
  }

  /** With the cursor in range and every backend healthy, the selector returns the
      backend under the cursor. */
  lemma SelectAllHealthy(p: Pool)
    requires CursorInRange(p) && |p.backends| > 0
    requires forall k :: 0 <= k < |p.backends| ==> p.backends[k].healthy
    ensures Select(p).selection == Picked(p.cursor)
    ensures Select(p).pool.cursor == (p.cursor + 1) % |p.backends|
    ensures Select(p).pool == p.(cursor := Slot(|p.backends|, p.cursor, 1))
  {
    SelectIsFirstHealthy(p, p.cursor);
  }
}

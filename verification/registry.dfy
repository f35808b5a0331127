/** The shared backend registry of the load balancer: the ordered backend list and
    the round-robin cursor `currentIdx`, as one immutable value. Every mutex-protected
    region of the proxy becomes one function from a `Pool` to a new `Pool`. */
module Registry {

  datatype Option<+T> = None | Some(value: T)

  /** One upstream service. Only `healthy` ever changes after start-up. */
  datatype Backend = Backend(
    name: string,
    url: string,
    healthCheckPath: string,
    intervalSec: int,
    healthy: bool)

  /** The backend list in rotation order and the cursor where the next scan starts. */
  datatype Pool = Pool(backends: seq<Backend>, cursor: nat)

  predicate IsHealthy(p: Pool, k: nat)
  {
    k < |p.backends| && p.backends[k].healthy
  }

  predicate NoneHealthy(p: Pool)
  {
    forall k :: 0 <= k < |p.backends| ==> !p.backends[k].healthy
  }

  /** The registry invariant: the cursor indexes a backend, and an empty registry keeps
      its initial cursor 0. */
  predicate CursorInRange(p: Pool)
  {
    if |p.backends| == 0 then p.cursor == 0 else p.cursor < |p.backends|
  }

  /** Two pools list the same backends, in the same order, up to their health flags. */
  predicate SameBackendsUpToHealth(p: Pool, q: Pool)
  {
    && |p.backends| == |q.backends|
    && forall k :: 0 <= k < |p.backends| ==> p.backends[k].(healthy := false) == q.backends[k].(healthy := false)
  }

  /** The registry as the configuration installs it: the configured list and cursor 0. */
  function Initial(configured: seq<Backend>): (p: Pool)
    ensures CursorInRange(p)
    ensures p.cursor == 0
    ensures p.backends == configured
  {
    Pool(configured, 0)
  }
}

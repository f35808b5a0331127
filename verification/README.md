# Round-robin backend pool of a TLS-terminating reverse proxy

This project models the core of a small Go load balancer (`loadbalancer.go`): the
registry of backends with their `Healthy` flags, the round-robin cursor
`currentIdx`, the health-probe update, the selection of the next healthy backend,
and the decisions the request handlers make (which status the client sees and where
the request goes).

Each mutex-protected region of the source is one atomic step on an immutable value:

- `Registry` — `Backend` (name, URL, health-check path, interval, `healthy`) and
  `Pool` (backends in rotation order plus the `nat` cursor), the cursor invariant
  `CursorInRange`, and the initial registry.
- `Selector` — `getNextHealthyBackend`: `Select` is the pure selection step
  (scan at most `len(backends)` slots from the cursor, wrapping, take the first healthy
  one, move the cursor just past it; otherwise fail and change nothing);
  `NextHealthyBackend` is the same loop written as the source writes it, proved equal
  to `Select`. `FirstHealthyFrom` is an independent definition of the choice by
  forward distance from the cursor, and `SelectIsFirstHealthy` proves the two agree.
  Selection returns an index, not a pointer into the list.
- `Rotation` — `Run`, a run of consecutive selections, and the round-robin guarantees:
  the cursor invariant, fairness when all backends are up, one backend up, none up,
  skipping a backend that is down, and no starvation of a healthy backend.
- `Health` — `SetHealth`, the locked flag update of the probe loop, and `ProbeRound`,
  one sweep of that loop over the list.
- `Proxy` — `proxyHandler` (503 / 502 / relayed status, and the forwarded request to
  `backend.URL + RequestURI`) and `redirectHTTP` (301 to
  `"https://" + Host + RequestURI`). The upstream call is a function parameter.
- `Scenario` — the three-backend A, B, C rotation scenario worked through on the model.
- `Escape` — the escaping `http.Redirect` applies to a redirect target.
- `Arith` — facts about `%` used by the wrap-around proofs.

The probe outcome and the upstream result are inputs to the model; the network,
the clock and the scheduler are not modelled.

After A, B, C, A, B, C the cursor is back at A, because the last call returned
index 2 and `(2 + 1) % 3 == 0`. With B down, the next calls return A, C, A, C
(`Scenario.SkipFailedBackend`).

A Go string is a sequence of bytes. The model writes it as a Dafny `string` with one
character per byte: `Escape.ByteString` is the strings whose characters all lie below
0x100, and the request's host and request URI have that type. `Escape` models the
percent-escaping of bytes at or above 0x80 that `http.Redirect` applies to the
`Location` value.

## Model

| member | source | states |
|---|---|---|
| `Registry.Initial` | loadbalancer.go:37-39 | the registry starts with the configured list and cursor 0, and so satisfies the cursor invariant |
| `Selector.Slot` | loadbalancer.go:72 | the slot visited at any scan offset is a valid index of the non-empty list |
| `Selector.SlotDist` | loadbalancer.go:71-72 | with the cursor in range, offset `i` of the scan reaches backend `k` exactly when `i` is the forward distance from the cursor to `k`, so no slot is visited twice in one scan |
| `Selector.SlotCovers` | loadbalancer.go:71-72 | for any cursor value, the `len(backends)` offsets of one scan reach every backend |
| `Selector.Scan` | loadbalancer.go:71-77 | the scan from offset `i` returns the first offset whose slot is healthy, with every slot before it unhealthy; when it finds none, every remaining slot is unhealthy |
| `Selector.FullScanFindsAnyHealthy` | loadbalancer.go:71-78 | a full scan fails exactly when no backend is healthy |
| `Selector.Select` | loadbalancer.go:67-79 | the chosen backend is healthy and is the first healthy slot reached from the cursor; the new cursor is `(idx + 1) mod len` and lies in range; failure happens exactly when no backend is healthy, including the empty list, and then the registry is unchanged; the backend list and all flags are never written |
| `Selector.NextHealthyBackend` | loadbalancer.go:67-79 | the source's bounded loop returns the same backend and the same new cursor as `Select` |
| `Selector.SelectIsFirstHealthy` | loadbalancer.go:71-75 | with the cursor in range, the selector returns `k` if and only if `k` is healthy and no healthy backend lies a shorter forward distance from the cursor |
| `Selector.SelectAllHealthy` | loadbalancer.go:71-75 | when every backend is healthy the backend under the cursor is returned and the cursor advances by one, wrapping |
| `Rotation.Run` | loadbalancer.go:67-79 | consecutive selections produce one outcome per call and never alter the backend list or any flag |
| `Rotation.RunLast` | loadbalancer.go:67-79 | one more call appends one selection from the registry the previous calls left behind |
| `Rotation.RunPrefix` | loadbalancer.go:67-79 | a shorter run from the same registry is a prefix of a longer one |
| `Rotation.RunKeepsCursorInRange` | loadbalancer.go:74 | `0 <= currentIdx < len(backends)` (cursor 0 for the empty list) holds after any number of calls once it holds initially |
| `Rotation.RoundRobinAllHealthy` | loadbalancer.go:71-75 | with all backends healthy, call `j` returns the backend `j` places after the starting cursor, wrapping |
| `Rotation.EachBackendOnce` | loadbalancer.go:71-75 | with all `N` backends healthy, `N` consecutive calls return every backend exactly once |
| `Rotation.SingleHealthyAlwaysPicked` | loadbalancer.go:71-75 | with exactly one healthy backend, every call returns it |
| `Rotation.NoneHealthyAlwaysFails` | loadbalancer.go:71-78 | with no healthy backend, every call fails and the registry, cursor included, stays unchanged |
| `Rotation.UnhealthyNeverPicked` | loadbalancer.go:73 | a backend whose flag is down is never returned while the flags stay as they are |
| `Rotation.DistAfterPick` | loadbalancer.go:74 | moving the cursor past a backend nearer than `k` shortens the forward distance to `k` by the skipped amount plus one |
| `Rotation.StepTowards` | loadbalancer.go:71-75 | a call that does not return healthy backend `k` brings the cursor strictly closer to `k` and keeps it in range |
| `Rotation.NoStarvation` | loadbalancer.go:71-75 | a healthy backend is returned within its forward distance from the cursor plus one calls |
| `Rotation.NoStarvationWithinLen` | loadbalancer.go:71-75 | every healthy backend is returned at least once in any `len(backends)` consecutive calls |
| `Rotation.RunCursorFollowsLastPick` | loadbalancer.go:74 | after a run whose last call returned backend `idx`, the cursor is `(idx + 1) % len(backends)` |
| `Health.SetHealth` | loadbalancer.go:55-61 | the probed backend's flag becomes true if and only if there was no transport error and the status is exactly 200; every other backend, the probed backend's other fields and the cursor are unchanged |
| `Health.LatestProbeWins` | loadbalancer.go:55-61 | only the latest probe outcome for a backend is retained |
| `Health.ProbesCommute` | loadbalancer.go:55-61 | updates for two different backends commute |
| `Health.ProbeRound` | loadbalancer.go:53-63 | after one sweep each backend's flag reflects exactly its own probe outcome, and the cursor and the backend descriptions are unchanged |
| `Health.RecoveryIsImmediate` | loadbalancer.go:55-75 | after a probe that returns 200 the very next selection succeeds, and returns that backend when it was the only one up |
| `Health.FailedProbeExcludes` | loadbalancer.go:55-75 | after a failed probe the next selection does not return that backend |
| `Proxy.ForwardTo` | loadbalancer.go:88-89 | the outbound request keeps the method, headers and body and targets the backend URL followed by the original request URI |
| `Proxy.ProxyHandler` | loadbalancer.go:81-105 | 503 with no request sent exactly when no backend is healthy; otherwise the request goes to the selected healthy backend and an upstream failure gives 502; an upstream response is relayed with its status, headers and body unchanged when its status lies in `[100, 999]`, and otherwise `WriteHeader` panics and the client gets no response; the registry afterwards is the selector's, so an upstream failure never marks a backend down |
| `Proxy.ClientStatus` | loadbalancer.go:82-102 | the client-visible status is 503 with no healthy backend; otherwise 502 on upstream failure, the upstream status when it lies in `[100, 999]`, and no status at all otherwise |
| `Proxy.RedirectHTTP` | loadbalancer.go:107-109 | every request `redirectHTTP` handles gets 301; the `Location` is `https://` followed by the host and the request URI, each with its bytes at or above 0x80 percent-escaped in lower-case hex; so it is always ASCII, and it equals the unescaped target exactly when host and request URI are both ASCII |
| `Proxy.TargetAscii` | loadbalancer.go:108 | the redirect target is ASCII exactly when its host and request URI are |
| `Proxy.EscapeTarget` | loadbalancer.go:108 | escaping the whole redirect target escapes host and request URI separately and leaves the scheme unchanged |
| `Proxy.EscapeHighByte` | loadbalancer.go:108 | a single byte at or above 0x80 in the redirect target becomes `%` and its two lower-case hex digits |
| `Proxy.RedirectEscapesNonAscii` | loadbalancer.go:107-109 | a request for an ASCII path followed by the UTF-8 bytes of `é` is redirected to that path followed by `%c3%a9` |
| `Escape.HexDigits` | loadbalancer.go:108 | the escape numeral of a byte is a non-empty string of lower-case hex digits |
| `Escape.HexRoundTrip` | loadbalancer.go:108 | reading the hex numeral back gives the byte it was written from |
| `Escape.HighByteTwoDigits` | loadbalancer.go:108 | every byte at or above 0x80 is written as exactly two hex digits |
| `Escape.EscapeChar` | loadbalancer.go:108 | one byte's escape is ASCII; it is the byte itself exactly when the byte is below 0x80, and otherwise `%` followed by the byte's two lower-case hex digits |
| `Escape.HexEscapeNonAscii` | loadbalancer.go:108 | the escaped `Location` value is always ASCII |
| `Escape.EscapeKeepsOnlyAscii` | loadbalancer.go:108 | escaping leaves a string unchanged exactly when it is ASCII |
| `Escape.EscapeConcat` | loadbalancer.go:108 | escaping works byte by byte: it distributes over concatenation |
| `Scenario.AllUpRotation` | loadbalancer.go:67-79 | three healthy backends from cursor 0 are returned A, B, C, A, B, C |
| `Scenario.CursorBackAtStart` | loadbalancer.go:74 | after those six calls the cursor is back at A |
| `Scenario.SkipFailedBackend` | loadbalancer.go:55-79 | after B fails its probe, calls from A return A, C, A, C |
| `Scenario.DownThenRecover` | loadbalancer.go:55-79 | with all three down every call fails, and after A passes a probe the next call returns A |

## Left out

- Configuration loading (`loadConfig`, loadbalancer.go:41-49): file I/O and a YAML library. `Registry.Initial` takes the configured backends as given. `Healthy` has no YAML tag, so the YAML library would read it from a `healthy` key if present; with no key it starts false. The model keeps whatever flags it is given.
- HTTP and TLS traffic: `http.Get`, `client.Do`, header and body copying, the listeners (loadbalancer.go:54, 88-104, 125-136). The probe outcome and the upstream result are inputs.
- Goroutines, the mutex and the `time.Sleep` schedule of the probe loop (loadbalancer.go:52-64). Each locked region is one atomic step, and no other interleaving is modelled. The serial probe loop lets one backend's interval delay the next backend's probe; this is timing, and it is not modelled.
- The `*Backend` pointer escapes the lock (loadbalancer.go:75). Today nothing reads `Healthy` through it: the handler reads only `URL` (loadbalancer.go:88), which nothing writes after start-up. Any future read of `Healthy` through that pointer would race with the locked writes at lines 57 and 59. The model returns an index.
- `main` wiring (loadbalancer.go:111-140). `main` calls `startHealthCheck` but the function is named `startHealthChecks`. This is a compile error and is unrelated to the modelled logic.
- Proxy.ProxyHandler: the error from `http.NewRequest` is discarded (loadbalancer.go:88). For a backend URL that does not parse, the nil request would crash at line 89. URL parsing is not modelled, so the model assumes the request is always built.
- Proxy.ProxyHandler: `http.Error` also appends a newline to the message and sets content-type headers. The HTTP server adds its own headers such as `Date`. The default client follows upstream redirects before a status is relayed. The model keeps the status and message of error replies and treats redirect-following as part of the upstream parameter.
- Proxy.ProxyHandler: the default client consumes informational 1xx responses other than 101 before returning, so they never reach `WriteHeader`. The model relays any status in `[100, 999]` and does not model how `WriteHeader` would treat such an informational code.
- The HTTP server and the `ServeMux` (loadbalancer.go:121-122, 128, 135) answer some requests before either handler runs: `OPTIONS *` gets 200 on both listeners, and on the secure listener a path that is not clean (`//x`, `/a/../b`) gets the mux's own 301. `Proxy.ProxyHandler` and `Proxy.RedirectHTTP` describe the handlers, not every request a listener receives.
- Proxy.RedirectHTTP: the short HTML body `http.Redirect` writes for GET requests is not modelled.
- The probe's response body is never closed (loadbalancer.go:54). This is a resource leak outside the model.
- Integer width: `currentIdx` is a Go `int`. Under the cursor invariant `currentIdx + i < 2 * len(backends)`, so the sum cannot overflow, and the model uses `nat`. For non-negative operands Go's truncating `%` equals Dafny's Euclidean `%`.
- Concurrent callers are reduced to serial atomic steps. "No two concurrent callers get the same rotation position" is then `Rotation.EachBackendOnce` over the serialised order.

/** Facts about Euclidean `%` that the wrap-around of the round-robin cursor needs.
    The selector only ever takes remainders of non-negative numbers, where Go's
    truncating `%` and Dafny's Euclidean `%` agree. */
module Arith {

  lemma MulAtLeast(n: int, x: int)
    requires n > 0 && x >= 1
    ensures n * x >= n
  {
    if x > 1 { MulAtLeast(n, x - 1); }
  }

  /** The remainder is the unique `r` in `[0, n)` with `a == n * q + r`. */
  lemma ModUnique(a: int, n: int, q: int, r: int)
    requires n > 0 && 0 <= r < n && a == n * q + r
    ensures a % n == r
  {
    var q0, r0 := a / n, a % n;
    assert a == n * q0 + r0;
    if q > q0 {
      MulAtLeast(n, q - q0);
    } else if q < q0 {
      MulAtLeast(n, q0 - q);
    }
  }

  /** Reducing the cursor first does not change the slot reached. */
  lemma ModReduce(n: nat, c: nat, i: nat)
    requires n > 0
    ensures (c + i) % n == (c % n + i) % n
  {
    var q := (c % n + i) / n;
    ModUnique(c + i, n, c / n + q, (c % n + i) % n);
  }

  /** For a cursor and an offset both below `n`, the wrap-around is a single subtraction. */
  lemma ModOnce(n: nat, a: nat)
    requires a < 2 * n
    ensures a % n == if a < n then a else a - n
  {
  }
}

/** The random source. Every call of `Math.random()` in the game is modelled as
    one draw from an injected stream: draw number `i` is `rng(i)`, a value in
    [0, 1). Callers thread the index of the next draw through the computation,
    so every property proved holds for every stream of draws. */
module Randomness {

  type Random = nat -> real

  /** Every draw lies in [0, 1), as `Math.random()` promises. */
  ghost predicate ValidRandom(rng: Random) {
    forall i: nat :: 0.0 <= rng(i) < 1.0
  }

  /** The draw scaled by `n` and rounded down: turns one draw into an index of a list of length `n`. */
  function Pick(r: real, n: nat): (k: nat)
    requires 0.0 <= r < 1.0
    requires n > 0
    ensures k < n
    ensures k as real <= r * n as real < k as real + 1.0
  {
    assert r * n as real < n as real by {
      assert r * n as real < 1.0 * n as real;
    }
    (r * n as real).Floor
  }
}

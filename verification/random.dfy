/** The randomness the visualizers draw from `Math.random`, passed in as an oracle. */
module Random {

  /** The k-th value `Math.random()` returns is `draws(k)`. */
  type Draws = nat -> real

  /** Every draw lies in `[0, 1)`, as `Math.random` promises. */
  ghost predicate Uniform(draws: Draws) {
    forall k: nat :: 0.0 <= draws(k) < 1.0
  }

  /** `Math.floor(r * k)`: a draw scaled to an integer in `[0, k)`. */
  function Scaled(r: real, k: nat): (v: int)
    requires 0.0 <= r < 1.0
    ensures 0 <= v
    ensures k > 0 ==> v < k
  {
    var x := r * (k as real);
    assert x < k as real || k == 0 by {
      if k > 0 {
        assert r * (k as real) < 1.0 * (k as real);
      }
    }
    x.Floor
  }

  /** `Array.from({ length: n }, () => Math.floor(Math.random() * span) + base)`, taking
      draws `from, from + 1, ..., from + n - 1` in index order. */
  function Fill(draws: Draws, from: nat, n: nat, span: nat, base: int): (r: seq<int>)
    requires Uniform(draws)
    ensures |r| == n
    ensures span > 0 ==> forall k :: 0 <= k < n ==> base <= r[k] < base + span
    decreases n
  {
    if n == 0 then []
    else
      assert 0.0 <= draws(from) < 1.0;
      [Scaled(draws(from), span) + base] + Fill(draws, from + 1, n - 1, span, base)
  }

  /** Element `k` of a fill comes from draw `from + k`. */
  lemma {:induction false} FillUsesDraw(draws: Draws, from: nat, n: nat, span: nat, base: int, k: nat)
    requires Uniform(draws) && k < n
    ensures 0.0 <= draws(from + k) < 1.0
    ensures Fill(draws, from, n, span, base)[k] == Scaled(draws(from + k), span) + base
    decreases k
  {
    if k > 0 {
      FillUsesDraw(draws, from + 1, n - 1, span, base, k - 1);
    }
  }
}

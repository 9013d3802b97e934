/**
 * The random source, passed in as a value: an infinite stream of raw draws and a
 * cursor. Each primitive consumes draws the way CPython's `random` module does
 * (`randbelow`, `randrange`, the Fisher-Yates `shuffle`); the distribution of the
 * draws is not modelled.
 */
module Random {
  datatype Rng = Rng(draw: nat -> nat, pos: nat)

  /** `randbelow(n)`: one draw, reduced into `[0, n)`. */
  function Below(rng: Rng, n: nat): (r: (nat, Rng))
    requires n > 0
    ensures r.0 < n
    ensures r.1.draw == rng.draw && r.1.pos == rng.pos + 1
  {
    (rng.draw(rng.pos) % n, Rng(rng.draw, rng.pos + 1))
  }

  /** `randrange(start, stop, 2)`: `start + 2 * randbelow((stop - start + 1) // 2)`. */
  function RandRange2(rng: Rng, start: int, stop: int): (r: (int, Rng))
    requires start < stop
    ensures start <= r.0 < stop && (r.0 - start) % 2 == 0
    ensures r.1.draw == rng.draw && r.1.pos == rng.pos + 1
  {
    var (k, rng') := Below(rng, (stop - start + 1) / 2);
    (start + 2 * k, rng')
  }

  /** `random() < 1 / n`: a biased coin, modelled as one draw landing on 0 out of `n`. */
  function Chance(rng: Rng, n: nat): (r: (bool, Rng))
    requires n > 0
    ensures r.1.draw == rng.draw && r.1.pos == rng.pos + 1
  {
    var (k, rng') := Below(rng, n);
    (k == 0, rng')
  }

  /** `shuffle(xs)`: for i from len-1 down to 1, swap xs[i] with xs[randbelow(i + 1)]. */
  function Shuffle<T>(xs: seq<T>, rng: Rng): (r: (seq<T>, Rng))
    ensures multiset(r.0) == multiset(xs)
  {
    ShuffleDown(xs, |xs| - 1, rng)
  }

  function ShuffleDown<T>(xs: seq<T>, i: int, rng: Rng): (r: (seq<T>, Rng))
    requires i < |xs|
    ensures multiset(r.0) == multiset(xs)
    decreases i
  {
    if i < 1 then (xs, rng)
    else
      var (j, rng') := Below(rng, i + 1);
      var swapped := xs[i := xs[j]][j := xs[i]];
      SwapPermutes(xs, i, j);
      ShuffleDown(swapped, i - 1, rng')
  }

  lemma SwapPermutes<T>(xs: seq<T>, i: nat, j: nat)
    requires i < |xs| && j < |xs|
    ensures multiset(xs[i := xs[j]][j := xs[i]]) == multiset(xs)
  {
  }

  /**
   * `sample(pool, len(pool))`: CPython's pool method, which for the i-th pick draws
   * `j = randbelow(n - i)`, takes `pool[j]` and moves the last live element into its place.
   */
  function Sample<T>(pool: seq<T>, rng: Rng): (r: (seq<T>, Rng))
    ensures multiset(r.0) == multiset(pool)
    decreases |pool|
  {
    if |pool| == 0 then ([], rng)
    else
      var (j, rng') := Below(rng, |pool|);
      var last := |pool| - 1;
      var rest := pool[j := pool[last]][..last];
      PickPermutes(pool, j);
      var (tail, rng'') := Sample(rest, rng');
      ([pool[j]] + tail, rng'')
  }

  lemma PickPermutes<T>(pool: seq<T>, j: nat)
    requires j < |pool|
    ensures multiset([pool[j]]) + multiset(pool[j := pool[|pool| - 1]][..|pool| - 1]) == multiset(pool)
  {
    var last := |pool| - 1;
    var moved := pool[j := pool[last]];
    assert moved == moved[..last] + [moved[last]];
    SwapPermutes(pool, last, j);
    assert pool[last := pool[j]][j := pool[last]] == moved[..last] + [pool[j]] by {
      if j == last {
        assert moved == pool;
      }
    }
  }
}

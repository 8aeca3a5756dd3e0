/** The pseudo-random source of the spaghetti layout: the linear congruential
    generator of `cgp_random` and the Fisher–Yates walk of `shuffle_array`
    (x86code-modifier/src/cgp.c:59-63, 203-216). */
module Lcg {
  import opened Words

  const MULTIPLIER: int := 134775812

  /** The largest bound for which `seed * (long long) n` cannot overflow the
      signed 64-bit product the source computes. */
  const MAX_BOUND: int := 0x8000_0000

  /** `rand_seed = 134775812 * rand_seed + 1` in 32-bit arithmetic. */
  function NextSeed(seed: u32): u32 {
    Wrap(MULTIPLIER * seed + 1)
  }

  /** The value drawn from the new seed: the high word of `seed * n`. */
  function Draw(seed: u32, n: nat): nat {
    seed * n / TWO32
  }

  /** Every draw is a valid index below its bound; a bound of 0 draws 0. */
  lemma DrawBelow(seed: u32, n: nat)
    ensures n > 0 ==> Draw(seed, n) < n
    ensures n == 0 ==> Draw(seed, n) == 0
  {
    if n > 0 {
      assert seed * n < TWO32 * n;
    }
  }

  /** `s` with positions `i` and `j` exchanged (the three `memcpy` calls). */
  function Swap<T>(s: seq<T>, i: nat, j: nat): (r: seq<T>)
    requires i < |s| && j < |s|
    ensures |r| == |s|
    ensures r[i] == s[j] && r[j] == s[i]
    ensures forall k :: 0 <= k < |s| && k != i && k != j ==> r[k] == s[k]
  {
    s[i := s[j]][j := s[i]]
  }

  lemma SwapPermutes<T>(s: seq<T>, i: nat, j: nat)
    requires i < |s| && j < |s|
    ensures multiset(Swap(s, i, j)) == multiset(s)
  {
    var t := s[i := s[j]];
    assert multiset(t) == multiset(s) - multiset{s[i]} + multiset{s[j]};
  }

  /** shuffle_array with `n` slots left to visit: draw `k < n`, exchange slots
      `n - 1` and `k`, continue with `n - 1`. The result is the shuffled
      sequence and the generator's final seed. */
  function Shuffle<T>(s: seq<T>, seed: u32, n: nat): (r: (seq<T>, u32))
    requires n <= |s| && n <= MAX_BOUND
    ensures |r.0| == |s|
    decreases n
  {
    if n <= 1 then (s, seed)
    else
      var seed' := NextSeed(seed);
      var k := Draw(seed', n);
      DrawBelow(seed', n);
      Shuffle(Swap(s, n - 1, k), seed', n - 1)
  }

  /** Shuffling only permutes: every slot value survives with its multiplicity,
      because every draw is a valid index. */
  lemma {:induction false} ShufflePermutes<T>(s: seq<T>, seed: u32, n: nat)
    requires n <= |s| && n <= MAX_BOUND
    ensures multiset(Shuffle(s, seed, n).0) == multiset(s)
    decreases n
  {
    if n > 1 {
      var seed' := NextSeed(seed);
      var k := Draw(seed', n);
      DrawBelow(seed', n);
      SwapPermutes(s, n - 1, k);
      ShufflePermutes(Swap(s, n - 1, k), seed', n - 1);
    }
  }

  /** Slots at or beyond the first `n` are never touched. */
  lemma {:induction false} ShuffleKeepsTail<T>(s: seq<T>, seed: u32, n: nat)
    requires n <= |s| && n <= MAX_BOUND
    ensures Shuffle(s, seed, n).0[n..] == s[n..]
    decreases n
  {
    if n > 1 {
      var seed' := NextSeed(seed);
      var k := Draw(seed', n);
      DrawBelow(seed', n);
      var t := Swap(s, n - 1, k);
      ShuffleKeepsTail(t, seed', n - 1);
      assert t[n - 1..][1..] == t[n..];
    }
  }
}

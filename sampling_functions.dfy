// population_sfs: the site-frequency spectrum of the mutations of a
// population of N haploid genomes.  Only the count n of each mutation is
// read, so the mutations are given as their counts.

module SamplingFunctions {
  import opened Types

  /** A mutation is segregating when it is neither lost nor fixed. */
  predicate Segregating(n: nat, N: nat)
  {
    0 < n < N
  }

  /** The number of bins, N - 1 in unsigned arithmetic (so 2^32 - 1 for N == 0). */
  function NumBins(N: nat): (r: nat)
    requires N < UINT_MODULUS
    ensures N >= 1 ==> r == N - 1
    ensures N == 0 ==> r == UINT_MODULUS - 1
  {
    (N + UINT_MODULUS - 1) % UINT_MODULUS
  }

  /** The bins after the first |counts| mutations: n is tallied in bin n - 1. */
  function Bins(counts: seq<nat>, N: nat): (r: seq<nat>)
    requires N < UINT_MODULUS
    ensures |r| == NumBins(N)
  {
    if counts == [] then seq(NumBins(N), _ => 0)
    else
      var b := Bins(counts[..|counts| - 1], N);
      var n := counts[|counts| - 1];
      if Segregating(n, N) then b[n - 1 := b[n - 1] + 1] else b
  }

  /** population_sfs */
  method PopulationSfs(counts: seq<nat>, N: nat) returns (psfs: seq<nat>)
    requires N < UINT_MODULUS
    ensures psfs == Bins(counts, N)
  {
    psfs := seq(NumBins(N), _ => 0);
    var i := 0;
    while i < |counts|
      invariant 0 <= i <= |counts|
      invariant psfs == Bins(counts[..i], N)
    {
      assert counts[..i + 1][..i] == counts[..i];
      var n := counts[i];
      if n > 0 && n < N {
        psfs := psfs[n - 1 := psfs[n - 1] + 1];
      }
      i := i + 1;
    }
    assert counts[..|counts|] == counts;
  }

  /** Bin k holds the number of mutations with count k + 1 that are segregating. */
  lemma {:induction false} BinCounts(counts: seq<nat>, N: nat, k: nat)
    requires N < UINT_MODULUS && k < NumBins(N)
    ensures Bins(counts, N)[k] == CountIf(counts, n => Segregating(n, N) && n == k + 1)
  {
    var p := (n: nat) => Segregating(n, N) && n == k + 1;
    if counts != [] {
      var init, n := counts[..|counts| - 1], counts[|counts| - 1];
      BinCounts(init, N, k);
      assert counts == init + [n];
      FilterConcat(init, [n], p);
    }
  }

  /** The bins sum to the number of segregating mutations. */
  lemma {:induction false} BinsSum(counts: seq<nat>, N: nat)
    requires N < UINT_MODULUS
    ensures Sum(Bins(counts, N)) == CountIf(counts, n => Segregating(n, N))
  {
    var p := (n: nat) => Segregating(n, N);
    if counts == [] {
      ZerosSum(NumBins(N));
    } else {
      var init, n := counts[..|counts| - 1], counts[|counts| - 1];
      BinsSum(init, N);
      assert counts == init + [n];
      FilterConcat(init, [n], p);
      if Segregating(n, N) {
        SumIncrement(Bins(init, N), n - 1);
      }
    }
  }

  lemma {:induction false} ZerosSum(m: nat)
    ensures Sum(seq(m, _ => 0)) == 0
  {
    if m > 0 {
      assert seq(m, _ => 0)[1..] == seq(m - 1, _ => 0);
      ZerosSum(m - 1);
    }
  }

  /** Adding one to an entry adds one to the sum. */
  lemma {:induction false} SumIncrement(b: seq<nat>, i: nat)
    requires i < |b|
    ensures Sum(b[i := b[i] + 1]) == Sum(b) + 1
  {
    if i > 0 {
      assert b[i := b[i] + 1][1..] == b[1..][i - 1 := b[i] + 1];
      SumIncrement(b[1..], i - 1);
    }
  }
}

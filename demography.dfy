// fwdpp/demography.hpp: the deme operations of a metapopulation.  The
// diploids are one vector per deme; each operation returns an integer code
// (0 success, -1 an index out of range, 1 a request that makes no sense) and
// on success updates the genome counts and recomputes the mutation counts.
// The random sampling inside split_deme and admix_demes is not modelled;
// their argument checks are.

module Demography {
  import opened Types
  import opened MutationCounts

  /**
   * copy_deme: -1 when i is not a deme; otherwise deme i is appended again,
   * each of its diploids adds one copy to both of its genomes, and the
   * mutation counts are recomputed.
   */
  method CopyDeme(mutations: seq<Mutation>, mcounts: seq<nat>, gametes: seq<Gamete>, diploids: seq<seq<Diploid>>, i: nat)
    returns (rc: int, mcounts2: seq<nat>, gametes2: seq<Gamete>, diploids2: seq<seq<Diploid>>)
    requires i < |diploids| ==> DemeKeysValid(diploids[i], |gametes|)
    ensures rc == -1 <==> i >= |diploids|
    ensures rc != -1 ==> rc == 0
    ensures rc == -1 ==> mcounts2 == mcounts && gametes2 == gametes && diploids2 == diploids
    ensures rc == 0 ==> && diploids2 == diploids + [diploids[i]]
                        && gametes2 == Bumped(gametes, diploids[i], true)
                        && mcounts2 == ProcessGametes(gametes2, |mutations|, mcounts)
  {
    if i >= |diploids| {
      return -1, mcounts, gametes, diploids;
    }
    diploids2 := diploids + [diploids[i]];
    gametes2 := BumpDeme(gametes, diploids2[|diploids2| - 1], true);
    mcounts2 := ProcessGametes(gametes2, |mutations|, mcounts);
    rc := 0;
  }

  /** Deme hi's diploids appended to deme lo, then deme hi erased. */
  function Merged(diploids: seq<seq<Diploid>>, lo: nat, hi: nat): (r: seq<seq<Diploid>>)
    requires lo < hi < |diploids|
    ensures |r| == |diploids| - 1
    ensures r[lo] == diploids[lo] + diploids[hi]
    ensures forall d :: 0 <= d < hi && d != lo ==> r[d] == diploids[d]
    ensures forall d :: hi <= d < |r| ==> r[d] == diploids[d + 1]
  {
    diploids[..hi][lo := diploids[lo] + diploids[hi]] + diploids[hi + 1..]
  }

  /**
   * merge_demes: -1 when either index is not a deme, 1 when they are equal;
   * otherwise the higher deme is moved to the end of the lower one and
   * erased.  Genome counts do not change.
   */
  method MergeDemes(diploids: seq<seq<Diploid>>, i: nat, j: nat) returns (rc: int, diploids2: seq<seq<Diploid>>)
    ensures rc == -1 <==> i >= |diploids| || j >= |diploids|
    ensures rc == 1 <==> i < |diploids| && j < |diploids| && i == j
    ensures rc != 0 ==> diploids2 == diploids
    ensures rc == 0 ==> i != j && diploids2 == Merged(diploids, if i < j then i else j, if i < j then j else i)
  {
    if i >= |diploids| || j >= |diploids| {
      return -1, diploids;
    }
    if i == j {
      return 1, diploids;
    }
    var lo, hi := i, j;
    if lo > hi {
      lo, hi := hi, lo;
    }
    var target := diploids[lo] + diploids[hi];
    diploids2 := diploids[lo := target];
    diploids2 := diploids2[..hi] + diploids2[hi + 1..];
    rc := 0;
  }

  /**
   * remove_deme: -1 when i is not a deme; otherwise each of its diploids
   * takes one copy from both of its genomes, the deme is erased and the
   * mutation counts are recomputed.
   */
  method RemoveDeme(mutations: seq<Mutation>, mcounts: seq<nat>, gametes: seq<Gamete>, diploids: seq<seq<Diploid>>, i: nat)
    returns (rc: int, mcounts2: seq<nat>, gametes2: seq<Gamete>, diploids2: seq<seq<Diploid>>)
    requires i < |diploids| ==> DemeKeysValid(diploids[i], |gametes|)
    ensures rc == -1 <==> i >= |diploids|
    ensures rc != -1 ==> rc == 0
    ensures rc == -1 ==> mcounts2 == mcounts && gametes2 == gametes && diploids2 == diploids
    ensures rc == 0 ==> && diploids2 == diploids[..i] + diploids[i + 1..]
                        && gametes2 == Bumped(gametes, diploids[i], false)
                        && mcounts2 == ProcessGametes(gametes2, |mutations|, mcounts)
  {
    if i >= |diploids| {
      return -1, mcounts, gametes, diploids;
    }
    gametes2 := BumpDeme(gametes, diploids[i], false);
    diploids2 := diploids[..i] + diploids[i + 1..];
    mcounts2 := ProcessGametes(gametes2, |mutations|, mcounts);
    rc := 0;
  }

  /** swap_demes: -1 when either index is not a deme, 1 when they are equal, otherwise the two demes trade places. */
  method SwapDemes(diploids: seq<seq<Diploid>>, i: nat, j: nat) returns (rc: int, diploids2: seq<seq<Diploid>>)
    ensures rc == -1 <==> i >= |diploids| || j >= |diploids|
    ensures rc == 1 <==> i < |diploids| && j < |diploids| && i == j
    ensures rc != 0 ==> diploids2 == diploids
    ensures rc == 0 ==> i != j && diploids2 == diploids[i := diploids[j]][j := diploids[i]]
  {
    if i >= |diploids| || j >= |diploids| {
      return -1, diploids;
    }
    if i == j {
      return 1, diploids;
    }
    diploids2 := diploids[i := diploids[j]][j := diploids[i]];
    rc := 0;
  }

  /**
   * The checks split_deme makes before sampling: -1 when i is not a deme, 1
   * when the new deme would take all of deme i or more, 0 when the split
   * goes ahead.
   */
  function SplitDemeCheck(diploids: seq<seq<Diploid>>, i: nat, nNew: nat): (rc: int)
    ensures rc == -1 <==> i >= |diploids|
    ensures rc == 1 <==> i < |diploids| && nNew >= |diploids[i]|
    ensures rc == 0 <==> i < |diploids| && nNew < |diploids[i]|
  {
    if i >= |diploids| then -1
    else if nNew >= |diploids[i]| then 1
    else 0
  }

  /** std::round of a non-negative value: halves round up. */
  function RoundNonNegative(x: real): (r: nat)
    requires x >= 0.0
    ensures r as real - 0.5 <= x < r as real + 0.5
  {
    (x + 0.5).Floor
  }

  /** How admix_demes divides the new deme: round(pi * N_new) from deme i, the rest from deme j. */
  function AdmixSizes(pi: real, nNew: nat): (r: (nat, nat))
    requires 0.0 <= pi < 1.0
    ensures r.0 + r.1 == nNew
    ensures r.0 as real - 0.5 <= pi * nNew as real < r.0 as real + 0.5
  {
    var fromI := RoundNonNegative(pi * nNew as real);
    ScaledBelow(pi, nNew as real);
    assert fromI as real <= nNew as real + 0.5;
    (fromI, nNew - fromI)
  }

  lemma ScaledBelow(pi: real, n: real)
    requires 0.0 <= pi <= 1.0 && n >= 0.0
    ensures pi * n <= n
  {
    assert n - pi * n == (1.0 - pi) * n;
  }

  /**
   * The checks admix_demes makes before sampling: -1 when either index is
   * not a deme, 1 when pi is outside [0, 1), and, when sampling without
   * replacement, 1 when either share is at least the size of its source
   * deme; 0 when the admixture goes ahead.
   */
  function AdmixDemesCheck(diploids: seq<seq<Diploid>>, i: nat, j: nat, pi: real, nNew: nat, replacement: bool): (rc: int)
    ensures rc == -1 <==> i >= |diploids| || j >= |diploids|
    ensures i < |diploids| && j < |diploids| && (pi < 0.0 || pi >= 1.0) ==> rc == 1
    ensures rc == 0 ==> 0.0 <= pi < 1.0
    ensures i < |diploids| && j < |diploids| && 0.0 <= pi < 1.0 ==>
      var (fromI, fromJ) := AdmixSizes(pi, nNew);
      (rc == 0 <==> replacement || (fromI < |diploids[i]| && fromJ < |diploids[j]|))
  {
    if i >= |diploids| || j >= |diploids| then -1
    else if pi < 0.0 || pi >= 1.0 then 1
    else
      var (fromI, fromJ) := AdmixSizes(pi, nNew);
      if !replacement && fromI >= |diploids[i]| then 1
      else if !replacement && fromJ >= |diploids[j]| then 1
      else 0
  }

  /** No copy of a genome is lost between the demes when copying adds at most up to the unsigned limit. */
  predicate CopyFits(gametes: seq<Gamete>, deme: seq<Diploid>)
  {
    forall k :: 0 <= k < |gametes| ==> gametes[k].n + Occ(deme, k) < UINT_MODULUS
  }

  /** copy_deme keeps every genome's count equal to the number of diploid slots naming it. */
  lemma CopyDemeConsistent(gametes: seq<Gamete>, diploids: seq<seq<Diploid>>, i: nat)
    requires i < |diploids| && DemeKeysValid(diploids[i], |gametes|)
    requires GameteCountsConsistent(gametes, diploids) && CopyFits(gametes, diploids[i])
    ensures GameteCountsConsistent(Bumped(gametes, diploids[i], true), diploids + [diploids[i]])
  {
    forall k | 0 <= k < |gametes|
      ensures Bumped(gametes, diploids[i], true)[k].n == TotalOcc(diploids + [diploids[i]], k)
    {
      BumpedCounts(gametes, diploids[i], true, k);
      TotalConcat(diploids, [diploids[i]], k);
      TotalSingle(diploids[i], k);
    }
  }

  /** remove_deme keeps every genome's count equal to the number of diploid slots naming it; no count wraps. */
  lemma RemoveDemeConsistent(gametes: seq<Gamete>, diploids: seq<seq<Diploid>>, i: nat)
    requires i < |diploids| && DemeKeysValid(diploids[i], |gametes|)
    requires GameteCountsConsistent(gametes, diploids)
    ensures GameteCountsConsistent(Bumped(gametes, diploids[i], false), diploids[..i] + diploids[i + 1..])
  {
    forall k | 0 <= k < |gametes|
      ensures Bumped(gametes, diploids[i], false)[k].n == TotalOcc(diploids[..i] + diploids[i + 1..], k)
    {
      TotalSplit(diploids, i, k);
      BumpedCounts(gametes, diploids[i], false, k);
    }
  }

  /** merge_demes keeps every diploid, so the counts stay consistent without being touched. */
  lemma MergeDemesConsistent(gametes: seq<Gamete>, diploids: seq<seq<Diploid>>, lo: nat, hi: nat)
    requires lo < hi < |diploids| && GameteCountsConsistent(gametes, diploids)
    ensures GameteCountsConsistent(gametes, Merged(diploids, lo, hi))
  {
    forall k | 0 <= k < |gametes| ensures gametes[k].n == TotalOcc(Merged(diploids, lo, hi), k) {
      MergedTotal(diploids, lo, hi, k);
    }
  }

  lemma MergedTotal(diploids: seq<seq<Diploid>>, lo: nat, hi: nat, k: nat)
    requires lo < hi < |diploids|
    ensures TotalOcc(Merged(diploids, lo, hi), k) == TotalOcc(diploids, k)
  {
    var m := Merged(diploids, lo, hi);
    TotalSplit2(diploids, lo, hi, k);
    assert m == diploids[..lo] + [diploids[lo] + diploids[hi]] + (diploids[lo + 1..hi] + diploids[hi + 1..]);
    TotalConcat(diploids[..lo] + [diploids[lo] + diploids[hi]], diploids[lo + 1..hi] + diploids[hi + 1..], k);
    TotalConcat(diploids[..lo], [diploids[lo] + diploids[hi]], k);
    TotalConcat(diploids[lo + 1..hi], diploids[hi + 1..], k);
    TotalSingle(diploids[lo] + diploids[hi], k);
    OccConcat(diploids[lo], diploids[hi], k);
  }

  /** swap_demes keeps every diploid, so the counts stay consistent without being touched. */
  lemma SwapDemesConsistent(gametes: seq<Gamete>, diploids: seq<seq<Diploid>>, i: nat, j: nat)
    requires i < j < |diploids| && GameteCountsConsistent(gametes, diploids)
    ensures GameteCountsConsistent(gametes, diploids[i := diploids[j]][j := diploids[i]])
  {
    var s := diploids[i := diploids[j]][j := diploids[i]];
    forall k | 0 <= k < |gametes| ensures gametes[k].n == TotalOcc(s, k) {
      TotalSplit2(diploids, i, j, k);
      TotalSplit2(s, i, j, k);
      assert s[..i] == diploids[..i] && s[i + 1..j] == diploids[i + 1..j] && s[j + 1..] == diploids[j + 1..];
    }
  }
}

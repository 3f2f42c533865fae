// The mutation counts a population derives from its haploid genomes, and the
// genome counts it derives from its diploids.  fwdpp_internal::process_gametes
// (sample_diploid_helpers.hpp) is not part of this model: ProcessGametes
// states its documented effect, that every count is recomputed as the number
// of copies of the mutation carried by the extant genomes.

module MutationCounts {
  import opened Types

  /** Number of times key m occurs in genome g's two containers. */
  function KeyCount(g: Gamete, m: nat): nat
  {
    Count(g.mutations, m) + Count(g.smutations, m)
  }

  /** Copies of mutation m that genome g contributes: it counts n times. */
  function Copies(g: Gamete, m: nat): nat
  {
    g.n * KeyCount(g, m)
  }

  /** Copies of mutation m carried by the genomes. */
  function Carried(gametes: seq<Gamete>, m: nat): nat
  {
    if gametes == [] then 0
    else Carried(gametes[..|gametes| - 1], m) + Copies(gametes[|gametes| - 1], m)
  }

  /** process_gametes: mcounts grows to the number of mutations and is refilled from the genomes. */
  function ProcessGametes(gametes: seq<Gamete>, numMutations: nat, mcounts: seq<nat>): (r: seq<nat>)
    ensures |r| == if numMutations > |mcounts| then numMutations else |mcounts|
  {
    var len := if numMutations > |mcounts| then numMutations else |mcounts|;
    seq(len, m requires 0 <= m < len => Carried(gametes, m))
  }

  /** Copies of genome index k held by a list of diploids: once per slot that names it. */
  function Occ(deme: seq<Diploid>, k: nat): nat
  {
    if deme == [] then 0
    else
      var d := deme[|deme| - 1];
      Occ(deme[..|deme| - 1], k) + (if d.first == k then 1 else 0) + (if d.second == k then 1 else 0)
  }

  /** Copies of genome index k held by all demes. */
  function TotalOcc(demes: seq<seq<Diploid>>, k: nat): nat
  {
    if demes == [] then 0 else TotalOcc(demes[..|demes| - 1], k) + Occ(demes[|demes| - 1], k)
  }

  /** The population's invariant: every genome's n is the number of diploid slots naming it. */
  predicate GameteCountsConsistent(gametes: seq<Gamete>, demes: seq<seq<Diploid>>)
  {
    forall k :: 0 <= k < |gametes| ==> gametes[k].n == TotalOcc(demes, k)
  }

  lemma {:induction false} OccConcat(a: seq<Diploid>, b: seq<Diploid>, k: nat)
    ensures Occ(a + b, k) == Occ(a, k) + Occ(b, k)
    decreases |b|
  {
    if b == [] {
      assert a + b == a;
    } else {
      assert (a + b)[..|a + b| - 1] == a + b[..|b| - 1];
      OccConcat(a, b[..|b| - 1], k);
    }
  }

  lemma {:induction false} TotalConcat(a: seq<seq<Diploid>>, b: seq<seq<Diploid>>, k: nat)
    ensures TotalOcc(a + b, k) == TotalOcc(a, k) + TotalOcc(b, k)
    decreases |b|
  {
    if b == [] {
      assert a + b == a;
    } else {
      assert (a + b)[..|a + b| - 1] == a + b[..|b| - 1];
      TotalConcat(a, b[..|b| - 1], k);
    }
  }

  lemma TotalSingle(d: seq<Diploid>, k: nat)
    ensures TotalOcc([d], k) == Occ(d, k)
  {
    assert [d][..0] == [];
  }

  /** Splitting the demes around index i: the total is the rest plus deme i. */
  lemma TotalSplit(demes: seq<seq<Diploid>>, i: nat, k: nat)
    requires i < |demes|
    ensures TotalOcc(demes, k) == TotalOcc(demes[..i] + demes[i + 1..], k) + Occ(demes[i], k)
  {
    assert demes == demes[..i] + [demes[i]] + demes[i + 1..];
    TotalConcat(demes[..i] + [demes[i]], demes[i + 1..], k);
    TotalConcat(demes[..i], [demes[i]], k);
    TotalConcat(demes[..i], demes[i + 1..], k);
    TotalSingle(demes[i], k);
  }

  /** Two separately held values in a sequence: the total is the rest plus both. */
  lemma TotalSplit2(demes: seq<seq<Diploid>>, i: nat, j: nat, k: nat)
    requires i < j < |demes|
    ensures TotalOcc(demes, k) ==
      TotalOcc(demes[..i], k) + Occ(demes[i], k) + TotalOcc(demes[i + 1..j], k) + Occ(demes[j], k) + TotalOcc(demes[j + 1..], k)
  {
    var a, b, c := demes[..i], demes[i + 1..j], demes[j + 1..];
    assert demes == a + [demes[i]] + b + [demes[j]] + c;
    TotalConcat(a + [demes[i]] + b + [demes[j]], c, k);
    TotalConcat(a + [demes[i]] + b, [demes[j]], k);
    TotalConcat(a + [demes[i]], b, k);
    TotalConcat(a, [demes[i]], k);
    TotalSingle(demes[i], k);
    TotalSingle(demes[j], k);
  }

  /** Every diploid of the deme names existing genomes (anything else is undefined behaviour in the library). */
  predicate DemeKeysValid(deme: seq<Diploid>, numGametes: nat)
  {
    forall d :: 0 <= d < |deme| ==> deme[d].first < numGametes && deme[d].second < numGametes
  }

  /** A genome count after n++ on a 32-bit unsigned value. */
  function Inc(n: nat): nat
  {
    if n == UINT_MODULUS - 1 then 0 else n + 1
  }

  /** A genome count after n-- on a 32-bit unsigned value. */
  function Dec(n: nat): nat
  {
    if n == 0 then UINT_MODULUS - 1 else n - 1
  }

  /** One diploid's two genomes gain (up) or lose a copy. */
  function BumpOne(gametes: seq<Gamete>, d: Diploid, up: bool): (r: seq<Gamete>)
    requires d.first < |gametes| && d.second < |gametes|
    ensures |r| == |gametes|
  {
    var g1 := gametes[d.first := gametes[d.first].(n := if up then Inc(gametes[d.first].n) else Dec(gametes[d.first].n))];
    g1[d.second := g1[d.second].(n := if up then Inc(g1[d.second].n) else Dec(g1[d.second].n))]
  }

  /** The genomes after the loop over a deme that bumps both genomes of each diploid. */
  function Bumped(gametes: seq<Gamete>, deme: seq<Diploid>, up: bool): (r: seq<Gamete>)
    requires DemeKeysValid(deme, |gametes|)
    ensures |r| == |gametes|
  {
    if deme == [] then gametes
    else BumpOne(Bumped(gametes, deme[..|deme| - 1], up), deme[|deme| - 1], up)
  }

  /**
   * Without wrap-around, bumping a deme adds (or removes) exactly the deme's
   * copies of each genome, and touches nothing but n.
   */
  lemma {:induction false} BumpedCounts(gametes: seq<Gamete>, deme: seq<Diploid>, up: bool, k: nat)
    requires DemeKeysValid(deme, |gametes|) && k < |gametes|
    requires up ==> gametes[k].n + Occ(deme, k) < UINT_MODULUS
    requires !up ==> gametes[k].n >= Occ(deme, k)
    ensures var r := Bumped(gametes, deme, up);
      && r[k] == gametes[k].(n := r[k].n)
      && r[k].n == if up then gametes[k].n + Occ(deme, k) else gametes[k].n - Occ(deme, k)
    decreases |deme|
  {
    if deme != [] {
      var init := deme[..|deme| - 1];
      assert DemeKeysValid(init, |gametes|);
      BumpedCounts(gametes, init, up, k);
    }
  }

  /** Bumping a deme leaves the genomes' mutation containers alone. */
  lemma {:induction false} BumpedKeys(gametes: seq<Gamete>, deme: seq<Diploid>, up: bool, k: nat)
    requires DemeKeysValid(deme, |gametes|) && k < |gametes|
    ensures Bumped(gametes, deme, up)[k].mutations == gametes[k].mutations
    ensures Bumped(gametes, deme, up)[k].smutations == gametes[k].smutations
    decreases |deme|
  {
    if deme != [] {
      var init := deme[..|deme| - 1];
      assert DemeKeysValid(init, |gametes|);
      BumpedKeys(gametes, init, up, k);
    }
  }

  /** The loop `for (auto &dip : deme) { gametes[dip.first].n±±; gametes[dip.second].n±±; }`. */
  method BumpDeme(gametes: seq<Gamete>, deme: seq<Diploid>, up: bool) returns (r: seq<Gamete>)
    requires DemeKeysValid(deme, |gametes|)
    ensures r == Bumped(gametes, deme, up)
  {
    r := gametes;
    var d := 0;
    while d < |deme|
      invariant 0 <= d <= |deme|
      invariant DemeKeysValid(deme[..d], |gametes|)
      invariant r == Bumped(gametes, deme[..d], up)
    {
      assert deme[..d + 1][..d] == deme[..d];
      var dip := deme[d];
      r := r[dip.first := r[dip.first].(n := if up then Inc(r[dip.first].n) else Dec(r[dip.first].n))];
      r := r[dip.second := r[dip.second].(n := if up then Inc(r[dip.second].n) else Dec(r[dip.second].n))];
      d := d + 1;
    }
    assert deme[..|deme|] == deme;
  }
}

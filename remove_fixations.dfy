// fwdpp/ts/remove_fixations_from_gametes.hpp: after simplification and
// mutation counting, the keys of mutations fixed in the living population
// (and absent from the preserved nodes) leave every extant haploid genome.

module RemoveFixations {
  import opened Types
  import opened Keys

  /**
   * removal_criteria: the key's mutation is fixed among the living (count
   * twoN), has no copy in a preserved node, and is neutral unless selected
   * fixations are not preserved.
   */
  function Criterion(mutations: seq<Mutation>, mcounts: seq<nat>, preserved: seq<nat>, twoN: nat, preserveSelected: bool): nat -> bool
  {
    (key: nat) => key < |mcounts| && key < |preserved| && key < |mutations|
      && mcounts[key] == twoN && preserved[key] == 0 && (!preserveSelected || mutations[key].neutral)
  }

  /** Some mutation is fixed among the living and absent from the preserved nodes. */
  predicate FixationsExist(mcounts: seq<nat>, preserved: seq<nat>, twoN: nat)
  {
    exists i :: 0 <= i < |mcounts| && i < |preserved| && mcounts[i] == twoN && preserved[i] == 0
  }

  /** A genome after the removal: an extant genome loses the matched keys of both containers. */
  function Cleaned(g: Gamete, removed: nat -> bool): (r: Gamete)
  {
    if g.n > 0 then g.(mutations := Filter(g.mutations, Not(removed)), smutations := Filter(g.smutations, Not(removed)))
    else g
  }

  /** The keys the genomes hold index the counts of the living and of the preserved nodes. */
  predicate Counted(gametes: seq<Gamete>, mcounts: seq<nat>)
  {
    forall i :: 0 <= i < |gametes| ==>
      (forall j :: 0 <= j < |gametes[i].mutations| ==> gametes[i].mutations[j] < |mcounts|)
      && (forall j :: 0 <= j < |gametes[i].smutations| ==> gametes[i].smutations[j] < |mcounts|)
  }

  /**
   * remove_fixations_from_haploid_genomes: a first scan looks for a fixation
   * and returns at once when there is none; otherwise both containers of
   * every extant genome go through erase/remove_if with removal_criteria.
   */
  method RemoveFixationsFromGenomes(gametes: seq<Gamete>, mutations: seq<Mutation>, mcounts: seq<nat>,
                                    preserved: seq<nat>, twoN: nat, preserveSelected: bool)
    returns (gametes2: seq<Gamete>)
    requires |mcounts| <= |preserved|
    ensures !FixationsExist(mcounts, preserved, twoN) ==> gametes2 == gametes
    ensures FixationsExist(mcounts, preserved, twoN) ==>
      |gametes2| == |gametes|
      && forall i :: 0 <= i < |gametes| ==> gametes2[i] == Cleaned(gametes[i], Criterion(mutations, mcounts, preserved, twoN, preserveSelected))
  {
    var fixationsExist := false;
    var i := 0;
    while !fixationsExist && i < |mcounts|
      invariant 0 <= i <= |mcounts|
      invariant fixationsExist ==> FixationsExist(mcounts, preserved, twoN)
      invariant !fixationsExist ==> forall j :: 0 <= j < i ==> !(mcounts[j] == twoN && preserved[j] == 0)
    {
      if mcounts[i] == twoN && preserved[i] == 0 {
        fixationsExist := true;
      }
      i := i + 1;
    }
    if !fixationsExist {
      return gametes;
    }
    var removed := Criterion(mutations, mcounts, preserved, twoN, preserveSelected);
    gametes2 := [];
    var j := 0;
    while j < |gametes|
      invariant 0 <= j <= |gametes|
      invariant |gametes2| == j
      invariant forall k :: 0 <= k < j ==> gametes2[k] == Cleaned(gametes[k], removed)
    {
      var g := gametes[j];
      if g.n > 0 {
        var neutral := RemoveIf(g.mutations, removed);
        var selected := RemoveIf(g.smutations, removed);
        g := g.(mutations := neutral, smutations := selected);
      }
      gametes2 := gametes2 + [g];
      j := j + 1;
    }
  }

  /**
   * The early return agrees with the removal rule: when nothing is fixed,
   * removal_criteria matches no key a genome holds.
   */
  lemma NoFixationNoRemoval(gametes: seq<Gamete>, mutations: seq<Mutation>, mcounts: seq<nat>,
                            preserved: seq<nat>, twoN: nat, preserveSelected: bool, i: nat)
    requires Counted(gametes, mcounts) && i < |gametes|
    requires !FixationsExist(mcounts, preserved, twoN)
    ensures Cleaned(gametes[i], Criterion(mutations, mcounts, preserved, twoN, preserveSelected)) == gametes[i]
  {
    var g := gametes[i];
    var keep := Not(Criterion(mutations, mcounts, preserved, twoN, preserveSelected));
    assert forall j :: 0 <= j < |g.mutations| ==> keep(g.mutations[j]) by {
      forall j | 0 <= j < |g.mutations| ensures keep(g.mutations[j]) {
        var k := g.mutations[j];
        assert !(k < |preserved| && mcounts[k] == twoN && preserved[k] == 0);
      }
    }
    assert forall j :: 0 <= j < |g.smutations| ==> keep(g.smutations[j]) by {
      forall j | 0 <= j < |g.smutations| ensures keep(g.smutations[j]) {
        var k := g.smutations[j];
        assert !(k < |preserved| && mcounts[k] == twoN && preserved[k] == 0);
      }
    }
    FilterAll(g.mutations, keep);
    FilterAll(g.smutations, keep);
  }

  /**
   * A key leaves an extant genome exactly when it meets removal_criteria;
   * the count and the extinct genomes are untouched.
   */
  lemma CleanedExactly(g: Gamete, removed: nat -> bool, k: nat)
    ensures Cleaned(g, removed).n == g.n
    ensures g.n == 0 ==> Cleaned(g, removed) == g
    ensures g.n > 0 ==> (k in Cleaned(g, removed).mutations <==> k in g.mutations && !removed(k))
    ensures g.n > 0 ==> (k in Cleaned(g, removed).smutations <==> k in g.smutations && !removed(k))
  {
    RemovedExactly(g.mutations, removed, k);
    RemovedExactly(g.smutations, removed, k);
  }

  /** The surviving keys keep their order, so position-sorted containers stay sorted. */
  lemma CleanedSorted(g: Gamete, mutations: seq<Mutation>, removed: nat -> bool)
    requires KeysSorted(mutations, g.mutations) && KeysSorted(mutations, g.smutations)
    ensures KeysSorted(mutations, Cleaned(g, removed).mutations) && KeysSorted(mutations, Cleaned(g, removed).smutations)
  {
    FilterKeysSorted(mutations, g.mutations, Not(removed));
    FilterKeysSorted(mutations, g.smutations, Not(removed));
  }
}

// fwdpp/sugar/poptypes/popbase.hpp: the base of the population objects.
// It holds the mutations, their counts, the haploid genomes, the position
// lookup and the fixations.  Its validators check diploid keys, genome
// counts and mutation keys, each throwing on the first violation, and
// fill_internal_structures rebuilds the lookup and the counts from
// population data supplied by the caller.

module PopBase {
  import opened Types
  import opened MutationCounts

  /** The positions of the mutations, as the lookup table records them. */
  function Positions(ms: seq<Mutation>): set<real>
  {
    if ms == [] then {} else Positions(ms[..|ms| - 1]) + {ms[|ms| - 1].pos}
  }

  /** The lookup holds a position exactly when some mutation has it. */
  lemma {:induction false} PositionsExactly(ms: seq<Mutation>, x: real)
    ensures x in Positions(ms) <==> exists k :: 0 <= k < |ms| && ms[k].pos == x
  {
    if ms != [] {
      var init := ms[..|ms| - 1];
      PositionsExactly(init, x);
      if x in Positions(init) {
        var k :| 0 <= k < |init| && init[k].pos == x;
        assert ms[k].pos == x;
      }
      if exists k :: 0 <= k < |ms| && ms[k].pos == x {
        var k :| 0 <= k < |ms| && ms[k].pos == x;
        if k < |init| {
          assert init[k].pos == x;
        }
      }
    }
  }

  /** std::vector::resize: cut to n entries, or padded with zeros up to n. */
  function Resized(s: seq<nat>, n: nat): (r: seq<nat>)
    ensures |r| == n && forall i :: 0 <= i < n ==> r[i] == if i < |s| then s[i] else 0
  {
    seq(n, i requires 0 <= i < n => if i < |s| then s[i] else 0)
  }

  /**
   * The outcome of check_mutation_keys: the first key that is out of range
   * throws out_of_range, the first whose neutral flag differs from the
   * container's throws logic_error.
   */
  function KeyCheck(keys: seq<nat>, mutations: seq<Mutation>, neutrality: bool): Outcome
    decreases |keys|
  {
    if keys == [] then Done
    else if keys[0] >= |mutations| then Fail(OutOfRange)
    else if mutations[keys[0]].neutral != neutrality then Fail(LogicError)
    else KeyCheck(keys[1..], mutations, neutrality)
  }

  /** A key container is accepted exactly when every key names a mutation of the container's kind. */
  predicate KeysOfKind(keys: seq<nat>, mutations: seq<Mutation>, neutrality: bool)
  {
    forall j :: 0 <= j < |keys| ==> keys[j] < |mutations| && mutations[keys[j]].neutral == neutrality
  }

  lemma {:induction false} KeyCheckDone(keys: seq<nat>, mutations: seq<Mutation>, neutrality: bool)
    ensures KeyCheck(keys, mutations, neutrality) == Done <==> KeysOfKind(keys, mutations, neutrality)
    ensures KeyCheck(keys, mutations, neutrality) != Done ==>
      KeyCheck(keys, mutations, neutrality) == Fail(OutOfRange) || KeyCheck(keys, mutations, neutrality) == Fail(LogicError)
    decreases |keys|
  {
    if keys != [] {
      KeyCheckDone(keys[1..], mutations, neutrality);
      if KeysOfKind(keys, mutations, neutrality) {
        assert KeysOfKind(keys[1..], mutations, neutrality) by {
          forall j | 0 <= j < |keys[1..]| ensures keys[1..][j] < |mutations| && mutations[keys[1..][j]].neutral == neutrality {
            assert keys[1..][j] == keys[j + 1];
          }
        }
      }
      if keys[0] < |mutations| && mutations[keys[0]].neutral == neutrality && KeysOfKind(keys[1..], mutations, neutrality) {
        forall j | 0 <= j < |keys| ensures keys[j] < |mutations| && mutations[keys[j]].neutral == neutrality {
          if j > 0 {
            assert keys[j] == keys[1..][j - 1];
          }
        }
      }
    }
  }

  /** The outcome of the genome loop of fill_internal_structures: neutral keys, then selected keys, genome by genome. */
  function GameteCheck(gametes: seq<Gamete>, mutations: seq<Mutation>): Outcome
    decreases |gametes|
  {
    if gametes == [] then Done
    else if KeyCheck(gametes[0].mutations, mutations, true) != Done then KeyCheck(gametes[0].mutations, mutations, true)
    else if KeyCheck(gametes[0].smutations, mutations, false) != Done then KeyCheck(gametes[0].smutations, mutations, false)
    else GameteCheck(gametes[1..], mutations)
  }

  /** Every genome keeps neutral keys in its first container and selected keys in its second. */
  predicate GametesOfKind(gametes: seq<Gamete>, mutations: seq<Mutation>)
  {
    forall j :: 0 <= j < |gametes| ==>
      KeysOfKind(gametes[j].mutations, mutations, true) && KeysOfKind(gametes[j].smutations, mutations, false)
  }

  lemma {:induction false} GameteCheckDone(gametes: seq<Gamete>, mutations: seq<Mutation>)
    ensures GameteCheck(gametes, mutations) == Done <==> GametesOfKind(gametes, mutations)
    decreases |gametes|
  {
    if gametes != [] {
      GameteCheckDone(gametes[1..], mutations);
      KeyCheckDone(gametes[0].mutations, mutations, true);
      KeyCheckDone(gametes[0].smutations, mutations, false);
      assert forall j :: 0 <= j < |gametes[1..]| ==> gametes[1..][j] == gametes[j + 1];
      if !GametesOfKind(gametes, mutations) {
        var j :| 0 <= j < |gametes| &&
          !(KeysOfKind(gametes[j].mutations, mutations, true) && KeysOfKind(gametes[j].smutations, mutations, false));
        if j > 0 {
          assert gametes[j] == gametes[1..][j - 1];
        }
      }
    }
  }

  /** The loop of fill_internal_structures over the genomes checks the containers one at a time, in order. */
  lemma GameteCheckNext(gametes: seq<Gamete>, mutations: seq<Mutation>, i: nat)
    requires i < |gametes|
    requires GameteCheck(gametes, mutations) == GameteCheck(gametes[i..], mutations)
    ensures GameteCheck(gametes[i..], mutations) ==
      if KeyCheck(gametes[i].mutations, mutations, true) != Done then KeyCheck(gametes[i].mutations, mutations, true)
      else if KeyCheck(gametes[i].smutations, mutations, false) != Done then KeyCheck(gametes[i].smutations, mutations, false)
      else GameteCheck(gametes[i + 1..], mutations)
  {
    assert gametes[i..][0] == gametes[i] && gametes[i..][1..] == gametes[i + 1..];
  }

  class Population {
    var mutations: seq<Mutation>
    var mcounts: seq<nat>
    var gametes: seq<Gamete>
    /** mut_lookup: the positions of the mutations. */
    var lookup: set<real>
    var fixations: seq<Mutation>
    var fixationTimes: seq<nat>

    /**
     * The size constructor: no mutations, and a single genome carried
     * 2N times; the count is a 32-bit unsigned product.
     */
    constructor (popsize: nat)
      requires popsize < UINT_MODULUS
      ensures mutations == [] && mcounts == [] && lookup == {} && fixations == [] && fixationTimes == []
      ensures gametes == [Gamete((2 * popsize) % UINT_MODULUS, [], [])]
    {
      mutations, mcounts, gametes := [], [], [Gamete((2 * popsize) % UINT_MODULUS, [], [])];
      lookup, fixations, fixationTimes := {}, [], [];
    }

    /** The constructor from genomes and mutations, before it calls fill_internal_structures. */
    constructor FromInput(g: seq<Gamete>, m: seq<Mutation>)
      ensures mutations == m && gametes == g
      ensures mcounts == [] && lookup == {} && fixations == [] && fixationTimes == []
    {
      mutations, mcounts, gametes := m, [], g;
      lookup, fixations, fixationTimes := {}, [], [];
    }

    /** validate_diploid_keys: both keys name genomes, and both genomes are extant. */
    method ValidateDiploidKeys(first: nat, second: nat) returns (o: Outcome)
      ensures o == Fail(OutOfRange) <==> first >= |gametes| || second >= |gametes|
      ensures o == Fail(RuntimeError) <==>
        first < |gametes| && second < |gametes| && (gametes[first].n == 0 || gametes[second].n == 0)
      ensures o == Done <==> first < |gametes| && second < |gametes| && gametes[first].n != 0 && gametes[second].n != 0
    {
      if first >= |gametes| || second >= |gametes| {
        return Fail(OutOfRange);
      }
      if gametes[first].n == 0 || gametes[second].n == 0 {
        return Fail(RuntimeError);
      }
      return Done;
    }

    /**
     * validate_gamete_counts: each tally must be the n of the genome at the
     * same index; a tally past the last genome reads outside the vector.
     */
    method ValidateGameteCounts(gcounts: seq<nat>) returns (o: Outcome)
      ensures o == Done <==> |gcounts| <= |gametes| && forall i :: 0 <= i < |gcounts| ==> gcounts[i] == gametes[i].n
      ensures o != Done ==> o == Fail(RuntimeError) || o == Fail(Undefined)
      ensures o == Fail(RuntimeError) ==> exists i :: 0 <= i < |gcounts| && i < |gametes| && gcounts[i] != gametes[i].n
    {
      var i := 0;
      while i < |gcounts|
        invariant i <= |gcounts| && i <= |gametes|
        invariant forall k :: 0 <= k < i ==> gcounts[k] == gametes[k].n
      {
        if i >= |gametes| {
          return Fail(Undefined);
        }
        if gcounts[i] != gametes[i].n {
          return Fail(RuntimeError);
        }
        i := i + 1;
      }
      return Done;
    }

    /**
     * check_mutation_keys: every key must name a mutation of the container's
     * kind.  Each turn of the loop first resizes mcounts to the number of
     * mutations, so a non-empty container leaves it resized even when a key
     * throws.
     */
    method CheckMutationKeys(m: seq<nat>, ms: seq<Mutation>, neutrality: bool) returns (o: Outcome)
      modifies this
      ensures o == KeyCheck(m, ms, neutrality)
      ensures mcounts == if m == [] then old(mcounts) else Resized(old(mcounts), |ms|)
      ensures mutations == old(mutations) && gametes == old(gametes) && lookup == old(lookup)
      ensures fixations == old(fixations) && fixationTimes == old(fixationTimes)
    {
      var j := 0;
      while j < |m|
        invariant j <= |m|
        invariant KeyCheck(m, ms, neutrality) == KeyCheck(m[j..], ms, neutrality)
        invariant mcounts == if j == 0 then old(mcounts) else Resized(old(mcounts), |ms|)
        invariant mutations == old(mutations) && gametes == old(gametes) && lookup == old(lookup)
        invariant fixations == old(fixations) && fixationTimes == old(fixationTimes)
      {
        assert m[j..][0] == m[j] && m[j..][1..] == m[j + 1..];
        assert KeyCheck(m[j..], ms, neutrality) ==
          if m[j] >= |ms| then Fail(OutOfRange)
          else if ms[m[j]].neutral != neutrality then Fail(LogicError)
          else KeyCheck(m[j + 1..], ms, neutrality);
        ResizedTwice(old(mcounts), |ms|);
        mcounts := Resized(mcounts, |ms|);
        if m[j] >= |ms| {
          return Fail(OutOfRange);
        }
        if ms[m[j]].neutral != neutrality {
          return Fail(LogicError);
        }
        j := j + 1;
      }
      assert m[j..] == [];
      o := Done;
    }

    /**
     * fill_internal_structures: the lookup, the fixations and the counts are
     * cleared, every mutation position is inserted into the lookup, every
     * genome's keys are checked, and the counts are recomputed from the
     * genomes.
     */
    method FillInternalStructures() returns (o: Outcome)
      modifies this
      ensures o == GameteCheck(gametes, mutations)
      ensures mutations == old(mutations) && gametes == old(gametes)
      ensures lookup == Positions(mutations) && fixations == [] && fixationTimes == []
      ensures o == Done ==> |mcounts| == |mutations| && forall k :: 0 <= k < |mutations| ==> mcounts[k] == Carried(gametes, k)
    {
      lookup, fixations, fixationTimes, mcounts := {}, [], [], [];
      lookup := LookupOf(mutations);
      o := CheckGametes();
      if o == Done {
        mcounts := ProcessGametes(gametes, |mutations|, mcounts);
      }
    }

    /** The genome loop of fill_internal_structures, stopping at the first container that throws. */
    method CheckGametes() returns (o: Outcome)
      requires mcounts == []
      modifies this
      ensures o == GameteCheck(gametes, mutations)
      ensures mcounts == [] || mcounts == Resized([], |mutations|)
      ensures mutations == old(mutations) && gametes == old(gametes) && lookup == old(lookup)
      ensures fixations == old(fixations) && fixationTimes == old(fixationTimes)
    {
      var j := 0;
      while j < |gametes|
        invariant j <= |gametes|
        invariant GameteCheck(gametes, mutations) == GameteCheck(gametes[j..], mutations)
        invariant mcounts == [] || mcounts == Resized([], |mutations|)
        invariant mutations == old(mutations) && gametes == old(gametes) && lookup == old(lookup)
        invariant fixations == old(fixations) && fixationTimes == old(fixationTimes)
      {
        GameteCheckNext(gametes, mutations, j);
        ResizedTwice([], |mutations|);
        o := CheckMutationKeys(gametes[j].mutations, mutations, true);
        if o != Done {
          return;
        }
        o := CheckMutationKeys(gametes[j].smutations, mutations, false);
        if o != Done {
          return;
        }
        j := j + 1;
      }
      assert gametes[j..] == [];
      o := Done;
    }

    /** clear_containers: every container is emptied. */
    method ClearContainers()
      modifies this
      ensures mutations == [] && mcounts == [] && gametes == [] && lookup == {} && fixations == [] && fixationTimes == []
    {
      mutations, mcounts, gametes := [], [], [];
      lookup, fixations, fixationTimes := {}, [], [];
    }
  }

  /** The lookup loop of fill_internal_structures: every position is inserted. */
  method LookupOf(ms: seq<Mutation>) returns (lookup: set<real>)
    ensures lookup == Positions(ms)
  {
    lookup := {};
    var i := 0;
    while i < |ms|
      invariant i <= |ms| && lookup == Positions(ms[..i])
    {
      assert ms[..i + 1][..i] == ms[..i];
      lookup := lookup + {ms[i].pos};
      i := i + 1;
    }
    assert ms[..i] == ms;
  }

  /** Resizing twice to the same length is resizing once. */
  lemma ResizedTwice(s: seq<nat>, n: nat)
    ensures Resized(Resized(s, n), n) == Resized(s, n)
  {
  }

  /**
   * The constructor from population data: the fields are set and
   * fill_internal_structures runs.  It throws exactly when some genome
   * holds a key out of range or in the wrong container; otherwise every
   * count is the number of copies the genomes carry.
   */
  method PopulationFromInput(g: seq<Gamete>, m: seq<Mutation>) returns (pop: Population, o: Outcome)
    ensures fresh(pop) && pop.mutations == m && pop.gametes == g && pop.lookup == Positions(m)
    ensures o == Done <==> GametesOfKind(g, m)
    ensures o == Done ==> |pop.mcounts| == |m| && forall k :: 0 <= k < |m| ==> pop.mcounts[k] == Carried(g, k)
  {
    pop := new Population.FromInput(g, m);
    o := pop.FillInternalStructures();
    GameteCheckDone(g, m);
  }
}

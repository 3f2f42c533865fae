// fwdpp/internal/haploid_genome_cleaner.hpp: pruning of fixed mutations from
// the haploid genomes after a generation.  The removal policy decides what
// is a fixation: nothing (remove_nothing), every mutation whose count is
// twoN (std::true_type), or every such mutation a custom predicate accepts.
// The single-locus version decides from the first extant genome whether
// fixations exist and, relying on position order, starts each erasure at the
// first fixation it found there; the search-all version inspects every
// genome first and erases from the start of each container.

module GenomeCleaner {
  import opened Types
  import opened Keys

  datatype Policy = RemoveNothing | RemoveFixed | Custom(accepts: Mutation -> bool)

  /** The fixation test of find_fixation and of the erase wrapper under a policy other than remove_nothing. */
  function Fixation(mutations: seq<Mutation>, mcounts: seq<nat>, twoN: nat, policy: Policy): nat -> bool
  {
    (k: nat) => k < |mcounts| && mcounts[k] == twoN && (policy.Custom? ==> k < |mutations| && policy.accepts(mutations[k]))
  }

  /** next_extant_haploid_genome: the first genome at or after from with n > 0, or |gametes| when there is none. */
  function NextExtant(gametes: seq<Gamete>, from: nat): (e: nat)
    requires from <= |gametes|
    ensures from <= e <= |gametes|
    ensures forall i :: from <= i < e ==> gametes[i].n == 0
    ensures e < |gametes| ==> gametes[e].n > 0
    decreases |gametes| - from
  {
    if from == |gametes| || gametes[from].n > 0 then from else NextExtant(gametes, from + 1)
  }

  /** find_fixation: the first position of mc holding a fixation, or |mc| when there is none. */
  function FindFixation(mc: seq<nat>, fixed: nat -> bool): (f: nat)
    ensures f <= |mc|
    ensures forall i :: 0 <= i < f ==> !fixed(mc[i])
    ensures f < |mc| ==> fixed(mc[f])
  {
    if mc == [] then 0 else if fixed(mc[0]) then 0 else 1 + FindFixation(mc[1..], fixed)
  }

  /** The container holds a fixation (find_fixation does not return the end). */
  predicate HasFixation(mc: seq<nat>, fixed: nat -> bool)
  {
    FindFixation(mc, fixed) < |mc|
  }

  /**
   * The erase wrapper with a first fixation: remove_if runs from the first
   * occurrence of that key (std::find), so the keys before it are kept
   * whatever they are.
   */
  function ErasedFrom(mc: seq<nat>, first: nat, fixed: nat -> bool): (r: seq<nat>)
  {
    var f := FindKey(mc, first);
    mc[..f] + Filter(mc[f..], Not(fixed))
  }

  /**
   * What the first extant genome shows: whether each class holds a fixation
   * and, if so, the key of its first one (the value-initialised key 0 when
   * it holds none).
   */
  datatype Survey = Survey(neutral: bool, nfirst: nat, selected: bool, sfirst: nat)

  function SurveyOf(g0: Gamete, fixed: nat -> bool): (r: Survey)
    ensures r.neutral <==> HasFixation(g0.mutations, fixed)
    ensures r.selected <==> HasFixation(g0.smutations, fixed)
    ensures r.neutral ==> r.nfirst == g0.mutations[FindFixation(g0.mutations, fixed)]
    ensures r.selected ==> r.sfirst == g0.smutations[FindFixation(g0.smutations, fixed)]
  {
    var fn, fs := FindFixation(g0.mutations, fixed), FindFixation(g0.smutations, fixed);
    Survey(fn < |g0.mutations|, if fn < |g0.mutations| then g0.mutations[fn] else 0,
           fs < |g0.smutations|, if fs < |g0.smutations| then g0.smutations[fs] else 0)
  }

  /** A genome after the single-locus sweep, given the survey of the first extant genome. */
  function Swept(g: Gamete, sv: Survey, fixed: nat -> bool): Gamete
  {
    if g.n == 0 then g
    else g.(mutations := if sv.neutral then ErasedFrom(g.mutations, sv.nfirst, fixed) else g.mutations,
            smutations := if sv.selected then ErasedFrom(g.smutations, sv.sfirst, fixed) else g.smutations)
  }

  /** A genome after the search-all sweep: whole containers are filtered. */
  function SweptAll(g: Gamete, neutral: bool, selected: bool, fixed: nat -> bool): Gamete
  {
    if g.n == 0 then g
    else g.(mutations := if neutral then Filter(g.mutations, Not(fixed)) else g.mutations,
            smutations := if selected then Filter(g.smutations, Not(fixed)) else g.smutations)
  }

  /** Some extant genome exists (the single-locus version dereferences the first one). */
  predicate SomeExtant(gametes: seq<Gamete>)
  {
    NextExtant(gametes, 0) < |gametes|
  }

  /**
   * haploid_genome_cleaner and haploid_genome_cleaner_details (single
   * locus).  remove_nothing returns at once.  Otherwise the first extant
   * genome is searched for a neutral and for a selected fixation; with
   * neither the call returns, else every extant genome is erased from the
   * fixation found, in each class that has one.
   */
  method HaploidGenomeCleaner(gametes: seq<Gamete>, mutations: seq<Mutation>, mcounts: seq<nat>, twoN: nat, policy: Policy)
    returns (gametes2: seq<Gamete>)
    requires policy != RemoveNothing ==> SomeExtant(gametes)
    ensures policy == RemoveNothing ==> gametes2 == gametes
    ensures policy != RemoveNothing ==>
      var fixed := Fixation(mutations, mcounts, twoN, policy);
      var sv := SurveyOf(gametes[NextExtant(gametes, 0)], fixed);
      |gametes2| == |gametes|
      && (!sv.neutral && !sv.selected ==> gametes2 == gametes)
      && forall i :: 0 <= i < |gametes| ==> gametes2[i] == Swept(gametes[i], sv, fixed)
  {
    if policy == RemoveNothing {
      return gametes;
    }
    var fixed := Fixation(mutations, mcounts, twoN, policy);
    var e := NextExtant(gametes, 0);
    var sv := SurveyOf(gametes[e], fixed);
    if !sv.neutral && !sv.selected {
      return gametes;
    }
    gametes2 := gametes;
    while e < |gametes|
      invariant 0 <= e <= |gametes| && |gametes2| == |gametes|
      invariant e < |gametes| ==> gametes[e].n > 0
      invariant forall i :: 0 <= i < e ==> gametes2[i] == Swept(gametes[i], sv, fixed)
      invariant forall i :: e <= i < |gametes| ==> gametes2[i] == gametes[i]
      decreases |gametes| - e
    {
      var g := gametes[e];
      if sv.neutral {
        g := g.(mutations := ErasedFrom(g.mutations, sv.nfirst, fixed));
      }
      if sv.selected {
        g := g.(smutations := ErasedFrom(g.smutations, sv.sfirst, fixed));
      }
      gametes2 := gametes2[e := g];
      var next := NextExtant(gametes, e + 1);
      assert forall i :: e < i < next ==> Swept(gametes[i], sv, fixed) == gametes[i];
      e := next;
    }
  }

  /**
   * fixation_finder_search_all: whether any genome, extant or not, holds a
   * neutral and a selected fixation; the scan stops once both are found.
   */
  method SearchAll(gametes: seq<Gamete>, fixed: nat -> bool) returns (neutral: bool, selected: bool)
    ensures neutral <==> exists i :: 0 <= i < |gametes| && HasFixation(gametes[i].mutations, fixed)
    ensures selected <==> exists i :: 0 <= i < |gametes| && HasFixation(gametes[i].smutations, fixed)
  {
    neutral, selected := false, false;
    var i := 0;
    while i < |gametes|
      invariant 0 <= i <= |gametes|
      invariant neutral <==> exists j :: 0 <= j < i && HasFixation(gametes[j].mutations, fixed)
      invariant selected <==> exists j :: 0 <= j < i && HasFixation(gametes[j].smutations, fixed)
    {
      var g := gametes[i];
      if !neutral && HasFixation(g.mutations, fixed) {
        neutral := true;
      }
      if !selected && HasFixation(g.smutations, fixed) {
        selected := true;
      }
      if neutral && selected {
        return;
      }
      i := i + 1;
    }
  }

  /**
   * haploid_genome_cleaner with std::true_type as last argument (the
   * search-all version): remove_nothing returns at once; otherwise every
   * extant genome's containers of each class that has a fixation anywhere
   * are filtered.
   */
  method HaploidGenomeCleanerSearchAll(gametes: seq<Gamete>, mutations: seq<Mutation>, mcounts: seq<nat>, twoN: nat, policy: Policy)
    returns (gametes2: seq<Gamete>)
    ensures policy == RemoveNothing ==> gametes2 == gametes
    ensures policy != RemoveNothing ==>
      var fixed := Fixation(mutations, mcounts, twoN, policy);
      var neutral := exists i :: 0 <= i < |gametes| && HasFixation(gametes[i].mutations, fixed);
      var selected := exists i :: 0 <= i < |gametes| && HasFixation(gametes[i].smutations, fixed);
      |gametes2| == |gametes|
      && forall i :: 0 <= i < |gametes| ==> gametes2[i] == SweptAll(gametes[i], neutral, selected, fixed)
  {
    if policy == RemoveNothing {
      return gametes;
    }
    var fixed := Fixation(mutations, mcounts, twoN, policy);
    var neutral, selected := SearchAll(gametes, fixed);
    if !neutral && !selected {
      return gametes;
    }
    var e := NextExtant(gametes, 0);
    gametes2 := gametes;
    while e < |gametes|
      invariant 0 <= e <= |gametes| && |gametes2| == |gametes|
      invariant e < |gametes| ==> gametes[e].n > 0
      invariant forall i :: 0 <= i < e ==> gametes2[i] == SweptAll(gametes[i], neutral, selected, fixed)
      invariant forall i :: e <= i < |gametes| ==> gametes2[i] == gametes[i]
      decreases |gametes| - e
    {
      var g := gametes[e];
      if neutral {
        var kept := RemoveIf(g.mutations, fixed);
        g := g.(mutations := kept);
      }
      if selected {
        var kept := RemoveIf(g.smutations, fixed);
        g := g.(smutations := kept);
      }
      gametes2 := gametes2[e := g];
      var next := NextExtant(gametes, e + 1);
      assert forall i :: e < i < next ==> SweptAll(gametes[i], neutral, selected, fixed) == gametes[i];
      e := next;
    }
  }

  /** When no container before the first fixation's occurrence holds a fixation, the erasure is a plain filter. */
  lemma ErasedFromFilter(mc: seq<nat>, first: nat, fixed: nat -> bool)
    requires forall i :: 0 <= i < FindKey(mc, first) ==> !fixed(mc[i])
    ensures ErasedFrom(mc, first, fixed) == Filter(mc, Not(fixed))
  {
    var f := FindKey(mc, first);
    assert mc == mc[..f] + mc[f..];
    FilterConcat(mc[..f], mc[f..], Not(fixed));
    FilterAll(mc[..f], Not(fixed));
  }

  /** The erasure only removes fixations: a key survives if it is not one, and nothing new appears. */
  lemma ErasedFromMembers(mc: seq<nat>, first: nat, fixed: nat -> bool, k: nat)
    ensures k in ErasedFrom(mc, first, fixed) ==> k in mc
    ensures k in mc && !fixed(k) ==> k in ErasedFrom(mc, first, fixed)
  {
    var f := FindKey(mc, first);
    FilterMembers(mc[f..], Not(fixed));
    assert mc == mc[..f] + mc[f..];
  }

  /** The survivors keep their order, so position-sorted containers stay sorted. */
  lemma ErasedFromSorted(mutations: seq<Mutation>, mc: seq<nat>, first: nat, fixed: nat -> bool)
    requires KeysSorted(mutations, mc)
    ensures KeysSorted(mutations, ErasedFrom(mc, first, fixed))
  {
    var f := FindKey(mc, first);
    var rest := mc[f..];
    var head, tail := mc[..f], Filter(rest, Not(fixed));
    SuffixKeysSorted(mutations, mc, f);
    FilterKeysSorted(mutations, rest, Not(fixed));
    FilterMembers(rest, Not(fixed));
    PrefixKeysSorted(mutations, mc, f);
    forall a, b | 0 <= a < |head| && 0 <= b < |tail| ensures mutations[head[a]].pos <= mutations[tail[b]].pos {
      assert tail[b] in rest;
      var j :| 0 <= j < |rest| && rest[j] == tail[b];
      KeysSortedPositions(mutations, mc, a, f + j);
    }
    ConcatKeysSorted(mutations, head, tail);
  }

  /** Keys in strictly increasing position order, as infinitely-many-sites genomes hold them. */
  predicate StrictlySorted(mutations: seq<Mutation>, mc: seq<nat>)
  {
    KeysIn(mutations, mc) && forall i, j :: 0 <= i < j < |mc| ==> mutations[mc[i]].pos < mutations[mc[j]].pos
  }

  /** In strictly sorted keys, a key at a smaller position comes earlier. */
  lemma StrictlyBefore(mutations: seq<Mutation>, mc: seq<nat>, a: nat, b: nat)
    requires StrictlySorted(mutations, mc) && a < |mc| && b < |mc|
    requires mutations[mc[a]].pos < mutations[mc[b]].pos
    ensures a < b
  {
  }

  /** A fixation found in one container of class c of an extant genome is in that class's container of every extant genome. */
  predicate FixationsShared(gametes: seq<Gamete>, fixed: nat -> bool)
  {
    forall i, j :: 0 <= i < |gametes| && 0 <= j < |gametes| && gametes[i].n > 0 && gametes[j].n > 0 ==>
      (forall x :: 0 <= x < |gametes[i].mutations| && fixed(gametes[i].mutations[x]) ==> gametes[i].mutations[x] in gametes[j].mutations)
      && (forall x :: 0 <= x < |gametes[i].smutations| && fixed(gametes[i].smutations[x]) ==> gametes[i].smutations[x] in gametes[j].smutations)
  }

  /**
   * The single-locus shortcut is sound for one container: when the first
   * extant genome's first fixation is also carried by this genome, no key
   * before it here is a fixation, since such a key would lie at a smaller
   * position yet, being carried by the first genome too, after that genome's
   * first fixation.
   */
  lemma FirstFixationFirstEverywhere(mutations: seq<Mutation>, mc0: seq<nat>, mc: seq<nat>, fixed: nat -> bool)
    requires StrictlySorted(mutations, mc0) && StrictlySorted(mutations, mc)
    requires forall x :: 0 <= x < |mc| && fixed(mc[x]) ==> mc[x] in mc0
    requires HasFixation(mc0, fixed) && mc0[FindFixation(mc0, fixed)] in mc
    ensures forall i :: 0 <= i < FindKey(mc, mc0[FindFixation(mc0, fixed)]) ==> !fixed(mc[i])
  {
    var fn := FindFixation(mc0, fixed);
    var first := mc0[fn];
    var f := FindKey(mc, first);
    assert f < |mc| && mc[f] == first;
    forall i | 0 <= i < f ensures !fixed(mc[i]) {
      var k := mc[i];
      assert mutations[k].pos < mutations[first].pos;
      if k in mc0 {
        var j :| 0 <= j < |mc0| && mc0[j] == k;
        StrictlyBefore(mutations, mc0, j, fn);
      }
    }
  }

  /** A container with no fixation is left as it is by the filter. */
  lemma NoFixationFilter(mc0: seq<nat>, mc: seq<nat>, fixed: nat -> bool)
    requires !HasFixation(mc0, fixed)
    requires forall x :: 0 <= x < |mc| && fixed(mc[x]) ==> mc[x] in mc0
    ensures Filter(mc, Not(fixed)) == mc
  {
    assert forall x :: 0 <= x < |mc| ==> Not(fixed)(mc[x]);
    FilterAll(mc, Not(fixed));
  }

  /** One container class of the single-locus sweep is a plain filter under shared fixations and strict order. */
  lemma SweptContainer(mutations: seq<Mutation>, mc0: seq<nat>, mc: seq<nat>, fixed: nat -> bool)
    requires StrictlySorted(mutations, mc0) && StrictlySorted(mutations, mc)
    requires forall x :: 0 <= x < |mc| && fixed(mc[x]) ==> mc[x] in mc0
    requires forall x :: 0 <= x < |mc0| && fixed(mc0[x]) ==> mc0[x] in mc
    ensures var fn := FindFixation(mc0, fixed);
      (if fn < |mc0| then ErasedFrom(mc, mc0[fn], fixed) else mc) == Filter(mc, Not(fixed))
  {
    var fn := FindFixation(mc0, fixed);
    if fn < |mc0| {
      FirstFixationFirstEverywhere(mutations, mc0, mc, fixed);
      ErasedFromFilter(mc, mc0[fn], fixed);
    } else {
      NoFixationFilter(mc0, mc, fixed);
    }
  }

  /** Shared fixations, read off for one ordered pair of extant genomes. */
  lemma SharedBetween(gametes: seq<Gamete>, fixed: nat -> bool, a: nat, b: nat)
    requires FixationsShared(gametes, fixed) && a < |gametes| && b < |gametes| && gametes[a].n > 0 && gametes[b].n > 0
    ensures forall x :: 0 <= x < |gametes[a].mutations| && fixed(gametes[a].mutations[x]) ==> gametes[a].mutations[x] in gametes[b].mutations
    ensures forall x :: 0 <= x < |gametes[a].smutations| && fixed(gametes[a].smutations[x]) ==> gametes[a].smutations[x] in gametes[b].smutations
  {
  }

  /**
   * Under fwdpp's own assumptions -- every fixation is carried by every
   * extant genome, in the container of its class, and each container is in
   * strictly increasing position order -- the single-locus sweep removes
   * exactly the fixations from every extant genome.
   */
  lemma SweptRemovesFixations(gametes: seq<Gamete>, mutations: seq<Mutation>, fixed: nat -> bool, i: nat)
    requires SomeExtant(gametes) && FixationsShared(gametes, fixed) && i < |gametes|
    requires forall j :: 0 <= j < |gametes| && gametes[j].n > 0 ==>
      StrictlySorted(mutations, gametes[j].mutations) && StrictlySorted(mutations, gametes[j].smutations)
    ensures Swept(gametes[i], SurveyOf(gametes[NextExtant(gametes, 0)], fixed), fixed) == SweptAll(gametes[i], true, true, fixed)
  {
    var e := NextExtant(gametes, 0);
    var g0, g := gametes[e], gametes[i];
    if g.n > 0 {
      assert StrictlySorted(mutations, g0.mutations) && StrictlySorted(mutations, g0.smutations);
      assert StrictlySorted(mutations, g.mutations) && StrictlySorted(mutations, g.smutations);
      SharedBetween(gametes, fixed, i, e);
      SharedBetween(gametes, fixed, e, i);
      SweptPair(mutations, g0, g, fixed);
    }
  }

  /** The sweep of one extant genome g, surveyed on the first extant genome g0, under the assumptions for the pair. */
  lemma SweptPair(mutations: seq<Mutation>, g0: Gamete, g: Gamete, fixed: nat -> bool)
    requires g.n > 0
    requires StrictlySorted(mutations, g0.mutations) && StrictlySorted(mutations, g0.smutations)
    requires StrictlySorted(mutations, g.mutations) && StrictlySorted(mutations, g.smutations)
    requires forall x :: 0 <= x < |g.mutations| && fixed(g.mutations[x]) ==> g.mutations[x] in g0.mutations
    requires forall x :: 0 <= x < |g.smutations| && fixed(g.smutations[x]) ==> g.smutations[x] in g0.smutations
    requires forall x :: 0 <= x < |g0.mutations| && fixed(g0.mutations[x]) ==> g0.mutations[x] in g.mutations
    requires forall x :: 0 <= x < |g0.smutations| && fixed(g0.smutations[x]) ==> g0.smutations[x] in g.smutations
    ensures Swept(g, SurveyOf(g0, fixed), fixed) == SweptAll(g, true, true, fixed)
  {
    var sv := SurveyOf(g0, fixed);
    var m := if sv.neutral then ErasedFrom(g.mutations, sv.nfirst, fixed) else g.mutations;
    var sm := if sv.selected then ErasedFrom(g.smutations, sv.sfirst, fixed) else g.smutations;
    SweptContainer(mutations, g0.mutations, g.mutations, fixed);
    SweptContainer(mutations, g0.smutations, g.smutations, fixed);
    assert m == Filter(g.mutations, Not(fixed)) && sm == Filter(g.smutations, Not(fixed));
    assert Swept(g, sv, fixed) == Gamete(g.n, m, sm);
  }

  /** The search-all sweep removes exactly the fixations from every extant genome, with no assumption on order. */
  lemma SweptAllRemovesFixations(gametes: seq<Gamete>, fixed: nat -> bool, i: nat)
    requires i < |gametes|
    ensures var neutral := exists j :: 0 <= j < |gametes| && HasFixation(gametes[j].mutations, fixed);
      var selected := exists j :: 0 <= j < |gametes| && HasFixation(gametes[j].smutations, fixed);
      SweptAll(gametes[i], neutral, selected, fixed) == SweptAll(gametes[i], true, true, fixed)
  {
    var g := gametes[i];
    if !HasFixation(g.mutations, fixed) {
      NoFixationFilter(g.mutations, g.mutations, fixed);
    }
    if !HasFixation(g.smutations, fixed) {
      NoFixationFilter(g.smutations, g.smutations, fixed);
    }
  }

  /** After the full filter a key stays in an extant genome exactly when it was there and is not a fixation. */
  lemma SweptAllExactly(g: Gamete, fixed: nat -> bool, k: nat)
    requires g.n > 0
    ensures k in SweptAll(g, true, true, fixed).mutations <==> k in g.mutations && !fixed(k)
    ensures k in SweptAll(g, true, true, fixed).smutations <==> k in g.smutations && !fixed(k)
  {
    RemovedExactly(g.mutations, fixed, k);
    RemovedExactly(g.smutations, fixed, k);
  }
}

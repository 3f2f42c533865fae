// fwdpp/ts/generate_offspring.hpp: the two haploid genomes of one diploid
// offspring.  Each parent's genomes may be swapped (Mendel), each offspring
// genome is built by mutate_recombine from that parent's genomes, the
// breakpoints and the keys of the new mutations, and the two new genomes
// each gain one copy.  The breakpoints, the new keys and the swap decisions
// come from random callbacks; here they are parameters.

module GenerateOffspring {
  import opened Types
  import opened Keys
  import opened MutateRecombine

  /** mut_rec_intermediates: what one parent passed on, for the caller to record. */
  datatype MutRecIntermediates = MutRecIntermediates(swapped: int, breakpoints: seq<real>, mutationKeys: seq<nat>)

  /** The two dispatch tags of generate_offspring. */
  datatype MutationPolicy = AllMutations | SelectedVariantsOnly

  /** A key naming a selected (non-neutral) mutation. */
  function IsSelected(mutations: seq<Mutation>): nat -> bool
  {
    SideOf(mutations, false)
  }

  /**
   * std::stable_partition by "not neutral": the selected keys first and the
   * others after them, each group in its original order; the second
   * component is the partition point.
   */
  function StablePartition(mutations: seq<Mutation>, keys: seq<nat>): (r: (seq<nat>, nat))
    ensures r.1 <= |r.0| == |keys| && multiset(r.0) == multiset(keys)
    ensures r.0[..r.1] == Filter(keys, IsSelected(mutations))
    ensures forall i :: 0 <= i < r.1 ==> OnSide(mutations, false, r.0[i])
    ensures forall i :: r.1 <= i < |r.0| ==> !OnSide(mutations, false, r.0[i])
  {
    PartitionParts(mutations, keys);
    (Filter(keys, IsSelected(mutations)) + Filter(keys, Not(IsSelected(mutations))), |Filter(keys, IsSelected(mutations))|)
  }

  /** The two filtered halves, side by side, hold the keys once each. */
  lemma PartitionParts(mutations: seq<Mutation>, keys: seq<nat>)
    ensures var yes, no := Filter(keys, IsSelected(mutations)), Filter(keys, Not(IsSelected(mutations)));
      && |yes| <= |yes + no| == |keys| && multiset(yes + no) == multiset(keys)
      && (yes + no)[..|yes|] == Filter(keys, IsSelected(mutations))
      && (forall i :: 0 <= i < |yes| ==> OnSide(mutations, false, (yes + no)[i]))
      && (forall i :: |yes| <= i < |yes + no| ==> !OnSide(mutations, false, (yes + no)[i]))
  {
    var p := IsSelected(mutations);
    var yes, no := Filter(keys, p), Filter(keys, Not(p));
    FilterMultiset(keys, p, Not(p));
    assert |multiset(yes + no)| == |multiset(keys)|;
    assert (yes + no)[..|yes|] == yes;
    forall i | 0 <= i < |yes| ensures OnSide(mutations, false, (yes + no)[i]) {
      assert p(yes[i]);
    }
    forall i | |yes| <= i < |yes + no| ensures !OnSide(mutations, false, (yes + no)[i]) {
      assert Not(p)(no[i - |yes|]);
    }
  }

  /**
   * process_new_mutations: the key vector after the call and the end of the
   * range handed to mutate_recombine (the range always starts at the front).
   */
  function ProcessNewMutations(mutations: seq<Mutation>, keys: seq<nat>, policy: MutationPolicy): (r: (seq<nat>, nat))
    ensures r.1 <= |r.0| && multiset(r.0) == multiset(keys)
    ensures policy == AllMutations ==> r.0 == keys && r.1 == |keys|
    ensures policy == SelectedVariantsOnly ==>
      && r.0[..r.1] == Filter(keys, IsSelected(mutations))
      && forall i :: r.1 <= i < |r.0| ==> !OnSide(mutations, false, r.0[i])
  {
    match policy
    case AllMutations => (keys, |keys|)
    case SelectedVariantsOnly => StablePartition(mutations, keys)
  }

  /** The range of new keys mutate_recombine receives. */
  function NewKeysUsed(mutations: seq<Mutation>, keys: seq<nat>, policy: MutationPolicy): seq<nat>
  {
    var p := ProcessNewMutations(mutations, keys, policy);
    p.0[..p.1]
  }

  /**
   * Both policies hand every selected new key to mutate_recombine; the
   * neutral new keys go with all_mutations and none of them with
   * selected_variants_only.
   */
  lemma PolicyNewKeys(mutations: seq<Mutation>, keys: seq<nat>, policy: MutationPolicy)
    ensures Filter(NewKeysUsed(mutations, keys, policy), SideOf(mutations, false)) == Filter(keys, SideOf(mutations, false))
    ensures policy == AllMutations ==>
      Filter(NewKeysUsed(mutations, keys, policy), SideOf(mutations, true)) == Filter(keys, SideOf(mutations, true))
    ensures policy == SelectedVariantsOnly ==> Filter(NewKeysUsed(mutations, keys, policy), SideOf(mutations, true)) == []
  {
    if policy == SelectedVariantsOnly {
      var used := Filter(keys, IsSelected(mutations));
      assert NewKeysUsed(mutations, keys, policy) == used;
      FilterAll(used, SideOf(mutations, false));
      FilterNone(used, SideOf(mutations, true));
    } else {
      assert NewKeysUsed(mutations, keys, policy) == keys[..|keys|] == keys;
    }
  }

  /** Keys whose positions never decrease stay so when some are dropped. */
  lemma {:induction false} FilterPosSorted(mutations: seq<Mutation>, keys: seq<nat>, p: nat -> bool)
    requires PosSorted(mutations, keys)
    ensures PosSorted(mutations, Filter(keys, p))
  {
    if keys != [] {
      var t := keys[1..];
      assert PosSorted(mutations, t);
      FilterPosSorted(mutations, t, p);
      FilterMembers(t, p);
      var f := Filter(t, p);
      forall j | 0 <= j < |f| ensures Pos(mutations, keys[0]) <= Pos(mutations, f[j]) {
        assert f[j] in t;
        var k :| 0 <= k < |t| && t[k] == f[j];
        assert keys[k + 1] == t[k];
      }
    }
  }

  /**
   * Without breakpoints, the offspring's neutral keys are the parent's plus
   * the neutral new keys under all_mutations, and the parent's alone under
   * selected_variants_only; its selected keys always gain every selected
   * new key.
   */
  lemma NoBreakpointKeys(mutations: seq<Mutation>, a: Gamete, b: Gamete, keys: seq<nat>, policy: MutationPolicy)
    requires PosSorted(mutations, a.mutations) && PosSorted(mutations, a.smutations) && PosSorted(mutations, keys)
    ensures var k := Inherited(mutations, a, b, NewKeysUsed(mutations, keys, policy), []);
      && multiset(k.0) == multiset(a.mutations)
           + (if policy == AllMutations then multiset(Filter(keys, SideOf(mutations, true))) else multiset{})
      && multiset(k.1) == multiset(a.smutations) + multiset(Filter(keys, SideOf(mutations, false)))
  {
    var used := NewKeysUsed(mutations, keys, policy);
    UsedSorted(mutations, keys, policy);
    PolicyNewKeys(mutations, keys, policy);
    var k := Inherited(mutations, a, b, used, []);
    if used == [] {
      assert k == (a.mutations, a.smutations);
    } else {
      assert k == (NoCrossover(mutations, true, a.mutations, used), NoCrossover(mutations, false, a.smutations, used));
      NoCrossoverKeys(mutations, true, a.mutations, used);
      NoCrossoverKeys(mutations, false, a.smutations, used);
    }
  }

  /** The range handed on keeps the keys' position order. */
  lemma UsedSorted(mutations: seq<Mutation>, keys: seq<nat>, policy: MutationPolicy)
    requires PosSorted(mutations, keys)
    ensures PosSorted(mutations, NewKeysUsed(mutations, keys, policy))
  {
    if policy == AllMutations {
      assert NewKeysUsed(mutations, keys, policy) == keys[..|keys|] == keys;
    } else {
      FilterPosSorted(mutations, keys, IsSelected(mutations));
    }
  }

  /**
   * The keys of the genome mutate_recombine yields: the first parental
   * genome's own when there is nothing to do, else the offspring's keys.
   */
  function Inherited(mutations: seq<Mutation>, a: Gamete, b: Gamete, news: seq<nat>, bp: seq<real>): (seq<nat>, seq<nat>)
  {
    if news == [] && bp == [] then (a.mutations, a.smutations)
    else (Offspring(mutations, true, a.mutations, b.mutations, news, bp),
          Offspring(mutations, false, a.smutations, b.smutations, news, bp))
  }

  /**
   * A parent's genomes in the order they are used: swapped exactly when the
   * swapper returned non-zero (swapping equal genomes changes nothing).
   */
  function Parental(d: Diploid, swap: int): (r: (nat, nat))
    ensures r == (d.second, d.first) <==> swap != 0 || d.first == d.second
    ensures r == (d.first, d.second) <==> swap == 0 || d.first == d.second
  {
    if swap != 0 then (d.second, d.first) else (d.first, d.second)
  }

  /** One genome's effect on the genome vector: reused, overwritten in the front queue slot, or appended. */
  predicate Placed(gametes: seq<Gamete>, queue: seq<nat>, g1: nat, gametes2: seq<Gamete>, queue2: seq<nat>, idx: nat)
  {
    || (gametes2 == gametes && queue2 == queue && idx == g1)
    || (&& queue != [] && idx == queue[0] && queue2 == queue[1..] && idx < |gametes| == |gametes2|
        && gametes2[idx].n == gametes[idx].n
        && forall i :: 0 <= i < |gametes| && i != idx ==> gametes2[i] == gametes[i])
    || (&& queue == [] && queue2 == [] && idx == |gametes| && |gametes2| == |gametes| + 1
        && gametes2[idx].n == 0 && gametes2[..|gametes|] == gametes)
  }

  /** generate_offspring_haploid_genome: one parent's contribution. */
  method GenerateOffspringHaploidGenome(mutations: seq<Mutation>, gametes: seq<Gamete>, queue: seq<nat>,
                                        neutral: seq<nat>, selected: seq<nat>, policy: MutationPolicy,
                                        g1: nat, g2: nat, swapped: int, bp: seq<real>, news: seq<nat>)
    returns (gametes2: seq<Gamete>, queue2: seq<nat>, neutral2: seq<nat>, selected2: seq<nat>, idx: nat,
             data: MutRecIntermediates)
    requires g1 < |gametes| && g2 < |gametes| && KeysIn(mutations, news)
    requires queue != [] ==> queue[0] < |gametes|
    ensures data == MutRecIntermediates(swapped, bp, ProcessNewMutations(mutations, news, policy).0)
    ensures idx < |gametes2|
    ensures (gametes2[idx].mutations, gametes2[idx].smutations)
         == Inherited(mutations, gametes[g1], gametes[g2], NewKeysUsed(mutations, news, policy), bp)
    ensures Placed(gametes, queue, g1, gametes2, queue2, idx)
  {
    var p := ProcessNewMutations(mutations, news, policy);
    var range := p.0[..p.1];
    assert KeysIn(mutations, range) by {
      forall i | 0 <= i < |range| ensures range[i] < |mutations| {
        assert range[i] in multiset(p.0);
      }
    }
    gametes2, queue2, neutral2, selected2, idx := MutateRecombine.MutateRecombine(range, bp, g1, g2, gametes, mutations, queue, neutral, selected);
    data := MutRecIntermediates(swapped, bp, p.0);
  }

  /** The genome copy counts after the two offspring genomes gained one copy each. */
  function Bumped(gametes: seq<Gamete>, o: Diploid): (r: seq<Gamete>)
    requires o.first < |gametes| && o.second < |gametes|
    ensures |r| == |gametes|
    ensures forall i :: 0 <= i < |r| ==>
      && r[i].mutations == gametes[i].mutations && r[i].smutations == gametes[i].smutations
      && r[i].n == gametes[i].n + (if i == o.first then 1 else 0) + (if i == o.second then 1 else 0)
  {
    var g := gametes[o.first := gametes[o.first].(n := gametes[o.first].n + 1)];
    g[o.second := g[o.second].(n := g[o.second].n + 1)]
  }

  /** The copy count a genome index had before, zero for an appended genome. */
  function CountBefore(gametes: seq<Gamete>, i: nat): nat
  {
    if i < |gametes| then gametes[i].n else 0
  }

  /**
   * generate_offspring_details for a diploid population: both parents'
   * genomes, possibly swapped, go through generate_offspring_haploid_genome,
   * the offspring names the two new genomes and each gains one copy.
   * The queue holds no genome either parent carries (it is made from the
   * genomes that were extinct before the parents' counts were cleared), and
   * no index twice.
   */
  method GenerateOffspringDetails(mutations: seq<Mutation>, gametes: seq<Gamete>, diploids: seq<Diploid>, queue: seq<nat>,
                                  neutral: seq<nat>, selected: seq<nat>, policy: MutationPolicy, parents: (nat, nat),
                                  swap1: int, bp1: seq<real>, news1: seq<nat>,
                                  swap2: int, bp2: seq<real>, news2: seq<nat>)
    returns (gametes2: seq<Gamete>, queue2: seq<nat>, neutral2: seq<nat>, selected2: seq<nat>, offspring: Diploid,
             data: (MutRecIntermediates, MutRecIntermediates))
    requires parents.0 < |diploids| && parents.1 < |diploids|
    requires forall i :: 0 <= i < |diploids| ==> diploids[i].first < |gametes| && diploids[i].second < |gametes|
    requires KeysIn(mutations, news1) && KeysIn(mutations, news2)
    requires Distinct(queue) && forall k :: 0 <= k < |queue| ==> queue[k] < |gametes|
    requires forall k, i :: 0 <= k < |queue| && i in {parents.0, parents.1} ==>
      queue[k] != diploids[i].first && queue[k] != diploids[i].second
    ensures data.0 == MutRecIntermediates(swap1, bp1, ProcessNewMutations(mutations, news1, policy).0)
    ensures data.1 == MutRecIntermediates(swap2, bp2, ProcessNewMutations(mutations, news2, policy).0)
    ensures |gametes2| >= |gametes| && offspring.first < |gametes2| && offspring.second < |gametes2|
    ensures var (a, b) := Parental(diploids[parents.0], swap1);
      (gametes2[offspring.first].mutations, gametes2[offspring.first].smutations)
        == Inherited(mutations, gametes[a], gametes[b], NewKeysUsed(mutations, news1, policy), bp1)
    ensures var (a, b) := Parental(diploids[parents.1], swap2);
      (gametes2[offspring.second].mutations, gametes2[offspring.second].smutations)
        == Inherited(mutations, gametes[a], gametes[b], NewKeysUsed(mutations, news2, policy), bp2)
    ensures forall i :: 0 <= i < |gametes2| ==>
      gametes2[i].n == CountBefore(gametes, i) + (if i == offspring.first then 1 else 0) + (if i == offspring.second then 1 else 0)
    ensures forall i :: 0 <= i < |gametes| && i !in queue ==>
      gametes2[i].mutations == gametes[i].mutations && gametes2[i].smutations == gametes[i].smutations
    ensures |queue2| <= |queue| && queue2 == queue[|queue| - |queue2|..]
  {
    var d1, d2 := diploids[parents.0], diploids[parents.1];
    var p1 := Parental(d1, swap1);
    var p2 := Parental(d2, swap2);
    var gs1, q1, n1, s1, idx1, data1 := GenerateOffspringHaploidGenome(mutations, gametes, queue, neutral, selected, policy,
                                                                       p1.0, p1.1, swap1, bp1, news1);
    assert p2.0 !in queue && p2.1 !in queue;
    OnePlaced(gametes, queue, p1.0, gs1, q1, idx1, p2.0, p2.1);
    var gs2, q2, n2, s2, idx2, data2 := GenerateOffspringHaploidGenome(mutations, gs1, q1, n1, s1, policy,
                                                                       p2.0, p2.1, swap2, bp2, news2);
    offspring := Diploid(idx1, idx2);
    TwoPlaced(gametes, queue, p1.0, gs1, q1, idx1, p2.0, gs2, q2, idx2);
    gametes2 := Bumped(gs2, offspring);
    queue2, neutral2, selected2 := q2, n2, s2;
    data := (data1, data2);
  }

  /** After the first genome, the second parent's genomes are as they were and the queue is a suffix. */
  lemma OnePlaced(gametes: seq<Gamete>, queue: seq<nat>, g1: nat, gs1: seq<Gamete>, q1: seq<nat>, idx1: nat, a: nat, b: nat)
    requires Placed(gametes, queue, g1, gs1, q1, idx1)
    requires forall k :: 0 <= k < |queue| ==> queue[k] < |gametes|
    requires a < |gametes| && b < |gametes| && a !in queue && b !in queue
    ensures |gs1| >= |gametes| && gs1[a] == gametes[a] && gs1[b] == gametes[b]
    ensures q1 != [] ==> q1[0] < |gs1|
    ensures forall k :: 0 <= k < |q1| ==> q1[k] < |gs1|
  {
    if queue != [] && idx1 == queue[0] && q1 == queue[1..] {
      assert queue[0] in queue;
      forall k | 0 <= k < |q1| ensures q1[k] < |gs1| { assert q1[k] == queue[k + 1]; }
    } else if queue == [] && q1 == [] && idx1 == |gametes| {
      assert gs1[a] == gs1[..|gametes|][a];
      assert gs1[b] == gs1[..|gametes|][b];
    }
  }

  /** Both genomes placed: counts, untouched genomes and the consumed queue prefix. */
  lemma TwoPlaced(gametes: seq<Gamete>, queue: seq<nat>, g1: nat, gs1: seq<Gamete>, q1: seq<nat>, idx1: nat,
                  g2: nat, gs2: seq<Gamete>, q2: seq<nat>, idx2: nat)
    requires Distinct(queue) && forall k :: 0 <= k < |queue| ==> queue[k] < |gametes|
    requires g1 < |gametes| && g1 !in queue
    requires g2 < |gametes| && g2 !in queue
    requires Placed(gametes, queue, g1, gs1, q1, idx1)
    requires Placed(gs1, q1, g2, gs2, q2, idx2)
    requires idx1 < |gs1|
    ensures |gs2| >= |gs1| >= |gametes| && idx1 < |gs2| && gs2[idx1] == gs1[idx1]
    ensures forall i :: 0 <= i < |gs2| ==> gs2[i].n == CountBefore(gametes, i)
    ensures forall i :: 0 <= i < |gametes| && i !in queue ==> gs2[i] == gametes[i]
    ensures |q2| <= |queue| && q2 == queue[|queue| - |q2|..]
  {
    assert |gs1| >= |gametes| by {
      if queue != [] && idx1 == queue[0] { assert queue[0] in queue; }
    }
    if q1 != [] && idx2 == q1[0] && q2 == q1[1..] {
      // the second genome recycled q1[0], which is neither the first genome's slot nor a parent's
      assert q1[0] in queue && q1[0] < |gametes| by {
        if q1 != queue {
          assert q1 == queue[1..] && q1[0] == queue[1];
        }
      }
      assert idx2 != idx1 by {
        if gs1 == gametes && q1 == queue && idx1 == g1 {
        } else if queue != [] && idx1 == queue[0] && q1 == queue[1..] {
          assert queue[1] == q1[0];
        }
      }
    }
  }
}

// fwdpp/internal/data_matrix_details.hpp: the machinery behind the
// genotype and haplotype matrices of a sample of diploids.  Keys of the
// mutations present in a sample are tallied per key; each mutation key
// then becomes one row of the matrix holding one entry per individual (the
// number of derived copies, 0..2) or two per individual (one 0/1 entry per
// haploid genome); the rows are stored one after the other ("row-major"),
// and row or column sums are read back from that layout.

module DataMatrixDetails {
  import opened Types

  /** matrix_type: genotype (0/1/2 per individual) or haplotype (two 0/1 entries per individual). */
  datatype MatrixType = Genotype | Haplotype

  /** std::pair<std::size_t, uint_t>: a mutation key and its number of copies in the sample. */
  datatype KeyFreq = KeyFreq(key: nat, count: nat)

  /** state_matrix: the entries, row after row, and the position of each row's mutation. */
  datatype StateMatrix = StateMatrix(data: seq<nat>, positions: seq<real>)

  /** data_matrix: neutral and selected rows, the mutation key of each row, and the number of columns. */
  datatype DataMatrix = DataMatrix(neutral: StateMatrix, selected: StateMatrix,
                                   neutralKeys: seq<nat>, selectedKeys: seq<nat>, ncol: nat)

  /** A locus_boundaries entry: the half-open interval [lo, hi) of positions of one locus. */
  datatype Locus = Locus(lo: real, hi: real)

  /**
   * The two population shapes that fill_matrix and mutation_keys dispatch
   * on: one diploid per individual, or one diploid per locus per individual
   * together with the loci's boundaries.
   */
  datatype SampledPop =
    | SingleLocus(mutations: seq<Mutation>, mcounts: seq<nat>, gametes: seq<Gamete>, diploids: seq<Diploid>)
    | MultiLocus(mutations: seq<Mutation>, mcounts: seq<nat>, gametes: seq<Gamete>,
                 loci: seq<seq<Diploid>>, boundaries: seq<Locus>)

  // ---------------------------------------------------------------- keys

  /** The count recorded for k, zero when k has no entry. */
  function Seen(keys: map<nat, nat>, k: nat): nat
  {
    if k in keys then keys[k] else 0
  }

  /** One step of update_mutation_keys: a new key starts at 1, a known key goes up by one. */
  function Bumped(keys: map<nat, nat>, k: nat): map<nat, nat>
  {
    keys[k := Seen(keys, k) + 1]
  }

  predicate KeysBelow(a: seq<nat>, bound: nat)
  {
    forall j :: 0 <= j < |a| ==> a[j] < bound
  }

  /** update_mutation_keys: every key of a whose population count is nonzero is tallied. */
  function Tallied(keys: map<nat, nat>, a: seq<nat>, mcounts: seq<nat>): map<nat, nat>
    requires KeysBelow(a, |mcounts|)
    decreases |a|
  {
    if a == [] then keys
    else
      var t := Tallied(keys, a[..|a| - 1], mcounts);
      var k := a[|a| - 1];
      if mcounts[k] != 0 then Bumped(t, k) else t
  }

  /** Whether key k is extant in the population, as update_mutation_keys tests it. */
  predicate Extant(mcounts: seq<nat>, k: nat)
  {
    k < |mcounts| && mcounts[k] != 0
  }

  /**
   * After update_mutation_keys, an extant key has gained one per occurrence
   * in the container and an extinct one nothing; a key has an entry exactly
   * when it had one before or it is extant and occurs.
   */
  lemma {:induction false} TalliedCounts(keys: map<nat, nat>, a: seq<nat>, mcounts: seq<nat>, k: nat)
    requires KeysBelow(a, |mcounts|)
    ensures Seen(Tallied(keys, a, mcounts), k) == Seen(keys, k) + (if Extant(mcounts, k) then Count(a, k) else 0)
    ensures k in Tallied(keys, a, mcounts) <==> k in keys || (Extant(mcounts, k) && k in a)
    decreases |a|
  {
    if a != [] {
      var init := a[..|a| - 1];
      assert a == init + [a[|a| - 1]];
      assert multiset(a) == multiset(init) + multiset{a[|a| - 1]};
      TalliedCounts(keys, init, mcounts, k);
    }
  }

  /** update_mutation_keys as the loop over the container. */
  method UpdateMutationKeys(keys: map<nat, nat>, a: seq<nat>, mcounts: seq<nat>) returns (keys2: map<nat, nat>)
    requires KeysBelow(a, |mcounts|)
    ensures keys2 == Tallied(keys, a, mcounts)
  {
    keys2 := keys;
    var i := 0;
    while i < |a|
      invariant i <= |a| && keys2 == Tallied(keys, a[..i], mcounts)
    {
      assert a[..i + 1][..i] == a[..i];
      if mcounts[a[i]] != 0 {
        keys2 := Bumped(keys2, a[i]);
      }
      i := i + 1;
    }
    assert a[..i] == a;
  }

  /** A genome by index, or an empty one past the end (callers only pass indexes in range). */
  function Genome(gametes: seq<Gamete>, i: nat): Gamete
  {
    if i < |gametes| then gametes[i] else Gamete(0, [], [])
  }

  /** The neutral or the selected key container of a genome. */
  function Container(g: Gamete, neutral: bool): seq<nat>
  {
    if neutral then g.mutations else g.smutations
  }

  /** The containers mutation_keys visits for one diploid: its first genome's, then its second's. */
  function PairContainers(gametes: seq<Gamete>, d: Diploid, neutral: bool): seq<seq<nat>>
  {
    [Container(Genome(gametes, d.first), neutral), Container(Genome(gametes, d.second), neutral)]
  }

  /** The containers mutation_keys visits for a list of diploids (a multi-locus individual's loci). */
  function PairsContainers(gametes: seq<Gamete>, ds: seq<Diploid>, neutral: bool): seq<seq<nat>>
    decreases |ds|
  {
    if ds == [] then [] else PairsContainers(gametes, ds[..|ds| - 1], neutral) + PairContainers(gametes, ds[|ds| - 1], neutral)
  }

  /** The containers mutation_keys visits for one sampled individual. */
  function IndividualContainers(pop: SampledPop, ind: nat, neutral: bool): seq<seq<nat>>
  {
    match pop
    case SingleLocus(_, _, gametes, diploids) =>
      if ind < |diploids| then PairContainers(gametes, diploids[ind], neutral) else []
    case MultiLocus(_, _, gametes, loci, _) =>
      if ind < |loci| then PairsContainers(gametes, loci[ind], neutral) else []
  }

  /** All containers mutation_keys visits, individual by individual. */
  function SampleContainers(pop: SampledPop, individuals: seq<nat>, neutral: bool): seq<seq<nat>>
    decreases |individuals|
  {
    if individuals == [] then []
    else SampleContainers(pop, individuals[..|individuals| - 1], neutral) + IndividualContainers(pop, individuals[|individuals| - 1], neutral)
  }

  predicate ContainersBelow(cs: seq<seq<nat>>, bound: nat)
  {
    forall j :: 0 <= j < |cs| ==> KeysBelow(cs[j], bound)
  }

  /** update_mutation_keys applied to each container in turn. */
  function TallyAll(keys: map<nat, nat>, cs: seq<seq<nat>>, mcounts: seq<nat>): map<nat, nat>
    requires ContainersBelow(cs, |mcounts|)
    decreases |cs|
  {
    if cs == [] then keys else Tallied(TallyAll(keys, cs[..|cs| - 1], mcounts), cs[|cs| - 1], mcounts)
  }

  /** Total occurrences of k over a list of containers. */
  function Occurrences(cs: seq<seq<nat>>, k: nat): nat
    decreases |cs|
  {
    if cs == [] then 0 else Occurrences(cs[..|cs| - 1], k) + Count(cs[|cs| - 1], k)
  }

  lemma {:induction false} TallyAllCounts(keys: map<nat, nat>, cs: seq<seq<nat>>, mcounts: seq<nat>, k: nat)
    requires ContainersBelow(cs, |mcounts|)
    ensures Seen(TallyAll(keys, cs, mcounts), k) == Seen(keys, k) + (if Extant(mcounts, k) then Occurrences(cs, k) else 0)
    ensures k in TallyAll(keys, cs, mcounts) <==> k in keys || (Extant(mcounts, k) && Occurrences(cs, k) > 0)
    decreases |cs|
  {
    if cs != [] {
      var init := cs[..|cs| - 1];
      TallyAllCounts(keys, init, mcounts, k);
      TalliedCounts(TallyAll(keys, init, mcounts), cs[|cs| - 1], mcounts, k);
      assert Count(cs[|cs| - 1], k) > 0 <==> k in cs[|cs| - 1];
    }
  }

  /**
   * mutation_keys: a key of the sample is reported exactly when it is
   * extant in the population and carried by some sampled genome, with the
   * number of sampled copies as its count.
   */
  lemma SampleKeys(pop: SampledPop, individuals: seq<nat>, neutral: bool, k: nat)
    requires ContainersBelow(SampleContainers(pop, individuals, neutral), |pop.mcounts|)
    ensures var keys := TallyAll(map[], SampleContainers(pop, individuals, neutral), pop.mcounts);
      (k in keys <==> Extant(pop.mcounts, k) && Occurrences(SampleContainers(pop, individuals, neutral), k) > 0) &&
      (k in keys ==> keys[k] == Occurrences(SampleContainers(pop, individuals, neutral), k))
  {
    TallyAllCounts(map[], SampleContainers(pop, individuals, neutral), pop.mcounts, k);
  }

  lemma {:induction false} TallyAllConcat(keys: map<nat, nat>, a: seq<seq<nat>>, b: seq<seq<nat>>, mcounts: seq<nat>)
    requires ContainersBelow(a, |mcounts|) && ContainersBelow(b, |mcounts|)
    ensures ContainersBelow(a + b, |mcounts|)
    ensures TallyAll(keys, a + b, mcounts) == TallyAll(TallyAll(keys, a, mcounts), b, mcounts)
    decreases |b|
  {
    assert forall j :: 0 <= j < |a + b| ==> (a + b)[j] == if j < |a| then a[j] else b[j - |a|];
    if b == [] {
      assert a + b == a;
    } else {
      var init := b[..|b| - 1];
      assert (a + b)[..|a + b| - 1] == a + init;
      TallyAllConcat(keys, a, init, mcounts);
    }
  }

  /** Tallying one container after the others is one more step of TallyAll. */
  lemma TallyAllSnoc(keys: map<nat, nat>, cs: seq<seq<nat>>, c: seq<nat>, mcounts: seq<nat>)
    requires ContainersBelow(cs, |mcounts|) && KeysBelow(c, |mcounts|)
    ensures ContainersBelow(cs + [c], |mcounts|)
    ensures TallyAll(keys, cs + [c], mcounts) == Tallied(TallyAll(keys, cs, mcounts), c, mcounts)
  {
    assert forall j :: 0 <= j < |cs + [c]| ==> (cs + [c])[j] == if j < |cs| then cs[j] else c;
    assert (cs + [c])[..|cs|] == cs;
  }

  lemma SampleContainersNext(pop: SampledPop, individuals: seq<nat>, i: nat)
    requires i < |individuals|
    ensures forall neutral: bool :: (SampleContainers(pop, individuals[..i + 1], neutral) ==
      SampleContainers(pop, individuals[..i], neutral) + IndividualContainers(pop, individuals[i], neutral))
  {
    assert individuals[..i + 1][..i] == individuals[..i];
  }

  /** Prefixes of the visited containers stay within the counts. */
  lemma {:induction false} PrefixContainersBelow(pop: SampledPop, individuals: seq<nat>, i: nat, neutral: bool)
    requires i <= |individuals|
    requires ContainersBelow(SampleContainers(pop, individuals, neutral), |pop.mcounts|)
    ensures ContainersBelow(SampleContainers(pop, individuals[..i], neutral), |pop.mcounts|)
    ensures i == |individuals| || ContainersBelow(IndividualContainers(pop, individuals[i], neutral), |pop.mcounts|)
    decreases |individuals| - i
  {
    if i < |individuals| {
      PrefixContainersBelow(pop, individuals, i + 1, neutral);
      SampleContainersNext(pop, individuals, i);
      var a, b := SampleContainers(pop, individuals[..i], neutral), IndividualContainers(pop, individuals[i], neutral);
      assert forall j :: 0 <= j < |a| ==> (a + b)[j] == a[j];
      assert forall j :: 0 <= j < |b| ==> (a + b)[|a| + j] == b[j];
    } else {
      assert individuals[..i] == individuals;
    }
  }

  /** The tally of one individual's containers (the inner loop of mutation_keys). */
  method TallyIndividual(pop: SampledPop, ind: nat, neutral: bool, keys: map<nat, nat>) returns (keys2: map<nat, nat>)
    requires ContainersBelow(IndividualContainers(pop, ind, neutral), |pop.mcounts|)
    ensures keys2 == TallyAll(keys, IndividualContainers(pop, ind, neutral), pop.mcounts)
  {
    if pop.SingleLocus? {
      var cs := IndividualContainers(pop, ind, neutral);
      if ind < |pop.diploids| {
        keys2 := UpdateMutationKeys(keys, cs[0], pop.mcounts);
        keys2 := UpdateMutationKeys(keys2, cs[1], pop.mcounts);
        assert cs == [cs[0]] + [cs[1]];
        TallyAllSnoc(keys, [cs[0]], cs[1], pop.mcounts);
        assert [cs[0]] == [] + [cs[0]];
        TallyAllSnoc(keys, [], cs[0], pop.mcounts);
      } else {
        keys2 := keys;
      }
    } else if ind < |pop.loci| {
      keys2 := TallyLoci(pop.gametes, pop.loci[ind], neutral, pop.mcounts, keys);
    } else {
      keys2 := keys;
    }
  }

  /** The loop over a multi-locus individual's loci. */
  method TallyLoci(gametes: seq<Gamete>, ds: seq<Diploid>, neutral: bool, mcounts: seq<nat>, keys: map<nat, nat>)
    returns (keys2: map<nat, nat>)
    requires ContainersBelow(PairsContainers(gametes, ds, neutral), |mcounts|)
    ensures keys2 == TallyAll(keys, PairsContainers(gametes, ds, neutral), mcounts)
  {
    keys2 := keys;
    var l := 0;
    while l < |ds|
      invariant l <= |ds|
      invariant ContainersBelow(PairsContainers(gametes, ds[..l], neutral), |mcounts|)
      invariant keys2 == TallyAll(keys, PairsContainers(gametes, ds[..l], neutral), mcounts)
    {
      PairsPrefixBelow(gametes, ds, l + 1, neutral, |mcounts|);
      assert ds[..l + 1] == ds[..l] + [ds[l]];
      keys2 := TallyPair(gametes, ds[..l], ds[l], neutral, mcounts, keys, keys2);
      l := l + 1;
    }
    assert ds[..l] == ds;
  }

  /** Prefixes of one individual's loci stay within the counts. */
  lemma {:induction false} PairsPrefixBelow(gametes: seq<Gamete>, ds: seq<Diploid>, l: nat, neutral: bool, bound: nat)
    requires l <= |ds| && ContainersBelow(PairsContainers(gametes, ds, neutral), bound)
    ensures ContainersBelow(PairsContainers(gametes, ds[..l], neutral), bound)
    decreases |ds| - l
  {
    if l == |ds| {
      assert ds[..l] == ds;
    } else {
      PairsPrefixBelow(gametes, ds, l + 1, neutral, bound);
      assert ds[..l + 1][..l] == ds[..l];
      var a := PairsContainers(gametes, ds[..l], neutral);
      assert forall j :: 0 <= j < |a| ==> PairsContainers(gametes, ds[..l + 1], neutral)[j] == a[j];
    }
  }

  /** One locus of a multi-locus individual: its two containers are tallied. */
  method TallyPair(gametes: seq<Gamete>, done: seq<Diploid>, d: Diploid, neutral: bool, mcounts: seq<nat>,
                   ghost keys: map<nat, nat>, keys1: map<nat, nat>) returns (keys2: map<nat, nat>)
    requires ContainersBelow(PairsContainers(gametes, done + [d], neutral), |mcounts|)
    requires ContainersBelow(PairsContainers(gametes, done, neutral), |mcounts|)
    requires keys1 == TallyAll(keys, PairsContainers(gametes, done, neutral), mcounts)
    ensures keys2 == TallyAll(keys, PairsContainers(gametes, done + [d], neutral), mcounts)
  {
    var cs := PairContainers(gametes, d, neutral);
    var before := PairsContainers(gametes, done, neutral);
    assert (done + [d])[..|done|] == done;
    assert PairsContainers(gametes, done + [d], neutral) == before + cs;
    assert KeysBelow(cs[0], |mcounts|) && KeysBelow(cs[1], |mcounts|) by {
      assert (before + cs)[|before|] == cs[0] && (before + cs)[|before| + 1] == cs[1];
    }
    keys2 := UpdateMutationKeys(keys1, cs[0], mcounts);
    keys2 := UpdateMutationKeys(keys2, cs[1], mcounts);
    TallyAllSnoc(keys, before, cs[0], mcounts);
    TallyAllSnoc(keys, before + [cs[0]], cs[1], mcounts);
    assert before + [cs[0]] + [cs[1]] == before + cs;
  }

  /**
   * mutation_keys: the neutral and the selected tallies of the sample, each
   * left empty when it is not asked for.  The source returns each tally as
   * a vector in the unordered map's own order, which the map leaves open.
   */
  method MutationKeys(pop: SampledPop, individuals: seq<nat>, includeNeutral: bool, includeSelected: bool)
    returns (n: map<nat, nat>, s: map<nat, nat>)
    requires ContainersBelow(SampleContainers(pop, individuals, true), |pop.mcounts|)
    requires ContainersBelow(SampleContainers(pop, individuals, false), |pop.mcounts|)
    ensures n == if includeNeutral then TallyAll(map[], SampleContainers(pop, individuals, true), pop.mcounts) else map[]
    ensures s == if includeSelected then TallyAll(map[], SampleContainers(pop, individuals, false), pop.mcounts) else map[]
  {
    n, s := map[], map[];
    var i := 0;
    while i < |individuals|
      invariant i <= |individuals|
      invariant ContainersBelow(SampleContainers(pop, individuals[..i], true), |pop.mcounts|)
      invariant ContainersBelow(SampleContainers(pop, individuals[..i], false), |pop.mcounts|)
      invariant n == if includeNeutral then TallyAll(map[], SampleContainers(pop, individuals[..i], true), pop.mcounts) else map[]
      invariant s == if includeSelected then TallyAll(map[], SampleContainers(pop, individuals[..i], false), pop.mcounts) else map[]
    {
      n := TallyIfAsked(pop, individuals, i, true, includeNeutral, n);
      s := TallyIfAsked(pop, individuals, i, false, includeSelected, s);
      i := i + 1;
    }
    assert individuals[..i] == individuals;
  }

  /** One turn of the individual loop of mutation_keys for one tally, which is left empty when not asked for. */
  method TallyIfAsked(pop: SampledPop, individuals: seq<nat>, i: nat, neutral: bool, asked: bool, keys: map<nat, nat>)
    returns (keys2: map<nat, nat>)
    requires i < |individuals|
    requires ContainersBelow(SampleContainers(pop, individuals, neutral), |pop.mcounts|)
    requires ContainersBelow(SampleContainers(pop, individuals[..i], neutral), |pop.mcounts|)
    requires keys == if asked then TallyAll(map[], SampleContainers(pop, individuals[..i], neutral), pop.mcounts) else map[]
    ensures ContainersBelow(SampleContainers(pop, individuals[..i + 1], neutral), |pop.mcounts|)
    ensures keys2 == if asked then TallyAll(map[], SampleContainers(pop, individuals[..i + 1], neutral), pop.mcounts) else map[]
  {
    PrefixContainersBelow(pop, individuals, i + 1, neutral);
    keys2 := keys;
    if asked {
      keys2 := TallyNext(pop, individuals, i, neutral, keys);
    }
  }

  /** One turn of the individual loop of mutation_keys, for one of the two tallies. */
  method TallyNext(pop: SampledPop, individuals: seq<nat>, i: nat, neutral: bool, keys: map<nat, nat>) returns (keys2: map<nat, nat>)
    requires i < |individuals|
    requires ContainersBelow(SampleContainers(pop, individuals, neutral), |pop.mcounts|)
    requires ContainersBelow(SampleContainers(pop, individuals[..i], neutral), |pop.mcounts|)
    requires keys == TallyAll(map[], SampleContainers(pop, individuals[..i], neutral), pop.mcounts)
    ensures ContainersBelow(SampleContainers(pop, individuals[..i + 1], neutral), |pop.mcounts|)
    ensures keys2 == TallyAll(map[], SampleContainers(pop, individuals[..i + 1], neutral), pop.mcounts)
  {
    PrefixContainersBelow(pop, individuals, i, neutral);
    SampleContainersNext(pop, individuals, i);
    TallyAllConcat(map[], SampleContainers(pop, individuals[..i], neutral), IndividualContainers(pop, individuals[i], neutral), pop.mcounts);
    keys2 := TallyIndividual(pop, individuals[i], neutral, keys);
  }

  // ---------------------------------------------------------------- sites

  /** Number of columns: one per individual, or one per haploid genome. */
  function Cols(mtype: MatrixType, n: nat): nat
  {
    if mtype == Genotype then n else 2 * n
  }

  /** 1 when the container holds the key, else 0. */
  function On(c: seq<nat>, key: nat): nat
  {
    if key in c then 1 else 0
  }

  /** update_site: what one individual contributes to a row. */
  function Site(first: seq<nat>, second: seq<nat>, key: nat, mtype: MatrixType): (r: seq<nat>)
    ensures |r| == Cols(mtype, 1)
  {
    if mtype == Genotype then [On(first, key) + On(second, key)] else [On(first, key), On(second, key)]
  }

  /** The diploid pairs a row is read from, one per sampled individual. */
  predicate PairsInRange(gametes: seq<Gamete>, pairs: seq<Diploid>)
  {
    forall j :: 0 <= j < |pairs| ==> pairs[j].first < |gametes| && pairs[j].second < |gametes|
  }

  /** One row of the matrix: update_site for each sampled diploid in turn. */
  function SiteRow(gametes: seq<Gamete>, pairs: seq<Diploid>, key: nat, neutral: bool, mtype: MatrixType): (r: seq<nat>)
    ensures |r| == Cols(mtype, |pairs|)
    decreases |pairs|
  {
    if pairs == [] then []
    else
      var d := pairs[|pairs| - 1];
      SiteRow(gametes, pairs[..|pairs| - 1], key, neutral, mtype) +
      Site(Container(Genome(gametes, d.first), neutral), Container(Genome(gametes, d.second), neutral), key, mtype)
  }

  /** The number of sampled genomes carrying the key. */
  function Carriers(gametes: seq<Gamete>, pairs: seq<Diploid>, key: nat, neutral: bool): nat
    decreases |pairs|
  {
    if pairs == [] then 0
    else
      var d := pairs[|pairs| - 1];
      Carriers(gametes, pairs[..|pairs| - 1], key, neutral)
      + On(Container(Genome(gametes, d.first), neutral), key) + On(Container(Genome(gametes, d.second), neutral), key)
  }

  /**
   * The entries of a row: for a genotype matrix, column j holds the copies
   * (0, 1 or 2) individual j carries; for a haplotype matrix, columns 2j and
   * 2j+1 hold whether j's first and second genome carry the key.
   */
  lemma SiteRowEntries(gametes: seq<Gamete>, pairs: seq<Diploid>, key: nat, neutral: bool, mtype: MatrixType, j: nat)
    requires j < |pairs|
    ensures var r := SiteRow(gametes, pairs, key, neutral, mtype);
      var on1 := On(Container(Genome(gametes, pairs[j].first), neutral), key);
      var on2 := On(Container(Genome(gametes, pairs[j].second), neutral), key);
      (mtype == Genotype ==> r[j] == on1 + on2 && r[j] <= 2) &&
      (mtype == Haplotype ==> r[2 * j] == on1 && r[2 * j + 1] == on2 && on1 <= 1 && on2 <= 1)
  {
    if mtype == Genotype {
      GenotypeEntry(gametes, pairs, key, neutral, j);
    } else {
      HaplotypeEntries(gametes, pairs, key, neutral, j);
    }
  }

  lemma {:induction false} GenotypeEntry(gametes: seq<Gamete>, pairs: seq<Diploid>, key: nat, neutral: bool, j: nat)
    requires j < |pairs|
    ensures SiteRow(gametes, pairs, key, neutral, Genotype)[j] ==
      On(Container(Genome(gametes, pairs[j].first), neutral), key) + On(Container(Genome(gametes, pairs[j].second), neutral), key)
    decreases |pairs|
  {
    var init := pairs[..|pairs| - 1];
    var d := pairs[|pairs| - 1];
    var a := SiteRow(gametes, init, key, neutral, Genotype);
    var site := Site(Container(Genome(gametes, d.first), neutral), Container(Genome(gametes, d.second), neutral), key, Genotype);
    assert SiteRow(gametes, pairs, key, neutral, Genotype) == a + site;
    if j < |init| {
      GenotypeEntry(gametes, init, key, neutral, j);
      assert init[j] == pairs[j];
    }
  }

  lemma {:induction false} HaplotypeEntries(gametes: seq<Gamete>, pairs: seq<Diploid>, key: nat, neutral: bool, j: nat)
    requires j < |pairs|
    ensures SiteRow(gametes, pairs, key, neutral, Haplotype)[2 * j] == On(Container(Genome(gametes, pairs[j].first), neutral), key)
    ensures SiteRow(gametes, pairs, key, neutral, Haplotype)[2 * j + 1] == On(Container(Genome(gametes, pairs[j].second), neutral), key)
    decreases |pairs|
  {
    var init := pairs[..|pairs| - 1];
    var d := pairs[|pairs| - 1];
    var a := SiteRow(gametes, init, key, neutral, Haplotype);
    var site := Site(Container(Genome(gametes, d.first), neutral), Container(Genome(gametes, d.second), neutral), key, Haplotype);
    assert SiteRow(gametes, pairs, key, neutral, Haplotype) == a + site;
    if j < |init| {
      HaplotypeEntries(gametes, init, key, neutral, j);
      assert init[j] == pairs[j];
    }
  }

  /** Both matrix types' rows sum to the number of sampled genomes carrying the key. */
  lemma {:induction false} SiteRowSum(gametes: seq<Gamete>, pairs: seq<Diploid>, key: nat, neutral: bool, mtype: MatrixType)
    ensures Sum(SiteRow(gametes, pairs, key, neutral, mtype)) == Carriers(gametes, pairs, key, neutral)
    decreases |pairs|
  {
    if pairs != [] {
      var d := pairs[|pairs| - 1];
      SiteRowSum(gametes, pairs[..|pairs| - 1], key, neutral, mtype);
      var site := Site(Container(Genome(gametes, d.first), neutral), Container(Genome(gametes, d.second), neutral), key, mtype);
      SumConcat(SiteRow(gametes, pairs[..|pairs| - 1], key, neutral, mtype), site);
      assert Sum(site) == site[0] + Sum(site[1..]);
      if mtype == Haplotype {
        assert Sum(site[1..]) == site[1] + Sum(site[2..]);
      }
    }
  }

  /** update_site: one individual's entries, from whether each of its two containers holds the key. */
  method UpdateSite(first: seq<nat>, second: seq<nat>, key: nat, mtype: MatrixType) returns (entries: seq<nat>)
    ensures entries == Site(first, second, key, mtype)
    ensures mtype == Genotype ==> |entries| == 1 && entries[0] <= 2 && (entries[0] == 0 <==> key !in first && key !in second)
    ensures mtype == Haplotype ==> |entries| == 2 && (entries[0] == 1 <==> key in first) && (entries[1] == 1 <==> key in second)
  {
    var onFirst := if key in first then 1 else 0;
    var onSecond := if key in second then 1 else 0;
    entries := if mtype == Genotype then [onFirst + onSecond] else [onFirst, onSecond];
  }

  /** update_site repeated over the sampled diploids, appending to the matrix data. */
  method AppendRow(data: seq<nat>, gametes: seq<Gamete>, pairs: seq<Diploid>, key: nat, neutral: bool, mtype: MatrixType)
    returns (data2: seq<nat>)
    requires PairsInRange(gametes, pairs)
    ensures data2 == data + SiteRow(gametes, pairs, key, neutral, mtype)
  {
    data2 := data;
    var i := 0;
    while i < |pairs|
      invariant i <= |pairs|
      invariant data2 == data + SiteRow(gametes, pairs[..i], key, neutral, mtype)
    {
      var d := pairs[i];
      var entries := UpdateSite(Container(gametes[d.first], neutral), Container(gametes[d.second], neutral), key, mtype);
      SiteRowNext(gametes, pairs, key, neutral, mtype, i);
      Associate(data, SiteRow(gametes, pairs[..i], key, neutral, mtype), entries);
      data2 := data2 + entries;
      i := i + 1;
    }
    assert pairs[..i] == pairs;
  }

  lemma SiteRowNext(gametes: seq<Gamete>, pairs: seq<Diploid>, key: nat, neutral: bool, mtype: MatrixType, i: nat)
    requires i < |pairs| && PairsInRange(gametes, pairs)
    ensures SiteRow(gametes, pairs[..i + 1], key, neutral, mtype) ==
      SiteRow(gametes, pairs[..i], key, neutral, mtype) +
      Site(Container(gametes[pairs[i].first], neutral), Container(gametes[pairs[i].second], neutral), key, mtype)
  {
    assert pairs[..i + 1][..i] == pairs[..i];
  }

  // ---------------------------------------------------------------- rows

  /** The diploids of the sampled individuals of a single-locus population. */
  function Sampled(diploids: seq<Diploid>, individuals: seq<nat>): (r: seq<Diploid>)
    ensures |r| == |individuals|
  {
    seq(|individuals|, j requires 0 <= j < |individuals| =>
      if individuals[j] < |diploids| then diploids[individuals[j]] else Diploid(0, 0))
  }

  /** The keys of the rows, in row order. */
  function KeysOf(keys: seq<KeyFreq>): (r: seq<nat>)
    ensures |r| == |keys| && forall j :: 0 <= j < |keys| ==> r[j] == keys[j].key
  {
    seq(|keys|, j requires 0 <= j < |keys| => keys[j].key)
  }

  /** update_pos: the position of each row's mutation, in row order. */
  function PositionsOf(mutations: seq<Mutation>, keys: seq<KeyFreq>): (r: seq<real>)
    requires forall j :: 0 <= j < |keys| ==> keys[j].key < |mutations|
    ensures |r| == |keys| && forall j :: 0 <= j < |keys| ==> r[j] == mutations[keys[j].key].pos
  {
    seq(|keys|, j requires 0 <= j < |keys| => mutations[keys[j].key].pos)
  }

  /** The rows of a single-locus matrix, one per key, one after another. */
  function Rows(gametes: seq<Gamete>, pairs: seq<Diploid>, keys: seq<KeyFreq>, neutral: bool, mtype: MatrixType): seq<nat>
    decreases |keys|
  {
    if keys == [] then []
    else Rows(gametes, pairs, keys[..|keys| - 1], neutral, mtype) + SiteRow(gametes, pairs, keys[|keys| - 1].key, neutral, mtype)
  }

  /** Row r of a row-major matrix with w columns. */
  function RowOf(data: seq<nat>, w: nat, r: nat): seq<nat>
    requires (r + 1) * w <= |data|
  {
    data[r * w..(r + 1) * w]
  }

  /** Column c of a row-major matrix with nrow rows and ncol columns. */
  function ColOf(data: seq<nat>, nrow: nat, ncol: nat, c: nat): (r: seq<nat>)
    requires |data| == nrow * ncol && c < ncol
    ensures |r| == nrow
  {
    seq(nrow, i requires 0 <= i < nrow => CellInRange(i, c, nrow, ncol); data[i * ncol + c])
  }

  /** Entry (r, c) of an nrow by ncol matrix stored row after row lies inside the data. */
  lemma CellInRange(r: nat, c: nat, nrow: nat, ncol: nat)
    requires r < nrow && c < ncol
    ensures r * ncol + c < nrow * ncol && (r + 1) * ncol <= nrow * ncol
  {
    MulSucc(r, ncol);
    RowBounds(r, nrow, ncol);
  }

  /**
   * The layout a fill_matrix loop produces: |keys| rows of w entries each,
   * row r being the row of keys[r].
   */
  lemma {:induction false} RowsLayout(gametes: seq<Gamete>, pairs: seq<Diploid>, keys: seq<KeyFreq>, neutral: bool, mtype: MatrixType, r: nat)
    requires r < |keys|
    ensures |Rows(gametes, pairs, keys, neutral, mtype)| == |keys| * Cols(mtype, |pairs|)
    ensures (r + 1) * Cols(mtype, |pairs|) <= |keys| * Cols(mtype, |pairs|)
    ensures RowOf(Rows(gametes, pairs, keys, neutral, mtype), Cols(mtype, |pairs|), r) ==
      SiteRow(gametes, pairs, keys[r].key, neutral, mtype)
    decreases |keys|
  {
    var w := Cols(mtype, |pairs|);
    var init := keys[..|keys| - 1];
    var a := Rows(gametes, pairs, init, neutral, mtype);
    var b := SiteRow(gametes, pairs, keys[|keys| - 1].key, neutral, mtype);
    assert Rows(gametes, pairs, keys, neutral, mtype) == a + b;
    RowsLength(gametes, pairs, keys, neutral, mtype);
    RowsLength(gametes, pairs, init, neutral, mtype);
    RowBounds(r, |keys|, w);
    if r < |init| {
      RowsLayout(gametes, pairs, init, neutral, mtype, r);
      MulNonneg(r, w);
      SliceLeft(a, b, r * w, (r + 1) * w);
      assert init[r] == keys[r];
    } else {
      MulSucc(r, w);
      SliceRight(a, b);
    }
  }

  lemma MulSucc(r: nat, w: nat)
    ensures (r + 1) * w == r * w + w
  {
  }

  lemma MulNonneg(a: nat, b: nat)
    ensures 0 <= a * b
  {
  }

  lemma Associate<T>(a: seq<T>, b: seq<T>, c: seq<T>)
    ensures (a + b) + c == a + (b + c)
  {
  }

  lemma SliceLeft<T>(a: seq<T>, b: seq<T>, lo: nat, hi: nat)
    requires lo <= hi <= |a|
    ensures (a + b)[lo..hi] == a[lo..hi]
  {
  }

  lemma SliceRight<T>(a: seq<T>, b: seq<T>)
    ensures (a + b)[|a|..|a| + |b|] == b
  {
  }

  lemma {:induction false} RowsLength(gametes: seq<Gamete>, pairs: seq<Diploid>, keys: seq<KeyFreq>, neutral: bool, mtype: MatrixType)
    ensures |Rows(gametes, pairs, keys, neutral, mtype)| == |keys| * Cols(mtype, |pairs|)
    decreases |keys|
  {
    if keys != [] {
      RowsLength(gametes, pairs, keys[..|keys| - 1], neutral, mtype);
      MulSucc(|keys| - 1, Cols(mtype, |pairs|));
    }
  }

  /** Every row of a filled matrix sums to the number of sampled genomes carrying its key. */
  lemma FilledRowSum(gametes: seq<Gamete>, pairs: seq<Diploid>, keys: seq<KeyFreq>, neutral: bool, mtype: MatrixType, r: nat)
    requires r < |keys|
    ensures |Rows(gametes, pairs, keys, neutral, mtype)| == |keys| * Cols(mtype, |pairs|)
    ensures (r + 1) * Cols(mtype, |pairs|) <= |keys| * Cols(mtype, |pairs|)
    ensures Sum(RowOf(Rows(gametes, pairs, keys, neutral, mtype), Cols(mtype, |pairs|), r)) ==
      Carriers(gametes, pairs, keys[r].key, neutral)
  {
    RowsLayout(gametes, pairs, keys, neutral, mtype, r);
    SiteRowSum(gametes, pairs, keys[r].key, neutral, mtype);
  }

  /**
   * Column c of a genotype matrix: for each row (key), the copies of that
   * key individual c carries.
   */
  lemma FilledGenotypeColumn(gametes: seq<Gamete>, pairs: seq<Diploid>, keys: seq<KeyFreq>, neutral: bool, c: nat, r: nat)
    requires c < |pairs| && r < |keys|
    ensures |Rows(gametes, pairs, keys, neutral, Genotype)| == |keys| * |pairs|
    ensures ColOf(Rows(gametes, pairs, keys, neutral, Genotype), |keys|, |pairs|, c)[r] ==
      On(Container(Genome(gametes, pairs[c].first), neutral), keys[r].key) +
      On(Container(Genome(gametes, pairs[c].second), neutral), keys[r].key)
  {
    var data := Rows(gametes, pairs, keys, neutral, Genotype);
    RowsLayout(gametes, pairs, keys, neutral, Genotype, r);
    assert Cols(Genotype, |pairs|) == |pairs|;
    ColEntry(data, |keys|, |pairs|, r, c);
    SiteRowEntries(gametes, pairs, keys[r].key, neutral, Genotype, c);
  }

  /** Entry r of column c is entry c of row r. */
  lemma ColEntry(data: seq<nat>, nrow: nat, ncol: nat, r: nat, c: nat)
    requires |data| == nrow * ncol && r < nrow && c < ncol
    ensures (r + 1) * ncol <= |data|
    ensures ColOf(data, nrow, ncol, c)[r] == RowOf(data, ncol, r)[c]
  {
    CellInRange(r, c, nrow, ncol);
    MulSucc(r, ncol);
  }

  /**
   * A single-locus matrix half: for each key, one row over all sampled
   * individuals (the loops of the single-locus fill_matrix).
   */
  method FillRows(gametes: seq<Gamete>, pairs: seq<Diploid>, keys: seq<KeyFreq>, neutral: bool, mtype: MatrixType)
    returns (data: seq<nat>)
    requires PairsInRange(gametes, pairs)
    ensures data == Rows(gametes, pairs, keys, neutral, mtype)
  {
    data := [];
    var k := 0;
    while k < |keys|
      invariant k <= |keys| && data == Rows(gametes, pairs, keys[..k], neutral, mtype)
    {
      assert keys[..k + 1][..k] == keys[..k];
      data := AppendRow(data, gametes, pairs, keys[k].key, neutral, mtype);
      k := k + 1;
    }
    assert keys[..k] == keys;
  }

  // ---------------------------------------------------------------- multi-locus

  /** Whether a position lies in a locus. */
  predicate InLocus(b: Locus, pos: real)
  {
    b.lo <= pos < b.hi
  }

  /** find_locus: the first locus holding the position, or runtime_error when none does. */
  function LocusOf(boundaries: seq<Locus>, pos: real): (r: Result<nat>)
    ensures r.Ok? ==> (r.value < |boundaries| && InLocus(boundaries[r.value], pos) &&
      forall j :: 0 <= j < r.value ==> !InLocus(boundaries[j], pos))
    ensures r.Err? ==> r.error == RuntimeError && forall j :: 0 <= j < |boundaries| ==> !InLocus(boundaries[j], pos)
    decreases |boundaries|
  {
    if boundaries == [] then Err(RuntimeError)
    else if InLocus(boundaries[0], pos) then Ok(0)
    else match LocusOf(boundaries[1..], pos)
      case Ok(i) => Ok(i + 1)
      case Err(e) => Err(e)
  }

  /** find_locus as the source's scan, which stops at the first match. */
  method FindLocus(boundaries: seq<Locus>, pos: real) returns (r: Result<nat>)
    ensures r == LocusOf(boundaries, pos)
  {
    var i := 0;
    var found := -1;
    while i < |boundaries| && found == -1
      invariant i <= |boundaries|
      invariant found == -1 ==> forall j :: 0 <= j < i ==> !InLocus(boundaries[j], pos)
      invariant found != -1 ==> (0 <= found < i && InLocus(boundaries[found], pos) &&
        forall j :: 0 <= j < found ==> !InLocus(boundaries[j], pos))
    {
      if boundaries[i].lo <= pos && pos < boundaries[i].hi {
        found := i;
      }
      i := i + 1;
    }
    if found == -1 {
      r := Err(RuntimeError);
    } else {
      LocusOfFirst(boundaries, pos, found);
      r := Ok(found);
    }
  }

  /** The first locus holding the position is the one LocusOf gives. */
  lemma {:induction false} LocusOfFirst(boundaries: seq<Locus>, pos: real, i: nat)
    requires i < |boundaries| && InLocus(boundaries[i], pos)
    requires forall j :: 0 <= j < i ==> !InLocus(boundaries[j], pos)
    ensures LocusOf(boundaries, pos) == Ok(i)
    decreases i
  {
    if i > 0 {
      LocusOfFirst(boundaries[1..], pos, i - 1);
    }
  }

  /** The diploids at one locus of the sampled individuals of a multi-locus population. */
  function LocusPairs(loci: seq<seq<Diploid>>, individuals: seq<nat>, l: nat): (r: seq<Diploid>)
    ensures |r| == |individuals|
  {
    seq(|individuals|, j requires 0 <= j < |individuals| =>
      if individuals[j] < |loci| && l < |loci[individuals[j]]| then loci[individuals[j]][l] else Diploid(0, 0))
  }

  /** Each sampled individual has a diploid for every locus, and these name existing genomes. */
  predicate MultiSampleInRange(gametes: seq<Gamete>, loci: seq<seq<Diploid>>, boundaries: seq<Locus>, individuals: seq<nat>)
  {
    forall j :: 0 <= j < |individuals| ==> (individuals[j] < |loci| && |boundaries| <= |loci[individuals[j]]| &&
      forall l :: 0 <= l < |boundaries| ==> loci[individuals[j]][l].first < |gametes| && loci[individuals[j]][l].second < |gametes|)
  }

  /**
   * The rows of one half of a multi-locus matrix: each key's row is read at
   * the locus holding its mutation; a key in no locus, or whose row is all
   * zeros (no variation in the sample), throws runtime_error.
   */
  function MultiRows(pop: SampledPop, individuals: seq<nat>, keys: seq<KeyFreq>, neutral: bool, mtype: MatrixType): Result<seq<nat>>
    requires pop.MultiLocus?
    requires forall j :: 0 <= j < |keys| ==> keys[j].key < |pop.mutations|
    decreases |keys|
  {
    if keys == [] then Ok([])
    else
      match MultiRows(pop, individuals, keys[..|keys| - 1], neutral, mtype)
      case Err(e) => Err(e)
      case Ok(data) => NextRow(pop, individuals, keys[|keys| - 1].key, neutral, mtype, data)
  }

  /**
   * One more row of a multi-locus matrix: the key's locus (an error when
   * no locus holds its position), then the row over that locus' pairs,
   * which is a runtime_error when no sampled genome carries the key.
   */
  function NextRow(pop: SampledPop, individuals: seq<nat>, key: nat, neutral: bool, mtype: MatrixType, data: seq<nat>): Result<seq<nat>>
    requires pop.MultiLocus? && key < |pop.mutations|
  {
    match LocusOf(pop.boundaries, pop.mutations[key].pos)
    case Err(e) => Err(e)
    case Ok(l) =>
      var row := SiteRow(pop.gametes, LocusPairs(pop.loci, individuals, l), key, neutral, mtype);
      if Sum(row) == 0 then Err(RuntimeError) else Ok(data + row)
  }

  /** A key's mutation lies in some locus and some sampled genome at that locus carries it. */
  predicate VariableInSample(pop: SampledPop, individuals: seq<nat>, k: nat, neutral: bool)
    requires pop.MultiLocus? && k < |pop.mutations|
  {
    var l := LocusOf(pop.boundaries, pop.mutations[k].pos);
    l.Ok? && Carriers(pop.gametes, LocusPairs(pop.loci, individuals, l.value), k, neutral) > 0
  }

  /** Every key lies in a locus and varies in the sample. */
  predicate AllVariable(pop: SampledPop, individuals: seq<nat>, keys: seq<KeyFreq>, neutral: bool)
    requires pop.MultiLocus? && KeysInRange(pop.mutations, keys)
  {
    forall j :: 0 <= j < |keys| ==> VariableInSample(pop, individuals, keys[j].key, neutral)
  }

  lemma AllVariableSnoc(pop: SampledPop, individuals: seq<nat>, keys: seq<KeyFreq>, neutral: bool)
    requires pop.MultiLocus? && KeysInRange(pop.mutations, keys) && keys != []
    ensures KeysInRange(pop.mutations, keys[..|keys| - 1])
    ensures AllVariable(pop, individuals, keys, neutral) <==>
      AllVariable(pop, individuals, keys[..|keys| - 1], neutral) && VariableInSample(pop, individuals, keys[|keys| - 1].key, neutral)
  {
    var init := keys[..|keys| - 1];
    assert forall j :: 0 <= j < |init| ==> init[j] == keys[j];
  }

  /**
   * A multi-locus matrix half is built exactly when every key lies in a
   * locus and varies in the sample; otherwise runtime_error is thrown.
   */
  lemma {:induction false} MultiRowsSucceed(pop: SampledPop, individuals: seq<nat>, keys: seq<KeyFreq>, neutral: bool, mtype: MatrixType)
    requires pop.MultiLocus?
    requires forall j :: 0 <= j < |keys| ==> keys[j].key < |pop.mutations|
    ensures MultiRows(pop, individuals, keys, neutral, mtype).Ok? <==> AllVariable(pop, individuals, keys, neutral)
    ensures MultiRows(pop, individuals, keys, neutral, mtype).Err? ==> MultiRows(pop, individuals, keys, neutral, mtype).error == RuntimeError
    decreases |keys|
  {
    if keys != [] {
      var init := keys[..|keys| - 1];
      var k := keys[|keys| - 1].key;
      MultiRowsSucceed(pop, individuals, init, neutral, mtype);
      AllVariableSnoc(pop, individuals, keys, neutral);
      var l := LocusOf(pop.boundaries, pop.mutations[k].pos);
      if l.Ok? {
        SiteRowSum(pop.gametes, LocusPairs(pop.loci, individuals, l.value), k, neutral, mtype);
      }
    }
  }

  /** Once a key throws, so does the whole key loop, with the same error. */
  lemma {:induction false} MultiRowsErrPersists(pop: SampledPop, individuals: seq<nat>, keys: seq<KeyFreq>, neutral: bool, mtype: MatrixType, k: nat)
    requires pop.MultiLocus? && KeysInRange(pop.mutations, keys) && k <= |keys|
    requires MultiRows(pop, individuals, keys[..k], neutral, mtype).Err?
    ensures MultiRows(pop, individuals, keys, neutral, mtype) == MultiRows(pop, individuals, keys[..k], neutral, mtype)
    decreases |keys| - k
  {
    if k < |keys| {
      assert keys[..k + 1][..k] == keys[..k];
      MultiRowsErrPersists(pop, individuals, keys, neutral, mtype, k + 1);
    } else {
      assert keys[..k] == keys;
    }
  }

  /** One multi-locus row: locate the locus, append the row, reject an invariant site. */
  method MultiRow(pop: SampledPop, individuals: seq<nat>, key: nat, neutral: bool, mtype: MatrixType, data: seq<nat>)
    returns (r: Result<seq<nat>>)
    requires pop.MultiLocus? && key < |pop.mutations|
    requires MultiSampleInRange(pop.gametes, pop.loci, pop.boundaries, individuals)
    ensures r == NextRow(pop, individuals, key, neutral, mtype, data)
  {
    var locus := FindLocus(pop.boundaries, pop.mutations[key].pos);
    if locus.Err? {
      return Err(locus.error);
    }
    var pairs := LocusPairs(pop.loci, individuals, locus.value);
    var data2 := AppendRow(data, pop.gametes, pairs, key, neutral, mtype);
    assert data2[|data|..] == SiteRow(pop.gametes, pairs, key, neutral, mtype);
    if Sum(data2[|data|..]) == 0 {
      return Err(RuntimeError);
    }
    r := Ok(data2);
  }

  /** One more key: the rows so far, extended as MultiRow extends them. */
  lemma MultiRowsNext(pop: SampledPop, individuals: seq<nat>, keys: seq<KeyFreq>, neutral: bool, mtype: MatrixType,
                      k: nat, data: seq<nat>)
    requires pop.MultiLocus? && KeysInRange(pop.mutations, keys) && k < |keys|
    requires MultiRows(pop, individuals, keys[..k], neutral, mtype) == Ok(data)
    ensures MultiRows(pop, individuals, keys[..k + 1], neutral, mtype) == NextRow(pop, individuals, keys[k].key, neutral, mtype, data)
  {
    assert keys[..k + 1][..k] == keys[..k];
  }

  /** The key loop of the multi-locus fill_matrix for one half of the matrix. */
  method FillMultiRows(pop: SampledPop, individuals: seq<nat>, keys: seq<KeyFreq>, neutral: bool, mtype: MatrixType)
    returns (r: Result<seq<nat>>)
    requires pop.MultiLocus?
    requires forall j :: 0 <= j < |keys| ==> keys[j].key < |pop.mutations|
    requires MultiSampleInRange(pop.gametes, pop.loci, pop.boundaries, individuals)
    ensures r == MultiRows(pop, individuals, keys, neutral, mtype)
  {
    var data: seq<nat> := [];
    var k := 0;
    while k < |keys|
      invariant k <= |keys| && MultiRows(pop, individuals, keys[..k], neutral, mtype) == Ok(data)
    {
      MultiRowsNext(pop, individuals, keys, neutral, mtype, k, data);
      var step := MultiRow(pop, individuals, keys[k].key, neutral, mtype, data);
      if step.Err? {
        MultiRowsErrPersists(pop, individuals, keys, neutral, mtype, k + 1);
        return Err(step.error);
      }
      data := step.value;
      k := k + 1;
    }
    assert keys[..k] == keys;
    r := Ok(data);
  }

  // ---------------------------------------------------------------- fill_matrix

  predicate KeysInRange(mutations: seq<Mutation>, keys: seq<KeyFreq>)
  {
    forall j :: 0 <= j < |keys| ==> keys[j].key < |mutations|
  }

  /** What fill_matrix demands: sampled individuals, their genomes and the keys all exist. */
  predicate FillRequires(pop: SampledPop, individuals: seq<nat>, neutralKeys: seq<KeyFreq>, selectedKeys: seq<KeyFreq>)
  {
    KeysInRange(pop.mutations, neutralKeys) && KeysInRange(pop.mutations, selectedKeys) &&
    match pop
    case SingleLocus(_, _, gametes, diploids) =>
      forall j :: 0 <= j < |individuals| ==> (individuals[j] < |diploids| &&
        diploids[individuals[j]].first < |gametes| && diploids[individuals[j]].second < |gametes|)
    case MultiLocus(_, _, gametes, loci, boundaries) => MultiSampleInRange(gametes, loci, boundaries, individuals)
  }

  /** The matrix fill_matrix returns, or the error a multi-locus population throws. */
  function Filled(pop: SampledPop, individuals: seq<nat>, neutralKeys: seq<KeyFreq>, selectedKeys: seq<KeyFreq>, mtype: MatrixType): Result<DataMatrix>
    requires FillRequires(pop, individuals, neutralKeys, selectedKeys)
  {
    var ncol := Cols(mtype, |individuals|);
    var npos, spos := PositionsOf(pop.mutations, neutralKeys), PositionsOf(pop.mutations, selectedKeys);
    match pop
    case SingleLocus(_, _, gametes, diploids) =>
      var pairs := Sampled(diploids, individuals);
      Ok(DataMatrix(StateMatrix(Rows(gametes, pairs, neutralKeys, true, mtype), npos),
                    StateMatrix(Rows(gametes, pairs, selectedKeys, false, mtype), spos),
                    KeysOf(neutralKeys), KeysOf(selectedKeys), ncol))
    case MultiLocus(_, _, _, _, _) =>
      match MultiRows(pop, individuals, neutralKeys, true, mtype)
      case Err(e) => Err(e)
      case Ok(ndata) =>
        match MultiRows(pop, individuals, selectedKeys, false, mtype)
        case Err(e) => Err(e)
        case Ok(sdata) =>
          Ok(DataMatrix(StateMatrix(ndata, npos), StateMatrix(sdata, spos), KeysOf(neutralKeys), KeysOf(selectedKeys), ncol))
  }

  /**
   * fill_matrix: an empty matrix with one column per individual (genotype)
   * or per genome (haplotype) is filled with the neutral rows, then the
   * selected rows, the row keys and the row positions.
   */
  method FillMatrix(pop: SampledPop, individuals: seq<nat>, neutralKeys: seq<KeyFreq>, selectedKeys: seq<KeyFreq>, mtype: MatrixType)
    returns (r: Result<DataMatrix>)
    requires FillRequires(pop, individuals, neutralKeys, selectedKeys)
    ensures r == Filled(pop, individuals, neutralKeys, selectedKeys, mtype)
  {
    var ncol := if mtype == Genotype then |individuals| else 2 * |individuals|;
    var ndata, sdata;
    if pop.SingleLocus? {
      var pairs := Sampled(pop.diploids, individuals);
      ndata := FillRows(pop.gametes, pairs, neutralKeys, true, mtype);
      sdata := FillRows(pop.gametes, pairs, selectedKeys, false, mtype);
    } else {
      var n := FillMultiRows(pop, individuals, neutralKeys, true, mtype);
      if n.Err? {
        return Err(n.error);
      }
      var s := FillMultiRows(pop, individuals, selectedKeys, false, mtype);
      if s.Err? {
        return Err(s.error);
      }
      ndata, sdata := n.value, s.value;
    }
    var npos := UpdatePositions(pop.mutations, neutralKeys);
    var spos := UpdatePositions(pop.mutations, selectedKeys);
    r := Ok(DataMatrix(StateMatrix(ndata, npos), StateMatrix(sdata, spos), KeysOf(neutralKeys), KeysOf(selectedKeys), ncol));
  }

  /** update_pos: the loop pushing each key's mutation position. */
  method UpdatePositions(mutations: seq<Mutation>, keys: seq<KeyFreq>) returns (positions: seq<real>)
    requires KeysInRange(mutations, keys)
    ensures positions == PositionsOf(mutations, keys)
  {
    positions := [];
    var k := 0;
    while k < |keys|
      invariant k <= |keys| && positions == PositionsOf(mutations, keys[..k])
    {
      positions := positions + [mutations[keys[k].key].pos];
      k := k + 1;
    }
    assert keys[..k] == keys;
  }

  /** A matrix half whose data holds one row of ncol entries per position. */
  predicate Rectangular(m: StateMatrix, ncol: nat)
  {
    |m.data| == |m.positions| * ncol
  }

  /** fill_matrix always returns rectangular halves with one row per key. */
  lemma FilledRectangular(pop: SampledPop, individuals: seq<nat>, neutralKeys: seq<KeyFreq>, selectedKeys: seq<KeyFreq>, mtype: MatrixType)
    requires FillRequires(pop, individuals, neutralKeys, selectedKeys)
    requires Filled(pop, individuals, neutralKeys, selectedKeys, mtype).Ok?
    ensures var m := Filled(pop, individuals, neutralKeys, selectedKeys, mtype).value;
      Rectangular(m.neutral, m.ncol) && Rectangular(m.selected, m.ncol) &&
      m.ncol == Cols(mtype, |individuals|) && m.neutralKeys == KeysOf(neutralKeys) && m.selectedKeys == KeysOf(selectedKeys)
  {
    if pop.SingleLocus? {
      var pairs := Sampled(pop.diploids, individuals);
      RowsLength(pop.gametes, pairs, neutralKeys, true, mtype);
      RowsLength(pop.gametes, pairs, selectedKeys, false, mtype);
    } else {
      MultiRowsLength(pop, individuals, neutralKeys, true, mtype);
      MultiRowsLength(pop, individuals, selectedKeys, false, mtype);
    }
  }

  lemma {:induction false} MultiRowsLength(pop: SampledPop, individuals: seq<nat>, keys: seq<KeyFreq>, neutral: bool, mtype: MatrixType)
    requires pop.MultiLocus? && KeysInRange(pop.mutations, keys)
    ensures MultiRows(pop, individuals, keys, neutral, mtype).Ok? ==>
      |MultiRows(pop, individuals, keys, neutral, mtype).value| == |keys| * Cols(mtype, |individuals|)
    decreases |keys|
  {
    if keys != [] {
      MultiRowsLength(pop, individuals, keys[..|keys| - 1], neutral, mtype);
      MulSucc(|keys| - 1, Cols(mtype, |individuals|));
    }
  }

  // ---------------------------------------------------------------- sums

  /** The sums row_col_sums_details returns: none for empty data, else each row's or each column's sum in 32 bits. */
  function LineSums(data: seq<nat>, nrow: nat, ncol: nat, isRowSums: bool): (r: seq<nat>)
    requires |data| == nrow * ncol
    ensures data == [] ==> r == []
    ensures data != [] ==> |r| == if isRowSums then nrow else ncol
  {
    if data == [] then []
    else if isRowSums then
      seq(nrow, i requires 0 <= i < nrow => CellInRange(i, 0, nrow, ncol + 1); RowBounds(i, nrow, ncol); Sum(RowOf(data, ncol, i)) % UINT_MODULUS)
    else
      seq(ncol, c requires 0 <= c < ncol => Sum(ColOf(data, nrow, ncol, c)) % UINT_MODULUS)
  }

  lemma RowBounds(r: nat, nrow: nat, ncol: nat)
    requires r < nrow
    ensures (r + 1) * ncol <= nrow * ncol
  {
    MulMono(r + 1, nrow, ncol);
  }

  lemma MulMono(a: nat, b: nat, c: nat)
    requires a <= b
    ensures a * c <= b * c
  {
    MulDistrib(a, b - a, c);
  }

  lemma MulDistrib(a: nat, d: nat, c: nat)
    ensures (a + d) * c == a * c + d * c && 0 <= d * c
  {
  }

  /** Adding in 32-bit unsigned arithmetic, one term at a time, gives the sum reduced once. */
  lemma WrapAdd(a: nat, b: nat, x: nat)
    requires a == b % UINT_MODULUS
    ensures (a + x) % UINT_MODULUS == (b + x) % UINT_MODULUS
  {
    assert b == (b / UINT_MODULUS) * UINT_MODULUS + a;
    assert b + x == (b / UINT_MODULUS) * UINT_MODULUS + (a + x);
  }

  /** One row or column sum: the inner loop, accumulating into a 32-bit unsigned. */
  method LineSum(data: seq<nat>, start: nat, stride: nat, count: nat, ghost line: seq<nat>) returns (sum: nat)
    requires |line| == count
    requires forall i :: 0 <= i < count ==> start + i * stride < |data| && line[i] == data[start + i * stride]
    ensures sum == Sum(line) % UINT_MODULUS
  {
    sum := 0;
    var i := 0;
    while i < count
      invariant i <= count && sum == Sum(line[..i]) % UINT_MODULUS
    {
      SumConcat(line[..i], [line[i]]);
      assert line[..i + 1] == line[..i] + [line[i]];
      WrapAdd(sum, Sum(line[..i]), data[start + i * stride]);
      sum := (sum + data[start + i * stride]) % UINT_MODULUS;
      i := i + 1;
    }
    assert line[..i] == line;
  }

  /**
   * row_col_sums_details: nothing for empty data; otherwise the matrix is
   * viewed as nrow rows of ncol entries and each row (or each column) is
   * summed.
   */
  method RowColSums(data: seq<nat>, nrow: nat, ncol: nat, isRowSums: bool) returns (rv: seq<nat>)
    requires |data| == nrow * ncol
    ensures rv == LineSums(data, nrow, ncol, isRowSums)
  {
    rv := [];
    if data != [] {
      var x := if isRowSums then nrow else ncol;
      var rc := 0;
      while rc < x
        invariant rc <= x && |rv| == rc
        invariant forall j :: 0 <= j < rc ==> rv[j] == LineSums(data, nrow, ncol, isRowSums)[j]
      {
        var sum;
        if isRowSums {
          RowBounds(rc, nrow, ncol);
          forall i | 0 <= i < ncol ensures rc * ncol + i * 1 < |data| {
            CellInRange(rc, i, nrow, ncol);
          }
          sum := LineSum(data, rc * ncol, 1, ncol, RowOf(data, ncol, rc));
        } else {
          forall i | 0 <= i < nrow ensures rc + i * ncol < |data| {
            CellInRange(i, rc, nrow, ncol);
          }
          sum := LineSum(data, rc, ncol, nrow, ColOf(data, nrow, ncol, rc));
        }
        rv := rv + [sum];
        rc := rc + 1;
      }
    }
  }
}

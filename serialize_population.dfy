// fwdpp/io/detail/serialize_population.hpp: binary serialization of a
// single-deme diploid population.  The container writers it calls for
// mutations (fwdpp/io/mutation.hpp) and diploids (fwdpp/io/diploid.hpp) are
// not part of this model; they are modelled with the layout every container
// writer of the library uses, a size followed by the elements, a mutation
// written by serialize_mutation and a diploid as its two genome indexes.
// Haploid genomes are written as gametes (write_haploid_genomes has the loop
// of write_gametes).

module PopulationIO {
  import opened Types
  import opened Scalars
  import opened GameteIO
  import opened MutationType
  import opened Keys

  /** The members of a diploid population that are written and read. */
  datatype DiploidPop = DiploidPop(
    N: nat,
    mutations: seq<Mutation>,
    gametes: seq<Gamete>,
    diploids: seq<Diploid>,
    fixations: seq<Mutation>,
    fixationTimes: seq<nat>,
    mcounts: seq<nat>,
    lookup: multiset<LookupEntry>)

  function DiploidWords(d: Diploid): seq<Scalar>
  {
    [Size(d.first), Size(d.second)]
  }

  function ReadDiploid(ws: seq<Scalar>, p: nat): Read<Diploid>
  {
    match ReadSize(ws, p)
    case Short => Short
    case Got(a, p1) =>
      match ReadSize(ws, p1)
      case Short => Short
      case Got(b, p2) => Got(Diploid(a, b), p2)
  }

  lemma DiploidRoundTrip(d: Diploid)
    ensures Decodes(DiploidWords, ReadDiploid, d)
  {
    forall ws, q: nat | At(ws, q, DiploidWords(d))
      ensures ReadDiploid(ws, q) == Got(d, q + |DiploidWords(d)|)
    {
      assert ws[q..q + 2] == DiploidWords(d);
      assert ws[q] == DiploidWords(d)[0] && ws[q + 1] == DiploidWords(d)[1];
    }
  }

  /**
   * The words serialize_population_details writes: N, the mutations, the
   * genomes, the diploids, the fixations, the fixation times (one per
   * fixation, only when there are fixations) and the counted mcounts.
   */
  function PopulationWords(pop: DiploidPop): seq<Scalar>
    requires |pop.fixations| <= |pop.fixationTimes|
  {
    [U32(pop.N)]
      + (Counted(pop.mutations, MutationWords)
      + (Counted(pop.gametes, GameteWords)
      + (Counted(pop.diploids, DiploidWords)
      + (Counted(pop.fixations, MutationWords)
      + (U32s(pop.fixationTimes[..|pop.fixations|])
      + ([Size(|pop.mcounts|)] + U32s(pop.mcounts)))))))
  }

  /** serialize_population_details: the writes in order. */
  method SerializePopulation(out: seq<Scalar>, pop: DiploidPop) returns (out2: seq<Scalar>)
    requires |pop.fixations| <= |pop.fixationTimes|
    ensures out2 == out + PopulationWords(pop)
  {
    out2 := out + [U32(pop.N)];
    out2 := out2 + Counted(pop.mutations, MutationWords);
    out2 := WriteGametes(out2, pop.gametes);
    out2 := out2 + Counted(pop.diploids, DiploidWords);
    out2 := out2 + Counted(pop.fixations, MutationWords);
    var times := U32s(pop.fixationTimes[..|pop.fixations|]);
    if |pop.fixations| > 0 {
      out2 := out2 + times;
    } else {
      assert out2 == out2 + times;
    }
    out2 := out2 + [Size(|pop.mcounts|)];
    if |pop.mcounts| > 0 {
      out2 := out2 + U32s(pop.mcounts);
    } else {
      assert out2 == out2 + U32s(pop.mcounts);
    }
    Assoc8(out, [U32(pop.N)], Counted(pop.mutations, MutationWords), Counted(pop.gametes, GameteWords),
           Counted(pop.diploids, DiploidWords), Counted(pop.fixations, MutationWords), times,
           [Size(|pop.mcounts|)], U32s(pop.mcounts));
  }

  lemma Assoc8(out: seq<Scalar>, a: seq<Scalar>, b: seq<Scalar>, c: seq<Scalar>, d: seq<Scalar>,
               e: seq<Scalar>, f: seq<Scalar>, g: seq<Scalar>, h: seq<Scalar>)
    ensures out + a + b + c + d + e + f + g + h == out + (a + (b + (c + (d + (e + (f + (g + h)))))))
  {
  }

  /** The outcome of deserialize_population_details. */
  datatype Loaded =
    | Loaded(pop: DiploidPop, next: nat)
    | StreamFailed
    | CountsPastMutations  // more counts than mutations: the lookup loop indexes past the mutations (undefined behaviour)

  /** What deserialization reads, field by field, in the order of the writes. */
  function ReadPopulation(ws: seq<Scalar>, p: nat): Loaded
  {
    match ReadU32(ws, p)
    case Short => StreamFailed
    case Got(n, p1) =>
      match ReadCounted(ws, p1, ReadMutation)
      case Short => StreamFailed
      case Got(mutations, p2) =>
        match ReadCounted(ws, p2, ReadGamete)
        case Short => StreamFailed
        case Got(gametes, p3) =>
          match ReadCounted(ws, p3, ReadDiploid)
          case Short => StreamFailed
          case Got(diploids, p4) =>
            match ReadCounted(ws, p4, ReadMutation)
            case Short => StreamFailed
            case Got(fixations, p5) =>
              match ReadU32s(ws, p5, |fixations|)
              case Short => StreamFailed
              case Got(times, p6) =>
                match ReadSize(ws, p6)
                case Short => StreamFailed
                case Got(nc, p7) =>
                  match ReadU32s(ws, p7, nc)
                  case Short => StreamFailed
                  case Got(mcounts, p8) =>
                    if |mcounts| > |mutations| then CountsPastMutations
                    else Loaded(DiploidPop(n, mutations, gametes, diploids, fixations, times, mcounts,
                                           LookupOf(mutations, mcounts)), p8)
  }

  /** The loop that fills the lookup table from the nonzero counts. */
  method FillLookup(mutations: seq<Mutation>, mcounts: seq<nat>) returns (lookup: multiset<LookupEntry>)
    requires |mcounts| <= |mutations|
    ensures lookup == LookupOf(mutations, mcounts)
  {
    lookup := multiset{};
    var i := 0;
    while i < |mcounts|
      invariant 0 <= i <= |mcounts|
      invariant lookup == LookupOf(mutations, mcounts[..i])
    {
      assert mcounts[..i + 1][..i] == mcounts[..i];
      if mcounts[i] != 0 {
        lookup := lookup + multiset{LookupEntry(mutations[i].pos, i)};
      }
      i := i + 1;
    }
    assert mcounts[..i] == mcounts;
  }

  /**
   * deserialize_population_details: the population is cleared first, so the
   * result depends on the stream alone; the fields are read in the order of
   * the writes and the lookup is rebuilt.
   */
  method DeserializePopulation(old_pop: DiploidPop, ws: seq<Scalar>, p: nat) returns (r: Loaded)
    ensures r == ReadPopulation(ws, p)
  {
    var n := ReadU32(ws, p);
    if n.Short? { return StreamFailed; }
    var mutations := ReadCounted(ws, n.next, ReadMutation);
    if mutations.Short? { return StreamFailed; }
    var gametes := ReadGametes([], ws, mutations.next);
    if gametes.Short? { return StreamFailed; }
    var diploids := ReadCounted(ws, gametes.next, ReadDiploid);
    if diploids.Short? { return StreamFailed; }
    var fixations := ReadCounted(ws, diploids.next, ReadMutation);
    if fixations.Short? { return StreamFailed; }
    var times := ReadU32s(ws, fixations.next, |fixations.value|);
    if times.Short? { return StreamFailed; }
    var nc := ReadSize(ws, times.next);
    if nc.Short? { return StreamFailed; }
    var mcounts := ReadU32s(ws, nc.next, nc.value);
    if mcounts.Short? { return StreamFailed; }
    if |mcounts.value| > |mutations.value| {
      return CountsPastMutations;
    }
    var lookup := FillLookup(mutations.value, mcounts.value);
    r := Loaded(DiploidPop(n.value, mutations.value, gametes.value, diploids.value, fixations.value,
                           times.value, mcounts.value, lookup), mcounts.next);
  }

  /** A population whose stored lookup is the one the reader rebuilds. */
  predicate Restorable(pop: DiploidPop)
  {
    && |pop.fixationTimes| == |pop.fixations|
    && |pop.mcounts| <= |pop.mutations|
    && (forall i :: 0 <= i < |pop.mutations| ==> (pop.mutations[i].neutral <==> pop.mutations[i].s == 0.0))
    && (forall i :: 0 <= i < |pop.fixations| ==> (pop.fixations[i].neutral <==> pop.fixations[i].s == 0.0))
  }

  /** Where each of eight consecutive sections sits in the stream. */
  lemma Sections(ws: seq<Scalar>, a: seq<Scalar>, b: seq<Scalar>, c: seq<Scalar>, d: seq<Scalar>,
                 e: seq<Scalar>, f: seq<Scalar>, g: seq<Scalar>, h: seq<Scalar>,
                 q1: nat, q2: nat, q3: nat, q4: nat, q5: nat, q6: nat, q7: nat)
    requires At(ws, 0, a + (b + (c + (d + (e + (f + (g + h)))))))
    requires q1 == |a| && q2 == q1 + |b| && q3 == q2 + |c| && q4 == q3 + |d|
    requires q5 == q4 + |e| && q6 == q5 + |f| && q7 == q6 + |g|
    ensures At(ws, 0, a) && At(ws, q1, b) && At(ws, q2, c) && At(ws, q3, d)
    ensures At(ws, q4, e) && At(ws, q5, f) && At(ws, q6, g) && At(ws, q7, h)
  {
    var t6 := g + h;
    var t5 := f + t6;
    var t4 := e + t5;
    var t3 := d + t4;
    var t2 := c + t3;
    var t1 := b + t2;
    assert At(ws, 0, a) && At(ws, q1, t1) by { AtSplit(ws, 0, a, t1); }
    assert At(ws, q1, b) && At(ws, q2, t2) by { AtSplit(ws, q1, b, t2); }
    assert At(ws, q2, c) && At(ws, q3, t3) by { AtSplit(ws, q2, c, t3); }
    assert At(ws, q3, d) && At(ws, q4, t4) by { AtSplit(ws, q3, d, t4); }
    assert At(ws, q4, e) && At(ws, q5, t5) by { AtSplit(ws, q4, e, t5); }
    assert At(ws, q5, f) && At(ws, q6, t6) by { AtSplit(ws, q5, f, t6); }
    AtSplit(ws, q6, g, h);
  }

  /** A one-word section holds that word. */
  lemma WordAt(ws: seq<Scalar>, q: nat, w: Scalar)
    requires At(ws, q, [w])
    ensures q < |ws| && ws[q] == w
  {
    assert ws[q] == ws[q..q + 1][0];
  }

  /** ReadPopulation from the results of its reads. */
  lemma ReadPopulationOf(ws: seq<Scalar>, pop: DiploidPop, p2: nat, p3: nat, p4: nat, p5: nat, p6: nat)
    requires |pop.mcounts| <= |pop.mutations| && p6 == p5 + |pop.fixations|
    requires ReadU32(ws, 0) == Got(pop.N, 1)
    requires ReadCounted(ws, 1, ReadMutation) == Got(pop.mutations, p2)
    requires ReadCounted(ws, p2, ReadGamete) == Got(pop.gametes, p3)
    requires ReadCounted(ws, p3, ReadDiploid) == Got(pop.diploids, p4)
    requires ReadCounted(ws, p4, ReadMutation) == Got(pop.fixations, p5)
    requires ReadU32s(ws, p5, |pop.fixations|) == Got(pop.fixationTimes, p6)
    requires ReadSize(ws, p6) == Got(|pop.mcounts|, p6 + 1)
    requires ReadU32s(ws, p6 + 1, |pop.mcounts|) == Got(pop.mcounts, p6 + 1 + |pop.mcounts|)
    ensures ReadPopulation(ws, 0) == Loaded(pop.(lookup := LookupOf(pop.mutations, pop.mcounts)), p6 + 1 + |pop.mcounts|)
  {
  }

  /**
   * Reading back a written population gives the population, with its
   * lookup rebuilt from the counts: every field comes back in its place.
   */
  lemma PopulationRoundTrip(pop: DiploidPop, rest: seq<Scalar>)
    requires Restorable(pop)
    ensures ReadPopulation(PopulationWords(pop) + rest, 0)
         == Loaded(pop.(lookup := LookupOf(pop.mutations, pop.mcounts)), |PopulationWords(pop)|)
  {
    var ws := PopulationWords(pop) + rest;
    assert ws[0..|PopulationWords(pop)|] == PopulationWords(pop);
    PopulationReadsBack(pop, ws);
  }

  lemma PopulationReadsBack(pop: DiploidPop, ws: seq<Scalar>)
    requires Restorable(pop) && At(ws, 0, PopulationWords(pop))
    ensures ReadPopulation(ws, 0) == Loaded(pop.(lookup := LookupOf(pop.mutations, pop.mcounts)), |PopulationWords(pop)|)
  {
    var p2 := 1 + |Counted(pop.mutations, MutationWords)|;
    var p3 := p2 + |Counted(pop.gametes, GameteWords)|;
    var p4 := p3 + |Counted(pop.diploids, DiploidWords)|;
    var p5 := p4 + |Counted(pop.fixations, MutationWords)|;
    var p6 := p5 + |pop.fixations|;
    SectionsRead(ws, pop, p2, p3, p4, p5, p6);
    ReadPopulationOf(ws, pop, p2, p3, p4, p5, p6);
  }

  /** Each section of a written population reads back, each read ending where the next section starts. */
  lemma SectionsRead(ws: seq<Scalar>, pop: DiploidPop, p2: nat, p3: nat, p4: nat, p5: nat, p6: nat)
    requires Restorable(pop) && At(ws, 0, PopulationWords(pop))
    requires p2 == 1 + |Counted(pop.mutations, MutationWords)| && p3 == p2 + |Counted(pop.gametes, GameteWords)|
    requires p4 == p3 + |Counted(pop.diploids, DiploidWords)| && p5 == p4 + |Counted(pop.fixations, MutationWords)|
    requires p6 == p5 + |pop.fixations|
    ensures |PopulationWords(pop)| == p6 + 1 + |pop.mcounts|
    ensures ReadU32(ws, 0) == Got(pop.N, 1)
    ensures ReadCounted(ws, 1, ReadMutation) == Got(pop.mutations, p2)
    ensures ReadCounted(ws, p2, ReadGamete) == Got(pop.gametes, p3)
    ensures ReadCounted(ws, p3, ReadDiploid) == Got(pop.diploids, p4)
    ensures ReadCounted(ws, p4, ReadMutation) == Got(pop.fixations, p5)
    ensures ReadU32s(ws, p5, |pop.fixations|) == Got(pop.fixationTimes, p6)
    ensures ReadSize(ws, p6) == Got(|pop.mcounts|, p6 + 1)
    ensures ReadU32s(ws, p6 + 1, |pop.mcounts|) == Got(pop.mcounts, p6 + 1 + |pop.mcounts|)
  {
    var a := [U32(pop.N)];
    var b := Counted(pop.mutations, MutationWords);
    var c := Counted(pop.gametes, GameteWords);
    var d := Counted(pop.diploids, DiploidWords);
    var e := Counted(pop.fixations, MutationWords);
    var f := U32s(pop.fixationTimes);
    var g := [Size(|pop.mcounts|)];
    var h := U32s(pop.mcounts);
    assert pop.fixationTimes[..|pop.fixations|] == pop.fixationTimes;
    assert PopulationWords(pop) == a + (b + (c + (d + (e + (f + (g + h))))));
    Sections(ws, a, b, c, d, e, f, g, h, 1, p2, p3, p4, p5, p6, p6 + 1);
    HeadReads(ws, pop, p2, p3);
    TailReads(ws, pop, p3, p4, p5, p6);
  }

  /** The reads of N, the mutations and the genomes. */
  lemma HeadReads(ws: seq<Scalar>, pop: DiploidPop, p2: nat, p3: nat)
    requires forall i :: 0 <= i < |pop.mutations| ==> (pop.mutations[i].neutral <==> pop.mutations[i].s == 0.0)
    requires At(ws, 0, [U32(pop.N)])
    requires At(ws, 1, Counted(pop.mutations, MutationWords)) && p2 == 1 + |Counted(pop.mutations, MutationWords)|
    requires At(ws, p2, Counted(pop.gametes, GameteWords)) && p3 == p2 + |Counted(pop.gametes, GameteWords)|
    ensures ReadU32(ws, 0) == Got(pop.N, 1)
    ensures ReadCounted(ws, 1, ReadMutation) == Got(pop.mutations, p2)
    ensures ReadCounted(ws, p2, ReadGamete) == Got(pop.gametes, p3)
  {
    WordAt(ws, 0, U32(pop.N));
    MutationsRead(ws, 1, pop.mutations);
    GametesRead(ws, p2, pop.gametes);
  }

  /** The reads of the diploids, the fixations, their times and the counts. */
  lemma TailReads(ws: seq<Scalar>, pop: DiploidPop, p3: nat, p4: nat, p5: nat, p6: nat)
    requires forall i :: 0 <= i < |pop.fixations| ==> (pop.fixations[i].neutral <==> pop.fixations[i].s == 0.0)
    requires |pop.fixationTimes| == |pop.fixations| && p6 == p5 + |pop.fixations|
    requires At(ws, p3, Counted(pop.diploids, DiploidWords)) && p4 == p3 + |Counted(pop.diploids, DiploidWords)|
    requires At(ws, p4, Counted(pop.fixations, MutationWords)) && p5 == p4 + |Counted(pop.fixations, MutationWords)|
    requires At(ws, p5, U32s(pop.fixationTimes))
    requires At(ws, p6, [Size(|pop.mcounts|)])
    requires At(ws, p6 + 1, U32s(pop.mcounts))
    ensures ReadCounted(ws, p3, ReadDiploid) == Got(pop.diploids, p4)
    ensures ReadCounted(ws, p4, ReadMutation) == Got(pop.fixations, p5)
    ensures ReadU32s(ws, p5, |pop.fixations|) == Got(pop.fixationTimes, p6)
    ensures ReadSize(ws, p6) == Got(|pop.mcounts|, p6 + 1)
    ensures ReadU32s(ws, p6 + 1, |pop.mcounts|) == Got(pop.mcounts, p6 + 1 + |pop.mcounts|)
  {
    DiploidsRead(ws, p3, pop.diploids);
    MutationsRead(ws, p4, pop.fixations);
    ReadU32sAt(ws, p5, pop.fixationTimes);
    WordAt(ws, p6, Size(|pop.mcounts|));
    ReadU32sAt(ws, p6 + 1, pop.mcounts);
  }

  /** A written container of mutations whose flags agree with their coefficients reads back. */
  lemma MutationsRead(ws: seq<Scalar>, q: nat, ms: seq<Mutation>)
    requires forall i :: 0 <= i < |ms| ==> (ms[i].neutral <==> ms[i].s == 0.0)
    requires At(ws, q, Counted(ms, MutationWords))
    ensures ReadCounted(ws, q, ReadMutation) == Got(ms, q + |Counted(ms, MutationWords)|)
  {
    forall i | 0 <= i < |ms| ensures Decodes(MutationWords, ReadMutation, ms[i]) {
      MutationRoundTrip(ms[i]);
    }
    ReadCountedWords(ws, q, ms, MutationWords, ReadMutation);
  }

  lemma GametesRead(ws: seq<Scalar>, q: nat, gs: seq<Gamete>)
    requires At(ws, q, Counted(gs, GameteWords))
    ensures ReadCounted(ws, q, ReadGamete) == Got(gs, q + |Counted(gs, GameteWords)|)
  {
    forall i | 0 <= i < |gs| ensures Decodes(GameteWords, ReadGamete, gs[i]) {
      GameteRoundTrip(gs[i]);
    }
    ReadCountedWords(ws, q, gs, GameteWords, ReadGamete);
  }

  lemma DiploidsRead(ws: seq<Scalar>, q: nat, ds: seq<Diploid>)
    requires At(ws, q, Counted(ds, DiploidWords))
    ensures ReadCounted(ws, q, ReadDiploid) == Got(ds, q + |Counted(ds, DiploidWords)|)
  {
    forall i | 0 <= i < |ds| ensures Decodes(DiploidWords, ReadDiploid, ds[i]) {
      DiploidRoundTrip(ds[i]);
    }
    ReadCountedWords(ws, q, ds, DiploidWords, ReadDiploid);
  }
}

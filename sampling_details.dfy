// fwdpp/sugar/sampling/sampling_details.hpp: finishing a sample.  Unless
// fixed sites are removed, every fixation the neutrality policy selects is
// added as a site all sampled genomes carry; then each block is sorted by
// position.

module SamplingDetails {
  import opened Types
  import opened Sorting
  import opened MsSampling

  /** Which fixations a block takes: all, the neutral ones or the selected ones. */
  datatype TreatNeutral = All | NeutralOnly | SelectedOnly

  /** The fixations add_fixations adds under the given policy. */
  predicate Takes(treat: TreatNeutral, f: Mutation)
  {
    treat == All || (treat == NeutralOnly && f.neutral) || (treat == SelectedOnly && !f.neutral)
  }

  /** A site of nsam '1' characters. */
  function Ones(nsam: nat): (o: seq<char>)
    ensures |o| == nsam && forall c :: 0 <= c < nsam ==> o[c] == '1'
  {
    seq(nsam, _ => '1')
  }

  /** The sites add_fixations appends, in the order of the fixations. */
  function FixationSites(fixations: seq<Mutation>, nsam: nat, treat: TreatNeutral): seq<SampleSite>
    decreases |fixations|
  {
    if fixations == [] then []
    else (if Takes(treat, fixations[0]) then [SampleSite(fixations[0].pos, Ones(nsam))] else [])
         + FixationSites(fixations[1..], nsam, treat)
  }

  /** add_fixations: append an all-'1' site of nsam characters for each fixation the policy takes. */
  method AddFixations(sample: seq<SampleSite>, fixations: seq<Mutation>, nsam: nat, treat: TreatNeutral)
    returns (out: seq<SampleSite>)
    ensures out == sample + FixationSites(fixations, nsam, treat)
  {
    out := sample;
    var i := 0;
    while i < |fixations|
      invariant i <= |fixations|
      invariant out + FixationSites(fixations[i..], nsam, treat) == sample + FixationSites(fixations, nsam, treat)
    {
      var f := fixations[i];
      assert fixations[i..][1..] == fixations[i + 1..];
      if treat == All {
        out := out + [SampleSite(f.pos, Ones(nsam))];
      } else if treat == NeutralOnly && f.neutral {
        out := out + [SampleSite(f.pos, Ones(nsam))];
      } else if treat == SelectedOnly && !f.neutral {
        out := out + [SampleSite(f.pos, Ones(nsam))];
      }
      i := i + 1;
    }
  }

  /** The added sites are exactly one all-'1' site per fixation the policy takes. */
  lemma {:induction false} FixationSitesExactly(fixations: seq<Mutation>, nsam: nat, treat: TreatNeutral)
    ensures |FixationSites(fixations, nsam, treat)| == CountIf(fixations, f => Takes(treat, f))
    ensures forall j :: 0 <= j < |FixationSites(fixations, nsam, treat)| ==>
      FixationSites(fixations, nsam, treat)[j].genotypes == Ones(nsam)
    ensures forall f :: f in fixations && Takes(treat, f) ==> SampleSite(f.pos, Ones(nsam)) in FixationSites(fixations, nsam, treat)
    ensures forall s :: s in FixationSites(fixations, nsam, treat) ==> exists f :: f in fixations && Takes(treat, f) && s.pos == f.pos
    decreases |fixations|
  {
    if fixations != [] {
      var rest := FixationSites(fixations[1..], nsam, treat);
      FixationSitesExactly(fixations[1..], nsam, treat);
      var head: seq<SampleSite> := if Takes(treat, fixations[0]) then [SampleSite(fixations[0].pos, Ones(nsam))] else [];
      assert FixationSites(fixations, nsam, treat) == head + rest;
      forall f | f in fixations && Takes(treat, f) ensures SampleSite(f.pos, Ones(nsam)) in head + rest {
        if f != fixations[0] {
          assert f in fixations[1..];
        }
      }
      forall s | s in head + rest ensures exists f :: f in fixations && Takes(treat, f) && s.pos == f.pos {
        if s in rest {
          var f :| f in fixations[1..] && Takes(treat, f) && s.pos == f.pos;
          assert f in fixations;
        } else {
          assert fixations[0] in fixations;
        }
      }
    }
  }

  /** The block finish_sample returns: fixations added unless removeFixed, then sorted by position. */
  function Finish(sample: seq<SampleSite>, fixations: seq<Mutation>, nsam: nat, removeFixed: bool, treat: TreatNeutral): seq<SampleSite>
  {
    SortBy(if removeFixed then sample else sample + FixationSites(fixations, nsam, treat), SiteKey)
  }

  /** finish_sample on one block. */
  method FinishSample(sample: seq<SampleSite>, fixations: seq<Mutation>, nsam: nat, removeFixed: bool, treat: TreatNeutral)
    returns (out: seq<SampleSite>)
    ensures out == Finish(sample, fixations, nsam, removeFixed, treat)
  {
    out := sample;
    if !removeFixed {
      out := AddFixations(out, fixations, nsam, treat);
    }
    out := SortBy(out, SiteKey);
  }

  /** A finished block is sorted by position and holds exactly the sample's sites and the added fixations. */
  lemma FinishFacts(sample: seq<SampleSite>, fixations: seq<Mutation>, nsam: nat, removeFixed: bool, treat: TreatNeutral)
    ensures PositionSorted(Finish(sample, fixations, nsam, removeFixed, treat))
    ensures multiset(Finish(sample, fixations, nsam, removeFixed, treat))
         == multiset(sample) + (if removeFixed then multiset{} else multiset(FixationSites(fixations, nsam, treat)))
  {
    var pre := if removeFixed then sample else sample + FixationSites(fixations, nsam, treat);
    SortByCorrect(pre, SiteKey);
    SortedByPosition(SortBy(pre, SiteKey));
  }

  /** A separated sample finished: the neutral block takes the neutral fixations, the selected block the selected ones. */
  function FinishSep(sample: SepSample, fixations: seq<Mutation>, nsam: nat, removeFixed: bool): SepSample
  {
    SepSample(Finish(sample.neutral, fixations, nsam, removeFixed, NeutralOnly),
              Finish(sample.selected, fixations, nsam, removeFixed, SelectedOnly))
  }

  /** finish_sample on a separated sample. */
  method FinishSampleSeparate(sample: SepSample, fixations: seq<Mutation>, nsam: nat, removeFixed: bool)
    returns (out: SepSample)
    ensures out == FinishSep(sample, fixations, nsam, removeFixed)
  {
    var first, second := sample.neutral, sample.selected;
    if !removeFixed {
      first := AddFixations(first, fixations, nsam, NeutralOnly);
      second := AddFixations(second, fixations, nsam, SelectedOnly);
    }
    first := SortBy(first, SiteKey);
    second := SortBy(second, SiteKey);
    out := SepSample(first, second);
  }

  /** The neutral block gains only neutral fixations and the selected block only selected ones. */
  lemma SeparateFixationsSplit(fixations: seq<Mutation>, nsam: nat, s: SampleSite)
    ensures s in FixationSites(fixations, nsam, NeutralOnly) ==> exists f :: f in fixations && f.neutral && s.pos == f.pos
    ensures s in FixationSites(fixations, nsam, SelectedOnly) ==> exists f :: f in fixations && !f.neutral && s.pos == f.pos
  {
    FixationSitesExactly(fixations, nsam, NeutralOnly);
    FixationSitesExactly(fixations, nsam, SelectedOnly);
  }

  /** Adding every fixation to one locus' block. */
  function WithFixations(fixations: seq<Mutation>, nsam: nat): seq<SampleSite> -> seq<SampleSite>
  {
    (block: seq<SampleSite>) => block + FixationSites(fixations, nsam, All)
  }

  /** Sorting one locus' block by position. */
  function Sorted(): seq<SampleSite> -> seq<SampleSite>
  {
    (block: seq<SampleSite>) => SortBy(block, SiteKey)
  }

  /** finish_sample on a sample of several loci: every locus takes all fixations and is sorted. */
  method FinishSampleLoci(samples: seq<seq<SampleSite>>, fixations: seq<Mutation>, nsam: nat, removeFixed: bool)
    returns (out: seq<seq<SampleSite>>)
    ensures |out| == |samples|
    ensures forall i :: 0 <= i < |samples| ==> out[i] == Finish(samples[i], fixations, nsam, removeFixed, All)
  {
    var added := samples;
    if !removeFixed {
      added := [];
      var i := 0;
      while i < |samples|
        invariant i <= |samples|
        invariant added == Map(samples[..i], WithFixations(fixations, nsam))
      {
        var block := AddFixations(samples[i], fixations, nsam, All);
        assert samples[..i + 1] == samples[..i] + [samples[i]];
        MapConcat(samples[..i], [samples[i]], WithFixations(fixations, nsam));
        added := added + [block];
        i := i + 1;
      }
      assert samples[..|samples|] == samples;
    }
    out := [];
    var i := 0;
    while i < |added|
      invariant i <= |added|
      invariant out == Map(added[..i], Sorted())
    {
      assert added[..i + 1] == added[..i] + [added[i]];
      MapConcat(added[..i], [added[i]], Sorted());
      out := out + [SortBy(added[i], SiteKey)];
      i := i + 1;
    }
    assert added[..|added|] == added;
    forall i | 0 <= i < |samples| ensures out[i] == Finish(samples[i], fixations, nsam, removeFixed, All) {
      assert added[i] == if removeFixed then samples[i] else samples[i] + FixationSites(fixations, nsam, All);
    }
  }

  /** Every locus' separated sample finished, in order. */
  function FinishSepAll(samples: seq<SepSample>, fixations: seq<Mutation>, nsam: nat, removeFixed: bool): seq<SepSample>
    decreases |samples|
  {
    if samples == [] then []
    else [FinishSep(samples[0], fixations, nsam, removeFixed)] + FinishSepAll(samples[1..], fixations, nsam, removeFixed)
  }

  /** FinishSepAll finishes locus i into place i. */
  lemma {:induction false} FinishSepAllAt(samples: seq<SepSample>, fixations: seq<Mutation>, nsam: nat, removeFixed: bool)
    ensures |FinishSepAll(samples, fixations, nsam, removeFixed)| == |samples|
    ensures forall i :: 0 <= i < |samples| ==>
      FinishSepAll(samples, fixations, nsam, removeFixed)[i] == FinishSep(samples[i], fixations, nsam, removeFixed)
    decreases |samples|
  {
    if samples != [] {
      FinishSepAllAt(samples[1..], fixations, nsam, removeFixed);
    }
  }

  /** finish_sample on separated samples of several loci. */
  method FinishSampleSepLoci(samples: seq<SepSample>, fixations: seq<Mutation>, nsam: nat, removeFixed: bool)
    returns (out: seq<SepSample>)
    ensures out == FinishSepAll(samples, fixations, nsam, removeFixed)
  {
    ghost var target := FinishSepAll(samples, fixations, nsam, removeFixed);
    out := [];
    var i := 0;
    while i < |samples|
      invariant i <= |samples|
      invariant out + FinishSepAll(samples[i..], fixations, nsam, removeFixed) == target
    {
      var finished := FinishSampleSeparate(samples[i], fixations, nsam, removeFixed);
      assert samples[i..][1..] == samples[i + 1..];
      out := out + [finished];
      i := i + 1;
    }
  }

  /**
   * sample_details for a list of individuals: sample them separated into
   * 2*|individuals| genomes, put the selected sites after the neutral ones,
   * and finish the block with all fixations.
   */
  method SampleDetails(mutations: seq<Mutation>, gametes: seq<Gamete>, diploids: seq<Diploid>, fixations: seq<Mutation>,
                       individuals: seq<nat>, removeFixed: bool)
    returns (rv: seq<SampleSite>)
    requires Sampleable(mutations, gametes, diploids, individuals)
    ensures var temp := MsSample(mutations, gametes, diploids, individuals, 2 * |individuals|, removeFixed);
      rv == Finish(temp.neutral + temp.selected, fixations, 2 * |individuals|, removeFixed, All)
  {
    var temp := MsSampleSeparateSingleDeme(mutations, gametes, diploids, individuals, 2 * |individuals|, removeFixed);
    rv := temp.neutral + temp.selected;
    rv := FinishSample(rv, fixations, 2 * |individuals|, removeFixed, All);
  }

  /** sample_sep_details for a list of individuals: the separated sample, each block finished. */
  method SampleSepDetails(mutations: seq<Mutation>, gametes: seq<Gamete>, diploids: seq<Diploid>, fixations: seq<Mutation>,
                          individuals: seq<nat>, removeFixed: bool)
    returns (rv: SepSample)
    requires Sampleable(mutations, gametes, diploids, individuals)
    ensures var temp := MsSample(mutations, gametes, diploids, individuals, 2 * |individuals|, removeFixed);
      rv == FinishSep(temp, fixations, 2 * |individuals|, removeFixed)
  {
    var temp := MsSampleSeparateSingleDeme(mutations, gametes, diploids, individuals, 2 * |individuals|, removeFixed);
    var first := FinishSample(temp.neutral, fixations, 2 * |individuals|, removeFixed, NeutralOnly);
    var second := FinishSample(temp.selected, fixations, 2 * |individuals|, removeFixed, SelectedOnly);
    rv := SepSample(first, second);
  }

  /** A sample of individuals is sorted by position and every site has one character per sampled genome. */
  lemma SampleDetailsFacts(mutations: seq<Mutation>, gametes: seq<Gamete>, diploids: seq<Diploid>, fixations: seq<Mutation>,
                           individuals: seq<nat>, removeFixed: bool)
    ensures var temp := MsSample(mutations, gametes, diploids, individuals, 2 * |individuals|, removeFixed);
      var rv := Finish(temp.neutral + temp.selected, fixations, 2 * |individuals|, removeFixed, All);
      PositionSorted(rv) && WellFormed(rv, 2 * |individuals|)
  {
    var nsam := 2 * |individuals|;
    var temp := MsSample(mutations, gametes, diploids, individuals, nsam, removeFixed);
    assert nsam % 2 == 0;
    MsSampleFacts(mutations, gametes, diploids, individuals, nsam, removeFixed);
    WellFormedConcat(temp.neutral, temp.selected, nsam);
    FinishFacts(temp.neutral + temp.selected, fixations, nsam, removeFixed, All);
    FinishWellFormed(temp.neutral + temp.selected, fixations, nsam, removeFixed, All);
  }

  /** Finishing keeps a block of nsam-character sites so, since every added fixation has nsam characters. */
  lemma FinishWellFormed(sample: seq<SampleSite>, fixations: seq<Mutation>, nsam: nat, removeFixed: bool, treat: TreatNeutral)
    requires WellFormed(sample, nsam)
    ensures WellFormed(Finish(sample, fixations, nsam, removeFixed, treat), nsam)
  {
    var pre := if removeFixed then sample else sample + FixationSites(fixations, nsam, treat);
    FixationSitesExactly(fixations, nsam, treat);
    assert WellFormed(pre, nsam);
    var rv := SortBy(pre, SiteKey);
    SortByPermutes(pre, SiteKey);
    forall j | 0 <= j < |rv| ensures |rv[j].genotypes| == nsam {
      assert rv[j] in multiset(pre);
    }
  }
}

// fwdpp/internal/ms_sampling.hpp: a sample of diploids written as "ms"
// blocks.  A block is a vector of sites; a site is a mutation position and
// one character per sampled genome, '1' where that genome carries the
// mutation and '0' where it does not.  Genome 2i and 2i+1 of the sample are
// the two genomes of the i-th sampled diploid.

module MsSampling {
  import opened Types
  import opened Sorting
  import opened Keys

  /** A site of a sample block: its position and one character per sampled genome. */
  datatype SampleSite = SampleSite(pos: real, genotypes: seq<char>)

  /** The neutral and the selected block of a separated sample. */
  datatype SepSample = SepSample(neutral: seq<SampleSite>, selected: seq<SampleSite>)

  /** std::numeric_limits<double>::epsilon(), 2^-52. */
  const EPSILON: real := 1.0 / 4503599627370496.0

  /** The site finder: two positions are the same site when they differ by at most EPSILON. */
  predicate Near(a: real, b: real)
  {
    (if a >= b then a - b else b - a) <= EPSILON
  }

  /** The sort key of std::sort on a block: the position. */
  function SiteKey(s: SampleSite): seq<real>
  {
    [s.pos]
  }

  /** Every site of the block has one character per sampled genome. */
  predicate WellFormed(block: seq<SampleSite>, n: nat)
  {
    forall j :: 0 <= j < |block| ==> |block[j].genotypes| == n
  }

  /** Two blocks of n-character sites make one. */
  lemma WellFormedConcat(a: seq<SampleSite>, b: seq<SampleSite>, n: nat)
    requires WellFormed(a, n) && WellFormed(b, n)
    ensures WellFormed(a + b, n)
  {
    forall j | 0 <= j < |a + b| ensures |(a + b)[j].genotypes| == n {
      if j >= |a| { assert (a + b)[j] == b[j - |a|]; }
    }
  }

  /** Positions never decrease along the block. */
  predicate PositionSorted(block: seq<SampleSite>)
  {
    forall i, j :: 0 <= i < j < |block| ==> block[i].pos <= block[j].pos
  }

  // ---------------------------------------------------------------------
  // remove_no_derived and trim_last
  // ---------------------------------------------------------------------

  /** A site some sampled genome carries: not every character is '0'. */
  predicate HasDerived(s: SampleSite)
  {
    Count(s.genotypes, '0') != |s.genotypes|
  }

  /** Every character of g is '0' exactly when the count of '0' is its length. */
  lemma {:induction false} AllZeroCount(g: seq<char>)
    ensures (Count(g, '0') == |g|) <==> (forall c :: 0 <= c < |g| ==> g[c] == '0')
  {
    if g != [] {
      AllZeroCount(g[1..]);
      if g[0] == '0' {
        forall c | 0 <= c < |g[1..]| ensures g[1..][c] == g[c + 1] { }
      }
    }
  }

  /** remove_no_derived: erase the sites no sampled genome carries, keeping the order. */
  method RemoveNoDerived(block: seq<SampleSite>) returns (out: seq<SampleSite>)
    ensures out == Filter(block, HasDerived)
  {
    out := [];
    var i := |block|;
    while i > 0
      invariant 0 <= i <= |block|
      invariant out == Filter(block[i..], HasDerived)
    {
      i := i - 1;
      assert block[i..][1..] == block[i + 1..];
      if Count(block[i].genotypes, '0') != |block[i].genotypes| {
        out := [block[i]] + out;
      }
    }
  }

  /** remove_no_derived drops exactly the sites whose characters are all '0'. */
  lemma RemoveNoDerivedExactly(block: seq<SampleSite>, s: SampleSite)
    ensures s in Filter(block, HasDerived) <==> s in block && exists c :: 0 <= c < |s.genotypes| && s.genotypes[c] != '0'
  {
    FilterMembers(block, HasDerived);
    AllZeroCount(s.genotypes);
  }

  /** A site without its last character (an empty one is left as it is). */
  function TrimSite(s: SampleSite): SampleSite
  {
    if s.genotypes != [] then s.(genotypes := s.genotypes[..|s.genotypes| - 1]) else s
  }

  /** The block trim_last leaves: every site trimmed, then the all-'0' sites dropped. */
  function Trimmed(block: seq<SampleSite>): seq<SampleSite>
  {
    Filter(Map(block, TrimSite), HasDerived)
  }

  /** trim_last: clip off the last sampled genome, then remove_no_derived. */
  method TrimLast(block: seq<SampleSite>) returns (out: seq<SampleSite>)
    ensures out == Trimmed(block)
  {
    var clipped: seq<SampleSite> := [];
    var i := 0;
    while i < |block|
      invariant i <= |block|
      invariant clipped == Map(block[..i], TrimSite)
    {
      var s := block[i];
      if s.genotypes != [] {
        s := s.(genotypes := s.genotypes[..|s.genotypes| - 1]);
      }
      clipped := clipped + [s];
      i := i + 1;
    }
    assert block[..|block|] == block;
    out := RemoveNoDerived(clipped);
  }

  /** Trimming keeps positions and shortens every site by one character. */
  lemma TrimmedFacts(block: seq<SampleSite>, n: nat)
    requires WellFormed(block, n + 1)
    ensures WellFormed(Trimmed(block), n)
    ensures PositionSorted(block) ==> PositionSorted(Trimmed(block))
  {
    var m := Map(block, TrimSite);
    assert WellFormed(m, n);
    FilterWellFormed(m, HasDerived, n);
    if PositionSorted(block) {
      assert PositionSorted(m);
      FilterPositionSorted(m, HasDerived);
    }
  }

  /** Filtering keeps the site lengths. */
  lemma FilterWellFormed(block: seq<SampleSite>, p: SampleSite -> bool, n: nat)
    requires WellFormed(block, n)
    ensures WellFormed(Filter(block, p), n)
  {
    FilterMembers(block, p);
    var r := Filter(block, p);
    forall j | 0 <= j < |r| ensures |r[j].genotypes| == n {
      assert r[j] in block;
    }
  }

  /** Filtering keeps the block sorted by position. */
  lemma {:induction false} FilterPositionSorted(block: seq<SampleSite>, p: SampleSite -> bool)
    requires PositionSorted(block)
    ensures PositionSorted(Filter(block, p))
  {
    if block != [] {
      var t := block[1..];
      assert PositionSorted(t);
      FilterPositionSorted(t, p);
      FilterMembers(t, p);
      var ft := Filter(t, p);
      var r := Filter(block, p);
      assert r == (if p(block[0]) then [block[0]] else []) + ft;
      forall j | 0 <= j < |ft| ensures block[0].pos <= ft[j].pos {
        assert ft[j] in t;
        var k :| 0 <= k < |t| && t[k] == ft[j];
        assert block[k + 1] == t[k];
      }
    }
  }

  // ---------------------------------------------------------------------
  // update_sample_block
  // ---------------------------------------------------------------------

  /** Index of the first site at the given position (|block| when there is none): the find_if with the site finder. */
  function FindSite(block: seq<SampleSite>, pos: real): (k: nat)
    ensures k <= |block|
    decreases |block|
  {
    if block == [] then 0
    else if Near(block[0].pos, pos) then 0
    else 1 + FindSite(block[1..], pos)
  }

  /** FindSite finds the first site at the position, or proves there is none. */
  lemma {:induction false} FindSiteFirst(block: seq<SampleSite>, pos: real)
    ensures forall j :: 0 <= j < FindSite(block, pos) ==> !Near(block[j].pos, pos)
    ensures FindSite(block, pos) < |block| ==> Near(block[FindSite(block, pos)].pos, pos)
    decreases |block|
  {
    if block != [] && !Near(block[0].pos, pos) {
      FindSiteFirst(block[1..], pos);
      forall j | 1 <= j < FindSite(block, pos) ensures !Near(block[j].pos, pos) {
        assert block[j] == block[1..][j - 1];
      }
    }
  }

  /** Genome k of a site carries the mutation (a character past the end is left alone). */
  function SetOne(g: seq<char>, k: nat): seq<char>
  {
    if k < |g| then g[k := '1'] else g
  }

  /** A site string of n '0' characters. */
  function Zeros(n: nat): (z: seq<char>)
    ensures |z| == n && forall c :: 0 <= c < n ==> z[c] == '0'
  {
    seq(n, _ => '0')
  }

  /** One variant recorded for genome k: a new site of n characters, or genome k set at the existing site. */
  function Recorded(block: seq<SampleSite>, pos: real, k: nat, n: nat): seq<SampleSite>
  {
    var f := FindSite(block, pos);
    if f == |block| then block + [SampleSite(pos, SetOne(Zeros(n), k))]
    else block[f := block[f].(genotypes := SetOne(block[f].genotypes, k))]
  }

  /** The position of a key's mutation (0 for a key past the end). */
  function Position(mutations: seq<Mutation>, m: nat): real
  {
    if m < |mutations| then mutations[m].pos else 0.0
  }

  /** The block after recording each variant of a genome, in order, for genome k. */
  function UpdatedBlock(block: seq<SampleSite>, mutations: seq<Mutation>, variants: seq<nat>, k: nat, n: nat): seq<SampleSite>
    decreases |variants|
  {
    if variants == [] then block
    else UpdatedBlock(Recorded(block, Position(mutations, variants[0]), k, n), mutations, variants[1..], k, n)
  }

  /**
   * update_sample_block: for each key of the genome, find the site at its
   * mutation's position; add an all-'0' site of n characters when there is
   * none; set character scalar*i+offset to '1'.
   */
  method UpdateSampleBlock(block: seq<SampleSite>, variants: seq<nat>, mutations: seq<Mutation>,
                           i: nat, n: nat, offset: nat, scalar: nat)
    returns (out: seq<SampleSite>)
    requires KeysIn(mutations, variants)
    requires scalar * i + offset < n && WellFormed(block, n)
    ensures out == UpdatedBlock(block, mutations, variants, scalar * i + offset, n)
  {
    var k := scalar * i + offset;
    ghost var target := UpdatedBlock(block, mutations, variants, k, n);
    out := block;
    var j := 0;
    while j < |variants|
      invariant j <= |variants|
      invariant UpdatedBlock(out, mutations, variants[j..], k, n) == target
    {
      var mutpos := mutations[variants[j]].pos;
      var f := FindSite(out, mutpos);
      if f == |out| {
        out := out + [SampleSite(mutpos, SetOne(Zeros(n), k))];
      } else {
        out := out[f := out[f].(genotypes := SetOne(out[f].genotypes, k))];
      }
      assert variants[j..][1..] == variants[j + 1..];
      j := j + 1;
    }
  }

  /** The sites of b keep their positions, at the front of r. */
  predicate PositionsKept(b: seq<SampleSite>, r: seq<SampleSite>)
  {
    |b| <= |r| && forall j :: 0 <= j < |b| ==> r[j].pos == b[j].pos
  }

  /** Every genome other than k keeps its characters at the old sites. */
  predicate OthersKept(b: seq<SampleSite>, r: seq<SampleSite>, k: nat, n: nat)
    requires PositionsKept(b, r) && WellFormed(b, n) && WellFormed(r, n)
  {
    forall j, c :: 0 <= j < |b| && 0 <= c < n && c != k ==> r[j].genotypes[c] == b[j].genotypes[c]
  }

  /** Every genome other than k is '0' at the new sites. */
  predicate OthersZeroAtNew(b: seq<SampleSite>, r: seq<SampleSite>, k: nat, n: nat)
    requires PositionsKept(b, r) && WellFormed(r, n)
  {
    forall j, c :: |b| <= j < |r| && 0 <= c < n && c != k ==> r[j].genotypes[c] == '0'
  }

  /** A '1' of genome k stays. */
  predicate OnesKept(b: seq<SampleSite>, r: seq<SampleSite>, k: nat, n: nat)
    requires PositionsKept(b, r) && WellFormed(b, n) && WellFormed(r, n) && k < n
  {
    forall j :: 0 <= j < |b| && b[j].genotypes[k] == '1' ==> r[j].genotypes[k] == '1'
  }

  /** Genome k carries the site at the position. */
  predicate Marked(b: seq<SampleSite>, pos: real, k: nat, n: nat)
    requires WellFormed(b, n) && k < n
  {
    FindSite(b, pos) < |b| && b[FindSite(b, pos)].genotypes[k] == '1'
  }

  /** Keeping the old sites' positions keeps the site found for a position already present. */
  lemma FindSiteStable(b: seq<SampleSite>, r: seq<SampleSite>, pos: real)
    requires PositionsKept(b, r) && FindSite(b, pos) < |b|
    ensures FindSite(r, pos) == FindSite(b, pos)
  {
    FindSiteFirst(b, pos);
    FindSiteFirst(r, pos);
    var k1, k2 := FindSite(b, pos), FindSite(r, pos);
    assert r[k1].pos == b[k1].pos;
    if k2 < |b| {
      assert r[k2].pos == b[k2].pos;
    }
  }

  /** What recording one variant changes. */
  lemma RecordedFacts(b: seq<SampleSite>, pos: real, k: nat, n: nat)
    requires k < n && WellFormed(b, n)
    ensures var r := Recorded(b, pos, k, n);
      WellFormed(r, n) && PositionsKept(b, r) && |r| <= |b| + 1
      && OthersKept(b, r, k, n) && OthersZeroAtNew(b, r, k, n) && OnesKept(b, r, k, n) && Marked(r, pos, k, n)
  {
    var r := Recorded(b, pos, k, n);
    var f := FindSite(b, pos);
    FindSiteFirst(b, pos);
    if f == |b| {
      FindSiteFirst(r, pos);
      assert r[|b|].pos == pos;
      assert forall j :: 0 <= j < |b| ==> r[j] == b[j];
    } else {
      assert PositionsKept(b, r);
      FindSiteStable(b, r, pos);
    }
  }

  /** What recording all of a genome's variants for genome k changes, and that each is recorded. */
  lemma {:induction false} UpdatedBlockFacts(b: seq<SampleSite>, mutations: seq<Mutation>, variants: seq<nat>, k: nat, n: nat)
    requires k < n && WellFormed(b, n)
    ensures var r := UpdatedBlock(b, mutations, variants, k, n);
      WellFormed(r, n) && PositionsKept(b, r)
      && OthersKept(b, r, k, n) && OthersZeroAtNew(b, r, k, n) && OnesKept(b, r, k, n)
      && forall v :: 0 <= v < |variants| ==> Marked(r, Position(mutations, variants[v]), k, n)
    decreases |variants|
  {
    if variants != [] {
      var p := Position(mutations, variants[0]);
      var r1 := Recorded(b, p, k, n);
      RecordedFacts(b, p, k, n);
      UpdatedBlockFacts(r1, mutations, variants[1..], k, n);
      var r := UpdatedBlock(r1, mutations, variants[1..], k, n);
      ComposeFacts(b, r1, r, k, n);
      FindSiteStable(r1, r, p);
      forall v | 1 <= v < |variants| ensures Marked(r, Position(mutations, variants[v]), k, n) {
        assert variants[v] == variants[1..][v - 1];
      }
    }
  }

  /** The change relations compose along two steps. */
  lemma ComposeFacts(b: seq<SampleSite>, r1: seq<SampleSite>, r: seq<SampleSite>, k: nat, n: nat)
    requires k < n && WellFormed(b, n) && WellFormed(r1, n) && WellFormed(r, n)
    requires PositionsKept(b, r1) && PositionsKept(r1, r)
    requires OthersKept(b, r1, k, n) && OthersZeroAtNew(b, r1, k, n) && OnesKept(b, r1, k, n)
    requires OthersKept(r1, r, k, n) && OthersZeroAtNew(r1, r, k, n) && OnesKept(r1, r, k, n)
    ensures PositionsKept(b, r) && OthersKept(b, r, k, n) && OthersZeroAtNew(b, r, k, n) && OnesKept(b, r, k, n)
  {
  }

  // ---------------------------------------------------------------------
  // remove_fixed_variants_from_sample
  // ---------------------------------------------------------------------

  /** The sites remove_fixed_variants_from_sample keeps: not every one of the nsam genomes carries them. */
  function KeepVariable(nsam: nat): SampleSite -> bool
  {
    (s: SampleSite) => Count(s.genotypes, '1') != nsam
  }

  /** remove_fixed_variants_from_sample: erase the sites all nsam sampled genomes carry, keeping the order. */
  method RemoveFixedVariants(sample: seq<SampleSite>, nsam: nat) returns (out: seq<SampleSite>)
    ensures out == Filter(sample, KeepVariable(nsam))
  {
    out := [];
    var i := |sample|;
    while i > 0
      invariant 0 <= i <= |sample|
      invariant out == Filter(sample[i..], KeepVariable(nsam))
    {
      i := i - 1;
      assert sample[i..][1..] == sample[i + 1..];
      if Count(sample[i].genotypes, '1') != nsam {
        out := [sample[i]] + out;
      }
    }
  }

  /** Every character of g is '1' exactly when the count of '1' is its length. */
  lemma {:induction false} AllOneCount(g: seq<char>)
    ensures (Count(g, '1') == |g|) <==> (forall c :: 0 <= c < |g| ==> g[c] == '1')
  {
    if g != [] {
      AllOneCount(g[1..]);
      if g[0] == '1' {
        forall c | 0 <= c < |g[1..]| ensures g[1..][c] == g[c + 1] { }
      }
    }
  }

  /** On sites of nsam characters, exactly the sites all '1' are dropped. */
  lemma RemoveFixedExactly(sample: seq<SampleSite>, nsam: nat, s: SampleSite)
    requires WellFormed(sample, nsam)
    ensures s in Filter(sample, KeepVariable(nsam)) <==> s in sample && exists c :: 0 <= c < |s.genotypes| && s.genotypes[c] != '1'
  {
    FilterMembers(sample, KeepVariable(nsam));
    AllOneCount(s.genotypes);
  }

  // ---------------------------------------------------------------------
  // ms_sample_separate_single_deme
  // ---------------------------------------------------------------------

  /** The diploid at an index (a default past the end). */
  function DiploidAt(diploids: seq<Diploid>, i: nat): Diploid
  {
    if i < |diploids| then diploids[i] else Diploid(0, 0)
  }

  /** The genome at an index (an empty one past the end). */
  function GameteAt(gametes: seq<Gamete>, i: nat): Gamete
  {
    if i < |gametes| then gametes[i] else Gamete(0, [], [])
  }

  /** The blocks after the sampled diploids i, i+1, ... are recorded (genomes 2i and 2i+1 of n). */
  function Collected(mutations: seq<Mutation>, gametes: seq<Gamete>, diploids: seq<Diploid>, diplist: seq<nat>,
                     i: nat, acc: SepSample): SepSample
    decreases |diplist| - i
  {
    if i >= |diplist| then acc
    else
      var d := DiploidAt(diploids, diplist[i]);
      Collected(mutations, gametes, diploids, diplist, i + 1,
                Recorded2(acc, mutations, GameteAt(gametes, d.first), GameteAt(gametes, d.second), i, 2 * |diplist|))
  }

  /** The blocks after the two genomes of sampled diploid i are recorded as genomes 2i and 2i+1. */
  function Recorded2(acc: SepSample, mutations: seq<Mutation>, g1: Gamete, g2: Gamete, i: nat, n: nat): SepSample
  {
    SepSample(
      UpdatedBlock(UpdatedBlock(acc.neutral, mutations, g1.mutations, 2 * i, n), mutations, g2.mutations, 2 * i + 1, n),
      UpdatedBlock(UpdatedBlock(acc.selected, mutations, g1.smutations, 2 * i, n), mutations, g2.smutations, 2 * i + 1, n))
  }

  /** A block after the fixed sites are removed (when asked), it is sorted, and the last genome is clipped for odd n. */
  function Finished(block: seq<SampleSite>, nsam: nat, removeFixed: bool, n: nat): seq<SampleSite>
  {
    var kept := if removeFixed && block != [] then Filter(block, KeepVariable(nsam)) else block;
    var sorted := if kept != [] then SortBy(kept, SiteKey) else kept;
    if n % 2 != 0 then Trimmed(sorted) else sorted
  }

  /** The genomes an individual's diploid points to, and the keys they hold, exist. */
  predicate Sampleable(mutations: seq<Mutation>, gametes: seq<Gamete>, diploids: seq<Diploid>, diplist: seq<nat>)
  {
    forall i :: 0 <= i < |diplist| ==>
      diplist[i] < |diploids| && diploids[diplist[i]].first < |gametes| && diploids[diplist[i]].second < |gametes|
      && KeysIn(mutations, gametes[diploids[diplist[i]].first].mutations)
      && KeysIn(mutations, gametes[diploids[diplist[i]].first].smutations)
      && KeysIn(mutations, gametes[diploids[diplist[i]].second].mutations)
      && KeysIn(mutations, gametes[diploids[diplist[i]].second].smutations)
  }

  /** The separated sample of the listed diploids. */
  function MsSample(mutations: seq<Mutation>, gametes: seq<Gamete>, diploids: seq<Diploid>, diplist: seq<nat>,
                    n: nat, removeFixed: bool): SepSample
  {
    var c := Collected(mutations, gametes, diploids, diplist, 0, SepSample([], []));
    SepSample(Finished(c.neutral, 2 * |diplist|, removeFixed, n), Finished(c.selected, 2 * |diplist|, removeFixed, n))
  }

  /**
   * ms_sample_separate_single_deme: record the neutral and the selected
   * keys of both genomes of each listed diploid, remove fixed sites when
   * asked, sort each block by position, and clip the last genome when n is
   * odd.
   */
  method MsSampleSeparateSingleDeme(mutations: seq<Mutation>, gametes: seq<Gamete>, diploids: seq<Diploid>,
                                    diplist: seq<nat>, n: nat, removeFixed: bool)
    returns (rv: SepSample)
    requires Sampleable(mutations, gametes, diploids, diplist)
    ensures rv == MsSample(mutations, gametes, diploids, diplist, n, removeFixed)
  {
    var nsam := 2 * |diplist|;
    ghost var target := Collected(mutations, gametes, diploids, diplist, 0, SepSample([], []));
    var first: seq<SampleSite>, second: seq<SampleSite> := [], [];
    var i := 0;
    while i < |diplist|
      invariant i <= |diplist|
      invariant WellFormed(first, nsam) && WellFormed(second, nsam)
      invariant Collected(mutations, gametes, diploids, diplist, i, SepSample(first, second)) == target
    {
      var d := diploids[diplist[i]];
      assert d == DiploidAt(diploids, diplist[i]);
      var g1, g2 := gametes[d.first], gametes[d.second];
      assert g1 == GameteAt(gametes, d.first) && g2 == GameteAt(gametes, d.second);
      first, second := RecordDiploid(first, second, mutations, g1, g2, i, nsam);
      i := i + 1;
    }
    first := FinishBlock(first, nsam, removeFixed, n);
    second := FinishBlock(second, nsam, removeFixed, n);
    rv := SepSample(first, second);
  }

  /** The four update_sample_block calls for sampled diploid i, whose genomes are g1 and g2. */
  method RecordDiploid(first: seq<SampleSite>, second: seq<SampleSite>, mutations: seq<Mutation>, g1: Gamete, g2: Gamete,
                       i: nat, nsam: nat)
    returns (first2: seq<SampleSite>, second2: seq<SampleSite>)
    requires 2 * i + 1 < nsam && WellFormed(first, nsam) && WellFormed(second, nsam)
    requires KeysIn(mutations, g1.mutations) && KeysIn(mutations, g1.smutations)
    requires KeysIn(mutations, g2.mutations) && KeysIn(mutations, g2.smutations)
    ensures SepSample(first2, second2) == Recorded2(SepSample(first, second), mutations, g1, g2, i, nsam)
    ensures WellFormed(first2, nsam) && WellFormed(second2, nsam)
  {
    first2 := RecordPair(first, g1.mutations, g2.mutations, mutations, i, nsam);
    second2 := RecordPair(second, g1.smutations, g2.smutations, mutations, i, nsam);
  }

  /** One block of diploid i: the first genome's variants in column 2i, then the second's in column 2i+1. */
  method RecordPair(block: seq<SampleSite>, v1: seq<nat>, v2: seq<nat>, mutations: seq<Mutation>, i: nat, nsam: nat)
    returns (out: seq<SampleSite>)
    requires 2 * i + 1 < nsam && WellFormed(block, nsam) && KeysIn(mutations, v1) && KeysIn(mutations, v2)
    ensures out == UpdatedBlock(UpdatedBlock(block, mutations, v1, 2 * i, nsam), mutations, v2, 2 * i + 1, nsam)
    ensures WellFormed(out, nsam)
  {
    out := UpdateSampleBlock(block, v1, mutations, i, nsam, 0, 2);
    UpdatedBlockWellFormed(block, mutations, v1, 2 * i, nsam);
    ghost var b1 := out;
    out := UpdateSampleBlock(out, v2, mutations, i, nsam, 1, 2);
    UpdatedBlockWellFormed(b1, mutations, v2, 2 * i + 1, nsam);
  }

  /** Recording keeps every site at n characters. */
  lemma UpdatedBlockWellFormed(b: seq<SampleSite>, mutations: seq<Mutation>, variants: seq<nat>, k: nat, n: nat)
    requires k < n && WellFormed(b, n)
    ensures WellFormed(UpdatedBlock(b, mutations, variants, k, n), n)
  {
    UpdatedBlockFacts(b, mutations, variants, k, n);
  }

  /** The steps ms_sample_separate_single_deme applies to each block once every diploid is recorded. */
  method FinishBlock(block: seq<SampleSite>, nsam: nat, removeFixed: bool, n: nat) returns (out: seq<SampleSite>)
    ensures out == Finished(block, nsam, removeFixed, n)
  {
    out := block;
    if removeFixed && out != [] {
      out := RemoveFixedVariants(out, nsam);
    }
    if out != [] {
      out := SortBy(out, SiteKey);
    }
    if n % 2 != 0 {
      out := TrimLast(out);
    }
  }

  /** A block sorted by SiteKey is sorted by position. */
  lemma SortedByPosition(block: seq<SampleSite>)
    requires SortedBy(block, SiteKey)
    ensures PositionSorted(block)
  {
    forall i, j | 0 <= i < j < |block| ensures block[i].pos <= block[j].pos {
      assert !LexLess(SiteKey(block[j]), SiteKey(block[i]));
      LexSingleton(block[j].pos, block[i].pos);
    }
  }

  /** Every finished block is sorted by position and has sites of nsam characters, one fewer for odd n. */
  lemma FinishedFacts(block: seq<SampleSite>, nsam: nat, removeFixed: bool, n: nat)
    requires WellFormed(block, nsam)
    ensures PositionSorted(Finished(block, nsam, removeFixed, n))
    ensures n % 2 == 0 ==> WellFormed(Finished(block, nsam, removeFixed, n), nsam)
    ensures n % 2 != 0 && nsam > 0 ==> WellFormed(Finished(block, nsam, removeFixed, n), nsam - 1)
  {
    var kept := if removeFixed && block != [] then Filter(block, KeepVariable(nsam)) else block;
    if removeFixed && block != [] {
      FilterWellFormed(block, KeepVariable(nsam), nsam);
    }
    var sorted := if kept != [] then SortBy(kept, SiteKey) else kept;
    if kept != [] {
      SortByCorrect(kept, SiteKey);
      SortedByPosition(sorted);
      forall j | 0 <= j < |sorted| ensures |sorted[j].genotypes| == nsam {
        assert sorted[j] in multiset(kept);
      }
    }
    if n % 2 != 0 && nsam > 0 {
      TrimmedFacts(sorted, nsam - 1);
    } else if n % 2 != 0 {
      assert WellFormed(sorted, 0);
      TrimmedEmpty(sorted);
    }
  }

  /** Trimming a block of empty sites leaves nothing. */
  lemma TrimmedEmpty(block: seq<SampleSite>)
    requires WellFormed(block, 0)
    ensures Trimmed(block) == []
  {
    var m := Map(block, TrimSite);
    assert forall j :: 0 <= j < |m| ==> !HasDerived(m[j]);
    FilterNone(m, HasDerived);
  }

  /**
   * Both blocks of a separated sample are sorted by position; for an odd n
   * whose genomes are the first n of the 2*|diplist| recorded, each site has
   * exactly n characters.
   */
  lemma MsSampleFacts(mutations: seq<Mutation>, gametes: seq<Gamete>, diploids: seq<Diploid>, diplist: seq<nat>,
                      n: nat, removeFixed: bool)
    ensures var rv := MsSample(mutations, gametes, diploids, diplist, n, removeFixed);
      PositionSorted(rv.neutral) && PositionSorted(rv.selected)
    ensures n % 2 != 0 && n + 1 == 2 * |diplist| ==>
      var rv := MsSample(mutations, gametes, diploids, diplist, n, removeFixed);
      WellFormed(rv.neutral, n) && WellFormed(rv.selected, n)
    ensures n % 2 == 0 ==>
      var rv := MsSample(mutations, gametes, diploids, diplist, n, removeFixed);
      WellFormed(rv.neutral, 2 * |diplist|) && WellFormed(rv.selected, 2 * |diplist|)
  {
    CollectedWellFormed(mutations, gametes, diploids, diplist, 0, SepSample([], []));
    var c := Collected(mutations, gametes, diploids, diplist, 0, SepSample([], []));
    FinishedFacts(c.neutral, 2 * |diplist|, removeFixed, n);
    FinishedFacts(c.selected, 2 * |diplist|, removeFixed, n);
  }

  /** Recording keeps every site at 2*|diplist| characters. */
  lemma {:induction false} CollectedWellFormed(mutations: seq<Mutation>, gametes: seq<Gamete>, diploids: seq<Diploid>,
                                               diplist: seq<nat>, i: nat, acc: SepSample)
    requires WellFormed(acc.neutral, 2 * |diplist|) && WellFormed(acc.selected, 2 * |diplist|)
    ensures var c := Collected(mutations, gametes, diploids, diplist, i, acc);
      WellFormed(c.neutral, 2 * |diplist|) && WellFormed(c.selected, 2 * |diplist|)
    decreases |diplist| - i
  {
    if i < |diplist| {
      var n := 2 * |diplist|;
      var d := DiploidAt(diploids, diplist[i]);
      var g1, g2 := GameteAt(gametes, d.first), GameteAt(gametes, d.second);
      Recorded2WellFormed(acc, mutations, g1, g2, i, n);
      CollectedWellFormed(mutations, gametes, diploids, diplist, i + 1, Recorded2(acc, mutations, g1, g2, i, n));
    }
  }

  /** Recording a diploid keeps every site at n characters. */
  lemma Recorded2WellFormed(acc: SepSample, mutations: seq<Mutation>, g1: Gamete, g2: Gamete, i: nat, n: nat)
    requires 2 * i + 1 < n && WellFormed(acc.neutral, n) && WellFormed(acc.selected, n)
    ensures var r := Recorded2(acc, mutations, g1, g2, i, n); WellFormed(r.neutral, n) && WellFormed(r.selected, n)
  {
    UpdatedBlockWellFormed(acc.neutral, mutations, g1.mutations, 2 * i, n);
    UpdatedBlockWellFormed(acc.selected, mutations, g1.smutations, 2 * i, n);
    var a1 := UpdatedBlock(acc.neutral, mutations, g1.mutations, 2 * i, n);
    var b1 := UpdatedBlock(acc.selected, mutations, g1.smutations, 2 * i, n);
    UpdatedBlockWellFormed(a1, mutations, g2.mutations, 2 * i + 1, n);
    UpdatedBlockWellFormed(b1, mutations, g2.smutations, 2 * i + 1, n);
  }
}

// fwdpp/sugar/demography.hpp: the deme operations on a metapopulation
// object, which also keeps the vector Ns of deme sizes.  Each wrapper calls
// the low-level operation, returns its code unchanged when it is non-zero,
// and otherwise brings Ns up to date.

module SugarDemography {
  import opened Types
  import opened MutationCounts
  import Demography

  /** The members of a metapopulation the deme operations read and write. */
  datatype Metapop = Metapop(
    mutations: seq<Mutation>,
    mcounts: seq<nat>,
    gametes: seq<Gamete>,
    diploids: seq<seq<Diploid>>,
    Ns: seq<nat>)

  /** Every deme's diploids name existing genomes. */
  predicate KeysValid(mp: Metapop)
  {
    forall d :: 0 <= d < |mp.diploids| ==> DemeKeysValid(mp.diploids[d], |mp.gametes|)
  }

  /** Ns holds the size of every deme. */
  predicate SizesCurrent(mp: Metapop)
  {
    |mp.Ns| == |mp.diploids| && forall d :: 0 <= d < |mp.Ns| ==> mp.Ns[d] == |mp.diploids[d]|
  }

  /** update_Ns: Ns is cleared and refilled with the size of each deme, in order. */
  method UpdateNs(mp: Metapop) returns (r: Metapop)
    ensures SizesCurrent(r)
    ensures r == mp.(Ns := r.Ns)
  {
    var ns: seq<nat> := [];
    var d := 0;
    while d < |mp.diploids|
      invariant 0 <= d <= |mp.diploids| && |ns| == d
      invariant forall e :: 0 <= e < d ==> ns[e] == |mp.diploids[e]|
    {
      ns := ns + [|mp.diploids[d]|];
      d := d + 1;
    }
    r := mp.(Ns := ns);
  }

  /** copy_pop: copy_deme, then update_Ns on success. */
  method CopyPop(mp: Metapop, i: nat) returns (rc: int, r: Metapop)
    requires KeysValid(mp)
    ensures rc == -1 <==> i >= |mp.diploids|
    ensures rc != -1 ==> rc == 0
    ensures rc != 0 ==> r == mp
    ensures rc == 0 ==> && r.diploids == mp.diploids + [mp.diploids[i]]
                        && r.gametes == Bumped(mp.gametes, mp.diploids[i], true)
                        && r.mcounts == ProcessGametes(r.gametes, |mp.mutations|, mp.mcounts)
                        && r.mutations == mp.mutations && SizesCurrent(r)
  {
    var mc, gs, ds;
    rc, mc, gs, ds := Demography.CopyDeme(mp.mutations, mp.mcounts, mp.gametes, mp.diploids, i);
    if rc != 0 {
      return rc, mp;
    }
    r := UpdateNs(mp.(mcounts := mc, gametes := gs, diploids := ds));
  }

  /** merge_pops: merge_demes, then update_Ns on success. */
  method MergePops(mp: Metapop, i: nat, j: nat) returns (rc: int, r: Metapop)
    ensures rc == -1 <==> i >= |mp.diploids| || j >= |mp.diploids|
    ensures rc == 1 <==> i < |mp.diploids| && j < |mp.diploids| && i == j
    ensures rc != 0 ==> r == mp
    ensures rc == 0 ==> && i != j
                        && r.diploids == Demography.Merged(mp.diploids, if i < j then i else j, if i < j then j else i)
                        && r == mp.(diploids := r.diploids, Ns := r.Ns) && SizesCurrent(r)
  {
    var ds;
    rc, ds := Demography.MergeDemes(mp.diploids, i, j);
    if rc != 0 {
      return rc, mp;
    }
    r := UpdateNs(mp.(diploids := ds));
  }

  /** remove_pop: remove_deme, then update_Ns on success. */
  method RemovePop(mp: Metapop, i: nat) returns (rc: int, r: Metapop)
    requires KeysValid(mp)
    ensures rc == -1 <==> i >= |mp.diploids|
    ensures rc != -1 ==> rc == 0
    ensures rc != 0 ==> r == mp
    ensures rc == 0 ==> && r.diploids == mp.diploids[..i] + mp.diploids[i + 1..]
                        && r.gametes == Bumped(mp.gametes, mp.diploids[i], false)
                        && r.mcounts == ProcessGametes(r.gametes, |mp.mutations|, mp.mcounts)
                        && r.mutations == mp.mutations && SizesCurrent(r)
  {
    var mc, gs, ds;
    rc, mc, gs, ds := Demography.RemoveDeme(mp.mutations, mp.mcounts, mp.gametes, mp.diploids, i);
    if rc != 0 {
      return rc, mp;
    }
    r := UpdateNs(mp.(mcounts := mc, gametes := gs, diploids := ds));
  }

  /** swap_pops: swap_demes, then the two entries of Ns are swapped instead of rebuilt. */
  method SwapPops(mp: Metapop, i: nat, j: nat) returns (rc: int, r: Metapop)
    requires |mp.Ns| == |mp.diploids|
    ensures rc == -1 <==> i >= |mp.diploids| || j >= |mp.diploids|
    ensures rc == 1 <==> i < |mp.diploids| && j < |mp.diploids| && i == j
    ensures rc != 0 ==> r == mp
    ensures rc == 0 ==> && r.diploids == mp.diploids[i := mp.diploids[j]][j := mp.diploids[i]]
                        && r.Ns == mp.Ns[i := mp.Ns[j]][j := mp.Ns[i]]
                        && r == mp.(diploids := r.diploids, Ns := r.Ns)
    ensures rc == 0 && SizesCurrent(mp) ==> SizesCurrent(r)
  {
    var ds;
    rc, ds := Demography.SwapDemes(mp.diploids, i, j);
    if rc != 0 {
      return rc, mp;
    }
    r := mp.(diploids := ds, Ns := mp.Ns[i := mp.Ns[j]][j := mp.Ns[i]]);
  }

  /** split_pop's outcome before sampling: it asserts that i is a deme, then split_deme's checks decide. */
  function SplitPopCheck(mp: Metapop, i: nat, nNew: nat): (rc: int)
    requires i < |mp.diploids|
    ensures rc == 1 <==> nNew >= |mp.diploids[i]|
    ensures rc == 0 <==> nNew < |mp.diploids[i]|
  {
    Demography.SplitDemeCheck(mp.diploids, i, nNew)
  }

  /** admix_pops' outcome before sampling: admix_demes' checks. */
  function AdmixPopsCheck(mp: Metapop, i: nat, j: nat, pi: real, nNew: nat, replacement: bool): (rc: int)
    ensures rc == Demography.AdmixDemesCheck(mp.diploids, i, j, pi, nNew, replacement)
    ensures rc == 0 ==> i < |mp.diploids| && j < |mp.diploids| && 0.0 <= pi < 1.0
  {
    Demography.AdmixDemesCheck(mp.diploids, i, j, pi, nNew, replacement)
  }
}

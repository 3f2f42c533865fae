// fwdpp/util.hpp: the generation-to-generation bookkeeping of the list-based
// population.  Mutations live in a list and carry a copy count n and a
// `checked` flag; haploid genomes refer to them by key.

module Util {
  import opened Types

  /** A mutation of the list-based population: position, copy count, the visited flag and neutrality. */
  datatype ListMutation = ListMutation(pos: real, n: nat, checked: bool, neutral: bool)

  function Unchecked(m: ListMutation): ListMutation { m.(checked := false) }

  predicate IsLost(m: ListMutation) { m.n == 0 }

  predicate IsFixed(m: ListMutation, twoN: nat) { m.n == twoN }

  /** The mutations remove_lost keeps: those with n > 0, unchecked, in their order. */
  function LostRemoved(muts: seq<ListMutation>): (r: seq<ListMutation>)
    ensures |r| <= |muts|
    ensures forall i :: 0 <= i < |r| ==> r[i].n > 0 && !r[i].checked
  {
    if muts == [] then []
    else (if IsLost(muts[0]) then [] else [Unchecked(muts[0])]) + LostRemoved(muts[1..])
  }

  /** The positions of the lost mutations, which the lookup overloads erase. */
  function LostPositions(muts: seq<ListMutation>): set<real>
  {
    set i | 0 <= i < |muts| && IsLost(muts[i]) :: muts[i].pos
  }

  /** remove_lost: erase every mutation with n == 0 and clear every flag. */
  method RemoveLost(muts: seq<ListMutation>) returns (out: seq<ListMutation>)
    ensures out == LostRemoved(muts)
  {
    out := [];
    var i := |muts|;
    while i > 0
      invariant 0 <= i <= |muts|
      invariant out == LostRemoved(muts[i..])
    {
      i := i - 1;
      assert muts[i..][1..] == muts[i + 1..];
      if muts[i].n != 0 {
        out := [Unchecked(muts[i])] + out;
      }
    }
  }

  /** The lookup overload of remove_lost: the positions of the lost mutations leave the lookup too. */
  method RemoveLostWithLookup(muts: seq<ListMutation>, lookup: set<real>) returns (out: seq<ListMutation>, lookup2: set<real>)
    ensures out == LostRemoved(muts)
    ensures lookup2 == lookup - LostPositions(muts)
  {
    out := [];
    lookup2 := lookup;
    var i := |muts|;
    while i > 0
      invariant 0 <= i <= |muts|
      invariant out == LostRemoved(muts[i..])
      invariant lookup2 == lookup - LostPositions(muts[i..])
    {
      i := i - 1;
      assert muts[i..][1..] == muts[i + 1..];
      LostPositionsStep(muts, i);
      if muts[i].n != 0 {
        out := [Unchecked(muts[i])] + out;
      } else {
        lookup2 := lookup2 - {muts[i].pos};
      }
    }
  }

  lemma LostPositionsStep(muts: seq<ListMutation>, i: int)
    requires 0 <= i < |muts|
    ensures LostPositions(muts[i..]) == (if IsLost(muts[i]) then {muts[i].pos} else {}) + LostPositions(muts[i + 1..])
  {
    var a, b := muts[i..], muts[i + 1..];
    forall x | x in LostPositions(a) ensures x in (if IsLost(muts[i]) then {muts[i].pos} else {}) + LostPositions(b) {
      var j :| 0 <= j < |a| && IsLost(a[j]) && a[j].pos == x;
      if j > 0 { assert b[j - 1] == a[j]; }
    }
    forall x | x in LostPositions(b) ensures x in LostPositions(a) {
      var j :| 0 <= j < |b| && IsLost(b[j]) && b[j].pos == x;
      assert a[j + 1] == b[j];
    }
    if IsLost(muts[i]) { assert a[0] == muts[i]; }
  }

  /** remove_lost keeps exactly the mutations with n > 0, in order, with their flags cleared. */
  lemma {:induction false} LostRemovedKeepsExtant(muts: seq<ListMutation>)
    ensures forall m :: m in LostRemoved(muts) <==> exists i :: 0 <= i < |muts| && muts[i].n > 0 && m == Unchecked(muts[i])
  {
    if muts != [] {
      LostRemovedKeepsExtant(muts[1..]);
      forall m | (exists i :: 0 <= i < |muts| && muts[i].n > 0 && m == Unchecked(muts[i]))
        ensures m in LostRemoved(muts)
      {
        var i :| 0 <= i < |muts| && muts[i].n > 0 && m == Unchecked(muts[i]);
        if i > 0 { assert muts[1..][i - 1] == muts[i]; }
      }
    }
  }

  /** The mutations remove_fixed_lost keeps: neither lost nor fixed, unchecked, in order. */
  function FixedLostRemoved(muts: seq<ListMutation>, twoN: nat): (r: seq<ListMutation>)
    ensures |r| <= |muts|
    ensures forall i :: 0 <= i < |r| ==> 0 < r[i].n != twoN && !r[i].checked
  {
    if muts == [] then []
    else (if IsLost(muts[0]) || IsFixed(muts[0], twoN) then [] else [Unchecked(muts[0])]) + FixedLostRemoved(muts[1..], twoN)
  }

  /** The fixations remove_fixed_lost records: the mutations with n == twoN, unchecked, in order. */
  function NewFixations(muts: seq<ListMutation>, twoN: nat): (r: seq<ListMutation>)
    ensures |r| <= |muts|
    ensures forall i :: 0 <= i < |r| ==> r[i].n == twoN && !r[i].checked
  {
    if muts == [] then []
    else (if IsFixed(muts[0], twoN) then [Unchecked(muts[0])] else []) + NewFixations(muts[1..], twoN)
  }

  /** The lost mutations with their flags cleared, in order. */
  function Lost(muts: seq<ListMutation>, twoN: nat): seq<ListMutation>
  {
    if muts == [] then []
    else (if IsLost(muts[0]) && !IsFixed(muts[0], twoN) then [Unchecked(muts[0])] else []) + Lost(muts[1..], twoN)
  }

  /**
   * remove_fixed_lost: every mutation with n == twoN is appended to the
   * fixations and the generation to the fixation times, and the mutations
   * with n == 0 or n == twoN are erased.
   */
  method RemoveFixedLost(muts: seq<ListMutation>, fixations: seq<ListMutation>, times: seq<nat>,
                         generation: nat, twoN: nat)
    returns (out: seq<ListMutation>, fixations2: seq<ListMutation>, times2: seq<nat>)
    ensures out == FixedLostRemoved(muts, twoN)
    ensures fixations2 == fixations + NewFixations(muts, twoN)
    ensures times2 == times + seq(|NewFixations(muts, twoN)|, _ => generation)
  {
    out, fixations2, times2 := [], fixations, times;
    ghost var fixed: seq<ListMutation> := [];
    var i := 0;
    while i < |muts|
      invariant 0 <= i <= |muts|
      invariant FixedLostRemoved(muts, twoN) == out + FixedLostRemoved(muts[i..], twoN)
      invariant NewFixations(muts, twoN) == fixed + NewFixations(muts[i..], twoN)
      invariant fixations2 == fixations + fixed
      invariant times2 == times + seq(|fixed|, _ => generation)
    {
      FixedLostStep(muts, i, twoN, out, fixed);
      var m := Unchecked(muts[i]);
      if m.n == twoN {
        assert seq(|fixed| + 1, _ => generation) == seq(|fixed|, _ => generation) + [generation];
        fixations2 := fixations2 + [m];
        times2 := times2 + [generation];
        fixed := fixed + [m];
      }
      if m.n == 0 || m.n == twoN {
      } else {
        out := out + [m];
      }
      i := i + 1;
    }
  }

  /** One pass of remove_fixed_lost's loop keeps the loop's account of what is still to come. */
  lemma FixedLostStep(muts: seq<ListMutation>, i: int, twoN: nat, out: seq<ListMutation>, fixed: seq<ListMutation>)
    requires 0 <= i < |muts|
    requires FixedLostRemoved(muts, twoN) == out + FixedLostRemoved(muts[i..], twoN)
    requires NewFixations(muts, twoN) == fixed + NewFixations(muts[i..], twoN)
    ensures var m := Unchecked(muts[i]);
      && FixedLostRemoved(muts, twoN) == (if m.n == 0 || m.n == twoN then out else out + [m]) + FixedLostRemoved(muts[i + 1..], twoN)
      && NewFixations(muts, twoN) == (if m.n == twoN then fixed + [m] else fixed) + NewFixations(muts[i + 1..], twoN)
  {
    assert muts[i..][1..] == muts[i + 1..];
    var m := Unchecked(muts[i]);
    assert out + ([m] + FixedLostRemoved(muts[i + 1..], twoN)) == out + [m] + FixedLostRemoved(muts[i + 1..], twoN);
    assert fixed + ([m] + NewFixations(muts[i + 1..], twoN)) == fixed + [m] + NewFixations(muts[i + 1..], twoN);
  }

  /** The positions of the mutations that remove_fixed_lost erases. */
  function ErasedPositions(muts: seq<ListMutation>, twoN: nat): set<real>
  {
    set i | 0 <= i < |muts| && (IsLost(muts[i]) || IsFixed(muts[i], twoN)) :: muts[i].pos
  }

  /** The lookup overload of remove_fixed_lost: the erased mutations' positions leave the lookup too. */
  method RemoveFixedLostWithLookup(muts: seq<ListMutation>, fixations: seq<ListMutation>, times: seq<nat>,
                                   lookup: set<real>, generation: nat, twoN: nat)
    returns (out: seq<ListMutation>, fixations2: seq<ListMutation>, times2: seq<nat>, lookup2: set<real>)
    ensures out == FixedLostRemoved(muts, twoN)
    ensures fixations2 == fixations + NewFixations(muts, twoN)
    ensures times2 == times + seq(|NewFixations(muts, twoN)|, _ => generation)
    ensures lookup2 == lookup - ErasedPositions(muts, twoN)
  {
    out, fixations2, times2 := RemoveFixedLost(muts, fixations, times, generation, twoN);
    lookup2 := lookup;
    var i := 0;
    while i < |muts|
      invariant 0 <= i <= |muts|
      invariant lookup2 == lookup - ErasedPositions(muts[..i], twoN)
    {
      ErasedStep(muts, i, twoN);
      if muts[i].n == 0 || muts[i].n == twoN {
        lookup2 := lookup2 - {muts[i].pos};
      }
      i := i + 1;
    }
    assert muts[..|muts|] == muts;
  }

  lemma ErasedStep(muts: seq<ListMutation>, i: int, twoN: nat)
    requires 0 <= i < |muts|
    ensures ErasedPositions(muts[..i + 1], twoN) ==
            ErasedPositions(muts[..i], twoN) + (if IsLost(muts[i]) || IsFixed(muts[i], twoN) then {muts[i].pos} else {})
  {
    var a, b := muts[..i + 1], muts[..i];
    forall x | x in ErasedPositions(a, twoN)
      ensures x in ErasedPositions(b, twoN) + (if IsLost(muts[i]) || IsFixed(muts[i], twoN) then {muts[i].pos} else {})
    {
      var j :| 0 <= j < |a| && (IsLost(a[j]) || IsFixed(a[j], twoN)) && a[j].pos == x;
      if j < i { assert b[j] == a[j]; }
    }
    forall x | x in ErasedPositions(b, twoN) ensures x in ErasedPositions(a, twoN) {
      var j :| 0 <= j < |b| && (IsLost(b[j]) || IsFixed(b[j], twoN)) && b[j].pos == x;
      assert a[j] == b[j];
    }
    if IsLost(muts[i]) || IsFixed(muts[i], twoN) { assert a[i] == muts[i]; }
  }

  /**
   * remove_fixed_lost loses no mutation: each one is kept, recorded as a
   * fixation, or lost, and appears exactly once among the three.
   */
  lemma {:induction false} FixedLostPartition(muts: seq<ListMutation>, twoN: nat)
    ensures multiset(FixedLostRemoved(muts, twoN)) + multiset(NewFixations(muts, twoN)) + multiset(Lost(muts, twoN))
            == multiset(Map(muts, Unchecked))
  {
    if muts != [] {
      FixedLostPartition(muts[1..], twoN);
      assert Map(muts, Unchecked) == [Unchecked(muts[0])] + Map(muts[1..], Unchecked);
    }
  }

  /** One fixation is recorded per mutation with n == twoN. */
  lemma {:induction false} NewFixationsAreFixed(muts: seq<ListMutation>, twoN: nat)
    ensures |NewFixations(muts, twoN)| == CountIf(muts, (m: ListMutation) => m.n == twoN)
  {
    if muts != [] {
      NewFixationsAreFixed(muts[1..], twoN);
    }
  }

  // adjust_mutation_counts

  /** One visit of the adjuster: the first visit sets n, later visits add to it. */
  function Visit(m: ListMutation, n: nat): ListMutation
  {
    if !m.checked then m.(n := n, checked := true) else m.(n := m.n + n)
  }

  /** The mutations after the adjuster has visited the keys in order. */
  function VisitAll(muts: seq<ListMutation>, keys: seq<nat>, n: nat): (r: seq<ListMutation>)
    requires forall k :: 0 <= k < |keys| ==> keys[k] < |muts|
    ensures |r| == |muts|
  {
    if keys == [] then muts
    else var k := keys[|keys| - 1];
      var before := VisitAll(muts, keys[..|keys| - 1], n);
      before[k := Visit(before[k], n)]
  }

  /** adjust_mutation_counts: visit the neutral keys, then the selected keys, of genome g. */
  method AdjustMutationCounts(muts: seq<ListMutation>, g: Gamete, n: nat) returns (r: seq<ListMutation>)
    requires forall k :: 0 <= k < |g.mutations| ==> g.mutations[k] < |muts|
    requires forall k :: 0 <= k < |g.smutations| ==> g.smutations[k] < |muts|
    ensures r == VisitAll(muts, g.mutations + g.smutations, n)
  {
    var keys := g.mutations + g.smutations;
    r := muts;
    var i := 0;
    while i < |keys|
      invariant 0 <= i <= |keys|
      invariant r == VisitAll(muts, keys[..i], n)
    {
      assert keys[..i + 1][..i] == keys[..i];
      r := r[keys[i] := Visit(r[keys[i]], n)];
      i := i + 1;
    }
    assert keys[..|keys|] == keys;
  }

  /**
   * After the visits, a mutation referred to c > 0 times has n equal to c
   * copies of n, plus its old n when it was already checked, and is
   * checked; a mutation not referred to is unchanged.
   */
  lemma {:induction false} VisitAllCounts(muts: seq<ListMutation>, keys: seq<nat>, n: nat, j: nat)
    requires forall k :: 0 <= k < |keys| ==> keys[k] < |muts|
    requires j < |muts|
    ensures var c := Count(keys, j);
      var m := VisitAll(muts, keys, n)[j];
      && m.pos == muts[j].pos && m.neutral == muts[j].neutral
      && (c == 0 ==> m == muts[j])
      && (c > 0 ==> m.checked && m.n == (if muts[j].checked then muts[j].n else 0) + c * n)
  {
    if keys != [] {
      var init, last := keys[..|keys| - 1], keys[|keys| - 1];
      VisitAllCounts(muts, init, n, j);
      assert keys == init + [last];
      CountSnoc(init, last, j);
      var c0 := Count(init, j);
      var before := VisitAll(muts, init, n);
      assert VisitAll(muts, keys, n) == before[last := Visit(before[last], n)];
      if last == j {
        MulStep(c0, n);
      } else {
        assert VisitAll(muts, keys, n)[j] == before[j];
      }
    }
  }

  lemma MulStep(c: nat, n: nat)
    ensures (c + 1) * n == c * n + n
  {
  }

  lemma CountSnoc(s: seq<nat>, x: nat, j: nat)
    ensures Count(s + [x], j) == Count(s, j) + (if x == j then 1 else 0)
  {
    assert multiset(s + [x]) == multiset(s) + multiset{x};
  }

  // update_gamete_list

  /** A genome after the removal policy: the keys the policy matches leave both containers. */
  function KeysRemoved(g: Gamete, mrp: nat -> bool): Gamete
  {
    g.(mutations := Filter(g.mutations, k => !mrp(k)), smutations := Filter(g.smutations, k => !mrp(k)))
  }

  /** The genomes update_gamete_list keeps, with their keys removed by the policy. */
  function GametesUpdated(gametes: seq<Gamete>, mrp: nat -> bool): (r: seq<Gamete>)
    ensures |r| <= |gametes|
    ensures forall i :: 0 <= i < |r| ==> r[i].n > 0
  {
    if gametes == [] then []
    else (if gametes[0].n == 0 then [] else [KeysRemoved(gametes[0], mrp)]) + GametesUpdated(gametes[1..], mrp)
  }

  /** update_gamete_list: drop the genomes with n == 0, then the matched keys of every genome left. */
  method UpdateGameteList(gametes: seq<Gamete>, twoN: nat, mrp: nat -> bool) returns (r: seq<Gamete>)
    ensures r == GametesUpdated(gametes, mrp)
  {
    var kept := DropEmptyGametes(gametes);
    r := RemoveMatchedKeys(kept, mrp);
    GametesUpdatedIsFilterMap(gametes, mrp);
  }

  /** The erase/remove_if pass over the genomes. */
  method DropEmptyGametes(gametes: seq<Gamete>) returns (kept: seq<Gamete>)
    ensures kept == Filter(gametes, (g: Gamete) => g.n != 0)
  {
    kept := [];
    var i := 0;
    while i < |gametes|
      invariant 0 <= i <= |gametes|
      invariant kept == Filter(gametes[..i], (g: Gamete) => g.n != 0)
    {
      assert gametes[..i + 1] == gametes[..i] + [gametes[i]];
      FilterConcat(gametes[..i], [gametes[i]], (g: Gamete) => g.n != 0);
      if gametes[i].n != 0 {
        kept := kept + [gametes[i]];
      }
      i := i + 1;
    }
    assert gametes[..|gametes|] == gametes;
  }

  /** The for_each pass: each genome loses the keys the policy matches. */
  method RemoveMatchedKeys(kept: seq<Gamete>, mrp: nat -> bool) returns (r: seq<Gamete>)
    ensures r == Map(kept, g => KeysRemoved(g, mrp))
  {
    r := [];
    var j := 0;
    while j < |kept|
      invariant 0 <= j <= |kept|
      invariant r == Map(kept[..j], g => KeysRemoved(g, mrp))
    {
      r := r + [KeysRemoved(kept[j], mrp)];
      j := j + 1;
    }
    assert kept[..|kept|] == kept;
  }

  lemma {:induction false} GametesUpdatedIsFilterMap(gametes: seq<Gamete>, mrp: nat -> bool)
    ensures GametesUpdated(gametes, mrp) == Map(Filter(gametes, (g: Gamete) => g.n != 0), g => KeysRemoved(g, mrp))
  {
    if gametes != [] {
      GametesUpdatedIsFilterMap(gametes[1..], mrp);
    }
  }

  /** No key the policy matches survives, and every surviving key was in the genome. */
  lemma KeysRemovedExactly(g: Gamete, mrp: nat -> bool, k: nat)
    ensures k in KeysRemoved(g, mrp).mutations <==> k in g.mutations && !mrp(k)
    ensures k in KeysRemoved(g, mrp).smutations <==> k in g.smutations && !mrp(k)
  {
    FilterMembers(g.mutations, k => !mrp(k));
    FilterMembers(g.smutations, k => !mrp(k));
  }
}

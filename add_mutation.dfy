// fwdpp/sugar/add_mutation.hpp: putting a mutation (or a set of existing
// mutations) into chosen haploid genomes of chosen diploids.  The genomes
// named by the chosen diploid slots are collected by genome index; each such
// genome is copied, the keys are inserted at their position's upper bound, the
// copy is stored in a recycled or new genome slot, and the collected diploid
// slots are pointed at it.  Genome counts are 32-bit unsigned values.
//
// The single-deme population is modelled in full.  For the metapopulation
// and multi-locus overloads the argument checks are modelled; their
// insertion is the same add_mutation_details over a different layout of the
// diploids.

module AddMutation {
  import opened Types
  import opened Keys
  import opened MutationCounts
  import SimRecycling

  /** One genome slot of a diploid: its first or its second haploid genome. */
  datatype Slot = Slot(ind: nat, second: bool)

  /** The genome index a diploid slot names. */
  function KeyAt(diploids: seq<Diploid>, s: Slot): nat
    requires s.ind < |diploids|
  {
    if s.second then diploids[s.ind].second else diploids[s.ind].first
  }

  /** The diploids with slot s pointed at genome k (`*i = new_gamete_key`). */
  function SetSlot(diploids: seq<Diploid>, s: Slot, k: nat): (r: seq<Diploid>)
    requires s.ind < |diploids|
    ensures |r| == |diploids|
    ensures forall t: Slot :: t.ind < |diploids| ==> KeyAt(r, t) == if t == s then k else KeyAt(diploids, t)
  {
    var d := diploids[s.ind];
    diploids[s.ind := if s.second then d.(second := k) else d.(first := k)]
  }

  /** n -= size on a 32-bit unsigned genome count. */
  function SubCount(n: nat, size: nat): nat
  {
    (n - size % UINT_MODULUS) % UINT_MODULUS
  }

  /** n += size on a 32-bit unsigned genome count. */
  function AddCount(n: nat, size: nat): nat
  {
    (n + size % UINT_MODULUS) % UINT_MODULUS
  }

  /** Without wrap-around the 32-bit updates are plain subtraction and addition. */
  lemma CountsNoWrap(n: nat, size: nat)
    requires size <= n < UINT_MODULUS
    ensures SubCount(n, size) == n - size && AddCount(0, size) == size
  {
    assert size % UINT_MODULUS == size;
    assert (n - size) % UINT_MODULUS == n - size;
  }

  /** Total number of genome copies: the sum of every genome's n. */
  function Total(gametes: seq<Gamete>): nat
  {
    if gametes == [] then 0 else Total(gametes[..|gametes| - 1]) + gametes[|gametes| - 1].n
  }

  lemma {:induction false} TotalUpdate(gametes: seq<Gamete>, i: nat, g: Gamete)
    requires i < |gametes|
    ensures Total(gametes[i := g]) == Total(gametes) - gametes[i].n + g.n
    decreases |gametes|
  {
    var last := |gametes| - 1;
    if i < last {
      assert gametes[i := g][..last] == gametes[..last][i := g];
      TotalUpdate(gametes[..last], i, g);
    } else {
      assert gametes[i := g][..last] == gametes[..last];
    }
  }

  lemma TotalAppend(gametes: seq<Gamete>, g: Gamete)
    ensures Total(gametes + [g]) == Total(gametes) + g.n
  {
    assert (gametes + [g])[..|gametes|] == gametes;
  }

  // ---------------------------------------------------------------- get_mut_index

  /** std::find over the mutations with operator==: the first equal one, or the end. */
  function FindMutation(mutations: seq<Mutation>, m: Mutation): (i: nat)
    ensures i <= |mutations|
    ensures i < |mutations| ==> mutations[i] == m
    ensures forall j :: 0 <= j < i ==> mutations[j] != m
  {
    if mutations == [] then 0 else if mutations[0] == m then 0 else 1 + FindMutation(mutations[1..], m)
  }

  /**
   * get_mut_index: an equal mutation already present is reused as is;
   * otherwise the new mutation overwrites the first mutation of count zero,
   * or is appended with a new count of zero.
   */
  method GetMutIndex(mutations: seq<Mutation>, mcounts: seq<nat>, m: Mutation)
    returns (mutations2: seq<Mutation>, mcounts2: seq<nat>, idx: nat)
    requires |mcounts| == |mutations|
    ensures |mcounts2| == |mutations2| >= |mutations|
    ensures idx < |mutations2| && mutations2[idx] == m
    ensures m in mutations ==> idx == FindMutation(mutations, m) && mutations2 == mutations && mcounts2 == mcounts
    ensures m !in mutations && 0 in mcounts ==>
      idx == FindKey(mcounts, 0) && mcounts[idx] == 0 && mutations2 == mutations[idx := m] && mcounts2 == mcounts
    ensures m !in mutations && 0 !in mcounts ==>
      idx == |mutations| && mutations2 == mutations + [m] && mcounts2 == mcounts + [0]
    ensures mcounts2[idx] == if m in mutations then mcounts[idx] else 0
  {
    var found := FindMutation(mutations, m);
    if found < |mutations| {
      return mutations, mcounts, found;
    }
    var extinct := FindKey(mcounts, 0);
    if extinct < |mcounts| {
      mutations2, mcounts2, idx := mutations[extinct := m], mcounts, extinct;
    } else {
      mutations2, mcounts2, idx := mutations + [m], mcounts + [0], |mcounts|;
    }
  }

  // ---------------------------------------------------------------- collect_gametes

  /** The slots a clist value selects: 0 the first genome, 1 the second, 2 both. */
  function Chosen(ind: nat, c: int): seq<Slot>
  {
    (if c == 0 || c == 2 then [Slot(ind, false)] else []) + (if c > 0 then [Slot(ind, true)] else [])
  }

  /** All selected slots, individual by individual. */
  function Selected(indlist: seq<nat>, clist: seq<int>): seq<Slot>
    requires |indlist| == |clist|
  {
    if indlist == [] then []
    else
      var i := |indlist| - 1;
      Selected(indlist[..i], clist[..i]) + Chosen(indlist[i], clist[i])
  }

  /** Genome copies a clist value asks for. */
  function Copies2(c: int): nat
  {
    if c == 2 then 2 else if c == 0 || c == 1 then 1 else 0
  }

  /** The number of selected slots is the number of copies clist asks for: 1 per 0 or 1, 2 per 2. */
  lemma {:induction false} SelectedLength(indlist: seq<nat>, clist: seq<int>)
    requires |indlist| == |clist|
    requires forall i :: 0 <= i < |clist| ==> 0 <= clist[i] <= 2
    ensures |Selected(indlist, clist)| == Sum(Map(clist, Copies2))
    decreases |indlist|
  {
    if indlist != [] {
      var i := |indlist| - 1;
      SelectedLength(indlist[..i], clist[..i]);
      assert clist == clist[..i] + [clist[i]];
      assert Map(clist, Copies2) == Map(clist[..i], Copies2) + [Copies2(clist[i])];
      SumConcat(Map(clist[..i], Copies2), [Copies2(clist[i])]);
    }
  }

  /** Slot s is individual i's slot selected by clist value c exactly as that value says. */
  lemma ChosenSlots(ind: nat, c: int)
    ensures Slot(ind, false) in Chosen(ind, c) <==> c == 0 || c == 2
    ensures Slot(ind, true) in Chosen(ind, c) <==> c > 0
    ensures forall s :: s in Chosen(ind, c) ==> s.ind == ind
  {
  }

  /** Every selected slot belongs to a listed individual, and every listed individual's chosen slots are selected. */
  lemma SelectedSlots(indlist: seq<nat>, clist: seq<int>)
    requires |indlist| == |clist|
    ensures forall s :: s in Selected(indlist, clist) ==> s.ind in indlist
    ensures forall i :: 0 <= i < |indlist| ==> forall s :: s in Chosen(indlist[i], clist[i]) ==> s in Selected(indlist, clist)
  {
    SelectedListed(indlist, clist);
    ChosenSelected(indlist, clist);
  }

  /** Every selected slot belongs to a listed individual. */
  lemma {:induction false} SelectedListed(indlist: seq<nat>, clist: seq<int>)
    requires |indlist| == |clist|
    ensures forall s :: s in Selected(indlist, clist) ==> s.ind in indlist
    decreases |indlist|
  {
    if indlist != [] {
      var m := |indlist| - 1;
      SelectedListed(indlist[..m], clist[..m]);
      forall s | s in Selected(indlist, clist) ensures s.ind in indlist {
        if s in Selected(indlist[..m], clist[..m]) {
          assert s.ind in indlist[..m];
        } else {
          assert s in Chosen(indlist[m], clist[m]);
        }
      }
    }
  }

  /** Every listed individual's chosen slots are selected. */
  lemma {:induction false} ChosenSelected(indlist: seq<nat>, clist: seq<int>)
    requires |indlist| == |clist|
    ensures forall i :: 0 <= i < |indlist| ==> forall s :: s in Chosen(indlist[i], clist[i]) ==> s in Selected(indlist, clist)
    decreases |indlist|
  {
    if indlist != [] {
      var m := |indlist| - 1;
      ChosenSelected(indlist[..m], clist[..m]);
      forall i, s | 0 <= i < |indlist| && s in Chosen(indlist[i], clist[i]) ensures s in Selected(indlist, clist) {
        if i < m {
          assert indlist[..m][i] == indlist[i] && clist[..m][i] == clist[i];
        }
      }
    }
  }

  /** A slot-has-genome-k test. */
  function HasKey(diploids: seq<Diploid>, k: nat): Slot -> bool
  {
    (s: Slot) => s.ind < |diploids| && KeyAt(diploids, s) == k
  }

  /** The selected slots that name genome k, in selection order: one entry of the map collect_gametes builds. */
  function Group(diploids: seq<Diploid>, sel: seq<Slot>, k: nat): seq<Slot>
  {
    Filter(sel, HasKey(diploids, k))
  }

  /** The map built so far holds exactly the non-empty groups of the slots pushed so far. */
  ghost predicate Collected(diploids: seq<Diploid>, sel: seq<Slot>, gams: map<nat, seq<Slot>>)
  {
    && (forall k :: k in gams ==> gams[k] == Group(diploids, sel, k) && gams[k] != [])
    && (forall k :: k !in gams ==> Group(diploids, sel, k) == [])
  }

  /** gams[key(s)].push_back(s). */
  method PushSlot(diploids: seq<Diploid>, ghost sel: seq<Slot>, gams: map<nat, seq<Slot>>, s: Slot)
    returns (gams2: map<nat, seq<Slot>>)
    requires s.ind < |diploids| && Collected(diploids, sel, gams)
    ensures Collected(diploids, sel + [s], gams2)
  {
    var k := KeyAt(diploids, s);
    gams2 := gams[k := (if k in gams then gams[k] else []) + [s]];
    forall j ensures Group(diploids, sel + [s], j) == Group(diploids, sel, j) + (if j == k then [s] else []) {
      FilterConcat(sel, [s], HasKey(diploids, j));
    }
  }

  /**
   * collect_gametes (single deme): for each listed individual, its first
   * genome's slot when clist is 0 or 2 and its second genome's slot when clist
   * is positive, grouped by the genome index they hold.
   */
  method CollectGametes(diploids: seq<Diploid>, indlist: seq<nat>, clist: seq<int>)
    returns (gams: map<nat, seq<Slot>>)
    requires |indlist| == |clist|
    requires forall i :: 0 <= i < |indlist| ==> indlist[i] < |diploids|
    ensures Collected(diploids, Selected(indlist, clist), gams)
  {
    gams := map[];
    var i := 0;
    while i < |indlist|
      invariant 0 <= i <= |indlist|
      invariant Collected(diploids, Selected(indlist[..i], clist[..i]), gams)
    {
      assert indlist[..i + 1][..i] == indlist[..i] && clist[..i + 1][..i] == clist[..i];
      ghost var sel := Selected(indlist[..i], clist[..i]);
      var c := clist[i];
      if c == 0 || c == 2 {
        gams := PushSlot(diploids, sel, gams, Slot(indlist[i], false));
        sel := sel + [Slot(indlist[i], false)];
      }
      if c > 0 {
        gams := PushSlot(diploids, sel, gams, Slot(indlist[i], true));
        sel := sel + [Slot(indlist[i], true)];
      }
      assert sel == Selected(indlist[..i + 1], clist[..i + 1]);
      i := i + 1;
    }
    assert indlist[..i] == indlist && clist[..i] == clist;
  }

  /** Group sizes summed over a list of genome indexes. */
  function GroupSizes(diploids: seq<Diploid>, sel: seq<Slot>, order: seq<nat>): nat
  {
    if order == [] then 0
    else GroupSizes(diploids, sel, order[..|order| - 1]) + |Group(diploids, sel, order[|order| - 1])|
  }

  lemma {:induction false} GroupSizesSnoc(diploids: seq<Diploid>, sel: seq<Slot>, s: Slot, order: seq<nat>)
    requires s.ind < |diploids|
    ensures GroupSizes(diploids, sel + [s], order) == GroupSizes(diploids, sel, order) + Count(order, KeyAt(diploids, s))
    decreases |order|
  {
    if order != [] {
      var last := |order| - 1;
      var init, k := order[..last], order[last];
      GroupSizesSnoc(diploids, sel, s, init);
      FilterConcat(sel, [s], HasKey(diploids, k));
      assert |Group(diploids, sel + [s], k)| == |Group(diploids, sel, k)| + if KeyAt(diploids, s) == k then 1 else 0;
      assert order == init + [k];
      CountSnoc(init, k, KeyAt(diploids, s));
    }
  }

  /**
   * Every selected slot lands in exactly one group when the listed genome
   * indexes are distinct and cover every slot's genome: the groups' sizes
   * add up to the number of selected slots.
   */
  lemma {:induction false} GroupSizesCover(diploids: seq<Diploid>, sel: seq<Slot>, order: seq<nat>)
    requires Distinct(order)
    requires forall s :: s in sel ==> s.ind < |diploids| && KeyAt(diploids, s) in order
    ensures GroupSizes(diploids, sel, order) == |sel|
    decreases |sel|
  {
    if sel == [] {
      GroupSizesEmpty(diploids, order);
    } else {
      var last := |sel| - 1;
      var s := sel[last];
      assert sel == sel[..last] + [s];
      GroupSizesCover(diploids, sel[..last], order);
      GroupSizesSnoc(diploids, sel[..last], s, order);
      DistinctCount(order, KeyAt(diploids, s));
    }
  }

  lemma {:induction false} GroupSizesEmpty(diploids: seq<Diploid>, order: seq<nat>)
    ensures GroupSizes(diploids, [], order) == 0
    decreases |order|
  {
    if order != [] {
      GroupSizesEmpty(diploids, order[..|order| - 1]);
    }
  }

  // ---------------------------------------------------------------- add_mutation_details

  /**
   * One insertion of add_mutation_details: key m goes into the neutral or
   * the selected container by its mutation's flag, at the upper bound of its
   * position.
   */
  function InsertKey(mutations: seq<Mutation>, p: (seq<nat>, seq<nat>), m: nat): (r: (seq<nat>, seq<nat>))
    requires KeysIn(mutations, p.0) && KeysIn(mutations, p.1) && m < |mutations|
    ensures KeysIn(mutations, r.0) && KeysIn(mutations, r.1)
  {
    var pos := mutations[m].pos;
    if mutations[m].neutral then
      var k := KeyUpperBound(mutations, p.0, pos);
      (p.0[..k] + [m] + p.0[k..], p.1)
    else
      var k := KeyUpperBound(mutations, p.1, pos);
      (p.0, p.1[..k] + [m] + p.1[k..])
  }

  /** The genome containers after the keys are inserted one by one. */
  function WithKeys(mutations: seq<Mutation>, a: seq<nat>, b: seq<nat>, mindexes: seq<nat>): (r: (seq<nat>, seq<nat>))
    requires KeysIn(mutations, a) && KeysIn(mutations, b) && KeysIn(mutations, mindexes)
    ensures KeysIn(mutations, r.0) && KeysIn(mutations, r.1)
  {
    if mindexes == [] then (a, b)
    else
      var last := |mindexes| - 1;
      InsertKey(mutations, WithKeys(mutations, a, b, mindexes[..last]), mindexes[last])
  }

  lemma WithKeysSnoc(mutations: seq<Mutation>, a: seq<nat>, b: seq<nat>, mindexes: seq<nat>, m: nat)
    requires KeysIn(mutations, a) && KeysIn(mutations, b) && KeysIn(mutations, mindexes) && m < |mutations|
    ensures WithKeys(mutations, a, b, mindexes + [m]) == InsertKey(mutations, WithKeys(mutations, a, b, mindexes), m)
  {
    assert (mindexes + [m])[..|mindexes|] == mindexes;
  }

  /** An insertion keeps position-sorted containers sorted. */
  lemma InsertKeyKeepsSorted(mutations: seq<Mutation>, p: (seq<nat>, seq<nat>), m: nat)
    requires KeysSorted(mutations, p.0) && KeysSorted(mutations, p.1) && m < |mutations|
    ensures var r := InsertKey(mutations, p, m); KeysSorted(mutations, r.0) && KeysSorted(mutations, r.1)
  {
    if mutations[m].neutral {
      InsertKeySorted(mutations, p.0, m);
    } else {
      InsertKeySorted(mutations, p.1, m);
    }
  }

  /** Inserting keys at their upper bounds keeps position-sorted containers sorted. */
  lemma {:induction false} WithKeysSorted(mutations: seq<Mutation>, a: seq<nat>, b: seq<nat>, mindexes: seq<nat>)
    requires KeysSorted(mutations, a) && KeysSorted(mutations, b) && KeysIn(mutations, mindexes)
    ensures var r := WithKeys(mutations, a, b, mindexes); KeysSorted(mutations, r.0) && KeysSorted(mutations, r.1)
    decreases |mindexes|
  {
    if mindexes != [] {
      var last := |mindexes| - 1;
      WithKeysSorted(mutations, a, b, mindexes[..last]);
      InsertKeyKeepsSorted(mutations, WithKeys(mutations, a, b, mindexes[..last]), mindexes[last]);
    }
  }

  /** Whether key m names a neutral mutation. */
  function IsNeutral(mutations: seq<Mutation>): nat -> bool
  {
    (m: nat) => m < |mutations| && mutations[m].neutral
  }

  /** Splicing a key into a sequence adds it to the sequence's multiset. */
  lemma SpliceMultiset(s: seq<nat>, k: nat, m: nat)
    requires k <= |s|
    ensures multiset(s[..k] + [m] + s[k..]) == multiset(s) + multiset{m}
  {
    assert s == s[..k] + s[k..];
  }

  /** One insertion adds the key to the container of its class and leaves the other as it was. */
  lemma InsertKeyContents(mutations: seq<Mutation>, p: (seq<nat>, seq<nat>), m: nat)
    requires KeysIn(mutations, p.0) && KeysIn(mutations, p.1) && m < |mutations|
    ensures var r := InsertKey(mutations, p, m);
      if mutations[m].neutral then multiset(r.0) == multiset(p.0) + multiset{m} && r.1 == p.1
      else r.0 == p.0 && multiset(r.1) == multiset(p.1) + multiset{m}
  {
    if mutations[m].neutral {
      SpliceMultiset(p.0, KeyUpperBound(mutations, p.0, mutations[m].pos), m);
    } else {
      SpliceMultiset(p.1, KeyUpperBound(mutations, p.1, mutations[m].pos), m);
    }
  }

  /** Appending a key adds it to exactly one of the two classes. */
  lemma FilterSnocClasses(mutations: seq<Mutation>, init: seq<nat>, m: nat)
    requires m < |mutations|
    ensures mutations[m].neutral ==>
      && Filter(init + [m], IsNeutral(mutations)) == Filter(init, IsNeutral(mutations)) + [m]
      && Filter(init + [m], Not(IsNeutral(mutations))) == Filter(init, Not(IsNeutral(mutations)))
    ensures !mutations[m].neutral ==>
      && Filter(init + [m], IsNeutral(mutations)) == Filter(init, IsNeutral(mutations))
      && Filter(init + [m], Not(IsNeutral(mutations))) == Filter(init, Not(IsNeutral(mutations))) + [m]
  {
    FilterConcat(init, [m], IsNeutral(mutations));
    FilterConcat(init, [m], Not(IsNeutral(mutations)));
    assert Filter([m], IsNeutral(mutations)) == if mutations[m].neutral then [m] else [];
    assert Filter([m], Not(IsNeutral(mutations))) == if mutations[m].neutral then [] else [m];
  }

  /** The neutral keys among ms joined a and the selected ones joined b. */
  ghost predicate KeysAdded(mutations: seq<Mutation>, a: seq<nat>, b: seq<nat>, ms: seq<nat>, r: (seq<nat>, seq<nat>))
  {
    && multiset(r.0) == multiset(a) + multiset(Filter(ms, IsNeutral(mutations)))
    && multiset(r.1) == multiset(b) + multiset(Filter(ms, Not(IsNeutral(mutations))))
  }

  /** The neutral keys join the first container and the selected keys the second; nothing else changes. */
  lemma {:induction false} WithKeysContents(mutations: seq<Mutation>, a: seq<nat>, b: seq<nat>, mindexes: seq<nat>)
    requires KeysIn(mutations, a) && KeysIn(mutations, b) && KeysIn(mutations, mindexes)
    ensures KeysAdded(mutations, a, b, mindexes, WithKeys(mutations, a, b, mindexes))
    decreases |mindexes|
  {
    if mindexes != [] {
      var last := |mindexes| - 1;
      var init := mindexes[..last];
      assert mindexes == init + [mindexes[last]];
      WithKeysContents(mutations, a, b, init);
      WithKeysContentsStep(mutations, a, b, init, mindexes[last]);
    }
  }

  lemma WithKeysContentsStep(mutations: seq<Mutation>, a: seq<nat>, b: seq<nat>, init: seq<nat>, m: nat)
    requires KeysIn(mutations, a) && KeysIn(mutations, b) && KeysIn(mutations, init) && m < |mutations|
    requires KeysIn(mutations, init + [m])
    requires KeysAdded(mutations, a, b, init, WithKeys(mutations, a, b, init))
    ensures KeysAdded(mutations, a, b, init + [m], WithKeys(mutations, a, b, init + [m]))
  {
    var p := WithKeys(mutations, a, b, init);
    var r := WithKeys(mutations, a, b, init + [m]);
    WithKeysSnoc(mutations, a, b, init, m);
    InsertKeyContents(mutations, p, m);
    FilterSnocClasses(mutations, init, m);
    var yes, no := Filter(init, IsNeutral(mutations)), Filter(init, Not(IsNeutral(mutations)));
    if mutations[m].neutral {
      JoinedOne(r.0, p.0, a, yes, m);
    } else {
      JoinedOne(r.1, p.1, b, no, m);
    }
  }

  /** A container that held base plus ys and took m holds base plus ys with m appended. */
  lemma JoinedOne(rx: seq<nat>, x: seq<nat>, base: seq<nat>, ys: seq<nat>, m: nat)
    requires multiset(rx) == multiset(x) + multiset{m}
    requires multiset(x) == multiset(base) + multiset(ys)
    ensures multiset(rx) == multiset(base) + multiset(ys + [m])
  {
    assert multiset(ys + [m]) == multiset(ys) + multiset{m};
  }

  lemma CountSnoc(s: seq<nat>, x: nat, j: nat)
    ensures Count(s + [x], j) == Count(s, j) + (if x == j then 1 else 0)
  {
    assert multiset(s + [x]) == multiset(s) + multiset{x};
  }

  /** The count update of one insertion keeps "each count rose by its key's occurrences times size". */
  lemma CountsStep(mcounts: seq<nat>, mc: seq<nat>, ms: seq<nat>, m: nat, size: nat)
    requires |mc| == |mcounts| && m < |mc|
    requires forall j :: 0 <= j < |mcounts| ==> mc[j] == mcounts[j] + Count(ms, j) * size
    ensures forall j :: 0 <= j < |mcounts| ==> mc[m := mc[m] + size][j] == mcounts[j] + Count(ms + [m], j) * size
  {
    forall j | 0 <= j < |mcounts| ensures mc[m := mc[m] + size][j] == mcounts[j] + Count(ms + [m], j) * size {
      CountSnoc(ms, m, j);
      if j == m {
        assert (Count(ms, j) + 1) * size == Count(ms, j) * size + size;
      }
    }
  }

  /**
   * The inner loop of add_mutation_details for one genome: each key goes
   * into the copy of the genome's neutral or selected container, and its
   * count rises by the number of slots being changed.
   */
  method AddKeys(mutations: seq<Mutation>, mcounts: seq<nat>, a: seq<nat>, b: seq<nat>, mindexes: seq<nat>, size: nat)
    returns (a2: seq<nat>, b2: seq<nat>, mcounts2: seq<nat>)
    requires KeysIn(mutations, a) && KeysIn(mutations, b) && KeysIn(mutations, mindexes)
    requires forall j :: 0 <= j < |mindexes| ==> mindexes[j] < |mcounts|
    ensures (a2, b2) == WithKeys(mutations, a, b, mindexes)
    ensures |mcounts2| == |mcounts|
    ensures forall j :: 0 <= j < |mcounts| ==> mcounts2[j] == mcounts[j] + Count(mindexes, j) * size
  {
    a2, b2, mcounts2 := a, b, mcounts;
    var i := 0;
    while i < |mindexes|
      invariant 0 <= i <= |mindexes| && |mcounts2| == |mcounts|
      invariant (a2, b2) == WithKeys(mutations, a, b, mindexes[..i])
      invariant forall j :: 0 <= j < |mcounts| ==> mcounts2[j] == mcounts[j] + Count(mindexes[..i], j) * size
    {
      var m := mindexes[i];
      assert mindexes[..i + 1] == mindexes[..i] + [m];
      WithKeysSnoc(mutations, a, b, mindexes[..i], m);
      a2, b2 := InsertKey(mutations, (a2, b2), m).0, InsertKey(mutations, (a2, b2), m).1;
      CountsStep(mcounts, mcounts2, mindexes[..i], m, size);
      mcounts2 := mcounts2[m := mcounts2[m] + size];
      i := i + 1;
    }
    assert mindexes[..i] == mindexes;
  }

  /** The slots in s pointed at genome k, one by one. */
  method SetSlots(diploids: seq<Diploid>, slots: seq<Slot>, k: nat) returns (r: seq<Diploid>)
    requires forall s :: s in slots ==> s.ind < |diploids|
    ensures |r| == |diploids|
    ensures forall t: Slot :: t.ind < |diploids| ==> KeyAt(r, t) == if t in slots then k else KeyAt(diploids, t)
  {
    r := diploids;
    var i := 0;
    while i < |slots|
      invariant 0 <= i <= |slots| && |r| == |diploids|
      invariant forall t: Slot :: t.ind < |diploids| ==> KeyAt(r, t) == if t in slots[..i] then k else KeyAt(diploids, t)
    {
      assert slots[..i + 1] == slots[..i] + [slots[i]];
      r := SetSlot(r, slots[i], k);
      i := i + 1;
    }
    assert slots[..i] == slots;
  }

  /** The population's invariant on diploids: every slot names an existing genome, and that genome is extant. */
  predicate DiploidsValid(gametes: seq<Gamete>, diploids: seq<Diploid>)
  {
    forall i :: 0 <= i < |diploids| ==>
      && diploids[i].first < |gametes| && gametes[diploids[i].first].n > 0
      && diploids[i].second < |gametes| && gametes[diploids[i].second].n > 0
  }

  /** The map's contents and its iteration order are what collect_gametes produced from these diploids. */
  ghost predicate GroupsFrom(gametes: seq<Gamete>, diploids: seq<Diploid>, gams: map<nat, seq<Slot>>, order: seq<nat>)
  {
    && Distinct(order)
    && (forall k :: k in gams <==> k in order)
    && (forall u :: 0 <= u < |order| ==> order[u] in gams)
    && (forall k :: k in gams ==> k < |gametes| && gametes[k].n > 0)
    && (forall k, s :: k in gams && s in gams[k] ==> s.ind < |diploids| && KeyAt(diploids, s) == k)
  }

  /** The collected genomes' keys index the mutation vector. */
  ghost predicate GroupKeysIn(mutations: seq<Mutation>, gametes: seq<Gamete>, gams: map<nat, seq<Slot>>)
  {
    forall k :: k in gams ==> k < |gametes| && KeysIn(mutations, gametes[k].mutations) && KeysIn(mutations, gametes[k].smutations)
  }

  /** Sizes of the groups listed in order. */
  function Sizes(gams: map<nat, seq<Slot>>, order: seq<nat>): nat
    requires forall u :: 0 <= u < |order| ==> order[u] in gams
  {
    if order == [] then 0 else Sizes(gams, order[..|order| - 1]) + |gams[order[|order| - 1]]|
  }

  /** No count wraps: every collected genome has at least as many copies as slots are moved off it. */
  ghost predicate NoWrap(gametes: seq<Gamete>, gams: map<nat, seq<Slot>>)
  {
    forall k :: k in gams ==> k < |gametes| && |gams[k]| <= gametes[k].n < UINT_MODULUS
  }

  /** The state between two groups of add_mutation_details. */
  datatype State = State(mcounts: seq<nat>, gametes: seq<Gamete>, diploids: seq<Diploid>, queue: seq<nat>)

  /** After t groups every key's count rose by its occurrences times the slots changed so far. */
  ghost predicate CountsDone(mcounts: seq<nat>, mindexes: seq<nat>, gams: map<nat, seq<Slot>>, order: seq<nat>, t: nat, mc: seq<nat>)
    requires t <= |order| && forall u :: 0 <= u < |order| ==> order[u] in gams
  {
    && |mc| == |mcounts|
    && forall j :: 0 <= j < |mcounts| ==> mc[j] == mcounts[j] + Count(mindexes, j) * Sizes(gams, order[..t])
  }

  /**
   * The genomes the first t groups moved to are distinct, are neither
   * collected genomes nor extinct-at-start genomes still queued, and are
   * either extinct at the start or appended; the queue holds, in ascending
   * order, the extinct genomes not used yet.
   */
  ghost predicate DestsDone(gametes: seq<Gamete>, order: seq<nat>, t: nat, size: nat, queue: seq<nat>, dest: seq<nat>)
  {
    && |dest| == t && Distinct(dest) && size >= |gametes|
    && (forall u :: 0 <= u < t ==> dest[u] < size && dest[u] !in order)
    && (forall u :: 0 <= u < t && dest[u] < |gametes| ==> gametes[dest[u]].n == 0)
    && (forall i :: |gametes| <= i < size ==> i in dest)
    && Ascending(queue)
    && (forall q :: q in queue ==> q < |gametes| && gametes[q].n == 0 && q !in dest)
  }

  /** The genome a group of size slots on genome g moves to: g with the keys inserted, one copy per slot. */
  function Moved(mutations: seq<Mutation>, g: Gamete, mindexes: seq<nat>, size: nat): (r: Gamete)
    requires KeysIn(mutations, g.mutations) && KeysIn(mutations, g.smutations) && KeysIn(mutations, mindexes)
    ensures size < UINT_MODULUS ==> r.n == size
  {
    var w := WithKeys(mutations, g.mutations, g.smutations, mindexes);
    Gamete(AddCount(0, size), w.0, w.1)
  }

  /**
   * The moved genome holds the old genome's keys plus the neutral new keys in
   * its neutral container and the selected new keys in its selected one, and
   * stays position-sorted when the old genome was.
   */
  lemma MovedContents(mutations: seq<Mutation>, g: Gamete, mindexes: seq<nat>, size: nat)
    requires KeysIn(mutations, g.mutations) && KeysIn(mutations, g.smutations) && KeysIn(mutations, mindexes)
    ensures var r := Moved(mutations, g, mindexes, size);
      && multiset(r.mutations) == multiset(g.mutations) + multiset(Filter(mindexes, IsNeutral(mutations)))
      && multiset(r.smutations) == multiset(g.smutations) + multiset(Filter(mindexes, Not(IsNeutral(mutations))))
      && (KeysSorted(mutations, g.mutations) && KeysSorted(mutations, g.smutations) ==>
            KeysSorted(mutations, r.mutations) && KeysSorted(mutations, r.smutations))
  {
    WithKeysContents(mutations, g.mutations, g.smutations, mindexes);
    if KeysSorted(mutations, g.mutations) && KeysSorted(mutations, g.smutations) {
      WithKeysSorted(mutations, g.mutations, g.smutations, mindexes);
    }
  }

  /** targets[u] is the genome the u-th group moves to. */
  ghost predicate TargetsOf(mutations: seq<Mutation>, gametes: seq<Gamete>, mindexes: seq<nat>, gams: map<nat, seq<Slot>>,
                            order: seq<nat>, targets: seq<Gamete>)
    requires forall u :: 0 <= u < |order| ==> order[u] in gams
    requires GroupKeysIn(mutations, gametes, gams) && KeysIn(mutations, mindexes)
  {
    && |targets| == |order|
    && forall u :: 0 <= u < |order| ==> targets[u] == Moved(mutations, gametes[order[u]], mindexes, |gams[order[u]]|)
  }

  ghost function Targets(mutations: seq<Mutation>, gametes: seq<Gamete>, mindexes: seq<nat>, gams: map<nat, seq<Slot>>,
                         order: seq<nat>): (targets: seq<Gamete>)
    requires forall u :: 0 <= u < |order| ==> order[u] in gams
    requires GroupKeysIn(mutations, gametes, gams) && KeysIn(mutations, mindexes)
    ensures TargetsOf(mutations, gametes, mindexes, gams, order, targets)
  {
    seq(|order|, u requires 0 <= u < |order| => Moved(mutations, gametes[order[u]], mindexes, |gams[order[u]]|))
  }

  /**
   * After t groups: each processed genome's copy, with the new keys, sits at
   * its destination with one copy per moved slot; the processed genomes lost
   * those copies; every other genome is as it was.
   */
  ghost predicate GametesDone(gametes: seq<Gamete>, gams: map<nat, seq<Slot>>, order: seq<nat>, targets: seq<Gamete>,
                              t: nat, gs: seq<Gamete>, dest: seq<nat>)
    requires t <= |order| == |targets| && forall u :: 0 <= u < |order| ==> order[u] in gams && order[u] < |gametes|
    requires |dest| == t && |gs| >= |gametes| && forall u :: 0 <= u < t ==> dest[u] < |gs|
  {
    && (forall u :: 0 <= u < t ==> gs[dest[u]] == targets[u])
    && (forall u :: 0 <= u < t ==> gs[order[u]] == gametes[order[u]].(n := SubCount(gametes[order[u]].n, |gams[order[u]]|)))
    && (forall u :: t <= u < |order| ==> gs[order[u]] == gametes[order[u]])
    && (forall i :: 0 <= i < |gametes| && i !in order && i !in dest ==> gs[i] == gametes[i])
  }

  /** After t groups the processed groups' slots name their destinations and every other slot is as it was. */
  ghost predicate DiploidsDone(diploids: seq<Diploid>, gams: map<nat, seq<Slot>>, order: seq<nat>, t: nat, ds: seq<Diploid>, dest: seq<nat>)
    requires t <= |order| && |dest| == t && forall u :: 0 <= u < |order| ==> order[u] in gams
  {
    && |ds| == |diploids|
    && (forall u, s :: 0 <= u < t && s in gams[order[u]] && s.ind < |diploids| ==> KeyAt(ds, s) == dest[u])
    && (forall s: Slot :: s.ind < |diploids| && (KeyAt(diploids, s) !in order[..t] || KeyAt(diploids, s) !in gams || s !in gams[KeyAt(diploids, s)]) ==>
          KeyAt(ds, s) == KeyAt(diploids, s))
  }

  /** What add_mutation_details has done after the first t groups of the iteration order. */
  ghost predicate Processed(mutations: seq<Mutation>, mcounts: seq<nat>, gametes: seq<Gamete>, diploids: seq<Diploid>,
                       mindexes: seq<nat>, gams: map<nat, seq<Slot>>, order: seq<nat>, targets: seq<Gamete>,
                       t: nat, st: State, dest: seq<nat>)
    requires GroupsFrom(gametes, diploids, gams, order) && t <= |order| == |targets|
  {
    && CountsDone(mcounts, mindexes, gams, order, t, st.mcounts)
    && DestsDone(gametes, order, t, |st.gametes|, st.queue, dest)
    && GametesDone(gametes, gams, order, targets, t, st.gametes, dest)
    && DiploidsDone(diploids, gams, order, t, st.diploids, dest)
    && (NoWrap(gametes, gams) ==> Total(st.gametes) == Total(gametes))
  }

  /** Before the first group nothing has changed. */
  lemma DoneInit(mutations: seq<Mutation>, mcounts: seq<nat>, gametes: seq<Gamete>, diploids: seq<Diploid>,
                 mindexes: seq<nat>, gams: map<nat, seq<Slot>>, order: seq<nat>, targets: seq<Gamete>, queue: seq<nat>)
    requires GroupsFrom(gametes, diploids, gams, order) && |targets| == |order|
    requires Ascending(queue) && forall i: nat :: i in queue <==> i < |gametes| && gametes[i].n == 0
    ensures Processed(mutations, mcounts, gametes, diploids, mindexes, gams, order, targets, 0, State(mcounts, gametes, diploids, queue), [])
  {
    assert order[..0] == [];
    assert CountsDone(mcounts, mindexes, gams, order, 0, mcounts);
    assert DestsDone(gametes, order, 0, |gametes|, queue, []);
    assert GametesDone(gametes, gams, order, targets, 0, gametes, []);
    assert DiploidsDone(diploids, gams, order, 0, diploids, []);
  }

  /**
   * add_mutation_details: for each collected genome, in the map's iteration
   * order, the keys are inserted into a copy of it, the copy goes to a
   * recycled extinct genome (or a new one), the moved copies are taken off
   * the old genome and put on the new one, and the collected slots are
   * pointed at it.  Every key's count rises by the number of slots changed.
   */
  method AddMutationDetails(mutations: seq<Mutation>, mcounts: seq<nat>, gametes: seq<Gamete>, diploids: seq<Diploid>,
                            mindexes: seq<nat>, gams: map<nat, seq<Slot>>, order: seq<nat>)
    returns (mcounts2: seq<nat>, gametes2: seq<Gamete>, diploids2: seq<Diploid>,
             ghost targets: seq<Gamete>, ghost dest: seq<nat>, ghost rest: seq<nat>)
    requires KeysIn(mutations, mindexes) && forall j :: 0 <= j < |mindexes| ==> mindexes[j] < |mcounts|
    requires GroupsFrom(gametes, diploids, gams, order)
    requires GroupKeysIn(mutations, gametes, gams)
    ensures TargetsOf(mutations, gametes, mindexes, gams, order, targets)
    ensures |targets| == |order|
    ensures Processed(mutations, mcounts, gametes, diploids, mindexes, gams, order, targets, |order|,
                 State(mcounts2, gametes2, diploids2, rest), dest)
  {
    var queue := SimRecycling.MakeGameteQueue(gametes);
    var st := State(mcounts, gametes, diploids, queue);
    dest := [];
    targets := Targets(mutations, gametes, mindexes, gams, order);
    DoneInit(mutations, mcounts, gametes, diploids, mindexes, gams, order, targets, queue);
    var t := 0;
    while t < |order|
      invariant 0 <= t <= |order|
      invariant Processed(mutations, mcounts, gametes, diploids, mindexes, gams, order, targets, t, st, dest)
    {
      var st2, f := ProcessGroup(mutations, mcounts, gametes, diploids, mindexes, gams, order, targets, t, st, dest);
      st, dest, t := st2, dest + [f], t + 1;
    }
    mcounts2, gametes2, diploids2, rest := st.mcounts, st.gametes, st.diploids, st.queue;
  }

  /** One iteration of add_mutation_details' loop over the collected genomes. */
  method ProcessGroup(mutations: seq<Mutation>, mcounts: seq<nat>, gametes: seq<Gamete>, diploids: seq<Diploid>,
                      mindexes: seq<nat>, gams: map<nat, seq<Slot>>, order: seq<nat>, ghost targets: seq<Gamete>,
                      t: nat, st: State, ghost dest: seq<nat>)
    returns (st2: State, ghost f: nat)
    requires KeysIn(mutations, mindexes) && forall j :: 0 <= j < |mindexes| ==> mindexes[j] < |mcounts|
    requires GroupsFrom(gametes, diploids, gams, order) && t < |order|
    requires GroupKeysIn(mutations, gametes, gams)
    requires |targets| == |order| && targets[t] == Moved(mutations, gametes[order[t]], mindexes, |gams[order[t]]|)
    requires Processed(mutations, mcounts, gametes, diploids, mindexes, gams, order, targets, t, st, dest)
    ensures Processed(mutations, mcounts, gametes, diploids, mindexes, gams, order, targets, t + 1, st2, dest + [f])
  {
    var k := order[t];
    var g := st.gametes[k];
    assert g == gametes[k];
    var a, b, mc := AddKeys(mutations, st.mcounts, g.mutations, g.smutations, mindexes, |gams[k]|);
    CountsDoneStep(mcounts, mindexes, gams, order, t, st.mcounts, mc);
    var idx := if st.queue != [] then st.queue[0] else |st.gametes|;
    var ds := MoveSlots(diploids, gams, order, t, st.diploids, dest, idx);
    var gs, queue2 := PlaceGenome(gametes, diploids, gams, order, targets, t, st.gametes, st.queue, dest, idx, a, b);
    f := idx;
    st2 := State(mc, gs, ds, queue2);
  }

  /**
   * The genome update of one group: the copy with the keys goes to a
   * recycled or new genome, the moved copies are taken off the collected
   * genome and put on the new one.
   */
  method PlaceGenome(gametes: seq<Gamete>, diploids: seq<Diploid>, gams: map<nat, seq<Slot>>, order: seq<nat>,
                     ghost targets: seq<Gamete>, t: nat, gs0: seq<Gamete>, queue: seq<nat>, ghost dest: seq<nat>,
                     idx: nat, a: seq<nat>, b: seq<nat>)
    returns (gs3: seq<Gamete>, queue2: seq<nat>)
    requires GroupsFrom(gametes, diploids, gams, order) && t < |order| == |targets|
    requires DestsDone(gametes, order, t, |gs0|, queue, dest)
    requires GametesDone(gametes, gams, order, targets, t, gs0, dest)
    requires NoWrap(gametes, gams) ==> Total(gs0) == Total(gametes)
    requires targets[t] == Gamete(AddCount(0, |gams[order[t]]|), a, b)
    requires idx == if queue != [] then queue[0] else |gs0|
    ensures DestsDone(gametes, order, t + 1, |gs3|, queue2, dest + [idx])
    ensures GametesDone(gametes, gams, order, targets, t + 1, gs3, dest + [idx])
    ensures NoWrap(gametes, gams) ==> Total(gs3) == Total(gametes)
  {
    var k := order[t];
    var size := |gams[k]|;
    if queue != [] {
      assert queue[0] in queue;
    }
    var gs, q2, _, _, i := SimRecycling.RecycleGamete(gs0, queue, a, b);
    queue2 := q2;
    DestsStep(gametes, diploids, gams, order, t, gs0, queue, dest, queue2, |gs|, idx);
    assert gs[idx].n == 0 by {
      if queue != [] {
        assert gs0[idx] == gametes[idx];
      }
    }
    var gs2 := gs[k := gs[k].(n := SubCount(gs[k].n, size))];
    gs3 := gs2[idx := gs2[idx].(n := AddCount(gs2[idx].n, size))];
    GametesStep(gametes, gams, order, targets, t, gs0, dest, idx, gs, gs3);
    if NoWrap(gametes, gams) {
      TotalStep(gs0, k, idx, size, gs, gs2, gs3);
    }
  }

  /** The diploid update of one group: its slots are pointed at the destination genome. */
  method MoveSlots(diploids: seq<Diploid>, gams: map<nat, seq<Slot>>, order: seq<nat>, t: nat,
                   ds: seq<Diploid>, ghost dest: seq<nat>, idx: nat) returns (ds2: seq<Diploid>)
    requires t < |order| && |dest| == t && Distinct(order) && forall u :: 0 <= u < |order| ==> order[u] in gams
    requires forall k, s :: k in gams && s in gams[k] ==> s.ind < |diploids| && KeyAt(diploids, s) == k
    requires DiploidsDone(diploids, gams, order, t, ds, dest)
    ensures DiploidsDone(diploids, gams, order, t + 1, ds2, dest + [idx])
  {
    var slots := gams[order[t]];
    ds2 := SetSlots(ds, slots, idx);
    DiploidsStep(diploids, gams, order, t, ds, dest, ds2, idx);
  }

  lemma CountsDoneStep(mcounts: seq<nat>, mindexes: seq<nat>, gams: map<nat, seq<Slot>>, order: seq<nat>, t: nat,
                       mc: seq<nat>, mc2: seq<nat>)
    requires t < |order| && forall u :: 0 <= u < |order| ==> order[u] in gams
    requires CountsDone(mcounts, mindexes, gams, order, t, mc)
    requires |mc2| == |mc| && forall j :: 0 <= j < |mc| ==> mc2[j] == mc[j] + Count(mindexes, j) * |gams[order[t]]|
    ensures CountsDone(mcounts, mindexes, gams, order, t + 1, mc2)
  {
    var size := |gams[order[t]]|;
    assert order[..t + 1][..t] == order[..t];
    assert Sizes(gams, order[..t + 1]) == Sizes(gams, order[..t]) + size;
    forall j | 0 <= j < |mcounts|
      ensures mc2[j] == mcounts[j] + Count(mindexes, j) * Sizes(gams, order[..t + 1])
    {
      var c, s0 := Count(mindexes, j), Sizes(gams, order[..t]);
      assert c * (s0 + size) == c * s0 + c * size;
    }
  }

  /** The recycled or appended destination is new, and the queue loses only its front. */
  lemma DestsStep(gametes: seq<Gamete>, diploids: seq<Diploid>, gams: map<nat, seq<Slot>>, order: seq<nat>, t: nat,
                  gs0: seq<Gamete>, queue: seq<nat>, dest: seq<nat>, queue2: seq<nat>, size2: nat, idx: nat)
    requires GroupsFrom(gametes, diploids, gams, order) && t < |order|
    requires DestsDone(gametes, order, t, |gs0|, queue, dest)
    requires queue != [] ==> idx == queue[0] && queue2 == queue[1..] && size2 == |gs0|
    requires queue == [] ==> queue2 == [] && idx == |gs0| && size2 == |gs0| + 1
    ensures DestsDone(gametes, order, t + 1, size2, queue2, dest + [idx])
    ensures idx !in order && idx !in dest && idx < size2
    ensures idx < |gametes| ==> gametes[idx].n == 0
  {
    if queue != [] {
      assert queue[0] in queue;
    } else {
      forall u | 0 <= u < |order| ensures order[u] != idx { assert order[u] in gams; }
    }
    var dest2 := dest + [idx];
    assert Distinct(dest2) by {
      forall i, j | 0 <= i < j < |dest2| ensures dest2[i] != dest2[j] {
        if j == t { assert dest2[i] == dest[i]; }
      }
    }
    forall q | q in queue2 ensures q < |gametes| && gametes[q].n == 0 && q !in dest2 {
      DistinctQueue(queue, idx, q);
    }
    assert Ascending(queue2) by {
      if queue != [] {
        forall a, b | 0 <= a < b < |queue2| ensures queue2[a] < queue2[b] {
          assert queue2[a] == queue[a + 1] && queue2[b] == queue[b + 1];
        }
      }
    }
  }

  /** The genomes after one group: its destination holds the copy, its source lost the moved copies. */
  lemma GametesStep(gametes: seq<Gamete>, gams: map<nat, seq<Slot>>, order: seq<nat>, targets: seq<Gamete>,
                    t: nat, gs0: seq<Gamete>, dest: seq<nat>, idx: nat, gs: seq<Gamete>, gs3: seq<Gamete>)
    requires t < |order| == |targets| && Distinct(order) && forall u :: 0 <= u < |order| ==> order[u] in gams && order[u] < |gametes|
    requires |dest| == t && |gs0| >= |gametes| && forall u :: 0 <= u < t ==> dest[u] < |gs0| && dest[u] !in order
    requires GametesDone(gametes, gams, order, targets, t, gs0, dest)
    requires idx !in order && idx !in dest
    requires idx < |gs| && |gs| >= |gs0| && forall i :: 0 <= i < |gs0| && i != idx ==> gs[i] == gs0[i]
    requires var k := order[t];
      gs3 == gs[k := gs[k].(n := SubCount(gs[k].n, |gams[k]|))][idx := targets[t]]
    ensures GametesDone(gametes, gams, order, targets, t + 1, gs3, dest + [idx])
  {
    var k := order[t];
    var dest2 := dest + [idx];
    assert k != idx;
    forall u | 0 <= u < t + 1 ensures gs3[dest2[u]] == targets[u] {
      if u < t {
        assert dest2[u] == dest[u] && dest[u] != k && dest[u] != idx;
      }
    }
    forall u | 0 <= u < t + 1
      ensures gs3[order[u]] == gametes[order[u]].(n := SubCount(gametes[order[u]].n, |gams[order[u]]|))
    {
      if u < t {
        assert order[u] != k;
      }
    }
    forall u | t + 1 <= u < |order| ensures gs3[order[u]] == gametes[order[u]] {
      assert order[u] != k;
    }
    forall i | 0 <= i < |gametes| && i !in order && i !in dest2 ensures gs3[i] == gametes[i] {
      assert i != k && i != idx && i !in dest;
    }
  }

  /** The slots after one group: its slots name the destination, the others are unchanged. */
  lemma DiploidsStep(diploids: seq<Diploid>, gams: map<nat, seq<Slot>>, order: seq<nat>, t: nat,
                     ds: seq<Diploid>, dest: seq<nat>, ds2: seq<Diploid>, idx: nat)
    requires t < |order| && |dest| == t && Distinct(order) && forall u :: 0 <= u < |order| ==> order[u] in gams
    requires forall k, s :: k in gams && s in gams[k] ==> s.ind < |diploids| && KeyAt(diploids, s) == k
    requires DiploidsDone(diploids, gams, order, t, ds, dest)
    requires |ds2| == |ds|
    requires forall s: Slot :: s.ind < |diploids| ==> KeyAt(ds2, s) == if s in gams[order[t]] then idx else KeyAt(ds, s)
    ensures DiploidsDone(diploids, gams, order, t + 1, ds2, dest + [idx])
  {
    var k := order[t];
    var dest2 := dest + [idx];
    assert order[..t + 1] == order[..t] + [k];
    forall s: Slot | s.ind < |diploids| && (KeyAt(diploids, s) !in order[..t + 1] || KeyAt(diploids, s) !in gams || s !in gams[KeyAt(diploids, s)])
      ensures KeyAt(ds2, s) == KeyAt(diploids, s)
    {
    }
    forall u, s | 0 <= u < t + 1 && s in gams[order[u]] && s.ind < |diploids| ensures KeyAt(ds2, s) == dest2[u] {
      if u < t {
        assert order[u] != k;
        assert KeyAt(diploids, s) == order[u];
      }
    }
  }

  /** Without wrap-around the copies taken off the source are the copies put on the destination. */
  lemma TotalStep(gs0: seq<Gamete>, k: nat, idx: nat, size: nat, gs: seq<Gamete>, gs2: seq<Gamete>, gs3: seq<Gamete>)
    requires k < |gs0| && k != idx && size <= gs0[k].n < UINT_MODULUS
    requires idx < |gs| && gs[idx].n == 0
    requires idx < |gs0| ==> gs0[idx].n == 0 && gs == gs0[idx := gs[idx]]
    requires idx >= |gs0| ==> gs == gs0 + [gs[idx]]
    requires gs2 == gs[k := gs[k].(n := SubCount(gs[k].n, size))]
    requires gs3 == gs2[idx := gs2[idx].(n := AddCount(gs2[idx].n, size))]
    ensures Total(gs3) == Total(gs0)
  {
    assert gs[k] == gs0[k];
    CountsNoWrap(gs0[k].n, size);
    assert gs2[idx].n == 0;
    TotalUpdate(gs, k, gs2[k]);
    TotalUpdate(gs2, idx, gs3[idx]);
    if idx < |gs0| {
      TotalUpdate(gs0, idx, gs[idx]);
    } else {
      TotalAppend(gs0, gs[idx]);
    }
  }

  /** The queue never holds a genome twice, so the popped front is not in the rest. */
  lemma DistinctQueue(queue: seq<nat>, idx: nat, q: nat)
    requires queue != [] && idx == queue[0] && q in queue[1..]
    requires Ascending(queue)
    ensures q != idx && q in queue
  {
    var j :| 0 <= j < |queue[1..]| && queue[1..][j] == q;
    assert queue[j + 1] == q;
  }

  // ---------------------------------------------------------------- add_mutation / add_mutations (single deme)

  /** Every clist value is 0, 1 or 2. */
  predicate ClistValid(clist: seq<int>)
  {
    forall i :: 0 <= i < |clist| ==> 0 <= clist[i] <= 2
  }

  /**
   * The argument checks of the single-deme add_mutation, in their order: an
   * individual index past the diploids is out_of_range, a clist value outside
   * 0..2 or lists of different lengths a runtime_error.
   */
  function SingleDemeChecks(ndiploids: nat, indlist: seq<nat>, clist: seq<int>): (r: Outcome)
    ensures r.Fail? ==> r.error == OutOfRange || r.error == RuntimeError
  {
    if exists i :: 0 <= i < |indlist| && indlist[i] >= ndiploids then Fail(OutOfRange)
    else if !ClistValid(clist) then Fail(RuntimeError)
    else if |indlist| != |clist| then Fail(RuntimeError)
    else Done
  }

  /** The checks add_mutations makes on top: every key indexes the mutations, and counts and mutations have one size. */
  function MutationKeyChecks(nmutations: nat, nmcounts: nat, mindexes: seq<nat>): (r: Outcome)
    ensures r.Fail? ==> r.error == RuntimeError
  {
    if exists i :: 0 <= i < |mindexes| && mindexes[i] >= nmutations then Fail(RuntimeError)
    else if nmcounts != nmutations then Fail(RuntimeError)
    else Done
  }

  /** The first failing check of a sequence of checks. */
  function Then(a: Outcome, b: Outcome): (r: Outcome)
    ensures r == Done <==> a == Done && b == Done
  {
    if a.Fail? then a else b
  }

  /** The single-deme checks, loop by loop, each throwing at its first offending element. */
  method CheckSingleDeme(ndiploids: nat, indlist: seq<nat>, clist: seq<int>) returns (o: Outcome)
    ensures o == SingleDemeChecks(ndiploids, indlist, clist)
    ensures o == Done <==> (forall i :: 0 <= i < |indlist| ==> indlist[i] < ndiploids) && ClistValid(clist) && |indlist| == |clist|
  {
    var i := 0;
    while i < |indlist|
      invariant 0 <= i <= |indlist|
      invariant forall j :: 0 <= j < i ==> indlist[j] < ndiploids
    {
      if indlist[i] >= ndiploids {
        return Fail(OutOfRange);
      }
      i := i + 1;
    }
    i := 0;
    while i < |clist|
      invariant 0 <= i <= |clist|
      invariant forall j :: 0 <= j < i ==> 0 <= clist[j] <= 2
    {
      if clist[i] < 0 || clist[i] > 2 {
        return Fail(RuntimeError);
      }
      i := i + 1;
    }
    if |indlist| != |clist| {
      return Fail(RuntimeError);
    }
    return Done;
  }

  /** add_mutations' key checks, loop first. */
  method CheckMutationKeys(nmutations: nat, nmcounts: nat, mindexes: seq<nat>) returns (o: Outcome)
    ensures o == MutationKeyChecks(nmutations, nmcounts, mindexes)
    ensures o == Done <==> KeysInCount(nmutations, mindexes) && nmcounts == nmutations
  {
    var i := 0;
    while i < |mindexes|
      invariant 0 <= i <= |mindexes|
      invariant forall j :: 0 <= j < i ==> mindexes[j] < nmutations
    {
      if mindexes[i] >= nmutations {
        return Fail(RuntimeError);
      }
      i := i + 1;
    }
    if nmcounts != nmutations {
      return Fail(RuntimeError);
    }
    return Done;
  }

  /** Every key is below n. */
  predicate KeysInCount(n: nat, keys: seq<nat>)
  {
    forall i :: 0 <= i < |keys| ==> keys[i] < n
  }

  /** Every extant genome's keys index the mutation vector. */
  predicate ExtantKeysIn(mutations: seq<Mutation>, gametes: seq<Gamete>)
  {
    forall i :: 0 <= i < |gametes| ==> GameteKeysIn(mutations, gametes[i])
  }

  /** Keys stay valid when the mutation vector grows. */
  lemma ExtantKeysGrow(mutations: seq<Mutation>, mutations2: seq<Mutation>, gametes: seq<Gamete>)
    requires ExtantKeysIn(mutations, gametes) && |mutations| <= |mutations2|
    ensures ExtantKeysIn(mutations2, gametes)
  {
    forall i | 0 <= i < |gametes| ensures GameteKeysIn(mutations2, gametes[i]) {
      assert GameteKeysIn(mutations, gametes[i]);
    }
  }

  /** Every selected slot's genome has at least as many copies as slots select it, and fits in 32 bits. */
  ghost predicate Fits(gametes: seq<Gamete>, diploids: seq<Diploid>, sel: seq<Slot>)
  {
    forall k :: 0 <= k < |gametes| ==> |Group(diploids, sel, k)| <= gametes[k].n < UINT_MODULUS
  }

  /**
   * What add_mutation_details does to the population, slot by slot: each
   * selected slot names a genome that is its old genome with the keys
   * inserted and one copy per slot that selected that old genome; the other
   * slots are unchanged; each old genome some slot selected lost those
   * copies; every other extant genome is unchanged; and when no count wraps,
   * the number of genome copies is the same.
   */
  ghost predicate SlotsOutcome(mutations: seq<Mutation>, gametes: seq<Gamete>, diploids: seq<Diploid>, mindexes: seq<nat>,
                               sel: seq<Slot>, gs2: seq<Gamete>, ds2: seq<Diploid>)
    requires DiploidsValid(gametes, diploids) && ExtantKeysIn(mutations, gametes) && KeysIn(mutations, mindexes)
    requires forall s :: s in sel ==> s.ind < |diploids|
  {
    && |ds2| == |diploids| && |gs2| >= |gametes|
    && (forall s :: s in sel ==>
          && KeyAt(ds2, s) < |gs2|
          && var k := KeyAt(diploids, s);
             assert GameteKeysIn(mutations, gametes[k]);
             gs2[KeyAt(ds2, s)] == Moved(mutations, gametes[k], mindexes, |Group(diploids, sel, k)|))
    && (forall s: Slot :: s.ind < |diploids| && s !in sel ==> KeyAt(ds2, s) == KeyAt(diploids, s))
    && (forall k :: 0 <= k < |gametes| && Group(diploids, sel, k) != [] ==>
          gs2[k] == gametes[k].(n := SubCount(gametes[k].n, |Group(diploids, sel, k)|)))
    && (forall k :: 0 <= k < |gametes| && gametes[k].n > 0 && Group(diploids, sel, k) == [] ==> gs2[k] == gametes[k])
    && (Fits(gametes, diploids, sel) ==> Total(gs2) == Total(gametes))
  }

  /**
   * An iteration order of the map: each key once.  The order of an
   * unordered_map is unspecified, and so is the order chosen here.
   */
  method IterationOrder(gams: map<nat, seq<Slot>>) returns (order: seq<nat>)
    ensures Distinct(order)
    ensures forall k :: k in gams <==> k in order
  {
    var keys := gams.Keys;
    order := [];
    while keys != {}
      invariant keys <= gams.Keys
      invariant Distinct(order)
      invariant forall k :: k in gams <==> k in order || k in keys
      invariant forall k :: k in keys ==> k !in order
      decreases keys
    {
      var k :| k in keys;
      order := order + [k];
      keys := keys - {k};
    }
  }

  /** The group sizes the loop added up are the selected slots, each counted once. */
  lemma {:induction false} SizesAreGroupSizes(diploids: seq<Diploid>, sel: seq<Slot>, gams: map<nat, seq<Slot>>, order: seq<nat>)
    requires forall u :: 0 <= u < |order| ==> order[u] in gams && gams[order[u]] == Group(diploids, sel, order[u])
    ensures Sizes(gams, order) == GroupSizes(diploids, sel, order)
    decreases |order|
  {
    if order != [] {
      SizesAreGroupSizes(diploids, sel, gams, order[..|order| - 1]);
    }
  }

  /** The map collect_gametes builds and any iteration order of it satisfy add_mutation_details' demands. */
  lemma CollectedGroups(gametes: seq<Gamete>, diploids: seq<Diploid>, sel: seq<Slot>, gams: map<nat, seq<Slot>>, order: seq<nat>)
    requires DiploidsValid(gametes, diploids)
    requires forall s :: s in sel ==> s.ind < |diploids|
    requires Collected(diploids, sel, gams)
    requires Distinct(order) && forall k :: k in gams <==> k in order
    ensures GroupsFrom(gametes, diploids, gams, order)
    ensures Sizes(gams, order) == |sel|
  {
    forall k | k in gams ensures k < |gametes| && gametes[k].n > 0 {
      var s := gams[k][0];
      FilterMembers(sel, HasKey(diploids, k));
      assert s in Group(diploids, sel, k);
    }
    forall k, s | k in gams && s in gams[k] ensures s.ind < |diploids| && KeyAt(diploids, s) == k {
      FilterMembers(sel, HasKey(diploids, k));
    }
    forall s | s in sel ensures s.ind < |diploids| && KeyAt(diploids, s) in order {
      var k := KeyAt(diploids, s);
      FilterMembers(sel, HasKey(diploids, k));
    }
    SizesAreGroupSizes(diploids, sel, gams, order);
    GroupSizesCover(diploids, sel, order);
  }

  /** From the loop's final state to the population-level outcome. */
  lemma DetailsOutcome(mutations: seq<Mutation>, mcounts: seq<nat>, gametes: seq<Gamete>, diploids: seq<Diploid>,
                       mindexes: seq<nat>, sel: seq<Slot>, gams: map<nat, seq<Slot>>, order: seq<nat>, targets: seq<Gamete>,
                       st: State, dest: seq<nat>)
    requires DiploidsValid(gametes, diploids) && ExtantKeysIn(mutations, gametes) && KeysIn(mutations, mindexes)
    requires forall s :: s in sel ==> s.ind < |diploids|
    requires Collected(diploids, sel, gams)
    requires GroupsFrom(gametes, diploids, gams, order)
    requires GroupKeysIn(mutations, gametes, gams)
    requires TargetsOf(mutations, gametes, mindexes, gams, order, targets)
    requires Processed(mutations, mcounts, gametes, diploids, mindexes, gams, order, targets, |order|, st, dest)
    ensures SlotsOutcome(mutations, gametes, diploids, mindexes, sel, st.gametes, st.diploids)
  {
    SelectedSlotsMoved(mutations, gametes, diploids, mindexes, sel, gams, order, targets, st.gametes, st.diploids, dest);
    OtherSlotsKept(diploids, sel, gams, order, st.diploids, dest);
    GenomesOutcome(mutations, gametes, diploids, mindexes, sel, gams, order, targets, st.gametes, dest);
    if Fits(gametes, diploids, sel) {
      assert NoWrap(gametes, gams);
    }
  }

  lemma SelectedSlotsMoved(mutations: seq<Mutation>, gametes: seq<Gamete>, diploids: seq<Diploid>, mindexes: seq<nat>,
                           sel: seq<Slot>, gams: map<nat, seq<Slot>>, order: seq<nat>, targets: seq<Gamete>,
                           gs: seq<Gamete>, ds: seq<Diploid>, dest: seq<nat>)
    requires DiploidsValid(gametes, diploids) && ExtantKeysIn(mutations, gametes) && KeysIn(mutations, mindexes)
    requires forall s :: s in sel ==> s.ind < |diploids|
    requires Collected(diploids, sel, gams)
    requires GroupsFrom(gametes, diploids, gams, order)
    requires GroupKeysIn(mutations, gametes, gams)
    requires |dest| == |order| && |gs| >= |gametes| && forall u :: 0 <= u < |order| ==> dest[u] < |gs|
    requires TargetsOf(mutations, gametes, mindexes, gams, order, targets)
    requires GametesDone(gametes, gams, order, targets, |order|, gs, dest)
    requires DiploidsDone(diploids, gams, order, |order|, ds, dest)
    ensures forall s :: s in sel ==>
          && KeyAt(ds, s) < |gs|
          && var k := KeyAt(diploids, s);
             assert GameteKeysIn(mutations, gametes[k]);
             gs[KeyAt(ds, s)] == Moved(mutations, gametes[k], mindexes, |Group(diploids, sel, k)|)
  {
    forall s | s in sel
      ensures KeyAt(ds, s) < |gs|
      ensures var k := KeyAt(diploids, s);
        gs[KeyAt(ds, s)] == Moved(mutations, gametes[k], mindexes, |Group(diploids, sel, k)|)
    {
      var k := KeyAt(diploids, s);
      FilterMembers(sel, HasKey(diploids, k));
      assert k in gams;
      var u :| 0 <= u < |order| && order[u] == k;
      assert KeyAt(ds, s) == dest[u];
    }
  }

  lemma OtherSlotsKept(diploids: seq<Diploid>, sel: seq<Slot>, gams: map<nat, seq<Slot>>, order: seq<nat>, ds: seq<Diploid>, dest: seq<nat>)
    requires Collected(diploids, sel, gams)
    requires |dest| == |order| && forall u :: 0 <= u < |order| ==> order[u] in gams
    requires DiploidsDone(diploids, gams, order, |order|, ds, dest)
    ensures forall s: Slot :: s.ind < |diploids| && s !in sel ==> KeyAt(ds, s) == KeyAt(diploids, s)
  {
    assert order[..|order|] == order;
    forall s: Slot | s.ind < |diploids| && s !in sel ensures KeyAt(ds, s) == KeyAt(diploids, s) {
      var k := KeyAt(diploids, s);
      if k in gams {
        FilterMembers(sel, HasKey(diploids, k));
      }
    }
  }

  lemma GenomesOutcome(mutations: seq<Mutation>, gametes: seq<Gamete>, diploids: seq<Diploid>, mindexes: seq<nat>,
                       sel: seq<Slot>, gams: map<nat, seq<Slot>>, order: seq<nat>, targets: seq<Gamete>,
                       gs: seq<Gamete>, dest: seq<nat>)
    requires KeysIn(mutations, mindexes)
    requires Collected(diploids, sel, gams)
    requires GroupsFrom(gametes, diploids, gams, order)
    requires GroupKeysIn(mutations, gametes, gams)
    requires |dest| == |order| && |gs| >= |gametes| && forall u :: 0 <= u < |order| ==> dest[u] < |gs|
    requires forall u :: 0 <= u < |order| && dest[u] < |gametes| ==> gametes[dest[u]].n == 0
    requires TargetsOf(mutations, gametes, mindexes, gams, order, targets)
    requires GametesDone(gametes, gams, order, targets, |order|, gs, dest)
    ensures forall k :: 0 <= k < |gametes| && Group(diploids, sel, k) != [] ==>
          gs[k] == gametes[k].(n := SubCount(gametes[k].n, |Group(diploids, sel, k)|))
    ensures forall k :: 0 <= k < |gametes| && gametes[k].n > 0 && Group(diploids, sel, k) == [] ==> gs[k] == gametes[k]
  {
    forall k | 0 <= k < |gametes| && Group(diploids, sel, k) != []
      ensures gs[k] == gametes[k].(n := SubCount(gametes[k].n, |Group(diploids, sel, k)|))
    {
      assert k in gams;
      var u :| 0 <= u < |order| && order[u] == k;
    }
    forall k | 0 <= k < |gametes| && gametes[k].n > 0 && Group(diploids, sel, k) == [] ensures gs[k] == gametes[k] {
      assert k !in order;
    }
  }

  /**
   * collect_gametes followed by add_mutation_details, on a population whose
   * diploids name extant genomes with valid keys.
   */
  method InsertKeys(mutations: seq<Mutation>, mcounts: seq<nat>, gametes: seq<Gamete>, diploids: seq<Diploid>,
                    indlist: seq<nat>, clist: seq<int>, mindexes: seq<nat>)
    returns (mcounts2: seq<nat>, gametes2: seq<Gamete>, diploids2: seq<Diploid>)
    requires DiploidsValid(gametes, diploids) && ExtantKeysIn(mutations, gametes) && KeysIn(mutations, mindexes)
    requires |indlist| == |clist| && forall i :: 0 <= i < |indlist| ==> indlist[i] < |diploids|
    requires forall j :: 0 <= j < |mindexes| ==> mindexes[j] < |mcounts|
    ensures forall s :: s in Selected(indlist, clist) ==> s.ind < |diploids|
    ensures |mcounts2| == |mcounts|
    ensures forall j :: 0 <= j < |mcounts| ==> mcounts2[j] == mcounts[j] + Count(mindexes, j) * |Selected(indlist, clist)|
    ensures SlotsOutcome(mutations, gametes, diploids, mindexes, Selected(indlist, clist), gametes2, diploids2)
  {
    ghost var sel := Selected(indlist, clist);
    SelectedSlots(indlist, clist);
    forall s | s in sel ensures s.ind < |diploids| {
      var i :| 0 <= i < |indlist| && indlist[i] == s.ind;
    }
    var gams := CollectGametes(diploids, indlist, clist);
    var order := IterationOrder(gams);
    CollectedGroups(gametes, diploids, sel, gams, order);
    assert GroupKeysIn(mutations, gametes, gams) by {
      forall k | k in gams ensures k < |gametes| && KeysIn(mutations, gametes[k].mutations) && KeysIn(mutations, gametes[k].smutations) {
        assert GameteKeysIn(mutations, gametes[k]);
      }
    }
    mcounts2, gametes2, diploids2 := ApplyGroups(mutations, mcounts, gametes, diploids, mindexes, sel, gams, order);
  }

  /** add_mutation_details on the groups collected from sel, visited in the given order. */
  method ApplyGroups(mutations: seq<Mutation>, mcounts: seq<nat>, gametes: seq<Gamete>, diploids: seq<Diploid>,
                     mindexes: seq<nat>, ghost sel: seq<Slot>, gams: map<nat, seq<Slot>>, order: seq<nat>)
    returns (mcounts2: seq<nat>, gametes2: seq<Gamete>, diploids2: seq<Diploid>)
    requires DiploidsValid(gametes, diploids) && ExtantKeysIn(mutations, gametes) && KeysIn(mutations, mindexes)
    requires forall j :: 0 <= j < |mindexes| ==> mindexes[j] < |mcounts|
    requires forall s :: s in sel ==> s.ind < |diploids|
    requires Collected(diploids, sel, gams)
    requires GroupsFrom(gametes, diploids, gams, order) && Sizes(gams, order) == |sel|
    requires GroupKeysIn(mutations, gametes, gams)
    ensures |mcounts2| == |mcounts|
    ensures forall j :: 0 <= j < |mcounts| ==> mcounts2[j] == mcounts[j] + Count(mindexes, j) * |sel|
    ensures SlotsOutcome(mutations, gametes, diploids, mindexes, sel, gametes2, diploids2)
  {
    ghost var targets, dest, rest;
    mcounts2, gametes2, diploids2, targets, dest, rest := AddMutationDetails(mutations, mcounts, gametes, diploids, mindexes, gams, order);
    DetailsOutcome(mutations, mcounts, gametes, diploids, mindexes, sel, gams, order, targets,
                   State(mcounts2, gametes2, diploids2, rest), dest);
    assert order[..|order|] == order;
  }

  /** What get_mut_index did: where the new mutation went and the count it starts from. */
  ghost predicate Placed(mutations: seq<Mutation>, mcounts: seq<nat>, m: Mutation, mutations2: seq<Mutation>, idx: nat)
    requires |mcounts| == |mutations|
  {
    && idx < |mutations2| && mutations2[idx] == m
    && (m in mutations ==> idx == FindMutation(mutations, m) && mutations2 == mutations)
    && (m !in mutations && 0 in mcounts ==> idx == FindKey(mcounts, 0) && mcounts[idx] == 0 && mutations2 == mutations[idx := m])
    && (m !in mutations && 0 !in mcounts ==> idx == |mutations| && mutations2 == mutations + [m])
  }

  /**
   * add_mutation (single deme): after the argument checks, the mutation is
   * found or placed by get_mut_index, and its key is inserted into the
   * selected genomes.  Its count becomes its prior count (zero for a new
   * mutation) plus the number of selected slots.  A failed check changes
   * nothing.
   */
  method AddMutation(mutations: seq<Mutation>, mcounts: seq<nat>, gametes: seq<Gamete>, diploids: seq<Diploid>,
                     indlist: seq<nat>, clist: seq<int>, m: Mutation)
    returns (r: Result<nat>, mutations2: seq<Mutation>, mcounts2: seq<nat>, gametes2: seq<Gamete>, diploids2: seq<Diploid>)
    requires |mcounts| == |mutations|
    requires DiploidsValid(gametes, diploids) && ExtantKeysIn(mutations, gametes)
    ensures SingleDemeChecks(|diploids|, indlist, clist).Fail? ==>
      && r == Err(SingleDemeChecks(|diploids|, indlist, clist).error)
      && mutations2 == mutations && mcounts2 == mcounts && gametes2 == gametes && diploids2 == diploids
    ensures SingleDemeChecks(|diploids|, indlist, clist) == Done ==>
      && r.Ok? && Placed(mutations, mcounts, m, mutations2, r.value)
      && |mcounts2| == |mutations2|
      && mcounts2[r.value] == (if m in mutations then mcounts[r.value] else 0) + |Selected(indlist, clist)|
      && (forall j :: 0 <= j < |mcounts| && j != r.value ==> mcounts2[j] == mcounts[j])
      && ExtantKeysIn(mutations2, gametes)
      && (forall s :: s in Selected(indlist, clist) ==> s.ind < |diploids|)
      && SlotsOutcome(mutations2, gametes, diploids, [r.value], Selected(indlist, clist), gametes2, diploids2)
  {
    var o := CheckSingleDeme(|diploids|, indlist, clist);
    if o.Fail? {
      return Err(o.error), mutations, mcounts, gametes, diploids;
    }
    var mc1, idx;
    mutations2, mc1, idx := GetMutIndex(mutations, mcounts, m);
    ExtantKeysGrow(mutations, mutations2, gametes);
    mcounts2, gametes2, diploids2 := InsertKeys(mutations2, mc1, gametes, diploids, indlist, clist, [idx]);
    r := Ok(idx);
    OneKeyCounts(mc1, mcounts2, idx, |Selected(indlist, clist)|);
  }

  /** With a single key only that key's count moves. */
  lemma OneKeyCounts(mc: seq<nat>, mc2: seq<nat>, idx: nat, size: nat)
    requires idx < |mc| && |mc2| == |mc|
    requires forall j :: 0 <= j < |mc| ==> mc2[j] == mc[j] + Count([idx], j) * size
    ensures mc2[idx] == mc[idx] + size
    ensures forall j :: 0 <= j < |mc| && j != idx ==> mc2[j] == mc[j]
  {
    assert multiset([idx]) == multiset{idx};
    assert mc2[idx] == mc[idx] + Count([idx], idx) * size;
  }

  /**
   * add_mutations (single deme): after the argument checks, the existing
   * mutations named by mindexes are inserted into the selected genomes; each
   * key's count rises by its number of occurrences in mindexes times the
   * number of selected slots.  A failed check changes nothing.
   */
  method AddMutations(mutations: seq<Mutation>, mcounts: seq<nat>, gametes: seq<Gamete>, diploids: seq<Diploid>,
                      indlist: seq<nat>, clist: seq<int>, mindexes: seq<nat>)
    returns (r: Outcome, mcounts2: seq<nat>, gametes2: seq<Gamete>, diploids2: seq<Diploid>)
    requires DiploidsValid(gametes, diploids) && ExtantKeysIn(mutations, gametes)
    ensures r == Then(SingleDemeChecks(|diploids|, indlist, clist), MutationKeyChecks(|mutations|, |mcounts|, mindexes))
    ensures r.Fail? ==> mcounts2 == mcounts && gametes2 == gametes && diploids2 == diploids
    ensures r == Done ==>
      && KeysIn(mutations, mindexes)
      && (forall s :: s in Selected(indlist, clist) ==> s.ind < |diploids|)
      && |mcounts2| == |mcounts|
      && (forall j :: 0 <= j < |mcounts| ==> mcounts2[j] == mcounts[j] + Count(mindexes, j) * |Selected(indlist, clist)|)
      && SlotsOutcome(mutations, gametes, diploids, mindexes, Selected(indlist, clist), gametes2, diploids2)
  {
    r := CheckSingleDeme(|diploids|, indlist, clist);
    if r.Fail? {
      return r, mcounts, gametes, diploids;
    }
    r := CheckMutationKeys(|mutations|, |mcounts|, mindexes);
    if r.Fail? {
      return r, mcounts, gametes, diploids;
    }
    mcounts2, gametes2, diploids2 := InsertKeys(mutations, mcounts, gametes, diploids, indlist, clist, mindexes);
  }

  // ---------------------------------------------------------------- metapopulation and multi-locus checks

  /** Every clist of every deme holds only 0, 1 and 2. */
  predicate ClistsValid(clist: seq<seq<int>>)
  {
    forall i :: 0 <= i < |clist| ==> ClistValid(clist[i])
  }

  /** The shape checks of the metapopulation overloads: clist values, then the two list lengths, then each pair of lists. */
  function MetapopShapeChecks(indlist: seq<seq<nat>>, clist: seq<seq<int>>): (r: Outcome)
    ensures r == Done <==> ClistsValid(clist) && |indlist| == |clist| && forall i :: 0 <= i < |indlist| ==> |indlist[i]| == |clist[i]|
  {
    if !ClistsValid(clist) then Fail(RuntimeError)
    else if |indlist| != |clist| then Fail(RuntimeError)
    else if exists i :: 0 <= i < |indlist| && |indlist[i]| != |clist[i]| then Fail(RuntimeError)
    else Done
  }

  /** Listed deme i has an individual list, names an existing deme and lists individuals of that deme. */
  predicate DemeInRange(demeSizes: seq<nat>, demes: seq<nat>, indlist: seq<seq<nat>>, i: nat)
    requires i < |demes|
  {
    && i < |indlist| && demes[i] < |demeSizes|
    && forall j :: 0 <= j < |indlist[i]| ==> indlist[i][j] < demeSizes[demes[i]]
  }

  /** Whether the metapopulation collect_gametes reads only existing diploids. */
  predicate MetapopInRange(demeSizes: seq<nat>, demes: seq<nat>, indlist: seq<seq<nat>>)
  {
    forall i :: 0 <= i < |demes| ==> DemeInRange(demeSizes, demes, indlist, i)
  }

  /**
   * The deme loop of the metapopulation overloads as written: the loop
   * counter i, not the deme index demes[i], is compared with the number of
   * demes, using > where >= is meant, and each individual index is compared
   * with its deme's size using >.  Reading a list or a deme past its end is
   * undefined behaviour.
   */
  function DemeLoopAsWritten(demeSizes: seq<nat>, demes: seq<nat>, indlist: seq<seq<nat>>, i: nat): Outcome
    decreases |demes| - i
  {
    if i >= |demes| then Done
    else if i > |demeSizes| then Fail(OutOfRange)
    else if i >= |indlist| then Fail(Undefined)
    else if |indlist[i]| > 0 && demes[i] >= |demeSizes| then Fail(Undefined)
    else if exists j :: 0 <= j < |indlist[i]| && indlist[i][j] > demeSizes[demes[i]] then Fail(OutOfRange)
    else DemeLoopAsWritten(demeSizes, demes, indlist, i + 1)
  }

  /** The checks of the metapopulation add_mutation as written. */
  function MetapopChecksAsWritten(demeSizes: seq<nat>, demes: seq<nat>, indlist: seq<seq<nat>>, clist: seq<seq<int>>): Outcome
  {
    Then(MetapopShapeChecks(indlist, clist), DemeLoopAsWritten(demeSizes, demes, indlist, 0))
  }

  /**
   * The as-written guards let an individual index equal to its deme's size
   * through: with one deme of one diploid, adding to individual 1 of deme 0
   * passes every check, and collect_gametes then reads past the deme.
   */
  lemma MetapopGuardAdmitsPastEnd()
    ensures MetapopChecksAsWritten([1], [0], [[1]], [[0]]) == Done
    ensures !MetapopInRange([1], [0], [[1]])
  {
    assert DemeLoopAsWritten([1], [0], [[1]], 1) == Done;
    assert ClistValid([0]);
    assert !DemeInRange([1], [0], [[1]], 0) by {
      assert [[1]][0][0] == 1;
    }
  }

  /**
   * The deme loop as intended: each listed deme needs an individual list
   * (a runtime_error, like the other length checks), an existing deme index
   * and individual indexes below the deme's size (out_of_range otherwise).
   */
  function DemeLoop(demeSizes: seq<nat>, demes: seq<nat>, indlist: seq<seq<nat>>, i: nat): Outcome
    decreases |demes| - i
  {
    if i >= |demes| then Done
    else if i >= |indlist| then Fail(RuntimeError)
    else if demes[i] >= |demeSizes| then Fail(OutOfRange)
    else if exists j :: 0 <= j < |indlist[i]| && indlist[i][j] >= demeSizes[demes[i]] then Fail(OutOfRange)
    else DemeLoop(demeSizes, demes, indlist, i + 1)
  }

  /** The intended deme loop passes exactly when every deme from i on is in range. */
  lemma {:induction false} DemeLoopInRange(demeSizes: seq<nat>, demes: seq<nat>, indlist: seq<seq<nat>>, i: nat)
    ensures DemeLoop(demeSizes, demes, indlist, i) == Done <==>
      forall k :: i <= k < |demes| ==> DemeInRange(demeSizes, demes, indlist, k)
    decreases |demes| - i
  {
    if i < |demes| {
      DemeLoopInRange(demeSizes, demes, indlist, i + 1);
      if DemeInRange(demeSizes, demes, indlist, i) {
        assert DemeLoop(demeSizes, demes, indlist, i) == DemeLoop(demeSizes, demes, indlist, i + 1);
      } else {
        assert DemeLoop(demeSizes, demes, indlist, i).Fail?;
      }
    }
  }

  /** The checks of the metapopulation add_mutation with the deme and individual guards corrected. */
  function MetapopChecks(demeSizes: seq<nat>, demes: seq<nat>, indlist: seq<seq<nat>>, clist: seq<seq<int>>): (r: Outcome)
    ensures r == Done ==> MetapopInRange(demeSizes, demes, indlist) && ClistsValid(clist) && |indlist| == |clist|
    ensures r == Done <==> MetapopShapeChecks(indlist, clist) == Done && MetapopInRange(demeSizes, demes, indlist)
  {
    DemeLoopInRange(demeSizes, demes, indlist, 0);
    Then(MetapopShapeChecks(indlist, clist), DemeLoop(demeSizes, demes, indlist, 0))
  }

  /** The checks of the metapopulation add_mutations: the add_mutation checks, then the key checks. */
  function MetapopKeysChecks(demeSizes: seq<nat>, demes: seq<nat>, indlist: seq<seq<nat>>, clist: seq<seq<int>>,
                             nmutations: nat, nmcounts: nat, mindexes: seq<nat>): (r: Outcome)
    ensures r == Done ==> MetapopInRange(demeSizes, demes, indlist) && KeysInCount(nmutations, mindexes) && nmcounts == nmutations
  {
    Then(MetapopChecks(demeSizes, demes, indlist, clist), MutationKeyChecks(nmutations, nmcounts, mindexes))
  }

  /**
   * The checks of the multi-locus overloads, in their order: clist values,
   * list lengths, the locus against the first individual's number of loci
   * (undefined for an empty population), then the individual indexes.
   * loci[i] is individual i's number of loci.
   */
  function MultiLocusChecks(loci: seq<nat>, locus: nat, indlist: seq<nat>, clist: seq<int>): (r: Outcome)
    ensures r == Done ==> ClistValid(clist) && |indlist| == |clist| && |loci| > 0 && locus < loci[0]
    ensures r == Done ==> forall i :: 0 <= i < |indlist| ==> indlist[i] < |loci|
  {
    if !ClistValid(clist) then Fail(RuntimeError)
    else if |indlist| != |clist| then Fail(RuntimeError)
    else if |loci| == 0 then Fail(Undefined)
    else if locus >= loci[0] then Fail(OutOfRange)
    else if exists i :: 0 <= i < |indlist| && indlist[i] >= |loci| then Fail(OutOfRange)
    else Done
  }

  /** When every individual has the same number of loci, passing the checks means every selected genome exists. */
  lemma MultiLocusInRange(loci: seq<nat>, locus: nat, indlist: seq<nat>, clist: seq<int>)
    requires MultiLocusChecks(loci, locus, indlist, clist) == Done
    requires forall i :: 0 <= i < |loci| ==> loci[i] == loci[0]
    ensures forall i :: 0 <= i < |indlist| ==> indlist[i] < |loci| && locus < loci[indlist[i]]
  {
  }

  /** The checks of the multi-locus add_mutations: the add_mutation checks, then the key checks. */
  function MultiLocusKeysChecks(loci: seq<nat>, locus: nat, indlist: seq<nat>, clist: seq<int>,
                                nmutations: nat, nmcounts: nat, mindexes: seq<nat>): (r: Outcome)
    ensures r == Done ==> MultiLocusChecks(loci, locus, indlist, clist) == Done && KeysInCount(nmutations, mindexes) && nmcounts == nmutations
  {
    Then(MultiLocusChecks(loci, locus, indlist, clist), MutationKeyChecks(nmutations, nmcounts, mindexes))
  }
}

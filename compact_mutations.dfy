// fwdpp/algorithm/compact_mutations.hpp: reorder a population's mutation
// vector so that the mutations in use come first, sorted by position, and
// rewrite every key that refers to them: the keys of the extant haploid
// genomes, the count vector and the position lookup.

module CompactMutations {
  import opened Types
  import opened Sorting
  import opened Keys

  /** std::iota: 0, 1, ..., n-1. */
  function Indexes(n: nat): (r: seq<nat>)
    ensures |r| == n && forall i :: 0 <= i < n ==> r[i] == i
  {
    seq(n, i requires 0 <= i < n => i)
  }

  /** The partition predicate: the mutation has a nonzero count. */
  function InUse(mcounts: seq<nat>): nat -> bool
  {
    (i: nat) => i < |mcounts| && mcounts[i] != 0
  }

  function NotInUse(mcounts: seq<nat>): nat -> bool
  {
    (i: nat) => !(i < |mcounts| && mcounts[i] != 0)
  }

  /** The indexes in use, ascending, as std::stable_partition leaves them. */
  function InUseIndexes(mcounts: seq<nat>): seq<nat>
  {
    Filter(Indexes(|mcounts|), InUse(mcounts))
  }

  /**
   * The new order of the mutation vector: the indexes in use sorted by
   * position, then the unused ones in their original order.
   */
  function NewOrder(mutations: seq<Mutation>, mcounts: seq<nat>): (order: seq<nat>)
    ensures |order| == |mcounts| && multiset(order) == multiset(Indexes(|mcounts|))
    ensures forall t :: 0 <= t < |order| ==> order[t] < |mcounts|
  {
    PartitionFacts(mutations, mcounts);
    SortBy(InUseIndexes(mcounts), PosKey(mutations)) + Filter(Indexes(|mcounts|), NotInUse(mcounts))
  }

  /** The sorted indexes in use followed by the others are a permutation of 0..n-1. */
  lemma PartitionFacts(mutations: seq<Mutation>, mcounts: seq<nat>)
    ensures var order := SortBy(InUseIndexes(mcounts), PosKey(mutations)) + Filter(Indexes(|mcounts|), NotInUse(mcounts));
      |order| == |mcounts| && multiset(order) == multiset(Indexes(|mcounts|))
      && forall t :: 0 <= t < |order| ==> order[t] < |mcounts|
  {
    var ix := Indexes(|mcounts|);
    var used, rest := Filter(ix, InUse(mcounts)), Filter(ix, NotInUse(mcounts));
    var sorted := SortBy(used, PosKey(mutations));
    FilterMultiset(ix, InUse(mcounts), NotInUse(mcounts));
    SortByPermutes(used, PosKey(mutations));
    var order := sorted + rest;
    assert multiset(order) == multiset(sorted) + multiset(rest);
    assert multiset(order) == multiset(ix);
    assert |order| == |multiset(order)| == |multiset(ix)| == |ix|;
    forall t | 0 <= t < |order| ensures order[t] < |mcounts| {
      assert order[t] in multiset(ix);
      var k :| 0 <= k < |ix| && ix[k] == order[t];
    }
  }

  /** The new order is a permutation of the old indexes. */
  lemma NewOrderPermutation(mutations: seq<Mutation>, mcounts: seq<nat>)
    ensures var order := NewOrder(mutations, mcounts);
      |order| == |mcounts| && multiset(order) == multiset(Indexes(|mcounts|)) && Distinct(order)
      && forall t :: 0 <= t < |order| ==> order[t] < |mcounts|
  {
    var ix := Indexes(|mcounts|);
    var order := NewOrder(mutations, mcounts);
    FilterMultiset(ix, InUse(mcounts), NotInUse(mcounts));
    assert Distinct(ix);
    DistinctPermutation(ix, order);
  }

  /** The indexes in use come first, sorted by position. */
  lemma NewOrderInUseSorted(mutations: seq<Mutation>, mcounts: seq<nat>)
    requires |mcounts| == |mutations|
    ensures var order, e := NewOrder(mutations, mcounts), |InUseIndexes(mcounts)|;
      e <= |order| && KeysSorted(mutations, order[..e])
  {
    var order, e := NewOrder(mutations, mcounts), |InUseIndexes(mcounts)|;
    NewOrderPermutation(mutations, mcounts);
    SortByCorrect(InUseIndexes(mcounts), PosKey(mutations));
    assert order[..e] == SortBy(InUseIndexes(mcounts), PosKey(mutations));
  }

  /** Exactly the first e entries of the new order are in use. */
  lemma NewOrderInUseFirst(mutations: seq<Mutation>, mcounts: seq<nat>, t: nat)
    requires t < |mcounts|
    ensures var order, e := NewOrder(mutations, mcounts), |InUseIndexes(mcounts)|;
      order[t] < |mcounts| && (t < e <==> mcounts[order[t]] != 0)
  {
    var order, e := NewOrder(mutations, mcounts), |InUseIndexes(mcounts)|;
    NewOrderPermutation(mutations, mcounts);
    var used := InUseIndexes(mcounts);
    if t < e {
      assert order[t] == SortBy(used, PosKey(mutations))[t];
      SortByPermutes(used, PosKey(mutations));
      assert order[t] in multiset(used);
      assert InUse(mcounts)(order[t]);
    } else {
      var rest := Filter(Indexes(|mcounts|), NotInUse(mcounts));
      assert order[t] == rest[t - e];
      assert NotInUse(mcounts)(order[t]);
    }
  }

  /** The unused indexes follow in ascending order. */
  lemma NewOrderRestAscending(mutations: seq<Mutation>, mcounts: seq<nat>)
    ensures var order, e := NewOrder(mutations, mcounts), |InUseIndexes(mcounts)|;
      forall s, t :: e <= s < t < |order| ==> order[s] < order[t]
  {
    var order, e := NewOrder(mutations, mcounts), |InUseIndexes(mcounts)|;
    var ix := Indexes(|mcounts|);
    var rest := Filter(ix, NotInUse(mcounts));
    assert Ascending(ix);
    FilterAscending(ix, NotInUse(mcounts));
    assert |order| == e + |rest|;
    forall s, t | e <= s < t < |order| ensures order[s] < order[t] {
      assert order[s] == rest[s - e] && order[t] == rest[t - e];
    }
  }

  /** The reindex loop: the new index of every mutation in use; zero for the others. */
  method Reindex(order: seq<nat>, e: nat) returns (reindex: seq<nat>)
    requires e <= |order| && Distinct(order) && forall t :: 0 <= t < |order| ==> order[t] < |order|
    ensures |reindex| == |order|
    ensures forall t :: 0 <= t < e ==> reindex[order[t]] == t
    ensures forall i :: 0 <= i < |order| && i !in order[..e] ==> reindex[i] == 0
  {
    reindex := seq(|order|, _ => 0);
    var t := 0;
    while t < e
      invariant 0 <= t <= e && |reindex| == |order|
      invariant forall s :: 0 <= s < t ==> reindex[order[s]] == s
      invariant forall i :: 0 <= i < |order| && i !in order[..t] ==> reindex[i] == 0
    {
      assert order[..t + 1] == order[..t] + [order[t]];
      reindex := reindex[order[t] := t];
      t := t + 1;
    }
  }

  /** A key rewritten through reindex. */
  function Through(reindex: seq<nat>): nat -> nat
  {
    (k: nat) => if k < |reindex| then reindex[k] else 0
  }

  /** An extant genome with its keys rewritten; extinct genomes are left alone. */
  function Rekeyed(g: Gamete, reindex: seq<nat>): Gamete
  {
    if g.n == 0 then g
    else g.(mutations := Map(g.mutations, Through(reindex)), smutations := Map(g.smutations, Through(reindex)))
  }

  /** The loop over keys: m = reindex[m] for each key. */
  method RewriteKeys(keys: seq<nat>, reindex: seq<nat>) returns (r: seq<nat>)
    requires forall i :: 0 <= i < |keys| ==> keys[i] < |reindex|
    ensures |r| == |keys| && forall i :: 0 <= i < |keys| ==> r[i] == reindex[keys[i]]
  {
    r := keys;
    var i := 0;
    while i < |r|
      invariant 0 <= i <= |r| == |keys|
      invariant forall j :: 0 <= j < i ==> r[j] == reindex[keys[j]]
      invariant forall j :: i <= j < |r| ==> r[j] == keys[j]
    {
      r := r[i := reindex[r[i]]];
      i := i + 1;
    }
  }

  /** The loop over genomes. */
  method RekeyGametes(gametes: seq<Gamete>, reindex: seq<nat>) returns (r: seq<Gamete>)
    requires forall j :: 0 <= j < |gametes| && gametes[j].n > 0 ==>
      (forall k :: k in gametes[j].mutations ==> k < |reindex|) && (forall k :: k in gametes[j].smutations ==> k < |reindex|)
    ensures |r| == |gametes| && forall j :: 0 <= j < |gametes| ==> r[j] == Rekeyed(gametes[j], reindex)
  {
    r := gametes;
    var j := 0;
    while j < |r|
      invariant 0 <= j <= |r| == |gametes|
      invariant forall i :: 0 <= i < j ==> r[i] == Rekeyed(gametes[i], reindex)
      invariant forall i :: j <= i < |r| ==> r[i] == gametes[i]
    {
      var g := r[j];
      if g.n > 0 {
        assert forall i :: 0 <= i < |g.mutations| ==> g.mutations[i] in gametes[j].mutations;
        assert forall i :: 0 <= i < |g.smutations| ==> g.smutations[i] in gametes[j].smutations;
        var ms := RewriteKeys(g.mutations, reindex);
        var ss := RewriteKeys(g.smutations, reindex);
        r := r[j := g.(mutations := ms, smutations := ss)];
      }
      j := j + 1;
    }
  }

  /** The mutations (or counts) taken in the new order. */
  function Reordered<T>(xs: seq<T>, order: seq<nat>): (r: seq<T>)
    requires forall t :: 0 <= t < |order| ==> order[t] < |xs|
    ensures |r| == |order| && forall t :: 0 <= t < |order| ==> r[t] == xs[order[t]]
  {
    seq(|order|, t requires 0 <= t < |order| => xs[order[t]])
  }

  /** One lookup update: the entry (pos, i), if there is one, is repointed to index t. */
  function Repointed(lookup: multiset<LookupEntry>, pos: real, i: nat, t: nat): multiset<LookupEntry>
  {
    var e := LookupEntry(pos, i);
    if e in lookup then lookup - multiset{e} + multiset{LookupEntry(pos, t)} else lookup
  }

  /** The lookup after the first t steps of the reorder loop: only mutations in use are looked up. */
  function LookupRepointed(lookup: multiset<LookupEntry>, mutations: seq<Mutation>, mcounts: seq<nat>, order: seq<nat>, t: nat): multiset<LookupEntry>
    requires t <= |order| && |mcounts| == |mutations|
    requires forall s :: 0 <= s < |order| ==> order[s] < |mutations|
  {
    if t == 0 then lookup
    else
      var l, i := LookupRepointed(lookup, mutations, mcounts, order, t - 1), order[t - 1];
      if mcounts[i] > 0 then Repointed(l, mutations[i].pos, i, t - 1) else l
  }

  /**
   * compact_mutations: the new order, the reindex vector, every extant
   * genome rewritten, the mutations and counts permuted and the lookup
   * repointed; the result is reindex.
   */
  method CompactMutations(mutations: seq<Mutation>, mcounts: seq<nat>, gametes: seq<Gamete>, lookup: multiset<LookupEntry>)
    returns (reindex: seq<nat>, mutations2: seq<Mutation>, mcounts2: seq<nat>, gametes2: seq<Gamete>, lookup2: multiset<LookupEntry>)
    requires |mcounts| == |mutations|
    requires forall j :: 0 <= j < |gametes| && gametes[j].n > 0 ==> GameteKeysIn(mutations, gametes[j])
    ensures var order := NewOrder(mutations, mcounts);
      (forall t :: 0 <= t < |order| ==> order[t] < |mutations|)
      && mutations2 == Reordered(mutations, order) && mcounts2 == Reordered(mcounts, order)
      && lookup2 == LookupRepointed(lookup, mutations, mcounts, order, |order|)
    ensures |reindex| == |mutations|
    ensures forall i :: 0 <= i < |mutations| && mcounts[i] != 0 ==>
      reindex[i] < |mutations| && mutations2[reindex[i]] == mutations[i] && mcounts2[reindex[i]] == mcounts[i]
    ensures forall i :: 0 <= i < |mutations| && mcounts[i] == 0 ==> reindex[i] == 0
    ensures |gametes2| == |gametes| && forall j :: 0 <= j < |gametes| ==> gametes2[j] == Rekeyed(gametes[j], reindex)
  {
    var order := NewOrder(mutations, mcounts);
    var e := |InUseIndexes(mcounts)|;
    NewOrderPermutation(mutations, mcounts);
    reindex := Reindex(order, e);
    ReindexInUse(mutations, mcounts, reindex);
    gametes2 := RekeyGametes(gametes, reindex);
    mutations2, mcounts2, lookup2 := Reorder(mutations, mcounts, order, lookup);
  }

  /** The reorder loop: the mutations and counts in the new order, and the lookup repointed as it goes. */
  method Reorder(mutations: seq<Mutation>, mcounts: seq<nat>, order: seq<nat>, lookup: multiset<LookupEntry>)
    returns (mutations2: seq<Mutation>, mcounts2: seq<nat>, lookup2: multiset<LookupEntry>)
    requires |mcounts| == |mutations| && forall t :: 0 <= t < |order| ==> order[t] < |mutations|
    ensures mutations2 == Reordered(mutations, order) && mcounts2 == Reordered(mcounts, order)
    ensures lookup2 == LookupRepointed(lookup, mutations, mcounts, order, |order|)
  {
    mutations2, mcounts2, lookup2 := [], [], lookup;
    var t := 0;
    while t < |order|
      invariant 0 <= t <= |order| && |mutations2| == |mcounts2| == t
      invariant mutations2 == Reordered(mutations, order[..t]) && mcounts2 == Reordered(mcounts, order[..t])
      invariant lookup2 == LookupRepointed(lookup, mutations, mcounts, order, t)
    {
      var i := order[t];
      ReorderedSnoc(mutations, order, t);
      ReorderedSnoc(mcounts, order, t);
      mutations2, mcounts2 := mutations2 + [mutations[i]], mcounts2 + [mcounts[i]];
      lookup2 := RepointNext(lookup, lookup2, mutations, mcounts, order, t);
      t := t + 1;
    }
    assert order[..t] == order;
  }

  /** Taking one more index of the new order appends that element. */
  lemma ReorderedSnoc<T>(xs: seq<T>, order: seq<nat>, t: nat)
    requires t < |order| && forall s :: 0 <= s < |order| ==> order[s] < |xs|
    ensures Reordered(xs, order[..t + 1]) == Reordered(xs, order[..t]) + [xs[order[t]]]
  {
    assert order[..t + 1][..t] == order[..t];
  }

  /** One lookup update of the reorder loop: a counted mutation's entry is repointed to its new index t. */
  method RepointNext(ghost lookup: multiset<LookupEntry>, lookup2: multiset<LookupEntry>, mutations: seq<Mutation>,
                     mcounts: seq<nat>, order: seq<nat>, t: nat)
    returns (next: multiset<LookupEntry>)
    requires |mcounts| == |mutations| && t < |order| && forall s :: 0 <= s < |order| ==> order[s] < |mutations|
    requires lookup2 == LookupRepointed(lookup, mutations, mcounts, order, t)
    ensures next == LookupRepointed(lookup, mutations, mcounts, order, t + 1)
  {
    var i := order[t];
    next := lookup2;
    if mcounts[i] > 0 {
      next := Repointed(lookup2, mutations[i].pos, i, t);
    }
  }

  /** What the reindex loop's result means for the mutations in use. */
  lemma ReindexInUse(mutations: seq<Mutation>, mcounts: seq<nat>, reindex: seq<nat>)
    requires |mcounts| == |mutations|
    requires var order, e := NewOrder(mutations, mcounts), |InUseIndexes(mcounts)|;
      |reindex| == |order| && e <= |order| && (forall t :: 0 <= t < e ==> reindex[order[t]] == t)
      && forall i :: 0 <= i < |order| && i !in order[..e] ==> reindex[i] == 0
    ensures var order := NewOrder(mutations, mcounts);
      (forall i :: 0 <= i < |mutations| && mcounts[i] != 0 ==> reindex[i] < |order| && order[reindex[i]] == i)
      && forall i :: 0 <= i < |mutations| && mcounts[i] == 0 ==> reindex[i] == 0
  {
    var order, e := NewOrder(mutations, mcounts), |InUseIndexes(mcounts)|;
    NewOrderPermutation(mutations, mcounts);
    forall i | 0 <= i < |mutations| && mcounts[i] != 0 ensures reindex[i] < |order| && order[reindex[i]] == i {
      assert Indexes(|mcounts|)[i] == i;
      assert i in multiset(order);
      var t :| 0 <= t < |order| && order[t] == i;
      NewOrderInUseFirst(mutations, mcounts, t);
    }
    forall i | 0 <= i < |mutations| && mcounts[i] == 0 ensures reindex[i] == 0 {
      if i in order[..e] {
        var t :| 0 <= t < e && order[..e][t] == i;
        NewOrderInUseFirst(mutations, mcounts, t);
      }
    }
  }

  /** The layout after compaction: counted mutations first, by position; the others after, in their old order. */
  lemma CompactedLayout(mutations: seq<Mutation>, mcounts: seq<nat>)
    requires |mcounts| == |mutations|
    ensures var order, e := NewOrder(mutations, mcounts), |InUseIndexes(mcounts)|;
      var m2, c2 := Reordered(mutations, order), Reordered(mcounts, order);
      e <= |order| == |mutations|
      && (forall t :: 0 <= t < |order| ==> (c2[t] != 0 <==> t < e))
      && (forall s, t :: 0 <= s < t < e ==> m2[s].pos <= m2[t].pos)
      && (forall s, t :: e <= s < t < |order| ==> order[s] < order[t])
  {
    var order, e := NewOrder(mutations, mcounts), |InUseIndexes(mcounts)|;
    var m2 := Reordered(mutations, order);
    forall t | 0 <= t < |order| ensures (Reordered(mcounts, order)[t] != 0 <==> t < e) {
      NewOrderInUseFirst(mutations, mcounts, t);
    }
    NewOrderInUseSorted(mutations, mcounts);
    forall s, t | 0 <= s < t < e ensures m2[s].pos <= m2[t].pos {
      assert order[..e][s] == order[s] && order[..e][t] == order[t];
      KeysSortedPositions(mutations, order[..e], s, t);
    }
    NewOrderRestAscending(mutations, mcounts);
  }

  /** The entries a lookup holds for the given indexes: one per index in use. */
  function EntryOf(mutations: seq<Mutation>, mcounts: seq<nat>): nat -> seq<LookupEntry>
  {
    (i: nat) => if i < |mutations| && i < |mcounts| && mcounts[i] != 0 then [LookupEntry(mutations[i].pos, i)] else []
  }

  /** The consistent lookup lists the entries of the indexes 0..k-1. */
  lemma {:induction false} LookupOfIndexes(mutations: seq<Mutation>, mcounts: seq<nat>, k: nat)
    requires k <= |mcounts| == |mutations|
    ensures LookupOf(mutations, mcounts[..k]) == multiset(FlatMap(Indexes(|mcounts|)[..k], EntryOf(mutations, mcounts)))
  {
    var ix := Indexes(|mcounts|);
    if k > 0 {
      LookupOfIndexes(mutations, mcounts, k - 1);
      assert mcounts[..k][..k - 1] == mcounts[..k - 1];
      var last: seq<nat> := [k - 1];
      IndexesSnoc(|mcounts|, k);
      FlatMapConcat(ix[..k - 1], last, EntryOf(mutations, mcounts));
      assert FlatMap(last, EntryOf(mutations, mcounts)) == EntryOf(mutations, mcounts)(k - 1);
    }
  }

  lemma IndexesSnoc(n: nat, k: nat)
    requires 0 < k <= n
    ensures Indexes(n)[..k] == Indexes(n)[..k - 1] + [k - 1]
  {
    var ix, last: seq<nat> := Indexes(n), [k - 1];
    forall s | 0 <= s < k ensures ix[..k][s] == (ix[..k - 1] + last)[s] {
      if s < k - 1 {
        assert (ix[..k - 1] + last)[s] == ix[..k - 1][s];
      }
    }
  }

  /**
   * After t steps the lookup holds the entries of the first t new indexes
   * and the old entries of the indexes still to come.
   */
  lemma {:induction false} LookupRepointedSplit(mutations: seq<Mutation>, mcounts: seq<nat>, order: seq<nat>,
                                                m2: seq<Mutation>, c2: seq<nat>, t: nat)
    requires |mcounts| == |mutations| && t <= |order| == |m2| == |c2|
    requires forall s :: 0 <= s < |order| ==> order[s] < |mutations| && m2[s] == mutations[order[s]] && c2[s] == mcounts[order[s]]
    ensures var f := EntryOf(mutations, mcounts);
      LookupRepointed(multiset(FlatMap(order, f)), mutations, mcounts, order, t)
      == LookupOf(m2, c2[..t]) + multiset(FlatMap(order[t..], f))
  {
    if t == 0 {
      assert order[0..] == order;
    } else {
      LookupRepointedSplit(mutations, mcounts, order, m2, c2, t - 1);
      RepointedStep(mutations, mcounts, order, m2, c2, t, multiset(FlatMap(order, EntryOf(mutations, mcounts))));
    }
  }

  /** One step of the reorder loop keeps the split. */
  lemma RepointedStep(mutations: seq<Mutation>, mcounts: seq<nat>, order: seq<nat>,
                      m2: seq<Mutation>, c2: seq<nat>, t: nat, lookup: multiset<LookupEntry>)
    requires |mcounts| == |mutations| && 0 < t <= |order| == |m2| == |c2|
    requires forall s :: 0 <= s < |order| ==> order[s] < |mutations|
    requires m2[t - 1] == mutations[order[t - 1]] && c2[t - 1] == mcounts[order[t - 1]]
    requires var f := EntryOf(mutations, mcounts);
      LookupRepointed(lookup, mutations, mcounts, order, t - 1)
      == LookupOf(m2, c2[..t - 1]) + multiset(FlatMap(order[t - 1..], f))
    ensures var f := EntryOf(mutations, mcounts);
      LookupRepointed(lookup, mutations, mcounts, order, t)
      == LookupOf(m2, c2[..t]) + multiset(FlatMap(order[t..], f))
  {
    var f := EntryOf(mutations, mcounts);
    var i := order[t - 1];
    var a, rest := LookupOf(m2, c2[..t - 1]), multiset(FlatMap(order[t..], f));
    var prev := LookupRepointed(lookup, mutations, mcounts, order, t - 1);
    var now := LookupRepointed(lookup, mutations, mcounts, order, t);
    assert prev == a + (multiset(f(i)) + rest) by {
      FlatMapFrom(order, t, f);
    }
    LookupOfSnoc(m2, c2, t);
    var used := mcounts[i] != 0;
    assert now == if used then Repointed(prev, mutations[i].pos, i, t - 1) else prev;
    assert f(i) == if used then [LookupEntry(mutations[i].pos, i)] else [];
    RepointPieces(prev, now, a, rest, f(i), mutations[i].pos, i, t - 1, used);
  }

  /** The step on the pieces: the old entry of index i, if in use, becomes the entry of t. */
  lemma RepointPieces(prev: multiset<LookupEntry>, now: multiset<LookupEntry>, a: multiset<LookupEntry>,
                      rest: multiset<LookupEntry>, fi: seq<LookupEntry>, pos: real, i: nat, t: nat, used: bool)
    requires prev == a + (multiset(fi) + rest)
    requires fi == if used then [LookupEntry(pos, i)] else []
    requires now == if used then Repointed(prev, pos, i, t) else prev
    ensures now == a + (if used then multiset{LookupEntry(pos, t)} else multiset{}) + rest
  {
    if used {
      assert prev == a + multiset{LookupEntry(pos, i)} + rest;
      RepointStep(a, rest, pos, i, t);
    } else {
      assert prev == a + rest;
    }
  }

  lemma FlatMapFrom<U>(order: seq<nat>, t: nat, f: nat -> seq<U>)
    requires 0 < t <= |order|
    ensures multiset(FlatMap(order[t - 1..], f)) == multiset(f(order[t - 1])) + multiset(FlatMap(order[t..], f))
  {
    assert order[t - 1..][1..] == order[t..];
  }

  lemma LookupOfSnoc(mutations: seq<Mutation>, mcounts: seq<nat>, t: nat)
    requires 0 < t <= |mcounts| <= |mutations|
    ensures LookupOf(mutations, mcounts[..t]) == LookupOf(mutations, mcounts[..t - 1])
      + if mcounts[t - 1] != 0 then multiset{LookupEntry(mutations[t - 1].pos, t - 1)} else multiset{}
  {
    assert mcounts[..t][..t - 1] == mcounts[..t - 1];
  }

  /** The entry of old index i, when it is in use, is repointed to new index t. */
  lemma RepointStep(a: multiset<LookupEntry>, rest: multiset<LookupEntry>, pos: real, i: nat, t: nat)
    ensures Repointed(a + multiset{LookupEntry(pos, i)} + rest, pos, i, t) == a + multiset{LookupEntry(pos, t)} + rest
  {
  }

  /** Compaction keeps a consistent lookup consistent: it lists the new index of every counted mutation. */
  lemma CompactedLookup(mutations: seq<Mutation>, mcounts: seq<nat>)
    requires |mcounts| == |mutations|
    ensures var order := NewOrder(mutations, mcounts);
      LookupRepointed(LookupOf(mutations, mcounts), mutations, mcounts, order, |order|)
      == LookupOf(Reordered(mutations, order), Reordered(mcounts, order))
  {
    CompactedLookupBy(mutations, mcounts, NewOrder(mutations, mcounts));
  }

  /** The same for any permutation of the indexes taken as the new order. */
  lemma CompactedLookupBy(mutations: seq<Mutation>, mcounts: seq<nat>, order: seq<nat>)
    requires |mcounts| == |mutations| && multiset(order) == multiset(Indexes(|mcounts|))
    requires forall t :: 0 <= t < |order| ==> order[t] < |mutations|
    ensures LookupRepointed(LookupOf(mutations, mcounts), mutations, mcounts, order, |order|)
      == LookupOf(Reordered(mutations, order), Reordered(mcounts, order))
  {
    var f := EntryOf(mutations, mcounts);
    var ix := Indexes(|mcounts|);
    LookupOfIndexes(mutations, mcounts, |mcounts|);
    assert mcounts[..|mcounts|] == mcounts && ix[..|mcounts|] == ix;
    FlatMapPermutation(ix, order, f);
    LookupRepointedSplit(mutations, mcounts, order, Reordered(mutations, order), Reordered(mcounts, order), |order|);
    assert order[|order|..] == [];
    assert |order| == |Reordered(mcounts, order)|;
    assert Reordered(mcounts, order)[..|order|] == Reordered(mcounts, order);
  }

  /**
   * Keys of counted mutations, rewritten through reindex, name the same
   * mutations in the compacted vector and stay ordered by position.
   */
  lemma RekeyedContainer(mutations: seq<Mutation>, mcounts: seq<nat>, reindex: seq<nat>, mutations2: seq<Mutation>, keys: seq<nat>)
    requires |reindex| == |mutations| == |mcounts| && KeysIn(mutations, keys)
    requires forall i :: 0 <= i < |mutations| && mcounts[i] != 0 ==> reindex[i] < |mutations2| && mutations2[reindex[i]] == mutations[i]
    requires forall j :: 0 <= j < |keys| ==> mcounts[keys[j]] != 0
    ensures var r := Map(keys, Through(reindex));
      KeysIn(mutations2, r) && (forall j :: 0 <= j < |keys| ==> mutations2[r[j]] == mutations[keys[j]])
      && (KeysSorted(mutations, keys) ==> KeysSorted(mutations2, r))
  {
    var r := Map(keys, Through(reindex));
    if KeysSorted(mutations, keys) {
      forall a, b | 0 <= a < b < |r| ensures mutations2[r[a]].pos <= mutations2[r[b]].pos {
        KeysSortedPositions(mutations, keys, a, b);
      }
      PositionsKeysSorted(mutations2, r);
    }
  }

  /** Every extant genome whose keys are all counted carries the same mutations after compaction. */
  lemma CompactedGenome(mutations: seq<Mutation>, mcounts: seq<nat>, reindex: seq<nat>, mutations2: seq<Mutation>, g: Gamete)
    requires |reindex| == |mutations| == |mcounts| && g.n > 0 && GameteKeysIn(mutations, g)
    requires forall i :: 0 <= i < |mutations| && mcounts[i] != 0 ==> reindex[i] < |mutations2| && mutations2[reindex[i]] == mutations[i]
    requires forall j :: 0 <= j < |g.mutations| ==> mcounts[g.mutations[j]] != 0
    requires forall j :: 0 <= j < |g.smutations| ==> mcounts[g.smutations[j]] != 0
    ensures var r := Rekeyed(g, reindex);
      r.n == g.n && |r.mutations| == |g.mutations| && |r.smutations| == |g.smutations|
      && GameteKeysIn(mutations2, r)
      && (forall j :: 0 <= j < |g.mutations| ==> mutations2[r.mutations[j]] == mutations[g.mutations[j]])
      && (forall j :: 0 <= j < |g.smutations| ==> mutations2[r.smutations[j]] == mutations[g.smutations[j]])
      && (KeysSorted(mutations, g.mutations) ==> KeysSorted(mutations2, r.mutations))
      && (KeysSorted(mutations, g.smutations) ==> KeysSorted(mutations2, r.smutations))
  {
    RekeyedContainer(mutations, mcounts, reindex, mutations2, g.mutations);
    RekeyedContainer(mutations, mcounts, reindex, mutations2, g.smutations);
  }
}

// Mutation keys: the indexes into a population's mutation vector that the
// haploid genomes hold, kept ordered by mutation position, and the position
// lookup (a multimap from position to index) that a population keeps for
// its mutations in use.

module Keys {
  import opened Types
  import opened Sorting

  /** Every key indexes the mutation vector. */
  predicate KeysIn(mutations: seq<Mutation>, keys: seq<nat>)
  {
    forall i :: 0 <= i < |keys| ==> keys[i] < |mutations|
  }

  /** The keys of an extant genome index the mutation vector (an extinct genome's keys are never read). */
  predicate GameteKeysIn(mutations: seq<Mutation>, g: Gamete)
  {
    g.n > 0 ==> KeysIn(mutations, g.mutations) && KeysIn(mutations, g.smutations)
  }

  /** A key's sort key: its mutation's position. */
  function PosKey(mutations: seq<Mutation>): nat -> seq<real>
  {
    (k: nat) => if k < |mutations| then [mutations[k].pos] else []
  }

  /** Keys in the mutation vector, ordered by non-decreasing position. */
  predicate KeysSorted(mutations: seq<Mutation>, keys: seq<nat>)
  {
    KeysIn(mutations, keys) && SortedBy(keys, PosKey(mutations))
  }

  lemma LexSingleton(a: real, b: real)
    ensures LexLess([a], [b]) <==> a < b
  {
    assert [a][1..] == [] && [b][1..] == [];
  }

  /** Sorted keys have non-decreasing positions. */
  lemma KeysSortedPositions(mutations: seq<Mutation>, keys: seq<nat>, i: nat, j: nat)
    requires KeysSorted(mutations, keys) && i < j < |keys|
    ensures mutations[keys[i]].pos <= mutations[keys[j]].pos
  {
    LexSingleton(mutations[keys[j]].pos, mutations[keys[i]].pos);
  }

  /** A suffix of a position-sorted key list is position-sorted. */
  lemma SuffixKeysSorted(mutations: seq<Mutation>, keys: seq<nat>, f: nat)
    requires KeysSorted(mutations, keys) && f <= |keys|
    ensures KeysSorted(mutations, keys[f..])
  {
    var t := keys[f..];
    forall i, j | 0 <= i < j < |t| ensures mutations[t[i]].pos <= mutations[t[j]].pos {
      KeysSortedPositions(mutations, keys, f + i, f + j);
    }
    PositionsKeysSorted(mutations, t);
  }

  /** A prefix of a position-sorted key list is position-sorted. */
  lemma PrefixKeysSorted(mutations: seq<Mutation>, keys: seq<nat>, f: nat)
    requires KeysSorted(mutations, keys) && f <= |keys|
    ensures KeysSorted(mutations, keys[..f])
  {
    var h := keys[..f];
    forall i, j | 0 <= i < j < |h| ensures mutations[h[i]].pos <= mutations[h[j]].pos {
      KeysSortedPositions(mutations, keys, i, j);
    }
    PositionsKeysSorted(mutations, h);
  }

  /** Two sorted key lists, every key of the first at or before every key of the second, join sorted. */
  lemma ConcatKeysSorted(mutations: seq<Mutation>, head: seq<nat>, tail: seq<nat>)
    requires KeysSorted(mutations, head) && KeysSorted(mutations, tail)
    requires forall a, b :: 0 <= a < |head| && 0 <= b < |tail| ==> mutations[head[a]].pos <= mutations[tail[b]].pos
    ensures KeysSorted(mutations, head + tail)
  {
    var r, n := head + tail, |head|;
    forall a, b | 0 <= a < b < |r| ensures mutations[r[a]].pos <= mutations[r[b]].pos {
      if b < n {
        assert r[a] == head[a] && r[b] == head[b];
        KeysSortedPositions(mutations, head, a, b);
      } else if a < n {
        assert r[a] == head[a] && r[b] == tail[b - n];
      } else {
        assert r[a] == tail[a - n] && r[b] == tail[b - n];
        KeysSortedPositions(mutations, tail, a - n, b - n);
      }
    }
    PositionsKeysSorted(mutations, r);
  }

  /** Keys whose positions never decrease are sorted. */
  lemma PositionsKeysSorted(mutations: seq<Mutation>, keys: seq<nat>)
    requires KeysIn(mutations, keys)
    requires forall i, j :: 0 <= i < j < |keys| ==> mutations[keys[i]].pos <= mutations[keys[j]].pos
    ensures KeysSorted(mutations, keys)
  {
    forall i, j | 0 <= i < j < |keys|
      ensures !LexLess(PosKey(mutations)(keys[j]), PosKey(mutations)(keys[i]))
    {
      LexSingleton(mutations[keys[j]].pos, mutations[keys[i]].pos);
    }
  }

  /** Sortedness depends on the positions only. */
  lemma SamePositionsSorted(mutations: seq<Mutation>, mutations2: seq<Mutation>, keys: seq<nat>)
    requires KeysSorted(mutations, keys) && |mutations2| == |mutations|
    requires forall i :: 0 <= i < |mutations| ==> mutations2[i].pos == mutations[i].pos
    ensures KeysSorted(mutations2, keys)
  {
    forall i, j | 0 <= i < j < |keys| ensures mutations2[keys[i]].pos <= mutations2[keys[j]].pos {
      KeysSortedPositions(mutations, keys, i, j);
    }
    PositionsKeysSorted(mutations2, keys);
  }

  /**
   * std::upper_bound over keys by position: the number of leading keys whose
   * position is not after pos.
   */
  function KeyUpperBound(mutations: seq<Mutation>, keys: seq<nat>, pos: real): (k: nat)
    requires KeysIn(mutations, keys)
    ensures k <= |keys|
    ensures forall j :: 0 <= j < k ==> mutations[keys[j]].pos <= pos
  {
    var k := UpperBound(keys, [pos], PosKey(mutations));
    assert forall j :: 0 <= j < k ==> !LexLess([pos], PosKey(mutations)(keys[j]));
    forall j | 0 <= j < k ensures mutations[keys[j]].pos <= pos {
      LexSingleton(pos, mutations[keys[j]].pos);
    }
    k
  }

  /** The upper bound depends on the positions only. */
  lemma KeyUpperBoundSamePositions(mutations: seq<Mutation>, mutations2: seq<Mutation>, keys: seq<nat>, pos: real)
    requires KeysIn(mutations, keys) && |mutations2| == |mutations|
    requires forall i :: 0 <= i < |mutations| ==> mutations2[i].pos == mutations[i].pos
    ensures KeyUpperBound(mutations2, keys, pos) == KeyUpperBound(mutations, keys, pos)
  {
    UpperBoundSameKeys(keys, [pos], PosKey(mutations2), PosKey(mutations));
  }

  /** On sorted keys, every key after the upper bound lies after pos. */
  lemma KeyUpperBoundRest(mutations: seq<Mutation>, keys: seq<nat>, pos: real)
    requires KeysSorted(mutations, keys)
    ensures forall j :: KeyUpperBound(mutations, keys, pos) <= j < |keys| ==> pos < mutations[keys[j]].pos
  {
    UpperBoundRest(keys, [pos], PosKey(mutations));
    forall j | KeyUpperBound(mutations, keys, pos) <= j < |keys| ensures pos < mutations[keys[j]].pos {
      LexSingleton(pos, mutations[keys[j]].pos);
    }
  }

  /** Inserting a key at the upper bound of its own position keeps sorted keys sorted. */
  lemma InsertKeySorted(mutations: seq<Mutation>, keys: seq<nat>, key: nat)
    requires KeysSorted(mutations, keys) && key < |mutations|
    ensures var k := KeyUpperBound(mutations, keys, mutations[key].pos);
      KeysSorted(mutations, keys[..k] + [key] + keys[k..])
  {
    InsertAtUpperBoundSorted(keys, key, PosKey(mutations));
  }

  /** Removing a key keeps sorted keys sorted. */
  lemma RemoveKeySorted(mutations: seq<Mutation>, keys: seq<nat>, i: nat)
    requires KeysSorted(mutations, keys) && i < |keys|
    ensures KeysSorted(mutations, keys[..i] + keys[i + 1..])
  {
    var r := keys[..i] + keys[i + 1..];
    forall a, b | 0 <= a < b < |r| ensures mutations[r[a]].pos <= mutations[r[b]].pos {
      var a', b' := if a < i then a else a + 1, if b < i then b else b + 1;
      assert r[a] == keys[a'] && r[b] == keys[b'];
      KeysSortedPositions(mutations, keys, a', b');
    }
    PositionsKeysSorted(mutations, r);
  }

  /**
   * The lookup a population keeps: one entry (position, index) for each
   * mutation whose count is nonzero.
   */
  function LookupOf(mutations: seq<Mutation>, mcounts: seq<nat>): multiset<LookupEntry>
    requires |mcounts| <= |mutations|
  {
    if mcounts == [] then multiset{}
    else
      var i := |mcounts| - 1;
      LookupOf(mutations, mcounts[..i]) + (if mcounts[i] != 0 then multiset{LookupEntry(mutations[i].pos, i)} else multiset{})
  }

  /** Every entry of the lookup is a counted mutation's position and index, and every counted mutation has one. */
  lemma {:induction false} LookupOfEntries(mutations: seq<Mutation>, mcounts: seq<nat>, e: LookupEntry)
    requires |mcounts| <= |mutations|
    ensures LookupOf(mutations, mcounts)[e] == if e.index < |mcounts| && mcounts[e.index] != 0 && mutations[e.index].pos == e.pos then 1 else 0
    decreases |mcounts|
  {
    if mcounts != [] {
      LookupOfEntries(mutations, mcounts[..|mcounts| - 1], e);
    }
  }

  /** std::find: the index of the first occurrence of x, or |a| when there is none. */
  function FindKey(a: seq<nat>, x: nat): (i: nat)
    ensures i <= |a|
    ensures i < |a| ==> a[i] == x
    ensures forall j :: 0 <= j < i ==> a[j] != x
  {
    if a == [] then 0 else if a[0] == x then 0 else 1 + FindKey(a[1..], x)
  }

  /** The complement of a key predicate. */
  function Not(p: nat -> bool): nat -> bool
  {
    (k: nat) => !p(k)
  }

  /**
   * The erase/remove_if idiom on a key container: the keys p rejects, in
   * their order.
   */
  method RemoveIf(keys: seq<nat>, p: nat -> bool) returns (r: seq<nat>)
    ensures r == Filter(keys, Not(p))
  {
    r := [];
    var i := 0;
    while i < |keys|
      invariant 0 <= i <= |keys|
      invariant r == Filter(keys[..i], Not(p))
    {
      assert keys[..i + 1] == keys[..i] + [keys[i]];
      FilterConcat(keys[..i], [keys[i]], Not(p));
      if !p(keys[i]) {
        r := r + [keys[i]];
      }
      i := i + 1;
    }
    assert keys[..|keys|] == keys;
  }

  /** A key survives the removal exactly when it was present and p rejects it. */
  lemma RemovedExactly(keys: seq<nat>, p: nat -> bool, k: nat)
    ensures k in Filter(keys, Not(p)) <==> k in keys && !p(k)
  {
    FilterMembers(keys, Not(p));
  }

  /** Removing keys keeps sorted keys sorted: the survivors keep their order. */
  lemma {:induction false} FilterKeysSorted(mutations: seq<Mutation>, keys: seq<nat>, p: nat -> bool)
    requires KeysSorted(mutations, keys)
    ensures KeysSorted(mutations, Filter(keys, p))
  {
    if keys != [] {
      var t := keys[1..];
      SuffixKeysSorted(mutations, keys, 1);
      FilterKeysSorted(mutations, t, p);
      if p(keys[0]) {
        var r := Filter(keys, p);
        var ft := Filter(t, p);
        assert r == [keys[0]] + ft;
        FilterMembers(t, p);
        forall a, b | 0 <= a < b < |r| ensures mutations[r[a]].pos <= mutations[r[b]].pos {
          if a == 0 {
            assert r[b] in t;
            var j :| 0 <= j < |t| && t[j] == r[b];
            KeysSortedPositions(mutations, keys, 0, j + 1);
          } else {
            KeysSortedPositions(mutations, ft, a - 1, b - 1);
          }
        }
        assert KeysIn(mutations, r);
        PositionsKeysSorted(mutations, r);
      }
    }
  }
}

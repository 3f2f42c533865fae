// simplify_mutations: remapping mutations to the output nodes whose ancestry
// holds their positions, dropping the rest, and rebuilding the site table.
module SimplificationMutations {
  import opened Types
  import opened Sorting
  import opened Simplification
  import opened SimplificationBuffers

  /** The node of the first segment at or after index j that holds x, or NULL. */
  function CoverFrom(list: seq<Segment>, x: real, j: nat): int
    decreases |list| - j
  {
    if j >= |list| then NULL
    else if list[j].left <= x < list[j].right then list[j].node
    else CoverFrom(list, x, j + 1)
  }

  /** The output node an ancestry list maps position x to, NULL when no segment holds x. */
  function CoverNode(list: seq<Segment>, x: real): int
  {
    CoverFrom(list, x, 0)
  }

  /** Segments ending at or before x can be skipped. */
  lemma {:induction false} CoverSkip(list: seq<Segment>, x: real, j: nat)
    requires j <= |list| && forall k :: 0 <= k < j ==> list[k].right <= x
    ensures CoverNode(list, x) == CoverFrom(list, x, j)
    decreases j
  {
    if j > 0 {
      CoverSkip(list, x, j - 1);
    }
  }

  /** In an increasing list, nothing from a segment starting after x on holds x. */
  lemma {:induction false} CoverBefore(list: seq<Segment>, x: real, j: nat)
    requires Increasing(list) && j < |list| && x < list[j].left
    ensures CoverFrom(list, x, j) == NULL
    decreases |list| - j
  {
    if j + 1 < |list| {
      assert list[j].left < list[j].right <= list[j + 1].left;
      CoverBefore(list, x, j + 1);
    }
  }

  /** CoverFrom finds the segment that holds x, if any. */
  lemma {:induction false} CoverFromMaps(list: seq<Segment>, x: real, j: nat)
    requires Increasing(list) && forall k :: 0 <= k < |list| ==> 0 <= list[k].node
    requires forall k :: 0 <= k < j && k < |list| ==> list[k].right <= x
    ensures CoverFrom(list, x, j) != NULL <==> exists k :: 0 <= k < |list| && list[k].left <= x < list[k].right
    ensures CoverFrom(list, x, j) != NULL ==> Maps(list, x, CoverFrom(list, x, j))
    decreases |list| - j
  {
    if j < |list| {
      if list[j].left <= x < list[j].right {
        assert Maps(list, x, list[j].node);
      } else if x < list[j].left {
        CoverBefore(list, x, j);
        forall k | 0 <= k < |list| ensures !(list[k].left <= x < list[k].right) {
          if k > j {
            assert list[j].right <= list[k].left;
          }
        }
      } else {
        CoverFromMaps(list, x, j + 1);
      }
    }
  }

  /**
   * An increasing ancestry list with real nodes maps x to a node exactly
   * when one of its segments holds x, and then to that segment's node.
   */
  lemma CoverNodeMaps(list: seq<Segment>, x: real)
    requires Increasing(list) && forall k :: 0 <= k < |list| ==> 0 <= list[k].node
    ensures CoverNode(list, x) != NULL <==> exists k :: 0 <= k < |list| && list[k].left <= x < list[k].right
    ensures forall n :: n != NULL ==> (CoverNode(list, x) == n <==> Maps(list, x, n))
  {
    CoverFromMaps(list, x, 0);
    forall n | n != NULL && Maps(list, x, n) ensures CoverNode(list, x) == n {
      var k :| 0 <= k < |list| && list[k].left <= x < list[k].right && list[k].node == n;
      var c := CoverNode(list, x);
      var k2 :| 0 <= k2 < |list| && list[k2].left <= x < list[k2].right && list[k2].node == c;
    }
  }

  /** The mutation and site tables can be read: nodes index the ancestry lists and sites the site table. */
  predicate TablesOk(muts: seq<MutationRecord>, sites: seq<Site>, numNodes: int)
  {
    forall l :: 0 <= l < |muts| ==> 0 <= muts[l].node < numNodes && 0 <= muts[l].site < |sites|
  }

  /** Position of a mutation's site. */
  function Position(sites: seq<Site>, site: int): real
  {
    if 0 <= site < |sites| then sites[site].position else 0.0
  }

  /** The output node a mutation at input node `node` on site `site` maps to. */
  function Target(ancestry: seq<seq<Segment>>, sites: seq<Site>, node: int, site: int): int
  {
    if 0 <= node < |ancestry| then CoverNode(ancestry[node], Position(sites, site)) else NULL
  }

  /** The mutation table with every node replaced by its output node (NULL where it has no ancestry). */
  function Remap(muts: seq<MutationRecord>, sites: seq<Site>, ancestry: seq<seq<Segment>>): (r: seq<MutationRecord>)
    ensures |r| == |muts|
  {
    seq(|muts|, l requires 0 <= l < |muts| => muts[l].(node := Target(ancestry, sites, muts[l].node, muts[l].site)))
  }

  /** Mutations that keep a node. */
  function HasNode(m: MutationRecord): bool { m.node != NULL }

  /** A remapped mutation keeps a node exactly when its position lies in a segment of its node's ancestry. */
  lemma RemapKeeps(muts: seq<MutationRecord>, sites: seq<Site>, ancestry: seq<seq<Segment>>, l: int)
    requires TablesOk(muts, sites, |ancestry|) && 0 <= l < |muts|
    requires Increasing(ancestry[muts[l].node]) && forall k :: 0 <= k < |ancestry[muts[l].node]| ==> 0 <= ancestry[muts[l].node][k].node
    ensures var list, x := ancestry[muts[l].node], sites[muts[l].site].position;
      && (HasNode(Remap(muts, sites, ancestry)[l]) <==> exists k :: 0 <= k < |list| && list[k].left <= x < list[k].right)
      && (HasNode(Remap(muts, sites, ancestry)[l]) ==> Maps(list, x, Remap(muts, sites, ancestry)[l].node))
  {
    CoverNodeMaps(ancestry[muts[l].node], sites[muts[l].site].position);
  }

  /** The sort key of the mutation map: node, then site position. */
  function EntryKey(sites: seq<Site>): MutationNodeMapEntry -> seq<real>
  {
    (e: MutationNodeMapEntry) => [e.node as real, Position(sites, e.site)]
  }

  /** The unsorted mutation map: one entry per mutation, in table order. */
  function Entries(muts: seq<MutationRecord>): (r: seq<MutationNodeMapEntry>)
    ensures |r| == |muts|
  {
    seq(|muts|, l requires 0 <= l < |muts| => MutationNodeMapEntry(muts[l].node, muts[l].site, l))
  }

  /**
   * prep_mutation_simplification: one entry (node, site, location) per
   * mutation, sorted by node and then by position.
   */
  method PrepMutationSimplification(muts: seq<MutationRecord>, sites: seq<Site>) returns (m: seq<MutationNodeMapEntry>)
    ensures SortedBy(m, EntryKey(sites)) && multiset(m) == multiset(Entries(muts))
  {
    var entries: seq<MutationNodeMapEntry> := [];
    var i := 0;
    while i < |muts|
      invariant 0 <= i <= |muts| && entries == Entries(muts)[..i]
    {
      entries := entries + [MutationNodeMapEntry(muts[i].node, muts[i].site, i)];
      i := i + 1;
    }
    assert entries == Entries(muts);
    SortByCorrect(entries, EntryKey(sites));
    m := SortBy(entries, EntryKey(sites));
  }

  /** Each map entry describes the mutation at its location. */
  predicate EntriesOf(m: seq<MutationNodeMapEntry>, muts: seq<MutationRecord>)
  {
    forall t :: 0 <= t < |m| ==>
      m[t].location < |muts| && m[t].node == muts[m[t].location].node && m[t].site == muts[m[t].location].site
  }

  /** Some entry of the map points at location l. */
  predicate Visits(m: seq<MutationNodeMapEntry>, l: int)
  {
    exists t :: 0 <= t < |m| && m[t].location == l
  }

  /** A sorted permutation of the entries describes the mutations and names every location. */
  lemma PrepFacts(m: seq<MutationNodeMapEntry>, muts: seq<MutationRecord>)
    requires multiset(m) == multiset(Entries(muts))
    ensures EntriesOf(m, muts)
    ensures forall l :: 0 <= l < |muts| ==> Visits(m, l)
  {
    var e := Entries(muts);
    forall t | 0 <= t < |m|
      ensures m[t].location < |muts| && m[t].node == muts[m[t].location].node && m[t].site == muts[m[t].location].site
    {
      assert m[t] in multiset(e);
    }
    forall l | 0 <= l < |muts| ensures Visits(m, l) {
      assert e[l] in multiset(m);
      var t :| 0 <= t < |m| && m[t] == e[l];
    }
  }

  /**
   * State of the remapping scan after i entries of the map: other fields
   * untouched, entries before i mapped, later ones still NULL or mapped.
   */
  predicate Scanned(muts: seq<MutationRecord>, muts2: seq<MutationRecord>, m: seq<MutationNodeMapEntry>, i: int,
                    ancestry: seq<seq<Segment>>, sites: seq<Site>, inc: bool)
    requires EntriesOf(m, muts) && |muts2| == |muts| && 0 <= i <= |m|
  {
    && (forall l :: 0 <= l < |muts| ==> muts2[l] == muts[l].(node := muts2[l].node))
    && (inc ==> forall t :: 0 <= t < i ==> muts2[m[t].location].node == Target(ancestry, sites, m[t].node, m[t].site))
    && (inc ==> forall t :: i <= t < |m| ==>
          muts2[m[t].location].node == NULL || muts2[m[t].location].node == Target(ancestry, sites, m[t].node, m[t].site))
  }

  /** Writing entry i's output node moves the scan past it. */
  lemma ScanAssign(muts: seq<MutationRecord>, muts2: seq<MutationRecord>, m: seq<MutationNodeMapEntry>, i: int,
                   ancestry: seq<seq<Segment>>, sites: seq<Site>, inc: bool, node: int)
    requires EntriesOf(m, muts) && |muts2| == |muts| && 0 <= i < |m|
    requires Scanned(muts, muts2, m, i, ancestry, sites, inc)
    requires inc ==> node == Target(ancestry, sites, m[i].node, m[i].site)
    ensures Scanned(muts, muts2[m[i].location := muts2[m[i].location].(node := node)], m, i + 1, ancestry, sites, inc)
  {
  }

  /** An entry whose output node is NULL is passed over unchanged. */
  lemma ScanSkip(muts: seq<MutationRecord>, muts2: seq<MutationRecord>, m: seq<MutationNodeMapEntry>, i: int,
                 ancestry: seq<seq<Segment>>, sites: seq<Site>, inc: bool)
    requires EntriesOf(m, muts) && |muts2| == |muts| && 0 <= i < |m|
    requires Scanned(muts, muts2, m, i, ancestry, sites, inc)
    requires inc ==> Target(ancestry, sites, m[i].node, m[i].site) == NULL
    ensures Scanned(muts, muts2, m, i + 1, ancestry, sites, inc)
  {
  }

  /** A finished scan that visited every location is the remapped table. */
  lemma ScanComplete(muts: seq<MutationRecord>, muts2: seq<MutationRecord>, m: seq<MutationNodeMapEntry>,
                     ancestry: seq<seq<Segment>>, sites: seq<Site>)
    requires EntriesOf(m, muts) && |muts2| == |muts|
    requires Scanned(muts, muts2, m, |m|, ancestry, sites, true)
    requires forall l :: 0 <= l < |muts| ==> Visits(m, l)
    ensures muts2 == Remap(muts, sites, ancestry)
  {
    forall l | 0 <= l < |muts| ensures muts2[l] == Remap(muts, sites, ancestry)[l] {
      assert Visits(m, l);
      var t :| 0 <= t < |m| && m[t].location == l;
    }
  }

  /** The segments before j end at or before the position of entry i. */
  predicate Passed(list: seq<Segment>, j: int, pos: real)
  {
    forall k :: 0 <= k < j && k < |list| ==> list[k].right <= pos
  }

  /**
   * The remapping loop of simplify_mutations: with every node set to NULL,
   * walk the sorted map and, for each node, its ancestry list, moving to
   * the next segment when the position lies past it and to the next entry
   * otherwise (recording the segment's node when it holds the position).
   * Running off the end of the list skips the entry and restarts the list
   * for the next entry of the same node.
   */
  method RemapNodes(muts: seq<MutationRecord>, sites: seq<Site>, ancestry: seq<seq<Segment>>, m: seq<MutationNodeMapEntry>)
    returns (muts2: seq<MutationRecord>)
    requires TablesOk(muts, sites, |ancestry|)
    requires SortedBy(m, EntryKey(sites)) && multiset(m) == multiset(Entries(muts))
    ensures |muts2| == |muts| && forall l :: 0 <= l < |muts| ==> muts2[l] == muts[l].(node := muts2[l].node)
    ensures (forall v :: 0 <= v < |ancestry| ==> Increasing(ancestry[v])) ==> muts2 == Remap(muts, sites, ancestry)
  {
    ghost var inc := forall v :: 0 <= v < |ancestry| ==> Increasing(ancestry[v]);
    PrepFacts(m, muts);
    muts2 := [];
    var l := 0;
    while l < |muts|
      invariant 0 <= l <= |muts| && |muts2| == l
      invariant forall k :: 0 <= k < l ==> muts2[k] == muts[k].(node := NULL)
    {
      muts2 := muts2 + [muts[l].(node := NULL)];
      l := l + 1;
    }
    var i := 0;
    while i < |m|
      invariant 0 <= i <= |m| && |muts2| == |muts|
      invariant Scanned(muts, muts2, m, i, ancestry, sites, inc)
      decreases |m| - i
    {
      var n := m[i].node;
      var list := ancestry[n];
      var j := 0;
      ghost var i0 := i;
      while i < |m| && m[i].node == n
        invariant i0 <= i <= |m| && 0 <= j <= |list| && |muts2| == |muts|
        invariant Scanned(muts, muts2, m, i, ancestry, sites, inc)
        invariant i < |m| && m[i].node == n ==> Passed(list, j, Position(sites, m[i].site))
        decreases |m| - i, |list| - j
      {
        if j == |list| {
          CoverSkip(list, Position(sites, m[i].site), j);
          ScanSkip(muts, muts2, m, i, ancestry, sites, inc);
          i := i + 1;
          break;
        }
        ghost var i1, j1 := i, j;
        while j < |list| && i < |m| && m[i].node == n
          invariant i1 <= i <= |m| && j1 <= j <= |list| && |muts2| == |muts|
          invariant i == i1 && j == j1 ==> j < |list| && i < |m| && m[i].node == n
          invariant Scanned(muts, muts2, m, i, ancestry, sites, inc)
          invariant i < |m| && m[i].node == n ==> Passed(list, j, Position(sites, m[i].site))
          decreases |m| - i + |list| - j
        {
          muts2, i, j := ScanStep(muts, sites, ancestry, m, muts2, i, n, list, j, inc);
        }
      }
    }
    if inc {
      ScanComplete(muts, muts2, m, ancestry, sites);
    }
  }

  /**
   * One pass of the innermost loop of simplify_mutations at entry i and
   * segment j of node n's ancestry list: record the segment's node when it
   * holds the entry's position, move to the next segment when the position
   * lies past it, and pass over the entry when it lies before it.
   */
  method ScanStep(muts: seq<MutationRecord>, sites: seq<Site>, ancestry: seq<seq<Segment>>, m: seq<MutationNodeMapEntry>,
                  muts2: seq<MutationRecord>, i: int, n: int, list: seq<Segment>, j: int, ghost inc: bool)
    returns (muts3: seq<MutationRecord>, i2: int, j2: int)
    requires TablesOk(muts, sites, |ancestry|) && EntriesOf(m, muts) && SortedBy(m, EntryKey(sites))
    requires 0 <= i < |m| && m[i].node == n && 0 <= n < |ancestry| && list == ancestry[n] && (inc ==> Increasing(list))
    requires 0 <= j < |list| && |muts2| == |muts|
    requires Scanned(muts, muts2, m, i, ancestry, sites, inc) && Passed(list, j, Position(sites, m[i].site))
    ensures |muts3| == |muts| && i <= i2 <= |m| && j <= j2 <= |list| && (i2 > i || j2 > j)
    ensures Scanned(muts, muts3, m, i2, ancestry, sites, inc)
    ensures i2 < |m| && m[i2].node == n ==> Passed(list, j2, Position(sites, m[i2].site))
  {
    muts3, i2, j2 := muts2, i, j;
    var pos := sites[m[i].site].position;
    if list[j].left <= pos && pos < list[j].right {
      CoverSkip(list, pos, j);
      ScanAssign(muts, muts2, m, i, ancestry, sites, inc, list[j].node);
      muts3 := muts2[m[i].location := muts2[m[i].location].(node := list[j].node)];
      i2 := i + 1;
      NextEntry(m, sites, i2, n, list, j);
    } else if pos >= list[j].right {
      j2 := j + 1;
    } else {
      CoverSkip(list, pos, j);
      if inc {
        CoverBefore(list, pos, j);
      }
      ScanSkip(muts, muts2, m, i, ancestry, sites, inc);
      i2 := i + 1;
      NextEntry(m, sites, i2, n, list, j);
    }
  }

  /** Entries of one node come in non-decreasing position order, so skipped segments stay skipped. */
  lemma NextEntry(m: seq<MutationNodeMapEntry>, sites: seq<Site>, i: int, n: int, list: seq<Segment>, j: int)
    requires SortedBy(m, EntryKey(sites)) && 0 < i <= |m| && m[i - 1].node == n
    requires Passed(list, j, Position(sites, m[i - 1].site))
    ensures i < |m| && m[i].node == n ==> Passed(list, j, Position(sites, m[i].site))
  {
    if i < |m| && m[i].node == n {
      var a, b := EntryKey(sites)(m[i - 1]), EntryKey(sites)(m[i]);
      assert !LexLess(b, a);
      assert a[0] == b[0];
      assert !LexLess(b[1..], a[1..]);
    }
  }

  /** Mutations in non-decreasing order of their sites' positions. */
  predicate PositionsSorted(ms: seq<MutationRecord>, sites: seq<Site>)
  {
    forall a, b :: 0 <= a < b < |ms| ==> Position(sites, ms[a].site) <= Position(sites, ms[b].site)
  }

  /** std::remove_if keeps the order of what it keeps, so position order survives. */
  lemma {:induction false} FilterKeepsSorted(ms: seq<MutationRecord>, sites: seq<Site>)
    requires PositionsSorted(ms, sites)
    ensures PositionsSorted(Filter(ms, HasNode), sites)
  {
    if ms != [] {
      var rest := Filter(ms[1..], HasNode);
      FilterKeepsSorted(ms[1..], sites);
      FilterMembers(ms[1..], HasNode);
      forall b | 0 <= b < |rest| ensures Position(sites, ms[0].site) <= Position(sites, rest[b].site) {
        assert rest[b] in ms[1..];
        var c :| 0 <= c < |ms[1..]| && ms[1..][c] == rest[b];
        assert ms[c + 1] == rest[b];
      }
    }
  }

  /**
   * The site-rebuilding loop of simplify_mutations: each kept mutation, in
   * order, goes through record_site, and its key is recorded.
   */
  method RebuildSites(kept: seq<MutationRecord>, sites: seq<Site>)
    returns (muts2: seq<MutationRecord>, sites2: seq<Site>, preserved: seq<nat>)
    requires forall k :: 0 <= k < |kept| ==> 0 <= kept[k].site < |sites|
    ensures |muts2| == |kept| == |preserved|
    ensures forall k :: 0 <= k < |kept| ==> muts2[k] == kept[k].(site := muts2[k].site) && preserved[k] == kept[k].key
    ensures forall k :: 0 <= k < |kept| ==>
      0 <= muts2[k].site < |sites2| && sites2[muts2[k].site].position == sites[kept[k].site].position
    ensures forall s :: 0 <= s < |sites2| ==> sites2[s] in sites
    ensures |sites2| <= |kept|
    ensures PositionsSorted(kept, sites) ==> StrictlySorted(sites2)
  {
    muts2, sites2, preserved := [], [], [];
    var i := 0;
    while i < |kept|
      invariant 0 <= i <= |kept| && |muts2| == i == |preserved| && |sites2| <= i
      invariant forall k :: 0 <= k < i ==> muts2[k] == kept[k].(site := muts2[k].site) && preserved[k] == kept[k].key
      invariant forall k :: 0 <= k < i ==>
        0 <= muts2[k].site < |sites2| && sites2[muts2[k].site].position == sites[kept[k].site].position
      invariant forall s :: 0 <= s < |sites2| ==> sites2[s] in sites
      invariant i > 0 ==> sites2 != [] && sites2[|sites2| - 1].position == sites[kept[i - 1].site].position
      invariant PositionsSorted(kept, sites) ==> StrictlySorted(sites2)
    {
      var mr;
      ghost var before := sites2;
      sites2, mr := RecordSite(sites, sites2, kept[i]);
      if PositionsSorted(kept, sites) {
        if i > 0 {
          assert Position(sites, kept[i - 1].site) <= Position(sites, kept[i].site);
        }
        RecordSiteSorted(sites, before, kept[i], sites2);
      }
      muts2 := muts2 + [mr];
      preserved := preserved + [kept[i].key];
      i := i + 1;
    }
  }

  /**
   * The tables simplify_mutations leaves: each survivor is an input
   * mutation with a node and a site of the new site table, which holds
   * input sites only; position order is kept and sites become strictly
   * sorted.  When every ancestry list is in increasing order, the
   * survivors are exactly the input mutations, in order, whose position
   * some segment of their node's list holds, moved to that segment's node,
   * each at a site of the same position, with its key preserved.
   */
  predicate Simplified(muts: seq<MutationRecord>, sites: seq<Site>, ancestry: seq<seq<Segment>>,
                       muts2: seq<MutationRecord>, sites2: seq<Site>, preserved: seq<nat>)
    requires TablesOk(muts, sites, |ancestry|)
  {
    && |muts2| == |preserved| <= |muts|
    && (forall k :: 0 <= k < |muts2| ==> muts2[k].node != NULL && 0 <= muts2[k].site < |sites2|)
    && (forall s :: 0 <= s < |sites2| ==> sites2[s] in sites)
    && (PositionsSorted(muts, sites) ==> StrictlySorted(sites2) && PositionsSorted(muts2, sites2))
    && ((forall v :: 0 <= v < |ancestry| ==> Increasing(ancestry[v])) ==>
          var kept := Filter(Remap(muts, sites, ancestry), HasNode);
          && |muts2| == |kept|
          && (forall k :: 0 <= k < |kept| ==> muts2[k] == kept[k].(site := muts2[k].site) && preserved[k] == kept[k].key)
          && (forall k :: 0 <= k < |kept| ==> sites2[muts2[k].site].position == Position(sites, kept[k].site)))
  }

  /** The mutations that keep a node refer to sites of the input table. */
  lemma KeptInRange(muts: seq<MutationRecord>, sites: seq<Site>, ancestry: seq<seq<Segment>>, remapped: seq<MutationRecord>)
    requires TablesOk(muts, sites, |ancestry|)
    requires |remapped| == |muts| && forall l :: 0 <= l < |muts| ==> remapped[l] == muts[l].(node := remapped[l].node)
    ensures forall k :: 0 <= k < |Filter(remapped, HasNode)| ==>
      0 <= Filter(remapped, HasNode)[k].site < |sites| && Filter(remapped, HasNode)[k].node != NULL
  {
    var kept := Filter(remapped, HasNode);
    FilterMembers(remapped, HasNode);
    forall k | 0 <= k < |kept| ensures 0 <= kept[k].site < |sites| && kept[k].node != NULL {
      assert kept[k] in remapped;
    }
  }

  /** Rebuilding the site table from the kept mutations yields Simplified tables. */
  lemma RebuiltSimplified(muts: seq<MutationRecord>, sites: seq<Site>, ancestry: seq<seq<Segment>>, remapped: seq<MutationRecord>,
                          muts2: seq<MutationRecord>, sites2: seq<Site>, preserved: seq<nat>)
    requires TablesOk(muts, sites, |ancestry|)
    requires |remapped| == |muts| && forall l :: 0 <= l < |muts| ==> remapped[l] == muts[l].(node := remapped[l].node)
    requires (forall v :: 0 <= v < |ancestry| ==> Increasing(ancestry[v])) ==> remapped == Remap(muts, sites, ancestry)
    requires var kept := Filter(remapped, HasNode);
      && (forall k :: 0 <= k < |kept| ==> 0 <= kept[k].site < |sites| && kept[k].node != NULL)
      && |muts2| == |kept| == |preserved|
      && (forall k :: 0 <= k < |kept| ==> muts2[k] == kept[k].(site := muts2[k].site) && preserved[k] == kept[k].key)
      && (forall k :: 0 <= k < |kept| ==> 0 <= muts2[k].site < |sites2| && sites2[muts2[k].site].position == sites[kept[k].site].position)
      && (forall s :: 0 <= s < |sites2| ==> sites2[s] in sites)
      && (PositionsSorted(kept, sites) ==> StrictlySorted(sites2))
    ensures Simplified(muts, sites, ancestry, muts2, sites2, preserved)
  {
    var kept := Filter(remapped, HasNode);
    if PositionsSorted(muts, sites) {
      assert PositionsSorted(remapped, sites);
      FilterKeepsSorted(remapped, sites);
      forall a, b | 0 <= a < b < |muts2| ensures Position(sites2, muts2[a].site) <= Position(sites2, muts2[b].site) {
        assert Position(sites, kept[a].site) <= Position(sites, kept[b].site);
      }
    }
  }

  /**
   * simplify_mutations: every mutation is moved to the output node whose
   * ancestry holds its position, mutations with no such node are removed
   * (keeping the order of the rest), the site table is rebuilt from the
   * survivors' sites with one site per position, and the survivors' keys
   * are returned as the preserved variants.  The node found is the one
   * whose segment holds the position when every ancestry list is in
   * increasing order; whatever the lists, each survivor is an input
   * mutation with a node and a site of the new table.
   */
  method SimplifyMutations(muts: seq<MutationRecord>, sites: seq<Site>, ancestry: seq<seq<Segment>>)
    returns (muts2: seq<MutationRecord>, sites2: seq<Site>, preserved: seq<nat>)
    requires TablesOk(muts, sites, |ancestry|)
    ensures Simplified(muts, sites, ancestry, muts2, sites2, preserved)
  {
    var m := PrepMutationSimplification(muts, sites);
    var remapped := RemapNodes(muts, sites, ancestry, m);
    var kept := Filter(remapped, HasNode);
    KeptInRange(muts, sites, ancestry, remapped);
    muts2, sites2, preserved := RebuildSites(kept, sites);
    RebuiltSimplified(muts, sites, ancestry, remapped, muts2, sites2, preserved);
  }
}

// Free functions on a table collection: the edge-table order used before
// simplification, sorting the edge and mutation tables, rebuilding the site
// table, and counting the marginal trees of indexed tables.

module TableCollectionFunctions {
  import opened Types
  import opened Sorting
  import opened TableCollection

  /** nodes[e.parent].time, or 0 when the parent is not a row (the library reads out of bounds there). */
  function ParentTimeOf(nodes: seq<Node>, e: Edge): real
  {
    if 0 <= e.parent < |nodes| then nodes[e.parent].time else 0.0
  }

  /**
   * The comparator of get_edge_sort_cmp: parent time descending, then
   * parent id, child id and left, each ascending.
   */
  predicate EdgeLess(nodes: seq<Node>, a: Edge, b: Edge)
  {
    var ga, gb := ParentTimeOf(nodes, a), ParentTimeOf(nodes, b);
    if ga == gb then
      if a.parent == b.parent then
        if a.child == b.child then a.left < b.left else a.child < b.child
      else a.parent < b.parent
    else ga > gb
  }

  /** The same order as a lexicographic sort key. */
  function EdgeKey(nodes: seq<Node>, e: Edge): seq<real>
  {
    [-ParentTimeOf(nodes, e), e.parent as real, e.child as real, e.left]
  }

  /** The comparator is exactly "key strictly smaller". */
  lemma EdgeLessIsKeyLess(nodes: seq<Node>, a: Edge, b: Edge)
    ensures EdgeLess(nodes, a, b) <==> LexLess(EdgeKey(nodes, a), EdgeKey(nodes, b))
  {
    var ka, kb := EdgeKey(nodes, a), EdgeKey(nodes, b);
    assert ka[1..][1..][1..][1..] == [] && kb[1..][1..][1..][1..] == [];
    assert LexLess(ka[1..][1..][1..], kb[1..][1..][1..]) <==> a.left < b.left;
    assert LexLess(ka[1..][1..], kb[1..][1..]) <==> a.child < b.child || (a.child == b.child && a.left < b.left);
    assert LexLess(ka[1..], kb[1..]) <==>
      (a.parent < b.parent || (a.parent == b.parent && (a.child < b.child || (a.child == b.child && a.left < b.left))));
  }

  /** Edges in the order of get_edge_sort_cmp. */
  predicate EdgesSorted(nodes: seq<Node>, edges: seq<Edge>)
  {
    forall i, j :: 0 <= i < j < |edges| ==> !EdgeLess(nodes, edges[j], edges[i])
  }

  /**
   * The edge table after sort_edge_table(offset): the edges from `offset` on,
   * sorted, followed by the first `offset` edges in their old order
   * (std::rotate moves the sorted part to the front).
   */
  function SortedEdges(offset: nat, edges: seq<Edge>, nodes: seq<Node>): (r: seq<Edge>)
    requires offset < |edges|
    ensures |r| == |edges| && multiset(r) == multiset(edges)
    ensures EdgesSorted(nodes, r[..|edges| - offset])
    ensures multiset(r[..|edges| - offset]) == multiset(edges[offset..])
    ensures r[|edges| - offset..] == edges[..offset]
  {
    var key := e => EdgeKey(nodes, e);
    var s := SortBy(edges[offset..], key);
    SortByCorrect(edges[offset..], key);
    forall i, j | 0 <= i < j < |s| ensures !EdgeLess(nodes, s[j], s[i]) {
      EdgeLessIsKeyLess(nodes, s[j], s[i]);
    }
    var r := s + edges[..offset];
    assert r[..|edges| - offset] == s;
    assert edges == edges[..offset] + edges[offset..];
    r
  }

  /** sort_edge_table(offset, tables); out_of_range unless 0 <= offset < number of edges. */
  method SortEdgeTable(offset: int, t: TableCollection) returns (r: Outcome)
    modifies t
    ensures r == Done <==> 0 <= offset < |old(t.edges)|
    ensures r != Done ==> r == Fail(OutOfRange) && t.edges == old(t.edges)
    ensures r == Done ==> t.edges == SortedEdges(offset, old(t.edges), t.nodes)
    ensures t.nodes == old(t.nodes) && t.sites == old(t.sites) && t.mutations == old(t.mutations)
    ensures t.L == old(t.L) && t.inputLeft == old(t.inputLeft) && t.outputRight == old(t.outputRight)
    ensures t.edgeOffset == old(t.edgeOffset)
  {
    if offset < 0 || offset >= |t.edges| {
      return Fail(OutOfRange);
    }
    t.edges := SortedEdges(offset, t.edges, t.nodes);
    r := Done;
  }

  /** sites[m.site].position, or 0 when the site is not a row. */
  function PositionOf(sites: seq<Site>, m: MutationRecord): real
  {
    if 0 <= m.site < |sites| then sites[m.site].position else 0.0
  }

  /** The mutation table after sort_mutation_table: a permutation ordered by site position. */
  function SortedMutations(mutations: seq<MutationRecord>, sites: seq<Site>): (r: seq<MutationRecord>)
    ensures |r| == |mutations| && multiset(r) == multiset(mutations)
    ensures forall i, j :: 0 <= i < j < |r| ==> PositionOf(sites, r[i]) <= PositionOf(sites, r[j])
  {
    var key := m => [PositionOf(sites, m)];
    var r := SortBy(mutations, key);
    SortByCorrect(mutations, key);
    forall i, j | 0 <= i < j < |r| ensures PositionOf(sites, r[i]) <= PositionOf(sites, r[j]) {
      assert !LexLess(key(r[j]), key(r[i]));
      assert key(r[j])[1..] == [] && key(r[i])[1..] == [];
    }
    r
  }

  method SortMutationTable(t: TableCollection)
    modifies t
    ensures t.mutations == SortedMutations(old(t.mutations), t.sites)
    ensures t.nodes == old(t.nodes) && t.sites == old(t.sites) && t.edges == old(t.edges)
    ensures t.L == old(t.L) && t.inputLeft == old(t.inputLeft) && t.outputRight == old(t.outputRight)
    ensures t.edgeOffset == old(t.edgeOffset)
  {
    t.mutations := SortedMutations(t.mutations, t.sites);
  }

  /** Every mutation record names a row of the site table. */
  predicate SitesValid(mutations: seq<MutationRecord>, sites: seq<Site>)
  {
    forall i :: 0 <= i < |mutations| ==> 0 <= mutations[i].site < |sites|
  }

  /** Some mutation record names site s. */
  predicate SiteReferenced(mutations: seq<MutationRecord>, s: int)
  {
    exists k :: 0 <= k < |mutations| && mutations[k].site == s
  }

  /** Appending a record for the last of n sites keeps every site referenced. */
  lemma ReferencedStep(out: seq<MutationRecord>, mr: MutationRecord, n: int)
    requires forall s :: 0 <= s < n - 1 ==> SiteReferenced(out, s)
    requires mr.site == n - 1
    ensures forall s :: 0 <= s < n ==> SiteReferenced(out + [mr], s)
  {
    var next := out + [mr];
    forall st | 0 <= st < n ensures SiteReferenced(next, st) {
      if st == n - 1 {
        assert next[|out|].site == st;
      } else {
        assert SiteReferenced(out, st);
        var k :| 0 <= k < |out| && out[k].site == st;
        assert next[k].site == st;
      }
    }
  }

  /**
   * rebuild_site_table: walks the mutations in table order and keeps a site
   * only when its position differs from the last kept one, so the new site
   * table holds each run of equal positions once.  Every mutation keeps its
   * position and all its other fields.  The tables_error check after each
   * step can never fire: the last site always has the position just recorded.
   */
  method RebuildSiteTable(t: TableCollection) returns (r: Outcome)
    requires SitesValid(t.mutations, t.sites)
    modifies t
    ensures r == Done
    ensures (t.sites, t.mutations) == RebuiltSites(old(t.mutations), old(t.sites))
    ensures |t.mutations| == |old(t.mutations)| && SitesValid(t.mutations, t.sites)
    ensures forall i :: 0 <= i < |t.mutations| ==>
              t.mutations[i] == old(t.mutations[i]).(site := t.mutations[i].site)
              && t.sites[t.mutations[i].site].position == old(t.sites[t.mutations[i].site].position)
    ensures forall i :: 0 <= i && i + 1 < |t.sites| ==> t.sites[i].position != t.sites[i + 1].position
    ensures forall i, j :: 0 <= i < j < |t.mutations| ==> t.mutations[i].site <= t.mutations[j].site
    ensures forall s :: 0 <= s < |t.sites| ==> SiteReferenced(t.mutations, s)
    ensures forall s :: 0 <= s < |t.sites| ==> t.sites[s] in old(t.sites)
    ensures t.nodes == old(t.nodes) && t.edges == old(t.edges) && t.L == old(t.L)
    ensures t.inputLeft == old(t.inputLeft) && t.outputRight == old(t.outputRight)
    ensures t.edgeOffset == old(t.edgeOffset)
  {
    var sites, out := RebuildSites(t.mutations, t.sites);
    RebuiltFromInvariant(t.mutations, t.sites, |t.mutations|);
    t.sites, t.mutations := sites, out;
    r := Done;
  }

  /** The new site table and mutation table of rebuild_site_table, as RebuildSites computes them. */
  function RebuiltSites(ms: seq<MutationRecord>, copy: seq<Site>): (r: (seq<Site>, seq<MutationRecord>))
    requires SitesValid(ms, copy)
    ensures SitesValid(r.1, r.0) && |r.1| == |ms|
  {
    RebuiltFrom(ms, copy, |ms|)
  }

  /** The sites and records after the first i mutations of the loop. */
  function RebuiltFrom(ms: seq<MutationRecord>, copy: seq<Site>, i: int): (r: (seq<Site>, seq<MutationRecord>))
    requires SitesValid(ms, copy) && 0 <= i <= |ms|
    ensures SitesValid(r.1, r.0) && |r.1| == i && (i == 0 <==> r.0 == [])
    ensures i > 0 ==> r.1[i - 1].site == |r.0| - 1
  {
    if i == 0 then ([], [])
    else
      var (sites, out) := RebuiltFrom(ms, copy, i - 1);
      var s := copy[ms[i - 1].site];
      var sites2 := if sites == [] || sites[|sites| - 1].position != s.position then sites + [s] else sites;
      var out2 := out + [ms[i - 1].(site := |sites2| - 1)];
      assert forall k :: 0 <= k < |out| ==> out2[k] == out[k];
      (sites2, out2)
  }

  /**
   * What rebuild_site_table promises about its result: every mutation keeps
   * its position and all its other fields, records stay in table order with
   * non-decreasing site ids, neighbouring sites differ in position, every
   * site is used and every site comes from the old table.
   */
  predicate RebuildInvariant(ms: seq<MutationRecord>, copy: seq<Site>, sites: seq<Site>, out: seq<MutationRecord>)
    requires SitesValid(ms, copy) && |out| <= |ms| && SitesValid(out, sites)
  {
    && (forall k :: 0 <= k < |out| ==>
          out[k] == ms[k].(site := out[k].site) && sites[out[k].site].position == copy[ms[k].site].position)
    && (forall k :: 0 <= k < |sites| ==> sites[k] in copy)
    && (forall k :: 0 <= k && k + 1 < |sites| ==> sites[k].position != sites[k + 1].position)
    && (forall k, l :: 0 <= k < l < |out| ==> out[k].site <= out[l].site)
    && (forall s :: 0 <= s < |sites| ==> SiteReferenced(out, s))
  }

  lemma RebuiltFromInvariant(ms: seq<MutationRecord>, copy: seq<Site>, i: int)
    requires SitesValid(ms, copy) && 0 <= i <= |ms|
    ensures var r := RebuiltFrom(ms, copy, i); RebuildInvariant(ms, copy, r.0, r.1)
  {
    RebuiltKeepsFields(ms, copy, i);
    RebuiltKeepsPositions(ms, copy, i);
    RebuiltFromCopy(ms, copy, i);
    RebuiltNeighboursDiffer(ms, copy, i);
    RebuiltOrdered(ms, copy, i);
    RebuiltAllReferenced(ms, copy, i);
  }

  /** One step of RebuiltFrom, written out. */
  lemma RebuiltUnfold(ms: seq<MutationRecord>, copy: seq<Site>, i: int)
    requires SitesValid(ms, copy) && 0 < i <= |ms|
    ensures var (sites, out) := RebuiltFrom(ms, copy, i - 1);
      var (sites2, out2) := RebuiltFrom(ms, copy, i);
      var s := copy[ms[i - 1].site];
      && sites2 == (if sites == [] || sites[|sites| - 1].position != s.position then sites + [s] else sites)
      && out2 == out + [ms[i - 1].(site := |sites2| - 1)]
  {
  }

  lemma {:induction false} RebuiltKeepsFields(ms: seq<MutationRecord>, copy: seq<Site>, i: int)
    requires SitesValid(ms, copy) && 0 <= i <= |ms|
    ensures var out := RebuiltFrom(ms, copy, i).1; forall k :: 0 <= k < |out| ==> out[k] == ms[k].(site := out[k].site)
  {
    if i > 0 {
      RebuiltKeepsFields(ms, copy, i - 1);
      RebuiltUnfold(ms, copy, i);
      var out := RebuiltFrom(ms, copy, i - 1).1;
      var out2 := RebuiltFrom(ms, copy, i).1;
      assert forall k :: 0 <= k < |out| ==> out2[k] == out[k];
    }
  }

  lemma {:induction false} RebuiltKeepsPositions(ms: seq<MutationRecord>, copy: seq<Site>, i: int)
    requires SitesValid(ms, copy) && 0 <= i <= |ms|
    ensures var (sites, out) := RebuiltFrom(ms, copy, i);
      forall k :: 0 <= k < |out| ==> sites[out[k].site].position == copy[ms[k].site].position
  {
    if i > 0 {
      RebuiltKeepsPositions(ms, copy, i - 1);
      RebuiltUnfold(ms, copy, i);
      var (sites, out) := RebuiltFrom(ms, copy, i - 1);
      var (sites2, out2) := RebuiltFrom(ms, copy, i);
      forall k | 0 <= k < |out2| ensures sites2[out2[k].site].position == copy[ms[k].site].position {
        if k < |out| {
          assert out2[k] == out[k];
          assert sites2[out[k].site] == sites[out[k].site];
        }
      }
    }
  }

  lemma {:induction false} RebuiltFromCopy(ms: seq<MutationRecord>, copy: seq<Site>, i: int)
    requires SitesValid(ms, copy) && 0 <= i <= |ms|
    ensures var sites := RebuiltFrom(ms, copy, i).0; forall k :: 0 <= k < |sites| ==> sites[k] in copy
  {
    if i > 0 {
      RebuiltFromCopy(ms, copy, i - 1);
      RebuiltUnfold(ms, copy, i);
    }
  }

  lemma {:induction false} RebuiltNeighboursDiffer(ms: seq<MutationRecord>, copy: seq<Site>, i: int)
    requires SitesValid(ms, copy) && 0 <= i <= |ms|
    ensures var sites := RebuiltFrom(ms, copy, i).0;
      forall k :: 0 <= k && k + 1 < |sites| ==> sites[k].position != sites[k + 1].position
  {
    if i > 0 {
      RebuiltNeighboursDiffer(ms, copy, i - 1);
      RebuiltUnfold(ms, copy, i);
    }
  }

  lemma {:induction false} RebuiltOrdered(ms: seq<MutationRecord>, copy: seq<Site>, i: int)
    requires SitesValid(ms, copy) && 0 <= i <= |ms|
    ensures var out := RebuiltFrom(ms, copy, i).1; forall k, l :: 0 <= k < l < |out| ==> out[k].site <= out[l].site
  {
    if i > 0 {
      RebuiltOrdered(ms, copy, i - 1);
      RebuiltUnfold(ms, copy, i);
      var out := RebuiltFrom(ms, copy, i - 1).1;
      var out2 := RebuiltFrom(ms, copy, i).1;
      assert forall k :: 0 <= k < |out| ==> out2[k] == out[k];
    }
  }

  lemma {:induction false} RebuiltAllReferenced(ms: seq<MutationRecord>, copy: seq<Site>, i: int)
    requires SitesValid(ms, copy) && 0 <= i <= |ms|
    ensures var (sites, out) := RebuiltFrom(ms, copy, i); forall s :: 0 <= s < |sites| ==> SiteReferenced(out, s)
  {
    if i > 0 {
      RebuiltAllReferenced(ms, copy, i - 1);
      RebuiltUnfold(ms, copy, i);
      var (sites2, out2) := RebuiltFrom(ms, copy, i);
      ReferencedStep(RebuiltFrom(ms, copy, i - 1).1, out2[i - 1], |sites2|);
    }
  }

  /** The loop of rebuild_site_table. */
  method RebuildSites(ms: seq<MutationRecord>, copy: seq<Site>) returns (sites: seq<Site>, out: seq<MutationRecord>)
    requires SitesValid(ms, copy)
    ensures (sites, out) == RebuiltSites(ms, copy)
  {
    sites, out := [], [];
    var i := 0;
    while i < |ms|
      invariant 0 <= i <= |ms|
      invariant (sites, out) == RebuiltFrom(ms, copy, i)
    {
      var os := ms[i].site;
      var s := copy[os];
      if sites == [] || sites[|sites| - 1].position != s.position {
        sites := sites + [s];
      }
      var mr := ms[i].(site := |sites| - 1);
      if copy[os].position != sites[mr.site].position {
        // the library throws tables_error here; the branch is unreachable
        assert false;
      }
      out := out + [mr];
      i := i + 1;
    }
  }

  /**
   * sort_tables_for_simplification: a negative offset leaves the edge table
   * alone; otherwise sort_edge_table(offset) runs first and its out_of_range
   * propagates before the mutation table is touched.
   */
  method SortTablesForSimplification(offset: int, t: TableCollection) returns (r: Outcome)
    modifies t
    ensures offset >= 0 && offset >= |old(t.edges)| <==> r != Done
    ensures r != Done ==> r == Fail(OutOfRange) && t.edges == old(t.edges) && t.mutations == old(t.mutations)
    ensures r == Done && offset < 0 ==> t.edges == old(t.edges)
    ensures r == Done && offset >= 0 ==> t.edges == SortedEdges(offset, old(t.edges), t.nodes)
    ensures r == Done ==> t.mutations == SortedMutations(old(t.mutations), t.sites)
    ensures t.nodes == old(t.nodes) && t.sites == old(t.sites) && t.L == old(t.L)
    ensures t.inputLeft == old(t.inputLeft) && t.outputRight == old(t.outputRight)
    ensures t.edgeOffset == old(t.edgeOffset)
  {
    if offset >= 0 {
      r := SortEdgeTable(offset, t);
      if r.Fail? { return; }
    }
    SortMutationTable(t);
    r := Done;
  }

  /**
   * sort_tables: sort_edge_table(offset), then the mutation table, then
   * rebuild_site_table.
   */
  method SortTables(offset: int, t: TableCollection) returns (r: Outcome)
    modifies t
    ensures r == Done <==> 0 <= offset < |old(t.edges)|
    ensures r != Done ==> r == Fail(OutOfRange) && t.edges == old(t.edges) && t.mutations == old(t.mutations)
    ensures r == Done ==> t.edges == SortedEdges(offset, old(t.edges), t.nodes)
    ensures r == Done ==> |t.mutations| == |old(t.mutations)| && SitesValid(t.mutations, t.sites)
    ensures r == Done ==> forall i, j :: 0 <= i < j < |t.mutations| ==> t.mutations[i].site <= t.mutations[j].site
    ensures t.nodes == old(t.nodes) && t.L == old(t.L)
    requires SitesValid(t.mutations, t.sites)
  {
    r := SortEdgeTable(offset, t);
    if r.Fail? { return; }
    SortMutationTable(t);
    assert SitesValid(t.mutations, t.sites) by {
      forall i | 0 <= i < |t.mutations| ensures 0 <= t.mutations[i].site < |t.sites| {
        assert t.mutations[i] in multiset(old(t.mutations));
        var k :| 0 <= k < |old(t.mutations)| && old(t.mutations)[k] == t.mutations[i];
      }
    }
    r := RebuildSiteTable(t);
  }

  /** The edge table as a valid table collection holds it: 0 <= left < right <= L. */
  predicate EdgesWellFormed(edges: seq<Edge>, L: real)
  {
    forall i :: 0 <= i < |edges| ==> 0.0 <= edges[i].left < edges[i].right <= L
  }

  /** The index vectors are permutations of the edge ids, ordered by left and by right. */
  predicate IndexesSorted(edges: seq<Edge>, il: seq<int>, or: seq<int>)
  {
    && IsIndexPermutation(il, |edges|) && IsIndexPermutation(or, |edges|)
    && (forall a, b :: 0 <= a < b < |il| ==> LeftOf(edges, il[a]) <= LeftOf(edges, il[b]))
    && (forall a, b :: 0 <= a < b < |or| ==> RightOf(edges, or[a]) <= RightOf(edges, or[b]))
  }

  /** build_indexes produces indexes in the order count_trees relies on. */
  lemma BuiltIndexesSorted(edges: seq<Edge>, nodes: seq<Node>)
    ensures IndexesSorted(edges, InputOrder(edges, nodes), OutputOrder(edges, nodes))
  {
    var il, or := InputOrder(edges, nodes), OutputOrder(edges, nodes);
    forall a, b | 0 <= a < b < |il| ensures LeftOf(edges, il[a]) <= LeftOf(edges, il[b]) {
      assert InputBefore(edges, nodes, il[a], il[b]);
    }
    forall a, b | 0 <= a < b < |or| ensures RightOf(edges, or[a]) <= RightOf(edges, or[b]) {
      assert OutputBefore(edges, nodes, or[a], or[b]);
    }
  }

  /**
   * The breakpoints of the tables: 0, every left end and every right end
   * short of L.  Each is the left end of exactly one marginal tree.
   */
  ghost function Breakpoints(edges: seq<Edge>, L: real): set<real>
  {
    {0.0} + (set i | 0 <= i < |edges| :: edges[i].left)
    + (set i | 0 <= i < |edges| && edges[i].right < L :: edges[i].right)
  }

  ghost function Below(B: set<real>, x: real): set<real>
  {
    set b | b in B && b < x
  }

  lemma BelowStep(B: set<real>, lo: real, hi: real)
    requires lo in B && lo < hi
    requires forall b :: b in B && lo < b ==> hi <= b
    ensures |Below(B, hi)| == |Below(B, lo)| + 1
  {
    assert Below(B, hi) == Below(B, lo) + {lo};
  }

  /** Every edge id occurs in an index permutation. */
  lemma PermutationCovers(r: seq<int>, n: nat, e: int)
    requires IsIndexPermutation(r, n) && 0 <= e < n
    ensures exists a :: 0 <= a < |r| && r[a] == e
  {
    assert Range(0, n)[e] == e;
    assert e in multiset(Range(0, n));
    assert e in multiset(r);
  }

  /**
   * No breakpoint lies strictly between lo and hi when every left end before
   * input index j and every right end before output index k is at most lo,
   * and all the later ones are at least hi.
   */
  lemma NoBreakpointBetween(edges: seq<Edge>, il: seq<int>, or: seq<int>, L: real, j: int, k: int, lo: real, hi: real)
    requires IsIndexPermutation(il, |edges|) && IsIndexPermutation(or, |edges|)
    requires |il| == |or| == |edges|
    requires forall a :: 0 <= a < |il| ==> 0 <= il[a] < |edges|
    requires forall a :: 0 <= a < |or| ==> 0 <= or[a] < |edges|
    requires 0 <= j <= |edges| && 0 <= k <= |edges| && 0.0 <= lo < hi
    requires forall a :: 0 <= a < j ==> edges[il[a]].left <= lo
    requires forall a :: j <= a < |edges| ==> edges[il[a]].left >= hi
    requires forall a :: 0 <= a < k ==> edges[or[a]].right <= lo
    requires forall a :: k <= a < |edges| ==> edges[or[a]].right >= hi
    ensures forall b :: b in Breakpoints(edges, L) && lo < b ==> hi <= b
  {
    var n := |edges|;
    forall b | b in Breakpoints(edges, L) && lo < b ensures hi <= b {
      if b != 0.0 {
        var e :| 0 <= e < n && (edges[e].left == b || (edges[e].right < L && edges[e].right == b));
        if edges[e].left == b {
          PermutationCovers(il, n, e);
          var a :| 0 <= a < n && il[a] == e;
        } else {
          PermutationCovers(or, n, e);
          var a :| 0 <= a < n && or[a] == e;
        }
      }
    }
  }

  /**
   * One pass of count_trees' loop at tree_left < L: skips the edges that end
   * and start at tree_left and finds tree_right, the next breakpoint or L.
   */
  method NextTree(edges: seq<Edge>, il: seq<int>, or: seq<int>, L: real, j: int, k: int, treeLeft: real,
                  ghost first: bool)
    returns (j2: int, k2: int, treeRight: real)
    requires IndexesSorted(edges, il, or) && EdgesWellFormed(edges, L) && |il| == |or| == |edges|
    requires forall a :: 0 <= a < |il| ==> 0 <= il[a] < |edges|
    requires forall a :: 0 <= a < |or| ==> 0 <= or[a] < |edges|
    requires 0 <= j <= |edges| && 0 <= k <= |edges| && 0.0 <= treeLeft < L
    requires forall a :: 0 <= a < j ==> edges[il[a]].left <= treeLeft
    requires forall a :: j <= a < |edges| ==> edges[il[a]].left >= treeLeft
    requires forall a :: 0 <= a < k ==> edges[or[a]].right <= treeLeft
    requires forall a :: k <= a < |edges| ==> edges[or[a]].right >= treeLeft
    requires !first ==> (j < |edges| && edges[il[j]].left == treeLeft) || (k < |edges| && edges[or[k]].right == treeLeft)
    ensures j <= j2 <= |edges| && k <= k2 <= |edges| && treeLeft < treeRight <= L
    ensures !first ==> j2 > j || k2 > k
    ensures forall a :: 0 <= a < j2 ==> edges[il[a]].left <= treeRight
    ensures forall a :: j2 <= a < |edges| ==> edges[il[a]].left >= treeRight
    ensures forall a :: 0 <= a < k2 ==> edges[or[a]].right <= treeRight
    ensures forall a :: k2 <= a < |edges| ==> edges[or[a]].right >= treeRight
    ensures treeRight == L || (j2 < |edges| && edges[il[j2]].left == treeRight)
            || (k2 < |edges| && edges[or[k2]].right == treeRight)
    ensures treeRight in Breakpoints(edges, L) || treeRight == L
    ensures forall b :: b in Breakpoints(edges, L) && treeLeft < b ==> treeRight <= b
  {
    var n := |edges|;
    j2, k2 := j, k;
    while k2 < n && edges[or[k2]].right == treeLeft
      invariant k <= k2 <= n
      invariant forall a :: 0 <= a < k2 ==> edges[or[a]].right <= treeLeft
    {
      k2 := k2 + 1;
    }
    while j2 < n && edges[il[j2]].left == treeLeft
      invariant j <= j2 <= n
      invariant forall a :: 0 <= a < j2 ==> edges[il[a]].left <= treeLeft
    {
      j2 := j2 + 1;
    }
    treeRight := L;
    if j2 < n && edges[il[j2]].left < treeRight {
      treeRight := edges[il[j2]].left;
    }
    if k2 < n && edges[or[k2]].right < treeRight {
      treeRight := edges[or[k2]].right;
    }
    assert treeLeft < treeRight by {
      if j2 < n { assert edges[il[j2]].left > treeLeft; }
      if k2 < n { assert edges[or[k2]].right > treeLeft; }
    }
    forall a | j2 <= a < n ensures edges[il[a]].left >= treeRight {
      assert LeftOf(edges, il[j2]) <= LeftOf(edges, il[a]);
    }
    forall a | k2 <= a < n ensures edges[or[a]].right >= treeRight {
      assert RightOf(edges, or[k2]) <= RightOf(edges, or[a]);
    }
    NoBreakpointBetween(edges, il, or, L, j2, k2, treeLeft, treeRight);
  }

  /**
   * count_trees: tables_error when the tables are not indexed; otherwise the
   * number of marginal trees, which is the number of distinct breakpoints in
   * [0, L), and so at least 1.
   */
  method CountTrees(t: TableCollection) returns (r: Result<nat>)
    requires t.Valid() && EdgesWellFormed(t.edges, t.L)
    requires t.Indexed() ==> IndexesSorted(t.edges, t.inputLeft, t.outputRight)
    ensures r.Err? <==> !t.Indexed()
    ensures r.Err? ==> r.error == TablesError
    ensures r.Ok? ==> r.value == |Breakpoints(t.edges, t.L)| && r.value >= 1
  {
    if !t.Indexed() {
      return Err(TablesError);
    }
    var edges, il, or, L := t.edges, t.inputLeft, t.outputRight, t.L;
    var n := |edges|;
    PermutationInRange(il, n);
    PermutationInRange(or, n);
    ghost var B := Breakpoints(edges, L);
    var numTrees: nat := 0;
    var j, k := 0, 0;
    var treeLeft := 0.0;
    ghost var first := true;
    while j < n || treeLeft < L
      invariant 0 <= j <= n && 0 <= k <= n && 0.0 <= treeLeft <= L
      invariant forall a :: 0 <= a < j ==> edges[il[a]].left <= treeLeft
      invariant forall a :: j <= a < n ==> edges[il[a]].left >= treeLeft
      invariant forall a :: 0 <= a < k ==> edges[or[a]].right <= treeLeft
      invariant forall a :: k <= a < n ==> edges[or[a]].right >= treeLeft
      invariant treeLeft in B || treeLeft == L
      invariant numTrees == |Below(B, treeLeft)|
      invariant first ==> j == 0 && k == 0 && treeLeft == 0.0
      invariant !first ==> treeLeft == L || (j < n && edges[il[j]].left == treeLeft)
                           || (k < n && edges[or[k]].right == treeLeft)
      decreases 2 * (n - j) + 2 * (n - k) + (if first then 1 else 0)
    {
      assert treeLeft < L;
      var j2, k2, treeRight := NextTree(edges, il, or, L, j, k, treeLeft, first);
      BelowStep(B, treeLeft, treeRight);
      j, k, treeLeft := j2, k2, treeRight;
      numTrees := numTrees + 1;
      first := false;
    }
    assert Below(B, L) == B;
    assert 0.0 in B;
    r := Ok(numTrees);
  }
}

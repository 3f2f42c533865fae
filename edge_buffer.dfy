// fwdpp::ts edge buffer: births recorded since the last simplification are
// kept per parent in a nested_forward_lists<birth_data>, and are later
// "stitched" into the (sorted) edge table of a table collection.

module EdgeBuffer {
  import opened Types
  import opened Sorting
  import opened NestedForwardLists
  import opened TableCollection
  import opened TableCollectionFunctions

  /** One buffered birth: the segment [left, right) inherited by `child`. */
  datatype BirthData = BirthData(left: real, right: real, child: int)

  /** A parent alive at the last simplification, with its first and last edge index (or SIZE_MAX). */
  datatype ParentLocation = ParentLocation(parent: int, start: int, stop: int)

  /** The edges recorded for `parent` by a list of births, in list order. */
  function BirthEdges(births: seq<BirthData>, parent: int): (r: seq<Edge>)
    ensures |r| == |births|
    ensures forall k :: 0 <= k < |r| ==>
              r[k] == Edge(births[k].left, births[k].right, parent, births[k].child)
  {
    seq(|births|, k requires 0 <= k < |births| => Edge(births[k].left, births[k].right, parent, births[k].child))
  }

  function Prepend(acc: seq<Edge>, r: Result<seq<Edge>>): Result<seq<Edge>>
  {
    match r
    case Ok(x) => Ok(acc + x)
    case Err(e) => Err(e)
  }

  /**
   * What copy_births_since_last_simplification produces when it has reached
   * head index p on its way down from the last one, given the buffer's lists
   * `cs`: the births of every buffered parent newer than maxTime, from the
   * highest index down, until the first buffered parent that is not newer;
   * or the error thrown for an index that does not fit the table's signed
   * 32-bit id.  The head index is narrowed to int32 before it is used, as
   * convert_to_head_index does.
   */
  function CopyResult(cs: seq<seq<BirthData>>, nodes: seq<Node>, maxTime: real, p: int): Result<seq<Edge>>
    requires p < |cs| <= |nodes|
    decreases p + 1
  {
    if p < 0 then Ok([])
    else if ToInt32(p) < 0 then Err(RuntimeError)
    else if ToInt32(p) >= INT32_MAX then Err(OverflowError)
    else if cs[p] != [] && nodes[ToInt32(p)].time > maxTime then
      Prepend(BirthEdges(cs[p], ToInt32(p)), CopyResult(cs, nodes, maxTime, p - 1))
    else if cs[p] != [] then Ok([])
    else CopyResult(cs, nodes, maxTime, p - 1)
  }

  lemma PrependEmpty(r: Result<seq<Edge>>)
    ensures Prepend([], r) == r
  {
    if r.Ok? { assert [] + r.value == r.value; }
  }

  lemma PrependAssoc(a: seq<Edge>, b: seq<Edge>, r: Result<seq<Edge>>)
    ensures Prepend(a, Prepend(b, r)) == Prepend(a + b, r)
  {
    if r.Ok? { assert a + (b + r.value) == a + b + r.value; }
  }

  /** One step of the copy loop at head index p >= 0 whose narrowed id q is a valid id. */
  lemma CopyStep(cs: seq<seq<BirthData>>, nodes: seq<Node>, maxTime: real, p: int, q: int,
                 acc: seq<Edge>, top: Result<seq<Edge>>)
    requires 0 <= p < |cs| <= |nodes|
    requires q == ToInt32(p) && 0 <= q < INT32_MAX
    requires top == Prepend(acc, CopyResult(cs, nodes, maxTime, p))
    ensures cs[p] != [] && nodes[q].time > maxTime ==>
              top == Prepend(acc + BirthEdges(cs[p], q), CopyResult(cs, nodes, maxTime, p - 1))
    ensures cs[p] != [] && nodes[q].time <= maxTime ==> top == Ok(acc)
    ensures cs[p] == [] ==> top == Prepend(acc, CopyResult(cs, nodes, maxTime, p - 1))
  {
    PrependAssoc(acc, BirthEdges(cs[p], q), CopyResult(cs, nodes, maxTime, p - 1));
    assert acc + [] == acc;
  }

  /** Walks list p of the buffer (head, then next until null) into edges with the given parent. */
  method ParentBirths(buf: NestedForwardLists<BirthData>, p: int, parent: int) returns (r: seq<Edge>)
    requires buf.Valid() && 0 <= p < |buf.lists|
    ensures r == BirthEdges(buf.Contents(p), parent)
  {
    var births := buf.Elements(p);
    r := BirthEdges(births.value, parent);
  }

  /** copy_births_since_last_simplification; the output buffer starts empty. */
  method CopyBirthsSinceLastSimplification(buf: NestedForwardLists<BirthData>, t: TableCollection, maxTime: real)
    returns (r: Result<seq<Edge>>)
    requires buf.Valid() && |buf.lists| <= |t.nodes|
    ensures r == CopyResult(buf.AllContents(), t.nodes, maxTime, |buf.lists| - 1)
  {
    var nodes := t.nodes;
    ghost var cs := buf.AllContents();
    var acc: seq<Edge> := [];
    var p := |buf.head| - 1;
    ghost var top := CopyResult(cs, nodes, maxTime, p);
    PrependEmpty(top);
    while p >= 0
      invariant -1 <= p < |cs|
      invariant top == Prepend(acc, CopyResult(cs, nodes, maxTime, p))
      decreases p + 1
    {
      var parent := ToInt32(p);
      if parent < 0 {
        return Err(RuntimeError);
      }
      if parent >= INT32_MAX {
        return Err(OverflowError);
      }
      var ptime := nodes[parent].time;
      var h := buf.head[p];
      assert h == NULL <==> cs[p] == [];
      CopyStep(cs, nodes, maxTime, p, parent, acc, top);
      if h != NULL && ptime > maxTime {
        var mine := ParentBirths(buf, p, parent);
        acc := acc + mine;
      } else if h != NULL && ptime <= maxTime {
        return Ok(acc);
      }
      p := p - 1;
    }
    assert acc + [] == acc;
    r := Ok(acc);
  }

  /** Every copied edge comes from a buffered parent newer than maxTime. */
  lemma {:induction false} CopiedParentsNewer(cs: seq<seq<BirthData>>, nodes: seq<Node>, maxTime: real, p: int)
    requires p < |cs| <= |nodes|
    ensures CopyResult(cs, nodes, maxTime, p).Ok? ==>
              forall e :: e in CopyResult(cs, nodes, maxTime, p).value ==>
                0 <= e.parent <= p && nodes[e.parent].time > maxTime
    decreases p + 1
  {
    if p >= 0 {
      CopiedParentsNewer(cs, nodes, maxTime, p - 1);
      var rest := CopyResult(cs, nodes, maxTime, p - 1);
      var q := ToInt32(p);
      if q >= 0 && q < INT32_MAX && cs[p] != [] && nodes[q].time > maxTime && rest.Ok? {
        var mine := BirthEdges(cs[p], q);
        assert CopyResult(cs, nodes, maxTime, p).value == mine + rest.value;
        forall e | e in mine + rest.value
          ensures 0 <= e.parent <= p && nodes[e.parent].time > maxTime
        {
          if e in mine {
            var k :| 0 <= k < |mine| && mine[k] == e;
          }
        }
      }
    }
  }

  /** Nothing at or below the first buffered parent that is not newer than maxTime is copied. */
  lemma {:induction false} CopyStopsAtOlderParent(cs: seq<seq<BirthData>>, nodes: seq<Node>, maxTime: real, p: int, q: int)
    requires p < |cs| <= |nodes| && p < INT32_MAX
    requires 0 <= q <= p && cs[q] != [] && nodes[q].time <= maxTime
    ensures CopyResult(cs, nodes, maxTime, p).Ok? ==>
              forall e :: e in CopyResult(cs, nodes, maxTime, p).value ==> e.parent > q
    decreases p + 1
  {
    if p > q {
      CopyStopsAtOlderParent(cs, nodes, maxTime, p - 1, q);
      CopiedParentsNewer(cs, nodes, maxTime, p - 1);
    }
  }

  /**
   * The two throws can only come from the highest head index: a buffer that
   * is shorter than the largest int32 never throws, and one of exactly that
   * length throws overflow_error.
   */
  lemma {:induction false} CopyErrors(cs: seq<seq<BirthData>>, nodes: seq<Node>, maxTime: real, p: int)
    requires p < |cs| <= |nodes|
    ensures p < INT32_MAX ==> CopyResult(cs, nodes, maxTime, p).Ok?
    ensures p == INT32_MAX ==> CopyResult(cs, nodes, maxTime, p) == Err(OverflowError)
    decreases p + 1
  {
    if 0 <= p < INT32_MAX {
      CopyErrors(cs, nodes, maxTime, p - 1);
    }
  }

  // find_pre_existing_edges

  /** The ids of alive_at_last_simplification that have buffered births, in their order. */
  function Buffered(lists: seq<seq<int>>, alive: seq<int>): (r: seq<int>)
    ensures forall i :: 0 <= i < |r| ==> 0 <= r[i] < |lists| && lists[r[i]] != []
    ensures forall a :: a in r <==> a in alive && 0 <= a < |lists| && lists[a] != []
  {
    var p := a => 0 <= a < |lists| && lists[a] != [];
    FilterMembers(alive, p);
    Filter(alive, p)
  }

  lemma BufferedConcat(lists: seq<seq<int>>, a: seq<int>, b: seq<int>)
    ensures Buffered(lists, a + b) == Buffered(lists, a) + Buffered(lists, b)
  {
    FilterConcat(a, b, x => 0 <= x < |lists| && lists[x] != []);
  }

  /** The exception head() throws for the first invalid alive id, or Done when all are valid. */
  function FirstBadIndex(alive: seq<int>, size: int): (r: Outcome)
    ensures r == Done <==> forall i :: 0 <= i < |alive| ==> 0 <= alive[i] < size
    ensures r != Done ==> r == Fail(InvalidArgument) || r == Fail(OutOfRange)
    ensures r == Fail(InvalidArgument) ==> NULL in alive
  {
    if alive == [] then Done
    else if CheckIndex(alive[0], size) != Done then CheckIndex(alive[0], size)
    else FirstBadIndex(alive[1..], size)
  }

  lemma {:induction false} FirstBadConcat(a: seq<int>, b: seq<int>, size: int)
    ensures FirstBadIndex(a + b, size) ==
              if FirstBadIndex(a, size) != Done then FirstBadIndex(a, size) else FirstBadIndex(b, size)
  {
    if a == [] {
      assert a + b == b;
    } else {
      assert (a + b)[1..] == a[1..] + b;
      FirstBadConcat(a[1..], b, size);
    }
  }

  /** starts[p]: the index of the first edge with parent p, or SIZE_MAX when there is none. */
  function FirstIndex(edges: seq<Edge>, p: int): (r: int)
    requires |edges| < SIZE_MAX
    ensures r == SIZE_MAX <==> forall k :: 0 <= k < |edges| ==> edges[k].parent != p
    ensures r != SIZE_MAX ==>
              0 <= r < |edges| && edges[r].parent == p && forall k :: 0 <= k < r ==> edges[k].parent != p
  {
    if edges == [] then SIZE_MAX
    else
      var n := |edges| - 1;
      var f := FirstIndex(edges[..n], p);
      assert forall k :: 0 <= k < n ==> edges[..n][k] == edges[k];
      if f != SIZE_MAX then f
      else if edges[n].parent == p then n
      else SIZE_MAX
  }

  /** stops[p]: the index of the last edge with parent p, or SIZE_MAX when there is none. */
  function LastIndex(edges: seq<Edge>, p: int): (r: int)
    requires |edges| < SIZE_MAX
    ensures r == SIZE_MAX <==> forall k :: 0 <= k < |edges| ==> edges[k].parent != p
    ensures r != SIZE_MAX ==>
              0 <= r < |edges| && edges[r].parent == p && forall k :: r < k < |edges| ==> edges[k].parent != p
  {
    if edges == [] then SIZE_MAX
    else
      var n := |edges| - 1;
      assert forall k :: 0 <= k < n ==> edges[..n][k] == edges[k];
      if edges[n].parent == p then n
      else LastIndex(edges[..n], p)
  }

  /** The parent_location find_pre_existing_edges records for parent p. */
  function Location(edges: seq<Edge>, p: int): (r: ParentLocation)
    requires |edges| < SIZE_MAX
    ensures r.parent == p
    ensures r.start == SIZE_MAX <==> r.stop == SIZE_MAX
    ensures r.start != SIZE_MAX ==> 0 <= r.start <= r.stop < |edges|
  {
    ParentLocation(p, FirstIndex(edges, p), LastIndex(edges, p))
  }

  function ParentOf(x: ParentLocation): int { x.parent }

  /** nodes[p].time, or 0 for an id that is not a row. */
  function NodeTime(nodes: seq<Node>, p: int): real
  {
    if 0 <= p < |nodes| then nodes[p].time else 0.0
  }

  /** The sort key (-time, start, parent) of find_pre_existing_edges. */
  function LocationKey(nodes: seq<Node>, x: ParentLocation): seq<real>
  {
    [-NodeTime(nodes, x.parent), x.start as real, x.parent as real]
  }

  /** Older-first order of the sorted locations: time descending, ties by first edge index. */
  predicate LocationBefore(nodes: seq<Node>, a: ParentLocation, b: ParentLocation)
  {
    NodeTime(nodes, a.parent) > NodeTime(nodes, b.parent)
    || (NodeTime(nodes, a.parent) == NodeTime(nodes, b.parent) && a.start <= b.start)
  }

  lemma LocationKeyOrder(nodes: seq<Node>, a: ParentLocation, b: ParentLocation)
    ensures !LexLess(LocationKey(nodes, b), LocationKey(nodes, a)) ==> LocationBefore(nodes, a, b)
  {
    var ka, kb := LocationKey(nodes, a), LocationKey(nodes, b);
    assert ka[1..][1..][1..] == [] && kb[1..][1..][1..] == [];
    assert LexLess(kb[1..][1..], ka[1..][1..]) <==> b.parent < a.parent;
    assert LexLess(kb[1..], ka[1..]) <==> b.start < a.start || (b.start == a.start && b.parent < a.parent);
  }

  /**
   * `existing` holds a location for each of the parents ps (as a multiset),
   * each with its true first and last edge index, in LocationBefore order.
   */
  predicate LocationsOf(edges: seq<Edge>, nodes: seq<Node>, ps: seq<int>, existing: seq<ParentLocation>)
    requires |edges| < SIZE_MAX
  {
    && multiset(Map(existing, ParentOf)) == multiset(ps)
    && (forall i :: 0 <= i < |existing| ==> existing[i] == Location(edges, existing[i].parent))
    && (forall i, j :: 0 <= i < j < |existing| ==> LocationBefore(nodes, existing[i], existing[j]))
  }

  /** Extending the scanned prefix by edge i: how the first and last indexes change. */
  lemma RangesStep(edges: seq<Edge>, i: int)
    requires 0 <= i < |edges| < SIZE_MAX
    ensures forall q :: FirstIndex(edges[..i + 1], q) ==
              if FirstIndex(edges[..i], q) != SIZE_MAX then FirstIndex(edges[..i], q)
              else if edges[i].parent == q then i else SIZE_MAX
    ensures forall q :: LastIndex(edges[..i + 1], q) ==
              if edges[i].parent == q then i else LastIndex(edges[..i], q)
  {
    var e := edges[..i + 1];
    assert e[..i] == edges[..i] && e[i] == edges[i] && |e| - 1 == i;
    forall q ensures FirstIndex(e, q) ==
              if FirstIndex(edges[..i], q) != SIZE_MAX then FirstIndex(edges[..i], q)
              else if edges[i].parent == q then i else SIZE_MAX
    {
    }
    forall q ensures LastIndex(e, q) == if edges[i].parent == q then i else LastIndex(edges[..i], q) {
    }
  }

  /** The starts/stops loop: first and last edge index of every node. */
  method EdgeRanges(edges: seq<Edge>, numNodes: nat) returns (starts: seq<int>, stops: seq<int>)
    requires forall i :: 0 <= i < |edges| ==> 0 <= edges[i].parent < numNodes
    requires |edges| < SIZE_MAX
    ensures |starts| == |stops| == numNodes
    ensures forall q :: 0 <= q < numNodes ==> starts[q] == FirstIndex(edges, q) && stops[q] == LastIndex(edges, q)
  {
    starts := seq(numNodes, _ => SIZE_MAX);
    stops := seq(numNodes, _ => SIZE_MAX);
    var i := 0;
    while i < |edges|
      invariant 0 <= i <= |edges|
      invariant |starts| == |stops| == numNodes
      invariant forall q :: 0 <= q < numNodes ==>
                  starts[q] == FirstIndex(edges[..i], q) && stops[q] == LastIndex(edges[..i], q)
    {
      var p := edges[i].parent;
      RangesStep(edges, i);
      if starts[p] == SIZE_MAX {
        starts := starts[p := i];
        stops := stops[p := i];
      } else {
        stops := stops[p := i];
      }
      i := i + 1;
    }
    assert edges[..i] == edges;
  }

  /** The first loop of find_pre_existing_edges: head() of every alive id, keeping those with births. */
  method AliveWithNewEdges(alive: seq<int>, buf: NestedForwardLists<BirthData>) returns (r: Result<seq<int>>)
    requires buf.Valid()
    ensures r.Err? <==> FirstBadIndex(alive, |buf.lists|) != Done
    ensures r.Err? ==> FirstBadIndex(alive, |buf.lists|) == Fail(r.error)
    ensures r.Ok? ==> r.value == Buffered(buf.lists, alive)
  {
    ghost var L := buf.lists;
    var withNew: seq<int> := [];
    var i := 0;
    while i < |alive|
      invariant 0 <= i <= |alive|
      invariant FirstBadIndex(alive[..i], |L|) == Done
      invariant withNew == Buffered(L, alive[..i])
    {
      var a := alive[i];
      FirstBadStep(alive, i, |L|);
      FirstBadAt(alive, i, |L|);
      var h := buf.Head(a);
      if h.Err? {
        return Err(h.error);
      }
      BufferedStep(L, alive, i);
      if h.value != NULL {
        withNew := withNew + [a];
      }
      i := i + 1;
    }
    assert alive[..i] == alive;
    r := Ok(withNew);
  }

  lemma BufferedStep(lists: seq<seq<int>>, alive: seq<int>, i: nat)
    requires i < |alive|
    ensures Buffered(lists, alive[..i + 1]) == Buffered(lists, alive[..i])
              + (if 0 <= alive[i] < |lists| && lists[alive[i]] != [] then [alive[i]] else [])
  {
    assert alive[..i + 1] == alive[..i] + [alive[i]];
    BufferedConcat(lists, alive[..i], [alive[i]]);
    assert [alive[i]][1..] == [];
  }

  /** Where the first i ids are valid, the (i+1)-th decides FirstBadIndex of the first i+1. */
  lemma FirstBadStep(alive: seq<int>, i: nat, size: int)
    requires i < |alive| && FirstBadIndex(alive[..i], size) == Done
    ensures FirstBadIndex(alive[..i + 1], size) == CheckIndex(alive[i], size)
  {
    var a := alive[i];
    assert alive[..i + 1] == alive[..i] + [a];
    FirstBadConcat(alive[..i], [a], size);
    assert [a][1..] == [];
  }

  /** Where the first i ids are valid, an invalid (i+1)-th decides FirstBadIndex of all. */
  lemma FirstBadAt(alive: seq<int>, i: nat, size: int)
    requires i < |alive| && FirstBadIndex(alive[..i], size) == Done
    ensures CheckIndex(alive[i], size) != Done ==> FirstBadIndex(alive, size) == CheckIndex(alive[i], size)
  {
    assert alive[..i] + alive[i..] == alive;
    FirstBadConcat(alive[..i], alive[i..], size);
    assert alive[i..][0] == alive[i];
  }

  /** The locations of parents ps, sorted by (-time, start, parent), with the library's check that times never increase. */
  method SortedLocations(edges: seq<Edge>, nodes: seq<Node>, ps: seq<int>) returns (r: seq<ParentLocation>)
    requires ParentsValid(edges, nodes) && |edges| < SIZE_MAX
    requires forall k :: 0 <= k < |ps| ==> 0 <= ps[k] < |nodes|
    ensures LocationsOf(edges, nodes, ps, r)
  {
    var starts, stops := EdgeRanges(edges, |nodes|);
    var locs := seq(|ps|, k requires 0 <= k < |ps| => ParentLocation(ps[k], starts[ps[k]], stops[ps[k]]));
    assert forall k :: 0 <= k < |locs| ==> locs[k] == Location(edges, locs[k].parent);
    var key := x => LocationKey(nodes, x);
    r := SortBy(locs, key);
    SortByCorrect(locs, key);
    assert Map(locs, ParentOf) == ps;
    MapPermutation(locs, r, ParentOf);
    forall k | 0 <= k < |r|
      ensures r[k] in locs
    {
      assert r[k] in multiset(r);
    }
    TimesNeverIncrease(nodes, r);
    forall a, b | 0 <= a < b < |r|
      ensures LocationBefore(nodes, r[a], r[b])
    {
      LocationKeyOrder(nodes, r[a], r[b]);
    }
  }

  /**
   * The check loop after the sort: on sorted locations the parents' birth
   * times never increase, so its runtime_error is unreachable.
   */
  method TimesNeverIncrease(nodes: seq<Node>, sorted: seq<ParentLocation>)
    requires forall k :: 0 <= k < |sorted| ==> 0 <= sorted[k].parent < |nodes|
    requires SortedBy(sorted, x => LocationKey(nodes, x))
    ensures forall k :: 1 <= k < |sorted| ==> nodes[sorted[k - 1].parent].time >= nodes[sorted[k].parent].time
  {
    var j := 1;
    while j < |sorted|
      invariant 1 <= j
      invariant forall k :: 1 <= k < j && k < |sorted| ==> nodes[sorted[k - 1].parent].time >= nodes[sorted[k].parent].time
    {
      LocationKeyOrder(nodes, sorted[j - 1], sorted[j]);
      if nodes[sorted[j - 1].parent].time < nodes[sorted[j].parent].time {
        assert false;
      }
      j := j + 1;
    }
  }

  /**
   * find_pre_existing_edges: fails as head() does on the first invalid alive
   * id; otherwise the locations of the alive parents with buffered births,
   * sorted.  The library's check that the result is sorted by time is
   * unreachable.
   */
  method FindPreExistingEdges(t: TableCollection, alive: seq<int>, buf: NestedForwardLists<BirthData>)
    returns (r: Result<seq<ParentLocation>>)
    requires buf.Valid() && |buf.lists| <= |t.nodes| && ParentsValid(t.edges, t.nodes) && |t.edges| < SIZE_MAX
    ensures r.Err? <==> FirstBadIndex(alive, |buf.lists|) != Done
    ensures r.Err? ==> FirstBadIndex(alive, |buf.lists|) == Fail(r.error)
    ensures r.Ok? ==> LocationsOf(t.edges, t.nodes, Buffered(buf.lists, alive), r.value)
    ensures r.Ok? && Buffered(buf.lists, alive) == [] ==> r.value == []
  {
    var withNew := AliveWithNewEdges(alive, buf);
    if withNew.Err? {
      return Err(withNew.error);
    }
    if withNew.value == [] {
      return Ok([]);
    }
    var sorted := SortedLocations(t.edges, t.nodes, withNew.value);
    r := Ok(sorted);
  }

  /** With duplicate-free alive ids the locations name distinct parents. */
  lemma LocationsDistinct(edges: seq<Edge>, nodes: seq<Node>, ps: seq<int>, existing: seq<ParentLocation>)
    requires |edges| < SIZE_MAX && LocationsOf(edges, nodes, ps, existing) && Distinct(ps)
    ensures forall i, j :: 0 <= i < j < |existing| ==> existing[i].parent != existing[j].parent
  {
    DistinctPermutation(ps, Map(existing, ParentOf));
  }

  // handle_pre_existing_edges

  /** What handle_pre_existing_edges needs of its input to stay within the tables. */
  predicate LocationsWellFormed(existing: seq<ParentLocation>, numEdges: int, numLists: int)
  {
    forall i :: 0 <= i < |existing| ==>
      && 0 <= existing[i].parent < numLists
      && (existing[i].start == SIZE_MAX || 0 <= existing[i].start <= existing[i].stop < numEdges)
  }

  /** The locations of distinct parents, with their true edge ranges, in LocationBefore order. */
  predicate LocationsConsistent(existing: seq<ParentLocation>, edges: seq<Edge>, nodes: seq<Node>)
    requires |edges| < SIZE_MAX
  {
    && (forall i :: 0 <= i < |existing| ==> existing[i] == Location(edges, existing[i].parent))
    && (forall i, j :: 0 <= i < j < |existing| ==> existing[i].parent != existing[j].parent)
    && (forall i, j :: 0 <= i < j < |existing| ==> LocationBefore(nodes, existing[i], existing[j]))
  }

  /** The edges of the buffered births of each parent in ps, in the order of ps. */
  ghost function AllBirthsOf(cs: seq<seq<BirthData>>, ps: seq<int>): seq<Edge>
  {
    FlatMap(ps, p => if 0 <= p < |cs| then BirthEdges(cs[p], p) else [])
  }

  /** Permuting the parents permutes their births. */
  lemma AllBirthsPermutation(cs: seq<seq<BirthData>>, a: seq<int>, b: seq<int>)
    requires multiset(a) == multiset(b)
    ensures multiset(AllBirthsOf(cs, a)) == multiset(AllBirthsOf(cs, b))
  {
    FlatMapPermutation(a, b, p => if 0 <= p < |cs| then BirthEdges(cs[p], p) else []);
  }

  /** Parent times never increase along a sorted edge table. */
  lemma SortedTimes(nodes: seq<Node>, edges: seq<Edge>, a: int, b: int)
    requires EdgesSorted(nodes, edges) && 0 <= a < |edges| && 0 <= b < |edges|
    ensures a <= b ==> ParentTimeOf(nodes, edges[a]) >= ParentTimeOf(nodes, edges[b])
  {
    if a < b {
      assert !EdgeLess(nodes, edges[b], edges[a]);
    }
  }

  /** The edges of one parent are contiguous in a sorted edge table. */
  lemma Contiguous(nodes: seq<Node>, edges: seq<Edge>, a: int, k: int, b: int)
    requires EdgesSorted(nodes, edges) && 0 <= a < |edges| && 0 <= k < |edges| && 0 <= b < |edges|
    ensures a <= k <= b && edges[a].parent == edges[b].parent ==> edges[k].parent == edges[a].parent
  {
    SortedTimes(nodes, edges, a, k);
    SortedTimes(nodes, edges, k, b);
    if a < k < b {
      assert !EdgeLess(nodes, edges[k], edges[a]);
      assert !EdgeLess(nodes, edges[b], edges[k]);
    }
  }

  /** Of two consistent locations with edges, the earlier one's edges all come first. */
  lemma LocationsDisjoint(existing: seq<ParentLocation>, edges: seq<Edge>, nodes: seq<Node>, i: int, j: int)
    requires |edges| < SIZE_MAX && EdgesSorted(nodes, edges) && LocationsConsistent(existing, edges, nodes)
    requires 0 <= i < j < |existing| && existing[i].start != SIZE_MAX && existing[j].start != SIZE_MAX
    ensures existing[i].stop < existing[j].start
  {
    var x, y := existing[i], existing[j];
    assert x == Location(edges, x.parent) && y == Location(edges, y.parent);
    SortedTimes(nodes, edges, y.start, x.stop);
    Contiguous(nodes, edges, x.start, y.start, x.stop);
  }

  /** Where the first while loop stops: the first index from off whose parent is not newer than time. */
  function NewerEnd(edges: seq<Edge>, nodes: seq<Node>, off: int, time: real): (r: int)
    requires 0 <= off <= |edges|
    ensures off <= r <= |edges|
    ensures forall k :: off <= k < r ==> ParentTimeOf(nodes, edges[k]) > time
    ensures r == |edges| || ParentTimeOf(nodes, edges[r]) <= time
    decreases |edges| - off
  {
    if off == |edges| || ParentTimeOf(nodes, edges[off]) <= time then off
    else NewerEnd(edges, nodes, off + 1, time)
  }

  /** Where the second while loop stops: at stop, or at the first edge from off whose parent is older than time. */
  function UpToEnd(edges: seq<Edge>, nodes: seq<Node>, off: int, stop: int, time: real): (r: int)
    requires 0 <= off <= |edges| && stop <= |edges|
    ensures off <= r <= |edges| && (r == off || r <= stop)
    ensures r >= stop || ParentTimeOf(nodes, edges[r]) < time
    decreases |edges| - off
  {
    if off >= stop || ParentTimeOf(nodes, edges[off]) < time then off
    else UpToEnd(edges, nodes, off + 1, stop, time)
  }

  /** The offset after handling location x from offset off. */
  function StepOffset(edges: seq<Edge>, nodes: seq<Node>, x: ParentLocation, off: int): (r: int)
    requires 0 <= off <= |edges| && (x.start == SIZE_MAX || 0 <= x.start <= x.stop < |edges|)
    ensures 0 <= r <= |edges|
  {
    if x.start == SIZE_MAX then NewerEnd(edges, nodes, off, NodeTime(nodes, x.parent)) else x.stop + 1
  }

  /**
   * The old edges appended when handling location x from offset off: those
   * of newer parents and, when x's parent has old edges, those up to its
   * first one and its own.
   */
  function StepOldEdges(edges: seq<Edge>, nodes: seq<Node>, x: ParentLocation, off: int): seq<Edge>
    requires 0 <= off <= |edges| && (x.start == SIZE_MAX || 0 <= x.start <= x.stop < |edges|)
  {
    var time := NodeTime(nodes, x.parent);
    var o1 := NewerEnd(edges, nodes, off, time);
    edges[off..o1]
    + (if x.start == SIZE_MAX then [] else edges[o1..UpToEnd(edges, nodes, o1, x.start, time)] + edges[x.start..x.stop + 1])
  }

  /**
   * handle_pre_existing_edges from location i on, with `out` appended so far
   * and the given offset: the final liftover edges and offset.  The edges
   * appended so far are never changed.
   */
  function HandleFrom(edges: seq<Edge>, nodes: seq<Node>, cs: seq<seq<BirthData>>, existing: seq<ParentLocation>,
                      i: int, out: seq<Edge>, off: int): (r: (seq<Edge>, int))
    requires LocationsWellFormed(existing, |edges|, |cs|) && 0 <= i <= |existing| && 0 <= off <= |edges|
    ensures 0 <= r.1 <= |edges|
    ensures |out| <= |r.0| && r.0[..|out|] == out
    decreases |existing| - i
  {
    if i == |existing| then (out, off)
    else
      var x := existing[i];
      var next := out + StepOldEdges(edges, nodes, x, off) + BirthEdges(cs[x.parent], x.parent);
      var r := HandleFrom(edges, nodes, cs, existing, i + 1, next, StepOffset(edges, nodes, existing[i], off));
      assert r.0[..|out|] == r.0[..|next|][..|out|];
      r
  }

  /** The first while loop: the edges from `off` on whose parent is newer than `time`. */
  method TakeNewer(edges: seq<Edge>, nodes: seq<Node>, off: int, time: real) returns (taken: seq<Edge>, o: int)
    requires ParentsValid(edges, nodes) && 0 <= off <= |edges|
    ensures o == NewerEnd(edges, nodes, off, time) && taken == edges[off..o]
  {
    o := off;
    taken := [];
    while o < |edges| && nodes[edges[o].parent].time > time
      invariant off <= o <= |edges| && taken == edges[off..o]
      invariant NewerEnd(edges, nodes, o, time) == NewerEnd(edges, nodes, off, time)
      decreases |edges| - o
    {
      taken := taken + [edges[o]];
      o := o + 1;
    }
  }

  /** The second while loop: edges before `stop` whose parent is not older than `time`. */
  method TakeUpTo(edges: seq<Edge>, nodes: seq<Node>, off: int, stop: int, time: real) returns (taken: seq<Edge>, o: int)
    requires ParentsValid(edges, nodes) && 0 <= off <= |edges| && stop <= |edges|
    ensures o == UpToEnd(edges, nodes, off, stop, time) && taken == edges[off..o]
  {
    o := off;
    taken := [];
    while o < stop && nodes[edges[o].parent].time >= time
      invariant off <= o <= |edges| && taken == edges[off..o]
      invariant UpToEnd(edges, nodes, o, stop, time) == UpToEnd(edges, nodes, off, stop, time)
      decreases |edges| - o
    {
      taken := taken + [edges[o]];
      o := o + 1;
    }
  }

  /** The for loop copying a parent's old edges, start through stop. */
  method ParentEdges(edges: seq<Edge>, start: int, stop: int) returns (r: seq<Edge>)
    requires 0 <= start <= stop < |edges|
    ensures r == edges[start..stop + 1]
  {
    r := [];
    var k := start;
    while k < stop + 1
      invariant start <= k <= stop + 1
      invariant r == edges[start..k]
    {
      assert edges[start..k + 1] == edges[start..k] + [edges[k]];
      r := r + [edges[k]];
      k := k + 1;
    }
  }

  /** The old edges handle_pre_existing_edges copies for location x, and the new offset. */
  method OldEdges(edges: seq<Edge>, nodes: seq<Node>, ex: ParentLocation, offset: int) returns (r: seq<Edge>, newOffset: int)
    requires ParentsValid(edges, nodes) && 0 <= offset <= |edges| && 0 <= ex.parent < |nodes|
    requires ex.start == SIZE_MAX || 0 <= ex.start <= ex.stop < |edges|
    ensures r == StepOldEdges(edges, nodes, ex, offset) && newOffset == StepOffset(edges, nodes, ex, offset)
  {
    var ptime := nodes[ex.parent].time;
    var a, o1 := TakeNewer(edges, nodes, offset, ptime);
    if ex.start != SIZE_MAX {
      var b, o2 := TakeUpTo(edges, nodes, o1, ex.start, ptime);
      var mine := ParentEdges(edges, ex.start, ex.stop);
      r, newOffset := a + (b + mine), ex.stop + 1;
    } else {
      r, newOffset := a + [], o1;
    }
  }

  /** handle_pre_existing_edges: appends to the liftover edges and returns the new offset. */
  method HandlePreExistingEdges(t: TableCollection, buf: NestedForwardLists<BirthData>,
                                existing: seq<ParentLocation>, liftover: seq<Edge>)
    returns (out: seq<Edge>, offset: int)
    requires buf.Valid() && |buf.lists| <= |t.nodes| && ParentsValid(t.edges, t.nodes)
    requires LocationsWellFormed(existing, |t.edges|, |buf.lists|)
    ensures (out, offset) == HandleFrom(t.edges, t.nodes, buf.AllContents(), existing, 0, liftover, 0)
  {
    var nodes, edges := t.nodes, t.edges;
    ghost var cs := buf.AllContents();
    out, offset := liftover, 0;
    var i := 0;
    while i < |existing|
      invariant 0 <= i <= |existing| && 0 <= offset <= |edges|
      invariant HandleFrom(edges, nodes, cs, existing, i, out, offset) == HandleFrom(edges, nodes, cs, existing, 0, liftover, 0)
    {
      var ex := existing[i];
      var kept, next := OldEdges(edges, nodes, ex, offset);
      var births := ParentBirths(buf, ex.parent, ex.parent);
      assert births == BirthEdges(cs[ex.parent], ex.parent);
      out, offset := out + kept + births, next;
      i := i + 1;
    }
  }

  /** No location from i on has its first edge before offset. */
  predicate NotPassed(existing: seq<ParentLocation>, i: int, offset: int)
  {
    forall j :: 0 <= i <= j < |existing| && existing[j].start != SIZE_MAX ==> offset <= existing[j].start
  }

  /** What handle_pre_existing_edges relies on: a sorted edge table and consistent locations. */
  predicate SortedAndConsistent(existing: seq<ParentLocation>, edges: seq<Edge>, nodes: seq<Node>)
  {
    |edges| < SIZE_MAX && EdgesSorted(nodes, edges) && LocationsConsistent(existing, edges, nodes)
  }

  /** After the first loop for location i, no location from i on has its first edge passed. */
  lemma NewerSkipsLaterStarts(existing: seq<ParentLocation>, edges: seq<Edge>, nodes: seq<Node>, i: int, off: int)
    requires SortedAndConsistent(existing, edges, nodes) && 0 <= i < |existing| && 0 <= off <= |edges|
    requires NotPassed(existing, i, off)
    ensures NotPassed(existing, i, NewerEnd(edges, nodes, off, NodeTime(nodes, existing[i].parent)))
  {
    var o := NewerEnd(edges, nodes, off, NodeTime(nodes, existing[i].parent));
    forall j | i <= j < |existing| && existing[j].start != SIZE_MAX
      ensures o <= existing[j].start
    {
      var y := existing[j];
      assert y == Location(edges, y.parent);
      assert ParentTimeOf(nodes, edges[y.start]) == NodeTime(nodes, y.parent);
      assert i < j ==> LocationBefore(nodes, existing[i], y);
    }
  }

  /** The second loop for location i stops exactly at its first edge. */
  lemma UpToReachesStart(existing: seq<ParentLocation>, edges: seq<Edge>, nodes: seq<Node>, i: int, off: int)
    requires SortedAndConsistent(existing, edges, nodes) && 0 <= i < |existing| && existing[i].start != SIZE_MAX
    requires 0 <= off <= existing[i].start
    ensures UpToEnd(edges, nodes, off, existing[i].start, NodeTime(nodes, existing[i].parent)) == existing[i].start
  {
    var x := existing[i];
    assert x == Location(edges, x.parent);
    var o := UpToEnd(edges, nodes, off, x.start, NodeTime(nodes, x.parent));
    assert ParentTimeOf(nodes, edges[x.start]) == NodeTime(nodes, x.parent);
    SortedTimes(nodes, edges, o, x.start);
  }

  /** One location: the old edges from off to the new offset, then the parent's births. */
  /** When both loops stop where they should, the old edges copied are one slice of the table. */
  lemma OldEdgesAreSlice(edges: seq<Edge>, nodes: seq<Node>, x: ParentLocation, off: int)
    requires 0 <= off <= |edges| && (x.start == SIZE_MAX || 0 <= x.start <= x.stop < |edges|)
    requires var time, o1 := NodeTime(nodes, x.parent), NewerEnd(edges, nodes, off, NodeTime(nodes, x.parent));
      x.start != SIZE_MAX ==> o1 <= x.start && UpToEnd(edges, nodes, o1, x.start, time) == x.start
    ensures off <= StepOffset(edges, nodes, x, off)
    ensures StepOldEdges(edges, nodes, x, off) == edges[off..StepOffset(edges, nodes, x, off)]
  {
    var o1 := NewerEnd(edges, nodes, off, NodeTime(nodes, x.parent));
    if x.start == SIZE_MAX {
      assert edges[off..o1] + [] == edges[off..o1];
    } else {
      SliceConcat(edges, o1, x.start, x.stop + 1);
      SliceConcat(edges, off, o1, x.stop + 1);
    }
  }

  lemma StepConserves(edges: seq<Edge>, nodes: seq<Node>, existing: seq<ParentLocation>, i: int, off: int)
    requires 0 <= i < |existing| && 0 <= off <= |edges|
    requires SortedAndConsistent(existing, edges, nodes) && NotPassed(existing, i, off)
    ensures var x, o := existing[i], StepOffset(edges, nodes, existing[i], off);
      && off <= o
      && StepOldEdges(edges, nodes, x, off) == edges[off..o]
      && NotPassed(existing, i + 1, o)
  {
    var x := existing[i];
    var time := NodeTime(nodes, x.parent);
    var o1 := NewerEnd(edges, nodes, off, time);
    NewerSkipsLaterStarts(existing, edges, nodes, i, off);
    if x.start != SIZE_MAX {
      assert x == Location(edges, x.parent);
      assert o1 <= x.start;
      UpToReachesStart(existing, edges, nodes, i, o1);
    }
    OldEdgesAreSlice(edges, nodes, x, off);
    if x.start != SIZE_MAX {
      forall j | i + 1 <= j < |existing| && existing[j].start != SIZE_MAX
        ensures x.stop + 1 <= existing[j].start
      {
        LocationsDisjoint(existing, edges, nodes, i, j);
      }
    }
  }

  lemma AllBirthsCons(cs: seq<seq<BirthData>>, ps: seq<int>, i: nat)
    requires i < |ps| && 0 <= ps[i] < |cs|
    ensures AllBirthsOf(cs, ps[i..]) == BirthEdges(cs[ps[i]], ps[i]) + AllBirthsOf(cs, ps[i + 1..])
  {
    assert ps[i..][1..] == ps[i + 1..];
  }

  /**
   * On a sorted edge table with consistent locations, handling from location
   * i, at an offset no remaining location has passed, appends exactly the
   * old edges from the offset to the final offset and the births of the
   * remaining locations' parents.
   */
  lemma {:induction false} HandleFromConserves(edges: seq<Edge>, nodes: seq<Node>, cs: seq<seq<BirthData>>,
                                               existing: seq<ParentLocation>, i: int, out: seq<Edge>, off: int)
    requires LocationsWellFormed(existing, |edges|, |cs|) && 0 <= i <= |existing| && 0 <= off <= |edges|
    requires SortedAndConsistent(existing, edges, nodes) && NotPassed(existing, i, off)
    ensures var r := HandleFrom(edges, nodes, cs, existing, i, out, off);
      && off <= r.1
      && multiset(r.0) == multiset(out) + multiset(edges[off..r.1]) + multiset(AllBirthsOf(cs, Map(existing, ParentOf)[i..]))
    decreases |existing| - i
  {
    if i == |existing| {
      assert Map(existing, ParentOf)[i..] == [] && edges[off..off] == [];
    } else {
      var x := existing[i];
      var o := StepOffset(edges, nodes, x, off);
      StepConserves(edges, nodes, existing, i, off);
      var chunk := edges[off..o] + BirthEdges(cs[x.parent], x.parent);
      HandleFromConserves(edges, nodes, cs, existing, i + 1, out + chunk, o);
      ConservesStep(edges, nodes, cs, existing, i, out, off);
    }
  }

  /** The inductive step of HandleFromConserves, once the step's old edges are known to be a slice. */
  lemma ConservesStep(edges: seq<Edge>, nodes: seq<Node>, cs: seq<seq<BirthData>>,
                      existing: seq<ParentLocation>, i: int, out: seq<Edge>, off: int)
    requires LocationsWellFormed(existing, |edges|, |cs|) && 0 <= i < |existing| && 0 <= off <= |edges|
    requires var o := StepOffset(edges, nodes, existing[i], off);
      && off <= o <= |edges| && StepOldEdges(edges, nodes, existing[i], off) == edges[off..o]
    requires var x, o := existing[i], StepOffset(edges, nodes, existing[i], off);
      var chunk := edges[off..o] + BirthEdges(cs[x.parent], x.parent);
      var r := HandleFrom(edges, nodes, cs, existing, i + 1, out + chunk, o);
      && o <= r.1
      && multiset(r.0) == multiset(out + chunk) + multiset(edges[o..r.1])
                          + multiset(AllBirthsOf(cs, Map(existing, ParentOf)[i + 1..]))
    ensures var r := HandleFrom(edges, nodes, cs, existing, i, out, off);
      && off <= r.1
      && multiset(r.0) == multiset(out) + multiset(edges[off..r.1]) + multiset(AllBirthsOf(cs, Map(existing, ParentOf)[i..]))
  {
    var ps := Map(existing, ParentOf);
    var x := existing[i];
    var births := BirthEdges(cs[x.parent], x.parent);
    var o := StepOffset(edges, nodes, x, off);
    HandleUnfold(edges, nodes, cs, existing, i, out, off);
    var r := HandleFrom(edges, nodes, cs, existing, i + 1, out + (edges[off..o] + births), o);
    AllBirthsCons(cs, ps, i);
    SliceBag(edges, off, o, r.1, out, births, AllBirthsOf(cs, ps[i + 1..]), r.0);
  }

  /** One unfolding of HandleFrom where the step's old edges are the slice up to the next offset. */
  lemma HandleUnfold(edges: seq<Edge>, nodes: seq<Node>, cs: seq<seq<BirthData>>,
                     existing: seq<ParentLocation>, i: int, out: seq<Edge>, off: int)
    requires LocationsWellFormed(existing, |edges|, |cs|) && 0 <= i < |existing| && 0 <= off <= |edges|
    requires var o := StepOffset(edges, nodes, existing[i], off);
      && off <= o <= |edges| && StepOldEdges(edges, nodes, existing[i], off) == edges[off..o]
    ensures var x, o := existing[i], StepOffset(edges, nodes, existing[i], off);
      HandleFrom(edges, nodes, cs, existing, i, out, off)
      == HandleFrom(edges, nodes, cs, existing, i + 1, out + (edges[off..o] + BirthEdges(cs[x.parent], x.parent)), o)
  {
    var x := existing[i];
    var births := BirthEdges(cs[x.parent], x.parent);
    assert out + StepOldEdges(edges, nodes, x, off) + births == out + (edges[off..StepOffset(edges, nodes, x, off)] + births);
  }

  /** The multiset bookkeeping of one step: a slice and a block of births move from the output to the totals. */
  lemma SliceBag<T>(s: seq<T>, a: int, b: int, c: int, out: seq<T>, births: seq<T>, rest: seq<T>, r: seq<T>)
    requires 0 <= a <= b <= c <= |s|
    requires multiset(r) == multiset(out + (s[a..b] + births)) + multiset(s[b..c]) + multiset(rest)
    ensures multiset(r) == multiset(out) + multiset(s[a..c]) + multiset(births + rest)
  {
    SliceConcat(s, a, b, c);
    BagStep(r, out, s[a..b], births, s[b..c], rest);
  }

  lemma BagStep<T>(r: seq<T>, out: seq<T>, a: seq<T>, b: seq<T>, c: seq<T>, d: seq<T>)
    requires multiset(r) == multiset(out + (a + b)) + multiset(c) + multiset(d)
    ensures multiset(r) == multiset(out) + multiset(a + c) + multiset(b + d)
  {
  }

  /**
   * handle_pre_existing_edges loses and duplicates nothing: on a sorted edge
   * table with consistent locations, its output is the input liftover, the
   * old edges before the returned offset and the births of every location's
   * parent, as a multiset.
   */
  lemma HandleConserves(edges: seq<Edge>, nodes: seq<Node>, cs: seq<seq<BirthData>>,
                        existing: seq<ParentLocation>, liftover: seq<Edge>)
    requires LocationsWellFormed(existing, |edges|, |cs|) && SortedAndConsistent(existing, edges, nodes)
    ensures var r := HandleFrom(edges, nodes, cs, existing, 0, liftover, 0);
      multiset(r.0) == multiset(liftover) + multiset(edges[..r.1]) + multiset(AllBirthsOf(cs, Map(existing, ParentOf)))
  {
    HandleFromConserves(edges, nodes, cs, existing, 0, liftover, 0);
    assert Map(existing, ParentOf)[0..] == Map(existing, ParentOf);
  }

  // stitch_together_edges

  /** The loop after handle_pre_existing_edges: the old edges from offset on join the liftover. */
  method AppendRemaining(out: seq<Edge>, edges: seq<Edge>, offset: int) returns (r: seq<Edge>)
    requires 0 <= offset <= |edges|
    ensures r == out + edges[offset..]
  {
    r := out;
    var k := offset;
    while k < |edges|
      invariant offset <= k <= |edges|
      invariant r == out + edges[offset..k]
    {
      assert edges[offset..k + 1] == edges[offset..k] + [edges[k]];
      r := r + [edges[k]];
      k := k + 1;
    }
  }

  /** The buffered ids of alive nodes are distinct when the alive ids are. */
  lemma BufferedDistinct(lists: seq<seq<int>>, alive: seq<int>)
    requires Distinct(alive)
    ensures Distinct(Buffered(lists, alive))
  {
    FilterDistinct(alive, x => 0 <= x < |lists| && lists[x] != []);
  }

  /** The locations found for parents below numLists are what handle_pre_existing_edges needs. */
  lemma LocationsInRange(edges: seq<Edge>, nodes: seq<Node>, ps: seq<int>, existing: seq<ParentLocation>, numLists: int)
    requires |edges| < SIZE_MAX && LocationsOf(edges, nodes, ps, existing)
    requires forall k :: 0 <= k < |ps| ==> 0 <= ps[k] < numLists
    ensures LocationsWellFormed(existing, |edges|, numLists)
  {
    forall i | 0 <= i < |existing|
      ensures 0 <= existing[i].parent < numLists
    {
      var m := Map(existing, ParentOf);
      assert m[i] == existing[i].parent;
      assert existing[i].parent in multiset(ps);
    }
  }

  /**
   * stitch_together_edges loses and duplicates nothing: when the edge table
   * is sorted and the alive ids are distinct, the new edge table holds the
   * old edges, the copied births and the buffered births of every alive
   * parent, as a multiset.
   */
  lemma StitchConserves(edges: seq<Edge>, nodes: seq<Node>, cs: seq<seq<BirthData>>, lists: seq<seq<int>>,
                        alive: seq<int>, liftover: seq<Edge>, existing: seq<ParentLocation>)
    requires |edges| < SIZE_MAX && LocationsOf(edges, nodes, Buffered(lists, alive), existing)
    requires LocationsWellFormed(existing, |edges|, |cs|)
    requires EdgesSorted(nodes, edges) && Distinct(alive)
    ensures var r := HandleFrom(edges, nodes, cs, existing, 0, liftover, 0);
      multiset(r.0 + edges[r.1..]) ==
        multiset(edges) + multiset(liftover) + multiset(AllBirthsOf(cs, Buffered(lists, alive)))
  {
    var ps := Buffered(lists, alive);
    FoundConsistent(edges, nodes, lists, alive, existing);
    HandleConserves(edges, nodes, cs, existing, liftover);
    AllBirthsPermutation(cs, Map(existing, ParentOf), ps);
    var r := HandleFrom(edges, nodes, cs, existing, 0, liftover, 0);
    AppendBag(edges, r.1, r.0, liftover, AllBirthsOf(cs, Map(existing, ParentOf)), AllBirthsOf(cs, ps));
  }

  /** The locations found for distinct alive ids are consistent. */
  lemma FoundConsistent(edges: seq<Edge>, nodes: seq<Node>, lists: seq<seq<int>>, alive: seq<int>,
                        existing: seq<ParentLocation>)
    requires |edges| < SIZE_MAX && LocationsOf(edges, nodes, Buffered(lists, alive), existing) && Distinct(alive)
    ensures LocationsConsistent(existing, edges, nodes)
  {
    BufferedDistinct(lists, alive);
    LocationsDistinct(edges, nodes, Buffered(lists, alive), existing);
  }

  /** Appending the rest of the edge table to the liftover completes the multiset. */
  lemma AppendBag(edges: seq<Edge>, off: int, r: seq<Edge>, liftover: seq<Edge>, a: seq<Edge>, b: seq<Edge>)
    requires 0 <= off <= |edges|
    requires multiset(r) == multiset(liftover) + multiset(edges[..off]) + multiset(a) && multiset(a) == multiset(b)
    ensures multiset(r + edges[off..]) == multiset(edges) + multiset(liftover) + multiset(b)
  {
    assert edges[..off] + edges[off..] == edges;
  }

  /**
   * The edge table stitch_together_edges builds: the copied births, then the
   * old edges merged with the buffered births of the alive parents.  The
   * errors are those of the copy and then of the search for old edges.
   */
  method StitchedEdges(alive: seq<int>, maxTime: real, buf: NestedForwardLists<BirthData>, t: TableCollection)
    returns (r: Result<seq<Edge>>)
    requires buf.Valid() && |buf.lists| <= |t.nodes| && ParentsValid(t.edges, t.nodes) && |t.edges| < SIZE_MAX
    ensures var copied := CopyResult(buf.AllContents(), t.nodes, maxTime, |buf.lists| - 1);
      && (copied.Err? ==> r == Err(copied.error))
      && (copied.Ok? ==> (r.Err? <==> FirstBadIndex(alive, |buf.lists|) != Done))
      && (copied.Ok? && r.Err? ==> FirstBadIndex(alive, |buf.lists|) == Fail(r.error))
      && (r.Ok? ==> copied.Ok? && |copied.value| <= |r.value| && r.value[..|copied.value|] == copied.value)
    ensures r.Ok? && EdgesSorted(t.nodes, t.edges) && Distinct(alive) ==>
      var copied := CopyResult(buf.AllContents(), t.nodes, maxTime, |buf.lists| - 1);
      multiset(r.value) == multiset(t.edges) + multiset(copied.value)
                           + multiset(AllBirthsOf(buf.AllContents(), Buffered(buf.lists, alive)))
  {
    var copied := CopyBirthsSinceLastSimplification(buf, t, maxTime);
    if copied.Err? {
      return Err(copied.error);
    }
    var found := FindPreExistingEdges(t, alive, buf);
    if found.Err? {
      return Err(found.error);
    }
    var all := MergeOldAndBuffered(alive, buf, t, found.value, copied.value);
    r := Ok(all);
  }

  /** The merge half of stitch_together_edges, once the copied births and the locations are known. */
  method MergeOldAndBuffered(alive: seq<int>, buf: NestedForwardLists<BirthData>, t: TableCollection,
                             existing: seq<ParentLocation>, liftover: seq<Edge>)
    returns (all: seq<Edge>)
    requires buf.Valid() && |buf.lists| <= |t.nodes| && ParentsValid(t.edges, t.nodes) && |t.edges| < SIZE_MAX
    requires LocationsOf(t.edges, t.nodes, Buffered(buf.lists, alive), existing)
    ensures |liftover| <= |all| && all[..|liftover|] == liftover
    ensures EdgesSorted(t.nodes, t.edges) && Distinct(alive) ==>
      multiset(all) == multiset(t.edges) + multiset(liftover) + multiset(AllBirthsOf(buf.AllContents(), Buffered(buf.lists, alive)))
  {
    ghost var cs := buf.AllContents();
    ghost var lists := buf.lists;
    var nodes, edges := t.nodes, t.edges;
    LocationsInRange(edges, nodes, Buffered(lists, alive), existing, |lists|);
    var out, offset := HandlePreExistingEdges(t, buf, existing, liftover);
    all := AppendRemaining(out, edges, offset);
    if EdgesSorted(nodes, edges) && Distinct(alive) {
      StitchConserves(edges, nodes, cs, lists, alive, liftover, existing);
    }
    assert all[..|liftover|] == out[..|liftover|];
  }

  /**
   * stitch_together_edges: the edges StitchedEdges builds become the edge
   * table and the buffer is reset to one empty list per node.  A failure
   * leaves the tables and the buffer as they were.
   */
  method StitchTogetherEdges(alive: seq<int>, maxTime: real, buf: NestedForwardLists<BirthData>, t: TableCollection)
    returns (r: Outcome)
    requires buf.Valid() && |buf.lists| <= |t.nodes| && ParentsValid(t.edges, t.nodes) && |t.edges| < SIZE_MAX
    modifies buf, t
    ensures var copied := CopyResult(old(buf.AllContents()), old(t.nodes), maxTime, |old(buf.lists)| - 1);
      && (copied.Err? ==> r == Fail(copied.error))
      && (copied.Ok? ==> r == FirstBadIndex(alive, |old(buf.lists)|))
      && (r.Done? ==> copied.Ok? && |copied.value| <= |t.edges| && t.edges[..|copied.value|] == copied.value)
    ensures r.Done? && EdgesSorted(old(t.nodes), old(t.edges)) && Distinct(alive) ==>
      var copied := CopyResult(old(buf.AllContents()), old(t.nodes), maxTime, |old(buf.lists)| - 1);
      multiset(t.edges) == multiset(old(t.edges)) + multiset(copied.value)
                           + multiset(AllBirthsOf(old(buf.AllContents()), Buffered(old(buf.lists), alive)))
    ensures r.Fail? ==> unchanged(t) && unchanged(buf)
    ensures r.Done? ==> && t.nodes == old(t.nodes) && t.sites == old(t.sites) && t.mutations == old(t.mutations)
                        && t.L == old(t.L) && t.inputLeft == old(t.inputLeft) && t.outputRight == old(t.outputRight)
                        && t.edgeOffset == old(t.edgeOffset)
    ensures r.Done? ==> && buf.Valid() && buf.data == [] && |buf.lists| == |t.nodes|
                        && forall i :: 0 <= i < |buf.lists| ==> buf.lists[i] == []
  {
    var stitched := StitchedEdges(alive, maxTime, buf, t);
    if stitched.Err? {
      return Fail(stitched.error);
    }
    t.edges := stitched.value;
    buf.Reset(|t.nodes|);
    r := Done;
  }
}

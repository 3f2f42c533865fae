// simplify_tables with an edge buffer: the parents born since the last
// simplification are merged from their buffered births, youngest first;
// then the parents alive at the last simplification are merged from their
// edges in the table together with their new births, in time order, with
// the older parents of the table interleaved; then the rest of the table.
module SimplifyTablesBuffered {
  import opened Types
  import opened Sorting
  import opened Simplification
  import opened SimplificationBuffers
  import opened SimplificationNodes
  import opened SimplificationMutations
  import opened SimplificationQueue
  import opened NestedForwardLists
  import opened TableCollection
  import opened EdgeBuffer
  import opened SimplifyTables

  /**
   * The max_time of simplify_tables: the latest birth time among the nodes
   * alive at the last simplification, starting from the lowest double.
   */
  function LatestTime(nodes: seq<Node>, alive: seq<int>): (r: real)
    requires forall i :: 0 <= i < |alive| ==> 0 <= alive[i] < |nodes|
    ensures -MAX_DOUBLE <= r
    ensures forall i :: 0 <= i < |alive| ==> nodes[alive[i]].time <= r
    ensures r == -MAX_DOUBLE || exists i :: 0 <= i < |alive| && nodes[alive[i]].time == r
  {
    if alive == [] then -MAX_DOUBLE
    else
      var init := alive[..|alive| - 1];
      var m := LatestTime(nodes, init);
      assert forall i :: 0 <= i < |init| ==> init[i] == alive[i];
      Max(m, nodes[alive[|alive| - 1]].time)
  }

  /** The loop that computes max_time with std::max. */
  method MaxTime(nodes: seq<Node>, alive: seq<int>) returns (maxTime: real)
    requires forall i :: 0 <= i < |alive| ==> 0 <= alive[i] < |nodes|
    ensures maxTime == LatestTime(nodes, alive)
  {
    maxTime := -MAX_DOUBLE;
    for i := 0 to |alive|
      invariant maxTime == LatestTime(nodes, alive[..i])
    {
      assert alive[..i + 1][..i] == alive[..i];
      maxTime := Max(maxTime, nodes[alive[i]].time);
    }
    assert alive[..|alive|] == alive;
  }

  /** The simplifier's state: consistent tables and samples still mapped to 0 .. n-1. */
  predicate Ready(nodes: seq<Node>, maxlen: real, samples: seq<int>, ancestry: seq<seq<Segment>>,
                  newNodes: seq<Node>, newEdges: seq<Edge>, idmap: seq<int>)
  {
    StateOk(nodes, maxlen, ancestry, newNodes, newEdges, idmap) && SamplesKept(samples, idmap, ancestry, maxlen)
  }

  /**
   * Merging a parent whose children are found in the buffer (queued after
   * whatever the queue holds): process_births_from_buffer from the list's
   * head, finalize_queue and merge_ancestors.
   */
  method MergeBufferedBirths(parent: int, n: int, buf: NestedForwardLists<BirthData>, nodes: seq<Node>, maxlen: real,
                             ov: SegmentOverlapper, ancestry: seq<seq<Segment>>, newNodes: seq<Node>,
                             newEdges: seq<Edge>, idmap: seq<int>, ghost samples: seq<int>)
    returns (ancestry2: seq<seq<Segment>>, newNodes2: seq<Node>, newEdges2: seq<Edge>, idmap2: seq<int>)
    requires buf.Valid() && 0 <= parent < |buf.lists| && parent < |nodes| && BirthsIn(buf, |nodes|)
    requires n == buf.head[parent]
    requires 0.0 < maxlen <= MAX_DOUBLE && Ready(nodes, maxlen, samples, ancestry, newNodes, newEdges, idmap)
    requires SegmentsOk(ov.segmentQueue, maxlen, |newNodes|)
    modifies ov
    ensures Ready(nodes, maxlen, samples, ancestry2, newNodes2, newEdges2, idmap2)
    ensures ancestry2 == ancestry[parent := ancestry2[parent]] && idmap2 == idmap[parent := idmap2[parent]]
    ensures |newEdges2| >= |newEdges| && newEdges2[..|newEdges|] == newEdges
  {
    ProcessBirthsFromBuffer(n, parent, buf, ancestry, ov, maxlen, |newNodes|);
    FinalizedOk(ov.segmentQueue, maxlen, |newNodes|);
    ov.FinalizeQueue(maxlen);
    ancestry2, newNodes2, newEdges2, idmap2 := MergeParent(maxlen, nodes, parent, ov, ancestry, newNodes, newEdges, idmap, samples);
  }

  /**
   * The reverse walk over the buffer's heads: each parent with births that
   * is younger than max_time is merged from its births alone; the first
   * parent with births that is not younger ends the walk.
   */
  method MergeNewParents(buf: NestedForwardLists<BirthData>, nodes: seq<Node>, maxlen: real, maxTime: real,
                         ov: SegmentOverlapper, ancestry: seq<seq<Segment>>, newNodes: seq<Node>,
                         newEdges: seq<Edge>, idmap: seq<int>, ghost samples: seq<int>)
    returns (ancestry2: seq<seq<Segment>>, newNodes2: seq<Node>, newEdges2: seq<Edge>, idmap2: seq<int>)
    requires buf.Valid() && |buf.lists| <= |nodes| && BirthsIn(buf, |nodes|)
    requires 0.0 < maxlen <= MAX_DOUBLE && Ready(nodes, maxlen, samples, ancestry, newNodes, newEdges, idmap)
    modifies ov
    ensures Ready(nodes, maxlen, samples, ancestry2, newNodes2, newEdges2, idmap2)
    ensures |newEdges2| >= |newEdges| && newEdges2[..|newEdges|] == newEdges
  {
    ancestry2, newNodes2, newEdges2, idmap2 := ancestry, newNodes, newEdges, idmap;
    var r := 0;
    while r < |buf.head|
      invariant 0 <= r <= |buf.head|
      invariant Ready(nodes, maxlen, samples, ancestry2, newNodes2, newEdges2, idmap2)
      invariant |newEdges2| >= |newEdges| && newEdges2[..|newEdges|] == newEdges
    {
      var parent := |buf.head| - 1 - r;
      var ptime := nodes[parent].time;
      if buf.head[parent] != NULL && ptime > maxTime {
        ghost var e0 := newEdges2;
        ov.ClearQueue();
        ancestry2, newNodes2, newEdges2, idmap2 :=
          MergeBufferedBirths(parent, buf.head[parent], buf, nodes, maxlen, ov, ancestry2, newNodes2, newEdges2, idmap2, samples);
        assert newEdges2[..|newEdges|] == e0[..|newEdges|];
      } else if buf.head[parent] != NULL && ptime <= maxTime {
        break;
      }
      r := r + 1;
    }
  }

  /**
   * The inner loops over the edge table: merge parent after parent from
   * the table while the next edge lies before `end` and its parent is
   * younger than `time` (or as old, when orEqual).
   */
  method MergeYoungerParents(edges: seq<Edge>, ptr: nat, end: int, time: real, orEqual: bool,
                             nodes: seq<Node>, maxlen: real, ov: SegmentOverlapper, ancestry: seq<seq<Segment>>,
                             newNodes: seq<Node>, newEdges: seq<Edge>, idmap: seq<int>, ghost samples: seq<int>)
    returns (ptr2: nat, ancestry2: seq<seq<Segment>>, newNodes2: seq<Node>, newEdges2: seq<Edge>, idmap2: seq<int>)
    requires ptr <= |edges| && end <= |edges| && InputEdgesOk(edges, |nodes|)
    requires 0.0 < maxlen <= MAX_DOUBLE && Ready(nodes, maxlen, samples, ancestry, newNodes, newEdges, idmap)
    modifies ov
    ensures ptr <= ptr2 <= |edges|
    ensures ptr2 < end ==> nodes[edges[ptr2].parent].time < time || (!orEqual && nodes[edges[ptr2].parent].time == time)
    ensures Ready(nodes, maxlen, samples, ancestry2, newNodes2, newEdges2, idmap2)
  {
    ptr2, ancestry2, newNodes2, newEdges2, idmap2 := ptr, ancestry, newNodes, newEdges, idmap;
    while ptr2 < end && (nodes[edges[ptr2].parent].time > time || (orEqual && nodes[edges[ptr2].parent].time == time))
      invariant ptr <= ptr2 <= |edges|
      invariant Ready(nodes, maxlen, samples, ancestry2, newNodes2, newEdges2, idmap2)
      decreases |edges| - ptr2
    {
      assert forall k :: ptr2 <= k < |edges| ==> edges[ptr2..][k - ptr2] == edges[k];
      ptr2, ancestry2, newNodes2, newEdges2, idmap2 :=
        SimplifyNextParent(maxlen, nodes, edges, ptr2, ov, ancestry2, newNodes2, newEdges2, idmap2, samples);
    }
  }

  /**
   * The loop over a pre-existing parent's edges from ptr to its last edge:
   * each must have that parent (otherwise runtime_error) and its child's
   * ancestry under it is queued; an edge of the same parent right after
   * the block is a runtime_error too.
   */
  method QueueParentEdges(edges: seq<Edge>, ptr: nat, ex: ParentLocation, ancestry: seq<seq<Segment>>,
                          ov: SegmentOverlapper, ghost maxlen: real, ghost n: int)
    returns (o: Outcome, ptr2: nat)
    requires ptr <= ex.stop < |edges| && InputEdgesOk(edges, |ancestry|)
    requires AllSegmentsOk(ancestry, maxlen, n)
    requires ov.segmentQueue == []
    modifies ov
    ensures o == Done <==>
      && (forall k :: ptr <= k <= ex.stop ==> edges[k].parent == ex.parent)
      && !(ex.stop + 1 < |edges| && edges[ex.stop + 1].parent == ex.parent)
    ensures o != Done ==> o == Fail(RuntimeError)
    ensures o == Done ==> ptr2 == ex.stop + 1 && ov.segmentQueue == EdgesQueue(ancestry, edges[ptr..ptr2])
  {
    ptr2 := QueueRun(edges, ptr, ex.stop + 1, ex.parent, ancestry, ov, maxlen, n);
    if ptr2 <= ex.stop || (ptr2 < |edges| && edges[ptr2].parent == ex.parent) {
      o := Fail(RuntimeError);
    } else {
      o := Done;
    }
  }

  /**
   * One pre-existing parent ex: merge the table's parents younger than it,
   * then those before its first edge that are not older; its first edge
   * must then be at ptr (otherwise runtime_error); then queue its edges
   * from the table and its births from the buffer, and merge it.
   */
  method MergeExistingParent(ex: ParentLocation, edges: seq<Edge>, ptr: nat, buf: NestedForwardLists<BirthData>,
                             nodes: seq<Node>, maxlen: real, ov: SegmentOverlapper, ancestry: seq<seq<Segment>>,
                             newNodes: seq<Node>, newEdges: seq<Edge>, idmap: seq<int>, ghost samples: seq<int>)
    returns (o: Outcome, ptr2: nat, ancestry2: seq<seq<Segment>>, newNodes2: seq<Node>, newEdges2: seq<Edge>, idmap2: seq<int>)
    requires ptr <= |edges| && InputEdgesOk(edges, |nodes|)
    requires 0 <= ex.parent < |buf.lists| && (ex.start == SIZE_MAX || 0 <= ex.start <= ex.stop < |edges|)
    requires buf.Valid() && |buf.lists| <= |nodes| && BirthsIn(buf, |nodes|)
    requires 0.0 < maxlen <= MAX_DOUBLE && Ready(nodes, maxlen, samples, ancestry, newNodes, newEdges, idmap)
    modifies ov
    ensures o == Done || o == Fail(RuntimeError)
    ensures o == Done ==> ptr <= ptr2 <= |edges| && Ready(nodes, maxlen, samples, ancestry2, newNodes2, newEdges2, idmap2)
    ensures o == Done && ex.start != SIZE_MAX ==> ptr2 == ex.stop + 1
  {
    o := Done;
    var time := nodes[ex.parent].time;
    ptr2, ancestry2, newNodes2, newEdges2, idmap2 :=
      MergeYoungerParents(edges, ptr, |edges|, time, false, nodes, maxlen, ov, ancestry, newNodes, newEdges, idmap, samples);
    if ex.start != SIZE_MAX {
      ptr2, ancestry2, newNodes2, newEdges2, idmap2 :=
        MergeYoungerParents(edges, ptr2, ex.start, time, true, nodes, maxlen, ov, ancestry2, newNodes2, newEdges2, idmap2, samples);
      if ptr2 != ex.start {
        return Fail(RuntimeError), ptr2, ancestry2, newNodes2, newEdges2, idmap2;
      }
      if edges[ptr2].parent != ex.parent {
        return Fail(RuntimeError), ptr2, ancestry2, newNodes2, newEdges2, idmap2;
      }
    }
    ov.ClearQueue();
    if ex.start != SIZE_MAX {
      o, ptr2 := QueueParentEdges(edges, ptr2, ex, ancestry2, ov, maxlen, |newNodes2|);
      if o != Done {
        return;
      }
      EdgesQueueOk(ancestry2, edges[ex.start..ptr2], maxlen, |newNodes2|);
    }
    var n := buf.Head(ex.parent);
    ancestry2, newNodes2, newEdges2, idmap2 :=
      MergeBufferedBirths(ex.parent, n.value, buf, nodes, maxlen, ov, ancestry2, newNodes2, newEdges2, idmap2, samples);
  }

  /** The loop over the sorted pre-existing parents; the first runtime_error ends it. */
  method MergeExistingParents(existing: seq<ParentLocation>, edges: seq<Edge>, buf: NestedForwardLists<BirthData>,
                              nodes: seq<Node>, maxlen: real, ov: SegmentOverlapper, ancestry: seq<seq<Segment>>,
                              newNodes: seq<Node>, newEdges: seq<Edge>, idmap: seq<int>, ghost samples: seq<int>)
    returns (o: Outcome, ptr: nat, ancestry2: seq<seq<Segment>>, newNodes2: seq<Node>, newEdges2: seq<Edge>, idmap2: seq<int>)
    requires LocationsWellFormed(existing, |edges|, |buf.lists|) && InputEdgesOk(edges, |nodes|)
    requires buf.Valid() && |buf.lists| <= |nodes| && BirthsIn(buf, |nodes|)
    requires 0.0 < maxlen <= MAX_DOUBLE && Ready(nodes, maxlen, samples, ancestry, newNodes, newEdges, idmap)
    modifies ov
    ensures o == Done || o == Fail(RuntimeError)
    ensures o == Done ==> ptr <= |edges| && Ready(nodes, maxlen, samples, ancestry2, newNodes2, newEdges2, idmap2)
  {
    o, ptr := Done, 0;
    ancestry2, newNodes2, newEdges2, idmap2 := ancestry, newNodes, newEdges, idmap;
    for i := 0 to |existing|
      invariant o == Done && ptr <= |edges|
      invariant Ready(nodes, maxlen, samples, ancestry2, newNodes2, newEdges2, idmap2)
    {
      o, ptr, ancestry2, newNodes2, newEdges2, idmap2 :=
        MergeExistingParent(existing[i], edges, ptr, buf, nodes, maxlen, ov, ancestry2, newNodes2, newEdges2, idmap2, samples);
      if o != Done {
        return;
      }
    }
  }

  /** The loop over the edges left after the last pre-existing parent. */
  method MergeRemainingParents(edges: seq<Edge>, ptr: nat, nodes: seq<Node>, maxlen: real, ov: SegmentOverlapper,
                               ancestry: seq<seq<Segment>>, newNodes: seq<Node>, newEdges: seq<Edge>, idmap: seq<int>,
                               ghost samples: seq<int>)
    returns (ancestry2: seq<seq<Segment>>, newNodes2: seq<Node>, newEdges2: seq<Edge>, idmap2: seq<int>)
    requires ptr <= |edges| && InputEdgesOk(edges, |nodes|)
    requires 0.0 < maxlen <= MAX_DOUBLE && Ready(nodes, maxlen, samples, ancestry, newNodes, newEdges, idmap)
    modifies ov
    ensures Ready(nodes, maxlen, samples, ancestry2, newNodes2, newEdges2, idmap2)
  {
    ancestry2, newNodes2, newEdges2, idmap2 := ancestry, newNodes, newEdges, idmap;
    var ptr2 := ptr;
    while ptr2 < |edges|
      invariant ptr <= ptr2 <= |edges|
      invariant Ready(nodes, maxlen, samples, ancestry2, newNodes2, newEdges2, idmap2)
      decreases |edges| - ptr2
    {
      assert forall k :: ptr2 <= k < |edges| ==> edges[ptr2..][k - ptr2] == edges[k];
      ptr2, ancestry2, newNodes2, newEdges2, idmap2 :=
        SimplifyNextParent(maxlen, nodes, edges, ptr2, ov, ancestry2, newNodes2, newEdges2, idmap2, samples);
    }
  }

  /**
   * Everything simplify_tables does with an edge buffer between
   * record_sample_nodes and simplify_mutations: max_time, the buffer's new
   * parents, find_pre_existing_edges (whose head() throws for an alive id
   * past the buffer), the pre-existing parents and the rest of the table.
   */
  method MergeAllParents(samples: seq<int>, alive: seq<int>, t: TableCollection, buf: NestedForwardLists<BirthData>,
                         ancestry: seq<seq<Segment>>, newNodes: seq<Node>, idmap: seq<int>)
    returns (o: Outcome, ancestry2: seq<seq<Segment>>, newNodes2: seq<Node>, newEdges2: seq<Edge>, idmap2: seq<int>)
    requires InputOk(samples, t) && |t.edges| < SIZE_MAX
    requires forall i :: 0 <= i < |alive| ==> 0 <= alive[i] < |t.nodes|
    requires buf.Valid() && |buf.lists| <= |t.nodes| && BirthsIn(buf, |t.nodes|)
    requires Ready(t.nodes, t.L, samples, ancestry, newNodes, [], idmap)
    ensures FirstBadIndex(alive, |buf.lists|) != Done ==> o == FirstBadIndex(alive, |buf.lists|) && o == Fail(OutOfRange)
    ensures FirstBadIndex(alive, |buf.lists|) == Done ==> o == Done || o == Fail(RuntimeError)
    ensures o == Done ==> Ready(t.nodes, t.L, samples, ancestry2, newNodes2, newEdges2, idmap2)
  {
    var nodes, maxlen := t.nodes, t.L;
    var ov := new SegmentOverlapper();
    var maxTime := MaxTime(nodes, alive);
    ancestry2, newNodes2, newEdges2, idmap2 := MergeNewParents(buf, nodes, maxlen, maxTime, ov, ancestry, newNodes, [], idmap, samples);
    var existing := FindPreExistingEdges(t, alive, buf);
    if existing.Err? {
      return Fail(existing.error), ancestry2, newNodes2, newEdges2, idmap2;
    }
    LocationsInRange(t.edges, nodes, Buffered(buf.lists, alive), existing.value, |buf.lists|);
    var ptr;
    o, ptr, ancestry2, newNodes2, newEdges2, idmap2 :=
      MergeExistingParents(existing.value, t.edges, buf, nodes, maxlen, ov, ancestry2, newNodes2, newEdges2, idmap2, samples);
    if o == Done {
      ancestry2, newNodes2, newEdges2, idmap2 :=
        MergeRemainingParents(t.edges, ptr, nodes, maxlen, ov, ancestry2, newNodes2, newEdges2, idmap2, samples);
    }
  }

  /**
   * The end of simplify_tables with an edge buffer: simplify the mutation
   * and site tables, replace the node, edge, mutation and site tables by
   * the output ones and reset the buffer to one empty list per output node.
   */
  method ReplaceTables(ghost samples: seq<int>, t: TableCollection, buf: NestedForwardLists<BirthData>,
                       ancestry: seq<seq<Segment>>, newNodes: seq<Node>, newEdges: seq<Edge>, idmap: seq<int>)
    returns (preserved: seq<nat>)
    requires InputOk(samples, t) && buf.Valid()
    requires Ready(t.nodes, t.L, samples, ancestry, newNodes, newEdges, idmap)
    modifies t, buf
    ensures |idmap| == |old(t.nodes)| == |ancestry| && t.L == old(t.L)
    ensures CountIf(idmap, NotNull) == |t.nodes|
    ensures NodesOf(idmap, t.nodes, old(t.nodes))
    ensures SamplesKept(samples, idmap, ancestry, t.L)
    ensures TableEdgesOk(t.edges, |t.nodes|, t.L)
    ensures Simplified(old(t.mutations), old(t.sites), ancestry, t.mutations, t.sites, preserved)
    ensures buf.Valid() && |buf.lists| == |t.nodes| && buf.data == [] && forall i :: 0 <= i < |buf.lists| ==> buf.lists[i] == []
  {
    IdmapCount(idmap, |newNodes|);
    var muts2, sites2;
    muts2, sites2, preserved := SimplifyMutations(t.mutations, t.sites, ancestry);
    t.mutations, t.sites := muts2, sites2;
    t.edges, t.nodes := newEdges, newNodes;
    buf.Reset(|t.nodes|);
  }

  /**
   * simplify_tables with an edge buffer.  A repeated sample throws
   * invalid_argument and an alive id past the buffer throws out_of_range
   * (from the buffer's head()), in that order; a pre-existing parent whose
   * edges are not where the sorted table puts them throws runtime_error.
   * No table and not the buffer change before the end, where the output
   * node, edge, mutation and site tables replace the input ones and the
   * buffer is reset to one empty list per output node.
   */
  method SimplifyBuffered(samples: seq<int>, alive: seq<int>, t: TableCollection, buf: NestedForwardLists<BirthData>)
    returns (o: Outcome, idmap: seq<int>, preserved: seq<nat>, ancestry: seq<seq<Segment>>)
    requires InputOk(samples, t) && |t.edges| < SIZE_MAX
    requires forall i :: 0 <= i < |alive| ==> 0 <= alive[i] < |t.nodes|
    requires buf.Valid() && |buf.lists| <= |t.nodes| && BirthsIn(buf, |t.nodes|)
    modifies t, buf
    ensures !Distinct(samples) ==> o == Fail(InvalidArgument)
    ensures Distinct(samples) && FirstBadIndex(alive, old(|buf.lists|)) != Done ==> o == Fail(OutOfRange)
    ensures o == Fail(RuntimeError) ==> Distinct(samples) && FirstBadIndex(alive, old(|buf.lists|)) == Done
    ensures o == Done || o == Fail(InvalidArgument) || o == Fail(OutOfRange) || o == Fail(RuntimeError)
    ensures o != Done ==> unchanged(t) && unchanged(buf)
    ensures o == Done ==>
      && |idmap| == |old(t.nodes)| == |ancestry| && t.L == old(t.L)
      && CountIf(idmap, NotNull) == |t.nodes|
      && NodesOf(idmap, t.nodes, old(t.nodes))
      && SamplesKept(samples, idmap, ancestry, t.L)
      && TableEdgesOk(t.edges, |t.nodes|, t.L)
      && Simplified(old(t.mutations), old(t.sites), ancestry, t.mutations, t.sites, preserved)
    ensures o == Done ==>
      buf.Valid() && |buf.lists| == |t.nodes| && buf.data == [] && forall i :: 0 <= i < |buf.lists| ==> buf.lists[i] == []
  {
    var newNodes, newEdges;
    o, ancestry, newNodes, idmap := StartSimplification(samples, t.nodes, t.L);
    preserved := [];
    if o != Done {
      return;
    }
    o, ancestry, newNodes, newEdges, idmap := MergeAllParents(samples, alive, t, buf, ancestry, newNodes, idmap);
    if o != Done {
      return;
    }
    preserved := ReplaceTables(samples, t, buf, ancestry, newNodes, newEdges, idmap);
  }
}

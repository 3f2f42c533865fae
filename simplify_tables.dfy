// simplify_tables: the drivers of tree-sequence simplification, for a fully
// sorted edge table and for an edge table plus the edge buffer of births
// since the last simplification.
module SimplifyTables {
  import opened Types
  import opened Sorting
  import opened Simplification
  import opened SimplificationBuffers
  import opened SimplificationNodes
  import opened SimplificationMutations
  import opened SimplificationQueue
  import opened NestedForwardLists
  import opened TableCollection
  import opened EdgeBuffer

  /** Every mapped input node has an output node that is a copy of it. */
  predicate NodesOf(idmap: seq<int>, newNodes: seq<Node>, nodes: seq<Node>)
  {
    && |idmap| == |nodes|
    && forall v :: 0 <= v < |idmap| && idmap[v] != NULL ==> 0 <= idmap[v] < |newNodes| && newNodes[idmap[v]] == nodes[v]
  }

  /** Output edges: non-empty intervals inside [0, maxlen) between output nodes. */
  predicate TableEdgesOk(es: seq<Edge>, n: int, maxlen: real)
  {
    forall k :: 0 <= k < |es| ==>
      0.0 <= es[k].left < es[k].right <= maxlen && 0 <= es[k].parent < n && 0 <= es[k].child < n
  }

  /** Input edges name input nodes and cover non-empty intervals. */
  predicate InputEdgesOk(edges: seq<Edge>, numNodes: int)
  {
    forall k :: 0 <= k < |edges| ==>
      0 <= edges[k].parent < numNodes && 0 <= edges[k].child < numNodes && edges[k].left < edges[k].right
  }

  /** The simplifier's state between two parents. */
  predicate StateOk(nodes: seq<Node>, maxlen: real, ancestry: seq<seq<Segment>>, newNodes: seq<Node>,
                    newEdges: seq<Edge>, idmap: seq<int>)
  {
    && |ancestry| == |idmap| == |nodes|
    && IdmapOk(idmap, |newNodes|)
    && AllSegmentsOk(ancestry, maxlen, |newNodes|)
    && NodesOf(idmap, newNodes, nodes)
    && TableEdgesOk(newEdges, |newNodes|, maxlen)
  }

  /** Sample i keeps output node i and an ancestry that tiles the genome. */
  predicate SamplesKept(samples: seq<int>, idmap: seq<int>, ancestry: seq<seq<Segment>>, maxlen: real)
    requires |ancestry| == |idmap|
  {
    forall i :: 0 <= i < |samples| ==>
      0 <= samples[i] < |idmap| && idmap[samples[i]] == i && Tiles(ancestry[samples[i]], maxlen)
  }

  /** The state after record_sample_nodes on empty tables. */
  lemma StartOk(samples: seq<int>, nodes: seq<Node>, maxlen: real, ancestry0: seq<seq<Segment>>, idmap0: seq<int>,
                newNodes: seq<Node>, ancestry: seq<seq<Segment>>, idmap: seq<int>)
    requires 0.0 < maxlen && |ancestry0| == |idmap0| == |nodes|
    requires forall v :: 0 <= v < |nodes| ==> ancestry0[v] == [] && idmap0[v] == NULL
    requires forall k :: 0 <= k < |samples| ==> 0 <= samples[k] < |nodes|
    requires Recorded(samples, |samples|, nodes, maxlen, [], ancestry0, idmap0, newNodes, ancestry, idmap)
    requires IdmapOk(idmap, |newNodes|)
    ensures StateOk(nodes, maxlen, ancestry, newNodes, [], idmap)
    ensures SamplesKept(samples, idmap, ancestry, maxlen)
    ensures forall v :: 0 <= v < |nodes| ==> Increasing(ancestry[v]) && (idmap[v] == NULL ==> ancestry[v] == [])
  {
    forall v | 0 <= v < |nodes|
      ensures SegmentsOk(ancestry[v], maxlen, |newNodes|) && Increasing(ancestry[v])
      ensures idmap[v] == NULL ==> ancestry[v] == []
      ensures idmap[v] != NULL ==> 0 <= idmap[v] < |newNodes| && newNodes[idmap[v]] == nodes[v]
    {
      if v in samples {
        var k :| 0 <= k < |samples| && samples[k] == v;
        assert samples[..|samples|] == samples;
        assert ancestry[v] == [Segment(0.0, maxlen, k)];
      } else {
        assert samples[..|samples|] == samples;
      }
    }
    forall i | 0 <= i < |samples| ensures Tiles(ancestry[samples[i]], maxlen) {
      assert ancestry[samples[i]] == [Segment(0.0, maxlen, i)];
    }
  }

  /** A later output node makes no well-formed segment ill-formed. */
  lemma SegmentsGrow(ancestry: seq<seq<Segment>>, maxlen: real, n: int, n2: int)
    requires AllSegmentsOk(ancestry, maxlen, n) && n <= n2
    ensures AllSegmentsOk(ancestry, maxlen, n2)
  {
    forall v | 0 <= v < |ancestry| ensures SegmentsOk(ancestry[v], maxlen, n2) {
      assert SegmentsOk(ancestry[v], maxlen, n);
    }
  }

  /**
   * merge_ancestors for parent u as the drivers call it, with the queue
   * already finalized: the simplifier's state stays well formed, the
   * samples keep their nodes and full ancestry, and only u's entries change.
   */
  method MergeParent(maxlen: real, nodes: seq<Node>, u: int, ov: SegmentOverlapper, ancestry: seq<seq<Segment>>,
                     newNodes: seq<Node>, newEdges: seq<Edge>, idmap: seq<int>, ghost samples: seq<int>)
    returns (ancestry2: seq<seq<Segment>>, newNodes2: seq<Node>, newEdges2: seq<Edge>, idmap2: seq<int>)
    requires 0 <= u < |nodes| && 0.0 < maxlen
    requires StateOk(nodes, maxlen, ancestry, newNodes, newEdges, idmap) && SamplesKept(samples, idmap, ancestry, maxlen)
    requires QueueReady(ov.segmentQueue) && ov.segmentQueue[|ov.segmentQueue| - 1].left == maxlen
    requires QueueNodes(ov.segmentQueue, |newNodes|)
    modifies ov
    ensures StateOk(nodes, maxlen, ancestry2, newNodes2, newEdges2, idmap2)
    ensures SamplesKept(samples, idmap2, ancestry2, maxlen)
    ensures |ancestry2| == |ancestry| && ancestry2 == ancestry[u := ancestry2[u]]
    ensures |idmap2| == |idmap| && idmap2 == idmap[u := idmap2[u]]
    ensures idmap[u] != NULL ==> idmap2 == idmap
    ensures |newNodes2| >= |newNodes|
    ensures |newEdges2| >= |newEdges| && newEdges2[..|newEdges|] == newEdges
    ensures ancestry[u] == [] || idmap[u] != NULL ==> Increasing(ancestry2[u])
  {
    ancestry2, newNodes2, newEdges2, idmap2 := MergeAncestors(maxlen, nodes, u, ov, ancestry, newNodes, newEdges, idmap);
    SegmentsGrow(ancestry, maxlen, |newNodes|, |newNodes2|);
    var suffix := newEdges2[|newEdges|..];
    if suffix != [] {
      if idmap[u] != NULL {
        IdmapBound(idmap, |newNodes|, u);
      }
      assert idmap2[u] != NULL;
      IdmapBound(idmap2, |newNodes2|, u);
    }
    assert newEdges2 == newEdges + suffix;
    forall k | 0 <= k < |newEdges2|
      ensures 0.0 <= newEdges2[k].left < newEdges2[k].right <= maxlen
      ensures 0 <= newEdges2[k].parent < |newNodes2| && 0 <= newEdges2[k].child < |newNodes2|
    {
      if k >= |newEdges| {
        assert newEdges2[k] == suffix[k - |newEdges|];
      }
    }
    forall v | 0 <= v < |idmap2| && idmap2[v] != NULL
      ensures 0 <= idmap2[v] < |newNodes2| && newNodes2[idmap2[v]] == nodes[v]
    {
      if v != u || idmap[u] != NULL {
        assert idmap2[v] == idmap[v];
      }
    }
  }

  /** Each parent's edges are contiguous, as in an edge table sorted for simplification. */
  predicate ParentsContiguous(edges: seq<Edge>)
  {
    forall i, j, k :: 0 <= i < j < k < |edges| && edges[i].parent == edges[k].parent ==> edges[j].parent == edges[i].parent
  }

  /** No edge before index ptr has parent v. */
  predicate Unvisited(edges: seq<Edge>, ptr: int, v: int)
  {
    forall k :: 0 <= k < ptr && k < |edges| ==> edges[k].parent != v
  }

  /** With contiguous parents, the parent at a block boundary has not been seen before. */
  lemma NextParentUnvisited(edges: seq<Edge>, ptr: int)
    requires ParentsContiguous(edges) && 0 <= ptr < |edges|
    requires ptr > 0 ==> edges[ptr - 1].parent != edges[ptr].parent
    ensures Unvisited(edges, ptr, edges[ptr].parent)
  {
  }

  /**
   * std::copy of src over edges from index dest.  The library only calls it
   * where the result fits in the table; past the end, the model extends it.
   */
  function Overwrite(edges: seq<Edge>, dest: int, src: seq<Edge>): (r: seq<Edge>)
    requires 0 <= dest <= |edges|
    ensures |r| == if dest + |src| <= |edges| then |edges| else dest + |src|
    ensures r[..dest + |src|] == edges[..dest] + src
    ensures dest + |src| <= |edges| ==> r[dest + |src|..] == edges[dest + |src|..]
  {
    edges[..dest] + src + (if dest + |src| <= |edges| then edges[dest + |src|..] else [])
  }

  lemma TableEdgesConcat(a: seq<Edge>, b: seq<Edge>, n: int, maxlen: real)
    requires TableEdgesOk(a, n, maxlen) && TableEdgesOk(b, n, maxlen)
    ensures TableEdgesOk(a + b, n, maxlen)
  {
    forall k | 0 <= k < |a + b|
      ensures 0.0 <= (a + b)[k].left < (a + b)[k].right <= maxlen
      ensures 0 <= (a + b)[k].parent < n && 0 <= (a + b)[k].child < n
    {
      if k >= |a| {
        assert (a + b)[k] == b[k - |a|];
      }
    }
  }

  lemma TableEdgesGrow(es: seq<Edge>, n: int, n2: int, maxlen: real)
    requires TableEdgesOk(es, n, maxlen) && n <= n2
    ensures TableEdgesOk(es, n2, maxlen)
  {
  }

  /**
   * transfer_new_nodes_and_edges: truncate the edge table to the edges
   * written at its front and replace the node table by the output nodes.
   */
  method TransferNewNodesAndEdges(dest: int, newNodes: seq<Node>, t: TableCollection)
    requires 0 <= dest <= |t.edges|
    modifies t
    ensures t.edges == old(t.edges)[..dest] && t.nodes == newNodes
    ensures t.L == old(t.L) && t.mutations == old(t.mutations) && t.sites == old(t.sites)
    ensures t.inputLeft == old(t.inputLeft) && t.outputRight == old(t.outputRight) && t.edgeOffset == old(t.edgeOffset)
  {
    t.edges := t.edges[..dest];
    t.nodes := newNodes;
  }

  /**
   * One pass of the drivers' edge loops: gather the children's ancestry
   * under the edges of the parent u at ptr (find_parent_child_segment_overlap)
   * and merge it (merge_ancestors).
   */
  method SimplifyNextParent(maxlen: real, nodes: seq<Node>, edges: seq<Edge>, ptr: int, ov: SegmentOverlapper,
                            ancestry: seq<seq<Segment>>, newNodes: seq<Node>, newEdges: seq<Edge>, idmap: seq<int>,
                            ghost samples: seq<int>)
    returns (ptr2: int, ancestry2: seq<seq<Segment>>, newNodes2: seq<Node>, newEdges2: seq<Edge>, idmap2: seq<int>)
    requires 0 <= ptr < |edges| && 0.0 < maxlen <= MAX_DOUBLE && InputEdgesOk(edges[ptr..], |nodes|)
    requires StateOk(nodes, maxlen, ancestry, newNodes, newEdges, idmap) && SamplesKept(samples, idmap, ancestry, maxlen)
    modifies ov
    ensures ptr < ptr2 <= |edges| && (ptr2 == |edges| || edges[ptr2].parent != edges[ptr].parent)
    ensures forall k :: ptr <= k < ptr2 ==> edges[k].parent == edges[ptr].parent
    ensures var u := edges[ptr].parent;
      && StateOk(nodes, maxlen, ancestry2, newNodes2, newEdges2, idmap2)
      && SamplesKept(samples, idmap2, ancestry2, maxlen)
      && |ancestry2| == |ancestry| && ancestry2 == ancestry[u := ancestry2[u]]
      && |idmap2| == |idmap| && idmap2 == idmap[u := idmap2[u]]
      && (idmap[u] != NULL ==> idmap2 == idmap)
      && |newNodes2| >= |newNodes|
      && |newEdges2| >= |newEdges| && newEdges2[..|newEdges|] == newEdges
      && (ancestry[u] == [] || idmap[u] != NULL ==> Increasing(ancestry2[u]))
  {
    var u := edges[ptr].parent;
    assert forall k :: ptr <= k < |edges| ==> edges[k] == edges[ptr..][k - ptr];
    ptr2 := FindParentChildSegmentOverlap(maxlen, edges, ptr, u, ancestry, ov, |newNodes|);
    ancestry2, newNodes2, newEdges2, idmap2 := MergeParent(maxlen, nodes, u, ov, ancestry, newNodes, newEdges, idmap, samples);
  }

  /** What both drivers ask of the tables: rows they index exist, edges are non-empty. */
  predicate InputOk(samples: seq<int>, t: TableCollection)
    reads t
  {
    && t.Valid() && t.L <= MAX_DOUBLE
    && (forall k :: 0 <= k < |samples| ==> 0 <= samples[k] < |t.nodes|)
    && InputEdgesOk(t.edges, |t.nodes|)
    && TablesOk(t.mutations, t.sites, |t.nodes|)
  }

  /**
   * The setup common to both drivers: an empty ancestry list and a null
   * idmap entry per input node, then record_sample_nodes.
   */
  method StartSimplification(samples: seq<int>, nodes: seq<Node>, maxlen: real)
    returns (o: Outcome, ancestry: seq<seq<Segment>>, newNodes: seq<Node>, idmap: seq<int>)
    requires 0.0 < maxlen && forall k :: 0 <= k < |samples| ==> 0 <= samples[k] < |nodes|
    ensures o == Done <==> Distinct(samples)
    ensures o != Done ==> o == Fail(InvalidArgument)
    ensures o == Done ==>
      && StateOk(nodes, maxlen, ancestry, newNodes, [], idmap)
      && SamplesKept(samples, idmap, ancestry, maxlen)
      && |newNodes| == |samples|
      && (forall v :: 0 <= v < |nodes| ==> Increasing(ancestry[v]) && (idmap[v] == NULL ==> ancestry[v] == []))
  {
    var ancestry0 := seq(|nodes|, _ => []);
    var idmap0 := seq(|nodes|, _ => NULL);
    IdmapAllNull(idmap0);
    o, newNodes, ancestry, idmap := RecordSampleNodes(samples, nodes, maxlen, [], ancestry0, idmap0);
    if o == Done {
      StartOk(samples, nodes, maxlen, ancestry0, idmap0, newNodes, ancestry, idmap);
    }
  }

  /**
   * The std::copy of the buffered output edges to new_edge_destination:
   * the written prefix of the edge table grows by the buffer, and what
   * lies beyond it is untouched.
   */
  method FlushEdges(edges: seq<Edge>, dest: nat, newEdges: seq<Edge>, ghost n: int, ghost maxlen: real)
    returns (edges2: seq<Edge>, dest2: nat)
    requires dest <= |edges|
    requires TableEdgesOk(edges[..dest], n, maxlen) && TableEdgesOk(newEdges, n, maxlen)
    ensures dest2 == dest + |newEdges| <= |edges2|
    ensures edges2[..dest2] == edges[..dest] + newEdges
    ensures TableEdgesOk(edges2[..dest2], n, maxlen)
    ensures dest2 <= |edges| ==> |edges2| == |edges| && edges2[dest2..] == edges[dest2..]
  {
    TableEdgesConcat(edges[..dest], newEdges, n, maxlen);
    edges2 := Overwrite(edges, dest, newEdges);
    dest2 := dest + |newEdges|;
  }

  /**
   * Between parents in a sorted edge table: every ancestry list is
   * increasing, an unmapped node whose edges are all still ahead has no
   * ancestry yet, and ptr starts a new parent's block.
   */
  predicate SweepOk(edges: seq<Edge>, ptr: int, ancestry: seq<seq<Segment>>, idmap: seq<int>)
    requires |ancestry| == |idmap|
  {
    && (forall v :: 0 <= v < |ancestry| ==> Increasing(ancestry[v]))
    && (forall v :: 0 <= v < |ancestry| && idmap[v] == NULL && Unvisited(edges, ptr, v) ==> ancestry[v] == [])
    && (0 < ptr < |edges| ==> edges[ptr - 1].parent != edges[ptr].parent)
  }

  /** One pass of the edge loop: the next parent's block, merged, keeps the sweep state. */
  method SortedParentStep(samples: seq<int>, nodes: seq<Node>, maxlen: real, edges: seq<Edge>, ptr: nat,
                          ov: SegmentOverlapper, ancestry: seq<seq<Segment>>, newNodes: seq<Node>,
                          newEdges: seq<Edge>, idmap: seq<int>)
    returns (ptr2: nat, ancestry2: seq<seq<Segment>>, newNodes2: seq<Node>, newEdges2: seq<Edge>, idmap2: seq<int>)
    requires ptr < |edges| && 0.0 < maxlen <= MAX_DOUBLE
    requires InputEdgesOk(edges, |nodes|) && ParentsContiguous(edges)
    requires StateOk(nodes, maxlen, ancestry, newNodes, newEdges, idmap)
    requires SamplesKept(samples, idmap, ancestry, maxlen)
    requires SweepOk(edges, ptr, ancestry, idmap)
    modifies ov
    ensures ptr < ptr2 <= |edges|
    ensures StateOk(nodes, maxlen, ancestry2, newNodes2, newEdges2, idmap2)
    ensures SamplesKept(samples, idmap2, ancestry2, maxlen)
    ensures SweepOk(edges, ptr2, ancestry2, idmap2)
    ensures |newNodes2| >= |newNodes|
    ensures |newEdges2| >= |newEdges| && newEdges2[..|newEdges|] == newEdges
  {
    NextParentUnvisited(edges, ptr);
    ghost var u := edges[ptr].parent;
    ptr2, ancestry2, newNodes2, newEdges2, idmap2 :=
      SimplifyNextParent(maxlen, nodes, edges, ptr, ov, ancestry, newNodes, newEdges, idmap, samples);
    forall v | 0 <= v < |ancestry2| && idmap2[v] == NULL && Unvisited(edges, ptr2, v)
      ensures ancestry2[v] == []
    {
      assert edges[ptr].parent != v;
      assert Unvisited(edges, ptr, v);
    }
  }

  /**
   * The edge loop of simplify_tables: each parent's block of edges is
   * consumed by find_parent_child_segment_overlap and merge_ancestors,
   * and the output edges are written back to the front of the edge table
   * in batches of at least 1024, once they fit strictly before the next
   * unread input edge, and at the end.
   */
  method SortedEdgeLoop(samples: seq<int>, nodes: seq<Node>, maxlen: real, edges: seq<Edge>,
                        ancestry: seq<seq<Segment>>, newNodes: seq<Node>, idmap: seq<int>)
    returns (edges2: seq<Edge>, dest: nat, ancestry2: seq<seq<Segment>>, newNodes2: seq<Node>, idmap2: seq<int>)
    requires 0.0 < maxlen <= MAX_DOUBLE
    requires InputEdgesOk(edges, |nodes|) && ParentsContiguous(edges)
    requires StateOk(nodes, maxlen, ancestry, newNodes, [], idmap)
    requires SamplesKept(samples, idmap, ancestry, maxlen)
    requires forall v :: 0 <= v < |nodes| ==> Increasing(ancestry[v]) && (idmap[v] == NULL ==> ancestry[v] == [])
    ensures dest <= |edges2|
    ensures StateOk(nodes, maxlen, ancestry2, newNodes2, edges2[..dest], idmap2)
    ensures SamplesKept(samples, idmap2, ancestry2, maxlen)
    ensures forall v :: 0 <= v < |nodes| ==> Increasing(ancestry2[v])
  {
    var ov := new SegmentOverlapper();
    edges2, ancestry2, newNodes2, idmap2 := edges, ancestry, newNodes, idmap;
    var ptr := 0;
    dest := 0;
    var newEdges: seq<Edge> := [];
    while ptr < |edges|
      invariant 0 <= dest <= ptr <= |edges2| == |edges| && edges2[ptr..] == edges[ptr..]
      invariant StateOk(nodes, maxlen, ancestry2, newNodes2, newEdges, idmap2)
      invariant SamplesKept(samples, idmap2, ancestry2, maxlen)
      invariant TableEdgesOk(edges2[..dest], |newNodes2|, maxlen)
      invariant SweepOk(edges, ptr, ancestry2, idmap2)
    {
      var n0 := |newNodes2|;
      ptr, ancestry2, newNodes2, newEdges, idmap2 :=
        SortedParentStep(samples, nodes, maxlen, edges, ptr, ov, ancestry2, newNodes2, newEdges, idmap2);
      TableEdgesGrow(edges2[..dest], n0, |newNodes2|, maxlen);
      if |newEdges| >= 1024 && dest + |newEdges| < ptr {
        edges2, dest := FlushEdges(edges2, dest, newEdges, |newNodes2|, maxlen);
        newEdges := [];
      }
    }
    if newEdges != [] {
      edges2, dest := FlushEdges(edges2, dest, newEdges, |newNodes2|, maxlen);
    }
  }

  /**
   * simplify_tables for an edge table sorted for simplification: the output
   * replaces the node, edge, mutation and site tables; idmap maps input
   * nodes to output nodes, sample i to node i; the state's ancestry lists
   * are returned as `ancestry`.  A repeated sample throws before any table
   * changes.
   */
  method SimplifySorted(samples: seq<int>, t: TableCollection)
    returns (o: Outcome, idmap: seq<int>, preserved: seq<nat>, ancestry: seq<seq<Segment>>)
    requires InputOk(samples, t) && ParentsContiguous(t.edges)
    modifies t
    ensures o == Done <==> Distinct(samples)
    ensures o != Done ==> o == Fail(InvalidArgument) && unchanged(t)
    ensures o == Done ==>
      && |idmap| == |old(t.nodes)| == |ancestry| && t.L == old(t.L)
      && CountIf(idmap, NotNull) == |t.nodes|
      && NodesOf(idmap, t.nodes, old(t.nodes))
      && SamplesKept(samples, idmap, ancestry, t.L)
      && TableEdgesOk(t.edges, |t.nodes|, t.L)
      && (forall v :: 0 <= v < |ancestry| ==> Increasing(ancestry[v]))
      && Simplified(old(t.mutations), old(t.sites), ancestry, t.mutations, t.sites, preserved)
  {
    var nodes, maxlen := t.nodes, t.L;
    var newNodes;
    o, ancestry, newNodes, idmap := StartSimplification(samples, nodes, maxlen);
    if o != Done {
      preserved := [];
      return;
    }
    var edges, dest;
    edges, dest, ancestry, newNodes, idmap := SortedEdgeLoop(samples, nodes, maxlen, t.edges, ancestry, newNodes, idmap);
    IdmapCount(idmap, |newNodes|);
    var muts2, sites2;
    muts2, sites2, preserved := SimplifyMutations(t.mutations, t.sites, ancestry);
    t.edges, t.mutations, t.sites := edges, muts2, sites2;
    TransferNewNodesAndEdges(dest, newNodes, t);
  }
}

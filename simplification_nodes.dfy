// fwdpp/ts/simplification/simplification.hpp, second part: the map from
// input to output nodes (idmap), record_sample_nodes, and merge_ancestors,
// which sweeps one parent's queue of child segments and writes the parent's
// ancestry, its output node and its output edges.

module SimplificationNodes {
  import opened Types
  import opened Sorting
  import opened Simplification
  import opened SimplificationBuffers

  function NotNull(x: int): bool
  {
    x != NULL
  }

  /**
   * The non-null entries of idmap are the output node ids 0 .. n-1, each
   * exactly once: so there are n of them (the library asserts this count
   * after the edge loop of simplify_tables).
   */
  predicate IdmapOk(idmap: seq<int>, n: nat)
  {
    multiset(Filter(idmap, NotNull)) == multiset(Range(0, n))
  }

  /** The count the library asserts. */
  lemma IdmapCount(idmap: seq<int>, n: nat)
    requires IdmapOk(idmap, n)
    ensures CountIf(idmap, NotNull) == n
  {
    assert |multiset(Filter(idmap, NotNull))| == |Filter(idmap, NotNull)|;
  }

  /** Every non-null entry names an existing output node. */
  lemma IdmapBound(idmap: seq<int>, n: nat, i: int)
    requires IdmapOk(idmap, n) && 0 <= i < |idmap| && idmap[i] != NULL
    ensures 0 <= idmap[i] < n
  {
    FilterMembers(idmap, NotNull);
    assert NotNull(idmap[i]) && idmap[i] in idmap;
    assert idmap[i] in Filter(idmap, NotNull);
    assert idmap[i] in multiset(Filter(idmap, NotNull));
    assert idmap[i] in Range(0, n);
  }

  /** A fresh idmap has no output nodes. */
  lemma IdmapAllNull(idmap: seq<int>)
    requires forall k :: 0 <= k < |idmap| ==> idmap[k] == NULL
    ensures IdmapOk(idmap, 0)
  {
    FilterNone(idmap, NotNull);
  }

  /** Giving a null entry the next output id keeps the map consistent with one more node. */
  lemma IdmapSet(idmap: seq<int>, n: nat, i: int)
    requires IdmapOk(idmap, n) && 0 <= i < |idmap| && idmap[i] == NULL
    ensures IdmapOk(idmap[i := n], n + 1)
  {
    var a, b := idmap[..i], idmap[i + 1..];
    assert idmap == a + [idmap[i]] + b;
    assert idmap[i := n] == a + [n] + b;
    FilterConcat(a + [idmap[i]], b, NotNull);
    FilterConcat(a, [idmap[i]], NotNull);
    FilterConcat(a + [n], b, NotNull);
    FilterConcat(a, [n], NotNull);
    assert Range(0, n + 1) == Range(0, n) + [n];
  }

  // record_sample_nodes

  /** No sample is listed twice and none has an output node yet. */
  predicate FreshSamples(samples: seq<int>, idmap: seq<int>)
    requires forall k :: 0 <= k < |samples| ==> 0 <= samples[k] < |idmap|
  {
    Distinct(samples) && forall k :: 0 <= k < |samples| ==> idmap[samples[k]] == NULL
  }

  /** The state after record_sample_nodes has handled the first i samples without throwing. */
  predicate Recorded(samples: seq<int>, i: nat, nodes: seq<Node>, L: real,
                     newNodes: seq<Node>, ancestry: seq<seq<Segment>>, idmap: seq<int>,
                     newNodes2: seq<Node>, ancestry2: seq<seq<Segment>>, idmap2: seq<int>)
    requires |idmap| == |nodes| == |ancestry| && i <= |samples| && L > 0.0
    requires forall k :: 0 <= k < |samples| ==> 0 <= samples[k] < |idmap|
  {
    && |newNodes2| == |newNodes| + i && newNodes2[..|newNodes|] == newNodes
    && |idmap2| == |idmap| && |ancestry2| == |ancestry|
    && (forall k :: 0 <= k < i ==> newNodes2[|newNodes| + k] == nodes[samples[k]])
    && (forall k :: 0 <= k < i ==> idmap2[samples[k]] == |newNodes| + k)
    && (forall k :: 0 <= k < i ==>
          ancestry2[samples[k]] == AddAncestry(ancestry[samples[k]], 0.0, L, |newNodes| + k).value)
    && (forall x :: 0 <= x < |idmap| && x !in samples[..i] ==> idmap2[x] == idmap[x] && ancestry2[x] == ancestry[x])
  }

  /** Recording sample i, which has no output node yet, extends the recorded state by one. */
  lemma RecordStep(samples: seq<int>, i: nat, nodes: seq<Node>, L: real,
                   newNodes: seq<Node>, ancestry: seq<seq<Segment>>, idmap: seq<int>,
                   newNodes2: seq<Node>, ancestry2: seq<seq<Segment>>, idmap2: seq<int>)
    requires |idmap| == |nodes| == |ancestry| && i < |samples| && L > 0.0
    requires forall k :: 0 <= k < |samples| ==> 0 <= samples[k] < |idmap|
    requires Recorded(samples, i, nodes, L, newNodes, ancestry, idmap, newNodes2, ancestry2, idmap2)
    requires samples[i] !in samples[..i]
    ensures var s, id := samples[i], |newNodes2|;
      Recorded(samples, i + 1, nodes, L, newNodes, ancestry, idmap,
               newNodes2 + [nodes[s]], ancestry2[s := AddAncestry(ancestry2[s], 0.0, L, id).value], idmap2[s := id])
  {
    var s, id := samples[i], |newNodes2|;
    var n3, a3, i3 := newNodes2 + [nodes[s]], ancestry2[s := AddAncestry(ancestry2[s], 0.0, L, id).value], idmap2[s := id];
    assert samples[..i + 1] == samples[..i] + [s];
    assert n3[..|newNodes|] == newNodes2[..|newNodes|];
    forall k | 0 <= k < i + 1
      ensures i3[samples[k]] == |newNodes| + k && n3[|newNodes| + k] == nodes[samples[k]]
      ensures a3[samples[k]] == AddAncestry(ancestry[samples[k]], 0.0, L, |newNodes| + k).value
    {
      if k < i {
        assert samples[k] in samples[..i];
        assert samples[k] != s;
      } else {
        assert ancestry2[s] == ancestry[s];
      }
    }
  }

  /**
   * record_sample_nodes: each sample in turn gets the next output node (a
   * copy of its input node), the ancestry segment [0, L) on that node, and
   * its idmap entry; a sample whose entry is already set (a repeat, or one
   * mapped before) throws std::invalid_argument.
   */
  method RecordSampleNodes(samples: seq<int>, nodes: seq<Node>, L: real, newNodes: seq<Node>,
                           ancestry: seq<seq<Segment>>, idmap: seq<int>)
    returns (o: Outcome, newNodes2: seq<Node>, ancestry2: seq<seq<Segment>>, idmap2: seq<int>)
    requires |idmap| == |nodes| == |ancestry| && L > 0.0
    requires forall k :: 0 <= k < |samples| ==> 0 <= samples[k] < |idmap|
    ensures o == Done <==> FreshSamples(samples, idmap)
    ensures o != Done ==> o == Fail(InvalidArgument)
    ensures o == Done ==> Recorded(samples, |samples|, nodes, L, newNodes, ancestry, idmap, newNodes2, ancestry2, idmap2)
    ensures o == Done && IdmapOk(idmap, |newNodes|) ==> IdmapOk(idmap2, |newNodes2|)
  {
    newNodes2, ancestry2, idmap2 := newNodes, ancestry, idmap;
    var i := 0;
    while i < |samples|
      invariant 0 <= i <= |samples|
      invariant FreshSamples(samples[..i], idmap)
      invariant Recorded(samples, i, nodes, L, newNodes, ancestry, idmap, newNodes2, ancestry2, idmap2)
      invariant IdmapOk(idmap, |newNodes|) ==> IdmapOk(idmap2, |newNodes2|)
    {
      var s := samples[i];
      if idmap2[s] != NULL {
        NotFresh(samples, i, idmap, idmap2, |newNodes|);
        return Fail(InvalidArgument), newNodes2, ancestry2, idmap2;
      }
      newNodes2, ancestry2, idmap2 := RecordOne(samples, i, nodes, L, newNodes, ancestry, idmap, newNodes2, ancestry2, idmap2);
      i := i + 1;
    }
    assert samples[..i] == samples;
    o := Done;
  }

  /** The body of record_sample_nodes' loop for a sample with no output node yet. */
  method RecordOne(samples: seq<int>, i: nat, nodes: seq<Node>, L: real,
                   newNodes: seq<Node>, ancestry: seq<seq<Segment>>, idmap: seq<int>,
                   newNodes2: seq<Node>, ancestry2: seq<seq<Segment>>, idmap2: seq<int>)
    returns (newNodes3: seq<Node>, ancestry3: seq<seq<Segment>>, idmap3: seq<int>)
    requires |idmap| == |nodes| == |ancestry| && i < |samples| && L > 0.0
    requires forall k :: 0 <= k < |samples| ==> 0 <= samples[k] < |idmap|
    requires FreshSamples(samples[..i], idmap)
    requires Recorded(samples, i, nodes, L, newNodes, ancestry, idmap, newNodes2, ancestry2, idmap2)
    requires IdmapOk(idmap, |newNodes|) ==> IdmapOk(idmap2, |newNodes2|)
    requires idmap2[samples[i]] == NULL
    ensures FreshSamples(samples[..i + 1], idmap)
    ensures Recorded(samples, i + 1, nodes, L, newNodes, ancestry, idmap, newNodes3, ancestry3, idmap3)
    ensures IdmapOk(idmap, |newNodes|) ==> IdmapOk(idmap3, |newNodes3|)
  {
    var s := samples[i];
    FreshUnmapped(samples, i, nodes, L, newNodes, ancestry, idmap, newNodes2, ancestry2, idmap2);
    var id := |newNodes2|;
    RecordStep(samples, i, nodes, L, newNodes, ancestry, idmap, newNodes2, ancestry2, idmap2);
    if IdmapOk(idmap, |newNodes|) {
      IdmapSet(idmap2, id, s);
    }
    newNodes3 := newNodes2 + [nodes[s]];
    ancestry3 := ancestry2[s := AddAncestry(ancestry2[s], 0.0, L, id).value];
    idmap3 := idmap2[s := id];
  }

  /** A sample still unmapped when its turn comes is new, and was unmapped in the input. */
  lemma FreshUnmapped(samples: seq<int>, i: nat, nodes: seq<Node>, L: real,
                      newNodes: seq<Node>, ancestry: seq<seq<Segment>>, idmap: seq<int>,
                      newNodes2: seq<Node>, ancestry2: seq<seq<Segment>>, idmap2: seq<int>)
    requires |idmap| == |nodes| == |ancestry| && i < |samples| && L > 0.0
    requires forall k :: 0 <= k < |samples| ==> 0 <= samples[k] < |idmap|
    requires FreshSamples(samples[..i], idmap)
    requires Recorded(samples, i, nodes, L, newNodes, ancestry, idmap, newNodes2, ancestry2, idmap2)
    requires idmap2[samples[i]] == NULL
    ensures samples[i] !in samples[..i] && idmap[samples[i]] == NULL
    ensures FreshSamples(samples[..i + 1], idmap)
  {
    var s := samples[i];
    forall j | 0 <= j < i ensures samples[..i][j] != s {
      assert idmap2[samples[j]] == |newNodes| + j;
    }
    FreshStep(samples, i, idmap);
  }

  /** A sample whose entry is set when its turn comes is a repeat or was mapped before. */
  lemma NotFresh(samples: seq<int>, i: nat, idmap: seq<int>, idmap2: seq<int>, n: nat)
    requires i < |samples| && |idmap2| == |idmap|
    requires forall k :: 0 <= k < |samples| ==> 0 <= samples[k] < |idmap|
    requires forall x :: 0 <= x < |idmap| && x !in samples[..i] ==> idmap2[x] == idmap[x]
    requires idmap2[samples[i]] != NULL
    ensures !FreshSamples(samples, idmap)
  {
    var s := samples[i];
    if s in samples[..i] {
      var j :| 0 <= j < i && samples[..i][j] == s;
      assert samples[j] == samples[i];
    } else {
      assert idmap[samples[i]] != NULL;
    }
  }

  /** One more sample without an entry and not repeated keeps the prefix fresh. */
  lemma FreshStep(samples: seq<int>, i: nat, idmap: seq<int>)
    requires i < |samples|
    requires forall k :: 0 <= k < |samples| ==> 0 <= samples[k] < |idmap|
    requires FreshSamples(samples[..i], idmap) && samples[i] !in samples[..i] && idmap[samples[i]] == NULL
    ensures FreshSamples(samples[..i + 1], idmap)
  {
    var t := samples[..i + 1];
    forall a, b | 0 <= a < b < |t| ensures t[a] != t[b] {
      if b == i {
        assert t[a] == samples[..i][a];
      } else {
        assert t[a] == samples[..i][a] && t[b] == samples[..i][b];
      }
    }
  }

  // merge_ancestors

  /** Segments non-empty, inside [0, maxlen] and mapped to existing output nodes. */
  predicate SegmentsOk(list: seq<Segment>, maxlen: real, n: int)
  {
    forall k :: 0 <= k < |list| ==> 0.0 <= list[k].left < list[k].right <= maxlen && 0 <= list[k].node < n
  }

  /** The list tiles [0, b): it starts at 0 and each segment begins where the previous one ends. */
  predicate Tiles(list: seq<Segment>, b: real)
  {
    && (list == [] ==> b == 0.0)
    && (list != [] ==> list[0].left == 0.0 && End(list) == b)
    && (forall k :: 0 <= k < |list| - 1 ==> list[k].right == list[k + 1].left)
  }

  /** Buffered edges: non-empty, inside [0, maxlen], from parent to existing output nodes. */
  predicate EdgesOk(temp: seq<Edge>, parent: int, n: int, maxlen: real)
  {
    forall k :: 0 <= k < |temp| ==>
      0.0 <= temp[k].left < temp[k].right <= maxlen && temp[k].parent == parent && 0 <= temp[k].child < n
  }

  /** The segments of a finalized queue map to existing output nodes. */
  predicate QueueNodes(q: seq<Segment>, n: int)
  {
    forall k :: 0 <= k < |q| - 1 ==> 0 <= q[k].node < n
  }

  /** Some live segment maps to node c. */
  predicate HasNode(ovs: seq<Segment>, c: int)
  {
    exists k :: 0 <= k < |ovs| && ovs[k].node == c
  }

  /** While segments are live, the interval lies in [0, the sentinel's left end] and they map to queued nodes. */
  lemma LiveFacts(q: seq<Segment>, sbeg: int, ovs: seq<Segment>, left: real, right: real, n: int)
    requires Sweep(q, sbeg, ovs, left, right) && ovs != [] && QueueNodes(q, n)
    ensures 0.0 <= left < right <= q[|q| - 1].left
    ensures forall k :: 0 <= k < |ovs| ==> 0 <= ovs[k].node < n
  {
    forall k | 0 <= k < |ovs| ensures 0 <= ovs[k].node < n && 0.0 <= ovs[k].left {
      var i :| 0 <= i < |q| - 1 && q[..|q| - 1][i] == ovs[k];
      assert q[i] == ovs[k];
    }
    Queued(q, ovs[0]);
    if sbeg < |q| - 1 {
      assert q[sbeg].left <= q[|q| - 1].left;
    }
  }

  /** Adding ancestry [left, right) on an existing node keeps a list well formed, tiled and increasing. */
  lemma AddAncestryOk(list: seq<Segment>, left: real, right: real, node: int, maxlen: real, n: int)
    requires SegmentsOk(list, maxlen, n) && 0.0 <= left < right <= maxlen && 0 <= node < n
    ensures AddAncestry(list, left, right, node).Ok?
    ensures var l2 := AddAncestry(list, left, right, node).value;
      && SegmentsOk(l2, maxlen, n) && End(l2) == right
      && (Tiles(list, left) ==> Tiles(l2, right))
      && (Increasing(list) && End(list) <= left ==> Increasing(l2))
  {
    var l2 := AddAncestry(list, left, right, node).value;
    if Increasing(list) && End(list) <= left {
      AddAncestryMaps(list, left, right, node, left, node);
    }
    if list != [] && list[|list| - 1].right == left && list[|list| - 1].node == node {
      assert forall k :: 0 <= k < |list| - 1 ==> l2[k] == list[k];
    } else {
      assert l2 == list + [Segment(left, right, node)];
    }
  }

  /** buffer_edge keeps the buffered edges well formed. */
  lemma BufferEdgeOk(temp: seq<Edge>, left: real, right: real, parent: int, child: int, temp2: seq<Edge>, n: int, maxlen: real)
    requires EdgesOk(temp, parent, n, maxlen) && 0.0 <= left < right <= maxlen && 0 <= child < n
    requires var j := LastOfChild(temp, child);
      if j >= 0 && temp[j].right == left then temp2 == temp[j := temp[j].(right := right)]
      else temp2 == temp + [Edge(left, right, parent, child)]
    ensures EdgesOk(temp2, parent, n, maxlen) && temp2 != [] && |temp| <= |temp2|
  {
  }

  /**
   * The for loop of merge_ancestors over the live segments: buffers
   * [left, right) from parent to each live segment's node, so that for each
   * child the buffer covers what it covered plus [left, right) exactly when
   * some live segment maps to that child.
   */
  method BufferAll(temp: seq<Edge>, ovs: seq<Segment>, left: real, right: real, parent: int, ghost n: int, ghost maxlen: real)
    returns (temp2: seq<Edge>)
    requires EdgesOk(temp, parent, n, maxlen) && 0.0 <= left < right <= maxlen
    requires forall k :: 0 <= k < |ovs| ==> 0 <= ovs[k].node < n
    ensures EdgesOk(temp2, parent, n, maxlen) && |temp| <= |temp2| && (ovs != [] ==> temp2 != [])
    ensures forall c, x :: Covers(temp2, c, x) <==> Covers(temp, c, x) || (left <= x < right && HasNode(ovs, c))
  {
    temp2 := temp;
    var i := 0;
    while i < |ovs|
      invariant 0 <= i <= |ovs|
      invariant EdgesOk(temp2, parent, n, maxlen) && |temp| <= |temp2| && (i > 0 ==> temp2 != [])
      invariant forall c, x :: Covers(temp2, c, x) <==> Covers(temp, c, x) || (left <= x < right && HasNode(ovs[..i], c))
    {
      var t := BufferEdge(temp2, left, right, parent, ovs[i].node);
      BufferEdgeOk(temp2, left, right, parent, ovs[i].node, t, n, maxlen);
      forall c, x ensures Covers(t, c, x) <==> Covers(temp, c, x) || (left <= x < right && HasNode(ovs[..i + 1], c)) {
        BufferEdgeCovers(temp2, left, right, parent, ovs[i].node, t, c, x);
        HasNodeStep(ovs, i, c);
      }
      temp2 := t;
      i := i + 1;
    }
    assert ovs[..i] == ovs;
  }

  lemma HasNodeStep(ovs: seq<Segment>, i: nat, c: int)
    requires i < |ovs|
    ensures HasNode(ovs[..i + 1], c) <==> HasNode(ovs[..i], c) || ovs[i].node == c
  {
    if HasNode(ovs[..i + 1], c) {
      var k :| 0 <= k < i + 1 && ovs[..i + 1][k].node == c;
      if k < i {
        assert ovs[..i][k] == ovs[k];
      }
    }
    if HasNode(ovs[..i], c) {
      var k :| 0 <= k < i && ovs[..i][k].node == c;
      assert ovs[..i + 1][k] == ovs[k];
    }
    if ovs[i].node == c {
      assert ovs[..i + 1][i] == ovs[i];
    }
  }

  /**
   * What merge_ancestors keeps true while it sweeps parent u: a sample keeps
   * its output node and its ancestry tiles [0, prev); a non-sample has no
   * output node and no buffered edges until the first coalescence, then
   * exactly one new node, a copy of u's input node; segments and buffered
   * edges stay well formed, and the list stays increasing when it started
   * empty.
   */
  predicate MergeInv(isSample: bool, sampleId: int, outputId: int, inputNode: Node, newNodes0: seq<Node>,
                     startEmpty: bool, list: seq<Segment>, temp: seq<Edge>, newNodes: seq<Node>, prev: real, maxlen: real)
  {
    && 0.0 <= prev <= maxlen
    && (isSample ==> outputId == sampleId && 0 <= outputId < |newNodes0| && newNodes == newNodes0 && Tiles(list, prev))
    && (!isSample ==>
          || (outputId == NULL && newNodes == newNodes0 && temp == [])
          || (outputId == |newNodes0| && newNodes == newNodes0 + [inputNode] && temp != []))
    && SegmentsOk(list, maxlen, |newNodes|)
    && (startEmpty ==> Increasing(list) && End(list) <= prev)
    && EdgesOk(temp, outputId, |newNodes0|, maxlen)
  }

  /**
   * One pass of merge_ancestors' while loop, over the interval [left, right)
   * with live segments ovs.  With one live segment the ancestry passes its
   * node through (a sample instead records an edge to it and keeps its own
   * node); with several, the parent gets an output node if it has none and
   * an edge to each live segment's node.  A sample first fills any gap
   * since prev with its own node.
   */
  method MergeStep(isSample: bool, ghost sampleId: int, outputId: int, inputNode: Node, ghost newNodes0: seq<Node>,
                   ghost startEmpty: bool, list: seq<Segment>, temp: seq<Edge>, newNodes: seq<Node>, prev: real, maxlen: real,
                   ovs: seq<Segment>, left: real, right: real)
    returns (outputId2: int, list2: seq<Segment>, temp2: seq<Edge>, newNodes2: seq<Node>)
    requires MergeInv(isSample, sampleId, outputId, inputNode, newNodes0, startEmpty, list, temp, newNodes, prev, maxlen)
    requires ovs != [] && prev <= left < right <= maxlen
    requires forall k :: 0 <= k < |ovs| ==> 0 <= ovs[k].node < |newNodes0|
    ensures MergeInv(isSample, sampleId, outputId2, inputNode, newNodes0, startEmpty, list2, temp2, newNodes2, right, maxlen)
  {
    outputId2, newNodes2 := outputId, newNodes;
    var ancestryNode: int;
    if |ovs| == 1 {
      ancestryNode := ovs[0].node;
      temp2 := temp;
      if isSample {
        temp2 := BufferEdge(temp, left, right, outputId, ancestryNode);
        BufferEdgeOk(temp, left, right, outputId, ancestryNode, temp2, |newNodes0|, maxlen);
        ancestryNode := outputId;
      }
    } else {
      if outputId == NULL {
        newNodes2 := newNodes + [inputNode];
        outputId2 := |newNodes2| - 1;
      }
      ancestryNode := outputId2;
      temp2 := BufferAll(temp, ovs, left, right, outputId2, |newNodes0|, maxlen);
    }
    assert SegmentsOk(list, maxlen, |newNodes2|);
    var l := list;
    if isSample && left != prev {
      AddAncestryOk(l, prev, left, outputId2, maxlen, |newNodes2|);
      l := AddAncestry(l, prev, left, outputId2).value;
    }
    AddAncestryOk(l, left, right, ancestryNode, maxlen, |newNodes2|);
    list2 := AddAncestry(l, left, right, ancestryNode).value;
  }

  /**
   * The while loop of merge_ancestors: runs the overlapper over its queue
   * from the start and applies MergeStep to every interval with live
   * segments; prev ends as the right end of the last interval.
   */
  method MergeSweep(maxlen: real, isSample: bool, ghost sampleId: int, outputId0: int, inputNode: Node,
                    newNodes: seq<Node>, ghost startEmpty: bool, list0: seq<Segment>, ov: SegmentOverlapper)
    returns (outputId: int, list: seq<Segment>, temp: seq<Edge>, newNodes2: seq<Node>, prev: real)
    requires QueueReady(ov.segmentQueue) && ov.segmentQueue[|ov.segmentQueue| - 1].left == maxlen
    requires QueueNodes(ov.segmentQueue, |newNodes|)
    requires MergeInv(isSample, sampleId, outputId0, inputNode, newNodes, startEmpty, list0, [], newNodes, 0.0, maxlen)
    modifies ov
    ensures ov.segmentQueue == old(ov.segmentQueue)
    ensures MergeInv(isSample, sampleId, outputId, inputNode, newNodes, startEmpty, list, temp, newNodes2, prev, maxlen)
  {
    ghost var q := ov.segmentQueue;
    outputId, list, temp, newNodes2, prev := outputId0, list0, [], newNodes, 0.0;
    ov.Init();
    var more := ov.Next();
    while more
      invariant ov.Valid() && ov.segmentQueue == q
      invariant more ==> ov.overlapping != [] && prev <= ov.left
      invariant MergeInv(isSample, sampleId, outputId, inputNode, newNodes, startEmpty, list, temp, newNodes2, prev, maxlen)
      decreases ov.Measure() + (if more then 1 else 0)
    {
      LiveFacts(q, ov.sbeg, ov.overlapping, ov.left, ov.right, |newNodes|);
      outputId, list, temp, newNodes2 := MergeStep(isSample, sampleId, outputId, inputNode, newNodes, startEmpty,
                                                   list, temp, newNodes2, prev, maxlen, ov.overlapping, ov.left, ov.right);
      prev := ov.right;
      more := ov.Next();
    }
  }

  /**
   * The tail of merge_ancestors: a sample's ancestry is completed up to
   * maxlen with its own node, and the buffered edges of a parent that has
   * an output node are appended, sorted by child, to newEdges.
   */
  method MergeFinish(maxlen: real, isSample: bool, ghost sampleId: int, outputId: int, ghost inputNode: Node,
                     ghost newNodes0: seq<Node>, ghost startEmpty: bool, list: seq<Segment>, temp: seq<Edge>,
                     ghost newNodes: seq<Node>, prev: real, newEdges: seq<Edge>)
    returns (list2: seq<Segment>, newEdges2: seq<Edge>)
    requires MergeInv(isSample, sampleId, outputId, inputNode, newNodes0, startEmpty, list, temp, newNodes, prev, maxlen)
    ensures SegmentsOk(list2, maxlen, |newNodes|)
    ensures startEmpty ==> Increasing(list2)
    ensures isSample ==> Tiles(list2, maxlen)
    ensures |newEdges2| >= |newEdges| && newEdges2[..|newEdges|] == newEdges
    ensures outputId == NULL ==> newEdges2 == newEdges
    ensures EdgesOk(newEdges2[|newEdges|..], outputId, |newNodes0|, maxlen)
    ensures SortedBy(newEdges2[|newEdges|..], ChildKey)
  {
    list2 := list;
    if isSample && prev != maxlen {
      AddAncestryOk(list, prev, maxlen, outputId, maxlen, |newNodes|);
      list2 := AddAncestry(list, prev, maxlen, outputId).value;
    }
    newEdges2 := newEdges;
    if outputId != NULL {
      var n;
      newEdges2, n := OutputBufferedEdges(newEdges, temp);
      SortedEdgesOk(temp, newEdges2[|newEdges|..], outputId, |newNodes0|, maxlen);
    } else {
      assert newEdges2[|newEdges|..] == [];
    }
  }

  /**
   * merge_ancestors for input node u, whose children's overlapping segments
   * are in the overlapper's finalized queue.  A sample (u already mapped)
   * keeps its node, its ancestry is rebuilt to tile [0, maxlen), and it gets
   * an edge for every interval; a non-sample gets an output node, a copy of
   * its input node, only where two or more segments coalesce, and otherwise
   * passes its child's node up.  The new edges, sorted by child, are
   * appended to newEdges.  The library's erasure of a new node that got no
   * edge cannot happen: a node is created only together with its edges.
   */
  method MergeAncestors(maxlen: real, inputNodes: seq<Node>, u: int, ov: SegmentOverlapper,
                        ancestry: seq<seq<Segment>>, newNodes: seq<Node>, newEdges: seq<Edge>, idmap: seq<int>)
    returns (ancestry2: seq<seq<Segment>>, newNodes2: seq<Node>, newEdges2: seq<Edge>, idmap2: seq<int>)
    requires 0 <= u < |idmap| == |ancestry| == |inputNodes| && 0.0 < maxlen
    requires QueueReady(ov.segmentQueue) && ov.segmentQueue[|ov.segmentQueue| - 1].left == maxlen
    requires QueueNodes(ov.segmentQueue, |newNodes|)
    requires IdmapOk(idmap, |newNodes|) && SegmentsOk(ancestry[u], maxlen, |newNodes|)
    modifies ov
    ensures ov.segmentQueue == old(ov.segmentQueue)
    ensures |ancestry2| == |ancestry| && |idmap2| == |idmap|
    ensures ancestry2 == ancestry[u := ancestry2[u]] && idmap2 == idmap[u := idmap2[u]]
    ensures IdmapOk(idmap2, |newNodes2|) && SegmentsOk(ancestry2[u], maxlen, |newNodes2|)
    ensures ancestry[u] == [] || idmap[u] != NULL ==> Increasing(ancestry2[u])
    ensures idmap[u] != NULL ==> idmap2 == idmap && newNodes2 == newNodes && Tiles(ancestry2[u], maxlen)
    ensures idmap[u] == NULL ==>
      || (newNodes2 == newNodes && idmap2 == idmap && newEdges2 == newEdges)
      || (newNodes2 == newNodes + [inputNodes[u]] && idmap2[u] == |newNodes|)
    ensures |newEdges2| >= |newEdges| && newEdges2[..|newEdges|] == newEdges
    ensures EdgesOk(newEdges2[|newEdges|..], idmap2[u], |newNodes|, maxlen)
    ensures SortedBy(newEdges2[|newEdges|..], ChildKey)
  {
    var outputId := idmap[u];
    var isSample := outputId != NULL;
    if isSample {
      IdmapBound(idmap, |newNodes|, u);
    }
    var list0 := if isSample then [] else ancestry[u];
    var list, temp, nodes, prev;
    outputId, list, temp, nodes, prev :=
      MergeSweep(maxlen, isSample, idmap[u], outputId, inputNodes[u], newNodes, ancestry[u] == [] || isSample, list0, ov);
    ancestry2, newNodes2, newEdges2, idmap2 :=
      MergeRecord(maxlen, inputNodes, u, ancestry, newNodes, newEdges, idmap, outputId, list, temp, nodes, prev);
  }

  /**
   * The end of merge_ancestors once the sweep is over: finish the ancestry
   * list and the parent's edges, and record the list and the node id.
   */
  method MergeRecord(maxlen: real, inputNodes: seq<Node>, u: int, ancestry: seq<seq<Segment>>, newNodes: seq<Node>,
                     newEdges: seq<Edge>, idmap: seq<int>, outputId: int, list: seq<Segment>, temp: seq<Edge>,
                     nodes: seq<Node>, prev: real)
    returns (ancestry2: seq<seq<Segment>>, newNodes2: seq<Node>, newEdges2: seq<Edge>, idmap2: seq<int>)
    requires 0 <= u < |idmap| == |ancestry| == |inputNodes| && IdmapOk(idmap, |newNodes|)
    requires MergeInv(idmap[u] != NULL, idmap[u], outputId, inputNodes[u], newNodes, ancestry[u] == [] || idmap[u] != NULL,
                      list, temp, nodes, prev, maxlen)
    ensures |ancestry2| == |ancestry| && |idmap2| == |idmap|
    ensures ancestry2 == ancestry[u := ancestry2[u]] && idmap2 == idmap[u := idmap2[u]]
    ensures IdmapOk(idmap2, |newNodes2|) && SegmentsOk(ancestry2[u], maxlen, |newNodes2|)
    ensures ancestry[u] == [] || idmap[u] != NULL ==> Increasing(ancestry2[u])
    ensures idmap[u] != NULL ==> idmap2 == idmap && newNodes2 == newNodes && Tiles(ancestry2[u], maxlen)
    ensures idmap[u] == NULL ==>
      || (newNodes2 == newNodes && idmap2 == idmap && newEdges2 == newEdges)
      || (newNodes2 == newNodes + [inputNodes[u]] && idmap2[u] == |newNodes|)
    ensures |newEdges2| >= |newEdges| && newEdges2[..|newEdges|] == newEdges
    ensures EdgesOk(newEdges2[|newEdges|..], idmap2[u], |newNodes|, maxlen)
    ensures SortedBy(newEdges2[|newEdges|..], ChildKey)
  {
    var isSample := idmap[u] != NULL;
    var list2;
    list2, newEdges2 := MergeFinish(maxlen, isSample, idmap[u], outputId, inputNodes[u], newNodes,
                                    ancestry[u] == [] || isSample, list, temp, nodes, prev, newEdges);
    newNodes2 := nodes;
    ancestry2 := ancestry[u := list2];
    idmap2 := idmap[u := outputId];
    if !isSample && outputId != NULL {
      IdmapSet(idmap, |newNodes|, u);
    } else {
      assert idmap2 == idmap;
    }
  }

  /** Sorting buffered edges keeps them well formed. */
  lemma SortedEdgesOk(temp: seq<Edge>, sorted: seq<Edge>, parent: int, n: int, maxlen: real)
    requires EdgesOk(temp, parent, n, maxlen) && multiset(sorted) == multiset(temp)
    ensures EdgesOk(sorted, parent, n, maxlen)
  {
    forall k | 0 <= k < |sorted|
      ensures 0.0 <= sorted[k].left < sorted[k].right <= maxlen && sorted[k].parent == parent && 0 <= sorted[k].child < n
    {
      assert sorted[k] in multiset(temp);
    }
  }
}

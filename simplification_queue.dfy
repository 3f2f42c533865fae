// Filling the segment overlapper's queue for one parent: the parts of its
// children's ancestry that lie under each of its edges (from the edge table
// or from the edge buffer).
module SimplificationQueue {
  import opened Types
  import opened Sorting
  import opened Simplification
  import opened SimplificationBuffers
  import opened SimplificationNodes
  import opened NestedForwardLists
  import opened EdgeBuffer

  function Max(a: real, b: real): real
  {
    if a < b then b else a
  }

  /** The part of a segment that lies in [left, right), when it is not empty. */
  function Piece(seg: Segment, left: real, right: real): seq<Segment>
  {
    if seg.right > left && right > seg.left then [Segment(Max(seg.left, left), Min(seg.right, right), seg.node)] else []
  }

  /** The parts of an ancestry list that lie in [left, right), in list order. */
  function Clip(list: seq<Segment>, left: real, right: real): seq<Segment>
  {
    if list == [] then [] else Clip(list[..|list| - 1], left, right) + Piece(list[|list| - 1], left, right)
  }

  /** Whatever the clipped list maps lies under the edge and is mapped by the list. */
  lemma {:induction false} ClipMapsSound(list: seq<Segment>, left: real, right: real, x: real, n: int)
    requires Maps(Clip(list, left, right), x, n)
    ensures left <= x < right && Maps(list, x, n)
    decreases |list|
  {
    var init, last := list[..|list| - 1], list[|list| - 1];
    var c, p := Clip(init, left, right), Piece(last, left, right);
    var q: seq<Segment> := c + p;
    assert Clip(list, left, right) == q;
    var k: int :| 0 <= k < |q| && q[k].left <= x < q[k].right && q[k].node == n;
    if k < |c| {
      assert c[k] == q[k];
      ClipMapsSound(init, left, right, x, n);
      var j :| 0 <= j < |init| && init[j].left <= x < init[j].right && init[j].node == n;
      assert list[j] == init[j];
    } else {
      assert last.left <= x < last.right && last.node == n;
    }
  }

  /** What the list maps under the edge, the clipped list maps too. */
  lemma {:induction false} ClipMapsComplete(list: seq<Segment>, left: real, right: real, x: real, n: int)
    requires left <= x < right && Maps(list, x, n)
    ensures Maps(Clip(list, left, right), x, n)
    decreases |list|
  {
    var init, last := list[..|list| - 1], list[|list| - 1];
    var c, p := Clip(init, left, right), Piece(last, left, right);
    assert Clip(list, left, right) == c + p;
    var k: int :| 0 <= k < |list| && list[k].left <= x < list[k].right && list[k].node == n;
    if k < |init| {
      assert init[k] == list[k];
      ClipMapsComplete(init, left, right, x, n);
      var j: int :| 0 <= j < |c| && c[j].left <= x < c[j].right && c[j].node == n;
      assert (c + p)[j] == c[j];
    } else {
      assert p == [Segment(Max(last.left, left), Min(last.right, right), n)];
      assert (c + p)[|c|] == p[0];
    }
  }

  /**
   * The clipped list maps x to node n exactly when x lies in [left, right)
   * and the list maps x to n: the queue holds the child's ancestry under
   * the edge and nothing else.
   */
  lemma ClipMaps(list: seq<Segment>, left: real, right: real, x: real, n: int)
    ensures Maps(Clip(list, left, right), x, n) <==> left <= x < right && Maps(list, x, n)
  {
    if Maps(Clip(list, left, right), x, n) {
      ClipMapsSound(list, left, right, x, n);
    }
    if left <= x < right && Maps(list, x, n) {
      ClipMapsComplete(list, left, right, x, n);
    }
  }

  /** Pieces of well-formed segments are well formed, wherever the edge lies. */
  lemma {:induction false} ClipOk(list: seq<Segment>, left: real, right: real, maxlen: real, n: int)
    requires SegmentsOk(list, maxlen, n) && left < right
    ensures SegmentsOk(Clip(list, left, right), maxlen, n)
    decreases |list|
  {
    if list != [] {
      var init := list[..|list| - 1];
      assert forall k :: 0 <= k < |init| ==> init[k] == list[k];
      ClipOk(init, left, right, maxlen, n);
      assert SegmentsOk(Piece(list[|list| - 1], left, right), maxlen, n);
    }
  }

  /** The queue for the edges es: the clipped ancestry of each one's child, in edge order. */
  function EdgesQueue(ancestry: seq<seq<Segment>>, es: seq<Edge>): seq<Segment>
  {
    if es == [] then []
    else
      var e := es[|es| - 1];
      EdgesQueue(ancestry, es[..|es| - 1]) + (if 0 <= e.child < |ancestry| then Clip(ancestry[e.child], e.left, e.right) else [])
  }

  /** The queue for the births bs of one parent. */
  function BirthsQueue(ancestry: seq<seq<Segment>>, bs: seq<BirthData>): seq<Segment>
  {
    if bs == [] then []
    else
      var b := bs[|bs| - 1];
      BirthsQueue(ancestry, bs[..|bs| - 1]) + (if 0 <= b.child < |ancestry| then Clip(ancestry[b.child], b.left, b.right) else [])
  }

  /** The queue for one more edge. */
  lemma EdgesQueueSnoc(ancestry: seq<seq<Segment>>, es: seq<Edge>, e: Edge)
    requires 0 <= e.child < |ancestry|
    ensures EdgesQueue(ancestry, es + [e]) == EdgesQueue(ancestry, es) + Clip(ancestry[e.child], e.left, e.right)
  {
    assert (es + [e])[..|es|] == es;
  }

  /** queue_children for edge e, once the queue holds the edges done. */
  method QueueEdge(e: Edge, ghost done: seq<Edge>, ancestry: seq<seq<Segment>>, ov: SegmentOverlapper, ghost maxlen: real, ghost n: int)
    requires 0 <= e.child < |ancestry| && e.left < e.right
    requires AllSegmentsOk(ancestry, maxlen, n)
    requires ov.segmentQueue == EdgesQueue(ancestry, done)
    modifies ov
    ensures ov.segmentQueue == EdgesQueue(ancestry, done + [e])
  {
    EdgesQueueSnoc(ancestry, done, e);
    QueueChildren(e.child, e.left, e.right, ancestry, ov);
  }

  /** The queue for one more birth of the list. */
  lemma BirthsQueueStep(ancestry: seq<seq<Segment>>, bs: seq<BirthData>, k: int)
    requires 0 <= k < |bs| && 0 <= bs[k].child < |ancestry|
    ensures BirthsQueue(ancestry, bs[..k + 1]) == BirthsQueue(ancestry, bs[..k]) + Clip(ancestry[bs[k].child], bs[k].left, bs[k].right)
  {
    assert bs[..k + 1][..k] == bs[..k];
  }

  /** Every ancestry list is well formed. */
  predicate AllSegmentsOk(ancestry: seq<seq<Segment>>, maxlen: real, n: int)
  {
    forall v :: 0 <= v < |ancestry| ==> SegmentsOk(ancestry[v], maxlen, n)
  }

  lemma {:induction false} EdgesQueueOk(ancestry: seq<seq<Segment>>, es: seq<Edge>, maxlen: real, n: int)
    requires AllSegmentsOk(ancestry, maxlen, n) && forall k :: 0 <= k < |es| ==> es[k].left < es[k].right
    ensures SegmentsOk(EdgesQueue(ancestry, es), maxlen, n)
    decreases |es|
  {
    if es != [] {
      var e := es[|es| - 1];
      EdgesQueueOk(ancestry, es[..|es| - 1], maxlen, n);
      if 0 <= e.child < |ancestry| {
        ClipOk(ancestry[e.child], e.left, e.right, maxlen, n);
      }
    }
  }

  lemma {:induction false} BirthsQueueOk(ancestry: seq<seq<Segment>>, bs: seq<BirthData>, maxlen: real, n: int)
    requires AllSegmentsOk(ancestry, maxlen, n) && forall k :: 0 <= k < |bs| ==> bs[k].left < bs[k].right
    ensures SegmentsOk(BirthsQueue(ancestry, bs), maxlen, n)
    decreases |bs|
  {
    if bs != [] {
      var b := bs[|bs| - 1];
      BirthsQueueOk(ancestry, bs[..|bs| - 1], maxlen, n);
      if 0 <= b.child < |ancestry| {
        ClipOk(ancestry[b.child], b.left, b.right, maxlen, n);
      }
    }
  }

  /** A finalized queue of well-formed segments is ready for the sweep and names existing nodes. */
  lemma FinalizedOk(q: seq<Segment>, maxlen: real, n: int)
    requires 0.0 < maxlen <= MAX_DOUBLE && SegmentsOk(q, maxlen, n)
    ensures var f := SortBy(q, LeftKey) + [Segment(maxlen, maxlen + 1.0, NULL)];
      QueueReady(f) && f[|f| - 1].left == maxlen && QueueNodes(f, n)
  {
    FinalizedReady(q, maxlen);
    var s := SortBy(q, LeftKey);
    var f := s + [Segment(maxlen, maxlen + 1.0, NULL)];
    SortByCorrect(q, LeftKey);
    forall k | 0 <= k < |f| - 1 ensures 0 <= f[k].node < n {
      assert f[k] == s[k] && s[k] in multiset(q);
    }
  }

  /** queue_children: enqueue the part of each of child's segments that lies in [left, right). */
  method QueueChildren(child: int, left: real, right: real, ancestry: seq<seq<Segment>>, ov: SegmentOverlapper)
    requires 0 <= child < |ancestry| && left < right
    requires forall k :: 0 <= k < |ancestry[child]| ==> ancestry[child][k].left < ancestry[child][k].right
    modifies ov
    ensures ov.segmentQueue == old(ov.segmentQueue) + Clip(ancestry[child], left, right)
    ensures ov.overlapping == old(ov.overlapping) && ov.sbeg == old(ov.sbeg) && ov.send == old(ov.send)
    ensures ov.left == old(ov.left) && ov.right == old(ov.right)
  {
    var list := ancestry[child];
    var k := 0;
    while k < |list|
      invariant 0 <= k <= |list|
      invariant ov.segmentQueue == old(ov.segmentQueue) + Clip(list[..k], left, right)
      invariant ov.overlapping == old(ov.overlapping) && ov.sbeg == old(ov.sbeg) && ov.send == old(ov.send)
      invariant ov.left == old(ov.left) && ov.right == old(ov.right)
    {
      var seg := list[k];
      assert list[..k + 1][..k] == list[..k];
      assert Clip(list[..k + 1], left, right) == Clip(list[..k], left, right) + Piece(seg, left, right);
      if seg.right > left && right > seg.left {
        var o := ov.Enqueue(Max(seg.left, left), Min(seg.right, right), seg.node);
        assert o == Done;
      }
      k := k + 1;
    }
    assert list[..k] == list;
  }

  /** The edges of parent u from ptr on, one more of them. */
  lemma RunGrows(edges: seq<Edge>, ptr: nat, done: seq<Edge>, done2: seq<Edge>, u: int)
    requires ptr + |done| < |edges| && edges[ptr + |done|].parent == u && done2 == done + [edges[ptr + |done|]]
    requires forall j :: 0 <= j < |done| ==> done[j] == edges[ptr + j] && done[j].parent == u
    ensures forall j :: 0 <= j < |done2| ==> done2[j] == edges[ptr + j] && done2[j].parent == u
  {
  }

  /** One more edge of parent u's run: queue it and extend the run. */
  method QueueRunEdge(edges: seq<Edge>, ptr: nat, ptr2: nat, u: int, ancestry: seq<seq<Segment>>, ov: SegmentOverlapper,
                      ghost done: seq<Edge>, ghost maxlen: real, ghost n: int)
    returns (ghost done2: seq<Edge>)
    requires ptr <= ptr2 < |edges| && |done| == ptr2 - ptr && edges[ptr2].parent == u
    requires 0 <= edges[ptr2].child < |ancestry| && edges[ptr2].left < edges[ptr2].right
    requires forall j :: 0 <= j < |done| ==> done[j] == edges[ptr + j] && done[j].parent == u
    requires AllSegmentsOk(ancestry, maxlen, n) && ov.segmentQueue == EdgesQueue(ancestry, done)
    modifies ov
    ensures |done2| == ptr2 + 1 - ptr
    ensures forall j :: 0 <= j < |done2| ==> done2[j] == edges[ptr + j] && done2[j].parent == u
    ensures ov.segmentQueue == EdgesQueue(ancestry, done2)
  {
    QueueEdge(edges[ptr2], done, ancestry, ov, maxlen, n);
    done2 := done + [edges[ptr2]];
    RunGrows(edges, ptr, done, done2, u);
  }

  /**
   * Queue the ancestry under edges ptr, ptr + 1, ... before end, for as
   * long as they belong to parent u.
   */
  method QueueRun(edges: seq<Edge>, ptr: nat, end: nat, u: int, ancestry: seq<seq<Segment>>,
                  ov: SegmentOverlapper, ghost maxlen: real, ghost n: int)
    returns (ptr2: nat)
    requires ptr <= end <= |edges| && AllSegmentsOk(ancestry, maxlen, n)
    requires forall k :: ptr <= k < end ==> 0 <= edges[k].child < |ancestry| && edges[k].left < edges[k].right
    requires ov.segmentQueue == []
    modifies ov
    ensures ptr <= ptr2 <= end && (ptr2 < end ==> edges[ptr2].parent != u)
    ensures forall k :: ptr <= k < ptr2 ==> edges[k].parent == u
    ensures ov.segmentQueue == EdgesQueue(ancestry, edges[ptr..ptr2])
  {
    ptr2 := ptr;
    ghost var done: seq<Edge> := [];
    while ptr2 < end && edges[ptr2].parent == u
      invariant ptr <= ptr2 <= end && |done| == ptr2 - ptr
      invariant forall j :: 0 <= j < |done| ==> done[j] == edges[ptr + j] && done[j].parent == u
      invariant ov.segmentQueue == EdgesQueue(ancestry, done)
    {
      done := QueueRunEdge(edges, ptr, ptr2, u, ancestry, ov, done, maxlen, n);
      ptr2 := ptr2 + 1;
    }
    assert done == edges[ptr..ptr2];
  }

  /**
   * find_parent_child_segment_overlap: clear the queue, queue the children's
   * ancestry under every edge of parent u from ptr on, finalize the queue,
   * and return the index of the first edge of another parent.
   */
  method FindParentChildSegmentOverlap(maxlen: real, edges: seq<Edge>, ptr: int, u: int,
                                       ancestry: seq<seq<Segment>>, ov: SegmentOverlapper, ghost n: int)
    returns (ptr2: int)
    requires 0 <= ptr <= |edges| && 0.0 < maxlen <= MAX_DOUBLE && AllSegmentsOk(ancestry, maxlen, n)
    requires forall k :: ptr <= k < |edges| ==> 0 <= edges[k].child < |ancestry| && edges[k].left < edges[k].right
    modifies ov
    ensures ptr <= ptr2 <= |edges| && (ptr2 == |edges| || edges[ptr2].parent != u)
    ensures forall k :: ptr <= k < ptr2 ==> edges[k].parent == u
    ensures ov.segmentQueue == SortBy(EdgesQueue(ancestry, edges[ptr..ptr2]), LeftKey) + [Segment(maxlen, maxlen + 1.0, NULL)]
    ensures QueueReady(ov.segmentQueue) && ov.segmentQueue[|ov.segmentQueue| - 1].left == maxlen
    ensures QueueNodes(ov.segmentQueue, n)
  {
    ov.ClearQueue();
    ptr2 := QueueRun(edges, ptr, |edges|, u, ancestry, ov, maxlen, n);
    EdgesQueueOk(ancestry, edges[ptr..ptr2], maxlen, n);
    FinalizedOk(ov.segmentQueue, maxlen, n);
    ov.FinalizeQueue(maxlen);
  }

  /** Children of the buffered births are rows of the ancestry. */
  predicate BirthsIn(buf: NestedForwardLists<BirthData>, n: int)
    reads buf
  {
    forall d :: 0 <= d < |buf.data| ==> 0 <= buf.data[d].child < n && buf.data[d].left < buf.data[d].right
  }

  /** Reading the k-th birth of list p, at data index x, and the link to the next one. */
  method FetchBirth(x: int, ghost p: int, ghost k: int, buf: NestedForwardLists<BirthData>, ghost numNodes: int)
    returns (b: BirthData, nx: int)
    requires buf.Valid() && 0 <= p < |buf.lists| && 0 <= k < |buf.lists[p]| && x == buf.lists[p][k]
    requires BirthsIn(buf, numNodes)
    ensures b == buf.Contents(p)[k] && 0 <= b.child < numNodes && b.left < b.right
    ensures nx == if k + 1 < |buf.lists[p]| then buf.lists[p][k + 1] else NULL
  {
    NextInList(buf, p, k);
    var birth := buf.Fetch(x);
    var next := buf.Next(x);
    b, nx := birth.value, next.value;
  }

  /** The births a valid buffer lists for one parent are those of its data. */
  lemma ContentsBirthsIn(buf: NestedForwardLists<BirthData>, p: int, n: int)
    requires buf.Valid() && 0 <= p < |buf.lists| && BirthsIn(buf, n)
    ensures forall j :: 0 <= j < |buf.Contents(p)| ==>
      0 <= buf.Contents(p)[j].child < n && buf.Contents(p)[j].left < buf.Contents(p)[j].right
  {
    var births, li := buf.Contents(p), buf.lists[p];
    forall j | 0 <= j < |births| ensures 0 <= births[j].child < n && births[j].left < births[j].right {
      assert births[j] == buf.data[li[j]];
    }
  }

  /** Appending the queue for well-formed births keeps a queue well formed. */
  lemma BirthsQueueAppendOk(q: seq<Segment>, ancestry: seq<seq<Segment>>, bs: seq<BirthData>, maxlen: real, n: int)
    requires SegmentsOk(q, maxlen, n) && AllSegmentsOk(ancestry, maxlen, n)
    requires forall k :: 0 <= k < |bs| ==> bs[k].left < bs[k].right
    ensures SegmentsOk(q + BirthsQueue(ancestry, bs), maxlen, n)
  {
    BirthsQueueOk(ancestry, bs, maxlen, n);
  }

  /** Queueing birth k of a parent's list, once the queue holds the first k. */
  method QueueBirth(b: BirthData, ghost births: seq<BirthData>, ghost k: int, ancestry: seq<seq<Segment>>,
                    ov: SegmentOverlapper, ghost q0: seq<Segment>, ghost maxlen: real, ghost numNodes: int)
    requires 0 <= k < |births| && b == births[k] && 0 <= b.child < |ancestry| && b.left < b.right
    requires AllSegmentsOk(ancestry, maxlen, numNodes)
    requires ov.segmentQueue == q0 + BirthsQueue(ancestry, births[..k])
    modifies ov
    ensures ov.segmentQueue == q0 + BirthsQueue(ancestry, births[..k + 1])
    ensures ov.overlapping == old(ov.overlapping) && ov.sbeg == old(ov.sbeg) && ov.send == old(ov.send)
    ensures ov.left == old(ov.left) && ov.right == old(ov.right)
  {
    BirthsQueueStep(ancestry, births, k);
    QueueChildren(b.child, b.left, b.right, ancestry, ov);
  }

  /**
   * process_births_from_buffer: walk list p of the buffer from its head n
   * and queue each birth's child's ancestry under the birth's interval.
   */
  method ProcessBirthsFromBuffer(n: int, ghost p: int, buf: NestedForwardLists<BirthData>,
                                 ancestry: seq<seq<Segment>>, ov: SegmentOverlapper, ghost maxlen: real, ghost numNodes: int)
    requires buf.Valid() && 0 <= p < |buf.lists| && n == buf.head[p] && BirthsIn(buf, |ancestry|)
    requires AllSegmentsOk(ancestry, maxlen, numNodes)
    modifies ov
    ensures ov.segmentQueue == old(ov.segmentQueue) + BirthsQueue(ancestry, buf.Contents(p))
    ensures SegmentsOk(old(ov.segmentQueue), maxlen, numNodes) ==> SegmentsOk(ov.segmentQueue, maxlen, numNodes)
    ensures ov.overlapping == old(ov.overlapping) && ov.sbeg == old(ov.sbeg) && ov.send == old(ov.send)
    ensures ov.left == old(ov.left) && ov.right == old(ov.right)
  {
    ghost var births := buf.Contents(p);
    ghost var li := buf.lists[p];
    var x := n;
    ghost var k := 0;
    while x != NULL
      invariant 0 <= k <= |li|
      invariant x == (if k < |li| then li[k] else NULL)
      invariant ov.segmentQueue == old(ov.segmentQueue) + BirthsQueue(ancestry, births[..k])
      invariant ov.overlapping == old(ov.overlapping) && ov.sbeg == old(ov.sbeg) && ov.send == old(ov.send)
      invariant ov.left == old(ov.left) && ov.right == old(ov.right)
      decreases |li| - k
    {
      var b;
      b, x := FetchBirth(x, p, k, buf, |ancestry|);
      QueueBirth(b, births, k, ancestry, ov, old(ov.segmentQueue), maxlen, numNodes);
      k := k + 1;
    }
    assert births[..k] == births;
    if SegmentsOk(old(ov.segmentQueue), maxlen, numNodes) {
      ContentsBirthsIn(buf, p, |ancestry|);
      BirthsQueueAppendOk(old(ov.segmentQueue), ancestry, births, maxlen, numNodes);
    }
  }
}

// fwdpp/ts/simplification/simplification.hpp, first part: the segments of
// ancestry, the segment_overlapper that sweeps a parent's queue of child
// segments from left to right, and the small operations simplification
// performs on its buffers (buffer_edge, output_buffered_edges, add_ancestry,
// record_site).

module Simplification {
  import opened Types
  import opened Sorting

  /** simplification::segment: [left, right) of a genome mapped to an output node. */
  datatype Segment = Segment(left: real, right: real, node: int)

  /** The segment constructor throws std::invalid_argument unless left < right. */
  function MakeSegment(l: real, r: real, n: int): (s: Result<Segment>)
    ensures s.Ok? <==> l < r
    ensures s.Ok? ==> s.value.left == l && s.value.right == r && s.value.node == n
    ensures s.Err? ==> s.error == InvalidArgument
  {
    if r <= l then Err(InvalidArgument) else Ok(Segment(l, r, n))
  }

  /** mutation_node_map_entry: a mutation's node, its site and its row in the mutation table. */
  datatype MutationNodeMapEntry = MutationNodeMapEntry(node: int, site: int, location: nat)

  function Min(a: real, b: real): real
  {
    if a <= b then a else b
  }

  /** The smallest right end of a list of segments, std::numeric_limits<double>::max() for none. */
  function MinRight(s: seq<Segment>): real
  {
    if s == [] then MAX_DOUBLE else Min(MinRight(s[..|s| - 1]), s[|s| - 1].right)
  }

  /** MinRight is a lower bound of the right ends, and is one of them unless it is the initial maximum. */
  lemma {:induction false} MinRightBounds(s: seq<Segment>)
    ensures forall k :: 0 <= k < |s| ==> MinRight(s) <= s[k].right
    ensures MinRight(s) == MAX_DOUBLE || exists k :: 0 <= k < |s| && MinRight(s) == s[k].right
  {
    if s != [] {
      var init := s[..|s| - 1];
      MinRightBounds(init);
      assert forall k :: 0 <= k < |init| ==> init[k] == s[k];
    }
  }

  /** The segments of s whose right end lies after x, in their order (what set_partition keeps). */
  function Surviving(s: seq<Segment>, x: real): seq<Segment>
  {
    if s == [] then []
    else Surviving(s[..|s| - 1], x) + (if s[|s| - 1].right > x then [s[|s| - 1]] else [])
  }

  /** The survivors are segments of s reaching past x. */
  lemma {:induction false} SurvivingFacts(s: seq<Segment>, x: real)
    ensures |Surviving(s, x)| <= |s|
    ensures forall k :: 0 <= k < |Surviving(s, x)| ==> Surviving(s, x)[k].right > x && Surviving(s, x)[k] in s
  {
    if s != [] {
      var init := s[..|s| - 1];
      SurvivingFacts(init, x);
      assert forall k :: 0 <= k < |init| ==> init[k] in s;
    }
  }

  /** A segment whose right end is at or before x is dropped. */
  lemma {:induction false} SurvivingDrops(s: seq<Segment>, x: real, k: nat)
    requires k < |s| && s[k].right <= x
    ensures |Surviving(s, x)| < |s|
  {
    var init := s[..|s| - 1];
    SurvivingFacts(init, x);
    if k < |s| - 1 {
      assert init[k] == s[k];
      SurvivingDrops(init, x, k);
    }
  }

  /**
   * The queue as finalize_queue leaves it: sorted by left end, and every
   * segment before the final sentinel is non-empty, starts at or after 0 and
   * ends at or before the sentinel's left end.
   */
  predicate QueueReady(q: seq<Segment>)
  {
    && |q| >= 1
    && (forall i, j :: 0 <= i < j < |q| ==> q[i].left <= q[j].left)
    && (forall i :: 0 <= i < |q| - 1 ==> 0.0 <= q[i].left < q[i].right <= q[|q| - 1].left)
    && q[|q| - 1].left <= MAX_DOUBLE
  }

  /**
   * The sweep's state as segment_overlapper keeps it, with send the index of
   * the sentinel: sbeg has not passed it; live segments come from the queue;
   * while any is live, all of them cover [left, right), which is non-empty
   * and ends at the next queued left end or at the smallest live right end.
   */
  predicate Sweep(q: seq<Segment>, sbeg: int, ov: seq<Segment>, left: real, right: real)
  {
    && QueueReady(q) && 0 <= sbeg <= |q| - 1
    && (forall k :: 0 <= k < |ov| ==> ov[k] in q[..|q| - 1])
    && (ov != [] ==>
          && CoverAll(ov, left, right) && left < right
          && (sbeg < |q| - 1 ==> right <= q[sbeg].left)
          && (right == MinRight(ov) || (sbeg < |q| - 1 && right == q[sbeg].left)))
  }

  /** Every segment covers [left, right). */
  predicate CoverAll(s: seq<Segment>, left: real, right: real)
  {
    forall k :: 0 <= k < |s| ==> s[k].left <= left && right <= s[k].right
  }

  function LeftKey(s: Segment): seq<real>
  {
    [s.left]
  }

  /**
   * segment_overlapper: iterates over the intervals [left, right) on which
   * the set of queued segments overlapping it does not change; `overlapping`
   * is that set (the live part, before overlapping_end).
   */
  class SegmentOverlapper {
    var segmentQueue: seq<Segment>
    var overlapping: seq<Segment>
    var sbeg: int
    var send: int
    var left: real
    var right: real

    predicate Valid()
      reads this
    {
      send == |segmentQueue| - 1 && Sweep(segmentQueue, sbeg, overlapping, left, right)
    }

    /** Every call that starts from a live interval brings this down. */
    function Measure(): int
      reads this
    {
      2 * (send - sbeg) + |overlapping|
    }

    constructor ()
      ensures segmentQueue == [] && overlapping == [] && sbeg == 0 && send == 0
      ensures left == 0.0 && right == MAX_DOUBLE
    {
      segmentQueue, overlapping := [], [];
      sbeg, send := 0, 0;
      left, right := 0.0, MAX_DOUBLE;
    }

    /** init(): rewinds to the start of the queue, whose last entry is the sentinel. */
    method Init()
      requires |segmentQueue| >= 1
      modifies this
      ensures segmentQueue == old(segmentQueue) && overlapping == []
      ensures sbeg == 0 && send == |segmentQueue| - 1 && left == 0.0 && right == MAX_DOUBLE
      ensures QueueReady(segmentQueue) ==> Valid()
    {
      sbeg := 0;
      send := |segmentQueue| - 1;
      overlapping := [];
      left := 0.0;
      right := MAX_DOUBLE;
    }

    /** clear_queue(): empties the queue of segments. */
    method ClearQueue()
      modifies this
      ensures segmentQueue == [] && overlapping == old(overlapping)
      ensures sbeg == old(sbeg) && send == old(send) && left == old(left) && right == old(right)
    {
      segmentQueue := [];
    }

    /** enqueue(l, r, n): constructs the segment in place, so it throws unless l < r. */
    method Enqueue(l: real, r: real, n: int) returns (o: Outcome)
      modifies this
      ensures o == Done <==> l < r
      ensures o != Done ==> o == Fail(InvalidArgument) && segmentQueue == old(segmentQueue)
      ensures o == Done ==> segmentQueue == old(segmentQueue) + [Segment(l, r, n)]
      ensures overlapping == old(overlapping)
      ensures sbeg == old(sbeg) && send == old(send) && left == old(left) && right == old(right)
    {
      var seg := MakeSegment(l, r, n);
      if seg.Err? {
        return Fail(seg.error);
      }
      segmentQueue := segmentQueue + [seg.value];
      o := Done;
    }

    /** finalize_queue(maxlen): sorts the queue by left end and appends the sentinel [maxlen, maxlen + 1). */
    method FinalizeQueue(maxlen: real)
      modifies this
      ensures segmentQueue == SortBy(old(segmentQueue), LeftKey) + [Segment(maxlen, maxlen + 1.0, NULL)]
      ensures overlapping == old(overlapping)
      ensures sbeg == old(sbeg) && send == old(send) && left == old(left) && right == old(right)
    {
      segmentQueue := SortBy(segmentQueue, LeftKey) + [Segment(maxlen, maxlen + 1.0, NULL)];
    }

    /** num_overlaps(): the number of live segments. */
    function NumOverlaps(): (n: int)
      reads this
      ensures n == |overlapping| && n >= 0
    {
      |overlapping|
    }

    /** set_partition(): keeps the live segments that reach past left; returns their smallest right end. */
    method SetPartition() returns (tright: real)
      modifies this
      ensures overlapping == Surviving(old(overlapping), left) && tright == MinRight(overlapping)
      ensures segmentQueue == old(segmentQueue) && sbeg == old(sbeg) && send == old(send)
      ensures left == old(left) && right == old(right)
    {
      overlapping, tright := Partition(overlapping, left);
    }

    /**
     * operator(): advances to the next interval.  It returns true exactly
     * when some segment is live; the live segments then cover the new
     * interval, which starts at or after the previous one's end.
     */
    method Next() returns (r: bool)
      requires Valid()
      modifies this
      ensures Valid() && segmentQueue == old(segmentQueue) && send == old(send)
      ensures r <==> overlapping != []
      ensures r ==> left < right && CoverAll(overlapping, left, right)
      ensures r && old(overlapping) != [] ==> old(right) <= left
      ensures !r ==> sbeg == send
      ensures Measure() <= old(Measure()) && (r || old(overlapping) != [] ==> Measure() < old(Measure()))
    {
      if sbeg < send {
        StartStep();
        r := true;
      } else {
        left := right;
        right := MAX_DOUBLE;
        var tright := SetPartition();
        EndSound(segmentQueue, sbeg, old(overlapping), old(left), old(right), overlapping, tright);
        if |overlapping| > 0 {
          right := tright;
          r := true;
        } else {
          r := false;
        }
      }
    }

    /** The branch of operator() taken while queued segments remain. */
    method StartStep()
      requires Valid() && sbeg < send
      modifies this
      ensures Valid() && segmentQueue == old(segmentQueue) && send == old(send)
      ensures overlapping != [] && left < right && CoverAll(overlapping, left, right)
      ensures old(overlapping) != [] ==> old(right) <= left
      ensures Measure() < old(Measure())
    {
      var ov2, s1, l1, r1 := StartValues(segmentQueue, sbeg, overlapping, left, right);
      overlapping, sbeg, left, right := ov2, s1, l1, r1;
    }
  }

  /**
   * The queued branch of operator() on the sweep's values: drop the live
   * segments that end at the old right end, take in the queued ones that
   * start at the new left end, and close the interval at the next boundary.
   */
  method StartValues(q: seq<Segment>, s0: int, ov: seq<Segment>, l: real, r: real)
    returns (ov2: seq<Segment>, s1: int, l1: real, r1: real)
    requires Sweep(q, s0, ov, l, r) && s0 < |q| - 1
    ensures Sweep(q, s1, ov2, l1, r1)
    ensures ov2 != [] && l1 < r1 && CoverAll(ov2, l1, r1)
    ensures ov != [] ==> r <= l1
    ensures 2 * (|q| - 1 - s1) + |ov2| < 2 * (|q| - 1 - s0) + |ov|
  {
    var kept, tright := Partition(ov, r);
    l1 := if |kept| == 0 then q[s0].left else r;
    var tright2;
    ov2, s1, tright2 := Starting(q, s0, |q| - 1, kept, l1, tright);
    r1 := Min(q[s1].left, tright2);
    StartSound(q, s0, ov, l, r, kept, l1, s1, ov2, tright2, r1);
  }

  /** The loop of set_partition over the live segments ov, with left end x. */
  method Partition(ov: seq<Segment>, x: real) returns (kept: seq<Segment>, tright: real)
    ensures kept == Surviving(ov, x) && tright == MinRight(kept)
  {
    kept := [];
    tright := MAX_DOUBLE;
    var i := 0;
    while i < |ov|
      invariant 0 <= i <= |ov|
      invariant kept == Surviving(ov[..i], x) && tright == MinRight(kept)
    {
      assert ov[..i + 1][..i] == ov[..i] && ov[..i + 1][i] == ov[i];
      assert Surviving(ov[..i + 1], x) == Surviving(ov[..i], x) + (if ov[i].right > x then [ov[i]] else []);
      if ov[i].right > x {
        assert (kept + [ov[i]])[..|kept|] == kept;
        assert MinRight(kept + [ov[i]]) == Min(MinRight(kept), ov[i].right);
        kept := kept + [ov[i]];
        tright := Min(tright, ov[i].right);
      }
      i := i + 1;
    }
    assert ov[..i] == ov;
  }

  /**
   * The while loop of operator(): from index i0, moves every queued segment
   * that starts at l into the live set, stopping at the sentinel index n.
   */
  method Starting(q: seq<Segment>, i0: int, n: int, ov: seq<Segment>, l: real, tright: real)
    returns (ov2: seq<Segment>, i: int, tright2: real)
    requires 0 <= i0 <= n < |q| && tright == MinRight(ov)
    ensures i0 <= i <= n && (i == n || q[i].left != l)
    ensures ov2 == ov + q[i0..i] && tright2 == MinRight(ov2)
    ensures forall k :: i0 <= k < i ==> q[k].left == l
  {
    ov2, i, tright2 := ov, i0, tright;
    while i < n && q[i].left == l
      invariant i0 <= i <= n
      invariant ov2 == ov + q[i0..i] && tright2 == MinRight(ov2)
      invariant forall k :: i0 <= k < i ==> q[k].left == l
      decreases n - i
    {
      tright2 := Min(tright2, q[i].right);
      assert q[i0..i + 1] == q[i0..i] + [q[i]];
      assert (ov2 + [q[i]])[..|ov2|] == ov2;
      ov2 := ov2 + [q[i]];
      i := i + 1;
    }
  }

  /**
   * A queue of non-empty segments inside [0, maxlen] is ready for the sweep
   * once finalize_queue has run, and it holds the same segments.
   */
  lemma FinalizedReady(q: seq<Segment>, maxlen: real)
    requires maxlen <= MAX_DOUBLE
    requires forall k :: 0 <= k < |q| ==> 0.0 <= q[k].left < q[k].right <= maxlen
    ensures var f := SortBy(q, LeftKey) + [Segment(maxlen, maxlen + 1.0, NULL)];
      QueueReady(f) && multiset(f[..|f| - 1]) == multiset(q)
  {
    var s := SortBy(q, LeftKey);
    var f := s + [Segment(maxlen, maxlen + 1.0, NULL)];
    SortByCorrect(q, LeftKey);
    assert f[..|f| - 1] == s;
    forall i | 0 <= i < |s| ensures 0.0 <= s[i].left < s[i].right <= maxlen {
      assert s[i] in multiset(q);
    }
    forall i, j | 0 <= i < j < |f| ensures f[i].left <= f[j].left {
      if j < |s| {
        assert !LexLess(LeftKey(s[j]), LeftKey(s[i]));
      }
    }
  }

  /** A queued segment before the sentinel is non-empty and lies in [0, the sentinel's left end]. */
  lemma Queued(q: seq<Segment>, x: Segment)
    requires QueueReady(q) && x in q[..|q| - 1]
    ensures 0.0 <= x.left < x.right <= q[|q| - 1].left <= MAX_DOUBLE
  {
    var i :| 0 <= i < |q| - 1 && q[..|q| - 1][i] == x;
    assert q[i] == x;
  }

  /** With every right end representable, the smallest one is attained. */
  lemma MinRightAttained(s: seq<Segment>)
    requires s != [] && forall k :: 0 <= k < |s| ==> s[k].right <= MAX_DOUBLE
    ensures exists k :: 0 <= k < |s| && MinRight(s) == s[k].right
  {
    MinRightBounds(s);
    if MinRight(s) == MAX_DOUBLE {
      assert MinRight(s) == s[0].right;
    }
  }

  /**
   * The segments live after the queued branch: each comes from the queue
   * and reaches past the new left end l1, which it covers.
   */
  lemma StartLive(q: seq<Segment>, s0: int, ov0: seq<Segment>, l0: real, r0: real, kept: seq<Segment>,
                  l1: real, sbeg: int, ov: seq<Segment>)
    requires Sweep(q, s0, ov0, l0, r0) && s0 < |q| - 1
    requires kept == Surviving(ov0, r0)
    requires l1 == if kept == [] then q[s0].left else r0
    requires s0 <= sbeg <= |q| - 1
    requires forall k :: s0 <= k < sbeg ==> q[k].left == l1
    requires ov == kept + q[s0..sbeg]
    ensures forall k :: 0 <= k < |ov| ==> ov[k] in q[..|q| - 1]
    ensures forall k :: 0 <= k < |ov| ==> ov[k].left <= l1 < ov[k].right
    ensures forall k :: 0 <= k < |ov| ==> ov[k].right <= q[|q| - 1].left
  {
    SurvivingFacts(ov0, r0);
    var n := |q| - 1;
    forall k | 0 <= k < |ov|
      ensures ov[k] in q[..n] && ov[k].left <= l1 < ov[k].right && ov[k].right <= q[n].left
    {
      if k < |kept| {
        assert ov[k] == kept[k] && kept[k] in ov0;
        var j :| 0 <= j < |ov0| && ov0[j] == kept[k];
        Queued(q, ov0[j]);
      } else {
        var i := s0 + k - |kept|;
        assert ov[k] == q[i] && i < n;
        assert q[..n][i] == q[i];
        Queued(q, q[i]);
      }
    }
  }

  /** The queued branch of operator() keeps the sweep's invariant and makes progress. */
  lemma StartSound(q: seq<Segment>, s0: int, ov0: seq<Segment>, l0: real, r0: real, kept: seq<Segment>,
                   l1: real, sbeg: int, ov: seq<Segment>, tright: real, right: real)
    requires Sweep(q, s0, ov0, l0, r0) && s0 < |q| - 1
    requires kept == Surviving(ov0, r0)
    requires l1 == if kept == [] then q[s0].left else r0
    requires s0 <= sbeg <= |q| - 1 && (sbeg == |q| - 1 || q[sbeg].left != l1)
    requires forall k :: s0 <= k < sbeg ==> q[k].left == l1
    requires ov == kept + q[s0..sbeg] && tright == MinRight(ov) && right == Min(q[sbeg].left, tright)
    ensures Sweep(q, sbeg, ov, l1, right)
    ensures ov != [] && l1 < right && CoverAll(ov, l1, right)
    ensures ov0 != [] ==> r0 <= l1
    ensures 2 * (|q| - 1 - sbeg) + |ov| < 2 * (|q| - 1 - s0) + |ov0|
  {
    var n := |q| - 1;
    StartLive(q, s0, ov0, l0, r0, kept, l1, sbeg, ov);
    assert sbeg == s0 ==> kept != [] && r0 < q[s0].left;
    assert ov != [];
    assert l1 < ov[0].right && ov[0].right <= q[n].left;
    SurvivingFacts(ov0, r0);
    MinRightBounds(ov);
    MinRightAttained(ov);
    var w :| 0 <= w < |ov| && tright == ov[w].right;
    assert l1 < tright;
    if sbeg == n {
    } else if sbeg > s0 {
      assert q[sbeg - 1].left == l1 && q[sbeg - 1].left <= q[sbeg].left;
    } else {
      assert l1 == r0 && r0 <= q[s0].left;
    }
    assert l1 < right;
    assert CoverAll(ov, l1, right);
    assert right == MinRight(ov) || (sbeg < n && right == q[sbeg].left) by {
      if sbeg == n {
        assert tright <= ov[0].right <= q[n].left;
      }
    }
    assert forall k :: 0 <= k < |ov| ==> ov[k] in q[..n];
    if sbeg == s0 {
      var j :| 0 <= j < |ov0| && r0 == ov0[j].right by {
        MinRightAttained(ov0);
        var i :| 0 <= i < |ov0| && ov0[i] in q[..n];
        Queued(q, ov0[i]);
      }
      SurvivingDrops(ov0, r0, j);
    }
  }

  /** The last branch of operator() keeps the sweep's invariant and makes progress while segments are live. */
  lemma EndSound(q: seq<Segment>, sbeg: int, ov0: seq<Segment>, l0: real, r0: real, kept: seq<Segment>, tright: real)
    requires Sweep(q, sbeg, ov0, l0, r0) && sbeg == |q| - 1
    requires kept == Surviving(ov0, r0) && tright == MinRight(kept)
    ensures kept != [] ==> Sweep(q, sbeg, kept, r0, tright) && r0 < tright && CoverAll(kept, r0, tright)
    ensures ov0 != [] ==> |kept| < |ov0|
  {
    SurvivingFacts(ov0, r0);
    MinRightBounds(kept);
    var n := |q| - 1;
    if ov0 != [] {
      forall k | 0 <= k < |ov0| ensures ov0[k].right <= MAX_DOUBLE {
        Queued(q, ov0[k]);
      }
      MinRightAttained(ov0);
      var j :| 0 <= j < |ov0| && r0 == ov0[j].right;
      SurvivingDrops(ov0, r0, j);
    }
    if kept != [] {
      forall k | 0 <= k < |kept| ensures kept[k].right <= MAX_DOUBLE && kept[k] in q[..n] {
        assert kept[k] in ov0;
        var j :| 0 <= j < |ov0| && ov0[j] == kept[k];
        Queued(q, ov0[j]);
      }
      MinRightAttained(kept);
    }
  }
}

module SimplificationBuffers {
  import opened Types
  import opened Sorting
  import opened Simplification

  // buffer_edge

  /** The index of the last edge of temp whose child is c, or -1 (the reverse std::find_if). */
  function LastOfChild(temp: seq<Edge>, c: int): (j: int)
    ensures -1 <= j < |temp|
    ensures j >= 0 ==> temp[j].child == c
    ensures forall k :: j < k < |temp| ==> temp[k].child != c
  {
    if temp == [] then -1
    else if temp[|temp| - 1].child == c then |temp| - 1
    else LastOfChild(temp[..|temp| - 1], c)
  }

  /** Some buffered edge of child c covers position x. */
  predicate Covers(temp: seq<Edge>, c: int, x: real)
  {
    exists k :: 0 <= k < |temp| && temp[k].child == c && temp[k].left <= x < temp[k].right
  }

  /** Every buffered edge spans a non-empty interval. */
  predicate NonEmptyEdges(temp: seq<Edge>)
  {
    forall k :: 0 <= k < |temp| ==> temp[k].left < temp[k].right
  }

  /**
   * buffer_edge: the last buffered edge for the same child is extended to
   * right when it ends exactly at left; otherwise a new edge is appended.
   */
  method BufferEdge(temp: seq<Edge>, left: real, right: real, parent: int, child: int) returns (temp2: seq<Edge>)
    ensures var j := LastOfChild(temp, child);
      if j >= 0 && temp[j].right == left then temp2 == temp[j := temp[j].(right := right)]
      else temp2 == temp + [Edge(left, right, parent, child)]
  {
    var i := |temp|;
    while i > 0 && temp[i - 1].child != child
      invariant 0 <= i <= |temp|
      invariant LastOfChild(temp, child) == LastOfChild(temp[..i], child)
      decreases i
    {
      assert temp[..i - 1] == temp[..i][..i - 1];
      i := i - 1;
    }
    if i > 0 && temp[i - 1].right == left {
      temp2 := temp[i - 1 := temp[i - 1].(right := right)];
    } else {
      temp2 := temp + [Edge(left, right, parent, child)];
    }
  }

  /**
   * Buffering [left, right) for child c adds exactly that interval to what
   * the buffer covers for c, keeps every edge non-empty and adds at most one
   * edge.
   */
  lemma BufferEdgeCovers(temp: seq<Edge>, left: real, right: real, parent: int, child: int, temp2: seq<Edge>, c: int, x: real)
    requires NonEmptyEdges(temp) && left < right
    requires var j := LastOfChild(temp, child);
      if j >= 0 && temp[j].right == left then temp2 == temp[j := temp[j].(right := right)]
      else temp2 == temp + [Edge(left, right, parent, child)]
    ensures Covers(temp2, c, x) <==> Covers(temp, c, x) || (c == child && left <= x < right)
    ensures NonEmptyEdges(temp2) && |temp| <= |temp2| <= |temp| + 1 && temp2 != []
  {
    var j := LastOfChild(temp, child);
    if j >= 0 && temp[j].right == left {
      if Covers(temp2, c, x) {
        var k :| 0 <= k < |temp2| && temp2[k].child == c && temp2[k].left <= x < temp2[k].right;
        if k != j {
          assert temp[k] == temp2[k];
        } else if x < left {
          assert temp[j].left <= x < temp[j].right;
        }
      }
      if Covers(temp, c, x) {
        var k :| 0 <= k < |temp| && temp[k].child == c && temp[k].left <= x < temp[k].right;
        assert temp2[k].left <= x < temp2[k].right;
      }
      if c == child && left <= x < right {
        assert temp2[j].left <= x < temp2[j].right;
      }
    } else {
      if Covers(temp2, c, x) {
        var k :| 0 <= k < |temp2| && temp2[k].child == c && temp2[k].left <= x < temp2[k].right;
        if k < |temp| {
          assert temp[k] == temp2[k];
        }
      }
      if Covers(temp, c, x) {
        var k :| 0 <= k < |temp| && temp[k].child == c && temp[k].left <= x < temp[k].right;
        assert temp2[k] == temp[k];
      }
      if c == child && left <= x < right {
        assert temp2[|temp|].left <= x < temp2[|temp|].right;
      }
    }
  }

  // output_buffered_edges

  function ChildKey(e: Edge): seq<real>
  {
    [e.child as real]
  }

  function ChildIs(c: int): Edge -> bool
  {
    (e: Edge) => e.child == c
  }

  /** output_buffered_edges: stable-sorts the buffer by child, appends it to the new edges and returns its length. */
  method OutputBufferedEdges(newEdges: seq<Edge>, temp: seq<Edge>) returns (newEdges2: seq<Edge>, n: nat)
    ensures |newEdges2| == |newEdges| + |temp| && n == |temp|
    ensures newEdges2[..|newEdges|] == newEdges
    ensures SortedBy(newEdges2[|newEdges|..], ChildKey)
    ensures multiset(newEdges2[|newEdges|..]) == multiset(temp)
    ensures forall c :: Filter(newEdges2[|newEdges|..], ChildIs(c)) == Filter(temp, ChildIs(c))
  {
    var sorted := SortBy(temp, ChildKey);
    SortByCorrect(temp, ChildKey);
    forall c ensures Filter(sorted, ChildIs(c)) == Filter(temp, ChildIs(c)) {
      SortByStable(temp, c);
    }
    newEdges2 := newEdges + sorted;
    assert newEdges2[..|newEdges|] == newEdges && newEdges2[|newEdges|..] == sorted;
    n := |temp|;
  }

  /** Inserting an edge of another child leaves the edges of child c as they were. */
  lemma {:induction false} InsertOther(x: Edge, s: seq<Edge>, c: int)
    requires x.child != c
    ensures Filter(Insert(x, s, ChildKey), ChildIs(c)) == Filter(s, ChildIs(c))
  {
    if s != [] && LexLess(ChildKey(s[0]), ChildKey(x)) {
      InsertOther(x, s[1..], c);
      assert Insert(x, s, ChildKey) == [s[0]] + Insert(x, s[1..], ChildKey);
      assert ([s[0]] + Insert(x, s[1..], ChildKey))[1..] == Insert(x, s[1..], ChildKey);
    } else if s != [] {
      assert ([x] + s)[1..] == s;
    }
  }

  /** An edge of child c goes before every edge of child c already in place. */
  lemma {:induction false} InsertSame(x: Edge, s: seq<Edge>, c: int)
    requires x.child == c
    ensures Filter(Insert(x, s, ChildKey), ChildIs(c)) == [x] + Filter(s, ChildIs(c))
  {
    if s != [] && LexLess(ChildKey(s[0]), ChildKey(x)) {
      InsertSame(x, s[1..], c);
      assert !LexLess(ChildKey(s[0])[1..], ChildKey(x)[1..]);
      assert s[0].child != c;
      assert Insert(x, s, ChildKey) == [s[0]] + Insert(x, s[1..], ChildKey);
      assert ([s[0]] + Insert(x, s[1..], ChildKey))[1..] == Insert(x, s[1..], ChildKey);
    } else if s != [] {
      assert ([x] + s)[1..] == s;
    }
  }

  /** The sort is stable: the edges of each child keep their buffered order. */
  lemma {:induction false} SortByStable(temp: seq<Edge>, c: int)
    ensures Filter(SortBy(temp, ChildKey), ChildIs(c)) == Filter(temp, ChildIs(c))
  {
    if temp != [] {
      SortByStable(temp[1..], c);
      if temp[0].child == c {
        InsertSame(temp[0], SortBy(temp[1..], ChildKey), c);
      } else {
        InsertOther(temp[0], SortBy(temp[1..], ChildKey), c);
      }
    }
  }

  // add_ancestry

  /**
   * add_ancestry on the list of one input node: a segment that starts where
   * the last one ends and maps to the same node extends it; otherwise a new
   * segment is appended, whose constructor throws unless left < right.
   */
  function AddAncestry(list: seq<Segment>, left: real, right: real, node: int): (r: Result<seq<Segment>>)
    ensures r.Err? <==> right <= left && !(list != [] && list[|list| - 1].right == left && list[|list| - 1].node == node)
    ensures r.Err? ==> r.error == InvalidArgument
    ensures r.Ok? ==> |list| <= |r.value| <= |list| + 1 && r.value != []
    ensures r.Ok? && list != [] ==> r.value[..|list| - 1] == list[..|list| - 1]
    ensures r.Ok? ==> r.value[|r.value| - 1].right == right && r.value[|r.value| - 1].node == node
  {
    if list != [] && list[|list| - 1].right == left && list[|list| - 1].node == node then
      Ok(list[|list| - 1 := list[|list| - 1].(right := right)])
    else
      match MakeSegment(left, right, node)
      case Ok(seg) => Ok(list + [seg])
      case Err(e) => Err(e)
  }

  /** Some segment of the list maps x to node n. */
  predicate Maps(list: seq<Segment>, x: real, n: int)
  {
    exists k :: 0 <= k < |list| && list[k].left <= x < list[k].right && list[k].node == n
  }

  /** Segments non-empty and in increasing, non-overlapping order. */
  predicate Increasing(list: seq<Segment>)
  {
    && (forall k :: 0 <= k < |list| ==> list[k].left < list[k].right)
    && (forall i, j :: 0 <= i < j < |list| ==> list[i].right <= list[j].left)
  }

  /** The end of the last segment, 0 for an empty list. */
  function End(list: seq<Segment>): real
  {
    if list == [] then 0.0 else list[|list| - 1].right
  }

  /**
   * Appending [left, right) at or after the end of an increasing list
   * succeeds, keeps it increasing, ends it at right, and maps exactly the
   * positions it mapped before plus [left, right) to node.
   */
  lemma AddAncestryMaps(list: seq<Segment>, left: real, right: real, node: int, x: real, n: int)
    requires Increasing(list) && End(list) <= left < right
    ensures AddAncestry(list, left, right, node).Ok?
    ensures var l2 := AddAncestry(list, left, right, node).value;
      && Increasing(l2) && End(l2) == right && l2 != []
      && (Maps(l2, x, n) <==> Maps(list, x, n) || (n == node && left <= x < right))
  {
    if list != [] && list[|list| - 1].right == left && list[|list| - 1].node == node {
      MergeMaps(list, left, right, node, x, n);
    } else {
      AppendMaps(list, left, right, node, x, n);
    }
  }

  lemma MergeMaps(list: seq<Segment>, left: real, right: real, node: int, x: real, n: int)
    requires Increasing(list) && End(list) <= left < right
    requires list != [] && list[|list| - 1].right == left && list[|list| - 1].node == node
    ensures var l2 := list[|list| - 1 := list[|list| - 1].(right := right)];
      && Increasing(l2) && End(l2) == right
      && (Maps(l2, x, n) <==> Maps(list, x, n) || (n == node && left <= x < right))
  {
    MergeIncreasing(list, left, right);
    MergeCovers(list, left, right, node, x, n);
  }

  /** Stretching the last segment to right keeps the list increasing. */
  lemma MergeIncreasing(list: seq<Segment>, left: real, right: real)
    requires Increasing(list) && End(list) <= left < right
    requires list != [] && list[|list| - 1].right == left
    ensures var l2 := list[|list| - 1 := list[|list| - 1].(right := right)];
      Increasing(l2) && End(l2) == right
  {
    var m := |list| - 1;
    var l2 := list[m := list[m].(right := right)];
    forall i, j | 0 <= i < j < |l2| ensures l2[i].right <= l2[j].left {
      assert l2[i] == list[i];
    }
  }

  /** Stretching the last segment, of node, from left to right maps [left, right) to node in addition. */
  lemma MergeCovers(list: seq<Segment>, left: real, right: real, node: int, x: real, n: int)
    requires list != [] && list[|list| - 1].left < list[|list| - 1].right == left < right && list[|list| - 1].node == node
    ensures var l2 := list[|list| - 1 := list[|list| - 1].(right := right)];
      Maps(l2, x, n) <==> Maps(list, x, n) || (n == node && left <= x < right)
  {
    var m := |list| - 1;
    var l2 := list[m := list[m].(right := right)];
    if Maps(l2, x, n) {
      var k :| 0 <= k < |l2| && l2[k].left <= x < l2[k].right && l2[k].node == n;
      if k != m {
        assert list[k] == l2[k];
      } else if x < left {
        assert list[m].left <= x < list[m].right;
      }
    }
    if Maps(list, x, n) {
      var k :| 0 <= k < |list| && list[k].left <= x < list[k].right && list[k].node == n;
      assert l2[k].left <= x < l2[k].right;
    }
    if n == node && left <= x < right {
      assert l2[m].left <= x < l2[m].right;
    }
  }

  lemma AppendMaps(list: seq<Segment>, left: real, right: real, node: int, x: real, n: int)
    requires Increasing(list) && End(list) <= left < right
    ensures var l2 := list + [Segment(left, right, node)];
      && Increasing(l2) && End(l2) == right
      && (Maps(l2, x, n) <==> Maps(list, x, n) || (n == node && left <= x < right))
  {
    AppendIncreasing(list, left, right, node);
    AppendCovers(list, left, right, node, x, n);
  }

  /** A segment at or after the end of an increasing list keeps it increasing. */
  lemma AppendIncreasing(list: seq<Segment>, left: real, right: real, node: int)
    requires Increasing(list) && End(list) <= left < right
    ensures var l2 := list + [Segment(left, right, node)];
      Increasing(l2) && End(l2) == right
  {
    var l2 := list + [Segment(left, right, node)];
    forall i, j | 0 <= i < j < |l2| ensures l2[i].right <= l2[j].left {
      if j == |list| && i < j - 1 {
        assert list[i].right <= list[j - 1].left;
      }
    }
  }

  /** A segment [left, right) of node appended to the list maps [left, right) to node in addition. */
  lemma AppendCovers(list: seq<Segment>, left: real, right: real, node: int, x: real, n: int)
    ensures var l2 := list + [Segment(left, right, node)];
      Maps(l2, x, n) <==> Maps(list, x, n) || (n == node && left <= x < right)
  {
    var l2 := list + [Segment(left, right, node)];
    if Maps(l2, x, n) {
      var k :| 0 <= k < |l2| && l2[k].left <= x < l2[k].right && l2[k].node == n;
      if k < |list| {
        assert list[k] == l2[k];
      }
    }
    if Maps(list, x, n) {
      var k :| 0 <= k < |list| && list[k].left <= x < list[k].right && list[k].node == n;
      assert l2[k] == list[k];
    }
    if n == node && left <= x < right {
      assert l2[|list|].left <= x < l2[|list|].right;
    }
  }

  // record_site

  /**
   * record_site: copies the mutation's site to the new site table unless the
   * last new site has the same position, and repoints the mutation to the
   * last new site.
   */
  method RecordSite(sites: seq<Site>, newSites: seq<Site>, mr: MutationRecord) returns (newSites2: seq<Site>, mr2: MutationRecord)
    requires 0 <= mr.site < |sites|
    ensures newSites2 == if newSites == [] || newSites[|newSites| - 1].position != sites[mr.site].position
      then newSites + [sites[mr.site]] else newSites
    ensures mr2 == mr.(site := |newSites2| - 1)
    ensures newSites2[mr2.site].position == sites[mr.site].position
  {
    var pos := sites[mr.site].position;
    newSites2 := newSites;
    if newSites2 == [] || newSites2[|newSites2| - 1].position != pos {
      newSites2 := newSites2 + [sites[mr.site]];
    }
    mr2 := mr.(site := |newSites2| - 1);
  }

  /** Sites in strictly increasing order of position. */
  predicate StrictlySorted(sites: seq<Site>)
  {
    forall i, j :: 0 <= i < j < |sites| ==> sites[i].position < sites[j].position
  }

  /** Fed mutations in non-decreasing position order, record_site never records two sites at one position. */
  lemma RecordSiteSorted(sites: seq<Site>, newSites: seq<Site>, mr: MutationRecord, newSites2: seq<Site>)
    requires 0 <= mr.site < |sites| && StrictlySorted(newSites)
    requires newSites != [] ==> newSites[|newSites| - 1].position <= sites[mr.site].position
    requires newSites2 == if newSites == [] || newSites[|newSites| - 1].position != sites[mr.site].position
      then newSites + [sites[mr.site]] else newSites
    ensures StrictlySorted(newSites2) && newSites2 != [] && newSites2[|newSites2| - 1].position == sites[mr.site].position
  {
  }
}

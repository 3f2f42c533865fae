// fwdpp/ts/detail/advance_marginal_tree_policies.hpp: what the tree
// visitor does to the ancestors of an edge's parent when the edge leaves or
// enters the tree: leaf counts move along the ancestor path, and the
// sample lists are rebuilt from the children's up to the root.

module AdvancePolicies {
  import opened Types
  import opened MarginalTree

  /** counts moved by d at every node of path, once per occurrence. */
  function Shifted(counts: seq<int>, path: seq<int>, d: int): (r: seq<int>)
    ensures |r| == |counts|
  {
    seq(|counts|, a requires 0 <= a < |counts| => counts[a] + multiset(path)[a] * d)
  }

  /** Moving along one more node of the path. */
  lemma ShiftedStep(counts: seq<int>, done: seq<int>, p: int, d: int)
    requires 0 <= p < |counts|
    ensures Shifted(counts, done + [p], d) == Shifted(counts, done, d)[p := Shifted(counts, done, d)[p] + d]
  {
    assert multiset(done + [p]) == multiset(done) + multiset{p};
  }

  /** Moving along no node at all. */
  lemma ShiftedNone(counts: seq<int>, d: int)
    ensures Shifted(counts, [], d) == counts
  {
  }

  /** Moving along the prefix of path one node longer: one more entry of counts changes. */
  lemma ShiftedPrefix(counts: seq<int>, path: seq<int>, i: nat, p: int, d: int, shifted: seq<int>)
    requires i < |path| && p == path[i] && 0 <= p < |counts| && shifted == Shifted(counts, path[..i], d)
    ensures shifted[p := shifted[p] + d] == Shifted(counts, path[..i + 1], d)
  {
    assert path[..i + 1] == path[..i] + [path[i]];
    ShiftedStep(counts, path[..i], path[i], d);
  }

  /**
   * The effect of moving child's leaf counts, scaled by sign, onto the
   * ancestors of parent: nothing when the child counts no leaves at all.
   */
  function LeafCountsMoved(t: Tree, parent: int, child: int, sign: int): Tree
    requires Shaped(t) && 0 <= child < NumNodes(t)
  {
    var lc := t.leafCounts[child];
    var plc := t.preservedLeafCounts[child];
    var path := Ancestors(t, parent).nodes;
    if lc + plc == 0 then t
    else t.(leafCounts := Shifted(t.leafCounts, path, sign * lc),
            preservedLeafCounts := Shifted(t.preservedLeafCounts, path, sign * plc))
  }

  /** The loop both policies share: add dl and dp at p and each of its ancestors. */
  method AddAlongAncestors(t: Tree, parent: int, dl: int, dp: int) returns (t2: Tree)
    requires Shaped(t) && Ancestors(t, parent).stop == AtEnd
    ensures t2 == t.(leafCounts := Shifted(t.leafCounts, Ancestors(t, parent).nodes, dl),
                     preservedLeafCounts := Shifted(t.preservedLeafCounts, Ancestors(t, parent).nodes, dp))
  {
    ghost var path := Ancestors(t, parent).nodes;
    var p := parent;
    var leaf, pres := t.leafCounts, t.preservedLeafCounts;
    ghost var i := 0;
    ShiftedNone(t.leafCounts, dl);
    ShiftedNone(t.preservedLeafCounts, dp);
    while p != NULL
      invariant 0 <= i <= |path| && p == (if i < |path| then path[i] else NULL)
      invariant leaf == Shifted(t.leafCounts, path[..i], dl)
      invariant pres == Shifted(t.preservedLeafCounts, path[..i], dp)
      decreases |path| - i
    {
      ShiftedPrefix(t.leafCounts, path, i, p, dl, leaf);
      ShiftedPrefix(t.preservedLeafCounts, path, i, p, dp, pres);
      leaf := leaf[p := leaf[p] + dl];
      pres := pres[p := pres[p] + dp];
      WalkAfter(t.parents, parent, |t.parents|, i);
      p := t.parents[p];
      i := i + 1;
    }
    assert path[..i] == path;
    t2 := t.(leafCounts := leaf, preservedLeafCounts := pres);
  }

  /**
   * outgoing_leaf_counts: the child's leaf and preserved-leaf counts leave
   * parent and every ancestor of parent; nothing moves when both are 0.
   */
  method OutgoingLeafCounts(t: Tree, parent: int, child: int) returns (t2: Tree)
    requires Shaped(t) && 0 <= child < NumNodes(t) && Ancestors(t, parent).stop == AtEnd
    ensures t2 == LeafCountsMoved(t, parent, child, -1)
  {
    var lc := t.leafCounts[child];
    var plc := t.preservedLeafCounts[child];
    if lc + plc == 0 {
      return t;
    }
    t2 := AddAlongAncestors(t, parent, -lc, -plc);
  }

  /** incoming_leaf_counts: the same counts join parent and every ancestor of parent. */
  method IncomingLeafCounts(t: Tree, parent: int, child: int) returns (t2: Tree)
    requires Shaped(t) && 0 <= child < NumNodes(t) && Ancestors(t, parent).stop == AtEnd
    ensures t2 == LeafCountsMoved(t, parent, child, 1)
  {
    var lc := t.leafCounts[child];
    var plc := t.preservedLeafCounts[child];
    if lc + plc == 0 {
      return t;
    }
    t2 := AddAlongAncestors(t, parent, lc, plc);
  }

  /** Moving by d and then by -d along the same path gives the counts back. */
  lemma ShiftedBack(counts: seq<int>, path: seq<int>, d: int)
    ensures Shifted(Shifted(counts, path, d), path, -d) == counts
  {
  }

  /** Along a path without repeats, a node moves by d exactly when it is on the path. */
  lemma ShiftedAt(counts: seq<int>, path: seq<int>, d: int, a: int)
    requires Distinct(path) && 0 <= a < |counts|
    ensures Shifted(counts, path, d)[a] == counts[a] + (if a in path then d else 0)
  {
    DistinctCount(path, a);
    if a in path {
      assert multiset(path)[a] == 1;
    } else {
      assert multiset(path)[a] == 0;
    }
  }

  /**
   * Exactly the ancestors change, each by the child's counts once (the
   * path has no repeats), unless the child's two counts sum to 0.
   */
  lemma LeafCountsMovedExactly(t: Tree, parent: int, child: int, sign: int, a: int)
    requires Shaped(t) && 0 <= child < NumNodes(t) && Ancestors(t, parent).stop == AtEnd && 0 <= a < NumNodes(t)
    ensures var t2 := LeafCountsMoved(t, parent, child, sign);
      var moved := a in Ancestors(t, parent).nodes && t.leafCounts[child] + t.preservedLeafCounts[child] != 0;
      t2.leafCounts[a] == t.leafCounts[a] + (if moved then sign * t.leafCounts[child] else 0)
      && t2.preservedLeafCounts[a] == t.preservedLeafCounts[a] + (if moved then sign * t.preservedLeafCounts[child] else 0)
  {
    var path := Ancestors(t, parent).nodes;
    var lc, plc := t.leafCounts[child], t.preservedLeafCounts[child];
    WalkDistinct(t.parents, parent, |t.parents|);
    ShiftedAt(t.leafCounts, path, sign * lc, a);
    ShiftedAt(t.preservedLeafCounts, path, sign * plc, a);
  }

  /** Only the two count arrays change: the links and every other array stay as they were. */
  lemma LeafCountsMovedOnlyCounts(t: Tree, parent: int, child: int, sign: int)
    requires Shaped(t) && 0 <= child < NumNodes(t)
    ensures OnlyCounts(LeafCountsMoved(t, parent, child, sign), t)
  {
  }

  /** t differs from b at most in the two count arrays. */
  predicate OnlyCounts(t: Tree, b: Tree)
  {
    t == b.(leafCounts := t.leafCounts, preservedLeafCounts := t.preservedLeafCounts)
  }

  /** The policies undo each other: an edge entering and then leaving restores every count. */
  lemma IncomingThenOutgoing(t: Tree, parent: int, child: int)
    requires Shaped(t) && 0 <= child < NumNodes(t) && Ancestors(t, parent).stop == AtEnd
    requires child !in Ancestors(t, parent).nodes
    ensures LeafCountsMoved(LeafCountsMoved(t, parent, child, 1), parent, child, -1) == t
  {
    var t1 := LeafCountsMoved(t, parent, child, 1);
    var path := Ancestors(t, parent).nodes;
    var lc, plc := t.leafCounts[child], t.preservedLeafCounts[child];
    if lc + plc != 0 {
      assert 1 * lc == lc && 1 * plc == plc && -1 * lc == -lc && -1 * plc == -plc;
      assert t1 == t.(leafCounts := Shifted(t.leafCounts, path, lc), preservedLeafCounts := Shifted(t.preservedLeafCounts, path, plc));
      ShiftedOff(t.leafCounts, path, lc, child);
      ShiftedOff(t.preservedLeafCounts, path, plc, child);
      assert Ancestors(t1, parent) == Ancestors(t, parent);
      var t2 := LeafCountsMoved(t1, parent, child, -1);
      assert t2 == t1.(leafCounts := Shifted(t1.leafCounts, path, -lc), preservedLeafCounts := Shifted(t1.preservedLeafCounts, path, -plc));
      ShiftedBack(t.leafCounts, path, lc);
      ShiftedBack(t.preservedLeafCounts, path, plc);
    }
  }

  /** A node off the path keeps its count. */
  lemma ShiftedOff(counts: seq<int>, path: seq<int>, d: int, a: int)
    requires 0 <= a < |counts| && a !in path
    ensures Shifted(counts, path, d)[a] == counts[a]
  {
    assert multiset(path)[a] == 0;
  }

  /**
   * The debug assertions of outgoing_leaf_counts hold when every ancestor
   * counts at least the child's leaves, as when each count is the number
   * of leaves below the node.
   */
  lemma OutgoingStaysNonNegative(t: Tree, parent: int, child: int, a: int)
    requires Shaped(t) && 0 <= child < NumNodes(t) && Ancestors(t, parent).stop == AtEnd && 0 <= a < NumNodes(t)
    requires a in Ancestors(t, parent).nodes
    requires t.leafCounts[child] >= 0 && t.preservedLeafCounts[child] >= 0
    requires t.leafCounts[a] >= t.leafCounts[child] && t.preservedLeafCounts[a] >= t.preservedLeafCounts[child]
    ensures LeafCountsMoved(t, parent, child, -1).leafCounts[a] >= 0
    ensures LeafCountsMoved(t, parent, child, -1).preservedLeafCounts[a] >= 0
  {
    LeafCountsMovedExactly(t, parent, child, -1, a);
  }

  // ---- sample lists ----

  /** left_sample, right_sample and next_sample: each node's sample list runs from left to right along next. */
  datatype SampleLinks = SampleLinks(left: seq<int>, right: seq<int>, next: seq<int>)

  function LinksOf(t: Tree): SampleLinks
  {
    SampleLinks(t.leftSample, t.rightSample, t.nextSample)
  }

  function WithLinks(t: Tree, s: SampleLinks): Tree
  {
    t.(leftSample := s.left, rightSample := s.right, nextSample := s.next)
  }

  /** A node with a sample list has both ends in the range of next. */
  predicate LinksWellFormed(s: SampleLinks)
  {
    |s.right| == |s.left|
    && forall x :: 0 <= x < |s.left| && s.left[x] != NULL ==> 0 <= s.left[x] < |s.next| && 0 <= s.right[x] < |s.next|
  }

  /** The start of each pass up the path: a sample's list is itself again, any other node's list is empty. */
  function ResetNode(s: SampleLinks, n: int, isSample: bool): (r: SampleLinks)
    requires LinksWellFormed(s) && 0 <= n < |s.left|
    ensures LinksWellFormed(r) && |r.left| == |s.left| && r.next == s.next
  {
    if isSample then s.(right := s.right[n := s.left[n]])
    else s.(left := s.left[n := NULL], right := s.right[n := NULL])
  }

  /**
   * The inner loop's body for child v: a child with samples starts n's
   * list when it is empty, else is linked after it; either way n's list
   * now ends where v's does.
   */
  function JoinChild(s: SampleLinks, n: int, v: int): (r: SampleLinks)
    requires LinksWellFormed(s) && 0 <= n < |s.left| && 0 <= v < |s.left|
    ensures LinksWellFormed(r) && |r.left| == |s.left| && |r.next| == |s.next|
  {
    if s.left[v] == NULL then s
    else if s.left[n] == NULL then s.(left := s.left[n := s.left[v]], right := s.right[n := s.right[v]])
    else s.(next := s.next[s.right[n] := s.left[v]], right := s.right[n := s.right[v]])
  }

  /** The inner loop over the children cs, left to right. */
  function JoinChildren(s: SampleLinks, n: int, cs: seq<int>): (r: SampleLinks)
    requires LinksWellFormed(s) && 0 <= n < |s.left| && NodesBelow(cs, |s.left|)
    ensures LinksWellFormed(r) && |r.left| == |s.left| && |r.next| == |s.next|
    decreases |cs|
  {
    if cs == [] then s else JoinChildren(JoinChild(s, n, cs[0]), n, cs[1..])
  }

  /** One pass of the outer loop at n: the reset, then n's children left to right. */
  function UpdateNode(t: Tree, s: SampleLinks, n: int): (r: SampleLinks)
    requires Shaped(t) && LinksWellFormed(s) && |s.left| == NumNodes(t) && 0 <= n < NumNodes(t)
    ensures LinksWellFormed(r) && |r.left| == |s.left| && |r.next| == |s.next|
  {
    JoinChildren(ResetNode(s, n, t.sampleIndexMap[n] != NULL), n, Walk(t.rightSib, t.leftChild[n], NULL, |t.rightSib|).nodes)
  }

  /** The outer loop over path. */
  function UpdateUpward(t: Tree, s: SampleLinks, path: seq<int>): (r: SampleLinks)
    requires Shaped(t) && LinksWellFormed(s) && |s.left| == NumNodes(t) && NodesBelow(path, NumNodes(t))
    ensures LinksWellFormed(r) && |r.left| == |s.left| && |r.next| == |s.next|
    decreases |path|
  {
    if path == [] then s else UpdateUpward(t, UpdateNode(t, s, path[0]), path[1..])
  }

  /** Every node of path has a child list that ends. */
  predicate ChildListsEnd(t: Tree, path: seq<int>)
    requires Shaped(t) && NodesBelow(path, NumNodes(t))
  {
    forall i :: 0 <= i < |path| ==> Walk(t.rightSib, t.leftChild[path[i]], NULL, |t.rightSib|).stop == AtEnd
  }

  /** One pass of the outer loop: the first node of path, then the rest. */
  lemma UpdateUpwardStep(t: Tree, s: SampleLinks, path: seq<int>, i: nat, n: int)
    requires Shaped(t) && LinksWellFormed(s) && |s.left| == NumNodes(t) && NodesBelow(path, NumNodes(t))
    requires i < |path| && n == path[i]
    ensures UpdateUpward(t, s, path[i..]) == UpdateUpward(t, UpdateNode(t, s, n), path[i + 1..])
  {
    assert path[i..][1..] == path[i + 1..];
  }

  /** One pass of the inner loop: the child at k, then the ones after it. */
  lemma JoinChildrenStep(s: SampleLinks, n: int, cs: seq<int>, k: nat, v: int)
    requires LinksWellFormed(s) && 0 <= n < |s.left| && NodesBelow(cs, |s.left|) && k < |cs| && v == cs[k]
    ensures JoinChildren(s, n, cs[k..]) == JoinChildren(JoinChild(s, n, v), n, cs[k + 1..])
  {
    assert cs[k..][1..] == cs[k + 1..];
  }

  /** The body of the loop over n's children, for child v. */
  method AppendChildSamples(s: SampleLinks, n: int, v: int) returns (s2: SampleLinks)
    requires LinksWellFormed(s) && 0 <= n < |s.left| && 0 <= v < |s.left|
    ensures s2 == JoinChild(s, n, v)
  {
    s2 := s;
    if s2.left[v] != NULL {
      if s2.left[n] == NULL {
        s2 := s2.(left := s2.left[n := s2.left[v]], right := s2.right[n := s2.right[v]]);
      } else {
        s2 := s2.(next := s2.next[s2.right[n] := s2.left[v]], right := s2.right[n := s2.right[v]]);
      }
    }
  }

  /** The body of update_samples_list's outer loop at node n: the reset, then the loop over n's children. */
  method RebuildNode(t: Tree, s: SampleLinks, n: int) returns (s2: SampleLinks)
    requires Shaped(t) && LinksWellFormed(s) && |s.left| == NumNodes(t) && 0 <= n < NumNodes(t)
    requires Walk(t.rightSib, t.leftChild[n], NULL, |t.rightSib|).stop == AtEnd
    ensures s2 == UpdateNode(t, s, n)
  {
    s2 := s;
    if t.sampleIndexMap[n] != NULL {
      s2 := s2.(right := s2.right[n := s2.left[n]]);
    } else {
      s2 := s2.(left := s2.left[n := NULL], right := s2.right[n := NULL]);
    }
    assert s2 == ResetNode(s, n, t.sampleIndexMap[n] != NULL);
    var v := t.leftChild[n];
    ghost var kids := Walk(t.rightSib, v, NULL, |t.rightSib|).nodes;
    ghost var k := 0;
    while v != NULL
      invariant 0 <= k <= |kids| && v == (if k < |kids| then kids[k] else NULL)
      invariant LinksWellFormed(s2) && |s2.left| == NumNodes(t)
      invariant JoinChildren(s2, n, kids[k..]) == UpdateNode(t, s, n)
      decreases |kids| - k
    {
      JoinChildrenStep(s2, n, kids, k, v);
      s2 := AppendChildSamples(s2, n, v);
      WalkAfter(t.rightSib, t.leftChild[n], |t.rightSib|, k);
      v := t.rightSib[v];
      k := k + 1;
    }
  }

  /**
   * update_samples_list: from node up to the root, each node's sample list
   * is rebuilt from its own sample and its children's lists.
   */
  method UpdateSamplesList(t: Tree, node: int) returns (t2: Tree)
    requires Shaped(t) && LinksWellFormed(LinksOf(t))
    requires Ancestors(t, node).stop == AtEnd && ChildListsEnd(t, Ancestors(t, node).nodes)
    ensures t2 == WithLinks(t, UpdateUpward(t, LinksOf(t), Ancestors(t, node).nodes))
  {
    ghost var path := Ancestors(t, node).nodes;
    var s := LinksOf(t);
    var n := node;
    ghost var i := 0;
    while n != NULL
      invariant 0 <= i <= |path| && n == (if i < |path| then path[i] else NULL)
      invariant LinksWellFormed(s) && |s.left| == NumNodes(t)
      invariant UpdateUpward(t, s, path[i..]) == UpdateUpward(t, LinksOf(t), path)
      decreases |path| - i
    {
      UpdateUpwardStep(t, s, path, i, n);
      s := RebuildNode(t, s, n);
      WalkAfter(t.parents, node, |t.parents|, i);
      n := t.parents[n];
      i := i + 1;
    }
    assert path[i..] == [];
    t2 := WithLinks(t, s);
  }

  /** One stretch of a sample list: from first to last along next. */
  datatype Span = Span(first: int, last: int)

  /** A sample's own one-entry stretch, when it has one. */
  function OwnSpan(s: SampleLinks, n: int, isSample: bool): seq<Span>
    requires 0 <= n < |s.left|
  {
    if isSample && s.left[n] != NULL then [Span(s.left[n], s.left[n])] else []
  }

  /** The stretches of the children with samples, left to right. */
  function ChildSpans(s: SampleLinks, cs: seq<int>): seq<Span>
    requires |s.right| == |s.left| && NodesBelow(cs, |s.left|)
  {
    if cs == [] then []
    else (if s.left[cs[0]] != NULL then [Span(s.left[cs[0]], s.right[cs[0]])] else []) + ChildSpans(s, cs[1..])
  }

  function Lasts(spans: seq<Span>): (r: seq<int>)
    ensures |r| == |spans| && forall i :: 0 <= i < |spans| ==> r[i] == spans[i].last
  {
    seq(|spans|, i requires 0 <= i < |spans| => spans[i].last)
  }

  /**
   * n's sample list is the stretches joined in order: it starts at the
   * first one's start, ends at the last one's end, and next links each
   * stretch's end to the following one's start; no stretches, no list.
   */
  predicate Joined(s: SampleLinks, n: int, spans: seq<Span>)
    requires 0 <= n < |s.left| && |s.right| == |s.left|
  {
    (forall i :: 0 <= i < |spans| ==> 0 <= spans[i].first < |s.next| && 0 <= spans[i].last < |s.next|)
    && (spans == [] ==> s.left[n] == NULL && s.right[n] == NULL)
    && (spans != [] ==> s.left[n] == spans[0].first && s.right[n] == spans[|spans| - 1].last)
    && forall i :: 0 <= i < |spans| - 1 ==> s.next[spans[i].last] == spans[i + 1].first
  }

  /** Changing only n's ends leaves the children's stretches alone when n is not among them. */
  lemma {:induction false} ChildSpansFrame(s: SampleLinks, s2: SampleLinks, n: int, cs: seq<int>)
    requires |s.right| == |s.left| && |s2.left| == |s.left| && |s2.right| == |s.left| && NodesBelow(cs, |s.left|)
    requires n !in cs
    requires forall x :: 0 <= x < |s.left| && x != n ==> s2.left[x] == s.left[x] && s2.right[x] == s.right[x]
    ensures ChildSpans(s2, cs) == ChildSpans(s, cs)
  {
    if cs != [] {
      ChildSpansFrame(s, s2, n, cs[1..]);
    }
  }

  /** The children's stretches of a well-formed state lie in the range of next. */
  lemma {:induction false} ChildSpansInRange(s: SampleLinks, cs: seq<int>)
    requires LinksWellFormed(s) && NodesBelow(cs, |s.left|)
    ensures forall i :: 0 <= i < |ChildSpans(s, cs)| ==>
      0 <= ChildSpans(s, cs)[i].first < |s.next| && 0 <= ChildSpans(s, cs)[i].last < |s.next|
  {
    if cs != [] {
      ChildSpansInRange(s, cs[1..]);
    }
  }

  /** One child joins its stretch after the ones already joined. */
  lemma JoinChildStep(s: SampleLinks, n: int, v: int, spans: seq<Span>)
    requires LinksWellFormed(s) && 0 <= n < |s.left| && 0 <= v < |s.left| && v != n
    requires Joined(s, n, spans)
    requires s.left[v] != NULL ==> Distinct(Lasts(spans + [Span(s.left[v], s.right[v])]))
    ensures Joined(JoinChild(s, n, v), n, spans + (if s.left[v] != NULL then [Span(s.left[v], s.right[v])] else []))
  {
    if s.left[v] != NULL {
      var r := JoinChild(s, n, v);
      var sp := spans + [Span(s.left[v], s.right[v])];
      if spans != [] {
        var e := spans[|spans| - 1].last;
        assert r.next == s.next[e := s.left[v]];
        forall i | 0 <= i < |sp| - 1 ensures r.next[sp[i].last] == sp[i + 1].first {
          if i < |spans| - 1 {
            assert Lasts(sp)[i] != Lasts(sp)[|spans| - 1];
          }
        }
      }
    } else {
      assert spans + [] == spans;
    }
  }

  /** The inner loop appends the children's stretches in order. */
  lemma {:induction false} JoinChildrenJoins(s: SampleLinks, n: int, cs: seq<int>, spans: seq<Span>)
    requires LinksWellFormed(s) && 0 <= n < |s.left| && NodesBelow(cs, |s.left|) && n !in cs
    requires Joined(s, n, spans)
    requires Distinct(Lasts(spans + ChildSpans(s, cs)))
    ensures Joined(JoinChildren(s, n, cs), n, spans + ChildSpans(s, cs))
    decreases |cs|
  {
    if cs != [] {
      var v := cs[0];
      var own := if s.left[v] != NULL then [Span(s.left[v], s.right[v])] else [];
      assert ChildSpans(s, cs) == own + ChildSpans(s, cs[1..]);
      assert spans + ChildSpans(s, cs) == (spans + own) + ChildSpans(s, cs[1..]);
      if s.left[v] != NULL {
        assert Lasts(spans + own) == Lasts(spans + ChildSpans(s, cs))[..|spans| + 1];
      }
      JoinChildStep(s, n, v, spans);
      var s1 := JoinChild(s, n, v);
      ChildSpansFrame(s, s1, n, cs[1..]);
      JoinChildrenJoins(s1, n, cs[1..], spans + own);
    } else {
      assert spans + [] == spans;
    }
  }

  /**
   * One pass at n joins n's own sample, if it is one, and then its
   * children's lists in order, provided n is not its own child and the
   * stretches end at distinct samples.  A sample's list thus starts at
   * itself.
   */
  lemma UpdateNodeJoins(t: Tree, s: SampleLinks, n: int)
    requires Shaped(t) && LinksWellFormed(s) && |s.left| == NumNodes(t) && 0 <= n < NumNodes(t)
    requires var cs := Walk(t.rightSib, t.leftChild[n], NULL, |t.rightSib|).nodes;
      n !in cs && Distinct(Lasts(OwnSpan(s, n, t.sampleIndexMap[n] != NULL) + ChildSpans(s, cs)))
    ensures var cs := Walk(t.rightSib, t.leftChild[n], NULL, |t.rightSib|).nodes;
      Joined(UpdateNode(t, s, n), n, OwnSpan(s, n, t.sampleIndexMap[n] != NULL) + ChildSpans(s, cs))
  {
    var cs := Walk(t.rightSib, t.leftChild[n], NULL, |t.rightSib|).nodes;
    var isSample := t.sampleIndexMap[n] != NULL;
    var s0 := ResetNode(s, n, isSample);
    var own := OwnSpan(s, n, isSample);
    assert Joined(s0, n, own);
    ChildSpansFrame(s, s0, n, cs);
    JoinChildrenJoins(s0, n, cs, own);
  }
}

// The root list of fwdpp/ts/tree_visitor.hpp: the nodes without a parent
// that are above a sample, where a node is above a sample when it is a
// sample or one of its children is (tree_visitor.hpp:46-62).  The lemmas
// here carry that description through each edge leaving or entering the
// tree, through a whole call of operator(), and from the constructor on.

module TreeRoots {
  import opened Types
  import opened MarginalTree
  import opened SiblingLists
  import opened AdvancePolicies
  import opened TreeVisitor

  // ---------------------------------------------------------------------
  // What the visitor keeps true of the tree between calls

  /** One child list per node, each naming nodes of the tree. */
  predicate KidsBelow(kids: seq<seq<int>>, n: nat)
  {
    |kids| == n && forall x :: 0 <= x < n ==> NodesBelow(kids[x], n)
  }

  /** Every entry of kids[x] has x as its parent. */
  predicate KidsOf(parents: seq<int>, kids: seq<seq<int>>)
    requires KidsBelow(kids, |parents|)
  {
    forall x, q :: 0 <= x < |kids| && 0 <= q < |kids[x]| ==> parents[kids[x][q]] == x
  }

  /** Every node with a parent is in its parent's list. */
  predicate ParentsListed(parents: seq<int>, kids: seq<seq<int>>)
  {
    forall y :: 0 <= y < |parents| && parents[y] != NULL ==> 0 <= parents[y] < |kids| && y in kids[parents[y]]
  }

  /** kids[x] is threaded through the sibling links as the child list of x. */
  predicate ListsThreaded(t: Tree, kids: seq<seq<int>>)
    requires Shaped(t) && |kids| == NumNodes(t)
  {
    forall x :: 0 <= x < NumNodes(t) ==> ChildrenAre(t, x, kids[x])
  }

  /** kids[x] is the child list of x for every node x, and a node with a parent is in its parent's list. */
  predicate Structured(t: Tree, kids: seq<seq<int>>)
    requires Shaped(t)
  {
    KidsBelow(kids, NumNodes(t)) && KidsOf(t.parents, kids) && ParentsListed(t.parents, kids) && ListsThreaded(t, kids)
  }

  /**
   * Every parent outranks its children.  The birth times of the node table
   * give such a rank, since a parent is born before its child; so the
   * parent links have no cycle.
   */
  predicate Ranked(parents: seq<int>, rank: seq<nat>)
  {
    |rank| == |parents| && forall y :: 0 <= y < |parents| && 0 <= parents[y] < |parents| ==> rank[y] < rank[parents[y]]
  }

  /** The mark of y is 0 or 1, and 1 exactly when y is a sample or one of its children is marked. */
  predicate MarkOk(sim: seq<int>, kids: seq<seq<int>>, marks: seq<int>, y: int)
    requires KidsBelow(kids, |marks|) && |sim| == |marks| && 0 <= y < |marks|
  {
    (marks[y] == 0 || marks[y] == 1) && (marks[y] == 1 <==> sim[y] != NULL || Marked(marks, kids[y], 0))
  }

  /** above_sample says of every node whether it is above a sample. */
  predicate AboveCorrect(t: Tree, kids: seq<seq<int>>)
    requires Shaped(t) && KidsBelow(kids, NumNodes(t))
  {
    forall y :: 0 <= y < NumNodes(t) ==> MarkOk(t.sampleIndexMap, kids, t.aboveSample, y)
  }

  /** l is the root list, and it holds exactly the nodes without a parent that are above a sample. */
  predicate RootsExactly(t: Tree, l: seq<int>)
    requires Shaped(t)
  {
    RootsAre(t, l) && forall x :: 0 <= x < NumNodes(t) ==> (x in l <==> t.parents[x] == NULL && t.aboveSample[x] == 1)
  }

  /** Everything above, for the child lists kids and the root list l. */
  predicate Tracked(t: Tree, rank: seq<nat>, kids: seq<seq<int>>, l: seq<int>)
  {
    Ready(t) && Ranked(t.parents, rank) && Structured(t, kids) && AboveCorrect(t, kids) && RootsExactly(t, l)
  }

  /** As Tracked, with left_root the first root, so that the root iterator visits the whole list. */
  predicate Visible(t: Tree, rank: seq<nat>, kids: seq<seq<int>>, l: seq<int>)
  {
    Tracked(t, rank, kids, l) && t.leftRoot == First(l)
  }

  // ---------------------------------------------------------------------
  // Small facts about marks and lists

  /** A node in the child list of y has y as its parent. */
  lemma InKids(parents: seq<int>, kids: seq<seq<int>>, y: int, x: int)
    requires KidsBelow(kids, |parents|) && KidsOf(parents, kids) && 0 <= y < |kids| && x in kids[y]
    ensures parents[x] == y
  {
    var q :| 0 <= q < |kids[y]| && kids[y][q] == x;
  }

  /** Marked only looks at the marks of the list's entries. */
  lemma MarkedFrame(m1: seq<int>, m2: seq<int>, l: seq<int>)
    requires |m1| == |m2| && NodesBelow(l, |m1|)
    requires forall q :: 0 <= q < |l| ==> m1[l[q]] == m2[l[q]]
    ensures Marked(m1, l, 0) == Marked(m2, l, 0)
  {
    if Marked(m1, l, 0) {
      var q :| 0 <= q < |l| && m1[l[q]] != 0;
    }
    if Marked(m2, l, 0) {
      var q :| 0 <= q < |l| && m2[l[q]] != 0;
    }
  }

  /** Changing the mark of a node outside l leaves Marked of l alone. */
  lemma MarkedOutside(marks: seq<int>, l: seq<int>, x: int, v: int)
    requires NodesBelow(l, |marks|) && 0 <= x < |marks| && x !in l
    ensures Marked(marks[x := v], l, 0) == Marked(marks, l, 0)
  {
    forall q | 0 <= q < |l| ensures marks[x := v][l[q]] == marks[l[q]] {
      assert l[q] != x;
    }
    MarkedFrame(marks, marks[x := v], l);
  }

  /**
   * One pass of a climb at x, seen from every node other than x's parent:
   * re-marking x with what its children say describes x correctly and
   * keeps every other node described correctly.
   */
  lemma ClimbPass(parents: seq<int>, sim: seq<int>, rank: seq<nat>, kids: seq<seq<int>>, marks: seq<int>, m2: seq<int>, x: int, v: int)
    requires KidsBelow(kids, |parents|) && KidsOf(parents, kids) && Ranked(parents, rank)
    requires |sim| == |parents| && |marks| == |parents| && 0 <= x < |parents| && (v == 0 || v == 1) && m2 == marks[x := v]
    requires v == 1 <==> sim[x] != NULL || Marked(marks, kids[x], 0)
    requires forall y :: 0 <= y < |parents| && y != x ==> MarkOk(sim, kids, marks, y)
    ensures forall y :: 0 <= y < |parents| && y != parents[x] ==> MarkOk(sim, kids, m2, y)
  {
    forall y | 0 <= y < |parents| && y != parents[x] ensures MarkOk(sim, kids, m2, y) {
      assert x !in kids[y] by {
        if x in kids[y] {
          InKids(parents, kids, y, x);
          assert false;
        }
      }
      MarkedOutside(marks, kids[y], x, v);
      if y != x {
        assert MarkOk(sim, kids, marks, y);
      }
    }
  }

  /** A node with a marked child is marked, when every node is described correctly but possibly that child. */
  lemma ParentMarked(parents: seq<int>, sim: seq<int>, kids: seq<seq<int>>, marks: seq<int>, x: int)
    requires KidsBelow(kids, |parents|) && ParentsListed(parents, kids) && |sim| == |parents| && |marks| == |parents|
    requires 0 <= x < |parents| && marks[x] != 0 && parents[x] != NULL && parents[x] != x
    requires forall z :: 0 <= z < |parents| && z != x ==> MarkOk(sim, kids, marks, z)
    ensures marks[parents[x]] == 1
  {
    var y := parents[x];
    var q :| 0 <= q < |kids[y]| && kids[y][q] == x;
    assert MarkOk(sim, kids, marks, y);
  }

  // ---------------------------------------------------------------------
  // The two climbs

  /** Every parent link names a node or is NULL. */
  predicate ParentLinks(parents: seq<int>)
  {
    forall y :: 0 <= y < |parents| ==> Link(parents[y], |parents|)
  }

  lemma LinksParents(t: Tree)
    requires Shaped(t) && LinksInRange(t)
    ensures ParentLinks(t.parents)
  {
    forall y | 0 <= y < |t.parents| ensures Link(t.parents[y], |t.parents|) {
      assert Link(t.parents[y], NumNodes(t));
    }
  }

  /**
   * ClimbOut read through the child lists: the walk along the sibling
   * links of x finds a marked child exactly when kids[x] has one.  The
   * lemmas below reason about this form, which needs no sibling links.
   */
  function ClimbOutAlong(parents: seq<int>, sim: seq<int>, kids: seq<seq<int>>, marks: seq<int>, x: int, root: int, fuel: nat): (r: Result<Climb>)
    requires ParentLinks(parents) && KidsBelow(kids, |parents|) && |sim| == |parents| && |marks| == |parents|
    requires Link(x, |parents|) && 0 <= root < |parents|
    ensures r.Ok? ==> |r.value.aboveSample| == |marks| && 0 <= r.value.root < |parents|
    decreases fuel
  {
    if x == NULL then Ok(Climb(marks, root, false))
    else if fuel == 0 then Err(Undefined)
    else
      var above := sim[x] != NULL || Marked(marks, kids[x], 0);
      var marks2 := marks[x := if above then 1 else 0];
      if above then Ok(Climb(marks2, x, true)) else ClimbOutAlong(parents, sim, kids, marks2, parents[x], x, fuel - 1)
  }

  /** ClimbIn over the parent links alone. */
  function ClimbInAlong(parents: seq<int>, marks: seq<int>, x: int, root: int, fuel: nat): (r: Result<Climb>)
    requires ParentLinks(parents) && |marks| == |parents| && Link(x, |parents|) && 0 <= root < |parents|
    ensures r.Ok? ==> |r.value.aboveSample| == |marks| && 0 <= r.value.root < |parents|
    decreases fuel
  {
    if x == NULL then Ok(Climb(marks, root, false))
    else if fuel == 0 then Err(Undefined)
    else
      var marks2 := marks[x := 1];
      if marks[x] != 0 then Ok(Climb(marks2, x, true)) else ClimbInAlong(parents, marks2, parents[x], x, fuel - 1)
  }

  lemma {:induction false} ClimbOutThreaded(t: Tree, kids: seq<seq<int>>, marks: seq<int>, x: int, root: int, fuel: nat)
    requires Shaped(t) && LinksInRange(t) && KidsBelow(kids, NumNodes(t)) && ListsThreaded(t, kids)
    requires |marks| == NumNodes(t) && Link(x, NumNodes(t)) && 0 <= root < NumNodes(t)
    ensures ParentLinks(t.parents)
    ensures ClimbOut(t, marks, x, root, fuel) == ClimbOutAlong(t.parents, t.sampleIndexMap, kids, marks, x, root, fuel)
    decreases fuel
  {
    LinksParents(t);
    if x != NULL && fuel != 0 {
      assert ChildrenAre(t, x, kids[x]);
      KidAboveChildren(t, marks, x, kids[x]);
      var above := t.sampleIndexMap[x] != NULL || Marked(marks, kids[x], 0);
      var m2 := marks[x := if above then 1 else 0];
      if !above {
        ClimbOutThreaded(t, kids, m2, t.parents[x], x, fuel - 1);
      }
    }
  }

  lemma {:induction false} ClimbInParents(t: Tree, marks: seq<int>, x: int, root: int, fuel: nat)
    requires Shaped(t) && LinksInRange(t) && |marks| == NumNodes(t) && Link(x, NumNodes(t)) && 0 <= root < NumNodes(t)
    ensures ParentLinks(t.parents)
    ensures ClimbIn(t, marks, x, root, fuel) == ClimbInAlong(t.parents, marks, x, root, fuel)
    decreases fuel
  {
    LinksParents(t);
    if x != NULL && fuel != 0 && marks[x] == 0 {
      ClimbInParents(t, marks[x := 1], t.parents[x], x, fuel - 1);
    }
  }

  /**
   * The climb of update_roots_outgoing from x, when every node but x is
   * described correctly and x is marked: afterwards every node is, and
   * the only marks that changed went from 1 to 0 at x or above it, at
   * nodes with a parent, or at the topmost node reached when the climb
   * ran off the top.
   */
  lemma {:induction false} ClimbOutMarks(parents: seq<int>, sim: seq<int>, rank: seq<nat>, kids: seq<seq<int>>, marks: seq<int>, x: int, root: int, fuel: nat)
    requires ParentLinks(parents) && KidsBelow(kids, |parents|) && KidsOf(parents, kids) && ParentsListed(parents, kids)
    requires Ranked(parents, rank) && |sim| == |parents| && |marks| == |parents|
    requires Link(x, |parents|) && 0 <= root < |parents|
    requires forall y :: 0 <= y < |parents| && y != x ==> MarkOk(sim, kids, marks, y)
    requires x != NULL ==> marks[x] == 1
    requires ClimbOutAlong(parents, sim, kids, marks, x, root, fuel).Ok?
    ensures var cl := ClimbOutAlong(parents, sim, kids, marks, x, root, fuel).value;
      (forall y :: 0 <= y < |parents| ==> MarkOk(sim, kids, cl.aboveSample, y))
      && (forall y :: 0 <= y < |parents| && cl.aboveSample[y] != marks[y] ==>
            marks[y] == 1 && cl.aboveSample[y] == 0 && (x != NULL ==> rank[x] <= rank[y])
            && (parents[y] != NULL || (!cl.above && y == cl.root)))
      && (x != NULL && !cl.above ==> marks[cl.root] == 1 && cl.aboveSample[cl.root] == 0)
    decreases fuel
  {
    if x != NULL {
      var above := sim[x] != NULL || Marked(marks, kids[x], 0);
      var v := if above then 1 else 0;
      var m2 := marks[x := v];
      ClimbPass(parents, sim, rank, kids, marks, m2, x, v);
      var px := parents[x];
      if above {
        assert m2 == marks;
      } else if px != NULL {
        assert px != x;
        ParentMarked(parents, sim, kids, marks, x);
        ClimbOutMarks(parents, sim, rank, kids, m2, px, x, fuel - 1);
        var cl := ClimbOutAlong(parents, sim, kids, m2, px, x, fuel - 1).value;
        forall y | 0 <= y < |parents| && cl.aboveSample[y] != marks[y]
          ensures marks[y] == 1 && cl.aboveSample[y] == 0 && rank[x] <= rank[y]
        {
          if y != x {
            assert cl.aboveSample[y] != m2[y];
            assert rank[x] < rank[px];
          }
        }
      }
    }
  }

  /**
   * The climb of update_roots_incoming from x, when every node but x is
   * described correctly and x has a marked child: afterwards every node
   * is, and the only marks that changed went from 0 to 1 at x or above
   * it, at nodes with a parent, or at the topmost node reached when the
   * climb ran off the top.
   */
  lemma {:induction false} ClimbInMarks(parents: seq<int>, sim: seq<int>, rank: seq<nat>, kids: seq<seq<int>>, marks: seq<int>, x: int, root: int, fuel: nat)
    requires ParentLinks(parents) && KidsBelow(kids, |parents|) && KidsOf(parents, kids) && ParentsListed(parents, kids)
    requires Ranked(parents, rank) && |sim| == |parents| && |marks| == |parents|
    requires Link(x, |parents|) && 0 <= root < |parents|
    requires forall y :: 0 <= y < |parents| && y != x ==> MarkOk(sim, kids, marks, y)
    requires x != NULL ==> (marks[x] == 0 || marks[x] == 1) && Marked(marks, kids[x], 0)
    requires ClimbInAlong(parents, marks, x, root, fuel).Ok?
    ensures var cl := ClimbInAlong(parents, marks, x, root, fuel).value;
      (forall y :: 0 <= y < |parents| ==> MarkOk(sim, kids, cl.aboveSample, y))
      && (forall y :: 0 <= y < |parents| && cl.aboveSample[y] != marks[y] ==>
            marks[y] == 0 && cl.aboveSample[y] == 1 && (x != NULL ==> rank[x] <= rank[y])
            && (parents[y] != NULL || (!cl.above && y == cl.root)))
      && (x != NULL && !cl.above ==> marks[cl.root] == 0 && cl.aboveSample[cl.root] == 1)
    decreases fuel
  {
    if x != NULL {
      var m2 := marks[x := 1];
      ClimbPass(parents, sim, rank, kids, marks, m2, x, 1);
      var px := parents[x];
      if marks[x] != 0 {
        assert m2 == marks;
      } else if px != NULL {
        assert px != x;
        var q :| 0 <= q < |kids[px]| && kids[px][q] == x;
        assert m2[kids[px][q]] != 0;
        assert MarkOk(sim, kids, marks, px) && m2[px] == marks[px];
        ClimbInMarks(parents, sim, rank, kids, m2, px, x, fuel - 1);
        var cl := ClimbInAlong(parents, m2, px, x, fuel - 1).value;
        forall y | 0 <= y < |parents| && cl.aboveSample[y] != marks[y]
          ensures marks[y] == 0 && cl.aboveSample[y] == 1 && rank[x] <= rank[y]
        {
          if y != x {
            assert cl.aboveSample[y] != m2[y];
            assert rank[x] < rank[px];
          }
        }
      }
    }
  }

  // ---------------------------------------------------------------------
  // The child lists through one edge

  /** Removing the edge (p, c) takes c out of kids[p] and leaves c without a parent. */
  lemma KidsDropped(parents: seq<int>, kids: seq<seq<int>>, p: int, c: int, i: nat)
    requires KidsBelow(kids, |parents|) && KidsOf(parents, kids) && ParentsListed(parents, kids)
    requires 0 <= p < |parents| && Distinct(kids[p]) && i < |kids[p]| && kids[p][i] == c
    ensures KidsBelow(kids[p := Without(kids[p], i)], |parents|)
    ensures KidsOf(parents[c := NULL], kids[p := Without(kids[p], i)])
    ensures ParentsListed(parents[c := NULL], kids[p := Without(kids[p], i)])
  {
    var w := Without(kids[p], i);
    var kids1 := kids[p := w];
    var parents1 := parents[c := NULL];
    WithoutDistinct(kids[p], i);
    assert parents[c] == p;
    forall x, q | 0 <= x < |kids1| && 0 <= q < |kids1[x]| ensures parents1[kids1[x][q]] == x {
      if x == p {
        assert w[q] != c;
        assert w[q] in kids[p];
        InKids(parents, kids, p, w[q]);
      } else {
        assert parents[kids[x][q]] == x;
      }
    }
    forall y | 0 <= y < |parents1| && parents1[y] != NULL ensures 0 <= parents1[y] < |kids1| && y in kids1[parents1[y]] {
      assert y != c && parents1[y] == parents[y];
      if parents[y] == p {
        var q :| 0 <= q < |kids[p]| && kids[p][q] == y;
        assert q != i;
        if q < i {
          assert w[q] == y;
        } else {
          assert w[q - 1] == y;
        }
      }
    }
  }

  /** Adding the edge (p, c) for a c without a parent appends c to kids[p]. */
  lemma KidsAppended(parents: seq<int>, kids: seq<seq<int>>, p: int, c: int)
    requires KidsBelow(kids, |parents|) && KidsOf(parents, kids) && ParentsListed(parents, kids)
    requires 0 <= p < |parents| && 0 <= c < |parents| && parents[c] == NULL
    ensures c !in kids[p]
    ensures KidsBelow(kids[p := kids[p] + [c]], |parents|)
    ensures KidsOf(parents[c := p], kids[p := kids[p] + [c]])
    ensures ParentsListed(parents[c := p], kids[p := kids[p] + [c]])
  {
    var kids1 := kids[p := kids[p] + [c]];
    var parents1 := parents[c := p];
    assert c !in kids[p] by {
      if c in kids[p] {
        InKids(parents, kids, p, c);
        assert false;
      }
    }
    forall x, q | 0 <= x < |kids1| && 0 <= q < |kids1[x]| ensures parents1[kids1[x][q]] == x {
      if x == p && q == |kids[p]| {
        assert kids1[x][q] == c;
      } else {
        assert kids1[x][q] == kids[x][q];
        assert parents[kids[x][q]] == x;
        assert kids[x][q] != c;
      }
    }
    forall y | 0 <= y < |parents1| && parents1[y] != NULL ensures 0 <= parents1[y] < |kids1| && y in kids1[parents1[y]] {
      if y == c {
        assert kids1[p][|kids[p]|] == c;
      } else if parents[y] == p {
        var q :| 0 <= q < |kids[p]| && kids[p][q] == y;
        assert kids1[p][q] == y;
      }
    }
  }

  /** Marked does not see an unmarked entry. */
  lemma MarkedWithout(marks: seq<int>, l: seq<int>, i: nat)
    requires NodesBelow(l, |marks|) && i < |l| && marks[l[i]] == 0
    ensures NodesBelow(Without(l, i), |marks|)
    ensures Marked(marks, Without(l, i), 0) == Marked(marks, l, 0)
  {
    var w := Without(l, i);
    if Marked(marks, l, 0) {
      var q :| 0 <= q < |l| && marks[l[q]] != 0;
      if q < i {
        assert marks[w[q]] != 0;
      } else {
        assert marks[w[q - 1]] != 0;
      }
    }
    if Marked(marks, w, 0) {
      var q :| 0 <= q < |w| && marks[w[q]] != 0;
      if q < i {
        assert marks[l[q]] != 0;
      } else {
        assert marks[l[q + 1]] != 0;
      }
    }
  }

  /** ... nor an unmarked entry appended. */
  lemma MarkedAppended(marks: seq<int>, l: seq<int>, c: int)
    requires NodesBelow(l, |marks|) && 0 <= c < |marks|
    ensures NodesBelow(l + [c], |marks|)
    ensures Marked(marks, l + [c], 0) == (Marked(marks, l, 0) || marks[c] != 0)
  {
    var w := l + [c];
    if Marked(marks, l, 0) {
      var q :| 0 <= q < |l| && marks[l[q]] != 0;
      assert marks[w[q]] != 0;
    }
    if marks[c] != 0 {
      assert marks[w[|l|]] != 0;
    }
    if Marked(marks, w, 0) {
      var q :| 0 <= q < |w| && marks[w[q]] != 0;
      if q < |l| {
        assert marks[l[q]] != 0;
      }
    }
  }

  // ---------------------------------------------------------------------
  // Frames of the edits

  /** r keeps the parent and child links of u, and the sibling links of every node that has a parent. */
  predicate SibsKept(u: Tree, r: Tree)
    requires Shaped(u) && Shaped(r) && NumNodes(r) == NumNodes(u)
  {
    r.parents == u.parents && r.leftChild == u.leftChild && r.rightChild == u.rightChild
    && forall y :: 0 <= y < NumNodes(u) && u.parents[y] != NULL ==> r.leftSib[y] == u.leftSib[y] && r.rightSib[y] == u.rightSib[y]
  }

  /** The child lists only see the links of nodes with a parent. */
  lemma StructuredKept(u: Tree, r: Tree, kids: seq<seq<int>>)
    requires Shaped(u) && Shaped(r) && NumNodes(r) == NumNodes(u) && SibsKept(u, r) && Structured(u, kids)
    ensures Structured(r, kids)
  {
    forall x | 0 <= x < NumNodes(r) ensures ChildrenAre(r, x, kids[x]) {
      assert ChildrenAre(u, x, kids[x]);
      ThreadedFrame(u.leftSib, u.rightSib, r.leftSib, r.rightSib, kids[x]);
    }
  }

  /** Taking root l[i] out of the root list only touches roots. */
  lemma UnrootedKept(u: Tree, l: seq<int>, i: nat)
    requires Shaped(u) && LinksInRange(u) && RootsAre(u, l) && i < |l|
    ensures SibsKept(u, Unrooted(u, l[i]))
  {
    assert u.leftSib[l[i]] == Before(l, i) && u.rightSib[l[i]] == After(l, i);
  }

  /** Putting c in front of left_root only touches c and roots. */
  lemma RootedKept(u: Tree, l: seq<int>, c: int)
    requires Shaped(u) && LinksInRange(u) && RootsAre(u, l) && 0 <= c < NumNodes(u) && u.parents[c] == NULL
    ensures SibsKept(u, Rooted(u, c))
  {
    if u.leftRoot != NULL {
      var i :| 0 <= i < |l| && l[i] == u.leftRoot;
      assert u.leftSib[l[i]] == Before(l, i);
    }
  }

  /** The incoming update's replacement only touches c's old neighbours in the root list and the new root. */
  lemma ReplacedKept(u: Tree, l: seq<int>, i: nat, lsib: int, rsib: int, root: int)
    requires Shaped(u) && LinksInRange(u) && i < |l| && NodesBelow(l, NumNodes(u))
    requires lsib == Before(l, i) && rsib == After(l, i)
    requires 0 <= root < NumNodes(u) && u.parents[root] == NULL
    requires forall q :: 0 <= q < |l| && q != i ==> u.parents[l[q]] == NULL
    ensures SibsKept(u, RootReplaced(u, lsib, rsib, root))
  {
    assert lsib != NULL ==> u.parents[lsib] == NULL;
    assert rsib != NULL ==> u.parents[rsib] == NULL;
  }

  /** ... and its removal only touches those neighbours. */
  lemma DroppedKept(u: Tree, l: seq<int>, i: nat, lsib: int, rsib: int)
    requires Shaped(u) && LinksInRange(u) && i < |l| && NodesBelow(l, NumNodes(u))
    requires lsib == Before(l, i) && rsib == After(l, i)
    requires forall q :: 0 <= q < |l| && q != i ==> u.parents[l[q]] == NULL
    ensures SibsKept(u, RootDropped(u, lsib, rsib))
  {
    assert lsib != NULL ==> u.parents[lsib] == NULL;
    assert rsib != NULL ==> u.parents[rsib] == NULL;
  }

  /** Step T2 leaves alone every sibling list that avoids c and p's child list. */
  lemma AttachedAway(t: Tree, p: int, c: int, l: seq<int>, m: seq<int>)
    requires Shaped(t) && LinksInRange(t) && 0 <= p < NumNodes(t) && 0 <= c < NumNodes(t)
    requires ChildrenAre(t, p, l) && Threaded(t.leftSib, t.rightSib, m)
    requires forall q :: 0 <= q < |m| ==> m[q] != c && m[q] !in l
    ensures Threaded(Attached(t, p, c).leftSib, Attached(t, p, c).rightSib, m)
  {
    var r := Attached(t, p, c);
    forall q | 0 <= q < |m| ensures r.leftSib[m[q]] == t.leftSib[m[q]] && r.rightSib[m[q]] == t.rightSib[m[q]] {
      assert l != [] ==> m[q] != l[|l| - 1];
    }
    ThreadedFrame(t.leftSib, t.rightSib, r.leftSib, r.rightSib, m);
  }

  /** No node is in two child lists, nor in a child list and the root list. */
  lemma KidsApart(parents: seq<int>, kids: seq<seq<int>>, x: int, p: int, m: seq<int>)
    requires KidsBelow(kids, |parents|) && KidsOf(parents, kids) && 0 <= p < |kids|
    requires NodesBelow(m, |parents|) && forall q :: 0 <= q < |m| ==> parents[m[q]] == x
    requires x != p
    ensures forall q :: 0 <= q < |m| ==> m[q] !in kids[p]
  {
    forall q | 0 <= q < |m| ensures m[q] !in kids[p] {
      if m[q] in kids[p] {
        InKids(parents, kids, p, m[q]);
      }
    }
  }

  /** Step T4 keeps every child list threaded, with c gone from p's. */
  lemma DetachedThreaded(t: Tree, kids: seq<seq<int>>, p: int, c: int, i: nat)
    requires Shaped(t) && LinksInRange(t) && Structured(t, kids) && 0 <= p < NumNodes(t) && 0 <= c < NumNodes(t)
    requires i < |kids[p]| && kids[p][i] == c
    ensures ListsThreaded(Detached(t, p, c), kids[p := Without(kids[p], i)])
    ensures Detached(t, p, c).leftSib[c] == NULL
  {
    var r := Detached(t, p, c);
    var kids1 := kids[p := Without(kids[p], i)];
    DetachedChildren(t, p, c, kids[p], i);
    forall x | 0 <= x < NumNodes(t) && x != p ensures ChildrenAre(r, x, kids1[x]) {
      DetachedOther(t, kids, p, c, i, x);
    }
  }

  lemma DetachedOther(t: Tree, kids: seq<seq<int>>, p: int, c: int, i: nat, x: int)
    requires Shaped(t) && LinksInRange(t) && Structured(t, kids) && 0 <= p < NumNodes(t) && 0 <= c < NumNodes(t)
    requires i < |kids[p]| && kids[p][i] == c && 0 <= x < NumNodes(t) && x != p
    ensures ChildrenAre(Detached(t, p, c), x, kids[x])
  {
    var r := Detached(t, p, c);
    assert ChildrenAre(t, x, kids[x]) && ChildrenAre(t, p, kids[p]);
    KidsApart(t.parents, kids, x, p, kids[x]);
    DetachedFrame(t, p, c, kids[p], i, kids[x]);
    forall q | 0 <= q < |kids[x]| ensures r.parents[kids[x][q]] == x {
      assert kids[x][q] != c;
    }
  }

  /** Step T2 keeps every child list threaded, with c appended to p's. */
  lemma AttachedThreaded(t: Tree, kids: seq<seq<int>>, p: int, c: int)
    requires Shaped(t) && LinksInRange(t) && Structured(t, kids) && 0 <= p < NumNodes(t) && 0 <= c < NumNodes(t)
    requires t.parents[c] == NULL
    ensures ListsThreaded(Attached(t, p, c), kids[p := kids[p] + [c]])
  {
    var r := Attached(t, p, c);
    var kids1 := kids[p := kids[p] + [c]];
    KidsAppended(t.parents, kids, p, c);
    AttachedChildren(t, p, c, kids[p]);
    forall x | 0 <= x < NumNodes(t) && x != p ensures ChildrenAre(r, x, kids1[x]) {
      assert ChildrenAre(t, x, kids[x]);
      KidsApart(t.parents, kids, x, p, kids[x]);
      AttachedAway(t, p, c, kids[p], kids[x]);
    }
  }

  // ---------------------------------------------------------------------
  // The root list through one edge

  /**
   * The state update_roots_outgoing starts from: step T4 has removed the
   * edge (p, c), so every node but p is described correctly, p is still
   * marked when c is, and l holds the nodes other than c that have no
   * parent and are above a sample.
   */
  predicate OutgoingFrom(u: Tree, rank: seq<nat>, kids: seq<seq<int>>, l: seq<int>, p: int, c: int)
  {
    Ready(u) && Ranked(u.parents, rank) && Structured(u, kids) && RootsAre(u, l)
    && 0 <= p < NumNodes(u) && 0 <= c < NumNodes(u) && rank[c] < rank[p]
    && u.parents[c] == NULL && c !in l && u.leftSib[c] == NULL
    && (forall y :: 0 <= y < NumNodes(u) && y != p ==> MarkOk(u.sampleIndexMap, kids, u.aboveSample, y))
    && (u.aboveSample[c] == 1 ==> u.aboveSample[p] == 1)
    && (u.aboveSample[c] != 1 ==> MarkOk(u.sampleIndexMap, kids, u.aboveSample, p))
    && forall x :: 0 <= x < NumNodes(u) && x != c ==> (x in l <==> u.parents[x] == NULL && u.aboveSample[x] == 1)
  }

  /** What the outgoing climb from p leaves in m2 (ClimbOutMarks), for the marks of u. */
  predicate ClimbedOut(u: Tree, rank: seq<nat>, kids: seq<seq<int>>, p: int, m2: seq<int>, above: bool, root: int)
    requires Shaped(u) && KidsBelow(kids, NumNodes(u)) && |rank| == NumNodes(u) && 0 <= p < NumNodes(u)
  {
    |m2| == NumNodes(u) && 0 <= root < NumNodes(u)
    && (forall y :: 0 <= y < NumNodes(u) ==> MarkOk(u.sampleIndexMap, kids, m2, y))
    && (forall y :: 0 <= y < NumNodes(u) && m2[y] != u.aboveSample[y] ==>
          u.aboveSample[y] == 1 && m2[y] == 0 && rank[p] <= rank[y] && (u.parents[y] != NULL || (!above && y == root)))
    && (!above ==> u.aboveSample[root] == 1 && m2[root] == 0 && u.parents[root] == NULL)
  }

  /** Putting c in front of the roots gives a root list holding c and the old roots. */
  lemma RootedList(u: Tree, l: seq<int>, c: int) returns (l2: seq<int>)
    requires Shaped(u) && LinksInRange(u) && RootsAre(u, l) && 0 <= c < NumNodes(u) && c !in l
    requires u.parents[c] == NULL && (l == [] ==> u.leftSib[c] == NULL)
    ensures RootsAre(Rooted(u, c), l2) && forall x :: x in l2 <==> x == c || x in l
  {
    RootedRoots(u, l, c);
    if l == [] {
      l2 := [c];
    } else {
      var i :| 0 <= i < |l| && l[i] == u.leftRoot && RootsAre(Rooted(u, c), InsertAt(l, i, c));
      l2 := InsertAt(l, i, c);
      InsertAtMembers(l, i, c);
    }
  }

  /** Inserting c into l gives a list holding c and the entries of l. */
  lemma InsertAtMembers(l: seq<int>, i: nat, c: int)
    requires i <= |l|
    ensures forall x :: x in InsertAt(l, i, c) <==> x == c || x in l
  {
    var l2 := InsertAt(l, i, c);
    forall x | x in l2 ensures x == c || x in l {
      var q :| 0 <= q < |l2| && l2[q] == x;
      if q < i {
        assert l[q] == x;
      } else if q > i {
        assert l[q - 1] == x;
      }
    }
    forall x | x in l ensures x in l2 {
      var q :| 0 <= q < |l| && l[q] == x;
      if q < i {
        assert l2[q] == x;
      } else {
        assert l2[q + 1] == x;
      }
    }
  }

  /** When the climb stops at a node above a sample, c goes in front of the roots. */
  lemma OutgoingAboveRebuilt(u: Tree, rank: seq<nat>, kids: seq<seq<int>>, l: seq<int>, p: int, c: int, m2: seq<int>, root: int)
    returns (l2: seq<int>)
    requires OutgoingFrom(u, rank, kids, l, p, c) && u.aboveSample[c] == 1 && ClimbedOut(u, rank, kids, p, m2, true, root)
    ensures Tracked(Rooted(u.(aboveSample := m2), c), rank, kids, l2)
  {
    var u1 := u.(aboveSample := m2);
    var r := Rooted(u1, c);
    l2 := RootedList(u1, l, c);
    RootedKept(u1, l, c);
    StructuredKept(u1, r, kids);
    assert LinksOf(r) == LinksOf(u);
    forall x | 0 <= x < NumNodes(r) ensures x in l2 <==> r.parents[x] == NULL && r.aboveSample[x] == 1 {
      if r.parents[x] == NULL {
        assert m2[x] == u.aboveSample[x];
      }
    }
  }

  /** A list without repeats loses exactly its entry at i. */
  lemma WithoutMembers(l: seq<int>, i: nat)
    requires i < |l| && Distinct(l)
    ensures Distinct(Without(l, i)) && forall x :: x in Without(l, i) <==> x in l && x != l[i]
  {
    WithoutDistinct(l, i);
    forall x | x in l && x != l[i] ensures x in Without(l, i) {
      var q :| 0 <= q < |l| && l[q] == x;
      if q < i {
        assert Without(l, i)[q] == x;
      } else {
        assert Without(l, i)[q - 1] == x;
      }
    }
  }

  /** Taking root l[i] out of the root list leaves the other roots, and the links of every node outside l. */
  lemma UnrootedList(u: Tree, l: seq<int>, i: nat) returns (l1: seq<int>)
    requires Shaped(u) && LinksInRange(u) && RootsAre(u, l) && i < |l|
    ensures RootsAre(Unrooted(u, l[i]), l1) && SibsKept(u, Unrooted(u, l[i]))
    ensures forall x :: x in l1 <==> x in l && x != l[i]
    ensures forall x :: 0 <= x < NumNodes(u) && x !in l ==> Unrooted(u, l[i]).leftSib[x] == u.leftSib[x]
  {
    UnrootedRoots(u, l, i);
    UnrootedKept(u, l, i);
    WithoutMembers(l, i);
    l1 := Without(l, i);
    assert u.rightSib[l[i]] == After(l, i);
  }

  /** When the climb runs off the top, the root it reached leaves the list and c goes in front. */
  lemma OutgoingTopRebuilt(u: Tree, rank: seq<nat>, kids: seq<seq<int>>, l: seq<int>, p: int, c: int, m2: seq<int>, root: int)
    returns (l2: seq<int>)
    requires OutgoingFrom(u, rank, kids, l, p, c) && u.aboveSample[c] == 1 && ClimbedOut(u, rank, kids, p, m2, false, root)
    ensures Tracked(Rooted(Unrooted(u.(aboveSample := m2), root), c), rank, kids, l2)
  {
    var u1 := u.(aboveSample := m2);
    assert root != c && root in l;
    var i :| 0 <= i < |l| && l[i] == root;
    var l1 := UnrootedList(u1, l, i);
    var u2 := Unrooted(u1, root);
    StructuredKept(u1, u2, kids);
    l2 := RootedList(u2, l1, c);
    var r := Rooted(u2, c);
    RootedKept(u2, l1, c);
    StructuredKept(u2, r, kids);
    assert LinksOf(r) == LinksOf(u);
    TopRootsMembers(u.parents, u.aboveSample, m2, l, l2, c, root);
  }

  /**
   * The membership half of OutgoingTopRebuilt: with the reached root out and
   * c in, the list holds exactly the parentless nodes the new marks keep.
   */
  lemma TopRootsMembers(parents: seq<int>, marks: seq<int>, m2: seq<int>, l: seq<int>, l2: seq<int>, c: int, root: int)
    requires |marks| == |parents| && |m2| == |parents| && 0 <= c < |parents| && 0 <= root < |parents| && root != c
    requires parents[c] == NULL && marks[c] == 1 && parents[root] == NULL && m2[root] == 0
    requires forall x :: x in l2 <==> x == c || (x in l && x != root)
    requires forall x :: 0 <= x < |parents| && x != c ==> (x in l <==> parents[x] == NULL && marks[x] == 1)
    requires forall y :: 0 <= y < |parents| && m2[y] != marks[y] ==>
               marks[y] == 1 && m2[y] == 0 && (parents[y] != NULL || y == root)
    ensures forall x :: 0 <= x < |parents| ==> (x in l2 <==> parents[x] == NULL && m2[x] == 1)
  {
    forall x | 0 <= x < |parents| ensures x in l2 <==> parents[x] == NULL && m2[x] == 1 {
      if parents[x] == NULL && x != root {
        assert m2[x] == marks[x];
      }
    }
  }

  /** update_roots_outgoing after step T4 leaves the tree tracked again, with a root list l2. */
  lemma RootsOutgoingTracked(u: Tree, rank: seq<nat>, kids: seq<seq<int>>, l: seq<int>, p: int, c: int) returns (l2: seq<int>)
    requires OutgoingFrom(u, rank, kids, l, p, c) && RootsOutgoing(u, p, c).Ok?
    ensures Tracked(RootsOutgoing(u, p, c).value, rank, kids, l2)
  {
    var n := NumNodes(u);
    if u.aboveSample[c] != 1 {
      l2 := l;
      assert MarkOk(u.sampleIndexMap, kids, u.aboveSample, c);
    } else {
      ClimbOutThreaded(u, kids, u.aboveSample, p, p, n);
      ClimbOutMarks(u.parents, u.sampleIndexMap, rank, kids, u.aboveSample, p, p, n);
      var cl := ClimbOut(u, u.aboveSample, p, p, n).value;
      assert ClimbedOut(u, rank, kids, p, cl.aboveSample, cl.above, cl.root);
      if cl.above {
        l2 := OutgoingAboveRebuilt(u, rank, kids, l, p, c, cl.aboveSample, cl.root);
      } else {
        l2 := OutgoingTopRebuilt(u, rank, kids, l, p, c, cl.aboveSample, cl.root);
      }
    }
  }

  /**
   * The state update_roots_incoming starts from: step T2 has added the
   * edge (p, c), so every node but p is described correctly, and l holds
   * the nodes other than c that have no parent and are above a sample.
   * When c is above a sample it was a root, at index i of l with
   * neighbours lsib and rsib, and step T2 has overwritten its links;
   * otherwise l is still threaded.
   */
  predicate IncomingFrom(u: Tree, rank: seq<nat>, kids: seq<seq<int>>, l: seq<int>, p: int, c: int, i: nat, lsib: int, rsib: int)
  {
    Ready(u) && Ranked(u.parents, rank) && Structured(u, kids)
    && 0 <= p < NumNodes(u) && 0 <= c < NumNodes(u) && rank[c] < rank[p] && u.parents[c] == p
    && Link(lsib, NumNodes(u)) && Link(rsib, NumNodes(u))
    && (forall y :: 0 <= y < NumNodes(u) && y != p ==> MarkOk(u.sampleIndexMap, kids, u.aboveSample, y))
    && (u.aboveSample[p] == 0 || u.aboveSample[p] == 1)
    && (u.aboveSample[c] != 1 ==> MarkOk(u.sampleIndexMap, kids, u.aboveSample, p) && RootsAre(u, l) && c !in l)
    && (u.aboveSample[c] == 1 ==>
          i < |l| && l[i] == c && ThreadedExcept(u.leftSib, u.rightSib, l, i) && lsib == Before(l, i) && rsib == After(l, i)
          && forall q :: 0 <= q < |l| && q != i ==> u.parents[l[q]] == NULL)
    && forall x :: 0 <= x < NumNodes(u) && x != c ==> (x in l <==> u.parents[x] == NULL && u.aboveSample[x] == 1)
  }

  /** What the incoming climb from p leaves in m2 (ClimbInMarks), for the marks of u. */
  predicate ClimbedIn(u: Tree, rank: seq<nat>, kids: seq<seq<int>>, p: int, m2: seq<int>, above: bool, root: int)
    requires Shaped(u) && KidsBelow(kids, NumNodes(u)) && |rank| == NumNodes(u) && 0 <= p < NumNodes(u)
  {
    |m2| == NumNodes(u) && 0 <= root < NumNodes(u)
    && (forall y :: 0 <= y < NumNodes(u) ==> MarkOk(u.sampleIndexMap, kids, m2, y))
    && (forall y :: 0 <= y < NumNodes(u) && m2[y] != u.aboveSample[y] ==>
          u.aboveSample[y] == 0 && m2[y] == 1 && rank[p] <= rank[y] && (u.parents[y] != NULL || (!above && y == root)))
    && (!above ==> u.aboveSample[root] == 0 && m2[root] == 1 && u.parents[root] == NULL)
  }

  /** When the climb meets a node already above a sample, c just leaves the root list. */
  lemma IncomingAboveRebuilt(u: Tree, rank: seq<nat>, kids: seq<seq<int>>, l: seq<int>, p: int, c: int, i: nat, lsib: int, rsib: int,
                             m2: seq<int>, root: int) returns (l2: seq<int>)
    requires IncomingFrom(u, rank, kids, l, p, c, i, lsib, rsib) && u.aboveSample[c] == 1
    requires ClimbedIn(u, rank, kids, p, m2, true, root)
    ensures Tracked(RootDropped(u.(aboveSample := m2), lsib, rsib), rank, kids, l2)
  {
    var u1 := u.(aboveSample := m2);
    var r := RootDropped(u1, lsib, rsib);
    DroppedRoots(u1, l, i, lsib, rsib);
    DroppedKept(u1, l, i, lsib, rsib);
    StructuredKept(u1, r, kids);
    WithoutMembers(l, i);
    l2 := Without(l, i);
    assert LinksOf(r) == LinksOf(u);
    forall x | 0 <= x < NumNodes(r) ensures x in l2 <==> r.parents[x] == NULL && r.aboveSample[x] == 1 {
      if r.parents[x] == NULL {
        assert m2[x] == u.aboveSample[x];
      }
    }
  }

  /** A list without repeats with its entry at i replaced by a newcomer. */
  lemma ReplacedMembers(l: seq<int>, i: nat, root: int)
    requires i < |l| && Distinct(l)
    ensures forall x :: x in l[i := root] <==> x == root || (x in l && x != l[i])
  {
    assert l[i := root][i] == root;
    forall x | x in l && x != l[i] ensures x in l[i := root] {
      var q :| 0 <= q < |l| && l[q] == x;
      assert l[i := root][q] == x;
    }
    forall x | x in l[i := root] && x != root ensures x in l && x != l[i] {
      var q :| 0 <= q < |l| && l[i := root][q] == x;
      assert q != i && l[q] == x;
    }
  }

  /** When the climb runs off the top, the root it reached takes c's place in the root list. */
  lemma IncomingTopRebuilt(u: Tree, rank: seq<nat>, kids: seq<seq<int>>, l: seq<int>, p: int, c: int, i: nat, lsib: int, rsib: int,
                           m2: seq<int>, root: int) returns (l2: seq<int>)
    requires IncomingFrom(u, rank, kids, l, p, c, i, lsib, rsib) && u.aboveSample[c] == 1
    requires ClimbedIn(u, rank, kids, p, m2, false, root)
    ensures Tracked(RootReplaced(u.(aboveSample := m2), lsib, rsib, root), rank, kids, l2)
  {
    var u1 := u.(aboveSample := m2);
    assert root != c && root !in l;
    var r := RootReplaced(u1, lsib, rsib, root);
    ReplacedRoots(u1, l, i, lsib, rsib, root);
    ReplacedKept(u1, l, i, lsib, rsib, root);
    StructuredKept(u1, r, kids);
    ReplacedMembers(l, i, root);
    l2 := l[i := root];
    assert LinksOf(r) == LinksOf(u);
    forall x | 0 <= x < NumNodes(r) ensures x in l2 <==> r.parents[x] == NULL && r.aboveSample[x] == 1 {
      if r.parents[x] == NULL && x != root {
        assert m2[x] == u.aboveSample[x];
      }
    }
  }

  /** The incoming climb, for a c above a sample. */
  lemma IncomingClimbed(u: Tree, rank: seq<nat>, kids: seq<seq<int>>, l: seq<int>, p: int, c: int, i: nat, lsib: int, rsib: int)
    returns (l2: seq<int>)
    requires IncomingFrom(u, rank, kids, l, p, c, i, lsib, rsib) && u.aboveSample[c] == 1
    requires RootsIncoming(u, p, c, lsib, rsib).Ok?
    ensures Tracked(RootsIncoming(u, p, c, lsib, rsib).value, rank, kids, l2)
  {
    var n := NumNodes(u);
    assert c in kids[p];
    var q :| 0 <= q < |kids[p]| && kids[p][q] == c;
    assert u.aboveSample[kids[p][q]] != 0;
    ClimbInParents(u, u.aboveSample, p, p, n);
    ClimbInMarks(u.parents, u.sampleIndexMap, rank, kids, u.aboveSample, p, p, n);
    var cl := ClimbIn(u, u.aboveSample, p, p, n).value;
    assert ClimbedIn(u, rank, kids, p, cl.aboveSample, cl.above, cl.root);
    if cl.above {
      l2 := IncomingAboveRebuilt(u, rank, kids, l, p, c, i, lsib, rsib, cl.aboveSample, cl.root);
    } else {
      l2 := IncomingTopRebuilt(u, rank, kids, l, p, c, i, lsib, rsib, cl.aboveSample, cl.root);
    }
  }

  /** update_roots_incoming after step T2 leaves the tree tracked again, with a root list l2. */
  lemma RootsIncomingTracked(u: Tree, rank: seq<nat>, kids: seq<seq<int>>, l: seq<int>, p: int, c: int, i: nat, lsib: int, rsib: int)
    returns (l2: seq<int>)
    requires IncomingFrom(u, rank, kids, l, p, c, i, lsib, rsib) && RootsIncoming(u, p, c, lsib, rsib).Ok?
    ensures Tracked(RootsIncoming(u, p, c, lsib, rsib).value, rank, kids, l2)
  {
    assert MarkOk(u.sampleIndexMap, kids, u.aboveSample, c);
    if u.aboveSample[c] == 0 {
      l2 := l;
    } else {
      l2 := IncomingClimbed(u, rank, kids, l, p, c, i, lsib, rsib);
    }
  }

  // ---------------------------------------------------------------------
  // One edge leaving or entering the tree

  /** Step T4 keeps the child lists, with c gone from p's. */
  lemma DetachedStructured(t: Tree, kids: seq<seq<int>>, p: int, c: int, i: nat)
    requires Shaped(t) && LinksInRange(t) && Structured(t, kids) && 0 <= p < NumNodes(t) && 0 <= c < NumNodes(t)
    requires t.parents[c] == p && i < |kids[p]| && kids[p][i] == c
    ensures Structured(Detached(t, p, c), kids[p := Without(kids[p], i)])
  {
    assert ChildrenAre(t, p, kids[p]);
    KidsDropped(t.parents, kids, p, c, i);
    DetachedThreaded(t, kids, p, c, i);
    assert Detached(t, p, c).parents == t.parents[c := NULL];
  }

  /** Step T4 keeps the root list, which c is not in. */
  lemma DetachedRootsKept(t: Tree, kids: seq<seq<int>>, l: seq<int>, p: int, c: int, i: nat)
    requires Shaped(t) && LinksInRange(t) && Structured(t, kids) && RootsAre(t, l) && 0 <= p < NumNodes(t) && 0 <= c < NumNodes(t)
    requires t.parents[c] == p && i < |kids[p]| && kids[p][i] == c
    ensures RootsAre(Detached(t, p, c), l) && c !in l
  {
    assert ChildrenAre(t, p, kids[p]);
    KidsApart(t.parents, kids, NULL, p, l);
    DetachedFrame(t, p, c, kids[p], i, l);
    assert Detached(t, p, c).parents == t.parents[c := NULL];
  }

  /** Dropping c from kids[p] keeps every node but p described, and p too when c was not marked. */
  lemma DroppedMarks(sim: seq<int>, kids: seq<seq<int>>, marks: seq<int>, p: int, i: nat, kids1: seq<seq<int>>)
    requires KidsBelow(kids, |marks|) && |sim| == |marks| && 0 <= p < |marks| && i < |kids[p]|
    requires forall y :: 0 <= y < |marks| ==> MarkOk(sim, kids, marks, y)
    requires kids1 == kids[p := Without(kids[p], i)]
    ensures KidsBelow(kids1, |marks|)
    ensures forall y :: 0 <= y < |marks| && y != p ==> MarkOk(sim, kids1, marks, y)
    ensures marks[kids[p][i]] == 1 ==> marks[p] == 1
    ensures marks[kids[p][i]] != 1 ==> MarkOk(sim, kids1, marks, p)
  {
    forall y | 0 <= y < |marks| && y != p ensures MarkOk(sim, kids1, marks, y) {
      assert MarkOk(sim, kids, marks, y) && kids1[y] == kids[y];
    }
    assert MarkOk(sim, kids, marks, p) && MarkOk(sim, kids, marks, kids[p][i]);
    if marks[kids[p][i]] != 1 {
      MarkedWithout(marks, kids[p], i);
    }
  }

  /** Appending c to kids[p] keeps every node but p described, and p too when c is not marked. */
  lemma AppendedMarks(sim: seq<int>, kids: seq<seq<int>>, marks: seq<int>, p: int, c: int, kids1: seq<seq<int>>)
    requires KidsBelow(kids, |marks|) && |sim| == |marks| && 0 <= p < |marks| && 0 <= c < |marks|
    requires forall y :: 0 <= y < |marks| ==> MarkOk(sim, kids, marks, y)
    requires kids1 == kids[p := kids[p] + [c]]
    ensures KidsBelow(kids1, |marks|)
    ensures forall y :: 0 <= y < |marks| && y != p ==> MarkOk(sim, kids1, marks, y)
    ensures (marks[p] == 0 || marks[p] == 1) && (marks[c] == 0 || marks[c] == 1)
    ensures marks[c] != 1 ==> MarkOk(sim, kids1, marks, p)
  {
    MarkedAppended(marks, kids[p], c);
    forall y | 0 <= y < |marks| && y != p ensures MarkOk(sim, kids1, marks, y) {
      assert MarkOk(sim, kids, marks, y) && kids1[y] == kids[y];
    }
    assert MarkOk(sim, kids, marks, p) && MarkOk(sim, kids, marks, c);
  }

  /** Cutting a parent link keeps the rank. */
  lemma RankedDropped(parents: seq<int>, rank: seq<nat>, c: int)
    requires Ranked(parents, rank) && 0 <= c < |parents|
    ensures Ranked(parents[c := NULL], rank)
  {
  }

  /** A new parent link to a node of higher rank keeps the rank. */
  lemma RankedAdded(parents: seq<int>, rank: seq<nat>, p: int, c: int)
    requires Ranked(parents, rank) && 0 <= p < |parents| && 0 <= c < |parents| && rank[c] < rank[p]
    ensures Ranked(parents[c := p], rank)
  {
  }

  /** Changing neither the sample lists nor the range of the links keeps a tree ready. */
  lemma ReadyKept(t: Tree, r: Tree)
    requires Ready(t) && Shaped(r) && LinksInRange(r) && LinksOf(r) == LinksOf(t)
    ensures Ready(r)
  {
  }

  /** OutgoingFrom, conjunct by conjunct. */
  lemma OutgoingFromParts(u: Tree, rank: seq<nat>, kids: seq<seq<int>>, l: seq<int>, p: int, c: int)
    requires Ready(u) && Ranked(u.parents, rank) && Structured(u, kids) && RootsAre(u, l)
    requires 0 <= p < NumNodes(u) && 0 <= c < NumNodes(u) && rank[c] < rank[p]
    requires u.parents[c] == NULL && c !in l && u.leftSib[c] == NULL
    requires forall y :: 0 <= y < NumNodes(u) && y != p ==> MarkOk(u.sampleIndexMap, kids, u.aboveSample, y)
    requires u.aboveSample[c] == 1 ==> u.aboveSample[p] == 1
    requires u.aboveSample[c] != 1 ==> MarkOk(u.sampleIndexMap, kids, u.aboveSample, p)
    requires forall x :: 0 <= x < NumNodes(u) && x != c ==> (x in l <==> u.parents[x] == NULL && u.aboveSample[x] == 1)
    ensures OutgoingFrom(u, rank, kids, l, p, c)
  {
  }

  /** Step T4 on a tracked tree, for an edge (p, c) of the tree, reaches the state update_roots_outgoing starts from. */
  lemma DetachedFrom(t: Tree, rank: seq<nat>, kids: seq<seq<int>>, l: seq<int>, p: int, c: int, i: nat)
    requires Tracked(t, rank, kids, l) && 0 <= p < NumNodes(t) && 0 <= c < NumNodes(t) && t.parents[c] == p
    requires i < |kids[p]| && kids[p][i] == c
    ensures OutgoingFrom(Detached(t, p, c), rank, kids[p := Without(kids[p], i)], l, p, c)
  {
    var t1 := Detached(t, p, c);
    DetachedStructured(t, kids, p, c, i);
    DetachedRootsKept(t, kids, l, p, c, i);
    DetachedThreaded(t, kids, p, c, i);
    var kids1 := kids[p := Without(kids[p], i)];
    DroppedMarks(t.sampleIndexMap, kids, t.aboveSample, p, i, kids1);
    assert t1.parents == t.parents[c := NULL] && t1.aboveSample == t.aboveSample && t1.sampleIndexMap == t.sampleIndexMap;
    RankedDropped(t.parents, rank, c);
    ReadyKept(t, t1);
    OutgoingFromParts(t1, rank, kids1, l, p, c);
  }

  /** Step T2 keeps the child lists, with c appended to p's. */
  lemma AttachedStructured(t: Tree, kids: seq<seq<int>>, p: int, c: int)
    requires Shaped(t) && LinksInRange(t) && Structured(t, kids) && 0 <= p < NumNodes(t) && 0 <= c < NumNodes(t)
    requires t.parents[c] == NULL
    ensures Structured(Attached(t, p, c), kids[p := kids[p] + [c]])
  {
    KidsAppended(t.parents, kids, p, c);
    AttachedThreaded(t, kids, p, c);
    assert Attached(t, p, c).parents == t.parents[c := p];
  }

  /** Step T2 keeps the root list threaded, but for c's own links when c is in it. */
  lemma AttachedRootsKept(t: Tree, kids: seq<seq<int>>, l: seq<int>, p: int, c: int, i: nat)
    requires Shaped(t) && LinksInRange(t) && Structured(t, kids) && RootsAre(t, l) && 0 <= p < NumNodes(t) && 0 <= c < NumNodes(t)
    requires t.parents[c] == NULL && (c in l ==> i < |l| && l[i] == c)
    ensures c !in l ==> RootsAre(Attached(t, p, c), l)
    ensures c in l ==> ThreadedExcept(Attached(t, p, c).leftSib, Attached(t, p, c).rightSib, l, i)
                       && t.leftSib[c] == Before(l, i) && t.rightSib[c] == After(l, i)
                       && forall q :: 0 <= q < |l| && q != i ==> Attached(t, p, c).parents[l[q]] == NULL
  {
    var t1 := Attached(t, p, c);
    assert ChildrenAre(t, p, kids[p]);
    KidsApart(t.parents, kids, NULL, p, l);
    assert t1.parents == t.parents[c := p];
    if c in l {
      AttachedFrame(t, p, c, kids[p], l, i);
      assert t.leftSib[l[i]] == Before(l, i) && t.rightSib[l[i]] == After(l, i);
    } else {
      AttachedAway(t, p, c, kids[p], l);
    }
  }

  /** IncomingFrom, conjunct by conjunct. */
  lemma IncomingFromParts(u: Tree, rank: seq<nat>, kids: seq<seq<int>>, l: seq<int>, p: int, c: int, i: nat, lsib: int, rsib: int)
    requires Ready(u) && Ranked(u.parents, rank) && Structured(u, kids)
    requires 0 <= p < NumNodes(u) && 0 <= c < NumNodes(u) && rank[c] < rank[p] && u.parents[c] == p
    requires Link(lsib, NumNodes(u)) && Link(rsib, NumNodes(u))
    requires forall y :: 0 <= y < NumNodes(u) && y != p ==> MarkOk(u.sampleIndexMap, kids, u.aboveSample, y)
    requires u.aboveSample[p] == 0 || u.aboveSample[p] == 1
    requires u.aboveSample[c] != 1 ==> MarkOk(u.sampleIndexMap, kids, u.aboveSample, p) && RootsAre(u, l) && c !in l
    requires u.aboveSample[c] == 1 ==>
          i < |l| && l[i] == c && ThreadedExcept(u.leftSib, u.rightSib, l, i) && lsib == Before(l, i) && rsib == After(l, i)
          && forall q :: 0 <= q < |l| && q != i ==> u.parents[l[q]] == NULL
    requires forall x :: 0 <= x < NumNodes(u) && x != c ==> (x in l <==> u.parents[x] == NULL && u.aboveSample[x] == 1)
    ensures IncomingFrom(u, rank, kids, l, p, c, i, lsib, rsib)
  {
  }

  /** Step T2 on a tracked tree, for a c without a parent, reaches the state update_roots_incoming starts from. */
  lemma AttachedFrom(t: Tree, rank: seq<nat>, kids: seq<seq<int>>, l: seq<int>, p: int, c: int, i: nat)
    requires Tracked(t, rank, kids, l) && 0 <= p < NumNodes(t) && 0 <= c < NumNodes(t) && t.parents[c] == NULL
    requires rank[c] < rank[p] && (t.aboveSample[c] == 1 ==> i < |l| && l[i] == c)
    ensures IncomingFrom(Attached(t, p, c), rank, kids[p := kids[p] + [c]], l, p, c, i, t.leftSib[c], t.rightSib[c])
  {
    var t1 := Attached(t, p, c);
    AttachedStructured(t, kids, p, c);
    AttachedRootsKept(t, kids, l, p, c, i);
    var kids1 := kids[p := kids[p] + [c]];
    AppendedMarks(t.sampleIndexMap, kids, t.aboveSample, p, c, kids1);
    assert t1.parents == t.parents[c := p] && t1.aboveSample == t.aboveSample && t1.sampleIndexMap == t.sampleIndexMap;
    RankedAdded(t.parents, rank, p, c);
    ReadyKept(t, t1);
    assert c in l <==> t.aboveSample[c] == 1;
    IncomingFromParts(t1, rank, kids1, l, p, c, i, t.leftSib[c], t.rightSib[c]);
  }

  /** r differs from u at most in the leaf counts and the sample lists. */
  predicate CountsAndSamples(r: Tree, u: Tree)
  {
    r == u.(leafCounts := r.leafCounts, preservedLeafCounts := r.preservedLeafCounts,
            leftSample := r.leftSample, rightSample := r.rightSample, nextSample := r.nextSample)
  }

  /** The leaf counts and the sample lists play no part in the state update_roots_outgoing starts from. */
  lemma OutgoingFromKept(u: Tree, r: Tree, rank: seq<nat>, kids: seq<seq<int>>, l: seq<int>, p: int, c: int)
    requires OutgoingFrom(u, rank, kids, l, p, c) && Ready(r) && CountsAndSamples(r, u)
    ensures OutgoingFrom(r, rank, kids, l, p, c)
  {
    StructuredKept(u, r, kids);
    OutgoingFromParts(r, rank, kids, l, p, c);
  }

  /** ... nor in the state update_roots_incoming starts from. */
  lemma IncomingFromKept(u: Tree, r: Tree, rank: seq<nat>, kids: seq<seq<int>>, l: seq<int>, p: int, c: int, i: nat, lsib: int, rsib: int)
    requires IncomingFrom(u, rank, kids, l, p, c, i, lsib, rsib) && Ready(r) && CountsAndSamples(r, u)
    ensures IncomingFrom(r, rank, kids, l, p, c, i, lsib, rsib)
  {
    StructuredKept(u, r, kids);
    IncomingFromParts(r, rank, kids, l, p, c, i, lsib, rsib);
  }

  /** The leaf count and sample list updates between the link edits and the root update. */
  lemma CountsAndSamplesBetween(t1: Tree, t2: Tree, t3: Tree)
    requires OnlyCounts(t2, t1) && (t3 == t2 || t3 == WithLinks(t2, LinksOf(t3)))
    ensures CountsAndSamples(t3, t1)
  {
  }

  /** The root update after the link edits, the leaf counts and the sample lists of step T4. */
  lemma OutgoingThrough(t1: Tree, t3: Tree, rank: seq<nat>, kids: seq<seq<int>>, l: seq<int>, p: int, c: int)
    returns (l2: seq<int>)
    requires OutgoingFrom(t1, rank, kids, l, p, c) && Ready(t3) && CountsAndSamples(t3, t1)
    requires RootsOutgoing(t3, p, c).Ok?
    ensures Tracked(RootsOutgoing(t3, p, c).value, rank, kids, l2)
  {
    OutgoingFromKept(t1, t3, rank, kids, l, p, c);
    l2 := RootsOutgoingTracked(t3, rank, kids, l, p, c);
  }

  /** The root update after the link edits, the leaf counts and the sample lists of step T2. */
  lemma IncomingThrough(t1: Tree, t3: Tree, rank: seq<nat>, kids: seq<seq<int>>, l: seq<int>, p: int, c: int, i: nat, lsib: int, rsib: int)
    returns (l2: seq<int>)
    requires IncomingFrom(t1, rank, kids, l, p, c, i, lsib, rsib) && Ready(t3) && CountsAndSamples(t3, t1)
    requires RootsIncoming(t3, p, c, lsib, rsib).Ok?
    ensures Tracked(RootsIncoming(t3, p, c, lsib, rsib).value, rank, kids, l2)
  {
    IncomingFromKept(t1, t3, rank, kids, l, p, c, i, lsib, rsib);
    l2 := RootsIncomingTracked(t3, rank, kids, l, p, c, i, lsib, rsib);
  }

  /**
   * Step T4 and its updates, for an edge (p, c) of a tracked tree, leave
   * the tree tracked, with c gone from p's child list.
   */
  lemma RemovedTracked(t: Tree, rank: seq<nat>, kids: seq<seq<int>>, l: seq<int>, p: int, c: int, advancing: bool)
    returns (kids2: seq<seq<int>>, l2: seq<int>)
    requires Tracked(t, rank, kids, l) && 0 <= p < NumNodes(t) && 0 <= c < NumNodes(t) && t.parents[c] == p
    requires Removed(t, p, c, advancing).Ok?
    ensures Tracked(Removed(t, p, c, advancing).value, rank, kids2, l2)
  {
    assert c in kids[p];
    var i :| 0 <= i < |kids[p]| && kids[p][i] == c;
    kids2 := kids[p := Without(kids[p], i)];
    DetachedFrom(t, rank, kids, l, p, c, i);
    var t3 := RemovedStages(t, p, c, advancing);
    l2 := OutgoingThrough(Detached(t, p, c), t3, rank, kids2, l, p, c);
  }

  /** The tree step T4 hands to update_roots_outgoing differs from the detached one only in counts and sample lists. */
  lemma RemovedStages(t: Tree, p: int, c: int, advancing: bool) returns (t3: Tree)
    requires Ready(t) && 0 <= p < NumNodes(t) && 0 <= c < NumNodes(t) && Removed(t, p, c, advancing).Ok?
    ensures Ready(t3) && CountsAndSamples(t3, Detached(t, p, c))
    ensures RootsOutgoing(t3, p, c) == Removed(t, p, c, advancing)
  {
    var t1 := Detached(t, p, c);
    var t2 := LeafCountsMoved(t1, p, c, -1);
    LeafCountsMovedOnlyCounts(t1, p, c, -1);
    t3 := if advancing then SamplesUpdated(t2, p).value else t2;
    CountsAndSamplesBetween(t1, t2, t3);
  }

  /** The tree step T2 hands to update_roots_incoming differs from the attached one only in counts and sample lists. */
  lemma AddedStages(t: Tree, p: int, c: int, advancing: bool) returns (t3: Tree)
    requires Ready(t) && 0 <= p < NumNodes(t) && 0 <= c < NumNodes(t) && Added(t, p, c, advancing).Ok?
    ensures Ready(t3) && CountsAndSamples(t3, Attached(t, p, c))
    ensures RootsIncoming(t3, p, c, t.leftSib[c], t.rightSib[c]) == Added(t, p, c, advancing)
  {
    var t1 := Attached(t, p, c);
    var t2 := LeafCountsMoved(t1, p, c, 1);
    LeafCountsMovedOnlyCounts(t1, p, c, 1);
    t3 := if advancing then SamplesUpdated(t2, p).value else t2;
    CountsAndSamplesBetween(t1, t2, t3);
  }

  /**
   * Step T2 and its updates, for an edge (p, c) whose child has no parent
   * and a lower rank, leave the tree tracked, with c appended to p's
   * child list.
   */
  lemma AddedTracked(t: Tree, rank: seq<nat>, kids: seq<seq<int>>, l: seq<int>, p: int, c: int, advancing: bool)
    returns (kids2: seq<seq<int>>, l2: seq<int>)
    requires Tracked(t, rank, kids, l) && 0 <= p < NumNodes(t) && 0 <= c < NumNodes(t) && t.parents[c] == NULL
    requires rank[c] < rank[p] && Added(t, p, c, advancing).Ok?
    ensures Tracked(Added(t, p, c, advancing).value, rank, kids2, l2)
  {
    var i := 0;
    if t.aboveSample[c] == 1 {
      assert c in l;
      i :| 0 <= i < |l| && l[i] == c;
    }
    kids2 := kids[p := kids[p] + [c]];
    AttachedFrom(t, rank, kids, l, p, c, i);
    var t3 := AddedStages(t, p, c, advancing);
    l2 := IncomingThrough(Attached(t, p, c), t3, rank, kids2, l, p, c, i, t.leftSib[c], t.rightSib[c]);
  }

  // ---------------------------------------------------------------------
  // Whole sweeps and whole calls of operator()

  /**
   * Each edge the outgoing sweep removes is in the tree when it leaves:
   * its child's parent is its parent.
   */
  predicate OutgoingFits(t: Tree, lane: seq<Edge>, k: nat, x: real, advancing: bool)
    requires Ready(t) && EdgesWithin(lane, NumNodes(t)) && k <= |lane|
    decreases |lane| - k
  {
    k < |lane| && lane[k].right == x ==>
      t.parents[lane[k].child] == lane[k].parent
      && var r := Removed(t, lane[k].parent, lane[k].child, advancing);
         r.Ok? ==> OutgoingFits(r.value, lane, k + 1, x, advancing)
  }

  /** Each edge the incoming sweep adds finds its child without a parent. */
  predicate IncomingFits(t: Tree, lane: seq<Edge>, j: nat, x: real, advancing: bool)
    requires Ready(t) && EdgesWithin(lane, NumNodes(t)) && j <= |lane|
    decreases |lane| - j
  {
    j < |lane| && lane[j].left == x ==>
      t.parents[lane[j].child] == NULL
      && var r := Added(t, lane[j].parent, lane[j].child, advancing);
         r.Ok? ==> IncomingFits(r.value, lane, j + 1, x, advancing)
  }

  /** Every edge that can enter the tree joins a child to a parent of higher rank. */
  predicate EdgesRanked(lane: seq<Edge>, rank: seq<nat>)
  {
    forall q :: 0 <= q < |lane| && 0 <= lane[q].parent < |rank| && 0 <= lane[q].child < |rank| ==>
      rank[lane[q].child] < rank[lane[q].parent]
  }

  /** The outgoing sweep keeps the tree tracked. */
  lemma {:induction false} OutgoingTracked(t: Tree, rank: seq<nat>, kids: seq<seq<int>>, l: seq<int>, lane: seq<Edge>, k: nat, x: real, advancing: bool)
    returns (kids2: seq<seq<int>>, l2: seq<int>)
    requires Tracked(t, rank, kids, l) && EdgesWithin(lane, NumNodes(t)) && k <= |lane|
    requires OutgoingFits(t, lane, k, x, advancing) && Outgoing(t, lane, k, x, advancing).Ok?
    ensures Tracked(Outgoing(t, lane, k, x, advancing).value.tree, rank, kids2, l2)
    decreases |lane| - k
  {
    if k < |lane| && lane[k].right == x {
      var p, c := lane[k].parent, lane[k].child;
      assert Outgoing(t, lane, k, x, advancing) == OutgoingEdge(t, lane, k, x, advancing);
      var kids1, l1 := RemovedTracked(t, rank, kids, l, p, c, advancing);
      kids2, l2 := OutgoingTracked(Removed(t, p, c, advancing).value, rank, kids1, l1, lane, k + 1, x, advancing);
    } else {
      kids2, l2 := kids, l;
    }
  }

  /** The incoming sweep keeps the tree tracked, when every edge it may add is ranked. */
  lemma {:induction false} IncomingTracked(t: Tree, rank: seq<nat>, kids: seq<seq<int>>, l: seq<int>, lane: seq<Edge>, j: nat, x: real, advancing: bool)
    returns (kids2: seq<seq<int>>, l2: seq<int>)
    requires Tracked(t, rank, kids, l) && EdgesWithin(lane, NumNodes(t)) && j <= |lane| && EdgesRanked(lane, rank)
    requires IncomingFits(t, lane, j, x, advancing) && Incoming(t, lane, j, x, advancing).Ok?
    ensures Tracked(Incoming(t, lane, j, x, advancing).value.tree, rank, kids2, l2)
    decreases |lane| - j
  {
    if j < |lane| && lane[j].left == x {
      var p, c := lane[j].parent, lane[j].child;
      assert Incoming(t, lane, j, x, advancing) == IncomingEdge(t, lane, j, x, advancing);
      var kids1, l1 := AddedTracked(t, rank, kids, l, p, c, advancing);
      kids2, l2 := IncomingTracked(Added(t, p, c, advancing).value, rank, kids1, l1, lane, j + 1, x, advancing);
    } else {
      kids2, l2 := kids, l;
    }
  }

  /** Both sweeps of a call that does them find their edges as OutgoingFits and IncomingFits say. */
  predicate StepFits(t: Tree, ins: seq<Edge>, outs: seq<Edge>, at: Position, maxpos: real, advancing: bool)
    requires Ready(t) && EdgesWithin(ins, NumNodes(t)) && EdgesWithin(outs, NumNodes(t))
    requires at.j <= |ins| && at.k <= |outs|
  {
    (at.j < |ins| || at.x < maxpos) ==>
      OutgoingFits(t, outs, at.k, at.x, advancing)
      && var out := Outgoing(t, outs, at.k, at.x, advancing);
         out.Ok? ==> IncomingFits(out.value.tree, ins, at.j, at.x, advancing)
  }

  /** Moving left_root to the first root and recording the interval keep the tree tracked, and make it visible. */
  lemma VisibleMoved(u: Tree, r: Tree, rank: seq<nat>, kids: seq<seq<int>>, l: seq<int>)
    requires Tracked(u, rank, kids, l) && r == u.(leftRoot := First(l), left := r.left, right := r.right)
    ensures Visible(r, rank, kids, l) && RootList(r) == RootList(u.(leftRoot := First(l)))
  {
    ReadyKept(u, r);
    StructuredKept(u, r, kids);
  }

  /**
   * A call of operator() keeps the tree visible: afterwards the root list
   * holds exactly the nodes without a parent that are above a sample, and
   * the root iterator, starting from left_root, walks the whole of it.
   */
  lemma StepVisible(t: Tree, rank: seq<nat>, kids: seq<seq<int>>, l: seq<int>,
                    ins: seq<Edge>, outs: seq<Edge>, at: Position, maxpos: real, advancing: bool)
    returns (kids2: seq<seq<int>>, l2: seq<int>)
    requires Visible(t, rank, kids, l) && EdgesWithin(ins, NumNodes(t)) && EdgesWithin(outs, NumNodes(t))
    requires at.j <= |ins| && at.k <= |outs| && EdgesRanked(ins, rank)
    requires StepFits(t, ins, outs, at, maxpos, advancing) && Step(t, ins, outs, at, maxpos, advancing).Ok?
    ensures Visible(Step(t, ins, outs, at, maxpos, advancing).value.tree, rank, kids2, l2)
    ensures RootList(Step(t, ins, outs, at, maxpos, advancing).value.tree) == Chain(l2, AtEnd)
  {
    if !(at.j < |ins| || at.x < maxpos) {
      kids2, l2 := kids, l;
      LeftRootFixedLeftmost(t, l);
    } else {
      var out := Outgoing(t, outs, at.k, at.x, advancing);
      assert out.Ok?;
      var kids1, l1 := OutgoingTracked(t, rank, kids, l, outs, at.k, at.x, advancing);
      var inc := Incoming(out.value.tree, ins, at.j, at.x, advancing);
      assert inc.Ok?;
      kids2, l2 := IncomingTracked(out.value.tree, rank, kids1, l1, ins, at.j, at.x, advancing);
      var u := inc.value.tree;
      LeftRootFixedLeftmost(u, l2);
      var right := NextBreak(ins, outs, inc.value.next, out.value.next, maxpos);
      var r := u.(leftRoot := First(l2), left := Finite(at.x), right := Finite(right));
      assert Step(t, ins, outs, at, maxpos, advancing).value.tree == r;
      VisibleMoved(u, r, rank, kids2, l2);
    }
  }

  /**
   * The tree the constructors build is visible, with no child lists and
   * the samples as its roots, for any rank: it has no edges yet.
   */
  lemma ConstructedVisible(t: Tree, nnodes: nat, list: seq<int>, preserved: seq<int>, rank: seq<nat>)
    requires Constructed(t, nnodes, list, preserved) && |rank| == nnodes
    ensures Visible(t, rank, seq(nnodes, _ => []), list)
  {
    ConstructedReady(t, nnodes, list, preserved);
    var kids: seq<seq<int>> := seq(nnodes, _ => []);
    ConstructedMarks(t, nnodes, list, preserved, kids);
    forall x | 0 <= x < nnodes ensures ChildrenAre(t, x, kids[x]) {
    }
    ConstructedRootsExactly(t, nnodes, list, preserved);
  }

  /** A sample is marked and every other node is not; no node has a child. */
  lemma ConstructedMarks(t: Tree, nnodes: nat, list: seq<int>, preserved: seq<int>, kids: seq<seq<int>>)
    requires Constructed(t, nnodes, list, preserved) && kids == seq(nnodes, _ => [])
    ensures AboveCorrect(t, kids)
  {
    assert SamplesInitialized(t, list, |list|);
    assert list[..|list|] == list;
    forall y | 0 <= y < nnodes ensures MarkOk(t.sampleIndexMap, kids, t.aboveSample, y) {
      assert !Marked(t.aboveSample, kids[y], 0);
      if y in list {
        var j :| 0 <= j < |list| && list[j] == y;
      }
    }
  }

  /** The samples are the nodes without a parent that are above a sample. */
  lemma ConstructedRootsExactly(t: Tree, nnodes: nat, list: seq<int>, preserved: seq<int>)
    requires Constructed(t, nnodes, list, preserved)
    ensures forall x :: 0 <= x < nnodes ==> (x in list <==> t.parents[x] == NULL && t.aboveSample[x] == 1)
  {
    assert SamplesInitialized(t, list, |list|);
    assert list[..|list|] == list;
    forall x | 0 <= x < nnodes ensures x in list <==> t.parents[x] == NULL && t.aboveSample[x] == 1 {
      if x in list {
        var j :| 0 <= j < |list| && list[j] == x;
      }
    }
  }

  // ---------------------------------------------------------------------
  // above_sample, read as a statement about the parent links

  /** The node k steps up from s along the parent links, or NULL once the walk leaves the tree. */
  function Up(parents: seq<int>, s: int, k: nat): int
    decreases k
  {
    if k == 0 then s
    else if 0 <= s < |parents| && parents[s] != NULL then Up(parents, parents[s], k - 1)
    else NULL
  }

  /** y is at or above a sample: some sample reaches y along the parent links. */
  ghost predicate AboveASample(parents: seq<int>, sim: seq<int>, y: int)
  {
    exists s: int, k: nat :: 0 <= s < |sim| && sim[s] != NULL && Up(parents, s, k) == y
  }

  /** One step further up from a node inside the tree. */
  lemma {:induction false} UpNext(parents: seq<int>, s: int, k: nat)
    requires 0 <= Up(parents, s, k) < |parents| && parents[Up(parents, s, k)] != NULL
    ensures Up(parents, s, k + 1) == parents[Up(parents, s, k)]
    decreases k
  {
    if k > 0 {
      UpNext(parents, parents[s], k - 1);
    }
  }

  /** The step before the last: a walk of k > 0 steps that ends inside the tree ends at a parent. */
  lemma {:induction false} UpLast(parents: seq<int>, s: int, k: nat)
    requires k > 0 && Up(parents, s, k) != NULL
    ensures 0 <= Up(parents, s, k - 1) < |parents| && parents[Up(parents, s, k - 1)] == Up(parents, s, k)
    decreases k
  {
    if k > 1 {
      UpLast(parents, parents[s], k - 1);
    }
  }

  /** A marked node is above a sample; induction on the rank. */
  lemma {:induction false} MarkedAbove(parents: seq<int>, sim: seq<int>, rank: seq<nat>, kids: seq<seq<int>>, marks: seq<int>, y: int)
    requires KidsBelow(kids, |parents|) && KidsOf(parents, kids) && Ranked(parents, rank)
    requires |sim| == |parents| && |marks| == |parents| && 0 <= y < |parents| && marks[y] == 1
    requires forall x :: 0 <= x < |parents| ==> MarkOk(sim, kids, marks, x)
    ensures AboveASample(parents, sim, y)
    decreases rank[y]
  {
    assert MarkOk(sim, kids, marks, y);
    if sim[y] != NULL {
      assert Up(parents, y, 0) == y;
    } else {
      var q :| 0 <= q < |kids[y]| && marks[kids[y][q]] != 0;
      var x := kids[y][q];
      assert parents[x] == y;
      assert MarkOk(sim, kids, marks, x);
      MarkedAbove(parents, sim, rank, kids, marks, x);
      var s: int, k: nat :| 0 <= s < |sim| && sim[s] != NULL && Up(parents, s, k) == x;
      UpNext(parents, s, k);
    }
  }

  /** A node a sample reaches is marked; induction on the length of the walk. */
  lemma {:induction false} AboveMarked(parents: seq<int>, sim: seq<int>, kids: seq<seq<int>>, marks: seq<int>, s: int, k: nat)
    requires KidsBelow(kids, |parents|) && ParentsListed(parents, kids)
    requires |sim| == |parents| && |marks| == |parents| && 0 <= s < |sim| && sim[s] != NULL
    requires forall x :: 0 <= x < |parents| ==> MarkOk(sim, kids, marks, x)
    requires 0 <= Up(parents, s, k) < |parents|
    ensures marks[Up(parents, s, k)] == 1
  {
    var y := Up(parents, s, k);
    assert MarkOk(sim, kids, marks, y);
    if k > 0 {
      UpLast(parents, s, k);
      var x := Up(parents, s, k - 1);
      AboveMarked(parents, sim, kids, marks, s, k - 1);
      assert x in kids[y];
      var q :| 0 <= q < |kids[y]| && kids[y][q] == x;
      assert marks[kids[y][q]] != 0;
    }
  }

  /** Under Tracked, above_sample marks exactly the nodes at or above a sample. */
  lemma AboveExactly(t: Tree, rank: seq<nat>, kids: seq<seq<int>>, l: seq<int>, y: int)
    requires Tracked(t, rank, kids, l) && 0 <= y < NumNodes(t)
    ensures t.aboveSample[y] == 1 <==> AboveASample(t.parents, t.sampleIndexMap, y)
  {
    if t.aboveSample[y] == 1 {
      MarkedAbove(t.parents, t.sampleIndexMap, rank, kids, t.aboveSample, y);
    }
    if AboveASample(t.parents, t.sampleIndexMap, y) {
      var s: int, k: nat :| 0 <= s < NumNodes(t) && t.sampleIndexMap[s] != NULL && Up(t.parents, s, k) == y;
      AboveMarked(t.parents, t.sampleIndexMap, kids, t.aboveSample, s, k);
    }
  }

  /**
   * The roots are exactly the topmost ancestors of the samples: a node is
   * in the root list of a tracked tree exactly when it has no parent and
   * some sample reaches it along the parent links.
   */
  lemma RootsAreTopmost(t: Tree, rank: seq<nat>, kids: seq<seq<int>>, l: seq<int>, x: int)
    requires Tracked(t, rank, kids, l)
    ensures x in l <==> 0 <= x < NumNodes(t) && t.parents[x] == NULL && AboveASample(t.parents, t.sampleIndexMap, x)
  {
    if 0 <= x < NumNodes(t) {
      AboveExactly(t, rank, kids, l, x);
    } else {
      assert x !in l;
    }
  }
}

// fwdpp/ts/tree_visitor.hpp: Algorithm T of Kelleher et al. (2016).  Each
// call moves the marginal tree to the next genomic interval: the edges
// that end at the current position leave the tree (step T4), the edges
// that start there enter it (step T2), the root list is kept up to date
// along the way, and the interval of the new tree is recorded.

module TreeVisitor {
  import opened Types
  import opened MarginalTree
  import opened AdvancePolicies
  import opened SiblingLists
  import TableCollection

  /** v is NULL or a node of a tree with n nodes. */
  predicate Link(v: int, n: int)
  {
    v == NULL || 0 <= v < n
  }

  /** Every link the visitor reads and writes is NULL or a node, so no read leaves the arrays. */
  predicate LinksInRange(t: Tree)
    requires Shaped(t)
  {
    var n := NumNodes(t);
    Link(t.leftRoot, n)
    && forall x :: 0 <= x < n ==>
      Link(t.parents[x], n) && Link(t.leftSib[x], n) && Link(t.rightSib[x], n)
      && Link(t.leftChild[x], n) && Link(t.rightChild[x], n)
  }

  /** t differs from b at most in the parent, sibling and child links. */
  predicate OnlyLinks(t: Tree, b: Tree)
  {
    t == b.(parents := t.parents, leftSib := t.leftSib, rightSib := t.rightSib,
            leftChild := t.leftChild, rightChild := t.rightChild)
  }

  /** l is the child list of p: threaded through the sibling links from left_child[p] to right_child[p], each entry with parent p. */
  predicate ChildrenAre(t: Tree, p: int, l: seq<int>)
    requires Shaped(t) && 0 <= p < NumNodes(t)
  {
    Threaded(t.leftSib, t.rightSib, l) && t.leftChild[p] == First(l) && t.rightChild[p] == Last(l)
    && forall q :: 0 <= q < |l| ==> t.parents[l[q]] == p
  }

  /** l is the root list: threaded through the sibling links, each entry without a parent, left_root one of them. */
  predicate RootsAre(t: Tree, l: seq<int>)
    requires Shaped(t)
  {
    Threaded(t.leftSib, t.rightSib, l) && (l == [] <==> t.leftRoot == NULL) && (l != [] ==> t.leftRoot in l)
    && forall q :: 0 <= q < |l| ==> t.parents[l[q]] == NULL
  }

  // ---------------------------------------------------------------------
  // The edits of one edge, as values

  /**
   * Step T4 for the edge (p, c): c's neighbours link past it, p's first or
   * last child moves when c was one, and c loses its parent and siblings.
   */
  function Detached(t: Tree, p: int, c: int): (r: Tree)
    requires Shaped(t) && LinksInRange(t) && 0 <= p < NumNodes(t) && 0 <= c < NumNodes(t)
    ensures Shaped(r) && NumNodes(r) == NumNodes(t) && LinksInRange(r) && OnlyLinks(r, t)
  {
    var lsib := t.leftSib[c];
    var rsib := t.rightSib[c];
    var t1 := if lsib == NULL then t.(leftChild := t.leftChild[p := rsib]) else t.(rightSib := t.rightSib[lsib := rsib]);
    var t2 := if rsib == NULL then t1.(rightChild := t1.rightChild[p := lsib]) else t1.(leftSib := t1.leftSib[rsib := lsib]);
    t2.(parents := t2.parents[c := NULL], leftSib := t2.leftSib[c := NULL], rightSib := t2.rightSib[c := NULL])
  }

  /**
   * Step T2 for the edge (p, c): c becomes p's last child, after the old
   * right_child[p] (or as its only child), with parent p.
   */
  function Attached(t: Tree, p: int, c: int): (r: Tree)
    requires Shaped(t) && LinksInRange(t) && 0 <= p < NumNodes(t) && 0 <= c < NumNodes(t)
    ensures Shaped(r) && NumNodes(r) == NumNodes(t) && LinksInRange(r) && OnlyLinks(r, t)
  {
    var rchild := t.rightChild[p];
    var t1 := if rchild == NULL then t.(leftChild := t.leftChild[p := c], leftSib := t.leftSib[c := NULL], rightSib := t.rightSib[c := NULL])
              else t.(rightSib := t.rightSib[rchild := c][c := NULL], leftSib := t.leftSib[c := rchild]);
    t1.(parents := t1.parents[c := p], rightChild := t1.rightChild[p := c])
  }

  /**
   * Taking a node out of the root list given its two neighbours: they link
   * to each other, and left_root becomes the right one, else the left one,
   * else NULL.
   */
  function RootDropped(t: Tree, lsib: int, rsib: int): (r: Tree)
    requires Shaped(t) && LinksInRange(t) && Link(lsib, NumNodes(t)) && Link(rsib, NumNodes(t))
    ensures Shaped(r) && NumNodes(r) == NumNodes(t) && LinksInRange(r)
    ensures r == t.(leftSib := r.leftSib, rightSib := r.rightSib, leftRoot := r.leftRoot)
  {
    var rs := if lsib != NULL then t.rightSib[lsib := rsib] else t.rightSib;
    var ls := if rsib != NULL then t.leftSib[rsib := lsib] else t.leftSib;
    t.(leftSib := ls, rightSib := rs, leftRoot := if rsib != NULL then rsib else lsib)
  }

  /** The outgoing update's removal of root: its neighbours link past it and it loses its siblings. */
  function Unrooted(t: Tree, root: int): (r: Tree)
    requires Shaped(t) && LinksInRange(t) && 0 <= root < NumNodes(t)
    ensures Shaped(r) && NumNodes(r) == NumNodes(t) && LinksInRange(r)
    ensures r == t.(leftSib := r.leftSib, rightSib := r.rightSib, leftRoot := r.leftRoot)
  {
    var d := RootDropped(t, t.leftSib[root], t.rightSib[root]);
    d.(leftSib := d.leftSib[root := NULL], rightSib := d.rightSib[root := NULL])
  }

  /** The outgoing update's insertion of c: c goes in front of left_root and becomes left_root. */
  function Rooted(t: Tree, c: int): (r: Tree)
    requires Shaped(t) && LinksInRange(t) && 0 <= c < NumNodes(t)
    ensures Shaped(r) && NumNodes(r) == NumNodes(t) && LinksInRange(r)
    ensures r == t.(leftSib := r.leftSib, rightSib := r.rightSib, leftRoot := r.leftRoot)
  {
    if t.leftRoot != NULL then
      var lroot := t.leftSib[t.leftRoot];
      var rs := if lroot != NULL then t.rightSib[lroot := c] else t.rightSib;
      t.(leftSib := t.leftSib[c := lroot][t.leftRoot := c], rightSib := rs[c := t.leftRoot], leftRoot := c)
    else
      t.(rightSib := t.rightSib[c := NULL], leftRoot := c)
  }

  /** The incoming update's replacement of c by root: root takes c's old neighbours and becomes left_root. */
  function RootReplaced(t: Tree, lsib: int, rsib: int, root: int): (r: Tree)
    requires Shaped(t) && LinksInRange(t) && Link(lsib, NumNodes(t)) && Link(rsib, NumNodes(t)) && 0 <= root < NumNodes(t)
    ensures Shaped(r) && NumNodes(r) == NumNodes(t) && LinksInRange(r)
    ensures r == t.(leftSib := r.leftSib, rightSib := r.rightSib, leftRoot := r.leftRoot)
  {
    var rs := if lsib != NULL then t.rightSib[lsib := root] else t.rightSib;
    var ls := if rsib != NULL then t.leftSib[rsib := root] else t.leftSib;
    t.(leftSib := ls[root := lsib], rightSib := rs[root := rsib], leftRoot := root)
  }

  // ---------------------------------------------------------------------
  // What the edits do to the child and root lists

  /** Step T4 takes c out of p's child list and leaves it without parent or siblings. */
  lemma DetachedChildren(t: Tree, p: int, c: int, l: seq<int>, i: nat)
    requires Shaped(t) && LinksInRange(t) && 0 <= p < NumNodes(t) && 0 <= c < NumNodes(t)
    requires ChildrenAre(t, p, l) && i < |l| && l[i] == c
    ensures ChildrenAre(Detached(t, p, c), p, Without(l, i))
    ensures Detached(t, p, c).parents[c] == NULL && Detached(t, p, c).leftSib[c] == NULL && Detached(t, p, c).rightSib[c] == NULL
  {
    var r := Detached(t, p, c);
    DetachedLinks(t, p, c, l, i);
    DetachedParents(t, p, c, l, i);
    DetachedEnds(t, p, c, l, i);
  }

  lemma DetachedLinks(t: Tree, p: int, c: int, l: seq<int>, i: nat)
    requires Shaped(t) && LinksInRange(t) && 0 <= p < NumNodes(t) && 0 <= c < NumNodes(t)
    requires Threaded(t.leftSib, t.rightSib, l) && i < |l| && l[i] == c
    ensures Threaded(Detached(t, p, c).leftSib, Detached(t, p, c).rightSib, Without(l, i))
  {
    var r := Detached(t, p, c);
    var lsib := Before(l, i);
    var rsib := After(l, i);
    assert t.leftSib[c] == lsib && t.rightSib[c] == rsib;
    assert r.rightSib == (if lsib != NULL then t.rightSib[lsib := rsib] else t.rightSib)[c := NULL];
    assert r.leftSib == (if rsib != NULL then t.leftSib[rsib := lsib] else t.leftSib)[c := NULL];
    UnlinkClear(t.leftSib, t.rightSib, l, i, r.leftSib, r.rightSib);
  }

  lemma DetachedParents(t: Tree, p: int, c: int, l: seq<int>, i: nat)
    requires Shaped(t) && LinksInRange(t) && 0 <= p < NumNodes(t) && 0 <= c < NumNodes(t)
    requires ChildrenAre(t, p, l) && i < |l| && l[i] == c
    ensures forall q :: 0 <= q < |l| - 1 ==> Detached(t, p, c).parents[Without(l, i)[q]] == p
  {
    var r := Detached(t, p, c);
    var w := Without(l, i);
    assert r.parents == t.parents[c := NULL];
    forall q | 0 <= q < |w| ensures r.parents[w[q]] == p {
      var p' := if q < i then q else q + 1;
      assert w[q] == l[p'] && l[p'] != c;
    }
  }

  lemma DetachedEnds(t: Tree, p: int, c: int, l: seq<int>, i: nat)
    requires Shaped(t) && LinksInRange(t) && 0 <= p < NumNodes(t) && 0 <= c < NumNodes(t)
    requires ChildrenAre(t, p, l) && i < |l| && l[i] == c
    ensures Detached(t, p, c).leftChild[p] == First(Without(l, i))
    ensures Detached(t, p, c).rightChild[p] == Last(Without(l, i))
  {
    var r := Detached(t, p, c);
    var w := Without(l, i);
    var lsib := Before(l, i);
    var rsib := After(l, i);
    assert t.leftSib[c] == lsib && t.rightSib[c] == rsib;
    if i == 0 {
      assert r.leftChild[p] == rsib;
    } else {
      assert r.leftChild[p] == t.leftChild[p] == l[0] == w[0];
    }
    if i == |l| - 1 {
      assert r.rightChild[p] == lsib;
    } else {
      assert r.rightChild[p] == t.rightChild[p] == l[|l| - 1] == w[|w| - 1];
    }
  }

  /** Step T2 appends c to p's child list and makes p its parent. */
  lemma AttachedChildren(t: Tree, p: int, c: int, l: seq<int>)
    requires Shaped(t) && LinksInRange(t) && 0 <= p < NumNodes(t) && 0 <= c < NumNodes(t)
    requires ChildrenAre(t, p, l) && c !in l
    ensures ChildrenAre(Attached(t, p, c), p, l + [c])
  {
    var r := Attached(t, p, c);
    Append(t.leftSib, t.rightSib, l, c, r.leftSib, r.rightSib);
  }

  /** Step T4 leaves every sibling list that shares no node with p's child list as it was. */
  lemma DetachedFrame(t: Tree, p: int, c: int, l: seq<int>, i: nat, m: seq<int>)
    requires Shaped(t) && LinksInRange(t) && 0 <= p < NumNodes(t) && 0 <= c < NumNodes(t)
    requires ChildrenAre(t, p, l) && i < |l| && l[i] == c
    requires Threaded(t.leftSib, t.rightSib, m) && forall q :: 0 <= q < |m| ==> m[q] !in l
    ensures Threaded(Detached(t, p, c).leftSib, Detached(t, p, c).rightSib, m)
  {
    var r := Detached(t, p, c);
    assert t.leftSib[c] == Before(l, i) && t.rightSib[c] == After(l, i);
    forall q | 0 <= q < |m| ensures r.leftSib[m[q]] == t.leftSib[m[q]] && r.rightSib[m[q]] == t.rightSib[m[q]] {
      assert m[q] != c;
      assert i > 0 ==> m[q] != l[i - 1];
      assert i + 1 < |l| ==> m[q] != l[i + 1];
    }
    ThreadedFrame(t.leftSib, t.rightSib, r.leftSib, r.rightSib, m);
  }

  /**
   * Step T2 leaves the links of a list that holds c at index i (the root
   * list, when c was a root) as they were everywhere but at c, provided it
   * shares no other node with p's child list.
   */
  lemma AttachedFrame(t: Tree, p: int, c: int, l: seq<int>, m: seq<int>, i: nat)
    requires Shaped(t) && LinksInRange(t) && 0 <= p < NumNodes(t) && 0 <= c < NumNodes(t)
    requires ChildrenAre(t, p, l) && c !in l
    requires Threaded(t.leftSib, t.rightSib, m) && i < |m| && m[i] == c
    requires forall q :: 0 <= q < |m| ==> m[q] !in l
    ensures ThreadedExcept(Attached(t, p, c).leftSib, Attached(t, p, c).rightSib, m, i)
  {
    var r := Attached(t, p, c);
    forall q | 0 <= q < |m| && q != i ensures r.leftSib[m[q]] == t.leftSib[m[q]] && r.rightSib[m[q]] == t.rightSib[m[q]] {
      assert m[q] != c;
      assert l != [] ==> m[q] != l[|l| - 1];
    }
    ThreadedLoosen(t.leftSib, t.rightSib, r.leftSib, r.rightSib, m, i);
  }

  /** The outgoing update's removal takes root out of the root list. */
  lemma UnrootedRoots(t: Tree, l: seq<int>, i: nat)
    requires Shaped(t) && LinksInRange(t) && RootsAre(t, l) && i < |l|
    ensures RootsAre(Unrooted(t, l[i]), Without(l, i))
    ensures Unrooted(t, l[i]).leftSib[l[i]] == NULL && Unrooted(t, l[i]).rightSib[l[i]] == NULL
  {
    var root := l[i];
    var r := Unrooted(t, root);
    var lsib := Before(l, i);
    var rsib := After(l, i);
    assert t.leftSib[root] == lsib && t.rightSib[root] == rsib;
    assert r.rightSib == (if lsib != NULL then t.rightSib[lsib := rsib] else t.rightSib)[root := NULL];
    assert r.leftSib == (if rsib != NULL then t.leftSib[rsib := lsib] else t.leftSib)[root := NULL];
    UnlinkClear(t.leftSib, t.rightSib, l, i, r.leftSib, r.rightSib);
    assert r.parents == t.parents;
    RemainingRoots(t, r, l, i, lsib, rsib);
  }

  /** After a removal from the root list, the rest keeps its NULL parents and holds the new left_root. */
  lemma RemainingRoots(t: Tree, r: Tree, l: seq<int>, i: nat, lsib: int, rsib: int)
    requires Shaped(t) && Shaped(r) && i < |l| && r.parents == t.parents && NodesBelow(l, NumNodes(t))
    requires forall q :: 0 <= q < |l| && q != i ==> t.parents[l[q]] == NULL
    requires lsib == Before(l, i) && rsib == After(l, i)
    requires r.leftRoot == if rsib != NULL then rsib else lsib
    ensures (Without(l, i) == [] <==> r.leftRoot == NULL) && (Without(l, i) != [] ==> r.leftRoot in Without(l, i))
    ensures forall q :: 0 <= q < |l| - 1 ==> r.parents[Without(l, i)[q]] == NULL
  {
    var w := Without(l, i);
    forall q | 0 <= q < |w| ensures r.parents[w[q]] == NULL {
      var p' := if q < i then q else q + 1;
      assert w[q] == l[p'] && p' != i;
    }
    if rsib != NULL {
      assert r.leftRoot == l[i + 1] == w[i];
    } else if lsib != NULL {
      assert r.leftRoot == l[i - 1] == w[i - 1];
    } else {
      assert |l| == 1 && w == [];
    }
  }

  /** The outgoing update's insertion puts c in front of left_root and makes it left_root. */
  lemma RootedRoots(t: Tree, l: seq<int>, c: int)
    requires Shaped(t) && LinksInRange(t) && RootsAre(t, l) && 0 <= c < NumNodes(t) && c !in l
    requires t.parents[c] == NULL && (l == [] ==> t.leftSib[c] == NULL)
    ensures l == [] ==> RootsAre(Rooted(t, c), [c])
    ensures l != [] ==> exists i :: 0 <= i < |l| && l[i] == t.leftRoot && RootsAre(Rooted(t, c), InsertAt(l, i, c))
    ensures Rooted(t, c).leftRoot == c
  {
    var r := Rooted(t, c);
    if l == [] {
      assert [c] == [] + [c];
      Append(t.leftSib, t.rightSib, [], c, r.leftSib, r.rightSib);
    } else {
      var i :| 0 <= i < |l| && l[i] == t.leftRoot;
      assert t.leftSib[l[i]] == Before(l, i);
      InsertBefore(t.leftSib, t.rightSib, l, i, c, r.leftSib, r.rightSib);
      var w := InsertAt(l, i, c);
      forall q | 0 <= q < |w| ensures r.parents[w[q]] == NULL {
        if q < i {
          assert w[q] == l[q];
        } else if q > i {
          assert w[q] == l[q - 1];
        }
      }
      assert w[i] == c;
      assert RootsAre(r, w);
    }
  }

  /**
   * The incoming update's replacement: with c at index i of the root list,
   * lsib and rsib its neighbours, and c's own links overwritten by step T2,
   * root takes c's place and becomes left_root.
   */
  lemma ReplacedRoots(t: Tree, l: seq<int>, i: nat, lsib: int, rsib: int, root: int)
    requires Shaped(t) && LinksInRange(t) && i < |l| && ThreadedExcept(t.leftSib, t.rightSib, l, i)
    requires lsib == Before(l, i) && rsib == After(l, i)
    requires 0 <= root < NumNodes(t) && root !in l && t.parents[root] == NULL
    requires forall q :: 0 <= q < |l| && q != i ==> t.parents[l[q]] == NULL
    ensures RootsAre(RootReplaced(t, lsib, rsib, root), l[i := root])
  {
    var r := RootReplaced(t, lsib, rsib, root);
    ReplaceAt(t.leftSib, t.rightSib, l, i, root, r.leftSib, r.rightSib);
    var w := l[i := root];
    assert w[i] == root;
  }

  /**
   * The incoming update's removal of c: with the same neighbours, the rest
   * of the root list stays threaded and left_root is one of its nodes
   * (NULL when it is empty).
   */
  lemma DroppedRoots(t: Tree, l: seq<int>, i: nat, lsib: int, rsib: int)
    requires Shaped(t) && LinksInRange(t) && i < |l| && ThreadedExcept(t.leftSib, t.rightSib, l, i)
    requires lsib == Before(l, i) && rsib == After(l, i)
    requires forall q :: 0 <= q < |l| && q != i ==> t.parents[l[q]] == NULL
    ensures RootsAre(RootDropped(t, lsib, rsib), Without(l, i))
  {
    var r := RootDropped(t, lsib, rsib);
    Unlink(t.leftSib, t.rightSib, l, i, r.leftSib, r.rightSib);
    RemainingRoots(t, r, l, i, lsib, rsib);
  }

  // ---------------------------------------------------------------------
  // The climbs of the root updates

  /** How a climb from p ended: the new above_sample, the last node it visited, and whether it met a node above a sample. */
  datatype Climb = Climb(aboveSample: seq<int>, root: int, above: bool)

  /**
   * The inner loop of update_roots_outgoing: whether a node of the sibling
   * list from lc on is above a sample.  A list still going after fuel
   * nodes has a cycle, and the library would loop forever.
   */
  function KidAbove(t: Tree, marks: seq<int>, lc: int, fuel: nat): Result<bool>
    requires Shaped(t) && LinksInRange(t) && |marks| == NumNodes(t) && Link(lc, NumNodes(t))
    decreases fuel
  {
    if lc == NULL then Ok(false)
    else if fuel == 0 then Err(Undefined)
    else if marks[lc] != 0 then Ok(true)
    else KidAbove(t, marks, t.rightSib[lc], fuel - 1)
  }

  /** Along a list laid out by right_sib, from its entry at i, KidAbove answers whether an entry from there on is marked. */
  lemma {:induction false} KidAboveAlong(t: Tree, marks: seq<int>, l: seq<int>, i: nat, fuel: nat)
    requires Shaped(t) && LinksInRange(t) && |marks| == NumNodes(t) && NodesBelow(l, NumNodes(t))
    requires forall q :: 0 <= q < |l| ==> t.rightSib[l[q]] == After(l, q)
    requires i <= |l| && |l| - i <= fuel
    ensures KidAbove(t, marks, if i < |l| then l[i] else NULL, fuel) == Ok(Marked(marks, l, i))
    decreases |l| - i
  {
    if i < |l| {
      var v := l[i];
      assert t.rightSib[v] == After(l, i);
      KidAboveAlong(t, marks, l, i + 1, fuel - 1);
      assert KidAbove(t, marks, v, fuel) == if marks[v] != 0 then Ok(true) else KidAbove(t, marks, After(l, i), fuel - 1);
    }
  }

  /** Whether an entry of l from i on is marked; the recursion KidAbove follows along the list. */
  function Marked(marks: seq<int>, l: seq<int>, i: nat): (b: bool)
    requires NodesBelow(l, |marks|) && i <= |l|
    ensures b <==> exists q :: i <= q < |l| && marks[l[q]] != 0
    decreases |l| - i
  {
    if i == |l| then false
    else if marks[l[i]] != 0 then true
    else assert forall q :: i <= q < |l| && marks[l[q]] != 0 ==> i + 1 <= q; Marked(marks, l, i + 1)
  }

  /** The inner loop of update_roots_outgoing finds a marked child of x exactly when x has one. */
  lemma KidAboveChildren(t: Tree, marks: seq<int>, x: int, l: seq<int>)
    requires Shaped(t) && LinksInRange(t) && |marks| == NumNodes(t) && 0 <= x < NumNodes(t) && ChildrenAre(t, x, l)
    ensures KidAbove(t, marks, t.leftChild[x], NumNodes(t)).Ok?
    ensures KidAbove(t, marks, t.leftChild[x], NumNodes(t)).value <==> exists q :: 0 <= q < |l| && marks[l[q]] != 0
  {
    DistinctBound(l, |t.rightSib|);
    KidAboveAlong(t, marks, l, 0, NumNodes(t));
  }

  /**
   * The outer loop of update_roots_outgoing, from x up along parents: a
   * node is above a sample when it is a sample or one of its children is,
   * above_sample records that, and the climb stops at the first node that
   * is.  A node that is not is the new root candidate.
   */
  function ClimbOut(t: Tree, marks: seq<int>, x: int, root: int, fuel: nat): (r: Result<Climb>)
    requires Shaped(t) && LinksInRange(t) && |marks| == NumNodes(t) && Link(x, NumNodes(t)) && 0 <= root < NumNodes(t)
    ensures r.Ok? ==> |r.value.aboveSample| == |marks| && 0 <= r.value.root < NumNodes(t)
    ensures r.Ok? && !r.value.above && x != NULL ==> t.parents[r.value.root] == NULL
    ensures r.Ok? && r.value.above ==> r.value.aboveSample[r.value.root] == 1
    decreases fuel
  {
    if x == NULL then Ok(Climb(marks, root, false))
    else if fuel == 0 then Err(Undefined)
    else
      var above :- if t.sampleIndexMap[x] != NULL then Ok(true) else KidAbove(t, marks, t.leftChild[x], NumNodes(t));
      var marks2 := marks[x := if above then 1 else 0];
      if above then Ok(Climb(marks2, x, true)) else ClimbOut(t, marks2, t.parents[x], x, fuel - 1)
  }

  /**
   * The loop of update_roots_incoming, from x up along parents: every node
   * it passes becomes above a sample, and it stops at the first node that
   * already was.
   */
  function ClimbIn(t: Tree, marks: seq<int>, x: int, root: int, fuel: nat): (r: Result<Climb>)
    requires Shaped(t) && LinksInRange(t) && |marks| == NumNodes(t) && Link(x, NumNodes(t)) && 0 <= root < NumNodes(t)
    ensures r.Ok? ==> |r.value.aboveSample| == |marks| && 0 <= r.value.root < NumNodes(t)
    ensures r.Ok? && !r.value.above && x != NULL ==> t.parents[r.value.root] == NULL
    ensures r.Ok? && x != NULL ==> r.value.aboveSample[r.value.root] == 1
    decreases fuel
  {
    if x == NULL then Ok(Climb(marks, root, false))
    else if fuel == 0 then Err(Undefined)
    else
      var marks2 := marks[x := 1];
      if marks[x] != 0 then Ok(Climb(marks2, x, true)) else ClimbIn(t, marks2, t.parents[x], x, fuel - 1)
  }

  /**
   * update_roots_outgoing for the edge (p, c) once c has left p: nothing
   * unless c is above a sample; otherwise the climb from p updates
   * above_sample, the topmost node reached leaves the root list when it is
   * no longer above a sample, and c joins the root list as left_root.
   */
  function RootsOutgoing(t: Tree, p: int, c: int): (r: Result<Tree>)
    requires Shaped(t) && LinksInRange(t) && 0 <= p < NumNodes(t) && 0 <= c < NumNodes(t)
    ensures r.Ok? ==> Shaped(r.value) && NumNodes(r.value) == NumNodes(t) && LinksInRange(r.value)
    ensures r.Ok? ==> r.value == t.(aboveSample := r.value.aboveSample, leftSib := r.value.leftSib,
                                    rightSib := r.value.rightSib, leftRoot := r.value.leftRoot)
  {
    if t.aboveSample[c] != 1 then Ok(t)
    else
      var cl :- ClimbOut(t, t.aboveSample, p, p, NumNodes(t));
      var t1 := t.(aboveSample := cl.aboveSample);
      var t2 := if cl.above then t1 else Unrooted(t1, cl.root);
      Ok(Rooted(t2, c))
  }

  /**
   * update_roots_incoming for the edge (p, c) once c has joined p, with
   * lsib and rsib c's siblings from before: nothing unless c is above a
   * sample; otherwise the climb from p marks p's ancestors above a sample,
   * and c's place in the root list goes to the topmost one when none of
   * them already was, or is closed up when one was.
   */
  function RootsIncoming(t: Tree, p: int, c: int, lsib: int, rsib: int): (r: Result<Tree>)
    requires Shaped(t) && LinksInRange(t) && 0 <= p < NumNodes(t) && 0 <= c < NumNodes(t)
    requires Link(lsib, NumNodes(t)) && Link(rsib, NumNodes(t))
    ensures r.Ok? ==> Shaped(r.value) && NumNodes(r.value) == NumNodes(t) && LinksInRange(r.value)
    ensures r.Ok? ==> r.value == t.(aboveSample := r.value.aboveSample, leftSib := r.value.leftSib,
                                    rightSib := r.value.rightSib, leftRoot := r.value.leftRoot)
  {
    if t.aboveSample[c] == 0 then Ok(t)
    else
      var cl :- ClimbIn(t, t.aboveSample, p, p, NumNodes(t));
      var t1 := t.(aboveSample := cl.aboveSample);
      Ok(if cl.above then RootDropped(t1, lsib, rsib) else RootReplaced(t1, lsib, rsib, cl.root))
  }

  // ---------------------------------------------------------------------
  // One edge, leaving or entering

  /** What the visitor keeps of a tree between edges: in-range links and well-formed sample lists. */
  predicate Ready(t: Tree)
  {
    Shaped(t) && LinksInRange(t) && LinksWellFormed(LinksOf(t))
  }

  /**
   * update_samples_list from p, or Undefined when p's ancestors or one of
   * their child lists has a cycle.
   */
  function SamplesUpdated(t: Tree, p: int): (r: Result<Tree>)
    requires Ready(t)
    ensures r.Ok? ==> Ready(r.value) && r.value == WithLinks(t, LinksOf(r.value))
  {
    var path := Ancestors(t, p);
    if path.stop == AtEnd && ChildListsEnd(t, path.nodes) then Ok(WithLinks(t, UpdateUpward(t, LinksOf(t), path.nodes)))
    else Err(Undefined)
  }

  /**
   * Everything step T4 does for the edge (p, c), in order: the sibling and
   * child links, the leaf counts, the sample lists when they are kept, the
   * root list.
   */
  function Removed(t: Tree, p: int, c: int, advancing: bool): (r: Result<Tree>)
    requires Ready(t) && 0 <= p < NumNodes(t) && 0 <= c < NumNodes(t)
    ensures r.Ok? ==> Ready(r.value) && NumNodes(r.value) == NumNodes(t)
  {
    var t1 := Detached(t, p, c);
    if Ancestors(t1, p).stop != AtEnd then Err(Undefined)
    else
      var t2 := LeafCountsMoved(t1, p, c, -1);
      LeafCountsMovedOnlyCounts(t1, p, c, -1);
      var t3 :- if advancing then SamplesUpdated(t2, p) else Ok(t2);
      RootsOutgoing(t3, p, c)
  }

  /** Everything step T2 does for the edge (p, c), in the same order. */
  function Added(t: Tree, p: int, c: int, advancing: bool): (r: Result<Tree>)
    requires Ready(t) && 0 <= p < NumNodes(t) && 0 <= c < NumNodes(t)
    ensures r.Ok? ==> Ready(r.value) && NumNodes(r.value) == NumNodes(t)
  {
    var lsib := t.leftSib[c];
    var rsib := t.rightSib[c];
    var t1 := Attached(t, p, c);
    if Ancestors(t1, p).stop != AtEnd then Err(Undefined)
    else
      var t2 := LeafCountsMoved(t1, p, c, 1);
      LeafCountsMovedOnlyCounts(t1, p, c, 1);
      var t3 :- if advancing then SamplesUpdated(t2, p) else Ok(t2);
      RootsIncoming(t3, p, c, lsib, rsib)
  }

  // ---------------------------------------------------------------------
  // One call of operator()

  /** Every edge joins two nodes of a tree with n nodes. */
  predicate EdgesWithin(es: seq<Edge>, n: nat)
  {
    forall e :: 0 <= e < |es| ==> 0 <= es[e].parent < n && 0 <= es[e].child < n
  }

  /** Every entry of an index vector is an edge id. */
  predicate IndexesInto(order: seq<int>, m: nat)
  {
    forall q :: 0 <= q < |order| ==> 0 <= order[q] < m
  }

  /** The edges in the order an index vector gives. */
  function Lane(es: seq<Edge>, order: seq<int>): (r: seq<Edge>)
    requires IndexesInto(order, |es|)
    ensures |r| == |order| && forall q :: 0 <= q < |order| ==> r[q] == es[order[q]]
  {
    seq(|order|, q requires 0 <= q < |order| => es[order[q]])
  }

  /** Where a sweep along an index vector stopped, and the tree it left. */
  datatype Sweep = Sweep(tree: Tree, next: nat)

  /** Step T4: the edges of O from k on whose right end is x leave the tree, in the order of O. */
  function Outgoing(t: Tree, lane: seq<Edge>, k: nat, x: real, advancing: bool): (r: Result<Sweep>)
    requires Ready(t) && EdgesWithin(lane, NumNodes(t)) && k <= |lane|
    ensures r.Ok? ==> Ready(r.value.tree) && NumNodes(r.value.tree) == NumNodes(t) && k <= r.value.next <= |lane|
    ensures r.Ok? ==> forall q :: k <= q < r.value.next ==> lane[q].right == x
    ensures r.Ok? ==> r.value.next == |lane| || lane[r.value.next].right != x
    decreases |lane| - k, 2
  {
    if k < |lane| then OutgoingAt(t, lane, k, x, advancing) else Ok(Sweep(t, k))
  }

  /** The second half of the loop condition: edge k of O is processed only when its right end is x. */
  function OutgoingAt(t: Tree, lane: seq<Edge>, k: nat, x: real, advancing: bool): (r: Result<Sweep>)
    requires Ready(t) && EdgesWithin(lane, NumNodes(t)) && k < |lane|
    ensures r.Ok? ==> Ready(r.value.tree) && NumNodes(r.value.tree) == NumNodes(t) && k <= r.value.next <= |lane|
    ensures r.Ok? ==> forall q :: k <= q < r.value.next ==> lane[q].right == x
    ensures r.Ok? ==> r.value.next == |lane| || lane[r.value.next].right != x
    decreases |lane| - k, 1
  {
    if lane[k].right == x then OutgoingEdge(t, lane, k, x, advancing) else Ok(Sweep(t, k))
  }

  /** One pass of the step T4 loop: edge k of O leaves the tree, then the sweep goes on from k + 1. */
  function OutgoingEdge(t: Tree, lane: seq<Edge>, k: nat, x: real, advancing: bool): (r: Result<Sweep>)
    requires Ready(t) && EdgesWithin(lane, NumNodes(t)) && k < |lane| && lane[k].right == x
    ensures r.Ok? ==> Ready(r.value.tree) && NumNodes(r.value.tree) == NumNodes(t) && k < r.value.next <= |lane|
    ensures r.Ok? ==> forall q :: k <= q < r.value.next ==> lane[q].right == x
    ensures r.Ok? ==> r.value.next == |lane| || lane[r.value.next].right != x
    decreases |lane| - k, 0
  {
    var t2 :- Removed(t, lane[k].parent, lane[k].child, advancing);
    Outgoing(t2, lane, k + 1, x, advancing)
  }

  /** Step T2: the edges of I from j on whose left end is x enter the tree, in the order of I. */
  function Incoming(t: Tree, lane: seq<Edge>, j: nat, x: real, advancing: bool): (r: Result<Sweep>)
    requires Ready(t) && EdgesWithin(lane, NumNodes(t)) && j <= |lane|
    ensures r.Ok? ==> Ready(r.value.tree) && NumNodes(r.value.tree) == NumNodes(t) && j <= r.value.next <= |lane|
    ensures r.Ok? ==> forall q :: j <= q < r.value.next ==> lane[q].left == x
    ensures r.Ok? ==> r.value.next == |lane| || lane[r.value.next].left != x
    decreases |lane| - j, 2
  {
    if j < |lane| then IncomingAt(t, lane, j, x, advancing) else Ok(Sweep(t, j))
  }

  /** The second half of the loop condition: edge j of I is processed only when its left end is x. */
  function IncomingAt(t: Tree, lane: seq<Edge>, j: nat, x: real, advancing: bool): (r: Result<Sweep>)
    requires Ready(t) && EdgesWithin(lane, NumNodes(t)) && j < |lane|
    ensures r.Ok? ==> Ready(r.value.tree) && NumNodes(r.value.tree) == NumNodes(t) && j <= r.value.next <= |lane|
    ensures r.Ok? ==> forall q :: j <= q < r.value.next ==> lane[q].left == x
    ensures r.Ok? ==> r.value.next == |lane| || lane[r.value.next].left != x
    decreases |lane| - j, 1
  {
    if lane[j].left == x then IncomingEdge(t, lane, j, x, advancing) else Ok(Sweep(t, j))
  }

  /** One pass of the step T2 loop: edge j of I enters the tree, then the sweep goes on from j + 1. */
  function IncomingEdge(t: Tree, lane: seq<Edge>, j: nat, x: real, advancing: bool): (r: Result<Sweep>)
    requires Ready(t) && EdgesWithin(lane, NumNodes(t)) && j < |lane| && lane[j].left == x
    ensures r.Ok? ==> Ready(r.value.tree) && NumNodes(r.value.tree) == NumNodes(t) && j < r.value.next <= |lane|
    ensures r.Ok? ==> forall q :: j <= q < r.value.next ==> lane[q].left == x
    ensures r.Ok? ==> r.value.next == |lane| || lane[r.value.next].left != x
    decreases |lane| - j, 0
  {
    var t2 :- Added(t, lane[j].parent, lane[j].child, advancing);
    Incoming(t2, lane, j + 1, x, advancing)
  }

  /** The walk along left_sib from x to the node with no left sibling; Undefined on a cycle. */
  function LeftEnd(t: Tree, x: int, fuel: nat): (r: Result<int>)
    requires Shaped(t) && LinksInRange(t) && 0 <= x < NumNodes(t)
    ensures r.Ok? ==> 0 <= r.value < NumNodes(t) && t.leftSib[r.value] == NULL
    decreases fuel
  {
    if t.leftSib[x] == NULL then Ok(x)
    else if fuel == 0 then Err(Undefined)
    else LeftEnd(t, t.leftSib[x], fuel - 1)
  }

  /** The fix-up after both sweeps: left_root moves left along left_sib as far as it goes. */
  function LeftRootFixed(t: Tree): (r: Result<Tree>)
    requires Shaped(t) && LinksInRange(t)
    ensures r.Ok? ==> Shaped(r.value) && LinksInRange(r.value) && r.value == t.(leftRoot := r.value.leftRoot)
    ensures r.Ok? ==> (r.value.leftRoot == NULL <==> t.leftRoot == NULL)
    ensures r.Ok? && r.value.leftRoot != NULL ==> t.leftSib[r.value.leftRoot] == NULL
  {
    if t.leftRoot == NULL then Ok(t)
    else
      var lr :- LeftEnd(t, t.leftRoot, NumNodes(t));
      Ok(t.(leftRoot := lr))
  }

  /** std::min on two doubles: the second when it is smaller, else the first. */
  function Min(a: real, b: real): (r: real)
    ensures r <= a && r <= b && (r == a || r == b)
  {
    if b < a then b else a
  }

  /** The right end of the new tree: L, or the next left end in I, or the next right end in O, whichever is least. */
  function NextBreak(ins: seq<Edge>, outs: seq<Edge>, j: nat, k: nat, maxpos: real): (r: real)
    requires j <= |ins| && k <= |outs|
    ensures r <= maxpos && (j < |ins| ==> r <= ins[j].left) && (k < |outs| ==> r <= outs[k].right)
    ensures r == maxpos || (j < |ins| && r == ins[j].left) || (k < |outs| && r == outs[k].right)
  {
    var r1 := if j < |ins| then Min(maxpos, ins[j].left) else maxpos;
    if k < |outs| then Min(r1, outs[k].right) else r1
  }

  /** The visitor's position: the next entries of I and O, and the left end of the next tree. */
  datatype Position = Position(j: nat, k: nat, x: real)

  /** The outcome of a call: the tree, the new position, and the value returned. */
  datatype Stepped = Stepped(tree: Tree, at: Position, more: bool)

  /**
   * The work of operator() up to the interval: the outgoing sweep, then
   * the incoming sweep, then the left_root fix-up.  The position it
   * returns has the new j and k and the old x.
   */
  function Sweeps(t: Tree, ins: seq<Edge>, outs: seq<Edge>, at: Position, advancing: bool): (r: Result<Stepped>)
    requires Ready(t) && EdgesWithin(ins, NumNodes(t)) && EdgesWithin(outs, NumNodes(t))
    requires at.j <= |ins| && at.k <= |outs|
    ensures r.Ok? ==> Ready(r.value.tree) && NumNodes(r.value.tree) == NumNodes(t) && r.value.at.x == at.x
    ensures r.Ok? ==> at.j <= r.value.at.j <= |ins| && at.k <= r.value.at.k <= |outs|
    ensures r.Ok? ==> (r.value.at.j == |ins| || ins[r.value.at.j].left != at.x)
    ensures r.Ok? ==> (r.value.at.k == |outs| || outs[r.value.at.k].right != at.x)
  {
    var out :- Outgoing(t, outs, at.k, at.x, advancing);
    var inc :- Incoming(out.tree, ins, at.j, at.x, advancing);
    var fixed :- LeftRootFixed(inc.tree);
    Ok(Stepped(fixed, Position(inc.next, out.next, at.x), false))
  }

  /** Recording the interval leaves what the visitor keeps of a tree in place. */
  lemma ReadyInterval(t: Tree, left: Double, right: Double)
    requires Ready(t)
    ensures Ready(t.(left := left, right := right)) && NumNodes(t.(left := left, right := right)) == NumNodes(t)
  {
    assert LinksOf(t.(left := left, right := right)) == LinksOf(t);
  }

  /**
   * operator() on the edges in I order (ins) and O order (outs): when
   * edges remain to enter or x is short of L, the sweeps; the tree covers
   * [x, right) and the result says whether edges remained to enter or x
   * was short of L.  Otherwise nothing changes and the result is false.
   */
  function Step(t: Tree, ins: seq<Edge>, outs: seq<Edge>, at: Position, maxpos: real, advancing: bool): (r: Result<Stepped>)
    requires Ready(t) && EdgesWithin(ins, NumNodes(t)) && EdgesWithin(outs, NumNodes(t))
    requires at.j <= |ins| && at.k <= |outs|
    ensures r.Ok? ==> Ready(r.value.tree) && NumNodes(r.value.tree) == NumNodes(t)
    ensures r.Ok? ==> r.value.at.j <= |ins| && r.value.at.k <= |outs|
  {
    if !(at.j < |ins| || at.x < maxpos) then Ok(Stepped(t, at, false))
    else
      var s :- Sweeps(t, ins, outs, at, advancing);
      var right := NextBreak(ins, outs, s.at.j, s.at.k, maxpos);
      ReadyInterval(s.tree, Finite(at.x), Finite(right));
      Ok(Stepped(s.tree.(left := Finite(at.x), right := Finite(right)), Position(s.at.j, s.at.k, right),
                 s.at.j < |ins| || at.x < maxpos))
  }

  /**
   * What the edge index vectors guarantee from a position on: every edge
   * is a non-empty interval within [0, L), I lists left ends in
   * increasing order and O right ends, none of them before x.
   */
  predicate Ordered(ins: seq<Edge>, outs: seq<Edge>, at: Position, maxpos: real)
  {
    at.j <= |ins| && at.k <= |outs| && at.x <= maxpos
    && (forall q :: 0 <= q < |ins| ==> ins[q].left < ins[q].right <= maxpos)
    && (forall q :: 0 <= q < |outs| ==> outs[q].right <= maxpos)
    && (forall q, q2 :: at.j <= q < q2 < |ins| ==> ins[q].left <= ins[q2].left)
    && (forall q, q2 :: at.k <= q < q2 < |outs| ==> outs[q].right <= outs[q2].right)
    && (forall q :: at.j <= q < |ins| ==> at.x <= ins[q].left)
    && (forall q :: at.k <= q < |outs| ==> at.x <= outs[q].right)
  }

  /**
   * On ordered index vectors, a call short of L moves x strictly forward,
   * to at most L; the tree covers [x, x'), the result is true, and the
   * vectors are still ordered from the new position.
   */
  lemma StepProgress(t: Tree, ins: seq<Edge>, outs: seq<Edge>, at: Position, maxpos: real, advancing: bool)
    requires Ready(t) && EdgesWithin(ins, NumNodes(t)) && EdgesWithin(outs, NumNodes(t))
    requires Ordered(ins, outs, at, maxpos) && at.x < maxpos
    requires Step(t, ins, outs, at, maxpos, advancing).Ok?
    ensures var s := Step(t, ins, outs, at, maxpos, advancing).value;
      at.x < s.at.x <= maxpos && s.more && s.tree.left == Finite(at.x) && s.tree.right == Finite(s.at.x)
      && Ordered(ins, outs, s.at, maxpos)
  {
    var w := Sweeps(t, ins, outs, at, advancing).value;
    BreakOrdered(ins, outs, at, w.at.j, w.at.k, maxpos);
  }

  /** Past the edges at x, the next break lies beyond x, and the vectors are ordered from it. */
  lemma BreakOrdered(ins: seq<Edge>, outs: seq<Edge>, at: Position, j: nat, k: nat, maxpos: real)
    requires Ordered(ins, outs, at, maxpos) && at.x < maxpos
    requires at.j <= j <= |ins| && at.k <= k <= |outs|
    requires (j == |ins| || ins[j].left != at.x) && (k == |outs| || outs[k].right != at.x)
    ensures var right := NextBreak(ins, outs, j, k, maxpos);
      at.x < right <= maxpos && Ordered(ins, outs, Position(j, k, right), maxpos)
  {
    if j < |ins| {
      assert at.x <= ins[j].left;
    }
    if k < |outs| {
      assert at.x <= outs[k].right;
    }
  }

  /** On ordered index vectors, an edge left to enter means x is short of L. */
  lemma OrderedShort(ins: seq<Edge>, outs: seq<Edge>, at: Position, maxpos: real)
    requires Ordered(ins, outs, at, maxpos)
    ensures at.j < |ins| ==> at.x < maxpos
  {
    if at.j < |ins| {
      assert at.x <= ins[at.j].left < ins[at.j].right <= maxpos;
    }
  }

  /** On ordered index vectors, a call at L changes nothing and returns false, even when I has entries left. */
  lemma StepStops(t: Tree, ins: seq<Edge>, outs: seq<Edge>, at: Position, maxpos: real, advancing: bool)
    requires Ready(t) && EdgesWithin(ins, NumNodes(t)) && EdgesWithin(outs, NumNodes(t))
    requires Ordered(ins, outs, at, maxpos) && at.x == maxpos
    ensures Step(t, ins, outs, at, maxpos, advancing) == Ok(Stepped(t, at, false))
  {
    OrderedShort(ins, outs, at, maxpos);
  }

  /** From any root, the walk along left_sib ends at the first root. */
  lemma {:induction false} LeftEndAlong(t: Tree, l: seq<int>, i: nat, fuel: nat)
    requires Shaped(t) && LinksInRange(t) && Threaded(t.leftSib, t.rightSib, l) && i < |l| && i <= fuel
    ensures LeftEnd(t, l[i], fuel) == Ok(l[0])
  {
    assert t.leftSib[l[i]] == Before(l, i);
    if i > 0 {
      LeftEndAlong(t, l, i - 1, fuel - 1);
    }
  }

  /**
   * When l is the root list, the fix-up moves left_root to its first
   * entry, so that the root iterator then visits exactly l.
   */
  lemma LeftRootFixedLeftmost(t: Tree, l: seq<int>)
    requires Ready(t) && RootsAre(t, l)
    ensures LeftRootFixed(t) == Ok(t.(leftRoot := First(l)))
    ensures RootList(t.(leftRoot := First(l))) == Chain(l, AtEnd)
  {
    if l != [] {
      var i :| 0 <= i < |l| && l[i] == t.leftRoot;
      DistinctBound(l, |t.rightSib|);
      LeftEndAlong(t, l, i, NumNodes(t));
    }
    ThreadedWalk(t.leftSib, t.rightSib, l);
  }

  // ---------------------------------------------------------------------
  // The loops and edits of operator(), proved against the functions above

  /** The inner loop of update_roots_outgoing over the children of a node, from lc along right_sib. */
  method KidsAbove(t: Tree, marks: seq<int>, lc: int) returns (r: Result<bool>)
    requires Shaped(t) && LinksInRange(t) && |marks| == NumNodes(t) && Link(lc, NumNodes(t))
    ensures r == KidAbove(t, marks, lc, NumNodes(t))
  {
    var v := lc;
    var fuel := NumNodes(t);
    var above := false;
    while v != NULL && !above
      invariant Link(v, NumNodes(t))
      invariant !above ==> KidAbove(t, marks, v, fuel) == KidAbove(t, marks, lc, NumNodes(t))
      invariant above ==> KidAbove(t, marks, lc, NumNodes(t)) == Ok(true)
      decreases fuel
    {
      if fuel == 0 {
        return Err(Undefined);
      }
      above := marks[v] != 0;
      v := t.rightSib[v];
      fuel := fuel - 1;
    }
    return Ok(above);
  }

  /** The outer loop of update_roots_outgoing, from p up along parents, writing above_sample as it goes. */
  method ClimbOutgoing(t: Tree, p: int) returns (r: Result<Climb>)
    requires Shaped(t) && LinksInRange(t) && 0 <= p < NumNodes(t)
    ensures r == ClimbOut(t, t.aboveSample, p, p, NumNodes(t))
  {
    var x := p;
    var root := x;
    var marks := t.aboveSample;
    var above := false;
    var fuel := NumNodes(t);
    while x != NULL && !above
      invariant Link(x, NumNodes(t)) && 0 <= root < NumNodes(t) && |marks| == NumNodes(t)
      invariant !above ==> ClimbOut(t, marks, x, root, fuel) == ClimbOut(t, t.aboveSample, p, p, NumNodes(t))
      invariant above ==> ClimbOut(t, t.aboveSample, p, p, NumNodes(t)) == Ok(Climb(marks, root, true))
      decreases fuel
    {
      if fuel == 0 {
        return Err(Undefined);
      }
      above := t.sampleIndexMap[x] != NULL;
      if !above {
        above :- KidsAbove(t, marks, t.leftChild[x]);
      }
      marks := marks[x := if above then 1 else 0];
      root := x;
      x := t.parents[x];
      fuel := fuel - 1;
    }
    return Ok(Climb(marks, root, above));
  }

  /** The loop of update_roots_incoming, from p up along parents, marking every node it passes above a sample. */
  method ClimbIncoming(t: Tree, p: int) returns (r: Result<Climb>)
    requires Shaped(t) && LinksInRange(t) && 0 <= p < NumNodes(t)
    ensures r == ClimbIn(t, t.aboveSample, p, p, NumNodes(t))
  {
    var x := p;
    var root := x;
    var marks := t.aboveSample;
    var above := false;
    var fuel := NumNodes(t);
    while x != NULL && !above
      invariant Link(x, NumNodes(t)) && 0 <= root < NumNodes(t) && |marks| == NumNodes(t)
      invariant !above ==> ClimbIn(t, marks, x, root, fuel) == ClimbIn(t, t.aboveSample, p, p, NumNodes(t))
      invariant above ==> ClimbIn(t, t.aboveSample, p, p, NumNodes(t)) == Ok(Climb(marks, root, true))
      decreases fuel
    {
      if fuel == 0 {
        return Err(Undefined);
      }
      above := marks[x] != 0;
      marks := marks[x := 1];
      root := x;
      x := t.parents[x];
      fuel := fuel - 1;
    }
    return Ok(Climb(marks, root, above));
  }

  /** The statements of update_roots_outgoing that take root out of the root list. */
  method Unroot(t: Tree, root: int) returns (m: Tree)
    requires Shaped(t) && LinksInRange(t) && 0 <= root < NumNodes(t)
    ensures m == Unrooted(t, root)
  {
    m := t;
    var lroot := m.leftSib[root];
    var rroot := m.rightSib[root];
    m := m.(leftRoot := NULL);
    if lroot != NULL {
      m := m.(rightSib := m.rightSib[lroot := rroot], leftRoot := lroot);
    }
    if rroot != NULL {
      m := m.(leftSib := m.leftSib[rroot := lroot], leftRoot := rroot);
    }
    m := m.(leftSib := m.leftSib[root := NULL], rightSib := m.rightSib[root := NULL]);
  }

  /** The statements of update_roots_outgoing that put c in front of left_root. */
  method Root(t: Tree, c: int) returns (m: Tree)
    requires Shaped(t) && LinksInRange(t) && 0 <= c < NumNodes(t)
    ensures m == Rooted(t, c)
  {
    m := t;
    if m.leftRoot != NULL {
      var lroot := m.leftSib[m.leftRoot];
      if lroot != NULL {
        m := m.(rightSib := m.rightSib[lroot := c]);
      }
      m := m.(leftSib := m.leftSib[c := lroot][m.leftRoot := c]);
    }
    m := m.(rightSib := m.rightSib[c := m.leftRoot], leftRoot := c);
  }

  /** update_roots_outgoing: the climb, then the root list edits. */
  method UpdateRootsOutgoing(t: Tree, p: int, c: int) returns (r: Result<Tree>)
    requires Shaped(t) && LinksInRange(t) && 0 <= p < NumNodes(t) && 0 <= c < NumNodes(t)
    ensures r == RootsOutgoing(t, p, c)
  {
    if t.aboveSample[c] != 1 {
      return Ok(t);
    }
    var cl :- ClimbOutgoing(t, p);
    var m := t.(aboveSample := cl.aboveSample);
    if !cl.above {
      m := Unroot(m, cl.root);
    }
    m := Root(m, c);
    return Ok(m);
  }

  /** The statements of update_roots_incoming that give c's place in the root list to root. */
  method ReplaceRoot(t: Tree, lsib: int, rsib: int, root: int) returns (m: Tree)
    requires Shaped(t) && LinksInRange(t) && Link(lsib, NumNodes(t)) && Link(rsib, NumNodes(t)) && 0 <= root < NumNodes(t)
    ensures m == RootReplaced(t, lsib, rsib, root)
  {
    m := t;
    if lsib != NULL {
      m := m.(rightSib := m.rightSib[lsib := root]);
    }
    if rsib != NULL {
      m := m.(leftSib := m.leftSib[rsib := root]);
    }
    m := m.(leftSib := m.leftSib[root := lsib], rightSib := m.rightSib[root := rsib], leftRoot := root);
  }

  /** The statements of update_roots_incoming that close up c's place in the root list. */
  method DropRoot(t: Tree, lsib: int, rsib: int) returns (m: Tree)
    requires Shaped(t) && LinksInRange(t) && Link(lsib, NumNodes(t)) && Link(rsib, NumNodes(t))
    ensures m == RootDropped(t, lsib, rsib)
  {
    m := t.(leftRoot := NULL);
    if lsib != NULL {
      m := m.(rightSib := m.rightSib[lsib := rsib], leftRoot := lsib);
    }
    if rsib != NULL {
      m := m.(leftSib := m.leftSib[rsib := lsib], leftRoot := rsib);
    }
  }

  /** update_roots_incoming: the climb, then the root list edits. */
  method UpdateRootsIncoming(t: Tree, p: int, c: int, lsib: int, rsib: int) returns (r: Result<Tree>)
    requires Shaped(t) && LinksInRange(t) && 0 <= p < NumNodes(t) && 0 <= c < NumNodes(t)
    requires Link(lsib, NumNodes(t)) && Link(rsib, NumNodes(t))
    ensures r == RootsIncoming(t, p, c, lsib, rsib)
  {
    if t.aboveSample[c] == 0 {
      return Ok(t);
    }
    var cl :- ClimbIncoming(t, p);
    var m := t.(aboveSample := cl.aboveSample);
    if !cl.above {
      m := ReplaceRoot(m, lsib, rsib, cl.root);
    } else {
      m := DropRoot(m, lsib, rsib);
    }
    return Ok(m);
  }

  /** update_samples_list from p, once p's ancestors and their child lists are known to end. */
  method UpdateSamples(t: Tree, p: int) returns (r: Result<Tree>)
    requires Ready(t)
    ensures r == SamplesUpdated(t, p)
  {
    var path := Ancestors(t, p);
    if path.stop != AtEnd || !ChildListsEnd(t, path.nodes) {
      return Err(Undefined);
    }
    var t2 := UpdateSamplesList(t, p);
    return Ok(t2);
  }

  /** The link statements of the step T4 loop for the edge (p, c). */
  method Detach(t: Tree, p: int, c: int) returns (m: Tree)
    requires Shaped(t) && LinksInRange(t) && 0 <= p < NumNodes(t) && 0 <= c < NumNodes(t)
    ensures m == Detached(t, p, c)
  {
    m := t;
    var lsib := m.leftSib[c];
    var rsib := m.rightSib[c];
    if lsib == NULL {
      m := m.(leftChild := m.leftChild[p := rsib]);
    } else {
      m := m.(rightSib := m.rightSib[lsib := rsib]);
    }
    if rsib == NULL {
      m := m.(rightChild := m.rightChild[p := lsib]);
    } else {
      m := m.(leftSib := m.leftSib[rsib := lsib]);
    }
    m := m.(parents := m.parents[c := NULL], leftSib := m.leftSib[c := NULL], rightSib := m.rightSib[c := NULL]);
  }

  /** The link statements of the step T2 loop for the edge (p, c). */
  method Attach(t: Tree, p: int, c: int) returns (m: Tree)
    requires Shaped(t) && LinksInRange(t) && 0 <= p < NumNodes(t) && 0 <= c < NumNodes(t)
    ensures m == Attached(t, p, c)
  {
    m := t;
    var rchild := m.rightChild[p];
    if rchild == NULL {
      m := m.(leftChild := m.leftChild[p := c], leftSib := m.leftSib[c := NULL], rightSib := m.rightSib[c := NULL]);
    } else {
      m := m.(rightSib := m.rightSib[rchild := c]);
      m := m.(leftSib := m.leftSib[c := rchild]);
      m := m.(rightSib := m.rightSib[c := NULL]);
    }
    m := m.(parents := m.parents[c := p], rightChild := m.rightChild[p := c]);
  }

  /** The body of the step T4 loop for the edge (p, c). */
  method RemoveEdge(t: Tree, p: int, c: int, advancing: bool) returns (r: Result<Tree>)
    requires Ready(t) && 0 <= p < NumNodes(t) && 0 <= c < NumNodes(t)
    ensures r == Removed(t, p, c, advancing)
  {
    var m := Detach(t, p, c);
    if Ancestors(m, p).stop != AtEnd {
      return Err(Undefined);
    }
    ghost var m1 := m;
    m := OutgoingLeafCounts(m, p, c);
    LeafCountsMovedOnlyCounts(m1, p, c, -1);
    if advancing {
      m :- UpdateSamples(m, p);
    }
    r := UpdateRootsOutgoing(m, p, c);
  }

  /** The body of the step T2 loop for the edge (p, c). */
  method InsertEdge(t: Tree, p: int, c: int, advancing: bool) returns (r: Result<Tree>)
    requires Ready(t) && 0 <= p < NumNodes(t) && 0 <= c < NumNodes(t)
    ensures r == Added(t, p, c, advancing)
  {
    var lsib := t.leftSib[c];
    var rsib := t.rightSib[c];
    var m := Attach(t, p, c);
    if Ancestors(m, p).stop != AtEnd {
      return Err(Undefined);
    }
    ghost var m1 := m;
    m := IncomingLeafCounts(m, p, c);
    LeafCountsMovedOnlyCounts(m1, p, c, 1);
    if advancing {
      m :- UpdateSamples(m, p);
    }
    r := UpdateRootsIncoming(m, p, c, lsib, rsib);
  }

  /** One pass of the step T4 loop: RemoveEdge on edge k of O. */
  method OutgoingPass(t: Tree, edges: seq<Edge>, order: seq<int>, k: nat, x: real, advancing: bool) returns (r: Result<Tree>)
    requires Ready(t) && EdgesWithin(edges, NumNodes(t)) && IndexesInto(order, |edges|)
    requires k < |order| && edges[order[k]].right == x
    ensures r.Ok? ==> Ready(r.value) && NumNodes(r.value) == NumNodes(t)
    ensures r.Ok? ==> Outgoing(t, Lane(edges, order), k, x, advancing) == Outgoing(r.value, Lane(edges, order), k + 1, x, advancing)
    ensures r.Err? ==> Outgoing(t, Lane(edges, order), k, x, advancing) == Err(r.error)
  {
    var e := edges[order[k]];
    assert Outgoing(t, Lane(edges, order), k, x, advancing) == OutgoingAt(t, Lane(edges, order), k, x, advancing);
    r := RemoveEdge(t, e.parent, e.child, advancing);
  }

  /** One pass of the step T2 loop: InsertEdge on edge j of I. */
  method IncomingPass(t: Tree, edges: seq<Edge>, order: seq<int>, j: nat, x: real, advancing: bool) returns (r: Result<Tree>)
    requires Ready(t) && EdgesWithin(edges, NumNodes(t)) && IndexesInto(order, |edges|)
    requires j < |order| && edges[order[j]].left == x
    ensures r.Ok? ==> Ready(r.value) && NumNodes(r.value) == NumNodes(t)
    ensures r.Ok? ==> Incoming(t, Lane(edges, order), j, x, advancing) == Incoming(r.value, Lane(edges, order), j + 1, x, advancing)
    ensures r.Err? ==> Incoming(t, Lane(edges, order), j, x, advancing) == Err(r.error)
  {
    var e := edges[order[j]];
    assert Incoming(t, Lane(edges, order), j, x, advancing) == IncomingAt(t, Lane(edges, order), j, x, advancing);
    r := InsertEdge(t, e.parent, e.child, advancing);
  }

  /** The step T4 loop stops, leaving the tree as it is, at the end of O or at an edge whose right end is not x. */
  lemma OutgoingStops(t: Tree, lane: seq<Edge>, k: nat, x: real, advancing: bool)
    requires Ready(t) && EdgesWithin(lane, NumNodes(t)) && k <= |lane|
    requires k == |lane| || lane[k].right != x
    ensures Outgoing(t, lane, k, x, advancing) == Ok(Sweep(t, k))
  {
  }

  /** The step T2 loop stops, leaving the tree as it is, at the end of I or at an edge whose left end is not x. */
  lemma IncomingStops(t: Tree, lane: seq<Edge>, j: nat, x: real, advancing: bool)
    requires Ready(t) && EdgesWithin(lane, NumNodes(t)) && j <= |lane|
    requires j == |lane| || lane[j].left != x
    ensures Incoming(t, lane, j, x, advancing) == Ok(Sweep(t, j))
  {
  }

  /** The step T4 loop: the edges of O from k on whose right end is x, one RemoveEdge each. */
  method RemoveOutgoing(t: Tree, edges: seq<Edge>, order: seq<int>, k: nat, x: real, advancing: bool) returns (r: Result<Sweep>)
    requires Ready(t) && EdgesWithin(edges, NumNodes(t)) && IndexesInto(order, |edges|) && k <= |order|
    ensures r == Outgoing(t, Lane(edges, order), k, x, advancing)
  {
    ghost var lane := Lane(edges, order);
    var m := t;
    var kk := k;
    while kk < |order| && edges[order[kk]].right == x
      invariant k <= kk <= |order| && Ready(m) && NumNodes(m) == NumNodes(t)
      invariant Outgoing(m, lane, kk, x, advancing) == Outgoing(t, lane, k, x, advancing)
      decreases |order| - kk
    {
      var m2 := OutgoingPass(m, edges, order, kk, x, advancing);
      if m2.Err? {
        return Err(m2.error);
      }
      m := m2.value;
      kk := kk + 1;
    }
    OutgoingStops(m, lane, kk, x, advancing);
    return Ok(Sweep(m, kk));
  }

  /** The step T2 loop: the edges of I from j on whose left end is x, one InsertEdge each. */
  method InsertIncoming(t: Tree, edges: seq<Edge>, order: seq<int>, j: nat, x: real, advancing: bool) returns (r: Result<Sweep>)
    requires Ready(t) && EdgesWithin(edges, NumNodes(t)) && IndexesInto(order, |edges|) && j <= |order|
    ensures r == Incoming(t, Lane(edges, order), j, x, advancing)
  {
    ghost var lane := Lane(edges, order);
    var m := t;
    var jj := j;
    while jj < |order| && edges[order[jj]].left == x
      invariant j <= jj <= |order| && Ready(m) && NumNodes(m) == NumNodes(t)
      invariant Incoming(m, lane, jj, x, advancing) == Incoming(t, lane, j, x, advancing)
      decreases |order| - jj
    {
      var m2 := IncomingPass(m, edges, order, jj, x, advancing);
      if m2.Err? {
        return Err(m2.error);
      }
      m := m2.value;
      jj := jj + 1;
    }
    IncomingStops(m, lane, jj, x, advancing);
    return Ok(Sweep(m, jj));
  }

  /** The left_root fix-up loop: left along left_sib while there is a left sibling. */
  method FixLeftRoot(t: Tree) returns (r: Result<Tree>)
    requires Shaped(t) && LinksInRange(t)
    ensures r == LeftRootFixed(t)
  {
    var m := t;
    if m.leftRoot != NULL {
      var fuel := NumNodes(t);
      while m.leftSib[m.leftRoot] != NULL
        invariant 0 <= m.leftRoot < NumNodes(t) && m == t.(leftRoot := m.leftRoot)
        invariant LeftEnd(t, m.leftRoot, fuel) == LeftEnd(t, t.leftRoot, NumNodes(t))
        decreases fuel
      {
        if fuel == 0 {
          return Err(Undefined);
        }
        m := m.(leftRoot := m.leftSib[m.leftRoot]);
        fuel := fuel - 1;
      }
    }
    return Ok(m);
  }

  /**
   * The body of operator() on the marginal tree and the position: the
   * step T4 loop, the step T2 loop, the left_root fix-up, then the right
   * end of the new interval.
   */
  method StepTree(t: Tree, edges: seq<Edge>, inputLeft: seq<int>, outputRight: seq<int>, at: Position, maxpos: real, advancing: bool)
    returns (r: Result<Stepped>)
    requires Ready(t) && EdgesWithin(edges, NumNodes(t)) && IndexesInto(inputLeft, |edges|) && IndexesInto(outputRight, |edges|)
    requires at.j <= |inputLeft| && at.k <= |outputRight|
    ensures r == Step(t, Lane(edges, inputLeft), Lane(edges, outputRight), at, maxpos, advancing)
  {
    if !(at.j < |inputLeft| || at.x < maxpos) {
      return Ok(Stepped(t, at, false));
    }
    var out :- RemoveOutgoing(t, edges, outputRight, at.k, at.x, advancing);
    var inc :- InsertIncoming(out.tree, edges, inputLeft, at.j, at.x, advancing);
    var m :- FixLeftRoot(inc.tree);
    var j, k := inc.next, out.next;
    var right := maxpos;
    if j < |inputLeft| {
      right := Min(right, edges[inputLeft[j]].left);
    }
    if k < |outputRight| {
      right := Min(right, edges[outputRight[k]].right);
    }
    ReadyInterval(m, Finite(at.x), Finite(right));
    var rv := j < |inputLeft| || at.x < maxpos;
    return Ok(Stepped(m.(left := Finite(at.x), right := Finite(right)), Position(j, k, right), rv));
  }

  // ---------------------------------------------------------------------
  // The visitor

  /** One node of a freshly built tree: its links are NULL or nodes, and a sample list names a sample. */
  lemma ConstructedLinks(t: Tree, nnodes: nat, list: seq<int>, preserved: seq<int>, x: int)
    requires Constructed(t, nnodes, list, preserved) && |list| <= nnodes && 0 <= x < nnodes
    ensures Link(t.parents[x], nnodes) && Link(t.leftChild[x], nnodes) && Link(t.rightChild[x], nnodes)
    ensures Link(t.leftSib[x], nnodes) && Link(t.rightSib[x], nnodes)
    ensures t.leftSample[x] != NULL ==> 0 <= t.leftSample[x] < nnodes && 0 <= t.rightSample[x] < nnodes
  {
    assert SamplesSet(t, list, |list|) && OthersUnset(t, list, |list|);
    if x in list {
      var i :| 0 <= i < |list| && list[i] == x;
      assert t.leftSib[list[i]] == Before(list, i) && t.rightSib[list[i]] == After(list, i);
    } else {
      assert x !in list[..|list|];
    }
  }

  /** A freshly built marginal tree is ready for the visitor, and its samples are its root list. */
  lemma ConstructedReady(t: Tree, nnodes: nat, list: seq<int>, preserved: seq<int>)
    requires Constructed(t, nnodes, list, preserved)
    ensures Ready(t) && RootsAre(t, list)
  {
    ConstructedDistinct(t, nnodes, list, preserved);
    forall x | 0 <= x < nnodes
      ensures Link(t.parents[x], nnodes) && Link(t.leftChild[x], nnodes) && Link(t.rightChild[x], nnodes)
      ensures Link(t.leftSib[x], nnodes) && Link(t.rightSib[x], nnodes)
      ensures t.leftSample[x] != NULL ==> 0 <= t.leftSample[x] < nnodes && 0 <= t.rightSample[x] < nnodes
    {
      ConstructedLinks(t, nnodes, list, preserved, x);
    }
    assert SamplesSet(t, list, |list|);
    assert t.leftRoot == list[0];
  }

  /**
   * tree_visitor: the edge table and its two index vectors, the position
   * x reached so far, the genome length, and the marginal tree, which
   * operator() moves from one interval to the next.
   */
  class Visitor {
    const edges: seq<Edge>
    const inputLeft: seq<int>
    const outputRight: seq<int>
    const maxpos: real
    const advancingSampleList: bool
    var j: nat
    var k: nat
    var x: real
    var marginal: Tree

    /** The edges join nodes of the tree, the index vectors hold edge ids, and j and k are within them. */
    ghost predicate Valid()
      reads this
    {
      Ready(marginal) && EdgesWithin(edges, NumNodes(marginal))
      && IndexesInto(inputLeft, |edges|) && IndexesInto(outputRight, |edges|)
      && j <= |inputLeft| && k <= |outputRight|
    }

    /** The member initialisers: j and k at the start of I and O, x at 0. */
    constructor (edges: seq<Edge>, inputLeft: seq<int>, outputRight: seq<int>, maxpos: real, marginal: Tree, advancing: bool)
      requires Ready(marginal) && EdgesWithin(edges, NumNodes(marginal))
      requires IndexesInto(inputLeft, |edges|) && IndexesInto(outputRight, |edges|)
      ensures Valid() && j == 0 && k == 0 && x == 0.0 && this.marginal == marginal
      ensures this.edges == edges && this.inputLeft == inputLeft && this.outputRight == outputRight
      ensures this.maxpos == maxpos && advancingSampleList == advancing
    {
      this.edges := edges;
      this.inputLeft := inputLeft;
      this.outputRight := outputRight;
      this.maxpos := maxpos;
      advancingSampleList := advancing;
      j, k, x := 0, 0, 0.0;
      this.marginal := marginal;
    }

    /**
     * operator(): one Step from the current position.  On success the
     * tree, j, k and x are those the Step gives and the result is its
     * flag; when the Step is Undefined nothing is committed.
     */
    method Advance() returns (r: Result<bool>)
      requires Valid()
      modifies this
      ensures Valid()
      ensures var s := Step(old(marginal), Lane(edges, inputLeft), Lane(edges, outputRight), Position(old(j), old(k), old(x)), maxpos, advancingSampleList);
        (s.Ok? ==> r == Ok(s.value.more) && marginal == s.value.tree && Position(j, k, x) == s.value.at)
        && (s.Err? ==> r == Err(s.error) && marginal == old(marginal) && j == old(j) && k == old(k) && x == old(x))
    {
      var s := StepTree(marginal, edges, inputLeft, outputRight, Position(j, k, x), maxpos, advancingSampleList);
      if s.Err? {
        return Err(s.error);
      }
      marginal := s.value.tree;
      j, k, x := s.value.at.j, s.value.at.k, s.value.at.x;
      return Ok(s.value.more);
    }
  }

  /**
   * The constructor from a sample list: the marginal tree's errors first,
   * then invalid_argument when edges exist but an index vector is empty.
   */
  method NewVisitor(tables: TableCollection.TableCollection, samples: seq<int>, update: bool) returns (r: Result<Visitor>)
    requires NodesBelow(samples, tables.NumNodes()) && EdgesWithin(tables.edges, tables.NumNodes())
    requires IndexesInto(tables.inputLeft, |tables.edges|) && IndexesInto(tables.outputRight, |tables.edges|)
    ensures samples == [] ==> r == Err(EmptySamples)
    ensures samples != [] && !Distinct(samples) ==> r == Err(InvalidArgument)
    ensures samples != [] && Distinct(samples) ==>
      (r == Err(InvalidArgument) <==> (tables.inputLeft == [] || tables.outputRight == []) && tables.edges != [])
    ensures r.Ok? ==> fresh(r.value) && r.value.Valid() && Constructed(r.value.marginal, tables.NumNodes(), samples, [])
    ensures r.Ok? ==> r.value.j == 0 && r.value.k == 0 && r.value.x == 0.0 && r.value.maxpos == tables.GenomeLength()
    ensures r.Ok? ==> r.value.edges == tables.edges && r.value.inputLeft == tables.inputLeft && r.value.outputRight == tables.outputRight
    ensures r.Ok? ==> r.value.advancingSampleList == update
  {
    var marginal :- NewTree(tables.NumNodes(), samples);
    ConstructedReady(marginal, tables.NumNodes(), samples, []);
    if (tables.inputLeft == [] || tables.outputRight == []) && tables.edges != [] {
      return Err(InvalidArgument);
    }
    var v := new Visitor(tables.edges, tables.inputLeft, tables.outputRight, tables.GenomeLength(), marginal, update);
    return Ok(v);
  }

  /**
   * The constructor from samples and preserved nodes: the same, on the
   * marginal tree built from both lists.
   */
  method NewVisitorPreserved(tables: TableCollection.TableCollection, samples: seq<int>, preserved: seq<int>, update: bool)
    returns (r: Result<Visitor>)
    requires NodesBelow(samples, tables.NumNodes()) && NodesBelow(preserved, tables.NumNodes())
    requires EdgesWithin(tables.edges, tables.NumNodes())
    requires IndexesInto(tables.inputLeft, |tables.edges|) && IndexesInto(tables.outputRight, |tables.edges|)
    ensures samples == [] && preserved == [] ==> r == Err(EmptySamples)
    ensures samples + preserved != [] && !Distinct(samples + preserved) ==> r == Err(InvalidArgument)
    ensures samples + preserved != [] && Distinct(samples + preserved) ==>
      (r == Err(InvalidArgument) <==> (tables.inputLeft == [] || tables.outputRight == []) && tables.edges != [])
    ensures r.Ok? ==> fresh(r.value) && r.value.Valid() && Constructed(r.value.marginal, tables.NumNodes(), samples + preserved, preserved)
    ensures r.Ok? ==> r.value.j == 0 && r.value.k == 0 && r.value.x == 0.0 && r.value.maxpos == tables.GenomeLength()
    ensures r.Ok? ==> r.value.edges == tables.edges && r.value.inputLeft == tables.inputLeft && r.value.outputRight == tables.outputRight
    ensures r.Ok? ==> r.value.advancingSampleList == update
  {
    var marginal :- NewTreePreserved(tables.NumNodes(), samples, preserved);
    ConstructedReady(marginal, tables.NumNodes(), samples + preserved, preserved);
    if (tables.inputLeft == [] || tables.outputRight == []) && tables.edges != [] {
      return Err(InvalidArgument);
    }
    var v := new Visitor(tables.edges, tables.inputLeft, tables.outputRight, tables.GenomeLength(), marginal, update);
    return Ok(v);
  }
}

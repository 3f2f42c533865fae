// The doubly linked lists a marginal tree threads through left_sib and
// right_sib (each node's children, and the roots), and what the edits the
// tree visitor makes to those arrays do to the lists.

module SiblingLists {
  import opened Types
  import opened MarginalTree

  /** l is laid out both ways through left and right: each entry links to its neighbours, the two ends to NULL. */
  predicate Threaded(left: seq<int>, right: seq<int>, l: seq<int>)
  {
    |left| == |right| && Distinct(l) && NodesBelow(l, |right|)
    && (forall i :: 0 <= i < |l| ==> right[l[i]] == After(l, i))
    && (forall i :: 0 <= i < |l| ==> left[l[i]] == Before(l, i))
  }

  /** As Threaded, except that the links of l[i] itself may have been overwritten. */
  predicate ThreadedExcept(left: seq<int>, right: seq<int>, l: seq<int>, i: nat)
  {
    |left| == |right| && Distinct(l) && NodesBelow(l, |right|)
    && (forall q :: 0 <= q < |l| && q != i ==> right[l[q]] == After(l, q))
    && (forall q :: 0 <= q < |l| && q != i ==> left[l[q]] == Before(l, q))
  }

  /** The first entry, or NULL. */
  function First(l: seq<int>): int
  {
    if l == [] then NULL else l[0]
  }

  /** The last entry, or NULL. */
  function Last(l: seq<int>): int
  {
    if l == [] then NULL else l[|l| - 1]
  }

  /** l without its entry at i. */
  function Without(l: seq<int>, i: nat): (r: seq<int>)
    requires i < |l|
    ensures |r| == |l| - 1
    ensures forall q :: 0 <= q < i ==> r[q] == l[q]
    ensures forall q :: i <= q < |r| ==> r[q] == l[q + 1]
  {
    l[..i] + l[i + 1..]
  }

  /** l with c put in front of its entry at i. */
  function InsertAt(l: seq<int>, i: nat, c: int): (r: seq<int>)
    requires i <= |l|
    ensures |r| == |l| + 1 && r[i] == c
    ensures forall q :: 0 <= q < i ==> r[q] == l[q]
    ensures forall q :: i < q < |r| ==> r[q] == l[q - 1]
  {
    l[..i] + [c] + l[i..]
  }

  /** A threaded list is what the walk along right from its first entry visits. */
  lemma ThreadedWalk(left: seq<int>, right: seq<int>, l: seq<int>)
    requires Threaded(left, right, l)
    ensures Walk(right, First(l), NULL, |right|) == Chain(l, AtEnd)
  {
    DistinctBound(l, |right|);
    forall q | 0 <= q < |l| - 1 ensures right[l[q]] == l[q + 1] {
      assert right[l[q]] == After(l, q);
    }
    if l != [] {
      assert right[l[|l| - 1]] == After(l, |l| - 1);
    }
    WalkAlong(right, l, 0, |right|);
    assert l[0..] == l;
  }

  /** Writes that leave every entry of m alone leave m threaded. */
  lemma ThreadedFrame(left: seq<int>, right: seq<int>, left2: seq<int>, right2: seq<int>, m: seq<int>)
    requires Threaded(left, right, m) && |left2| == |left| && |right2| == |right|
    requires forall q :: 0 <= q < |m| ==> left2[m[q]] == left[m[q]] && right2[m[q]] == right[m[q]]
    ensures Threaded(left2, right2, m)
  {
  }

  /** A threaded list keeps every link but those of l[i] once those are overwritten. */
  lemma ThreadedLoosen(left: seq<int>, right: seq<int>, left2: seq<int>, right2: seq<int>, l: seq<int>, i: nat)
    requires Threaded(left, right, l) && i < |l| && |left2| == |left| && |right2| == |right|
    requires forall q :: 0 <= q < |l| && q != i ==> left2[l[q]] == left[l[q]] && right2[l[q]] == right[l[q]]
    ensures ThreadedExcept(left2, right2, l, i)
  {
  }

  /** Dropping one entry keeps a list free of repeats. */
  lemma WithoutDistinct(l: seq<int>, i: nat)
    requires i < |l| && Distinct(l)
    ensures Distinct(Without(l, i)) && forall x :: x in Without(l, i) ==> x in l
    ensures l[i] !in Without(l, i)
  {
    var w := Without(l, i);
    forall q | 0 <= q < |w| ensures w[q] != l[i] {
      var p := if q < i then q else q + 1;
      assert w[q] == l[p] && p != i;
    }
    forall a, b | 0 <= a < b < |w| ensures w[a] != w[b] {
      var a' := if a < i then a else a + 1;
      var b' := if b < i then b else b + 1;
      assert w[a] == l[a'] && w[b] == l[b'] && a' < b';
    }
    forall x | x in w ensures x in l {
      var q :| 0 <= q < |w| && w[q] == x;
      if q < i {
        assert l[q] == x;
      } else {
        assert l[q + 1] == x;
      }
    }
  }

  /** One entry of the list after unlinking l[i] links right to its new neighbour. */
  lemma UnlinkRightAt(right: seq<int>, l: seq<int>, i: nat, right2: seq<int>, q: nat)
    requires i < |l| && Distinct(l) && NodesBelow(l, |right|) && q < |l| - 1
    requires forall p :: 0 <= p < |l| && p != i ==> right[l[p]] == After(l, p)
    requires right2 == if Before(l, i) != NULL then right[Before(l, i) := After(l, i)] else right
    ensures right2[Without(l, i)[q]] == After(Without(l, i), q)
  {
    var w := Without(l, i);
    var p := if q < i then q else q + 1;
    var x := w[q];
    assert x == l[p] && p != i;
    if p + 1 == i {
      assert Before(l, i) == x && right2[x] == After(l, i) && After(w, q) == After(l, i);
    } else {
      assert i > 0 ==> x != l[i - 1];
      assert right2[x] == right[x] == After(l, p);
      assert After(w, q) == After(l, p);
    }
  }

  /** One entry of the list after unlinking l[i] links left to its new neighbour. */
  lemma UnlinkLeftAt(left: seq<int>, l: seq<int>, i: nat, left2: seq<int>, q: nat)
    requires i < |l| && Distinct(l) && NodesBelow(l, |left|) && q < |l| - 1
    requires forall p :: 0 <= p < |l| && p != i ==> left[l[p]] == Before(l, p)
    requires left2 == if After(l, i) != NULL then left[After(l, i) := Before(l, i)] else left
    ensures left2[Without(l, i)[q]] == Before(Without(l, i), q)
  {
    var w := Without(l, i);
    if q < i {
      assert w[q] == l[q];
      if i + 1 < |l| {
        assert l[q] != l[i + 1];
      }
      assert left[l[q]] == Before(l, q);
    } else {
      assert w[q] == l[q + 1];
      if q > i {
        assert l[q + 1] != l[i + 1];
        assert left[l[q + 1]] == Before(l, q + 1);
      }
    }
  }

  /**
   * Unlinking l[i]: its left neighbour now links right past it and its
   * right neighbour left past it.  The rest of l stays threaded without it.
   */
  lemma Unlink(left: seq<int>, right: seq<int>, l: seq<int>, i: nat, left2: seq<int>, right2: seq<int>)
    requires i < |l| && ThreadedExcept(left, right, l, i)
    requires right2 == if Before(l, i) != NULL then right[Before(l, i) := After(l, i)] else right
    requires left2 == if After(l, i) != NULL then left[After(l, i) := Before(l, i)] else left
    ensures Threaded(left2, right2, Without(l, i))
  {
    var w := Without(l, i);
    WithoutDistinct(l, i);
    forall q | 0 <= q < |w| ensures right2[w[q]] == After(w, q) {
      UnlinkRightAt(right, l, i, right2, q);
    }
    forall q | 0 <= q < |w| ensures left2[w[q]] == Before(w, q) {
      UnlinkLeftAt(left, l, i, left2, q);
    }
  }

  /**
   * Unlinking l[i] and then clearing its own links: the rest of l stays
   * threaded without it, and it is no longer in the list.
   */
  lemma UnlinkClear(left: seq<int>, right: seq<int>, l: seq<int>, i: nat, left2: seq<int>, right2: seq<int>)
    requires i < |l| && Threaded(left, right, l)
    requires right2 == (if Before(l, i) != NULL then right[Before(l, i) := After(l, i)] else right)[l[i] := NULL]
    requires left2 == (if After(l, i) != NULL then left[After(l, i) := Before(l, i)] else left)[l[i] := NULL]
    ensures Threaded(left2, right2, Without(l, i)) && l[i] !in Without(l, i)
  {
    var right1 := if Before(l, i) != NULL then right[Before(l, i) := After(l, i)] else right;
    var left1 := if After(l, i) != NULL then left[After(l, i) := Before(l, i)] else left;
    ThreadedLoosen(left, right, left, right, l, i);
    Unlink(left, right, l, i, left1, right1);
    WithoutDistinct(l, i);
    ThreadedFrame(left1, right1, left2, right2, Without(l, i));
  }

  /**
   * Appending c (not yet in l) at the right end: the old last entry links
   * right to c, c links left to it and right to NULL.
   */
  lemma Append(left: seq<int>, right: seq<int>, l: seq<int>, c: int, left2: seq<int>, right2: seq<int>)
    requires Threaded(left, right, l) && 0 <= c < |right| && c !in l
    requires left2 == left[c := Last(l)]
    requires right2 == (if l == [] then right else right[Last(l) := c])[c := NULL]
    ensures Threaded(left2, right2, l + [c])
  {
    var w := l + [c];
    forall q | 0 <= q < |w| ensures right2[w[q]] == After(w, q) && left2[w[q]] == Before(w, q) {
      if q < |l| {
        assert w[q] == l[q] && l[q] != c;
        if q + 1 < |l| {
          assert l[q] != l[|l| - 1];
        }
      }
    }
    assert Distinct(w) by {
      forall a, b | 0 <= a < b < |w| ensures w[a] != w[b] {
        if b == |l| {
          assert w[a] == l[a];
        }
      }
    }
  }

  /** Putting a new entry into a list free of repeats keeps it free of repeats. */
  lemma InsertAtDistinct(l: seq<int>, i: nat, c: int)
    requires i <= |l| && Distinct(l) && c !in l
    ensures Distinct(InsertAt(l, i, c))
  {
    var w := InsertAt(l, i, c);
    forall a, b | 0 <= a < b < |w| ensures w[a] != w[b] {
      if a != i && b != i {
        var a' := if a < i then a else a - 1;
        var b' := if b < i then b else b - 1;
        assert w[a] == l[a'] && w[b] == l[b'] && a' < b';
      } else if a == i {
        assert w[b] == l[b - 1];
      } else {
        assert w[a] == l[a];
      }
    }
  }

  /** One entry after putting c in front of l[i] links right to its new neighbour. */
  lemma InsertRightAt(right: seq<int>, l: seq<int>, i: nat, c: int, right2: seq<int>, q: nat)
    requires i < |l| && Distinct(l) && NodesBelow(l, |right|) && 0 <= c < |right| && c !in l && q <= |l|
    requires forall p :: 0 <= p < |l| ==> right[l[p]] == After(l, p)
    requires right2 == (if Before(l, i) != NULL then right[Before(l, i) := c] else right)[c := l[i]]
    ensures right2[InsertAt(l, i, c)[q]] == After(InsertAt(l, i, c), q)
  {
    var w := InsertAt(l, i, c);
    var x := w[q];
    if q == i {
      assert x == c && After(w, q) == l[i];
    } else {
      var p := if q < i then q else q - 1;
      assert x == l[p] && x != c;
      if q + 1 == i {
        assert Before(l, i) == x && right2[x] == c && After(w, q) == c;
      } else {
        assert i > 0 ==> x != l[i - 1];
        assert right2[x] == right[x] == After(l, p);
        assert After(w, q) == After(l, p);
      }
    }
  }

  /** One entry after putting c in front of l[i] links left to its new neighbour. */
  lemma InsertLeftAt(left: seq<int>, l: seq<int>, i: nat, c: int, left2: seq<int>, q: nat)
    requires i < |l| && Distinct(l) && NodesBelow(l, |left|) && 0 <= c < |left| && c !in l && q <= |l|
    requires forall p :: 0 <= p < |l| ==> left[l[p]] == Before(l, p)
    requires left2 == left[c := Before(l, i)][l[i] := c]
    ensures left2[InsertAt(l, i, c)[q]] == Before(InsertAt(l, i, c), q)
  {
    var w := InsertAt(l, i, c);
    if q < i {
      assert w[q] == l[q] && l[q] != c && l[q] != l[i];
      assert left[l[q]] == Before(l, q);
    } else if q > i + 1 {
      assert w[q] == l[q - 1] && l[q - 1] != c && l[q - 1] != l[i];
      assert left[l[q - 1]] == Before(l, q - 1);
    }
  }

  /** InsertAt keeps every entry below n when c is below n. */
  lemma InsertAtBelow(l: seq<int>, i: nat, c: int, n: int)
    requires i <= |l| && NodesBelow(l, n) && 0 <= c < n
    ensures NodesBelow(InsertAt(l, i, c), n)
  {
    var w := InsertAt(l, i, c);
    forall q | 0 <= q < |w| ensures 0 <= w[q] < n {
      if q < i {
        assert w[q] == l[q];
      } else if q > i {
        assert w[q] == l[q - 1];
      }
    }
  }

  /**
   * Putting c in front of l[i]: l[i]'s old left neighbour links right to c,
   * c links to both, l[i] links left to c.
   */
  lemma InsertBefore(left: seq<int>, right: seq<int>, l: seq<int>, i: nat, c: int, left2: seq<int>, right2: seq<int>)
    requires Threaded(left, right, l) && i < |l| && 0 <= c < |right| && c !in l
    requires right2 == (if Before(l, i) != NULL then right[Before(l, i) := c] else right)[c := l[i]]
    requires left2 == left[c := Before(l, i)][l[i] := c]
    ensures Threaded(left2, right2, InsertAt(l, i, c))
  {
    var w := InsertAt(l, i, c);
    InsertAtDistinct(l, i, c);
    InsertAtBelow(l, i, c, |right|);
    InsertRights(right, l, i, c, right2);
    InsertLefts(left, l, i, c, left2);
  }

  lemma InsertRights(right: seq<int>, l: seq<int>, i: nat, c: int, right2: seq<int>)
    requires i < |l| && Distinct(l) && NodesBelow(l, |right|) && 0 <= c < |right| && c !in l
    requires forall p :: 0 <= p < |l| ==> right[l[p]] == After(l, p)
    requires right2 == (if Before(l, i) != NULL then right[Before(l, i) := c] else right)[c := l[i]]
    ensures forall q :: 0 <= q < |l| + 1 ==> right2[InsertAt(l, i, c)[q]] == After(InsertAt(l, i, c), q)
  {
    forall q | 0 <= q < |l| + 1 ensures right2[InsertAt(l, i, c)[q]] == After(InsertAt(l, i, c), q) {
      InsertRightAt(right, l, i, c, right2, q);
    }
  }

  lemma InsertLefts(left: seq<int>, l: seq<int>, i: nat, c: int, left2: seq<int>)
    requires i < |l| && Distinct(l) && NodesBelow(l, |left|) && 0 <= c < |left| && c !in l
    requires forall p :: 0 <= p < |l| ==> left[l[p]] == Before(l, p)
    requires left2 == left[c := Before(l, i)][l[i] := c]
    ensures forall q :: 0 <= q < |l| + 1 ==> left2[InsertAt(l, i, c)[q]] == Before(InsertAt(l, i, c), q)
  {
    forall q | 0 <= q < |l| + 1 ensures left2[InsertAt(l, i, c)[q]] == Before(InsertAt(l, i, c), q) {
      InsertLeftAt(left, l, i, c, left2, q);
    }
  }

  /**
   * Putting root where l[i] was: root takes over l[i]'s two neighbours,
   * which the caller read before l[i]'s own links changed.
   */
  lemma ReplaceAt(left: seq<int>, right: seq<int>, l: seq<int>, i: nat, root: int, left2: seq<int>, right2: seq<int>)
    requires i < |l| && ThreadedExcept(left, right, l, i) && 0 <= root < |right| && root !in l
    requires right2 == (if Before(l, i) != NULL then right[Before(l, i) := root] else right)[root := After(l, i)]
    requires left2 == (if After(l, i) != NULL then left[After(l, i) := root] else left)[root := Before(l, i)]
    ensures Threaded(left2, right2, l[i := root])
  {
    var w := l[i := root];
    forall q | 0 <= q < |w| ensures right2[w[q]] == After(w, q) && left2[w[q]] == Before(w, q) {
      if q != i {
        assert w[q] == l[q] && l[q] != root && l[q] != l[i];
        if q + 1 < i || q + 1 > i {
          assert q + 1 < |l| ==> l[q] != l[q + 1];
        }
        if i > 0 {
          assert q != i - 1 ==> l[q] != l[i - 1];
        }
        if i + 1 < |l| {
          assert q != i + 1 ==> l[q] != l[i + 1];
        }
      }
    }
    assert Distinct(w) by {
      forall a, b | 0 <= a < b < |w| ensures w[a] != w[b] {
        if a != i && b != i {
          assert w[a] == l[a] && w[b] == l[b];
        } else if a == i {
          assert w[b] == l[b];
        } else {
          assert w[a] == l[a];
        }
      }
    }
  }
}

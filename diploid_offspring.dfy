// fwdpp/ts/recording/diploid_offspring.hpp: turning the crossover
// breakpoints of an offspring into edges from its two parents, and
// registering the offspring node with those edges in the tables or in the
// edge buffer.
//
// The edge callback of split_breakpoints is modelled by the sequence of its
// calls (an Emission); the register methods replay that sequence through
// push_back_edge or edge_buffer::extend, in the same order.

module DiploidOffspring {
  import opened Types
  import opened NestedForwardLists
  import opened TableCollection
  import EdgeBuffer

  /** The calls split_breakpoints makes to its callback, in order, and how it ends. */
  datatype Emission = Emission(edges: seq<Edge>, outcome: Outcome)

  /**
   * What the debug assertions of split_breakpoints_add_edges demand: the
   * breakpoints end with the sentinel max double, which occurs only there.
   */
  predicate EndsWithSentinel(bp: seq<real>)
  {
    bp != [] && bp[|bp| - 1] == MAX_DOUBLE && Count(bp, MAX_DOUBLE) == 1
  }

  // ---------------------------------------------------------------------
  // The reduction to breakpoints seen an odd number of times
  // ---------------------------------------------------------------------

  /** s[k] has an equal right neighbour. */
  predicate Repeats(s: seq<real>, k: nat)
  {
    k + 1 < |s| && s[k] == s[k + 1]
  }

  /** std::adjacent_find from index `from`: the first i with s[i] == s[i + 1], or |s|. */
  function AdjacentFind(s: seq<real>, from: nat): (i: nat)
    requires from <= |s|
    ensures from <= i <= |s|
    ensures i < |s| ==> Repeats(s, i)
    ensures forall k :: from <= k < i ==> !Repeats(s, k)
    decreases |s| - from
  {
    if from + 1 >= |s| then |s|
    else if s[from] == s[from + 1] then from
    else AdjacentFind(s, from + 1)
  }

  /** std::find_if with d != v from index `from`: the end of the run of copies of v there. */
  function FindDifferent(s: seq<real>, v: real, from: nat): (j: nat)
    requires from <= |s|
    ensures from <= j <= |s|
    ensures forall k :: from <= k < j ==> s[k] == v
    ensures j < |s| ==> s[j] != v
    decreases |s| - from
  {
    if from == |s| || s[from] != v then from else FindDifferent(s, v, from + 1)
  }

  /**
   * The breakpoints from index i on after the reduction: each maximal run
   * of equal values survives once when its length is odd and vanishes when
   * it is even (a double crossover does not change the genealogy).
   */
  function ReducedFrom(s: seq<real>, i: nat): seq<real>
    requires i <= |s|
    decreases |s| - i
  {
    if i == |s| then []
    else
      var j := FindDifferent(s, s[i], i);
      RunKept(s[i], j - i) + ReducedFrom(s, j)
  }

  /** What the reduction keeps of a run of n copies of v: one copy when n is odd, none when it is even. */
  function RunKept(v: real, n: int): seq<real>
  {
    if Odd(n) then [v] else []
  }

  /** The run length test of the reduction loop. */
  predicate Odd(n: int)
  {
    n % 2 == 1
  }

  /** 1 for an odd count, 0 for an even one. */
  function Parity(n: int): nat
  {
    if Odd(n) then 1 else 0
  }

  function Reduced(s: seq<real>): seq<real>
  {
    ReducedFrom(s, 0)
  }

  /** Entries that start no pair of equal neighbours are kept as they are. */
  lemma {:induction false} SinglesKept(s: seq<real>, i: nat, m: nat)
    requires i <= m <= |s|
    requires forall k :: i <= k < m ==> !Repeats(s, k)
    ensures ReducedFrom(s, i) == s[i..m] + ReducedFrom(s, m)
    decreases m - i
  {
    if i < m {
      assert !Repeats(s, i);
      assert FindDifferent(s, s[i], i) == i + 1;
      RunHead(s, i, i + 1);
      assert Odd(1);
      SinglesKept(s, i + 1, m);
      assert s[i..m] == [s[i]] + s[i + 1..m];
      Regroup(ReducedFrom(s, i), [s[i]], ReducedFrom(s, i + 1), s[i + 1..m], ReducedFrom(s, m));
    }
  }

  /** Without a pair of equal neighbours the reduction changes nothing (the first branch of split_breakpoints). */
  lemma NoRepeatsKept(s: seq<real>)
    requires AdjacentFind(s, 0) == |s|
    ensures Reduced(s) == s
  {
    SinglesKept(s, 0, |s|);
    assert s[0..|s|] == s;
  }

  /** Every kept breakpoint is one of the input breakpoints. */
  lemma {:induction false} ReducedMembers(s: seq<real>, i: nat)
    requires i <= |s|
    ensures forall x :: x in ReducedFrom(s, i) ==> x in s[i..]
    decreases |s| - i
  {
    if i < |s| {
      var j := FindDifferent(s, s[i], i);
      ReducedMembers(s, j);
      forall x | x in ReducedFrom(s, j) ensures x in s[i..] {
        var k :| 0 <= k < |s[j..]| && s[j..][k] == x;
        assert s[i..][j - i + k] == x;
      }
    }
  }

  /** s[i] <= s[j], named so that sortedness is only unfolded where a proof asks for it. */
  predicate InOrder(s: seq<real>, i: nat, j: nat)
  {
    i < |s| && j < |s| && s[i] <= s[j]
  }

  predicate NonDecreasing(s: seq<real>)
  {
    forall i: nat, j: nat :: i < j < |s| ==> InOrder(s, i, j)
  }

  predicate Increasing(s: seq<real>)
  {
    forall i, j :: 0 <= i < j < |s| ==> s[i] < s[j]
  }

  /** A run of copies of v has v as often as it is long, and nothing else. */
  lemma {:induction false} RunMultiset(s: seq<real>, v: real)
    requires forall k :: 0 <= k < |s| ==> s[k] == v
    ensures multiset(s) == multiset{}[v := |s|]
  {
    if s != [] {
      RunMultiset(s[1..], v);
      assert s == [s[0]] + s[1..];
    }
  }

  /** On sorted breakpoints everything after the run at i lies above it. */
  lemma RestAbove(s: seq<real>, i: nat, j: nat)
    requires i < |s| && NonDecreasing(s) && j == FindDifferent(s, s[i], i)
    ensures forall x :: x in s[j..] ==> s[i] < x
  {
    forall x | x in s[j..] ensures s[i] < x {
      var k :| 0 <= k < |s[j..]| && s[j..][k] == x;
      assert InOrder(s, j, j + k) && InOrder(s, i, j) && s[j] != s[i];
    }
  }

  /** On sorted breakpoints the reduction is strictly increasing. */
  lemma {:induction false} ReducedIncreasing(s: seq<real>, i: nat)
    requires i <= |s| && NonDecreasing(s)
    ensures Increasing(ReducedFrom(s, i))
    decreases |s| - i
  {
    if i < |s| {
      var j := FindDifferent(s, s[i], i);
      var h := RunKept(s[i], j - i);
      var rest := ReducedFrom(s, j);
      ReducedIncreasing(s, j);
      ReducedMembers(s, j);
      RestAbove(s, i, j);
      RunHead(s, i, j);
      PrefixIncreasing(s[i], h, rest);
    }
  }

  /** At most one copy of v in front of an increasing list of values above v keeps it increasing. */
  lemma PrefixIncreasing(v: real, h: seq<real>, rest: seq<real>)
    requires h == [] || h == [v]
    requires Increasing(rest) && forall x :: x in rest ==> v < x
    ensures Increasing(h + rest)
  {
    forall p, q | 0 <= p < q < |h + rest| ensures (h + rest)[p] < (h + rest)[q] {
      if p < |h| {
        assert (h + rest)[q] in rest;
      }
    }
  }

  /** The arithmetic of one run: a run of length n of x adds n copies of x, which are kept when n is odd. */
  lemma ParityStep(total: nat, head: nat, rest: nat, count: nat, run: nat, after: nat, n: nat, same: bool)
    requires total == head + rest && count == run + after
    requires rest == Parity(after)
    requires same ==> after == 0 && run == n && head == Parity(n)
    requires !same ==> run == 0 && head == 0
    ensures total == Parity(count)
  {
  }

  /** The count of x in a concatenation. */
  lemma SplitCount(a: seq<real>, b: seq<real>, c: seq<real>, x: real)
    requires a == b + c
    ensures multiset(a)[x] == multiset(b)[x] + multiset(c)[x]
  {
  }

  /** Splitting a suffix at j splits the count of every value. */
  lemma SliceCount(s: seq<real>, i: nat, j: nat, x: real)
    requires i <= j <= |s|
    ensures multiset(s[i..])[x] == multiset(s[i..j])[x] + multiset(s[j..])[x]
  {
    assert s[i..] == s[i..j] + s[j..];
  }

  /** The run at i holds x as often as it is long when it is a run of x, and not at all otherwise. */
  lemma RunCount(s: seq<real>, i: nat, j: nat, x: real)
    requires i < |s| && j == FindDifferent(s, s[i], i)
    ensures multiset(s[i..j])[x] == if x == s[i] then j - i else 0
  {
    RunMultiset(s[i..j], s[i]);
  }

  /** The counts of x in the run at i, after it, and in the part of the reduction the run contributes. */
  lemma RunCounts(s: seq<real>, i: nat, j: nat, x: real)
    requires i < |s| && NonDecreasing(s) && j == FindDifferent(s, s[i], i)
    ensures x == s[i] ==> multiset(s[j..])[x] == 0 && multiset(s[i..j])[x] == j - i
    ensures x == s[i] ==> multiset(RunKept(s[i], j - i))[x] == Parity(j - i)
    ensures x != s[i] ==> multiset(s[i..j])[x] == 0 && multiset(RunKept(s[i], j - i))[x] == 0
  {
    RunMultiset(s[i..j], s[i]);
    if x == s[i] {
      RestAbove(s, i, j);
      assert x !in s[j..];
    }
  }

  /**
   * On sorted breakpoints the reduction keeps a value once when it occurs
   * an odd number of times and drops it when it occurs an even number of
   * times.
   */
  lemma {:induction false} ReducedCount(s: seq<real>, i: nat, x: real)
    requires i <= |s| && NonDecreasing(s)
    ensures multiset(ReducedFrom(s, i))[x] == Parity(multiset(s[i..])[x])
    decreases |s| - i
  {
    if i < |s| {
      var j := FindDifferent(s, s[i], i);
      ReducedCount(s, j, x);
      RunCountStep(s, i, j, x);
    } else {
      assert s[i..] == [];
    }
  }

  /** The count of x after the run at i, given the count after the run. */
  lemma RunCountStep(s: seq<real>, i: nat, j: nat, x: real)
    requires i < |s| && NonDecreasing(s) && j == FindDifferent(s, s[i], i)
    requires multiset(ReducedFrom(s, j))[x] == Parity(multiset(s[j..])[x])
    ensures multiset(ReducedFrom(s, i))[x] == Parity(multiset(s[i..])[x])
  {
    var h := RunKept(s[i], j - i);
    var rest := ReducedFrom(s, j);
    RunHead(s, i, j);
    SplitCount(ReducedFrom(s, i), h, rest, x);
    SliceCount(s, i, j, x);
    RunCounts(s, i, j, x);
    var total, head, count := multiset(ReducedFrom(s, i))[x], multiset(h)[x], multiset(s[i..])[x];
    var run, after := multiset(s[i..j])[x], multiset(s[j..])[x];
    assert total == head + multiset(rest)[x] && count == run + after;
    if x == s[i] {
      assert after == 0 && run == j - i && head == Parity(j - i);
    } else {
      assert run == 0 && head == 0;
    }
    ParityStep(total, head, multiset(rest)[x], count, run, after, j - i, x == s[i]);
  }

  /** The two facts above for the whole list: the kept breakpoints are the odd-count values, ascending. */
  lemma ReducedOddRuns(s: seq<real>)
    requires NonDecreasing(s)
    ensures Increasing(Reduced(s))
    ensures forall x :: Count(Reduced(s), x) == Count(s, x) % 2
  {
    ReducedIncreasing(s, 0);
    assert s[0..] == s;
    forall x ensures Count(Reduced(s), x) == Count(s, x) % 2 {
      ReducedCount(s, 0, x);
      assert Odd(Count(s, x)) <==> Count(s, x) % 2 == 1;
    }
  }

  /** The reduction keeps a lone trailing sentinel, so the debug assertions hold after it. */
  lemma {:induction false} ReducedKeepsSentinel(s: seq<real>, i: nat)
    requires i < |s| && s[|s| - 1] == MAX_DOUBLE && multiset(s[i..])[MAX_DOUBLE] == 1
    ensures EndsWithSentinel(ReducedFrom(s, i))
    decreases |s| - i
  {
    var j := FindDifferent(s, s[i], i);
    if j == |s| {
      LastRunSentinel(s, i);
    } else {
      NextRunSentinel(s, i, j);
      ReducedKeepsSentinel(s, j);
      RunHead(s, i, j);
      PrefixKeepsSentinel(RunKept(s[i], j - i), ReducedFrom(s, j));
    }
  }

  /** A last run holding the lone sentinel is the sentinel itself, kept once. */
  lemma LastRunSentinel(s: seq<real>, i: nat)
    requires i < |s| && s[|s| - 1] == MAX_DOUBLE && multiset(s[i..])[MAX_DOUBLE] == 1
    requires FindDifferent(s, s[i], i) == |s|
    ensures ReducedFrom(s, i) == [MAX_DOUBLE]
  {
    var j := |s|;
    RunHead(s, i, j);
    RunCount(s, i, j, MAX_DOUBLE);
    assert s[i..j] == s[i..];
    assert s[|s| - 1] == s[i];
  }

  /** A run before the sentinel's run is not the sentinel, and the rest still holds it once. */
  lemma NextRunSentinel(s: seq<real>, i: nat, j: nat)
    requires i < |s| && s[|s| - 1] == MAX_DOUBLE && multiset(s[i..])[MAX_DOUBLE] == 1
    requires j == FindDifferent(s, s[i], i) && j < |s|
    ensures s[i] != MAX_DOUBLE && multiset(s[j..])[MAX_DOUBLE] == 1
  {
    SliceCount(s, i, j, MAX_DOUBLE);
    RunCount(s, i, j, MAX_DOUBLE);
    SliceCount(s, j, |s| - 1, MAX_DOUBLE);
    assert s[|s| - 1..] == [MAX_DOUBLE];
  }

  /** Values below the sentinel put in front keep it last and alone. */
  lemma PrefixKeepsSentinel(h: seq<real>, r: seq<real>)
    requires EndsWithSentinel(r) && MAX_DOUBLE !in h
    ensures EndsWithSentinel(h + r)
  {
    assert multiset(h)[MAX_DOUBLE] == 0;
  }

  /** The run at itr is kept once when its length is odd. */
  lemma RunHead(bp: seq<real>, itr: nat, notEqual: nat)
    requires itr < |bp| && notEqual == FindDifferent(bp, bp[itr], itr)
    ensures ReducedFrom(bp, itr) == RunKept(bp[itr], notEqual - itr) + ReducedFrom(bp, notEqual)
  {
  }

  /** One round of the reduction loop: the singles before itr, then the run at itr once or not at all. */
  lemma RunStep(bp: seq<real>, start: nat, itr: nat, notEqual: nat, even: int)
    requires start <= itr < |bp| && itr == AdjacentFind(bp, start)
    requires notEqual == FindDifferent(bp, bp[itr], itr)
    requires even == if Odd(notEqual - itr) then 0 else 1
    ensures ReducedFrom(bp, start) == bp[start..itr + 1 - even] + ReducedFrom(bp, notEqual)
  {
    var h := RunKept(bp[itr], notEqual - itr);
    RunHead(bp, itr, notEqual);
    SinglesKept(bp, start, itr);
    Regroup(ReducedFrom(bp, start), bp[start..itr], ReducedFrom(bp, itr), h, ReducedFrom(bp, notEqual));
    assert bp[start..itr + 1 - even] == bp[start..itr] + h;
  }

  /** The part of split_breakpoints after the first pair of equal neighbours is found. */
  method OddBreakpoints(bp: seq<real>, first: nat) returns (odd: seq<real>)
    requires first == AdjacentFind(bp, 0)
    ensures odd == Reduced(bp)
  {
    odd := [];
    var start: nat := 0;
    var itr := first;
    while itr < |bp|
      invariant start <= itr <= |bp|
      invariant itr == AdjacentFind(bp, start)
      invariant odd + ReducedFrom(bp, start) == Reduced(bp)
      decreases |bp| - start
    {
      var notEqual := FindDifferent(bp, bp[itr], itr);
      var even := if (notEqual - itr) % 2 == 0 then 1 else 0;
      assert even == if Odd(notEqual - itr) then 0 else 1;
      RunStep(bp, start, itr, notEqual, even);
      Regroup(Reduced(bp), odd, ReducedFrom(bp, start), bp[start..itr + 1 - even], ReducedFrom(bp, notEqual));
      odd := odd + bp[start..itr + 1 - even];
      start := notEqual;
      itr := AdjacentFind(bp, start);
    }
    SinglesKept(bp, start, |bp|);
    odd := odd + bp[start..];
  }

  // ---------------------------------------------------------------------
  // split_breakpoints_add_edges
  // ---------------------------------------------------------------------

  /** The right end of segment j: breakpoints[j], or L for the last segment, in place of the sentinel. */
  function SegmentRight(bp: seq<real>, j: nat, L: real): real
    requires j < |bp|
  {
    if j < |bp| - 1 then bp[j] else L
  }

  /** The parent segment j is copied from. */
  function SegmentParent(j: nat, p0: int, p1: int): int
  {
    if j % 2 == 0 then p0 else p1
  }

  /** The edge for segment j >= 1, emitted in the loop. */
  function Segment(bp: seq<real>, j: nat, p0: int, p1: int, c: int, L: real): Edge
    requires 1 <= j < |bp|
  {
    Edge(bp[j - 1], SegmentRight(bp, j, L), SegmentParent(j, p0, p1), c)
  }

  /** The first segment j >= from whose right end is not past its left end, or |bp|. */
  function FirstBad(bp: seq<real>, from: nat, L: real): (j: nat)
    requires 1 <= from <= |bp|
    ensures from <= j <= |bp|
    ensures forall i :: from <= i < j ==> SegmentRight(bp, i, L) > bp[i - 1]
    ensures j < |bp| ==> SegmentRight(bp, j, L) <= bp[j - 1]
    decreases |bp| - from
  {
    if from == |bp| || SegmentRight(bp, from, L) <= bp[from - 1] then from
    else FirstBad(bp, from + 1, L)
  }

  /** The loop's edges for segments 1 .. j - 1. */
  function LoopEdges(bp: seq<real>, j: nat, p0: int, p1: int, c: int, L: real): (r: seq<Edge>)
    requires 1 <= j <= |bp|
    ensures |r| == j - 1
    ensures forall i :: 0 <= i < j - 1 ==> r[i] == Segment(bp, i + 1, p0, p1, c, L)
  {
    if j == 1 then [] else LoopEdges(bp, j - 1, p0, p1, c, L) + [Segment(bp, j - 1, p0, p1, c, L)]
  }

  /** The edge for segment 0, [0, first breakpoint) from parent 0, unless that breakpoint is 0. */
  function FirstEdge(bp: seq<real>, p0: int, c: int, L: real): seq<Edge>
    requires bp != []
  {
    if bp[0] != 0.0 then [Edge(0.0, SegmentRight(bp, 0, L), p0, c)] else []
  }

  /**
   * The first edge as the library writes it: its right end is the first
   * breakpoint even when that is the sentinel (see Findings).
   */
  function FirstEdgeAsWritten(bp: seq<real>, p0: int, c: int): seq<Edge>
    requires bp != []
  {
    if bp[0] != 0.0 then [Edge(0.0, bp[0], p0, c)] else []
  }

  /** The first edge, then the loop's edges up to the first bad segment, which throws invalid_argument. */
  function EmittedAfter(first: seq<Edge>, bp: seq<real>, p0: int, p1: int, c: int, L: real): Emission
    requires bp != []
  {
    var j := FirstBad(bp, 1, L);
    Emission(first + LoopEdges(bp, j, p0, p1, c, L), if j < |bp| then Fail(InvalidArgument) else Done)
  }

  function Emitted(bp: seq<real>, p0: int, p1: int, c: int, L: real): Emission
    requires bp != []
  {
    EmittedAfter(FirstEdge(bp, p0, c, L), bp, p0, p1, c, L)
  }

  function EmittedAsWritten(bp: seq<real>, p0: int, p1: int, c: int, L: real): Emission
    requires bp != []
  {
    EmittedAfter(FirstEdgeAsWritten(bp, p0, c), bp, p0, p1, c, L)
  }

  /** split_breakpoints_add_edges (with the first edge corrected as in Findings). */
  method SplitBreakpointsAddEdges(bp: seq<real>, p0: int, p1: int, next: int, L: real) returns (e: Emission)
    requires EndsWithSentinel(bp)
    ensures e == Emitted(bp, p0, p1, next, L)
  {
    var out: seq<Edge> := [];
    if bp[0] != 0.0 {
      out := [Edge(0.0, if |bp| > 1 then bp[0] else L, p0, next)];
    }
    ghost var first := out;
    var j := 1;
    while j < |bp|
      invariant 1 <= j <= |bp| && j <= FirstBad(bp, 1, L)
      invariant out == first + LoopEdges(bp, j, p0, p1, next, L)
    {
      var a := bp[j - 1];
      var b := if j < |bp| - 1 then bp[j] else L;
      if b <= a {
        assert SegmentRight(bp, j, L) <= bp[j - 1];
        return Emission(out, Fail(InvalidArgument));
      }
      out := out + [Edge(a, b, if j % 2 == 0 then p0 else p1, next)];
      j := j + 1;
    }
    return Emission(out, Done);
  }

  // ---------------------------------------------------------------------
  // What the emitted edges mean
  // ---------------------------------------------------------------------

  /** The cut points 0, the breakpoints before the sentinel, and L: segment j spans Points[j] .. Points[j + 1]. */
  function Points(bp: seq<real>, L: real): (r: seq<real>)
    requires bp != []
    ensures |r| == |bp| + 1
  {
    [0.0] + bp[..|bp| - 1] + [L]
  }

  /** s[i] lies strictly above its left neighbour. */
  predicate Rises(s: seq<real>, i: nat)
  {
    0 < i < |s| && s[i - 1] < s[i]
  }

  /** Adjacent cut points rise strictly. */
  predicate Rising(s: seq<real>)
  {
    forall i :: 0 < i < |s| ==> Rises(s, i)
  }

  /** Edge i starts where edge i - 1 ends. */
  predicate Abuts(es: seq<Edge>, i: nat)
  {
    0 < i < |es| && es[i - 1].right == es[i].left
  }

  /** The edges cover [0, L) without gap or overlap, left to right. */
  predicate Tiles(es: seq<Edge>, L: real)
  {
    es != [] && es[0].left == 0.0 && es[|es| - 1].right == L
    && (forall i :: 0 <= i < |es| ==> es[i].left < es[i].right)
    && (forall i :: 0 < i < |es| ==> Abuts(es, i))
  }

  /**
   * The call throws invalid_argument exactly when some loop segment has
   * right <= left, that is when the cut points after 0 do not rise; the
   * edges before the bad segment have been emitted.
   */
  lemma EmittedThrows(bp: seq<real>, p0: int, p1: int, c: int, L: real)
    requires EndsWithSentinel(bp)
    ensures Emitted(bp, p0, p1, c, L).outcome == Done || Emitted(bp, p0, p1, c, L).outcome == Fail(InvalidArgument)
    ensures Emitted(bp, p0, p1, c, L).outcome == Done <==> Rising(Points(bp, L)[1..])
    ensures Emitted(bp, p0, p1, c, L).outcome == Fail(InvalidArgument) ==>
      |Emitted(bp, p0, p1, c, L).edges| == |FirstEdge(bp, p0, c, L)| + FirstBad(bp, 1, L) - 1
  {
    var P := Points(bp, L)[1..];
    forall i | 0 < i < |P| ensures Rises(P, i) <==> SegmentRight(bp, i, L) > bp[i - 1] {
      assert P[i - 1] == bp[i - 1] && P[i] == SegmentRight(bp, i, L);
    }
    var j := FirstBad(bp, 1, L);
    if j < |bp| {
      assert !Rises(P, j);
    }
  }

  /**
   * Without a throw, segment k is [Points[k], Points[k + 1]) from parent 0
   * when k is even and from parent 1 when k is odd, with the offspring as
   * child; segment 0 is left out when the first breakpoint is 0.
   */
  lemma EmittedSegments(bp: seq<real>, p0: int, p1: int, c: int, L: real)
    requires EndsWithSentinel(bp) && Emitted(bp, p0, p1, c, L).outcome == Done
    ensures var s := if bp[0] == 0.0 then 1 else 0;
      |Emitted(bp, p0, p1, c, L).edges| == |bp| - s
      && forall i :: 0 <= i < |bp| - s ==>
           Emitted(bp, p0, p1, c, L).edges[i]
             == Edge(Points(bp, L)[i + s], Points(bp, L)[i + s + 1], SegmentParent(i + s, p0, p1), c)
  {
    var s := if bp[0] == 0.0 then 1 else 0;
    var P := Points(bp, L);
    var es := Emitted(bp, p0, p1, c, L).edges;
    var first := FirstEdge(bp, p0, c, L);
    assert FirstBad(bp, 1, L) == |bp|;
    assert |first| == 1 - s;
    forall i | 0 <= i < |bp| - s
      ensures es[i] == Edge(P[i + s], P[i + s + 1], SegmentParent(i + s, p0, p1), c)
    {
      if i + s == 0 {
        assert es[i] == first[0];
      } else {
        assert es[i] == Segment(bp, i + s, p0, p1, c, L);
      }
    }
  }

  /** Without a throw, and with no breakpoint below 0, the edges tile [0, L). */
  lemma EmittedTiles(bp: seq<real>, p0: int, p1: int, c: int, L: real)
    requires EndsWithSentinel(bp) && Emitted(bp, p0, p1, c, L).outcome == Done
    requires bp[0] >= 0.0 && L > 0.0
    ensures Tiles(Emitted(bp, p0, p1, c, L).edges, L)
  {
    var s := if bp[0] == 0.0 then 1 else 0;
    var P := Points(bp, L);
    var es := Emitted(bp, p0, p1, c, L).edges;
    EmittedSegments(bp, p0, p1, c, L);
    EmittedThrows(bp, p0, p1, c, L);
    if s == 1 {
      assert |bp| > 1;
    }
    forall i | 0 <= i < |es| ensures es[i].left < es[i].right {
      if i + s > 0 {
        assert Rises(Points(bp, L)[1..], i + s);
      }
    }
  }

  /** Every emitted edge has the offspring as child and one of the two parents as parent. */
  lemma EmittedEndpoints(bp: seq<real>, p0: int, p1: int, c: int, L: real)
    requires bp != []
    ensures forall i :: 0 <= i < |Emitted(bp, p0, p1, c, L).edges| ==>
      Emitted(bp, p0, p1, c, L).edges[i].child == c
      && (Emitted(bp, p0, p1, c, L).edges[i].parent == p0 || Emitted(bp, p0, p1, c, L).edges[i].parent == p1)
  {
    var es := Emitted(bp, p0, p1, c, L).edges;
    var first := FirstEdge(bp, p0, c, L);
    forall i | 0 <= i < |es| ensures es[i].child == c && (es[i].parent == p0 || es[i].parent == p1) {
      if i >= |first| {
        assert es[i] == Segment(bp, i - |first| + 1, p0, p1, c, L);
      }
    }
  }

  /** The library's first edge ends at the sentinel when the sentinel is the only breakpoint. */
  lemma LoneSentinelAsWritten(p0: int, p1: int, c: int, L: real)
    requires L < MAX_DOUBLE
    ensures EmittedAsWritten([MAX_DOUBLE], p0, p1, c, L) == Emission([Edge(0.0, MAX_DOUBLE, p0, c)], Done)
    ensures !Tiles(EmittedAsWritten([MAX_DOUBLE], p0, p1, c, L).edges, L)
  {
  }

  /**
   * A double crossover cancels: as written, the breakpoints [x, x, max
   * double] reduce to the lone sentinel and give the edge [0, max double).
   */
  lemma CancelledPairAsWritten(x: real, p0: int, p1: int, c: int, L: real)
    requires x < MAX_DOUBLE && L < MAX_DOUBLE
    ensures Reduced([x, x, MAX_DOUBLE]) == [MAX_DOUBLE]
    ensures EmittedAsWritten(Reduced([x, x, MAX_DOUBLE]), p0, p1, c, L) == Emission([Edge(0.0, MAX_DOUBLE, p0, c)], Done)
  {
    var s := [x, x, MAX_DOUBLE];
    assert FindDifferent(s, x, 0) == 2 by {
      assert FindDifferent(s, x, 2) == 2;
    }
    assert FindDifferent(s, MAX_DOUBLE, 2) == 3;
    assert ReducedFrom(s, 2) == [MAX_DOUBLE];
    LoneSentinelAsWritten(p0, p1, c, L);
  }

  /** With more than one breakpoint the correction changes nothing. */
  lemma AsWrittenAgrees(bp: seq<real>, p0: int, p1: int, c: int, L: real)
    requires |bp| > 1
    ensures Emitted(bp, p0, p1, c, L) == EmittedAsWritten(bp, p0, p1, c, L)
  {
  }

  // ---------------------------------------------------------------------
  // split_breakpoints
  // ---------------------------------------------------------------------

  /** The calls split_breakpoints makes: one edge [0, L) for no breakpoints, else the reduced breakpoints' edges. */
  function SplitEdges(bp: seq<real>, p0: int, p1: int, c: int, L: real): Emission
    requires bp == [] || EndsWithSentinel(bp)
  {
    if bp == [] then Emission([Edge(0.0, L, p0, c)], Done)
    else
      assert bp[0..] == bp;
      ReducedKeepsSentinel(bp, 0);
      Emitted(Reduced(bp), p0, p1, c, L)
  }

  /** split_breakpoints. */
  method SplitBreakpoints(bp: seq<real>, p0: int, p1: int, next: int, L: real) returns (e: Emission)
    requires bp == [] || EndsWithSentinel(bp)
    ensures e == SplitEdges(bp, p0, p1, next, L)
    ensures bp == [] ==> e == Emission([Edge(0.0, L, p0, next)], Done)
    ensures bp != [] && AdjacentFind(bp, 0) == |bp| ==> e == Emitted(bp, p0, p1, next, L)
  {
    if bp == [] {
      return Emission([Edge(0.0, L, p0, next)], Done);
    }
    var itr := AdjacentFind(bp, 0);
    assert bp[0..] == bp;
    ReducedKeepsSentinel(bp, 0);
    if itr == |bp| {
      NoRepeatsKept(bp);
      e := SplitBreakpointsAddEdges(bp, p0, p1, next, L);
    } else {
      var odd := OddBreakpoints(bp, itr);
      e := SplitBreakpointsAddEdges(odd, p0, p1, next, L);
    }
  }

  // ---------------------------------------------------------------------
  // register_diploid_offspring
  // ---------------------------------------------------------------------

  /** The unbuffered callback for each edge in turn: the edge is appended to the edge table. */
  method PushAll(tables: TableCollection, es: seq<Edge>)
    modifies tables
    ensures tables.edges == old(tables.edges) + es
    ensures tables.nodes == old(tables.nodes) && tables.L == old(tables.L)
    ensures tables.sites == old(tables.sites) && tables.mutations == old(tables.mutations)
    ensures tables.inputLeft == old(tables.inputLeft) && tables.outputRight == old(tables.outputRight)
    ensures tables.edgeOffset == old(tables.edgeOffset)
  {
    var i := 0;
    while i < |es|
      invariant 0 <= i <= |es|
      invariant tables.edges == old(tables.edges) + es[..i]
      invariant tables.nodes == old(tables.nodes) && tables.L == old(tables.L)
      invariant tables.sites == old(tables.sites) && tables.mutations == old(tables.mutations)
      invariant tables.inputLeft == old(tables.inputLeft) && tables.outputRight == old(tables.outputRight)
      invariant tables.edgeOffset == old(tables.edgeOffset)
    {
      var size := tables.PushBackEdge(es[i].left, es[i].right, es[i].parent, es[i].child);
      assert es[..i + 1] == es[..i] + [es[i]];
      i := i + 1;
    }
    assert es[..i] == es;
  }

  /** register_diploid_offspring writing the edges to the edge table. */
  method RegisterDiploidOffspring(bp: seq<real>, p0: int, p1: int, population: int, time: real,
                                  tables: TableCollection) returns (r: Result<int>)
    requires bp == [] || EndsWithSentinel(bp)
    modifies tables
    ensures tables.nodes == old(tables.nodes) + [Node(population, time)]
    ensures var id := ToInt32(|old(tables.nodes)|);
      id >= INT32_MAX ==> r == Err(InvalidArgument) && tables.edges == old(tables.edges)
    ensures var id := ToInt32(|old(tables.nodes)|);
      id < INT32_MAX ==>
        tables.edges == old(tables.edges) + SplitEdges(bp, p0, p1, id, old(tables.L)).edges
        && r == (if SplitEdges(bp, p0, p1, id, old(tables.L)).outcome == Done
                 then Ok(ToSizeT(id))
                 else Err(SplitEdges(bp, p0, p1, id, old(tables.L)).outcome.error))
    ensures tables.L == old(tables.L) && tables.sites == old(tables.sites) && tables.mutations == old(tables.mutations)
    ensures tables.inputLeft == old(tables.inputLeft) && tables.outputRight == old(tables.outputRight)
    ensures tables.edgeOffset == old(tables.edgeOffset)
  {
    var next := tables.PushBackNode(time, population);
    if next >= INT32_MAX {
      return Err(InvalidArgument);
    }
    var e := SplitBreakpoints(bp, p0, p1, next, tables.GenomeLength());
    PushAll(tables, e.edges);
    if e.outcome.Fail? {
      return Err(e.outcome.error);
    }
    return Ok(ToSizeT(next));
  }

  /** The birth records edge_buffer::extend stores for the edges, in order. */
  function Births(es: seq<Edge>): (r: seq<EdgeBuffer.BirthData>)
    ensures |r| == |es|
    ensures forall i :: 0 <= i < |es| ==> r[i] == EdgeBuffer.BirthData(es[i].left, es[i].right, es[i].child)
  {
    seq(|es|, i requires 0 <= i < |es| => EdgeBuffer.BirthData(es[i].left, es[i].right, es[i].child))
  }

  /** Every extend succeeds: the parents are not negative and the data vector does not overflow. */
  predicate Extendable(es: seq<Edge>, size: nat)
  {
    forall i :: 0 <= i < |es| ==> es[i].parent >= 0 && size + i < INT32_MAX - 1
  }

  /** The lists after each edge's birth, numbered from d on, joins its parent's list. */
  ghost function PushedAll(lists: seq<seq<int>>, es: seq<Edge>, d: int): seq<seq<int>>
    requires forall i :: 0 <= i < |es| ==> es[i].parent >= 0
  {
    if es == [] then lists
    else Pushed(PushedAll(lists, es[..|es| - 1], d), es[|es| - 1].parent, d + |es| - 1)
  }

  /** One more successful extend, in terms of the prefixes of the edges. */
  lemma ExtendStep(es: seq<Edge>, i: nat, data0: seq<EdgeBuffer.BirthData>, lists0: seq<seq<int>>)
    requires i < |es| && Extendable(es[..i], |data0|) && es[i].parent >= 0 && |data0| + i < INT32_MAX - 1
    ensures Extendable(es[..i + 1], |data0|)
    ensures data0 + Births(es[..i + 1]) == data0 + Births(es[..i]) + [EdgeBuffer.BirthData(es[i].left, es[i].right, es[i].child)]
    ensures PushedAll(lists0, es[..i + 1], |data0|) == Pushed(PushedAll(lists0, es[..i], |data0|), es[i].parent, |data0| + i)
  {
    assert es[..i + 1][..i] == es[..i];
    assert Births(es[..i + 1]) == Births(es[..i]) + [EdgeBuffer.BirthData(es[i].left, es[i].right, es[i].child)];
  }

  /** The buffered callback for each edge in turn, stopping at the first extend that throws. */
  method ExtendAll(buffer: NestedForwardLists<EdgeBuffer.BirthData>, es: seq<Edge>) returns (r: Outcome)
    requires buffer.Valid()
    modifies buffer
    ensures buffer.Valid()
    ensures Extendable(es, |old(buffer.data)|) ==>
      r == Done && buffer.data == old(buffer.data) + Births(es)
      && buffer.lists == PushedAll(old(buffer.lists), es, |old(buffer.data)|)
    ensures !Extendable(es, |old(buffer.data)|) ==> r.Fail?
  {
    ghost var data0, lists0 := buffer.data, buffer.lists;
    var i := 0;
    while i < |es|
      invariant 0 <= i <= |es| && buffer.Valid()
      invariant Extendable(es[..i], |data0|)
      invariant buffer.data == data0 + Births(es[..i])
      invariant buffer.lists == PushedAll(lists0, es[..i], |data0|)
    {
      var o := ExtendOne(buffer, es, i, data0, lists0);
      if o.Fail? {
        return o;
      }
      i := i + 1;
    }
    assert es[..i] == es;
    return Done;
  }

  /** One pass of ExtendAll: the extend for edge i, which either throws or adds edge i's birth. */
  method ExtendOne(buffer: NestedForwardLists<EdgeBuffer.BirthData>, es: seq<Edge>, i: nat,
                   ghost data0: seq<EdgeBuffer.BirthData>, ghost lists0: seq<seq<int>>) returns (o: Outcome)
    requires i < |es| && buffer.Valid()
    requires Extendable(es[..i], |data0|)
    requires buffer.data == data0 + Births(es[..i]) && buffer.lists == PushedAll(lists0, es[..i], |data0|)
    modifies buffer
    ensures buffer.Valid()
    ensures o.Fail? ==> !(es[i].parent >= 0 && |data0| + i < INT32_MAX - 1)
    ensures o.Done? ==> Extendable(es[..i + 1], |data0|)
    ensures o.Done? ==> buffer.data == data0 + Births(es[..i + 1]) && buffer.lists == PushedAll(lists0, es[..i + 1], |data0|)
  {
    var ed := es[i];
    o := buffer.Extend(ed.parent, EdgeBuffer.BirthData(ed.left, ed.right, ed.child));
    if o.Done? {
      ExtendStep(es, i, data0, lists0);
    }
  }

  /** register_diploid_offspring writing the births to the edge buffer, one list per parent. */
  method RegisterDiploidOffspringBuffered(bp: seq<real>, p0: int, p1: int, population: int, time: real,
                                          tables: TableCollection, buffer: NestedForwardLists<EdgeBuffer.BirthData>)
    returns (r: Result<int>)
    requires bp == [] || EndsWithSentinel(bp)
    requires buffer.Valid()
    modifies tables, buffer
    ensures buffer.Valid()
    ensures tables.nodes == old(tables.nodes) + [Node(population, time)]
    ensures tables.edges == old(tables.edges) && tables.L == old(tables.L)
    ensures tables.sites == old(tables.sites) && tables.mutations == old(tables.mutations)
    ensures tables.inputLeft == old(tables.inputLeft) && tables.outputRight == old(tables.outputRight)
    ensures tables.edgeOffset == old(tables.edgeOffset)
    ensures var id := ToInt32(|old(tables.nodes)|);
      id >= INT32_MAX ==> r == Err(InvalidArgument) && buffer.data == old(buffer.data) && buffer.lists == old(buffer.lists)
    ensures var id := ToInt32(|old(tables.nodes)|);
      (id < INT32_MAX && Extendable(SplitEdges(bp, p0, p1, id, old(tables.L)).edges, |old(buffer.data)|)) ==>
        buffer.data == old(buffer.data) + Births(SplitEdges(bp, p0, p1, id, old(tables.L)).edges)
        && buffer.lists == PushedAll(old(buffer.lists), SplitEdges(bp, p0, p1, id, old(tables.L)).edges, |old(buffer.data)|)
        && r == (if SplitEdges(bp, p0, p1, id, old(tables.L)).outcome == Done
                 then Ok(ToSizeT(id))
                 else Err(SplitEdges(bp, p0, p1, id, old(tables.L)).outcome.error))
    ensures var id := ToInt32(|old(tables.nodes)|);
      (id < INT32_MAX && !Extendable(SplitEdges(bp, p0, p1, id, old(tables.L)).edges, |old(buffer.data)|)) ==> r.Err?
  {
    var next := tables.PushBackNode(time, population);
    if next >= INT32_MAX {
      return Err(InvalidArgument);
    }
    var e := SplitBreakpoints(bp, p0, p1, next, tables.GenomeLength());
    var o := ExtendAll(buffer, e.edges);
    if o.Fail? {
      return Err(o.error);
    }
    if e.outcome.Fail? {
      return Err(e.outcome.error);
    }
    return Ok(ToSizeT(next));
  }
}

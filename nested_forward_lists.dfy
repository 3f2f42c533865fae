// fwdpp::nested_forward_lists: several singly linked lists stored in one
// data vector.  List `i` starts at head[i] and ends at tail[i]; next[d] is
// the element after data[d] in its list.  The index type is a signed 32-bit
// integer whose null value is -1 (the edge buffer's instantiation).

module NestedForwardLists {
  import opened Types

  /** throw_if_null followed by validate_index against `size`. */
  function CheckIndex(at: int, size: int): (r: Outcome)
    ensures r == Done <==> 0 <= at < size
    ensures r == Fail(InvalidArgument) <==> at == NULL
    ensures r != Done ==> r == Fail(InvalidArgument) || r == Fail(OutOfRange)
  {
    if at == NULL then Fail(InvalidArgument)
    else if at < 0 || at >= size then Fail(OutOfRange)
    else Done
  }

  /**
   * The invariant of the container, on its index vectors: list i is empty
   * exactly when head[i] is null, otherwise it runs from head[i] to tail[i]
   * through next; its indexes are increasing and owned by i; the last one's
   * next is null.
   */
  ghost predicate ListsValid(lists: seq<seq<int>>, head: seq<int>, tail: seq<int>, next: seq<int>,
                             size: int, owner: seq<int>)
  {
    && |tail| == |head| == |lists|
    && |next| == size == |owner|
    && (forall i :: 0 <= i < |lists| ==>
          && (lists[i] == [] <==> head[i] == NULL)
          && (lists[i] == [] ==> tail[i] == NULL)
          && (lists[i] != [] ==> head[i] == lists[i][0] && tail[i] == lists[i][|lists[i]| - 1]))
    && (forall i, k :: 0 <= i < |lists| && 0 <= k < |lists[i]| ==>
          0 <= lists[i][k] < size && owner[lists[i][k]] == i)
    && (forall i, k :: 0 <= i < |lists| && 0 <= k < |lists[i]| - 1 ==>
          lists[i][k] < lists[i][k + 1] && next[lists[i][k]] == lists[i][k + 1])
    && (forall i :: 0 <= i < |lists| && lists[i] != [] ==> next[lists[i][|lists[i]| - 1]] == NULL)
  }

  /** Appending data index `size` to the non-empty list `at` keeps the invariant. */
  lemma AppendKeepsValid(L: seq<seq<int>>, H: seq<int>, Tl: seq<int>, N: seq<int>, size: int, O: seq<int>, at: int)
    requires ListsValid(L, H, Tl, N, size, O) && 0 <= at < |L| && L[at] != []
    ensures ListsValid(L[at := L[at] + [size]], H, Tl[at := size], N[Tl[at] := size] + [NULL], size + 1, O + [at])
  {
    var t := Tl[at];
    var L2, N2, O2 := L[at := L[at] + [size]], N[t := size] + [NULL], O + [at];
    assert O[t] == at;
    forall i, k | 0 <= i < |L2| && 0 <= k < |L2[i]|
      ensures 0 <= L2[i][k] < size + 1 && O2[L2[i][k]] == i
    {
      if i != at || k < |L[at]| { assert L2[i][k] == L[i][k]; }
    }
    forall i, k | 0 <= i < |L2| && 0 <= k < |L2[i]| - 1
      ensures L2[i][k] < L2[i][k + 1] && N2[L2[i][k]] == L2[i][k + 1]
    {
      if i == at {
        if k < |L[at]| - 1 {
          assert L2[i][k] == L[at][k] && L2[i][k + 1] == L[at][k + 1];
          assert L[at][k] != t;
        } else {
          assert L2[i][k] == t;
        }
      } else {
        assert L2[i] == L[i];
        assert O[L[i][k]] == i;
      }
    }
    forall i | 0 <= i < |L2| && L2[i] != [] ensures N2[L2[i][|L2[i]| - 1]] == NULL {
      if i != at {
        assert L2[i] == L[i];
        assert O[L[i][|L[i]| - 1]] == i;
      }
    }
  }

  /** Making data index `size` the only element of the empty list `at` keeps the invariant. */
  lemma InsertKeepsValid(L: seq<seq<int>>, H: seq<int>, Tl: seq<int>, N: seq<int>, size: int, O: seq<int>, at: int)
    requires ListsValid(L, H, Tl, N, size, O) && 0 <= at < |L| && L[at] == []
    ensures ListsValid(L[at := [size]], H[at := size], Tl[at := size], N + [NULL], size + 1, O + [at])
  {
    var L2, N2, H2, T2, O2 := L[at := [size]], N + [NULL], H[at := size], Tl[at := size], O + [at];
    forall i | 0 <= i < |L2|
      ensures && (L2[i] == [] <==> H2[i] == NULL)
              && (L2[i] == [] ==> T2[i] == NULL)
              && (L2[i] != [] ==> H2[i] == L2[i][0] && T2[i] == L2[i][|L2[i]| - 1])
    {
      if i != at { assert L2[i] == L[i]; }
    }
    forall i, k | 0 <= i < |L2| && 0 <= k < |L2[i]| ensures 0 <= L2[i][k] < size + 1 && O2[L2[i][k]] == i {
      if i != at { assert L2[i] == L[i]; }
    }
    forall i, k | 0 <= i < |L2| && 0 <= k < |L2[i]| - 1
      ensures L2[i][k] < L2[i][k + 1] && N2[L2[i][k]] == L2[i][k + 1]
    {
      assert L2[i] == L[i];
    }
    forall i | 0 <= i < |L2| && L2[i] != [] ensures N2[L2[i][|L2[i]| - 1]] == NULL {
      if i != at { assert L2[i] == L[i]; }
    }
  }

  /** Adding empty lists at the end keeps the invariant. */
  lemma GrowKeepsValid(L: seq<seq<int>>, H: seq<int>, Tl: seq<int>, N: seq<int>, size: int, O: seq<int>, pad: nat)
    requires ListsValid(L, H, Tl, N, size, O)
    ensures ListsValid(L + seq(pad, _ => []), H + seq(pad, _ => NULL), Tl + seq(pad, _ => NULL), N, size, O)
  {
  }

  /** Forgetting list `at` (and disowning its elements) keeps the invariant. */
  lemma NullifyKeepsValid(L: seq<seq<int>>, H: seq<int>, Tl: seq<int>, N: seq<int>, size: int, O: seq<int>, at: int)
    requires ListsValid(L, H, Tl, N, size, O) && 0 <= at < |L|
    ensures ListsValid(L[at := []], H[at := NULL], Tl[at := NULL], N, size,
                       seq(|O|, d requires 0 <= d < |O| => if O[d] == at then NULL else O[d]))
  {
  }

  /** The lists after `at` receives data index d, with missing lists created empty. */
  function Pushed(L: seq<seq<int>>, at: nat, d: int): (r: seq<seq<int>>)
    ensures |r| == if at < |L| then |L| else at + 1
    ensures r[at] == (if at < |L| then L[at] else []) + [d]
    ensures forall i :: 0 <= i < |r| && i != at ==> r[i] == if i < |L| then L[i] else []
  {
    var P := if at < |L| then L else L + seq(at + 1 - |L|, _ => []);
    P[at := P[at] + [d]]
  }

  class NestedForwardLists<T> {
    var data: seq<T>
    var head: seq<int>
    var tail: seq<int>
    var next: seq<int>

    /** lists[i] holds the data indexes of list i, in the order they were added. */
    ghost var lists: seq<seq<int>>
    /** owner[d] is the list data[d] was added to, or NULL once that list was nullified. */
    ghost var owner: seq<int>

    ghost predicate Valid()
      reads this
    {
      ListsValid(lists, head, tail, next, |data|, owner)
    }

    /** The elements of list i, in insertion order. */
    ghost function Contents(i: int): (s: seq<T>)
      reads this
      requires Valid() && 0 <= i < |lists|
      ensures |s| == |lists[i]|
    {
      var li, d := lists[i], data;
      seq(|li|, k requires 0 <= k < |li| => d[li[k]])
    }

    /** The elements of every list. */
    ghost function AllContents(): (r: seq<seq<T>>)
      reads this
      requires Valid()
      ensures |r| == |lists| && forall i :: 0 <= i < |lists| ==> r[i] == Contents(i)
    {
      seq(|lists|, i reads this requires Valid() && 0 <= i < |lists| => Contents(i))
    }

    /** The data indexes reached from n by following next, at most fuel of them. */
    ghost function Walk(n: int, fuel: nat): seq<int>
      reads this
      decreases fuel
    {
      if fuel == 0 || n < 0 || n >= |next| then [] else [n] + Walk(next[n], fuel - 1)
    }

    constructor ()
      ensures Valid() && data == [] && head == [] && tail == [] && next == [] && lists == []
    {
      data, head, tail, next := [], [], [], [];
      lists, owner := [], [];
    }

    method Head(at: int) returns (r: Result<int>)
      requires Valid()
      ensures r.Ok? <==> 0 <= at < |lists|
      ensures r == Err(InvalidArgument) <==> at == NULL
      ensures r.Ok? ==> (r.value == NULL <==> lists[at] == [])
      ensures r.Ok? && r.value != NULL ==> r.value == lists[at][0]
      ensures r.Err? ==> Fail(r.error) == CheckIndex(at, |lists|)
    {
      var c := CheckIndex(at, |head|);
      if c.Fail? { return Err(c.error); }
      r := Ok(head[at]);
    }

    method Tail(at: int) returns (r: Result<int>)
      requires Valid()
      ensures r.Ok? <==> 0 <= at < |lists|
      ensures r == Err(InvalidArgument) <==> at == NULL
      ensures r.Ok? ==> (r.value == NULL <==> lists[at] == [])
      ensures r.Ok? && r.value != NULL ==> r.value == lists[at][|lists[at]| - 1]
      ensures r.Err? ==> Fail(r.error) == CheckIndex(at, |lists|)
    {
      var c := CheckIndex(at, |tail|);
      if c.Fail? { return Err(c.error); }
      r := Ok(tail[at]);
    }

    /** next() validates `at` against the data size, not the head size. */
    method Next(at: int) returns (r: Result<int>)
      requires Valid()
      ensures r.Ok? <==> 0 <= at < |data|
      ensures r == Err(InvalidArgument) <==> at == NULL
      ensures r.Ok? ==> r.value == next[at]
      ensures forall i, k :: r.Ok? && 0 <= i < |lists| && 0 <= k < |lists[i]| && lists[i][k] == at ==>
                r.value == (if k + 1 < |lists[i]| then lists[i][k + 1] else NULL)
      ensures r.Err? ==> Fail(r.error) == CheckIndex(at, |data|)
    {
      var c := CheckIndex(at, |data|);
      if c.Fail? { return Err(c.error); }
      r := Ok(next[at]);
    }

    method Fetch(at: int) returns (r: Result<T>)
      requires Valid()
      ensures r.Ok? <==> 0 <= at < |data|
      ensures r == Err(InvalidArgument) <==> at == NULL
      ensures r.Ok? ==> r.value == data[at]
      ensures r.Err? ==> Fail(r.error) == CheckIndex(at, |data|)
    {
      var c := CheckIndex(at, |data|);
      if c.Fail? { return Err(c.error); }
      r := Ok(data[at]);
    }

    /**
     * Appends x to list `at`, creating null lists up to `at` when needed.
     * A negative non-null index is cast to a huge size_t, and resizing the
     * head vector to it throws std::length_error.
     */
    method Extend(at: int, x: T) returns (r: Outcome)
      requires Valid()
      modifies this
      ensures Valid()
      ensures r == Fail(InvalidArgument) <==> at == NULL
      ensures r == Fail(ListOverflow) <==> at != NULL && |old(data)| >= INT32_MAX - 1
      ensures r == Fail(LengthError) <==> at < NULL && |old(data)| < INT32_MAX - 1
      ensures r == Done <==> 0 <= at && |old(data)| < INT32_MAX - 1
      ensures r.Fail? ==> data == old(data) && head == old(head) && tail == old(tail)
                          && next == old(next) && lists == old(lists)
      ensures r.Done? ==> data == old(data) + [x] && lists == Pushed(old(lists), at, |old(data)|)
      ensures r.Done? ==> tail[at] == |old(data)|
      ensures r.Done? && at < |old(lists)| && old(lists)[at] != [] ==>
                head[at] == old(head)[at] && next[old(tail)[at]] == |old(data)|
      ensures r.Done? && (at >= |old(lists)| || old(lists)[at] == []) ==> head[at] == |old(data)|
      ensures r.Done? ==> forall i :: 0 <= i < |old(head)| && i != at ==>
                            head[i] == old(head)[i] && tail[i] == old(tail)[i]
    {
      if at == NULL { return Fail(InvalidArgument); }
      if |data| >= INT32_MAX - 1 { return Fail(ListOverflow); }
      if at < 0 { return Fail(LengthError); }
      if at >= |head| { Grow(at + 1); }
      Push(at, x);
      r := Done;
    }

    /** The part of extend after the checks and the resize: x joins list `at`. */
    method Push(at: int, x: T)
      requires Valid() && 0 <= at < |head|
      modifies this
      ensures Valid()
      ensures data == old(data) + [x] && lists == old(lists)[at := old(lists)[at] + [|old(data)|]]
      ensures tail == old(tail)[at := |old(data)|]
      ensures old(lists)[at] != [] ==> head == old(head) && next[old(tail)[at]] == |old(data)|
      ensures old(lists)[at] == [] ==> head == old(head)[at := |old(data)|]
    {
      if head[at] == NULL {
        assert lists[at] + [|data|] == [|data|];
        InsertNewRecord(at, x);
        return;
      }
      var t := tail[at];
      if t == NULL {
        assert false;
      }
      AppendRecord(at, x);
    }

    /** Resizes head and tail to n entries, filling with null. */
    method Grow(n: int)
      requires Valid() && |head| < n
      modifies this
      ensures Valid()
      ensures data == old(data) && next == old(next)
      ensures head == old(head) + seq(n - |old(head)|, _ => NULL)
      ensures tail == old(tail) + seq(n - |old(tail)|, _ => NULL)
      ensures lists == old(lists) + seq(n - |old(lists)|, _ => [])
    {
      var pad := n - |head|;
      GrowKeepsValid(lists, head, tail, next, |data|, owner, pad);
      head := head + seq(pad, _ => NULL);
      tail := tail + seq(pad, _ => NULL);
      lists := lists + seq(pad, _ => []);
    }

    /** insert_new_record: x becomes the only element of the empty list `at`. */
    method InsertNewRecord(at: int, x: T)
      requires Valid() && 0 <= at < |head| && lists[at] == []
      modifies this
      ensures Valid()
      ensures data == old(data) + [x] && next == old(next) + [NULL]
      ensures head == old(head)[at := |old(data)|] && tail == old(tail)[at := |old(data)|]
      ensures lists == old(lists)[at := [|old(data)|]]
    {
      var d := |data|;
      InsertKeepsValid(lists, head, tail, next, d, owner, at);
      data := data + [x];
      head := head[at := d];
      tail := tail[at := d];
      next := next + [NULL];
      lists := lists[at := [d]];
      owner := owner + [at];
    }

    /** x becomes the new tail of the non-empty list `at`, linked from the old tail. */
    method AppendRecord(at: int, x: T)
      requires Valid() && 0 <= at < |head| && lists[at] != []
      modifies this
      ensures Valid()
      ensures data == old(data) + [x] && head == old(head)
      ensures next == old(next)[old(tail)[at] := |old(data)|] + [NULL]
      ensures tail == old(tail)[at := |old(data)|]
      ensures lists == old(lists)[at := old(lists)[at] + [|old(data)|]]
    {
      var d := |data|;
      var t := tail[at];
      AppendKeepsValid(lists, head, tail, next, d, owner, at);
      data := data + [x];
      tail := tail[at := d];
      next := next[t := d] + [NULL];
      lists := lists[at := lists[at] + [d]];
      owner := owner + [at];
    }

    /** Forgets list `at`; its elements stay in the data vector. */
    method NullifyList(at: int) returns (r: Outcome)
      requires Valid()
      modifies this
      ensures Valid()
      ensures r == CheckIndex(at, |old(head)|)
      ensures data == old(data) && next == old(next)
      ensures r.Fail? ==> head == old(head) && tail == old(tail) && lists == old(lists)
      ensures r.Done? ==> head == old(head)[at := NULL] && tail == old(tail)[at := NULL]
                          && lists == old(lists)[at := []]
    {
      r := CheckIndex(at, |head|);
      if r.Fail? { return; }
      NullifyKeepsValid(lists, head, tail, next, |data|, owner, at);
      head := head[at := NULL];
      tail := tail[at := NULL];
      var o := owner;
      owner := seq(|o|, d requires 0 <= d < |o| => if o[d] == at then NULL else o[d]);
      lists := lists[at := []];
    }

    /** Empties the container and leaves `n` empty lists. */
    method Reset(n: nat)
      requires Valid()
      modifies this
      ensures Valid()
      ensures data == [] && next == [] && |head| == n && |lists| == n
      ensures forall i :: 0 <= i < n ==> head[i] == NULL && tail[i] == NULL && lists[i] == []
    {
      Clear();
      head := seq(n, _ => NULL);
      tail := seq(n, _ => NULL);
      lists := seq(n, _ => []);
    }

    method Clear()
      modifies this
      ensures Valid()
      ensures data == [] && head == [] && tail == [] && next == [] && lists == []
    {
      data, head, tail, next := [], [], [], [];
      lists, owner := [], [];
    }

    /**
     * Walks list `at` from its head through next, fetching each element:
     * the loop that every caller of the buffer writes.
     */
    method Elements(at: int) returns (r: Result<seq<T>>)
      requires Valid()
      ensures r.Ok? <==> 0 <= at < |lists|
      ensures r == Err(InvalidArgument) <==> at == NULL
      ensures r.Ok? ==> r.value == Contents(at)
    {
      var h := Head(at);
      if h.Err? { return Err(h.error); }
      var n := h.value;
      var out: seq<T> := [];
      ghost var k := 0;
      while n != NULL
        invariant 0 <= k <= |lists[at]|
        invariant n == (if k < |lists[at]| then lists[at][k] else NULL)
        invariant out == Contents(at)[..k]
        decreases |lists[at]| - k
      {
        assert lists[at][k] == n && 0 <= n < |data|;
        var b := Fetch(n);
        var nx := Next(n);
        NextInList(this, at, k);
        assert nx.value == (if k + 1 < |lists[at]| then lists[at][k + 1] else NULL);
        out := out + [b.value];
        n := nx.value;
        k := k + 1;
      }
      r := Ok(out);
    }
  }

  /** The element after a list's k-th one is its (k+1)-th, or null at the end. */
  lemma NextInList<T>(l: NestedForwardLists<T>, i: int, k: int)
    requires l.Valid() && 0 <= i < |l.lists| && 0 <= k < |l.lists[i]|
    ensures 0 <= l.lists[i][k] < |l.next|
    ensures l.next[l.lists[i][k]] == if k + 1 < |l.lists[i]| then l.lists[i][k + 1] else NULL
  {
  }

  /** Following next from a list's k-th element visits exactly the rest of that list. */
  lemma {:induction false} WalkSuffix<T>(l: NestedForwardLists<T>, i: int, k: nat, fuel: nat)
    requires l.Valid() && 0 <= i < |l.lists| && k < |l.lists[i]|
    requires fuel >= |l.lists[i]| - k
    ensures l.Walk(l.lists[i][k], fuel) == l.lists[i][k..]
    decreases |l.lists[i]| - k
  {
    var li := l.lists[i];
    if k + 1 < |li| {
      WalkSuffix(l, i, k + 1, fuel - 1);
      assert li[k..] == [li[k]] + li[k + 1..];
    } else {
      assert l.next[li[k]] == NULL;
      assert li[k..] == [li[k]];
    }
  }

  lemma {:induction false} IncreasingGap(li: seq<int>, a: nat, b: nat)
    requires forall k :: 0 <= k < |li| - 1 ==> li[k] < li[k + 1]
    requires a <= b < |li|
    ensures li[b] >= li[a] + (b - a)
    decreases b - a
  {
    if a < b { IncreasingGap(li, a, b - 1); }
  }

  /** A list's indexes are strictly increasing, so it is no longer than the data vector. */
  lemma ListLength<T>(l: NestedForwardLists<T>, i: int)
    requires l.Valid() && 0 <= i < |l.lists|
    ensures |l.lists[i]| <= |l.data|
  {
    var li := l.lists[i];
    if li != [] {
      forall k | 0 <= k < |li| - 1 ensures li[k] < li[k + 1] { }
      IncreasingGap(li, 0, |li| - 1);
    }
  }

  /** Walking a list from its head through next yields the list in insertion order. */
  lemma WalkFromHead<T>(l: NestedForwardLists<T>, i: int)
    requires l.Valid() && 0 <= i < |l.lists|
    ensures l.Walk(l.head[i], |l.data|) == l.lists[i]
  {
    if l.lists[i] != [] {
      ListLength(l, i);
      WalkSuffix(l, i, 0, |l.data|);
    }
  }
}

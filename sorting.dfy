// Orderings used by the library's calls to std::sort, std::stable_sort and
// std::lower_bound/upper_bound: every comparator of the modelled code
// compares a tuple of numbers lexicographically (std::tie), so it is given
// here as a key function into seq<real> and the ordering is LexLess.

module Sorting {

  /** Strict lexicographic order on sequences of reals (std::tuple's operator<). */
  predicate LexLess(a: seq<real>, b: seq<real>)
    decreases |a|
  {
    if a == [] then b != []
    else if b == [] then false
    else a[0] < b[0] || (a[0] == b[0] && LexLess(a[1..], b[1..]))
  }

  lemma {:induction false} LexIrreflexive(a: seq<real>)
    ensures !LexLess(a, a)
    decreases |a|
  {
    if a != [] { LexIrreflexive(a[1..]); }
  }

  lemma {:induction false} LexTransitive(a: seq<real>, b: seq<real>, c: seq<real>)
    requires LexLess(a, b) && LexLess(b, c)
    ensures LexLess(a, c)
    decreases |a|
  {
    if a != [] && b != [] && c != [] && a[0] == b[0] == c[0] {
      LexTransitive(a[1..], b[1..], c[1..]);
    }
  }

  lemma {:induction false} LexTotal(a: seq<real>, b: seq<real>)
    ensures a == b || LexLess(a, b) || LexLess(b, a)
    decreases |a|
  {
    if a != [] && b != [] && a[0] == b[0] {
      LexTotal(a[1..], b[1..]);
      if a[1..] == b[1..] {
        assert a == [a[0]] + a[1..] && b == [b[0]] + b[1..];
      }
    }
  }

  /** a <= b in the lexicographic order. */
  lemma LexNotLessTransitive(a: seq<real>, b: seq<real>, c: seq<real>)
    requires !LexLess(b, a) && !LexLess(c, b)
    ensures !LexLess(c, a)
  {
    LexTotal(a, b);
    LexTotal(b, c);
    if a != b && b != c { LexTransitive(a, b, c); LexIrreflexive(a); if LexLess(c, a) { LexTransitive(c, a, b); LexIrreflexive(b); } }
    else if a == b { } else { }
  }

  /** No element is ordered strictly before an earlier one. */
  predicate SortedBy<T>(s: seq<T>, key: T -> seq<real>)
  {
    forall i, j :: 0 <= i < j < |s| ==> !LexLess(key(s[j]), key(s[i]))
  }

  /** Inserts x before the first element whose key is not smaller than x's. */
  function Insert<T>(x: T, s: seq<T>, key: T -> seq<real>): (r: seq<T>)
    ensures |r| == |s| + 1
  {
    if s == [] then [x]
    else if !LexLess(key(s[0]), key(x)) then [x] + s
    else
      assert s == [s[0]] + s[1..];
      [s[0]] + Insert(x, s[1..], key)
  }

  /** Stable insertion sort: equal keys keep their input order. */
  function SortBy<T>(s: seq<T>, key: T -> seq<real>): (r: seq<T>)
    ensures |r| == |s|
  {
    if s == [] then []
    else
      assert s == [s[0]] + s[1..];
      Insert(s[0], SortBy(s[1..], key), key)
  }

  /** Inserting adds x and keeps every element of s. */
  lemma {:induction false} InsertPermutes<T>(x: T, s: seq<T>, key: T -> seq<real>)
    ensures multiset(Insert(x, s, key)) == multiset(s) + multiset{x}
  {
    if s != [] && LexLess(key(s[0]), key(x)) {
      InsertPermutes(x, s[1..], key);
      assert s == [s[0]] + s[1..];
    }
  }

  /** Sorting keeps every element with its multiplicity. */
  lemma {:induction false} SortByPermutes<T>(s: seq<T>, key: T -> seq<real>)
    ensures multiset(SortBy(s, key)) == multiset(s)
  {
    if s != [] {
      SortByPermutes(s[1..], key);
      InsertPermutes(s[0], SortBy(s[1..], key), key);
      assert s == [s[0]] + s[1..];
    }
  }

  lemma {:induction false} InsertSorted<T>(x: T, s: seq<T>, key: T -> seq<real>)
    requires SortedBy(s, key)
    ensures SortedBy(Insert(x, s, key), key)
  {
    if s == [] {
    } else if !LexLess(key(s[0]), key(x)) {
      var r := [x] + s;
      forall i, j | 0 <= i < j < |r| ensures !LexLess(key(r[j]), key(r[i])) {
        if i == 0 && j > 1 {
          LexNotLessTransitive(key(x), key(s[0]), key(s[j - 1]));
        }
      }
    } else {
      InsertSorted(x, s[1..], key);
      var t := Insert(x, s[1..], key);
      var r := [s[0]] + t;
      InsertPermutes(x, s[1..], key);
      assert multiset(t) == multiset(s[1..]) + multiset{x};
      forall i, j | 0 <= i < j < |r| ensures !LexLess(key(r[j]), key(r[i])) {
        if i == 0 {
          assert r[j] in multiset(t);
          if r[j] == x {
            LexTotal(key(x), key(s[0]));
            LexIrreflexive(key(x));
            if LexLess(key(x), key(s[0])) { LexTransitive(key(x), key(s[0]), key(x)); }
          } else {
            assert r[j] in multiset(s[1..]);
            var k :| 0 <= k < |s[1..]| && s[1..][k] == r[j];
            assert s[k + 1] == r[j];
          }
        }
      }
    }
  }

  lemma {:induction false} SortBySorted<T>(s: seq<T>, key: T -> seq<real>)
    ensures SortedBy(SortBy(s, key), key)
  {
    if s != [] {
      SortBySorted(s[1..], key);
      InsertSorted(s[0], SortBy(s[1..], key), key);
    }
  }

  /** The sorted result is a permutation of the input and is sorted. */
  lemma SortByCorrect<T>(s: seq<T>, key: T -> seq<real>)
    ensures SortedBy(SortBy(s, key), key)
    ensures multiset(SortBy(s, key)) == multiset(s) && |SortBy(s, key)| == |s|
  {
    SortBySorted(s, key);
    SortByPermutes(s, key);
  }

  /** Number of leading elements of a sorted `s` whose key is <= k (std::upper_bound). */
  function UpperBound<T>(s: seq<T>, k: seq<real>, key: T -> seq<real>): (i: nat)
    ensures i <= |s|
    ensures forall j :: 0 <= j < i ==> !LexLess(k, key(s[j]))
  {
    if s == [] || LexLess(k, key(s[0])) then 0 else 1 + UpperBound(s[1..], k, key)
  }

  /** The upper bound depends on the keys of the elements only. */
  lemma {:induction false} UpperBoundSameKeys<T>(s: seq<T>, k: seq<real>, key1: T -> seq<real>, key2: T -> seq<real>)
    requires forall i :: 0 <= i < |s| ==> key1(s[i]) == key2(s[i])
    ensures UpperBound(s, k, key1) == UpperBound(s, k, key2)
  {
    if s != [] {
      UpperBoundSameKeys(s[1..], k, key1, key2);
    }
  }

  /** Number of leading elements of a sorted `s` whose key is < k (std::lower_bound). */
  function LowerBound<T>(s: seq<T>, k: seq<real>, key: T -> seq<real>): (i: nat)
    ensures i <= |s|
    ensures forall j :: 0 <= j < i ==> LexLess(key(s[j]), k)
  {
    if s == [] || !LexLess(key(s[0]), k) then 0 else 1 + LowerBound(s[1..], k, key)
  }

  lemma {:induction false} UpperBoundRest<T>(s: seq<T>, k: seq<real>, key: T -> seq<real>)
    requires SortedBy(s, key)
    ensures forall j :: UpperBound(s, k, key) <= j < |s| ==> LexLess(k, key(s[j]))
  {
    if s != [] && !LexLess(k, key(s[0])) {
      assert SortedBy(s[1..], key) by {
        forall i, j | 0 <= i < j < |s[1..]| ensures !LexLess(key(s[1..][j]), key(s[1..][i])) {
          assert s[1..][j] == s[j + 1] && s[1..][i] == s[i + 1];
        }
      }
      UpperBoundRest(s[1..], k, key);
      forall j | UpperBound(s, k, key) <= j < |s| ensures LexLess(k, key(s[j])) {
        assert s[j] == s[1..][j - 1];
      }
    } else if s != [] {
      forall j | 0 <= j < |s| ensures LexLess(k, key(s[j])) {
        if j > 0 {
          LexTotal(key(s[0]), key(s[j]));
          if key(s[0]) != key(s[j]) { LexTransitive(k, key(s[0]), key(s[j])); }
        }
      }
    }
  }

  /** Stable insertion: inserting at upper_bound keeps a sorted sequence sorted. */
  lemma {:induction false} InsertAtUpperBoundSorted<T>(s: seq<T>, x: T, key: T -> seq<real>)
    requires SortedBy(s, key)
    ensures var i := UpperBound(s, key(x), key); SortedBy(s[..i] + [x] + s[i..], key)
  {
    var i := UpperBound(s, key(x), key);
    UpperBoundRest(s, key(x), key);
    var r := s[..i] + [x] + s[i..];
    forall a, b | 0 <= a < b < |r| ensures !LexLess(key(r[b]), key(r[a])) {
      if b < i {
        assert r[a] == s[a] && r[b] == s[b];
      } else if b == i {
      } else {
        assert r[b] == s[b - 1];
        if a < i {
          assert r[a] == s[a];
        } else if a == i {
          LexIrreflexive(key(x));
          if LexLess(key(s[b - 1]), key(x)) { LexTransitive(key(x), key(s[b - 1]), key(x)); }
        } else {
          assert r[a] == s[a - 1];
        }
      }
    }
  }
}

// Shared vocabulary of the model: the exceptions the library throws, the
// value types of the population (mutations, haploid genomes, diploids) and
// of the tree-sequence tables (nodes, edges, sites, mutation records).

module Types {

  /** The C++ exception types thrown by the modelled code, one constructor each. */
  datatype Error =
    | InvalidArgument     // std::invalid_argument
    | OutOfRange          // std::out_of_range
    | RuntimeError        // std::runtime_error
    | OverflowError       // std::overflow_error
    | LengthError         // std::length_error (a vector resized past max_size())
    | LogicError          // std::logic_error
    | ListOverflow        // nested_forward_lists_overflow
    | TablesError         // fwdpp::ts::tables_error
    | EmptySamples        // fwdpp::ts::empty_samples
    | SamplesError        // fwdpp::ts::samples_error
    | Undefined           // no exception: the library would loop forever or read outside an array

  datatype Result<T> = Ok(value: T) | Err(error: Error)
  {
    predicate IsFailure() { Err? }
    function PropagateFailure<U>(): Result<U> requires Err? { Err(error) }
    function Extract(): T requires Ok? { value }
  }

  /** The outcome of an operation that returns nothing but may throw. */
  datatype Outcome = Done | Fail(error: Error)

  /** The null id of the tree-sequence tables and of the edge buffer (signed, -1). */
  const NULL: int := -1
  /** std::numeric_limits<std::int32_t>::max() */
  const INT32_MAX: int := 0x7FFF_FFFF
  /** std::numeric_limits<std::size_t>::max(), the "no edges" mark of the edge buffer. */
  const SIZE_MAX: int := 0xFFFF_FFFF_FFFF_FFFF

  /** Narrowing conversion to std::int32_t (two's complement wrap-around). */
  function ToInt32(x: int): (r: int)
    ensures -0x8000_0000 <= r <= INT32_MAX
    ensures 0 <= x <= INT32_MAX ==> r == x
    ensures 0 <= x ==> r <= x
  {
    ((x + 0x8000_0000) % 0x1_0000_0000) - 0x8000_0000
  }

  /** Conversion to std::size_t (wrap-around modulo 2^64). */
  function ToSizeT(x: int): (r: int)
    ensures 0 <= r <= SIZE_MAX
    ensures 0 <= x <= SIZE_MAX ==> r == x
  {
    x % 0x1_0000_0000_0000_0000
  }
  /** std::numeric_limits<unsigned>::max() + 1: unsigned arithmetic wraps modulo this. */
  const UINT_MODULUS: int := 0x1_0000_0000
  /** std::numeric_limits<double>::max() */
  const MAX_DOUBLE: real := 179769313486231570814527423731704356798070567525844996598917476803157260780028538760589558632766878171540458953514382464234321326889464182768467546703537516986049910576551282076245490090389328944075868508455133942304583236903222948165808559332123348274797826204144723168738177180919299881250404026184124858368.0

  /** A double as the library sees it: a finite value, an infinity, or NaN. */
  datatype Double = Finite(v: real) | PosInf | NegInf | NaN

  /**
   * fwdpp::mutation: position, selection and dominance coefficients, the
   * generation of origin, the 16-bit extra field and the neutrality flag.
   * Positions are only ever compared, so they are exact reals here.
   */
  datatype Mutation = Mutation(pos: real, s: real, h: real, g: nat, xtra: nat, neutral: bool)

  /**
   * A haploid genome (gamete): its number of copies `n` and the keys (indexes
   * into the mutation vector) of its neutral and selected mutations.
   */
  datatype Gamete = Gamete(n: nat, mutations: seq<nat>, smutations: seq<nat>)

  /**
   * One entry of a population's position lookup, a multimap from
   * position to mutation index, which is modelled by its contents: a
   * multiset of entries.
   */
  datatype LookupEntry = LookupEntry(pos: real, index: nat)

  /** A diploid: the indexes of its two haploid genomes. */
  datatype Diploid = Diploid(first: nat, second: nat)

  /** Tree-sequence node: population (deme) and birth time. */
  datatype Node = Node(deme: int, time: real)

  /** Tree-sequence edge: the half-open interval [left, right) passed from parent to child. */
  datatype Edge = Edge(left: real, right: real, parent: int, child: int)

  /** Tree-sequence site: its position and ancestral state. */
  datatype Site = Site(position: real, ancestralState: int)

  /** Tree-sequence mutation record: the node carrying it, its key in the mutation vector, and its site. */
  datatype MutationRecord = MutationRecord(node: int, key: nat, site: int, derivedState: int, neutral: bool)

  /** Number of occurrences of `x` in `s`. */
  function Count<T(==)>(s: seq<T>, x: T): (c: nat)
    ensures c <= |s|
    ensures c == multiset(s)[x]
  {
    if s == [] then 0
    else
      assert s == [s[0]] + s[1..];
      (if s[0] == x then 1 else 0) + Count(s[1..], x)
  }

  /** Elements of `s` that satisfy `p`, in their order. */
  function Filter<T>(s: seq<T>, p: T -> bool): (r: seq<T>)
    ensures |r| <= |s|
    ensures forall i :: 0 <= i < |r| ==> p(r[i])
  {
    if s == [] then [] else (if p(s[0]) then [s[0]] else []) + Filter(s[1..], p)
  }

  lemma {:induction false} FilterMembers<T>(s: seq<T>, p: T -> bool)
    ensures forall x :: x in Filter(s, p) <==> x in s && p(x)
  {
    if s != [] {
      FilterMembers(s[1..], p);
      assert s == [s[0]] + s[1..];
    }
  }

  lemma {:induction false} FilterConcat<T>(a: seq<T>, b: seq<T>, p: T -> bool)
    ensures Filter(a + b, p) == Filter(a, p) + Filter(b, p)
  {
    if a == [] {
      assert a + b == b;
    } else {
      assert (a + b)[1..] == a[1..] + b;
      FilterConcat(a[1..], b, p);
    }
  }

  lemma {:induction false} FilterAll<T>(s: seq<T>, p: T -> bool)
    requires forall i :: 0 <= i < |s| ==> p(s[i])
    ensures Filter(s, p) == s
  {
    if s != [] { FilterAll(s[1..], p); }
  }

  lemma {:induction false} FilterNone<T>(s: seq<T>, p: T -> bool)
    requires forall i :: 0 <= i < |s| ==> !p(s[i])
    ensures Filter(s, p) == []
  {
    if s != [] { FilterNone(s[1..], p); }
  }

  lemma {:induction false} FilterMultiset<T>(s: seq<T>, p: T -> bool, q: T -> bool)
    requires forall x :: q(x) == !p(x)
    ensures multiset(Filter(s, p)) + multiset(Filter(s, q)) == multiset(s)
  {
    if s != [] {
      var t := s[1..];
      FilterMultiset(t, p, q);
      var x := s[0];
      assert s == [x] + t;
      var fp, fq := Filter(t, p), Filter(t, q);
      if p(x) {
        assert Filter(s, p) == [x] + fp;
        assert Filter(s, q) == fq;
        FilterStep(x, t, fp, fq);
      } else {
        assert Filter(s, p) == fp;
        assert Filter(s, q) == [x] + fq;
        FilterStep(x, t, fq, fp);
      }
    }
  }

  /** Filters whose predicates agree on the elements are equal. */
  lemma {:induction false} FilterSame<T>(s: seq<T>, p: T -> bool, q: T -> bool)
    requires forall i :: 0 <= i < |s| ==> p(s[i]) == q(s[i])
    ensures Filter(s, p) == Filter(s, q)
  {
    if s != [] { FilterSame(s[1..], p, q); }
  }

  /** Filtering by two disjoint predicates picks out, together, what their disjunction picks. */
  lemma {:induction false} FilterSplit<T>(s: seq<T>, r: T -> bool, p: T -> bool, q: T -> bool)
    requires forall i :: 0 <= i < |s| ==> r(s[i]) == (p(s[i]) || q(s[i])) && !(p(s[i]) && q(s[i]))
    ensures multiset(Filter(s, p)) + multiset(Filter(s, q)) == multiset(Filter(s, r))
  {
    if s != [] {
      FilterSplit(s[1..], r, p, q);
    }
  }

  lemma FilterStep<T>(x: T, t: seq<T>, a: seq<T>, b: seq<T>)
    requires multiset(a) + multiset(b) == multiset(t)
    ensures multiset([x] + a) + multiset(b) == multiset([x] + t)
    ensures multiset(b) + multiset([x] + a) == multiset([x] + t)
  {
  }

  /** Number of elements of `s` that satisfy `p`. */
  function CountIf<T>(s: seq<T>, p: T -> bool): (c: nat)
    ensures c == |Filter(s, p)|
  {
    if s == [] then 0 else (if p(s[0]) then 1 else 0) + CountIf(s[1..], p)
  }

  /** Sum of a sequence of naturals. */
  function Sum(s: seq<nat>): nat
  {
    if s == [] then 0 else s[0] + Sum(s[1..])
  }

  lemma {:induction false} SumConcat(a: seq<nat>, b: seq<nat>)
    ensures Sum(a + b) == Sum(a) + Sum(b)
  {
    if a == [] {
      assert a + b == b;
    } else {
      assert (a + b)[1..] == a[1..] + b;
      SumConcat(a[1..], b);
    }
  }

  /** `s` with every element replaced by `f` of it. */
  function Map<T, U>(s: seq<T>, f: T -> U): (r: seq<U>)
    ensures |r| == |s|
    ensures forall i :: 0 <= i < |s| ==> r[i] == f(s[i])
  {
    seq(|s|, i requires 0 <= i < |s| => f(s[i]))
  }

  /** The integers lo, lo+1, ..., hi-1. */
  function Range(lo: int, hi: int): (r: seq<int>)
    requires lo <= hi
    ensures |r| == hi - lo
    ensures forall i :: 0 <= i < |r| ==> r[i] == lo + i
  {
    seq(hi - lo, i => lo + i)
  }

  /** Strictly increasing indexes. */
  predicate Ascending(q: seq<nat>)
  {
    forall a, b :: 0 <= a < b < |q| ==> q[a] < q[b]
  }

  /** Filtering an ascending sequence leaves it ascending. */
  lemma {:induction false} FilterAscending(s: seq<nat>, p: nat -> bool)
    requires Ascending(s)
    ensures Ascending(Filter(s, p))
  {
    if s != [] {
      var t := Filter(s[1..], p);
      assert Ascending(s[1..]) by {
        forall a, b | 0 <= a < b < |s[1..]| ensures s[1..][a] < s[1..][b] {
          assert s[1..][a] == s[a + 1] && s[1..][b] == s[b + 1];
        }
      }
      FilterAscending(s[1..], p);
      assert forall i :: 0 <= i < |s[1..]| ==> s[0] < s[1..][i] by {
        forall i | 0 <= i < |s[1..]| ensures s[0] < s[1..][i] { assert s[1..][i] == s[i + 1]; }
      }
      FilterAbove(s[1..], p, s[0]);
    }
  }

  /** Filtering keeps only elements of the input, so a lower bound of the input bounds the result. */
  lemma {:induction false} FilterAbove(s: seq<nat>, p: nat -> bool, x: nat)
    requires forall i :: 0 <= i < |s| ==> x < s[i]
    ensures forall i :: 0 <= i < |Filter(s, p)| ==> x < Filter(s, p)[i]
  {
    if s != [] {
      FilterAbove(s[1..], p, x);
    }
  }

  /** Duplicate-free sequence. */
  predicate Distinct<T(==)>(s: seq<T>)
  {
    forall i, j :: 0 <= i < j < |s| ==> s[i] != s[j]
  }

  /** The concatenation of f(x) for the elements x of s, in order. */
  function FlatMap<T, U>(s: seq<T>, f: T -> seq<U>): seq<U>
  {
    if s == [] then [] else f(s[0]) + FlatMap(s[1..], f)
  }

  lemma {:induction false} FlatMapConcat<T, U>(a: seq<T>, b: seq<T>, f: T -> seq<U>)
    ensures FlatMap(a + b, f) == FlatMap(a, f) + FlatMap(b, f)
  {
    if a == [] {
      assert a + b == b;
    } else {
      assert (a + b)[1..] == a[1..] + b;
      FlatMapConcat(a[1..], b, f);
    }
  }

  /** Removing the element at k from a sequence removes it from its multiset. */
  lemma RemoveAt<T>(b: seq<T>, k: nat)
    requires k < |b|
    ensures b == b[..k] + [b[k]] + b[k + 1..]
    ensures multiset(b[..k] + b[k + 1..]) == multiset(b) - multiset{b[k]}
  {
    assert b == b[..k] + [b[k]] + b[k + 1..];
  }

  lemma EmptyPermutation<T>(a: seq<T>, b: seq<T>)
    requires multiset(a) == multiset(b) && a == []
    ensures b == []
  {
    assert |b| == |multiset(b)|;
  }

  /** A position of x in b, and b without it. */
  lemma IndexOf<T>(b: seq<T>, x: T) returns (k: nat)
    requires x in multiset(b)
    ensures k < |b| && b[k] == x
    ensures b == b[..k] + [b[k]] + b[k + 1..]
    ensures multiset(b[..k] + b[k + 1..]) == multiset(b) - multiset{x}
  {
    assert x in b;
    k :| 0 <= k < |b| && b[k] == x;
    RemoveAt(b, k);
  }

  /** Permuting the input permutes a FlatMap's output. */
  lemma {:induction false} FlatMapPermutation<T, U>(a: seq<T>, b: seq<T>, f: T -> seq<U>)
    requires multiset(a) == multiset(b)
    ensures multiset(FlatMap(a, f)) == multiset(FlatMap(b, f))
    decreases |a|
  {
    if a == [] {
      EmptyPermutation(a, b);
    } else {
      var k := PermutationTail(a, b);
      var lo, hi := b[..k], b[k + 1..];
      FlatMapPermutation(a[1..], lo + hi, f);
      FlatMapSplit(b, k, f);
      FlatMapConcat(lo, hi, f);
      MovedBlock(f(a[0]), FlatMap(a[1..], f), FlatMap(lo, f), FlatMap(hi, f));
    }
  }

  /** Where the head of a sits in its permutation b, and the rest of a permutes the rest of b. */
  lemma PermutationTail<T>(a: seq<T>, b: seq<T>) returns (k: nat)
    requires a != [] && multiset(a) == multiset(b)
    ensures k < |b| && b[k] == a[0]
    ensures multiset(a[1..]) == multiset(b[..k] + b[k + 1..])
  {
    assert a == [a[0]] + a[1..];
    assert a[0] in multiset(b);
    k := IndexOf(b, a[0]);
  }

  lemma FlatMapSplit<T, U>(b: seq<T>, k: nat, f: T -> seq<U>)
    requires k < |b|
    ensures FlatMap(b, f) == FlatMap(b[..k], f) + (f(b[k]) + FlatMap(b[k + 1..], f))
  {
    var rest := b[k..];
    assert b == b[..k] + rest;
    FlatMapConcat(b[..k], rest, f);
    assert rest[0] == b[k] && rest[1..] == b[k + 1..];
  }

  /** A block moved into the middle of a permutation keeps the multiset. */
  lemma MovedBlock<U>(x: seq<U>, t: seq<U>, lo: seq<U>, hi: seq<U>)
    requires multiset(t) == multiset(lo + hi)
    ensures multiset(x + t) == multiset(lo + (x + hi))
  {
  }

  lemma MapConcat<T, U>(a: seq<T>, b: seq<T>, f: T -> U)
    ensures Map(a + b, f) == Map(a, f) + Map(b, f)
  {
    var l, r := Map(a + b, f), Map(a, f) + Map(b, f);
    forall i | 0 <= i < |l| ensures l[i] == r[i] {
      if i < |a| { assert (a + b)[i] == a[i]; } else { assert (a + b)[i] == b[i - |a|]; }
    }
  }

  /** Permuting the input permutes a Map's output. */
  lemma {:induction false} MapPermutation<T, U>(a: seq<T>, b: seq<T>, f: T -> U)
    requires multiset(a) == multiset(b)
    ensures multiset(Map(a, f)) == multiset(Map(b, f))
    decreases |a|
  {
    if a == [] {
      EmptyPermutation(a, b);
    } else {
      var k := PermutationTail(a, b);
      var lo, hi := b[..k], b[k + 1..];
      MapPermutation(a[1..], lo + hi, f);
      MapSplit(b, k, f);
      MapConcat(lo, hi, f);
      assert Map(a, f) == [f(a[0])] + Map(a[1..], f);
      MovedBlock([f(a[0])], Map(a[1..], f), Map(lo, f), Map(hi, f));
    }
  }

  lemma MapSplit<T, U>(b: seq<T>, k: nat, f: T -> U)
    requires k < |b|
    ensures Map(b, f) == Map(b[..k], f) + ([f(b[k])] + Map(b[k + 1..], f))
  {
  }

  /** A permutation of a duplicate-free sequence is duplicate-free. */
  lemma DistinctPermutation<T>(a: seq<T>, b: seq<T>)
    requires multiset(a) == multiset(b) && Distinct(a)
    ensures Distinct(b)
  {
    forall i, j | 0 <= i < j < |b| ensures b[i] != b[j] {
      TwoCopies(b, i, j);
      DistinctCount(a, b[i]);
    }
  }

  lemma TwoCopies<T>(b: seq<T>, i: nat, j: nat)
    requires i < j < |b|
    ensures b[i] == b[j] ==> multiset(b)[b[i]] >= 2
  {
    assert b == b[..j] + [b[j]] + b[j + 1..];
    assert b[..j][i] == b[i];
    assert b[i] in multiset(b[..j]);
  }

  lemma {:induction false} DistinctCount<T>(a: seq<T>, x: T)
    requires Distinct(a)
    ensures multiset(a)[x] <= 1
  {
    if a != [] {
      var t := a[1..];
      assert a == [a[0]] + t;
      assert Distinct(t) by {
        forall i, j | 0 <= i < j < |t| ensures t[i] != t[j] {
          assert t[i] == a[i + 1] && t[j] == a[j + 1];
        }
      }
      DistinctCount(t, x);
      assert forall k :: 0 <= k < |t| ==> t[k] != a[0] by {
        forall k | 0 <= k < |t| ensures t[k] != a[0] { assert t[k] == a[k + 1]; }
      }
      assert a[0] !in t;
      assert multiset(t)[a[0]] == 0;
    }
  }

  /** Filtering a duplicate-free sequence leaves it duplicate-free. */
  lemma FilterDistinct<T>(s: seq<T>, p: T -> bool)
    requires Distinct(s)
    ensures Distinct(Filter(s, p))
  {
    var q := x => !p(x);
    FilterMultiset(s, p, q);
    var f := Filter(s, p);
    forall i, j | 0 <= i < j < |f| ensures f[i] != f[j] {
      TwoCopies(f, i, j);
      DistinctCount(s, f[i]);
    }
  }

  /** Adjacent slices concatenate. */
  lemma SliceConcat<T>(s: seq<T>, a: int, b: int, c: int)
    requires 0 <= a <= b <= c <= |s|
    ensures s[a..b] + s[b..c] == s[a..c]
  {
  }

  /** Regrouping a concatenation. */
  lemma Regroup<T>(x: seq<T>, a: seq<T>, y: seq<T>, h: seq<T>, r: seq<T>)
    requires x == a + y && y == h + r
    ensures x == (a + h) + r
  {
  }
}

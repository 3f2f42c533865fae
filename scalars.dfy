// The binary streams of fwdpp's serialization.  fwdpp/io/scalar_serialization.hpp
// is not part of this model: a stream is modelled as a sequence of scalar
// words, one word per scalar written, tagged with the scalar's C++ type
// (unsigned, std::uint16_t, std::size_t, double).  A read succeeds when the
// next word has the type read; a read past the end or of the wrong type puts
// the stream in its failed state.

module Scalars {
  import opened Types

  datatype Scalar = U32(v: nat) | U16(v: nat) | Size(v: nat) | F64(r: real)

  /** The result of reading from position p: the value and the next position, or a failed stream. */
  datatype Read<T> = Got(value: T, next: nat) | Short

  /** The word sequence w sits in ws at position q. */
  predicate At(ws: seq<Scalar>, q: nat, w: seq<Scalar>)
  {
    q + |w| <= |ws| && ws[q..q + |w|] == w
  }

  function ReadU32(ws: seq<Scalar>, p: nat): (r: Read<nat>)
    ensures r.Got? <==> p < |ws| && ws[p].U32?
    ensures r.Got? ==> r.value == ws[p].v && r.next == p + 1
  {
    if p < |ws| && ws[p].U32? then Got(ws[p].v, p + 1) else Short
  }

  function ReadU16(ws: seq<Scalar>, p: nat): (r: Read<nat>)
    ensures r.Got? <==> p < |ws| && ws[p].U16?
    ensures r.Got? ==> r.value == ws[p].v && r.next == p + 1
  {
    if p < |ws| && ws[p].U16? then Got(ws[p].v, p + 1) else Short
  }

  function ReadSize(ws: seq<Scalar>, p: nat): (r: Read<nat>)
    ensures r.Got? <==> p < |ws| && ws[p].Size?
    ensures r.Got? ==> r.value == ws[p].v && r.next == p + 1
  {
    if p < |ws| && ws[p].Size? then Got(ws[p].v, p + 1) else Short
  }

  function ReadF64(ws: seq<Scalar>, p: nat): (r: Read<real>)
    ensures r.Got? <==> p < |ws| && ws[p].F64?
    ensures r.Got? ==> r.value == ws[p].r && r.next == p + 1
  {
    if p < |ws| && ws[p].F64? then Got(ws[p].r, p + 1) else Short
  }

  /** writer(buffer, data, k) on unsigned values: k words, in order. */
  function U32s(vs: seq<nat>): (r: seq<Scalar>)
    ensures |r| == |vs|
  {
    Map(vs, v => U32(v))
  }

  /** reader(buffer, data, k) on unsigned values. */
  function ReadU32s(ws: seq<Scalar>, p: nat, k: nat): (r: Read<seq<nat>>)
    ensures r.Got? ==> |r.value| == k && r.next == p + k
  {
    if p + k <= |ws| && forall i :: p <= i < p + k ==> ws[i].U32? then
      Got(seq(k, i requires 0 <= i < k => ws[p + i].v), p + k)
    else Short
  }

  /** Reading back k written unsigned values gives them back. */
  lemma ReadU32sAt(ws: seq<Scalar>, q: nat, vs: seq<nat>)
    requires At(ws, q, U32s(vs))
    ensures ReadU32s(ws, q, |vs|) == Got(vs, q + |vs|)
  {
    forall i | q <= i < q + |vs| ensures ws[i] == U32(vs[i - q]) {
      assert ws[q..q + |vs|][i - q] == ws[i];
    }
    var r := ReadU32s(ws, q, |vs|);
    assert r.value == vs;
  }

  /** An encoder f and a decoder rd agree on x wherever f(x) is found in a stream. */
  ghost predicate Decodes<T(!new)>(f: T -> seq<Scalar>, rd: (seq<Scalar>, nat) -> Read<T>, x: T)
  {
    forall ws, q: nat {:trigger rd(ws, q)} :: At(ws, q, f(x)) ==> rd(ws, q) == Got(x, q + |f(x)|)
  }

  /** The words of writing every element in turn. */
  function Words<T>(xs: seq<T>, f: T -> seq<Scalar>): seq<Scalar>
  {
    if xs == [] then [] else Words(xs[..|xs| - 1], f) + f(xs[|xs| - 1])
  }

  /** k elements read in turn from position p. */
  function ReadN<T>(ws: seq<Scalar>, p: nat, k: nat, rd: (seq<Scalar>, nat) -> Read<T>): (r: Read<seq<T>>)
    ensures r.Got? ==> |r.value| == k
  {
    if k == 0 then Got([], p)
    else
      match ReadN(ws, p, k - 1, rd)
      case Short => Short
      case Got(xs, q) =>
        match rd(ws, q)
        case Short => Short
        case Got(x, q2) => Got(xs + [x], q2)
  }

  /** Once a read fails, reading more elements fails too. */
  lemma {:induction false} ReadNShort<T>(ws: seq<Scalar>, p: nat, j: nat, k: nat, rd: (seq<Scalar>, nat) -> Read<T>)
    requires j <= k && ReadN(ws, p, j, rd).Short?
    ensures ReadN(ws, p, k, rd).Short?
    decreases k
  {
    if j < k {
      ReadNShort(ws, p, j, k - 1, rd);
    }
  }

  /** Reads k elements in turn from position p onto the end of acc; Short when one of them fails. */
  method ReadElements<T>(acc: seq<T>, ws: seq<Scalar>, p: nat, k: nat, rd: (seq<Scalar>, nat) -> Read<T>) returns (r: Read<seq<T>>)
    ensures r.Got? <==> ReadN(ws, p, k, rd).Got?
    ensures r.Got? ==> r.value == acc + ReadN(ws, p, k, rd).value && r.next == ReadN(ws, p, k, rd).next
  {
    var xs, q := acc, p;
    var i := 0;
    while i < k
      invariant 0 <= i <= k
      invariant ReadN(ws, p, i, rd).Got?
      invariant xs == acc + ReadN(ws, p, i, rd).value
      invariant q == ReadN(ws, p, i, rd).next
    {
      var x := rd(ws, q);
      if x.Short? {
        ReadNShort(ws, p, i + 1, k, rd);
        return Short;
      }
      xs, q := xs + [x.value], x.next;
      i := i + 1;
    }
    r := Got(xs, q);
  }

  /** A count followed by the elements: the layout of every container write. */
  function Counted<T>(xs: seq<T>, f: T -> seq<Scalar>): seq<Scalar>
  {
    [Size(|xs|)] + Words(xs, f)
  }

  /** A count read, then that many elements. */
  function ReadCounted<T>(ws: seq<Scalar>, p: nat, rd: (seq<Scalar>, nat) -> Read<T>): Read<seq<T>>
  {
    match ReadSize(ws, p)
    case Short => Short
    case Got(k, q) => ReadN(ws, q, k, rd)
  }

  lemma AtSplit(ws: seq<Scalar>, q: nat, a: seq<Scalar>, b: seq<Scalar>)
    requires At(ws, q, a + b)
    ensures At(ws, q, a) && At(ws, q + |a|, b)
  {
    assert ws[q..q + |a|] == (a + b)[..|a|];
    assert ws[q + |a|..q + |a| + |b|] == (a + b)[|a|..];
  }

  /** Reading back a sequence of elements each of which decodes gives the sequence back. */
  lemma {:induction false} ReadNWords<T(!new)>(ws: seq<Scalar>, q: nat, xs: seq<T>, f: T -> seq<Scalar>, rd: (seq<Scalar>, nat) -> Read<T>)
    requires forall i :: 0 <= i < |xs| ==> Decodes(f, rd, xs[i])
    requires At(ws, q, Words(xs, f))
    ensures ReadN(ws, q, |xs|, rd) == Got(xs, q + |Words(xs, f)|)
    decreases |xs|
  {
    if xs != [] {
      var init, last := xs[..|xs| - 1], xs[|xs| - 1];
      AtSplit(ws, q, Words(init, f), f(last));
      ReadNWords(ws, q, init, f, rd);
      assert Decodes(f, rd, last);
      assert init + [last] == xs;
    }
  }

  /** Counted containers read back. */
  lemma ReadCountedWords<T(!new)>(ws: seq<Scalar>, q: nat, xs: seq<T>, f: T -> seq<Scalar>, rd: (seq<Scalar>, nat) -> Read<T>)
    requires forall i :: 0 <= i < |xs| ==> Decodes(f, rd, xs[i])
    requires At(ws, q, Counted(xs, f))
    ensures ReadCounted(ws, q, rd) == Got(xs, q + |Counted(xs, f)|)
  {
    AtSplit(ws, q, [Size(|xs|)], Words(xs, f));
    assert ws[q] == ws[q..q + 1][0];
    ReadNWords(ws, q + 1, xs, f, rd);
  }
}

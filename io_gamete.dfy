// fwdpp/io/gamete.hpp: binary serialization of haploid genomes (gametes).  A
// gamete is written as its count n, then the number and the keys of its
// neutral mutations, then the number and the keys of its selected ones; a
// container of gametes as its size followed by every gamete.

module GameteIO {
  import opened Types
  import opened Scalars

  /** serialize_gamete: n, the neutral count and keys, the selected count and keys. */
  function GameteWords(g: Gamete): seq<Scalar>
  {
    [U32(g.n), Size(|g.mutations|)] + U32s(g.mutations) + [Size(|g.smutations|)] + U32s(g.smutations)
  }

  /** deserialize_gamete: the reads in the order of the writes, then T(n, mutations, smutations). */
  function ReadGamete(ws: seq<Scalar>, p: nat): Read<Gamete>
  {
    match ReadU32(ws, p)
    case Short => Short
    case Got(n, p1) =>
      match ReadSize(ws, p1)
      case Short => Short
      case Got(nm, p2) =>
        match ReadU32s(ws, p2, nm)
        case Short => Short
        case Got(mutations, p3) =>
          match ReadSize(ws, p3)
          case Short => Short
          case Got(ns, p4) =>
            match ReadU32s(ws, p4, ns)
            case Short => Short
            case Got(smutations, p5) => Got(Gamete(n, mutations, smutations), p5)
  }

  /** A gamete with no mutations is written as its count and two zero sizes. */
  lemma EmptyGameteLayout(n: nat)
    ensures GameteWords(Gamete(n, [], [])) == [U32(n), Size(0), Size(0)]
  {
    assert U32s([]) == [];
  }

  /** deserialize(serialize(g)) == g, count included, wherever the words sit in the stream. */
  lemma GameteRoundTrip(g: Gamete)
    ensures Decodes(GameteWords, ReadGamete, g)
  {
    forall ws, q: nat | At(ws, q, GameteWords(g))
      ensures ReadGamete(ws, q) == Got(g, q + |GameteWords(g)|)
    {
      GameteReadAt(ws, q, g);
    }
  }

  /** The five reads of deserialize_gamete, one field at a time. */
  lemma GameteReadAt(ws: seq<Scalar>, q: nat, g: Gamete)
    requires At(ws, q, GameteWords(g))
    ensures ReadGamete(ws, q) == Got(g, q + |GameteWords(g)|)
  {
    var a, b := [U32(g.n), Size(|g.mutations|)], U32s(g.mutations);
    var c, d := [Size(|g.smutations|)], U32s(g.smutations);
    assert GameteWords(g) == a + b + c + d;
    AtSplit(ws, q, a + b + c, d);
    AtSplit(ws, q, a + b, c);
    AtSplit(ws, q, a, b);
    assert ws[q] == a[0] && ws[q + 1] == a[1] by {
      assert ws[q..q + 2] == a;
    }
    assert ws[q + 2 + |b|] == c[0] by {
      assert ws[q + 2 + |b|..q + 3 + |b|] == c;
    }
    ReadU32sAt(ws, q + 2, g.mutations);
    ReadU32sAt(ws, q + 3 + |b|, g.smutations);
  }

  /** write_gametes: the number of gametes, then every gamete in order. */
  method WriteGametes(out: seq<Scalar>, gametes: seq<Gamete>) returns (out2: seq<Scalar>)
    ensures out2 == out + Counted(gametes, GameteWords)
  {
    out2 := out + [Size(|gametes|)];
    var i := 0;
    while i < |gametes|
      invariant 0 <= i <= |gametes|
      invariant out2 == out + [Size(|gametes|)] + Words(gametes[..i], GameteWords)
    {
      assert gametes[..i + 1][..i] == gametes[..i];
      out2 := out2 + GameteWords(gametes[i]);
      i := i + 1;
    }
    assert gametes[..i] == gametes;
  }

  /**
   * read_gametes: reads the number of gametes, then appends that many
   * gametes to the container; Short when the stream fails on the way.
   */
  method ReadGametes(gametes: seq<Gamete>, ws: seq<Scalar>, p: nat) returns (r: Read<seq<Gamete>>)
    ensures r.Got? <==> ReadCounted(ws, p, ReadGamete).Got?
    ensures r.Got? ==> var read := ReadCounted(ws, p, ReadGamete);
      r.value == gametes + read.value && r.next == read.next
  {
    var count := ReadSize(ws, p);
    if count.Short? {
      return Short;
    }
    r := ReadElements(gametes, ws, count.next, count.value, ReadGamete);
  }

  /** A written container of gametes reads back as the same gametes. */
  lemma GametesRoundTrip(out: seq<Scalar>, gametes: seq<Gamete>, rest: seq<Scalar>)
    ensures ReadCounted(out + Counted(gametes, GameteWords) + rest, |out|, ReadGamete)
         == Got(gametes, |out| + |Counted(gametes, GameteWords)|)
  {
    var ws := out + Counted(gametes, GameteWords) + rest;
    assert ws[|out|..|out| + |Counted(gametes, GameteWords)|] == Counted(gametes, GameteWords);
    forall i | 0 <= i < |gametes| ensures Decodes(GameteWords, ReadGamete, gametes[i]) {
      GameteRoundTrip(gametes[i]);
    }
    ReadCountedWords(ws, |out|, gametes, GameteWords, ReadGamete);
  }
}

/** The 32-bit FNV-1a hash of Go's `hash/fnv` package (`fnv.New32a`), as
    defined in section 2 of the IETF draft draft-eastlake-fnv: start from the
    offset basis, and for every byte xor it into the low octet of the state,
    then multiply by the FNV prime modulo 2^32. */
module Fnv {
  import opened Wrappers

  /** Go's `uint32`: an unsigned 32-bit word, whose arithmetic wraps modulo 2^32. */
  type uint32 = bv32

  const OffsetBasis32: uint32 := 2166136261
  const Prime32: uint32 := 16777619

  /** One FNV-1a round: xor the byte into the low octet of the state, then
      multiply by the prime, keeping the low 32 bits of the product. */
  function Step(h: uint32, b: byte): uint32
  {
    (h ^ b as uint32) * Prime32
  }

  /** The state a byte-at-a-time digest with round function `round` reaches
      from state `h` after being fed `bs`, from the first byte to the last. */
  function Fold(round: (uint32, byte) -> uint32, h: uint32, bs: seq<byte>): uint32
    decreases |bs|
  {
    if bs == [] then h else round(Fold(round, h, bs[..|bs| - 1]), bs[|bs| - 1])
  }

  /** FNV-1a-32 of a whole byte stream, as a fresh digest's `Sum32` reports it. */
  function Hash32(bs: seq<byte>): uint32
  {
    Fold(Step, OffsetBasis32, bs)
  }

  /** Streaming: feeding `a` and then `b` leaves the same state as feeding `a + b`,
      so the way a writer splits its output into `Write` calls never changes the hash. */
  lemma {:induction false} FoldAppend(round: (uint32, byte) -> uint32, h: uint32, a: seq<byte>, b: seq<byte>)
    ensures Fold(round, h, a + b) == Fold(round, Fold(round, h, a), b)
    decreases |b|
  {
    if b == [] {
      assert a + b == a;
    } else {
      var b' := b[..|b| - 1];
      assert (a + b)[..|a + b| - 1] == a + b';
      FoldAppend(round, h, a, b');
    }
  }

  /** Feeding one more byte is one more round. */
  lemma FoldSnoc(h: uint32, bs: seq<byte>, b: byte)
    ensures Fold(Step, h, bs + [b]) == Step(Fold(Step, h, bs), b)
  {
  }

  /** The rounds that hash "a" and "foobar": the intermediate states are the
      FNV-1a-32 hashes of the prefixes "f", "fo", "foo", "foob" and "fooba". */
  lemma TestVectorRounds()
    ensures Step(0x811c9dc5, 0x61) == 0xe40c292c
    ensures Step(0x811c9dc5, 0x66) == 0xe30c2799
    ensures Step(0xe30c2799, 0x6f) == 0x6222e842
    ensures Step(0x6222e842, 0x6f) == 0xa9f37ed7
    ensures Step(0xa9f37ed7, 0x62) == 0x3f5076ef
    ensures Step(0x3f5076ef, 0x61) == 0x39aaa18a
    ensures Step(0x39aaa18a, 0x72) == 0xbf9cf968
  {
  }

  /** Test vectors of the draft: the empty string hashes to the offset basis
      and "a" to 0xe40c292c. */
  lemma TestVectorsShort()
    ensures Hash32([]) == 0x811c9dc5
    ensures Hash32([0x61]) == 0xe40c292c
  {
  }

  /** Test vector of the draft: "foobar" hashes to 0xbf9cf968. */
  lemma TestVectorFoobar()
    ensures Hash32([0x66, 0x6f, 0x6f, 0x62, 0x61, 0x72]) == 0xbf9cf968
  {
    TestVectorRounds();
    var p0: seq<byte> := [];
    var p1 := p0 + [0x66];
    var p2 := p1 + [0x6f];
    var p3 := p2 + [0x6f];
    var p4 := p3 + [0x62];
    var p5 := p4 + [0x61];
    var p6 := p5 + [0x72];
    FoldSnoc(OffsetBasis32, p0, 0x66);
    FoldSnoc(OffsetBasis32, p1, 0x6f);
    FoldSnoc(OffsetBasis32, p2, 0x6f);
    FoldSnoc(OffsetBasis32, p3, 0x62);
    FoldSnoc(OffsetBasis32, p4, 0x61);
    FoldSnoc(OffsetBasis32, p5, 0x72);
    assert p6 == [0x66, 0x6f, 0x6f, 0x62, 0x61, 0x72];
  }

  /** The streaming digest returned by `fnv.New32a`: its only state is the
      32-bit `sum`; `written` is the ghost record of every byte fed to it. */
  class Fnv32a {
    var sum: uint32
    ghost var written: seq<byte>

    ghost predicate Valid()
      reads this
    {
      sum == Hash32(written)
    }

    /** `fnv.New32a()`: a fresh digest that has seen no bytes. */
    constructor ()
      ensures Valid() && written == []
      ensures sum == OffsetBasis32
    {
      sum := OffsetBasis32;
      written := [];
    }

    /** `hash.Hash.Write` of the FNV-1a digest: folds every byte of `data`
        into the state and reports all of them written, never an error. */
    method Write(data: seq<byte>) returns (n: int)
      requires Valid()
      modifies this
      ensures Valid() && written == old(written) + data
      ensures n == |data|
    {
      var hash := sum;
      var i := 0;
      while i < |data|
        invariant 0 <= i <= |data|
        invariant hash == Fold(Step, sum, data[..i])
      {
        assert data[..i + 1][..i] == data[..i];
        hash := Step(hash, data[i]);
        i := i + 1;
      }
      assert data[..i] == data;
      FoldAppend(Step, OffsetBasis32, written, data);
      sum := hash;
      written := written + data;
      n := |data|;
    }

    /** `Sum32`: the FNV-1a-32 hash of everything written so far; the digest is unchanged. */
    method Sum32() returns (s: uint32)
      requires Valid()
      ensures s == Hash32(written)
    {
      s := sum;
    }
  }
}

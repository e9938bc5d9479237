/** Machine words as they sit in the mapped region.

    A `size_t` is eight bytes, least significant byte first (the byte order of the
    x86-64 hosts the allocator targets); the persistent header's `int`s are signed
    32-bit values.  */
module Words {

  type Byte = b: int | 0 <= b < 256

  /** Bytes in a `size_t`. */
  const WORD: nat := 8

  const INT_MAX: int := 0x7FFF_FFFF

  type Int32 = x: int | -0x8000_0000 <= x <= INT_MAX

  /** 2^64: one more than the largest `size_t`. */
  const SIZE_LIMIT: nat := 0x1_0000_0000_0000_0000

  type SizeT = x: nat | x < SIZE_LIMIT

  function Pow256(k: nat): (r: nat)
    ensures r > 0
  {
    if k == 0 then 1 else 256 * Pow256(k - 1)
  }

  lemma WordRange()
    ensures Pow256(WORD) == SIZE_LIMIT
  {
  }

  /** The value held by a little-endian run of bytes. */
  function Decode(s: seq<Byte>): nat
  {
    if |s| == 0 then 0 else s[0] + 256 * Decode(s[1..])
  }

  /** The `k` low-order bytes of `v`, least significant first. */
  function Encode(v: nat, k: nat): (r: seq<Byte>)
    ensures |r| == k
  {
    if k == 0 then [] else [v % 256] + Encode(v / 256, k - 1)
  }

  /** Every value that fits in `k` bytes survives encoding and decoding. */
  lemma {:induction false} DecodeEncode(v: nat, k: nat)
    requires v < Pow256(k)
    ensures Decode(Encode(v, k)) == v
  {
    if k > 0 {
      assert v / 256 < Pow256(k - 1);
      DecodeEncode(v / 256, k - 1);
      assert Encode(v, k)[1..] == Encode(v / 256, k - 1);
    }
  }

  /** The `size_t` stored at byte offset `off`. */
  function Word(mem: seq<Byte>, off: nat): nat
    requires off + WORD <= |mem|
  {
    Decode(mem[off..off + WORD])
  }

  /** Two byte sequences of the same length that agree on [lo, hi). */
  ghost predicate SameOn(a: seq<Byte>, b: seq<Byte>, lo: nat, hi: nat)
  {
    |a| == |b| && hi <= |a| && forall i :: lo <= i < hi ==> a[i] == b[i]
  }

  lemma SameOnWithin(a: seq<Byte>, b: seq<Byte>, lo: nat, hi: nat, lo': nat, hi': nat)
    requires SameOn(a, b, lo, hi) && lo <= lo' && hi' <= hi
    ensures SameOn(a, b, lo', hi')
  {
  }

  lemma WordFrame(a: seq<Byte>, b: seq<Byte>, off: nat)
    requires off + WORD <= |a|
    requires SameOn(a, b, off, off + WORD)
    ensures Word(a, off) == Word(b, off)
  {
    assert a[off..off + WORD] == b[off..off + WORD];
  }

  /** `a` with the bytes from `off` on overwritten by `w`. */
  function Splice(a: seq<Byte>, off: nat, w: seq<Byte>): (b: seq<Byte>)
    requires off + |w| <= |a|
    ensures |b| == |a|
  {
    a[..off] + w + a[off + |w|..]
  }

  /** A write puts `w` at `off` and leaves every byte outside it alone. */
  lemma SpliceFrame(a: seq<Byte>, off: nat, w: seq<Byte>)
    requires off + |w| <= |a|
    ensures Splice(a, off, w)[off..off + |w|] == w
    ensures SameOn(a, Splice(a, off, w), 0, off)
    ensures SameOn(a, Splice(a, off, w), off + |w|, |a|)
  {
    var b := Splice(a, off, w);
    assert forall i :: off + |w| <= i < |a| ==> b[i] == a[off + |w|..][i - off - |w|];
  }

  /** Two writes side by side are one write of both. */
  lemma SpliceAdjacent(a: seq<Byte>, off: nat, w1: seq<Byte>, w2: seq<Byte>)
    requires off + |w1| + |w2| <= |a|
    ensures Splice(Splice(a, off, w1), off + |w1|, w2) == Splice(a, off, w1 + w2)
  {
    var b := Splice(Splice(a, off, w1), off + |w1|, w2);
    var c := Splice(a, off, w1 + w2);
    SpliceFrame(a, off, w1);
    SpliceFrame(Splice(a, off, w1), off + |w1|, w2);
    SpliceFrame(a, off, w1 + w2);
    assert b[off..off + |w1|] == Splice(a, off, w1)[off..off + |w1|];
    forall i | 0 <= i < |a|
      ensures b[i] == c[i]
    {
      if off <= i < off + |w1| {
        assert b[i] == b[off..off + |w1|][i - off];
        assert c[i] == c[off..off + |w1| + |w2|][i - off];
      } else if off + |w1| <= i < off + |w1| + |w2| {
        assert b[i] == b[off + |w1|..off + |w1| + |w2|][i - off - |w1|];
        assert c[i] == c[off..off + |w1| + |w2|][i - off];
      }
    }
  }

  /** Storing `v` at `off` and reading it back gives `v` for every `size_t`. */
  lemma StoredWord(mem: seq<Byte>, off: nat, v: SizeT)
    requires off + WORD <= |mem|
    requires mem[off..off + WORD] == Encode(v, WORD)
    ensures Word(mem, off) == v
  {
    WordRange();
    DecodeEncode(v, WORD);
  }

  /** A `size_t` written as part of a longer write reads back from the mapped bytes. */
  lemma SplicedWord(a: seq<Byte>, off: nat, w: seq<Byte>, i: nat, v: SizeT)
    requires off + |w| <= |a| && i + WORD <= |w|
    requires w[i..i + WORD] == Encode(v, WORD)
    ensures Word(Splice(a, off, w), off + i) == v
  {
    var b := Splice(a, off, w);
    SpliceFrame(a, off, w);
    assert b[off + i..off + i + WORD] == b[off..off + |w|][i..i + WORD];
    StoredWord(b, off + i, v);
  }

  /** Two `size_t`s written side by side read back as written. */
  lemma SplicedPair(a: seq<Byte>, off: nat, v1: SizeT, v2: SizeT)
    requires off + WORD + WORD <= |a|
    ensures Word(Splice(a, off, Encode(v1, WORD) + Encode(v2, WORD)), off) == v1
    ensures Word(Splice(a, off, Encode(v1, WORD) + Encode(v2, WORD)), off + WORD) == v2
  {
    var w := Encode(v1, WORD) + Encode(v2, WORD);
    assert w[0..WORD] == Encode(v1, WORD);
    assert w[WORD..WORD + WORD] == Encode(v2, WORD);
    SplicedWord(a, off, w, 0, v1);
    SplicedWord(a, off, w, WORD, v2);
  }

  /** A write that ends before a word or starts after it leaves the word alone. */
  lemma SplicedElsewhere(a: seq<Byte>, off: nat, w: seq<Byte>, at: nat)
    requires off + |w| <= |a| && at + WORD <= |a|
    requires at + WORD <= off || off + |w| <= at
    ensures Word(Splice(a, off, w), at) == Word(a, at)
  {
    var b := Splice(a, off, w);
    SpliceFrame(a, off, w);
    if at + WORD <= off {
      SameOnWithin(a, b, 0, off, at, at + WORD);
    } else {
      SameOnWithin(a, b, off + |w|, |a|, at, at + WORD);
    }
    WordFrame(a, b, at);
  }

  /** C's conversion of an `int` to `size_t`: negative values wrap modulo 2^64. */
  function SizeOfInt(v: Int32): (r: SizeT)
    ensures 0 <= v ==> r == v
    ensures v < 0 ==> r > INT_MAX
  {
    if v < 0 then v + SIZE_LIMIT else v
  }
}

/** The block chain inside the allocatable space.

    Offsets here are counted in bytes from `base`, the first byte after the persistent
    header.  Each block is a header of two `size_t`s, the allocated flag and the payload
    size, followed by that many payload bytes; blocks follow each other with no gap, in
    allocation order, so the chain is found by walking forward from offset 0.  */
module Layout {
  import opened Words

  datatype Option<T> = None | Some(value: T)

  /** Bytes at the start of the mapping taken by the persistent header (two ints). */
  const INT_SIZE: nat := 8

  /** Bytes of a block header: the allocated flag and the payload size. */
  const METADATA_SIZE: nat := 2 * WORD

  /** A block header as stored: `flag` is nonzero while the block is allocated. */
  datatype Block = Block(flag: nat, payload: nat)

  /** Bytes taken by a run of blocks, headers included. */
  function Span(bs: seq<Block>): nat
  {
    if |bs| == 0 then 0 else METADATA_SIZE + bs[0].payload + Span(bs[1..])
  }

  lemma {:induction false} SpanConcat(a: seq<Block>, b: seq<Block>)
    ensures Span(a + b) == Span(a) + Span(b)
  {
    if a != [] {
      assert (a + b)[1..] == a[1..] + b;
      SpanConcat(a[1..], b);
    } else {
      assert a + b == b;
    }
  }

  /** Offset of the header of block `k`. */
  function Off(bs: seq<Block>, k: nat): nat
    requires k <= |bs|
  {
    Span(bs[..k])
  }

  /** Offset of the payload of block `k`: what the allocator handed out for it. */
  function PayloadOf(bs: seq<Block>, k: nat): nat
    requires k < |bs|
  {
    Off(bs, k) + METADATA_SIZE
  }

  /** The next header follows the payload of the current block. */
  lemma OffStep(bs: seq<Block>, k: nat)
    requires k < |bs|
    ensures Off(bs, k + 1) == Off(bs, k) + METADATA_SIZE + bs[k].payload
  {
    assert bs[..k + 1] == bs[..k] + [bs[k]];
    SpanConcat(bs[..k], [bs[k]]);
    assert [bs[k]][1..] == [];
  }

  /** Seen from the first block, block `k` is block `k - 1` of the rest of the chain. */
  lemma OffTail(bs: seq<Block>, k: nat)
    requires 0 < k <= |bs|
    ensures Off(bs, k) == METADATA_SIZE + bs[0].payload + Off(bs[1..], k - 1)
  {
    assert bs[..k][1..] == bs[1..][..k - 1];
  }

  /** Every block lies inside the span of the whole chain. */
  lemma OffWithin(bs: seq<Block>, k: nat)
    requires k < |bs|
    ensures Off(bs, k) + METADATA_SIZE + bs[k].payload <= Span(bs)
  {
    OffStep(bs, k);
    assert bs == bs[..k + 1] + bs[k + 1..];
    SpanConcat(bs[..k + 1], bs[k + 1..]);
  }

  /** Payloads come in increasing address order, and the payload of an earlier block
      ends before the payload of any later one begins: no two blocks overlap. */
  lemma PayloadsOrdered(bs: seq<Block>, i: nat, j: nat)
    requires i < j < |bs|
    ensures PayloadOf(bs, i) + bs[i].payload < PayloadOf(bs, j)
  {
    OffStep(bs, i);
    assert bs[..j] == bs[..i + 1] + bs[i + 1..j];
    SpanConcat(bs[..i + 1], bs[i + 1..j]);
  }

  /** How the chain may change from one state to the next: blocks are only appended, a
      block never changes its payload size, and its flag either stays or is cleared. */
  ghost predicate Successor(before: seq<Block>, after: seq<Block>)
  {
    |before| <= |after| &&
    forall k :: 0 <= k < |before| ==>
      after[k].payload == before[k].payload && (after[k].flag == before[k].flag || after[k].flag == 0)
  }

  /** Blocks never move: a successor chain puts every old block at its old offset. */
  lemma {:induction false} SuccessorKeepsOffsets(before: seq<Block>, after: seq<Block>, k: nat)
    requires Successor(before, after) && k <= |before|
    ensures Off(after, k) == Off(before, k)
  {
    if k > 0 {
      SuccessorKeepsOffsets(before, after, k - 1);
      OffStep(before, k - 1);
      OffStep(after, k - 1);
    }
  }

  /** The chain that tiles [off, end) of `mem` exactly, or None when the headers found by
      walking from `off` do not land on `end`. */
  ghost function Parse(mem: seq<Byte>, off: nat, end: nat): Option<seq<Block>>
    requires end <= |mem|
    decreases end - off
  {
    if off == end then Some([])
    else if end < off + METADATA_SIZE then None
    else
      var b := Block(Word(mem, off), Word(mem, off + WORD));
      var next := off + METADATA_SIZE + b.payload;
      if end < next then None
      else match Parse(mem, next, end)
        case None => None
        case Some(rest) => Some([b] + rest)
  }

  /** The first block of a nonempty chain is the header found at its start, and the rest
      of the chain starts right after that block's payload. */
  lemma ParseFirst(mem: seq<Byte>, off: nat, end: nat, bs: seq<Block>)
    requires end <= |mem| && Parse(mem, off, end) == Some(bs) && |bs| > 0
    ensures off + METADATA_SIZE + Word(mem, off + WORD) <= end
    ensures bs[0] == Block(Word(mem, off), Word(mem, off + WORD))
    ensures Parse(mem, off + METADATA_SIZE + Word(mem, off + WORD), end) == Some(bs[1..])
  {
    var next := off + METADATA_SIZE + Word(mem, off + WORD);
    var rest := Parse(mem, next, end).value;
    assert ([Block(Word(mem, off), Word(mem, off + WORD))] + rest)[1..] == rest;
  }

  /** One step of a walk along the chain `bs`: the header at the offset of block `k` is
      that block, and the rest of the chain follows its payload. */
  lemma ParseStep(mem: seq<Byte>, end: nat, bs: seq<Block>, k: nat, cur: nat)
    requires end <= |mem| && k <= |bs| && cur == Off(bs, k) && cur < end
    requires Parse(mem, cur, end) == Some(bs[k..])
    ensures k < |bs| && cur + METADATA_SIZE + Word(mem, cur + WORD) <= end
    ensures bs[k] == Block(Word(mem, cur), Word(mem, cur + WORD))
    ensures Off(bs, k + 1) == cur + METADATA_SIZE + Word(mem, cur + WORD)
    ensures Parse(mem, cur + METADATA_SIZE + Word(mem, cur + WORD), end) == Some(bs[k + 1..])
  {
    assert k < |bs|;
    ParseFirst(mem, cur, end, bs[k..]);
    assert bs[k..][1..] == bs[k + 1..];
    OffStep(bs, k);
  }

  /** A walk that reaches the end of the chain has seen every block. */
  lemma ParseDone(mem: seq<Byte>, end: nat, bs: seq<Block>, k: nat)
    requires end <= |mem| && k <= |bs| && Parse(mem, end, end) == Some(bs[k..])
    ensures k == |bs|
  {
    assert |bs[k..]| == 0;
  }

  /** Conversely, a header whose block ends within [off, end), followed by a chain from
      the end of that block, is a chain from `off`. */
  lemma ParseCons(mem: seq<Byte>, off: nat, end: nat, b: Block, next: nat, rest: seq<Block>)
    requires end <= |mem| && off + METADATA_SIZE <= end
    requires b == Block(Word(mem, off), Word(mem, off + WORD))
    requires next == off + METADATA_SIZE + b.payload && next <= end
    requires Parse(mem, next, end) == Some(rest)
    ensures Parse(mem, off, end) == Some([b] + rest)
  {
  }

  /** The used size is the sum of header and payload sizes over the chain. */
  lemma {:induction false} ParseSpan(mem: seq<Byte>, off: nat, end: nat)
    requires end <= |mem| && Parse(mem, off, end).Some?
    ensures off + Span(Parse(mem, off, end).value) == end
    decreases end - off
  {
    if off != end {
      var next := off + METADATA_SIZE + Word(mem, off + WORD);
      ParseSpan(mem, next, end);
    }
  }

  /** A header lying where two byte sequences agree reads the same in both. */
  lemma HeaderKept(mem: seq<Byte>, mem': seq<Byte>, lo: nat, hi: nat, off: nat)
    requires SameOn(mem, mem', lo, hi) && lo <= off && off + METADATA_SIZE <= hi
    ensures Word(mem', off) == Word(mem, off) && Word(mem', off + WORD) == Word(mem, off + WORD)
  {
    SameOnWithin(mem, mem', lo, hi, off, off + METADATA_SIZE);
    WordFrame(mem, mem', off);
    WordFrame(mem, mem', off + WORD);
  }

  /** The chain depends only on the bytes it covers. */
  lemma {:induction false} ParseFrame(mem: seq<Byte>, mem': seq<Byte>, off: nat, end: nat)
    requires end <= |mem| && SameOn(mem, mem', off, end)
    ensures Parse(mem', off, end) == Parse(mem, off, end)
    decreases end - off
  {
    if off != end && off + METADATA_SIZE <= end {
      HeaderKept(mem, mem', off, end, off);
      var next := off + METADATA_SIZE + Word(mem, off + WORD);
      if next <= end {
        ParseFrame(mem, mem', next, end);
      }
    }
  }

  /** Writing a header `b` just past the end of a chain, leaving the chain's bytes alone,
      extends the chain by `b`. */
  lemma {:induction false} ParseAppend(mem: seq<Byte>, mem': seq<Byte>, off: nat, end: nat, bs: seq<Block>,
                                       b: Block, end': nat)
    requires end <= |mem| && Parse(mem, off, end) == Some(bs)
    requires SameOn(mem, mem', off, end)
    requires end' == end + METADATA_SIZE + b.payload && end' <= |mem'|
    requires Word(mem', end) == b.flag && Word(mem', end + WORD) == b.payload
    ensures Parse(mem', off, end') == Some(bs + [b])
    decreases end - off
  {
    if off == end {
      assert bs == [];
      assert Block(Word(mem', end), Word(mem', end + WORD)) == b;
      assert Parse(mem', end', end') == Some([]);
      assert Parse(mem', end, end') == Some([b] + []);
      assert [] + [b] == [b] + [];
    } else {
      ParseFirst(mem, off, end, bs);
      var next := off + METADATA_SIZE + Word(mem, off + WORD);
      var rest := bs[1..];
      HeaderKept(mem, mem', off, end, off);
      ParseAppend(mem, mem', next, end, rest, b, end');
      ParseCons(mem', off, end', bs[0], next, rest + [b]);
      assert [bs[0]] + (rest + [b]) == bs + [b];
    }
  }

  /** The chain `bs` with the flag of block `k` set to `v`. */
  function SetFlag(bs: seq<Block>, k: nat, v: nat): (r: seq<Block>)
    requires k < |bs|
    decreases k
  {
    if k == 0 then [Block(v, bs[0].payload)] + bs[1..] else [bs[0]] + SetFlag(bs[1..], k - 1, v)
  }

  /** Setting a flag replaces block `k` by the same block with the new flag. */
  lemma {:induction false} SetFlagIsUpdate(bs: seq<Block>, k: nat, v: nat)
    requires k < |bs|
    ensures SetFlag(bs, k, v) == bs[k := Block(v, bs[k].payload)]
    decreases k
  {
    if k > 0 {
      SetFlagIsUpdate(bs[1..], k - 1, v);
      assert bs[k := Block(v, bs[k].payload)] == [bs[0]] + bs[1..][k - 1 := Block(v, bs[k].payload)];
    }
  }

  /** What a write at or before the flag word of the first block leaves of that block's
      size word and of the rest of the chain. */
  lemma FirstBlockFrame(mem: seq<Byte>, mem': seq<Byte>, off: nat, end: nat, bs: seq<Block>, next: nat)
    requires end <= |mem| && Parse(mem, off, end) == Some(bs) && |bs| > 0
    requires off + WORD <= |mem| && SameOn(mem, mem', off + WORD, |mem|)
    requires next == off + METADATA_SIZE + Word(mem, off + WORD)
    ensures next <= end && Word(mem', off + WORD) == bs[0].payload
    ensures Parse(mem', next, end) == Some(bs[1..])
  {
    ParseFirst(mem, off, end, bs);
    SameOnWithin(mem, mem', off + WORD, |mem|, off + WORD, off + METADATA_SIZE);
    WordFrame(mem, mem', off + WORD);
    SameOnWithin(mem, mem', off + WORD, |mem|, next, end);
    ParseFrame(mem, mem', next, end);
  }

  /** Rewriting only the flag word of block `k`, found at offset `h`, changes that block's
      flag and nothing else in the chain. */
  lemma {:induction false} ParseSetFlag(mem: seq<Byte>, mem': seq<Byte>, off: nat, end: nat, bs: seq<Block>,
                                        k: nat, h: nat, v: nat)
    requires end <= |mem| && Parse(mem, off, end) == Some(bs)
    requires k < |bs| && h == off + Off(bs, k) && h + WORD <= |mem|
    requires SameOn(mem, mem', 0, h) && SameOn(mem, mem', h + WORD, |mem|) && Word(mem', h) == v
    ensures Parse(mem', off, end) == Some(SetFlag(bs, k, v))
    decreases k
  {
    ParseFirst(mem, off, end, bs);
    var next := off + METADATA_SIZE + Word(mem, off + WORD);
    if k == 0 {
      FirstBlockFrame(mem, mem', off, end, bs, next);
      ParseCons(mem', off, end, Block(v, bs[0].payload), next, bs[1..]);
    } else {
      OffTail(bs, k);
      HeaderKept(mem, mem', 0, h, off);
      ParseSetFlag(mem, mem', next, end, bs[1..], k - 1, h, v);
      ParseCons(mem', off, end, bs[0], next, SetFlag(bs[1..], k - 1, v));
    }
  }

  /** Where the two words of a header sit in the bytes written for it. */
  lemma HeaderBytes(f: SizeT, n: SizeT, tail: seq<Byte>)
    ensures (Encode(f, WORD) + Encode(n, WORD) + tail)[0..WORD] == Encode(f, WORD)
    ensures (Encode(f, WORD) + Encode(n, WORD) + tail)[WORD..WORD + WORD] == Encode(n, WORD)
  {
    var w := Encode(f, WORD) + Encode(n, WORD) + tail;
    assert w[0..WORD] == Encode(f, WORD);
    assert w[WORD..WORD + WORD] == Encode(n, WORD);
  }

  /** A block header (flag `f`, payload size `n`) written at `at`, possibly with payload
      bytes after it, reads back as written and leaves the bytes before it alone. */
  lemma HeaderWritten(before: seq<Byte>, after: seq<Byte>, at: nat, f: SizeT, n: SizeT, tail: seq<Byte>)
    requires at + METADATA_SIZE + |tail| <= |before|
    requires after == Splice(before, at, Encode(f, WORD) + Encode(n, WORD) + tail)
    ensures Word(after, at) == f && Word(after, at + WORD) == n
    ensures SameOn(before, after, 0, at)
  {
    var w := Encode(f, WORD) + Encode(n, WORD) + tail;
    HeaderBytes(f, n, tail);
    SplicedWord(before, at, w, 0, f);
    SplicedWord(before, at, w, WORD, n);
    SpliceFrame(before, at, w);
  }

  /** Writing a block header (flag `f`, payload size `n`), and possibly payload bytes
      after it, just past the end of a chain extends the chain by that block. */
  lemma HeaderAppended(before: seq<Byte>, after: seq<Byte>, at: nat, f: SizeT, n: SizeT, tail: seq<Byte>,
                       end: nat, bs: seq<Block>)
    requires end == at + METADATA_SIZE + n && end <= |before| && |tail| <= n
    requires Parse(before, 0, at) == Some(bs)
    requires after == Splice(before, at, Encode(f, WORD) + Encode(n, WORD) + tail)
    ensures Word(after, at) == f && Word(after, at + WORD) == n
    ensures Parse(after, 0, end) == Some(bs + [Block(f, n)])
  {
    HeaderWritten(before, after, at, f, n, tail);
    ParseAppend(before, after, 0, at, bs, Block(f, n), end);
  }
}

/** The persistent store of scm.c: a bump allocator over a memory-mapped file.

    The C functions take a possibly-NULL `struct scm *`; here they are module methods and
    functions taking a `Store?`.  Pointers are byte offsets from `base`.  */
module Scm {
  import opened Words
  import opened Layout

  /** The fixed virtual address the file is mapped at. */
  const VIRT_ADDR: nat := 0x6000_0000_0000

  /** A pointer handed to or returned by the allocator, as a byte offset from `base`. */
  datatype Ptr = Null | At(off: int)

  /** A C string argument: NULL, or its bytes up to (not including) the terminating NUL. */
  datatype CString = NullString | Chars(bytes: seq<Byte>)

  /** The branch scm_free takes; it prints a message for the last two. */
  datatype FreeOutcome = Ignored | Released | DoubleFree | NotFound

  /** What the operating system answers scm_open: whether open() gave a descriptor, whether
      fstat() reports a regular file, st_size, the page size, sbrk(0), and whether mmap()
      honoured the fixed address. */
  datatype Host = Host(openOk: bool, regular: bool, fileSize: nat, page: nat, brk: nat, mapped: bool)

  /** `(x / page) * page`: the largest multiple of `page` not above `x`. */
  function RoundDownToPage(x: nat, page: nat): (r: nat)
    requires page > 0
    ensures r % page == 0 && r <= x && x < r + page
  {
    MultipleOfPage(x / page, page);
    (x / page) * page
  }

  lemma MultipleOfPage(q: nat, page: nat)
    requires page > 0
    ensures (q * page) % page == 0
  {
    var d := (q * page) / page;
    var m := (q * page) % page;
    assert m == page * (q - d);
    ZeroFactor(page, q - d);
  }

  /** A multiple of `p` that lies in [0, p) is zero. */
  lemma ZeroFactor(p: int, t: int)
    requires p > 0 && 0 <= p * t < p
    ensures t == 0
  {
  }

  /** Room for a block with an `n`-byte payload after `size` used bytes, in exact
      arithmetic: this is the test of scm_malloc as its authors meant it. */
  predicate Fits(size: nat, n: nat, length: nat)
  {
    size + n + METADATA_SIZE <= length
  }

  /** The test `scm->size + n + METADATA_SIZE > scm->length` as C evaluates it: the sum is
      a `size_t` and wraps around modulo 2^64. */
  predicate ExceedsAsWritten(size: SizeT, n: SizeT, length: SizeT)
  {
    (size + n + METADATA_SIZE) % SIZE_LIMIT > length
  }

  /** A request for 2^64 - 16 bytes on an empty 4096-byte store wraps the sum to 0, so the
      test as written lets it through although no such block fits. */
  lemma WrappedCheckAdmitsOversize()
    ensures !ExceedsAsWritten(0, SIZE_LIMIT - METADATA_SIZE, 4096)
    ensures !Fits(0, SIZE_LIMIT - METADATA_SIZE, 4096)
  {
  }

  /** Whenever the sum does not wrap, the test as written rejects exactly what does not fit. */
  lemma ExactCheckAgreesWithoutWrap(size: SizeT, n: SizeT, length: SizeT)
    requires size + n + METADATA_SIZE < SIZE_LIMIT
    ensures ExceedsAsWritten(size, n, length) <==> !Fits(size, n, length)
  {
  }

  /** The test measures the block from `base` but compares against the length of the
      whole mapping, of which `base` is already INT_SIZE bytes in: the first block of an
      empty 4096-byte store may take 4080 payload bytes, ending 8 bytes past the mapping. */
  lemma BlockMayPassMappingEnd()
    ensures Fits(0, 4080, 4096)
    ensures INT_SIZE + METADATA_SIZE + 4080 > 4096
  {
  }

  /** True when no byte of `s` is NUL, so that strlen(s) is |s|. */
  predicate NoNul(s: seq<Byte>)
  {
    forall i :: 0 <= i < |s| ==> s[i] != 0
  }

  class Store {
    /** The two ints at the start of the mapping: the "formatted" marker and the used size. */
    const header: array<Int32>
    /** The allocatable space, `base` onwards. */
    const heap: array<Byte>
    /** Bytes in use from `base`. */
    var size: nat
    /** The capacity: the file size rounded down to a page multiple. */
    const length: nat
    /** The chain of blocks in allocation order. */
    ghost var blocks: seq<Block>

    /** The header marks the region formatted and mirrors `size`, which fits the header's
        int and stays within the capacity, and the blocks tile [0, size) exactly. */
    ghost predicate Valid()
      reads this, header, heap
    {
      header.Length == 2 && heap.Length == length && length <= INT_MAX &&
      size <= length && header[0] == 1 && header[1] == size &&
      Parse(heap[..], 0, size) == Some(blocks)
    }

    constructor (header: array<Int32>, heap: array<Byte>, length: nat)
      ensures this.header == header && this.heap == heap && this.length == length
      ensures size == 0 && blocks == []
    {
      this.header := header;
      this.heap := heap;
      this.length := length;
      size := 0;
      blocks := [];
    }

    /** `scm->size += ...; total_metadata[1] = scm->size;`: the used size grows by the
        block `b` just written, and the header's copy follows it. */
    method Grow(len: nat, ghost b: Block)
      requires header.Length == 2 && size + len + METADATA_SIZE <= INT_MAX
      modifies this, header
      ensures size == old(size) + len + METADATA_SIZE && blocks == old(blocks) + [b]
      ensures header[0] == old(header[0]) && header[1] == size
    {
      size := size + len + METADATA_SIZE;
      header[1] := size;
      blocks := blocks + [b];
    }
  }

  /** Everything an operation on `scm` may touch. */
  function Footprint(scm: Store?): set<object>
  {
    if scm == null then {} else {scm, scm.header, scm.heap}
  }

  /** The invariant of the store: the used size is the sum, over the chain, of header and
      payload sizes, and it never exceeds the capacity. */
  lemma UsedIsChainSpan(scm: Store)
    ensures scm.Valid() ==> Span(scm.blocks) == scm.size <= scm.length
  {
    if scm.Valid() {
      ParseSpan(scm.heap[..], 0, scm.size);
    }
  }

  /** A region left behind by a valid store: formatted, its used size within the capacity
      and the int range, and its bytes parsing into a chain that ends at the used size. */
  ghost predicate Formatted(header: seq<Int32>, heap: seq<Byte>)
  {
    |header| == 2 && header[0] == 1 && 0 <= header[1] <= |heap| <= INT_MAX &&
    Parse(heap, 0, header[1]).Some?
  }

  /** scm_open, after the system calls: the outcome of each one is a field of `host`, and
      `header` and `heap` are the mapped file as mmap() exposes it. */
  method Open(host: Host, truncate: bool, header: array<Int32>, heap: array<Byte>) returns (scm: Store?)
    requires host.page > 0
    // For a descriptor that is not a regular file, file_size frees the handle and
    // scm_open goes on to use it: undefined behaviour, excluded here.
    requires host.openOk ==> host.regular
    requires header.Length == 2 && heap.Length == RoundDownToPage(host.fileSize, host.page)
    modifies header
    ensures scm != null <==>
              host.openOk && host.brk <= RoundDownToPage(VIRT_ADDR, host.page) &&
              host.mapped && RoundDownToPage(host.fileSize, host.page) != 0
    ensures scm == null ==> unchanged(header)
    ensures unchanged(heap)
    ensures scm != null ==>
              fresh(scm) && scm.header == header && scm.heap == heap &&
              scm.length == RoundDownToPage(host.fileSize, host.page)
    ensures scm != null && (old(header[0]) != 1 || truncate) ==>
              header[..] == [1, 0] && scm.size == 0 && scm.blocks == [] &&
              (scm.length <= INT_MAX ==> scm.Valid())
    ensures scm != null && old(header[0]) == 1 && !truncate ==>
              unchanged(header) && scm.size == SizeOfInt(header[1])
    ensures scm != null && !truncate && old(Formatted(header[..], heap[..])) ==>
              scm.Valid() && scm.blocks == Parse(heap[..], 0, scm.size).value
  {
    if !host.openOk {
      return null;
    }
    var length := RoundDownToPage(host.fileSize, host.page);
    var vmAddr := RoundDownToPage(VIRT_ADDR, host.page);
    if vmAddr < host.brk {
      return null;
    }
    // mmap() fails when it cannot honour the address, and always for a zero length.
    if !host.mapped || length == 0 {
      return null;
    }
    scm := new Store(header, heap, length);
    if header[0] != 1 || truncate {
      header[0] := 1;
      header[1] := 0;
      scm.size := 0;
    }
    // Read back from the header whether or not it was just rewritten.
    scm.size := SizeOfInt(header[1]);
    if scm.size <= length && Parse(heap[..], 0, scm.size).Some? {
      scm.blocks := Parse(heap[..], 0, scm.size).value;
    }
  }

  /** Reopening, without truncation, the region a valid store left behind recovers the
      same used size and the same chain, hence every payload at its old offset. */
  method Reopen(scm: Store, host: Host) returns (again: Store?)
    requires scm.Valid()
    requires host.page > 0 && (host.openOk ==> host.regular)
    requires scm.length == RoundDownToPage(host.fileSize, host.page)
    modifies scm.header
    ensures again != null ==>
              again.Valid() && again.heap == scm.heap && again.size == scm.size &&
              again.blocks == scm.blocks
  {
    again := Open(host, false, scm.header, scm.heap);
  }

  /** `*(size_t *)(base + off) = v`. */
  method StoreWord(heap: array<Byte>, off: nat, v: SizeT)
    requires off + WORD <= heap.Length
    modifies heap
    ensures heap[..] == Splice(old(heap[..]), off, Encode(v, WORD))
    ensures Word(heap[..], off) == v
  {
    var bytes := Encode(v, WORD);
    forall i | 0 <= i < WORD {
      heap[off + i] := bytes[i];
    }
    assert heap[..] == Splice(old(heap[..]), off, bytes);
    StoredWord(heap[..], off, v);
  }

  /** `local_metadata[0] = 1; local_metadata[1] = n;`: the header of a new allocated
      block with an `n`-byte payload, written at offset `at`. */
  method WriteHeader(heap: array<Byte>, at: nat, n: SizeT)
    requires at + METADATA_SIZE <= heap.Length
    modifies heap
    ensures heap[..] == Splice(old(heap[..]), at, Encode(1, WORD) + Encode(n, WORD))
    ensures Word(heap[..], at) == 1 && Word(heap[..], at + WORD) == n
  {
    ghost var before := heap[..];
    StoreWord(heap, at, 1);
    StoreWord(heap, at + WORD, n);
    SpliceAdjacent(before, at, Encode(1, WORD), Encode(n, WORD));
    SplicedPair(before, at, 1, n);
  }

  /** A new allocated block header written just past the end of a chain extends the chain
      by that block, whose payload starts right after the header. */
  lemma Appended(before: seq<Byte>, after: seq<Byte>, at: nat, n: SizeT,
                  end: nat, blocks: seq<Block>, blocks': seq<Block>)
    requires at + METADATA_SIZE + n <= |before| && Parse(before, 0, at) == Some(blocks)
    requires after == Splice(before, at, Encode(1, WORD) + Encode(n, WORD))
    requires end == at + METADATA_SIZE + n && blocks' == blocks + [Block(1, n)]
    ensures end <= |after| && Parse(after, 0, end) == Some(blocks')
    ensures Successor(blocks, blocks')
    ensures PayloadOf(blocks', |blocks|) == at + METADATA_SIZE
  {
    assert Encode(1, WORD) + Encode(n, WORD) + [] == Encode(1, WORD) + Encode(n, WORD);
    HeaderAppended(before, after, at, 1, n, [], end, blocks);
    ParseSpan(before, 0, at);
    assert blocks'[..|blocks|] == blocks;
  }

  /** scm_malloc. */
  method Malloc(scm: Store?, n: SizeT) returns (p: Ptr)
    requires scm != null ==> scm.Valid()
    modifies Footprint(scm)
    ensures scm != null ==> scm.Valid() && Successor(old(scm.blocks), scm.blocks)
    ensures scm == null || n == 0 || !Fits(old(scm.size), n, scm.length) ==>
              p == Null && (scm != null ==> unchanged(scm, scm.header, scm.heap))
    ensures scm != null && n != 0 && Fits(old(scm.size), n, scm.length) ==>
              && p == At(old(scm.size) + METADATA_SIZE)
              && scm.size == old(scm.size) + n + METADATA_SIZE
              && scm.header[1] == scm.size
              && scm.blocks == old(scm.blocks) + [Block(1, n)]
              && p.off == PayloadOf(scm.blocks, |scm.blocks| - 1)
              && scm.heap[..] == Splice(old(scm.heap[..]), old(scm.size), Encode(1, WORD) + Encode(n, WORD))
  {
    if scm == null || n == 0 {
      return Null;
    }
    if !Fits(scm.size, n, scm.length) {
      return Null;
    }
    var at := scm.size;
    ghost var before := scm.heap[..];
    WriteHeader(scm.heap, at, n);
    scm.Grow(n, Block(1, n));
    Appended(before, scm.heap[..], at, n, scm.size, old(scm.blocks), scm.blocks);
    assert scm.header[0] == 1 && scm.header[1] == scm.size;
    p := At(at + METADATA_SIZE);
  }

  /** strcpy(dst, s): the bytes of `s` and then the terminating NUL. */
  method StrCpy(heap: array<Byte>, dst: nat, s: seq<Byte>)
    requires dst + |s| + 1 <= heap.Length
    modifies heap
    ensures heap[..] == Splice(old(heap[..]), dst, s + [0])
  {
    var i := 0;
    while i < |s|
      invariant 0 <= i <= |s|
      invariant forall j :: 0 <= j < heap.Length ==>
                  heap[j] == if dst <= j < dst + i then s[j - dst] else old(heap[j])
    {
      heap[dst + i] := s[i];
      i := i + 1;
    }
    heap[dst + |s|] := 0;
    assert heap[..] == Splice(old(heap[..]), dst, s + [0]);
  }

  /** What scm_strdup writes at `at`: the header of an allocated block sized for `s` and
      its NUL, then the copy itself. */
  method WriteCopy(heap: array<Byte>, at: nat, s: seq<Byte>)
    requires at + METADATA_SIZE + |s| + 1 <= heap.Length && |s| + 1 < SIZE_LIMIT
    modifies heap
    ensures heap[..] == Splice(old(heap[..]), at, Encode(1, WORD) + Encode(|s| + 1, WORD) + (s + [0]))
    ensures Word(heap[..], at + WORD) == |s| + 1
  {
    ghost var before := heap[..];
    WriteHeader(heap, at, |s| + 1);
    ghost var headed := heap[..];
    StrCpy(heap, at + METADATA_SIZE, s);
    SplicedElsewhere(headed, at + METADATA_SIZE, s + [0], at + WORD);
    SpliceAdjacent(before, at, Encode(1, WORD) + Encode(|s| + 1, WORD), s + [0]);
  }

  /** A header for an `n`-byte block followed by a copy of `s` and its NUL, written just
      past the end of a chain, extend the chain by that block, which holds the copy. */
  lemma Duplicated(before: seq<Byte>, after: seq<Byte>, at: nat, s: seq<Byte>,
                   n: SizeT, end: nat, blocks: seq<Block>, blocks': seq<Block>)
    requires n == |s| + 1 && at + METADATA_SIZE + n <= |before| && Parse(before, 0, at) == Some(blocks)
    requires after == Splice(before, at, Encode(1, WORD) + Encode(n, WORD) + (s + [0]))
    requires end == at + METADATA_SIZE + n && blocks' == blocks + [Block(1, n)]
    ensures end <= |after| && after[at + METADATA_SIZE..end] == s + [0]
    ensures Parse(after, 0, end) == Some(blocks')
    ensures Successor(blocks, blocks')
    ensures PayloadOf(blocks', |blocks|) == at + METADATA_SIZE
  {
    var w := Encode(1, WORD) + Encode(n, WORD) + (s + [0]);
    SpliceFrame(before, at, w);
    assert after[at + METADATA_SIZE..end] == after[at..at + |w|][METADATA_SIZE..];
    HeaderAppended(before, after, at, 1, n, s + [0], end, blocks);
    ParseSpan(before, 0, at);
    assert blocks'[..|blocks|] == blocks;
  }

  /** scm_strdup.  The source never checks that the copy fits (scm_malloc's capacity test
      is missing here), so the room it needs is a precondition.  It also reads
      `scm->base` before testing `scm` for NULL, so the store must exist. */
  method StrDup(scm: Store, s: CString) returns (p: Ptr)
    requires scm.Valid()
    requires s.Chars? ==> NoNul(s.bytes) && Fits(scm.size, |s.bytes| + 1, scm.length)
    modifies scm, scm.header, scm.heap
    ensures scm.Valid() && Successor(old(scm.blocks), scm.blocks)
    ensures s.NullString? ==> p == Null && unchanged(scm, scm.header, scm.heap)
    ensures s.Chars? ==>
              var n := |s.bytes| + 1;
              var at := old(scm.size);
              && p == At(at + METADATA_SIZE)
              && scm.size == at + METADATA_SIZE + n
              && scm.header[1] == scm.size
              && scm.blocks == old(scm.blocks) + [Block(1, n)]
              && p.off == PayloadOf(scm.blocks, |scm.blocks| - 1)
              && scm.heap[at + METADATA_SIZE..scm.size] == s.bytes + [0]
              && scm.heap[..] == Splice(old(scm.heap[..]), at, Encode(1, WORD) + Encode(n, WORD) + (s.bytes + [0]))
  {
    var at := scm.size;
    if s.NullString? {
      return Null;
    }
    var n := |s.bytes| + 1;
    ghost var before := scm.heap[..];
    WriteCopy(scm.heap, at, s.bytes);
    var dst := at + METADATA_SIZE;
    var len := Word(scm.heap[..], at + WORD);
    scm.Grow(len, Block(1, n));
    Duplicated(before, scm.heap[..], at, s.bytes, n, scm.size, old(scm.blocks), scm.blocks);
    assert scm.header[0] == 1 && scm.header[1] == scm.size;
    p := At(dst);
  }

  /** The walk of scm_free: from `base`, hop from header to header by each payload size
      until a block's payload address is `p` or the used size is reached. */
  method Locate(scm: Store, p: int) returns (at: Option<nat>, ghost k: nat)
    requires scm.Valid()
    ensures at.Some? ==>
              && k < |scm.blocks| && at.value == Off(scm.blocks, k)
              && PayloadOf(scm.blocks, k) == p
              && at.value + METADATA_SIZE <= scm.heap.Length
              && Word(scm.heap[..], at.value) == scm.blocks[k].flag
    ensures at.None? ==> forall j :: 0 <= j < |scm.blocks| ==> PayloadOf(scm.blocks, j) != p
  {
    var mem := scm.heap[..];
    var cur := 0;
    var end := scm.size;
    k := 0;
    while cur < end
      invariant k <= |scm.blocks| && cur == Off(scm.blocks, k) && cur <= end
      invariant Parse(mem, cur, end) == Some(scm.blocks[k..])
      invariant forall j :: 0 <= j < k ==> PayloadOf(scm.blocks, j) != p
      decreases end - cur
    {
      ParseStep(mem, end, scm.blocks, k, cur);
      var blockSize := Word(mem, cur + WORD);
      if cur + METADATA_SIZE == p {
        return Some(cur), k;
      }
      Missed(scm.blocks, k, p);
      cur := cur + METADATA_SIZE + blockSize;
      k := k + 1;
    }
    ParseDone(mem, end, scm.blocks, k);
    return None, k;
  }

  /** The walk has passed block `k` without finding `p`. */
  lemma Missed(bs: seq<Block>, k: nat, p: int)
    requires k < |bs| && PayloadOf(bs, k) != p
    requires forall j :: 0 <= j < k ==> PayloadOf(bs, j) != p
    ensures forall j :: 0 <= j < k + 1 ==> PayloadOf(bs, j) != p
  {
  }

  /** No two blocks share a payload address. */
  lemma PayloadsDistinct(bs: seq<Block>, i: nat, j: nat)
    requires i < |bs| && j < |bs| && PayloadOf(bs, i) == PayloadOf(bs, j)
    ensures i == j
  {
    if i < j {
      PayloadsOrdered(bs, i, j);
    } else if j < i {
      PayloadsOrdered(bs, j, i);
    }
  }

  /** Zeroing the flag word of block `k` clears that block's flag and leaves the rest of
      the chain as it was. */
  lemma Cleared(before: seq<Byte>, after: seq<Byte>, at: nat, size: nat, k: nat,
                blocks: seq<Block>, blocks': seq<Block>)
    requires size <= |before| && Parse(before, 0, size) == Some(blocks)
    requires k < |blocks| && at == Off(blocks, k) && at + WORD <= |before|
    requires after == Splice(before, at, Encode(0, WORD))
    requires blocks' == blocks[k := Block(0, blocks[k].payload)]
    ensures Parse(after, 0, size) == Some(blocks')
    ensures Successor(blocks, blocks')
  {
    SpliceFrame(before, at, Encode(0, WORD));
    StoredWord(after, at, 0);
    ParseSetFlag(before, after, 0, size, blocks, k, at, 0);
    SetFlagIsUpdate(blocks, k, 0);
  }

  /** scm_free. */
  method Free(scm: Store?, p: Ptr) returns (r: FreeOutcome)
    requires scm != null ==> scm.Valid()
    modifies Footprint(scm)
    ensures scm != null ==>
              scm.Valid() && scm.size == old(scm.size) && unchanged(scm.header) &&
              Successor(old(scm.blocks), scm.blocks)
    ensures scm == null || p.Null? ==>
              r == Ignored && (scm != null ==> unchanged(scm, scm.heap))
    ensures scm != null && p.At? ==>
              && (r == NotFound <==>
                    forall k :: 0 <= k < |old(scm.blocks)| ==> PayloadOf(old(scm.blocks), k) != p.off)
              && (r == DoubleFree <==>
                    exists k :: 0 <= k < |old(scm.blocks)| && PayloadOf(old(scm.blocks), k) == p.off &&
                                old(scm.blocks)[k].flag == 0)
              && (r == Released <==>
                    exists k :: 0 <= k < |old(scm.blocks)| && PayloadOf(old(scm.blocks), k) == p.off &&
                                old(scm.blocks)[k].flag != 0)
    ensures scm != null && r != Released ==> unchanged(scm.heap) && scm.blocks == old(scm.blocks)
    ensures scm != null && r == Released ==>
              exists k :: && 0 <= k < |old(scm.blocks)| && PayloadOf(old(scm.blocks), k) == p.off
                          && scm.blocks == old(scm.blocks)[k := Block(0, old(scm.blocks)[k].payload)]
                          && Off(old(scm.blocks), k) + WORD <= scm.heap.Length
                          && scm.heap[..] == Splice(old(scm.heap[..]), Off(old(scm.blocks), k), Encode(0, WORD))
  {
    if scm == null || p.Null? {
      return Ignored;
    }
    var at, k := Locate(scm, p.off);
    if at.None? {
      return NotFound;
    }
    forall j | 0 <= j < |scm.blocks| && PayloadOf(scm.blocks, j) == p.off
      ensures j == k
    {
      PayloadsDistinct(scm.blocks, j, k);
    }
    var flag := Word(scm.heap[..], at.value);
    if flag == 0 {
      return DoubleFree;
    }
    ghost var before := scm.heap[..];
    StoreWord(scm.heap, at.value, 0);
    scm.blocks := scm.blocks[k := Block(0, scm.blocks[k].payload)];
    Cleared(before, scm.heap[..], at.value, scm.size, k, old(scm.blocks), scm.blocks);
    return Released;
  }

  /** scm_utilized. */
  function Utilized(scm: Store?): (r: nat)
    reads Footprint(scm)
    ensures scm == null ==> r == 0
    ensures scm != null ==> r == scm.size
    ensures scm != null && scm.Valid() ==> r == Span(scm.blocks) && r <= scm.length
  {
    if scm == null then 0 else UsedIsChainSpan(scm); scm.size
  }

  /** scm_capacity. */
  function Capacity(scm: Store?): (r: nat)
    reads Footprint(scm)
    ensures scm == null ==> r == 0
    ensures scm != null ==> r == scm.length
    ensures scm != null && scm.Valid() ==> Utilized(scm) <= r
  {
    if scm == null then 0 else scm.length
  }

  /** scm_mbase: the payload of the first block when there is one, else `base`. */
  function MBase(scm: Store?): (p: Ptr)
    reads Footprint(scm)
    ensures scm == null <==> p == Null
    ensures scm != null && scm.Valid() && scm.blocks == [] ==> p == At(0)
    ensures scm != null && scm.Valid() && scm.blocks != [] ==> p == At(PayloadOf(scm.blocks, 0))
  {
    if scm == null then Null
    else if scm.size != 0 then At(2 * WORD)
    else At(0)
  }
}

# scm: a persistent bump allocator, modelled in Dafny

`scm.c` manages a memory-mapped file as a heap that survives the process. The file
starts with a persistent header of two `int`s: a "formatted" marker (`1`) and the
number of bytes in use. The allocatable space, `base`, follows the header. In that
space, blocks are laid end to end in allocation order. Each block has a header of two
`size_t`s, the allocated flag and the payload size, followed by the payload.

- `scm_malloc` and `scm_strdup` append a block, advance `size` and copy it into the
  persistent header.
- `scm_free` walks the chain from `base` and clears the flag of the block whose payload
  address it is given.
- `scm_open` maps the file and either reformats the header or recovers `size` from it.
- `scm_utilized`, `scm_capacity` and `scm_mbase` report on the store.

The model has three modules:

- `Words` (words.dfy): little-endian `size_t` encoding, byte writes (`Splice`) and
  what they leave unchanged, and the `int` to `size_t` conversion.
- `Layout` (layout.dfy): the block chain as a parse of the bytes from `base`, block
  offsets, and how a header write or a flag write changes the parse.
- `Scm` (scm.dfy): the `Store` class and one method or function per C function.

`Store` holds:

- `header`: the two `int`s;
- `heap`: the bytes from `base`;
- `size` and `length`;
- a ghost `blocks`, the chain.

Its invariant `Valid()` says several things:

- the header is marked formatted and mirrors `size`;
- `size <= length <= INT_MAX`;
- the bytes of `heap` in `[0, size)` parse into exactly `blocks`.

From this invariant, `size` is the sum of `METADATA_SIZE` plus payload over the chain
(`UsedIsChainSpan`). Pointers are byte offsets from `base`.

## Model

| member | source | states |
|---|---|---|
| Scm.RoundDownToPage | scm.c:50-53 | the capacity `(st_size / page) * page` is a multiple of the page size, at most the file size, and less than one page below it |
| Scm.Open | scm.c:63-123 | open fails exactly when open(), the sbrk check, or mmap() fails; the capacity is the rounded file size; an unformatted header or `truncate` leaves the header `(1, 0)` with size 0 and an empty, valid store; otherwise the header is untouched and `size` is header word 1 converted to `size_t`; a region a valid store left behind gives back a valid store with the chain that the bytes hold |
| Scm.Reopen | scm.c:113-119 | reopening without truncation the region of a valid store recovers the same used size and the same chain, so every payload is at its old offset |
| Scm.UsedIsChainSpan | scm.c:169 | in a valid store, `size` is the sum of `METADATA_SIZE` + payload over the chain, and `size <= length` |
| Scm.Store.Grow | scm.c:169-172 | `size` grows by the payload plus `METADATA_SIZE`, header word 1 becomes the new `size`, header word 0 is unchanged, and the chain gains the new block |
| Scm.StoreWord | scm.c:166-167 | storing a `size_t` changes exactly its eight bytes, and reading it back gives the value |
| Scm.WriteHeader | scm.c:166-167 | the header `(1, n)` is written at offset `at`, no other byte changes, and both words read back as written |
| Scm.Appended | scm.c:164-174 | a header `(1, n)` written just past the end of the chain extends the chain by block `(1, n)` ending at `at + 16 + n`; earlier blocks keep their flags and sizes; the new payload starts right after the header |
| Scm.Malloc | scm.c:147-176 | NULL for a null store, `n == 0`, or a block that does not fit, with nothing changed; otherwise the header `(1, n)` is written at the old `size` and no other byte changes; `size` grows by `n + 16`; header word 1 is the new `size`; the pointer is `base + old size + 16`, the payload of the new last block; the store stays valid |
| Scm.StrCpy | scm.c:192 | the bytes of `s` and a NUL are copied to `dst`, and no other byte changes |
| Scm.WriteCopy | scm.c:188-192 | writes the header `(1, strlen(s) + 1)` then the copy of `s` and its NUL, and no other byte; the size word reads back as `strlen(s) + 1` after the copy |
| Scm.Duplicated | scm.c:188-195 | such a header and copy, just past the end of the chain, extend the chain by a block holding `s` and its NUL in its payload |
| Scm.StrDup | scm.c:178-198 | NULL and no change for a NULL string; otherwise header `(1, strlen(s) + 1)`, then `s` and its NUL in the payload; `size` grows by `strlen(s) + 1 + 16`; header word 1 is the new `size`; the pointer is the new block's payload; the store stays valid |
| Scm.Locate | scm.c:212-232 | the walk from `base` stops at the block whose payload address is `p`, and returns that block's header offset and flag; when it reaches `base + size` no block has payload address `p` |
| Scm.Missed | scm.c:221-231 | a walk that passes block `k` without a match has missed `p` in every block up to `k` |
| Scm.PayloadsDistinct | scm.c:221 | no two blocks of a chain share a payload address, so the walk's match is the only one |
| Scm.Cleared | scm.c:227 | zeroing the flag word of block `k` leaves a chain in which only block `k`'s flag has become 0 |
| Scm.Free | scm.c:200-235 | a null store or pointer is ignored; "not found" exactly when no block has payload `p`; double free exactly when the block with payload `p` has flag 0; otherwise exactly that block's flag word is zeroed and nothing else changes; `size` and the header never change |
| Scm.Utilized | scm.c:238-243 | 0 for a null store, else `size`, which is the chain's span and at most the capacity |
| Scm.Capacity | scm.c:245-250 | 0 for a null store, else `length`, never below `scm_utilized` |
| Scm.MBase | scm.c:252-262 | NULL for a null store; the first block's payload, `base + 16`, when the store holds a block; `base` when it is empty |
| Scm.WrappedCheckAdmitsOversize | scm.c:156 | a request of 2^64 - 16 bytes on an empty 4096-byte store passes the wrapping test although it does not fit |
| Scm.ExactCheckAgreesWithoutWrap | scm.c:156 | when the sum does not wrap, the test as written rejects exactly the requests that do not fit |
| Scm.BlockMayPassMappingEnd | scm.c:110 | the test counts from `base` but compares with the whole mapping's length, so a first block may end 8 bytes past the mapping |
| Layout.PayloadsOrdered | scm.c:169-174 | an earlier block's payload ends before a later block's payload begins: successive allocations return increasing, non-overlapping ranges |
| Layout.SuccessorKeepsOffsets | scm.c:164-174 | operations that only append blocks or clear flags leave every old block at its old offset |
| Layout.OffWithin | scm.c:215 | every block of the chain ends within the span the walk covers |
| Layout.ParseStep | scm.c:216-231 | one step of the walk: the header at block `k`'s offset is block `k`, and the walk continues at the next block's offset |
| Layout.ParseSpan | scm.c:169 | a chain that parses from `off` to `end` spans exactly `end - off` bytes |
| Layout.ParseFrame | scm.c:164-167 | the chain depends only on the bytes it covers |
| Layout.ParseAppend | scm.c:164-169 | a header written just past the end of a chain, with the chain's bytes untouched, extends the chain by that block |
| Layout.HeaderAppended | scm.c:164-169 | a header written with a splice at the end of the chain reads back and extends the chain |
| Layout.ParseSetFlag | scm.c:227 | rewriting only the flag word of block `k` sets that block's flag and leaves every other block and every payload size alone |
| Layout.SetFlagIsUpdate | scm.c:227 | the chain with block `k`'s flag set is the chain with block `k` replaced by the same block carrying the new flag |
| Words.DecodeEncode | scm.c:166-167 | every value below 2^(8k) survives little-endian encoding and decoding in `k` bytes |
| Words.StoredWord | scm.c:217-218 | the eight bytes written for a `size_t` read back as that value |
| Words.SpliceAdjacent | scm.c:166-167 | two writes side by side equal one write of both |
| Words.SplicedElsewhere | scm.c:192-193 | a write that misses a word leaves the word's value alone, so header word 1 still holds `strlen(s) + 1` after the copy |
| Words.SizeOfInt | scm.c:119 | the `int` to `size_t` conversion keeps non-negative values and sends negative ones above `INT_MAX` |

## Left out

- The system calls of `scm_open` and `file_size`, which are `open`, `fstat`, `sbrk` and `mmap`. Their outcomes are fields of a `Host` parameter, and the mapped file is the `header` and `heap` arrays passed in.
- `close` at the end of `scm_open` has no effect the model can see.
- `scm_close`, which runs `msync`, `munmap` and `FREE`, is OS resource plumbing and is not part of this model.
- The `base == MAP_FAILED` tests in `scm_malloc` and `scm_strdup` are dead code, because `scm_open` returns NULL whenever mmap() fails.
- The struct allocation and its NULL dereference at scm.c:71-73 are undefined behaviour on a failed malloc() and are left out.
- Scm.Open: requires a regular file once open() succeeds. For anything else, `file_size` frees the handle and `scm_open` goes on to use it (scm.c:55-57, 83), which is undefined behaviour.
- `printf` and `perror` diagnostics are not modelled. `Scm.Free` returns the branch it took as a `FreeOutcome` instead.
- Addresses are modelled as offsets from `base`. `VIRT_ADDR` only enters the `sbrk(0)` comparison.
- `heap` holds `length` bytes from `base`, as the capacity test presumes. The real mapping ends `INT_SIZE` bytes earlier, as `Scm.BlockMayPassMappingEnd` states.
- Byte order is little-endian, the order of the x86-64 hosts the allocator runs on.
- Scm.Open: `length <= INT_MAX` is needed for validity, because the persisted used size is an `int`. On a larger file a formatted store may not be valid.
- Scm.Malloc: the store must satisfy `Valid()`, so its capacity is at most `INT_MAX`. The `int` copy of `size` in the header then never truncates.
- Scm.StrDup: requires a non-null store, because the source reads `scm->base` and `scm->size` (scm.c:181) before testing `scm` for NULL.
- Scm.StrDup: requires room for the copy, because the source never checks capacity.
- Scm.StrDup: requires that `s` holds no NUL byte, so that `strlen(s)` is its length.
- Scm.Locate: the pointer comparison is on offsets. The walk's pointer arithmetic cannot overflow in a valid store.
- Concurrency: the source has none, and so does the model.

## Findings

| source | as written | input that shows it | evidently intended | confidence | as-written member | corrected member |
|---|---|---|---|---|---|---|
| scm.c:156 | `scm->size + n + METADATA_SIZE > scm->length` is computed in `size_t` and wraps modulo 2^64 | `size = 0`, `n = 2^64 - 16`, `length = 4096`: the sum wraps to 0, so the request is accepted and the header claims a block far beyond the mapping | reject every request whose block does not fit, computed without wrap-around | not executed | Scm.WrappedCheckAdmitsOversize | Scm.Malloc |

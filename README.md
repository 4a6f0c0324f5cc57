# Boundary-tag block encoder of a teaching malloc (CS429 lab 3, mm.c)

This project models the working core of a boundary-tag memory allocator
written in C: the in-band tags that record a block's size and allocated flag
in one word, and the pointer arithmetic that moves between a block's header,
footer, payload, free-list link overlay and its neighbours' headers. Around
that core it also models the small size rules of the allocator: `ALIGN`, the
even-word rounding of `extend_heap`, and the entry of `mm_malloc`.

- `words.dfy` (module `Words`): `size_t` words (0 to 2^64 - 1) and their
  unsigned wrap-around (`Wrap`). It also gives reference definitions of C's
  `&`, `|` and `~` on naturals, one bit at a time. mm.c applies `~` only to
  the `int` literal `0x7`: C computes the `int` -8, and the usual arithmetic
  conversions turn it into 2^64 - 8 against the `size_t` operand. The model's
  mask is `Complement(7)`, where `Complement` is the complement within 64
  bits, computed as 2^64 - 1 - m. A lemma proves `Complement` equal to the
  bit-by-bit complement of the 64 bits, and another proves that converting
  -8 to `size_t` gives `Complement(7)`. Its other lemmas prove
  what the allocator's masks mean in arithmetic: `~0x7 & w` rounds `w` down
  to a multiple of 8, `w & 0x1` is `w % 2`, and `flag | size` is
  `size + flag` for an even size.
- `tags.dfy` (module `Tags`): the pure rules of mm.c. `ALIGN`, the packing
  and unpacking of a tag word with round trips in both directions,
  `extend_heap`'s byte count, and `mm_malloc`. The tag functions compute in
  arithmetic (round down to 8, low bit, add the flag). A lemma beside each
  proves it equal to the C bit expression mm.c writes.
- `blocks.dfy` (module `Blocks`): the heap as a class `Arena`. Its field
  `mem` maps byte addresses to 8-byte tag words. `put_header` and
  `put_footer` are methods that overwrite one word in place. The getters and
  navigators that read a tag are functions of the arena. Those that only
  compute an address are functions of the module. Lemmas prove the layout
  and the inverse navigation.

Tags are 8 bytes (`TagSize`), because `header_t` and `footer_t` each hold one
`size_t` (mm.c:60-68). The textbook macros `WSIZE` (4) and `DSIZE` (8) assume
4-byte tags. The two are not reconciled: `WSIZE` is used only for
`extend_heap`'s rounding and for `mm_init`'s call to it, where mm.c uses it.

The helpers cast pointers to `size_t` before doing arithmetic. So every
address computation is done modulo 2^64. Each helper requires what mm.c
asserts: a non-null pointer and an 8-aligned size. A failed C `assert` aborts
the program, so it is modelled as a precondition. Where a helper dereferences
a pointer, it also requires that the address is a word of the arena, because
C leaves a wild dereference undefined.

## Model

| member | source | states |
|---|---|---|
| `Words.ComplementIsNot` | mm.c:94-97 | The complement within 64 bits, which the model uses for the converted mask, equals the complement of each of the word's 64 bits, defined one bit at a time. |
| `Words.IntMaskConverts` | mm.c:94-97 | `~0x7` is the `int` -8; converted to `size_t` against the tag word it is 2^64 - 8, which is `Complement(7)`. |
| `Words.NotIsSubtraction` | mm.c:34 | Complementing the `k` low bits of a number below 2^k gives 2^k - 1 minus that number. |
| `Tags.Align` | mm.c:34 | `ALIGN(size)` is a multiple of 8. When `size + 7` does not overflow `size_t`, it lies in `[size, size + 8)`, i.e. it is the least multiple of 8 not below `size`. Otherwise it wraps to 0. |
| `Tags.AlignIsMask` | mm.c:34 | The rounding equals the C expression `(size + 7) & ~0x7`, computed bit by bit on the wrapped 64-bit sum. |
| `Tags.AlignFixedPoints` | mm.c:34 | `ALIGN(size) == size` exactly when `size` is already a multiple of 8. |
| `Tags.AlignIdempotent` | mm.c:34 | Applying `ALIGN` twice gives the same value as applying it once. |
| `Tags.SizeTSizeIsOneTag` | mm.c:36 | `SIZE_T_SIZE`, i.e. `ALIGN(sizeof(size_t))`, is 8, one tag. |
| `Tags.SizeField` | mm.c:83-86 | The size field of any tag word is a multiple of 8, at most the word, and within 8 of it. |
| `Tags.SizeFieldIsMask` | mm.c:94-97 | The size field equals the C expression `~0x7 & w` on a 64-bit word. |
| `Tags.AllocField` | mm.c:99-102 | The flag field of any tag word is 0 or 1, and the word minus the flag is even, i.e. the flag is the low bit. |
| `Tags.AllocFieldIsMask` | mm.c:99-102 | The flag field equals the C expression `w & 0x1`. |
| `Tags.PackHeader` | mm.c:88-92 | The header word carries the flag in its three low bits and the size above them: the word modulo 8 is the flag, and the word rounded down to 8 is the size. |
| `Tags.PackHeaderIsOr` | mm.c:88-92 | The header word equals the C expression `alloc` OR-ed with `size` for every 8-aligned size. |
| `Tags.PackFooter` | mm.c:77-81 | The footer word has the same layout as the header word: flag in the low bits, size above. |
| `Tags.PackFooterIsOr` | mm.c:77-81 | The footer word equals the C expression `(alloc & 0x1)` OR-ed with `size`, which is the header word. |
| `Tags.PackRoundTrip` | mm.c:77-102 | Unpack after pack: the size and the flag come back unchanged, for every 8-aligned size. |
| `Tags.UnpackRoundTrip` | mm.c:83-102 | Repacking the unpacked fields rebuilds a word exactly when its bits 1 and 2 are clear, i.e. when it is a packed tag. |
| `Tags.ExtendHeapSize` | mm.c:168 | `extend_heap`'s byte count is a multiple of 8, for every input, wrap-around included. Without overflow, it adds at most one 4-byte word to `words * 4`. |
| `Tags.InitialExtensionIsOneChunk` | mm.c:156 | `mm_init`'s call `extend_heap(CHUNKSIZE/WSIZE)` asks for exactly `CHUNKSIZE` (256) bytes. |
| `Tags.ExtendHeapSizeIsAligned` | mm.c:168 | Without overflow, the even-word rounding equals `ALIGN(words * 4)`. |
| `Tags.Malloc` | mm.c:184-197 | `mm_malloc` returns NULL for every request. A request of 0 bytes returns before the heap is started. `mm_init` runs exactly when the size is non-zero and `point_list_heap` is still 0. |
| `Blocks.Arena.PutFooter` | mm.c:77-81 | Writing a footer replaces exactly the word at `f` with the packed tag. Every other word and the heap's extent stay the same. Afterwards `get_size_footer(f)` returns `size` and the flag reads back as `alloc`. |
| `Blocks.Arena.GetSizeFooter` | mm.c:83-86 | The footer's size is a multiple of 8, at most the stored word and within 8 of it. |
| `Blocks.Arena.PutHeader` | mm.c:88-92 | Writing a header replaces exactly the word at `h` with the packed tag. Every other word and the heap's extent stay the same. Afterwards `get_size(h)` returns `size` and `get_alloc(h)` returns `alloc` as 0 or 1. |
| `Blocks.Arena.GetSize` | mm.c:94-97 | The header's size is a multiple of 8, at most the stored word and within 8 of it. |
| `Blocks.Arena.GetAlloc` | mm.c:99-102 | The flag is 0 or 1, and it is 1 exactly when the stored word is odd. |
| `Blocks.Arena.GetFooter` | mm.c:104-107 | For a block of at least one tag that does not run past the address space, the footer lies inside the block and ends exactly at `h + size`. For every other block this holds only modulo 2^64, which `Blocks.FooterAbutsAboveHeader` states. |
| `Blocks.Arena.GetAboveHeader` | mm.c:114-117 | The next header is `size` bytes above `h` (modulo 2^64) and keeps `h`'s 8-byte alignment. |
| `Blocks.Arena.GetBelowHeader` | mm.c:119-123 | The previous header is as many bytes below `h` as the footer just below `h` records, and keeps `h`'s alignment. |
| `Blocks.Arena.TagBlock` | mm.c:77-92 | `put_header(h, …)` followed by `put_footer(get_footer(h), …)` with the same size and flag changes just those two words. Header and footer then agree. When `h + size` does not wrap to NULL, `get_below_header(get_above_header(h)) == h`. |
| `Blocks.GetHeader` | mm.c:109-112 | The header lies one tag below the payload pointer (modulo 2^64). |
| `Blocks.GetPayload` | mm.c:125-128 | The payload lies one tag above the header (modulo 2^64), keeps the header's alignment, and lies above the header when the address does not wrap. |
| `Blocks.GetFreeblock` | mm.c:130-133 | The free-list overlay starts at the payload address. |
| `Blocks.GetFreeblockHeader` | mm.c:135-138 | A free block's header is found from its links exactly as from its payload. |
| `Blocks.HeaderPayloadInverse` | mm.c:109-128 | `get_header(get_payload(h)) == h` and `get_payload(get_header(p)) == p`, wherever the inner pointer is non-null. |
| `Blocks.FreeblockInverse` | mm.c:130-138 | `get_freeblock_header(get_freeblock(h)) == h` and the converse, wherever the inner pointer is non-null. |
| `Blocks.FooterAbutsAboveHeader` | mm.c:104-117 | A block's footer ends exactly where the next block's header begins. |
| `Blocks.BelowOfAboveIsSelf` | mm.c:114-123 | If a block's footer records the same size as its header, `get_below_header(get_above_header(h)) == h`. |
| `Blocks.AboveOfBelowIsSelf` | mm.c:114-123 | If the block below `h` has a header that agrees with its footer, `get_above_header(get_below_header(h)) == h`. |

## Left out

- `mem_sbrk` and the rest of `memlib` are not part of this model. They are the
  heap-extension primitive, and their code is not available.
- `mm_init` (mm.c:144-160) and the tag writes of `extend_heap` (mm.c:164-178)
  are not modelled as writes, because as written they change nothing or do
  not compile. `PUT` uses `==` where `=` is meant (mm.c:46), so it compares
  and stores nothing. `PACK` and `MAX` have a space before their parameter
  lists (mm.c:43-44), so they are object-like macros. `NEEXT_BLKP` is
  misspelt (mm.c:175). `coalesce` is called (mm.c:177) but never defined.
  Only the byte count of `extend_heap` (mm.c:168) is modelled.
- The `GET`, `PUT`, `GET_SIZE`, `GET_ALLOC`, `HDRP`, `FTRP`, `NEXT_BLKP` and
  `PREV_BLKP` macros (mm.c:45-52) work on 4-byte words and are used only by
  that code, so they are not modelled.
- `mm_malloc` past its zero-size check is a TODO that returns NULL. It is
  modelled as such. The effect of the lazy `mm_init` call is reduced to a
  flag, because `mm_init` itself is left out. The design comment
  (mm.c:1-19) describes an explicit LIFO free list with first-fit search,
  splitting and coalescing. The code has none of these, and the model
  follows the code.
- `mm_free`, `mm_realloc` and `mm_check` (mm.c:202-221) are empty stubs and
  are not modelled.
- The globals `point_list_heap` and `point_list_free` (mm.c:55-56) are not
  state of the model. `Tags.Malloc` takes whether the heap is started as a
  parameter, and `point_list_free` is never used.
- The `next` and `prev` fields of `freeblock_t` are never read or written by
  the code. Only the address of the overlay is modelled.
- Memory is modelled at the granularity of whole 8-byte words keyed by their
  start address. Two words whose addresses are less than 8 apart are
  independent in the model. The byte-level overlap and misaligned access of
  real memory are not captured.

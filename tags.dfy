/**
  The pure rules of the allocator in mm.c: the alignment round-up `ALIGN`,
  the packing of a block size and an allocated flag into one tag word and
  its unpacking, the even-word rounding of `extend_heap`, and the entry of
  `mm_malloc`.
*/
module Tags {
  import opened Words

  /** `ALIGNMENT`: every block size is a multiple of 8 bytes. */
  const Alignment: int := 8

  /** `sizeof(header_t)` and `sizeof(footer_t)`: one `size_t`. */
  const TagSize: int := 8

  /** `WSIZE` and `DSIZE`: the textbook's 4-byte word and 8-byte double word. */
  const WSize: int := 4
  const DSize: int := 8

  /** `CHUNKSIZE`: the initial heap extension, in bytes. */
  const ChunkSize: int := 256

  /** `ALIGN(size)`: `(size + 7)` on `size_t`, rounded down to a multiple of 8. */
  function Align(size: Word): (r: Word)
    ensures r % Alignment == 0
    ensures size <= WordModulus - Alignment ==> size <= r < size + Alignment
    ensures size > WordModulus - Alignment ==> r == 0
  {
    SizeField(Wrap(size + (Alignment - 1)))
  }

  /** The rounding of `Align` is the C mask `& ~0x7`. */
  lemma AlignIsMask(size: Word)
    ensures Align(size) == And(Wrap(size + (Alignment - 1)), Complement(7))
  {
    var sum := Wrap(size + (Alignment - 1));
    AndCommutes(sum, Complement(7));
    SizeFieldIsMask(sum);
  }

  /** Aligning an aligned size changes nothing, and only aligned sizes are fixed points. */
  lemma AlignFixedPoints(size: Word)
    ensures Align(size) == size <==> size % Alignment == 0
  {
  }

  /** `ALIGN` is idempotent. */
  lemma AlignIdempotent(size: Word)
    ensures Align(Align(size)) == Align(size)
  {
    AlignFixedPoints(Align(size));
  }

  /** `SIZE_T_SIZE`, that is `ALIGN(sizeof(size_t))`, is one tag. */
  lemma SizeTSizeIsOneTag()
    ensures Align(TagSize) == TagSize
  {
    AlignFixedPoints(TagSize);
  }

  /** The size field of a tag word: the word with its three low bits cleared. */
  function SizeField(w: Word): (s: Word)
    ensures s % Alignment == 0
    ensures s <= w < s + Alignment
  {
    w - w % Alignment
  }

  /** The size field is the C mask `~0x7 & w`. */
  lemma SizeFieldIsMask(w: Word)
    ensures SizeField(w) == And(Complement(7), w)
  {
    ClearLowThreeBits(w);
  }

  /** The allocated flag of a tag word: its low bit. */
  function AllocField(w: Word): (b: Word)
    ensures b <= 1
    ensures (w - b) % 2 == 0
  {
    w % 2
  }

  /** The flag field is the C mask `w & 0x1`. */
  lemma AllocFieldIsMask(w: Word)
    ensures AllocField(w) == And(w, 1)
  {
    AndOne(w);
  }

  /** C's conversion of a `bool` to an integer. */
  function AllocBit(alloc: bool): (b: Word)
  {
    if alloc then 1 else 0
  }

  /** An 8-aligned size has a clear low bit. */
  lemma EvenOfAligned(size: Word)
    requires size % Alignment == 0
    ensures size % 2 == 0
  {
    assert size == 2 * (4 * (size / 8));
  }

  /** The word `put_header` stores: the flag in bit 0 of the 8-aligned size. */
  function PackHeader(size: Word, alloc: bool): (w: Word)
    requires size % Alignment == 0
    ensures w % Alignment == AllocBit(alloc)
    ensures w - w % Alignment == size
  {
    size + AllocBit(alloc)
  }

  /** The header word is the C expression `alloc | size`. */
  lemma PackHeaderIsOr(size: Word, alloc: bool)
    requires size % Alignment == 0
    ensures PackHeader(size, alloc) == Or(AllocBit(alloc), size)
  {
    EvenOfAligned(size);
    OrFlag(AllocBit(alloc), size);
  }

  /**
    The word `put_footer` stores. It is the same word as the header's, so
    header and footer of a block can agree.
  */
  function PackFooter(size: Word, alloc: bool): (w: Word)
    requires size % Alignment == 0
    ensures w % Alignment == AllocBit(alloc)
    ensures w - w % Alignment == size
  {
    PackHeader(size, alloc)
  }

  /** The footer word is the C expression `(alloc & 0x1) | size`. */
  lemma PackFooterIsOr(size: Word, alloc: bool)
    requires size % Alignment == 0
    ensures PackFooter(size, alloc) == Or(And(AllocBit(alloc), 1), size)
  {
    AndOne(AllocBit(alloc));
    PackHeaderIsOr(size, alloc);
  }

  /** Unpacking a packed tag gives back the size and the flag. */
  lemma PackRoundTrip(size: Word, alloc: bool)
    requires size % Alignment == 0
    ensures SizeField(PackHeader(size, alloc)) == size
    ensures AllocField(PackHeader(size, alloc)) == AllocBit(alloc)
  {
    var w := PackHeader(size, alloc);
    assert w % 8 == AllocBit(alloc);
    LowBitOfResidue(w);
  }

  /**
    Packing the unpacked fields of a tag word rebuilds it exactly when the
    word has no stray bits 1 and 2, that is when it is a packed tag.
  */
  lemma UnpackRoundTrip(w: Word)
    ensures PackHeader(SizeField(w), AllocField(w) == 1) == w <==> w % Alignment < 2
  {
    LowBitOfResidue(w);
  }

  /**
    The byte size `extend_heap` asks for: `words` 4-byte words rounded up to
    an even count.
  */
  function ExtendHeapSize(words: Word): (size: Word)
    ensures size % DSize == 0
    ensures words < WordModulus / WSize - 1 ==> words * WSize <= size < words * WSize + DSize
  {
    var bytes := if words % 2 != 0 then (words + 1) * WSize else words * WSize;
    assert bytes % DSize == 0 by {
      assert words == 2 * (words / 2) + words % 2;
      assert bytes == 8 * ((words + words % 2) / 2);
    }
    WrapKeepsResidue(bytes);
    if words % 2 != 0 then Wrap((words + 1) * WSize) else Wrap(words * WSize)
  }

  /** The even-word rounding of `extend_heap` is `ALIGN` applied to the byte count. */
  lemma ExtendHeapSizeIsAligned(words: Word)
    requires words < WordModulus / WSize - 1
    ensures ExtendHeapSize(words) == Align(words * WSize)
  {
    var bytes := words * WSize;
    assert bytes <= WordModulus - Alignment;
    AlignedInWindowIsUnique(ExtendHeapSize(words), Align(bytes), bytes);
  }

  /** `mm_init`'s call `extend_heap(CHUNKSIZE/WSIZE)` asks for exactly `CHUNKSIZE` bytes. */
  lemma InitialExtensionIsOneChunk()
    ensures ExtendHeapSize(ChunkSize / WSize) == ChunkSize
  {
  }

  /** Two multiples of 8 within one 8-byte window are equal. */
  lemma AlignedInWindowIsUnique(a: int, b: int, lo: int)
    requires a % Alignment == 0 && b % Alignment == 0
    requires lo <= a < lo + Alignment && lo <= b < lo + Alignment
    ensures a == b
  {
    assert a == 8 * (a / 8) && b == 8 * (b / 8);
  }

  /** What `mm_malloc` does: the pointer it returns, and whether it starts the heap. */
  datatype MallocOutcome = MallocOutcome(result: Word, initialisesHeap: bool)

  /**
    `mm_malloc(size)` as written: a request of zero bytes returns NULL before
    touching the heap; otherwise the heap is started by `mm_init` if
    `point_list_heap` is still 0, and NULL is returned (the search is a TODO).
  */
  function Malloc(size: Word, heapStarted: bool): (r: MallocOutcome)
    ensures r.result == Null
    ensures r.initialisesHeap <==> size != 0 && !heapStarted
  {
    if size == 0 then MallocOutcome(Null, false)
    else MallocOutcome(Null, !heapStarted)
  }
}

/**
  The boundary-tag helpers of mm.c over the heap: writing and reading the
  header and footer tags of a block, and moving between a block's header,
  footer, payload, free-list overlay and its neighbours' headers.

  The heap is an arena of 8-byte tag words addressed by byte address; the
  pointer arithmetic of the helpers, which casts pointers to `size_t`, is
  done modulo 2^64.
*/
module Blocks {
  import opened Words
  import opened Tags

  /** The heap memory the tag helpers read and write in place. */
  class Arena {
    /** The live heap words: tag word stored at each byte address. */
    var mem: map<Word, Word>

    constructor (contents: map<Word, Word>)
      ensures mem == contents
    {
      mem := contents;
    }

    /** `put_footer(f, size, alloc)`: overwrite the footer word at `f`. */
    method PutFooter(f: Word, size: Word, alloc: bool)
      requires f != Null && f in mem
      requires size % Alignment == 0
      modifies this
      ensures mem == old(mem)[f := PackFooter(size, alloc)]
      ensures mem.Keys == old(mem).Keys
      ensures forall a :: a in mem && a != f ==> mem[a] == old(mem)[a]
      ensures GetSizeFooter(f) == size && GetAlloc(f) == AllocBit(alloc)
    {
      mem := mem[f := PackFooter(size, alloc)];
      PackRoundTrip(size, alloc);
    }

    /** `get_size_footer(f)`: the size recorded in the footer at `f`. */
    function GetSizeFooter(f: Word): (s: Word)
      reads this
      requires f != Null && f in mem
      ensures s % Alignment == 0
      ensures s <= mem[f] < s + Alignment
    {
      SizeField(mem[f])
    }

    /** `put_header(h, size, alloc)`: overwrite the header word at `h`. */
    method PutHeader(h: Word, size: Word, alloc: bool)
      requires h != Null && h in mem
      requires size % Alignment == 0
      modifies this
      ensures mem == old(mem)[h := PackHeader(size, alloc)]
      ensures mem.Keys == old(mem).Keys
      ensures forall a :: a in mem && a != h ==> mem[a] == old(mem)[a]
      ensures GetSize(h) == size && GetAlloc(h) == AllocBit(alloc)
    {
      mem := mem[h := PackHeader(size, alloc)];
      PackRoundTrip(size, alloc);
    }

    /** `get_size(h)`: the block size recorded in the header at `h`. */
    function GetSize(h: Word): (s: Word)
      reads this
      requires h != Null && h in mem
      ensures s % Alignment == 0
      ensures s <= mem[h] < s + Alignment
    {
      SizeField(mem[h])
    }

    /** `get_alloc(h)`: the allocated flag recorded in the header at `h`. */
    function GetAlloc(h: Word): (b: Word)
      reads this
      requires h != Null && h in mem
      ensures b <= 1
      ensures b == 1 <==> mem[h] % 2 == 1
    {
      AllocField(mem[h])
    }

    /** `get_footer(h)`: the address of the footer of the block whose header is at `h`. */
    function GetFooter(h: Word): (f: Word)
      reads this
      requires h != Null && h in mem
      ensures TagSize <= GetSize(h) && h + GetSize(h) <= WordModulus ==>
                h <= f && f + TagSize == h + GetSize(h)
    {
      Wrap(h + GetSize(h) - TagSize)
    }

    /** `get_above_header(h)`: the header of the next block in address order. */
    function GetAboveHeader(h: Word): (n: Word)
      reads this
      requires h != Null && h in mem
      ensures Wrap(n - h) == GetSize(h)
      ensures n % Alignment == h % Alignment
    {
      WrapKeepsResidue(h + GetSize(h));
      assert (h + GetSize(h)) % Alignment == h % Alignment by {
        assert GetSize(h) == 8 * (GetSize(h) / 8);
      }
      Wrap(h + GetSize(h))
    }

    /**
      `get_below_header(h)`: the header of the previous block in address
      order, found through that block's footer just below `h`.
    */
    function GetBelowHeader(h: Word): (b: Word)
      reads this
      requires h != Null
      requires Wrap(h - TagSize) != Null && Wrap(h - TagSize) in mem
      ensures Wrap(h - b) == GetSizeFooter(Wrap(h - TagSize))
      ensures b % Alignment == h % Alignment
    {
      var prevFooter := Wrap(h - TagSize);
      var s := GetSizeFooter(prevFooter);
      WrapKeepsResidue(h - s);
      assert (h - s) % Alignment == h % Alignment by {
        assert s == 8 * (s / 8);
      }
      Wrap(h - s)
    }

    /**
      Tag a block the way the boundary-tag design pairs the two writers:
      `put_header(h, size, alloc)`, then `put_footer(get_footer(h), size, alloc)`.
      Afterwards header and footer agree, and the block is reachable back
      from the block above it.
    */
    method TagBlock(h: Word, size: Word, alloc: bool)
      requires h != Null && h in mem
      requires size % Alignment == 0
      requires Wrap(h + size - TagSize) != Null && Wrap(h + size - TagSize) in mem
      modifies this
      ensures mem == old(mem)[h := PackHeader(size, alloc)][Wrap(h + size - TagSize) := PackFooter(size, alloc)]
      ensures GetSize(h) == size && GetAlloc(h) == AllocBit(alloc)
      ensures GetFooter(h) == Wrap(h + size - TagSize)
      ensures GetSizeFooter(GetFooter(h)) == size && GetAlloc(GetFooter(h)) == AllocBit(alloc)
      ensures Wrap(h + size) != Null ==> GetBelowHeader(GetAboveHeader(h)) == h
    {
      PutHeader(h, size, alloc);
      var f := GetFooter(h);
      PutFooter(f, size, alloc);
      if Wrap(h + size) != Null {
        BelowOfAboveIsSelf(this, h);
      }
    }
  }

  /** `get_header(p)`: the header of the block whose payload starts at `p`. */
  function GetHeader(p: Word): (h: Word)
    requires p != Null
    ensures Wrap(h + TagSize) == p
  {
    Wrap(p - TagSize)
  }

  /** `get_payload(h)`: the payload of the block whose header is at `h`. */
  function GetPayload(h: Word): (p: Word)
    requires h != Null
    ensures Wrap(p - TagSize) == h
    ensures p % Alignment == h % Alignment
    ensures h + TagSize < WordModulus ==> h < p
  {
    WrapKeepsResidue(h + TagSize);
    Wrap(h + TagSize)
  }

  /**
    `get_freeblock(h)`: the free-list links of a free block, which overlay
    the start of its payload.
  */
  function GetFreeblock(h: Word): (fb: Word)
    requires h != Null
    ensures fb == GetPayload(h)
  {
    Wrap(h + TagSize)
  }

  /** `get_freeblock_header(fb)`: the header of the free block whose links are at `fb`. */
  function GetFreeblockHeader(fb: Word): (h: Word)
    requires fb != Null
    ensures h == GetHeader(fb)
  {
    Wrap(fb - TagSize)
  }

  /** Header and payload navigation are inverse, in both directions. */
  lemma HeaderPayloadInverse(h: Word, p: Word)
    ensures h != Null && GetPayload(h) != Null ==> GetHeader(GetPayload(h)) == h
    ensures p != Null && GetHeader(p) != Null ==> GetPayload(GetHeader(p)) == p
  {
  }

  /** Free-block overlay navigation are inverse, in both directions. */
  lemma FreeblockInverse(h: Word, fb: Word)
    ensures h != Null && GetFreeblock(h) != Null ==> GetFreeblockHeader(GetFreeblock(h)) == h
    ensures fb != Null && GetFreeblockHeader(fb) != Null ==> GetFreeblock(GetFreeblockHeader(fb)) == fb
  {
    HeaderPayloadInverse(h, fb);
  }

  /** A block's footer ends exactly where the next block's header begins. */
  lemma FooterAbutsAboveHeader(a: Arena, h: Word)
    requires h != Null && h in a.mem
    ensures Wrap(a.GetFooter(h) + TagSize) == a.GetAboveHeader(h)
  {
  }

  /**
    When a block's footer records the same size as its header, stepping to
    the block above and back down returns to the block.
  */
  lemma BelowOfAboveIsSelf(a: Arena, h: Word)
    requires h != Null && h in a.mem
    requires a.GetFooter(h) != Null && a.GetFooter(h) in a.mem
    requires a.GetAboveHeader(h) != Null
    requires a.GetSizeFooter(a.GetFooter(h)) == a.GetSize(h)
    ensures a.GetBelowHeader(a.GetAboveHeader(h)) == h
  {
    FooterAbutsAboveHeader(a, h);
    assert Wrap(a.GetAboveHeader(h) - TagSize) == a.GetFooter(h);
  }

  /**
    When the block below `h` has a header that agrees with its footer,
    stepping down and back up returns to `h`.
  */
  lemma AboveOfBelowIsSelf(a: Arena, h: Word)
    requires h != Null
    requires Wrap(h - TagSize) != Null && Wrap(h - TagSize) in a.mem
    requires a.GetBelowHeader(h) != Null && a.GetBelowHeader(h) in a.mem
    requires a.GetSize(a.GetBelowHeader(h)) == a.GetSizeFooter(Wrap(h - TagSize))
    ensures a.GetAboveHeader(a.GetBelowHeader(h)) == h
  {
  }
}

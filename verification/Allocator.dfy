/** The bump allocator behind `ohn_alloc_f32` and `ohn_alloc_i32`, and the checked pointer resolver. */
module Allocator {
  import opened Words
  import opened Wrappers

  const HEAP_SIZE := 64 * 1024 * 1024
  const LINE := 64

  /** A successful allocation: its byte offset in the heap and its size. */
  datatype Block = Block(key: nat, size: nat)

  datatype Resolved = NullPointer | Fatal | Pointer(address: nat)

  function RoundUp(n: nat): (r: nat)
    ensures r % LINE == 0 && n <= r < n + LINE
  {
    (n + 63) / LINE * LINE
  }

  function Total(blocks: seq<Block>): nat {
    if blocks == [] then 0 else Total(blocks[..|blocks| - 1]) + blocks[|blocks| - 1].size
  }

  /** Blocks follow one another from offset 0 in whole cache lines. */
  predicate Packed(blocks: seq<Block>) {
    forall i :: 0 <= i < |blocks| ==>
      blocks[i].key == Total(blocks[..i]) && blocks[i].size > 0 && blocks[i].size % LINE == 0
  }

  class Heap {
    /** `ohn_heap_base`, an address, once the heap exists. */
    var base: Option<nat>
    var offset: u32
    /** The successful allocations. The first has key 0, which is also what failure returns. */
    ghost var blocks: seq<Block>

    ghost predicate Valid()
      reads this
    {
      && (base.Some? ==> base.value % LINE == 0)
      && (base.None? ==> blocks == [])
      && Packed(blocks) && offset == Total(blocks) <= HEAP_SIZE
    }

    constructor ()
      ensures Valid() && blocks == [] && base == None && offset == 0
    {
      base, offset, blocks := None, 0, [];
    }

    /** `ohn_alloc_f32` and `ohn_alloc_i32`, whose elements both have four bytes. `raw` is what malloc would
        return, `None` for NULL. */
    method Alloc(count: int, raw: Option<nat>) returns (key: u32)
      requires Valid() && -0x8000_0000 <= count <= 0x7FFF_FFFF
      modifies this
      ensures Valid()
      ensures base == if count <= 0 || old(base).Some? || raw.None? then old(base) else Some(RoundUp(raw.value))
      ensures var size := if count > 0 then RoundUp(4 * count) else 0;
        if count > 0 && base.Some? && Total(old(blocks)) + size <= HEAP_SIZE
        then key == Total(old(blocks)) && blocks == old(blocks) + [Block(key, size)]
        else key == 0 && blocks == old(blocks)
    {
      if count <= 0 {
        return 0;
      }
      if base.None? {
        if raw.None? {
          return 0;
        }
        base := Some(RoundUp(raw.value));
      }
      var alignedSize := RoundUp(4 * count);
      if offset + alignedSize > HEAP_SIZE {
        return 0;
      }
      PackedPush(blocks, alignedSize);
      key := offset;
      offset := offset + alignedSize;
      blocks := blocks + [Block(key, alignedSize)];
    }

    /** `ohn_free` */
    method Free(key: u32)
      requires Valid()
      ensures Valid() && unchanged(this)
    {
    }

    /** `ohn_resolve_ptr_safe`: despite the 32-bit sum, it accepts exactly the slices inside the heap. */
    method ResolveSafe(baseOffset: u32, byteLength: u32) returns (r: Resolved)
      ensures r == if base.None? then NullPointer
                   else if baseOffset + byteLength <= HEAP_SIZE then Pointer(base.value + baseOffset) else Fatal
    {
      if base.None? {
        return NullPointer;
      }
      if (baseOffset + byteLength) % WORD < baseOffset {
        return Fatal;
      }
      if (baseOffset + byteLength) % WORD > HEAP_SIZE {
        return Fatal;
      }
      return Pointer(base.value + baseOffset);
    }
  }

  lemma PackedPush(blocks: seq<Block>, size: nat)
    requires Packed(blocks) && size > 0 && size % LINE == 0
    ensures var all := blocks + [Block(Total(blocks), size)];
      Packed(all) && Total(all) == Total(blocks) + size
  {
    var all := blocks + [Block(Total(blocks), size)];
    assert all[..|blocks|] == blocks;
    forall i | 0 <= i < |all| ensures all[i].key == Total(all[..i]) {
      if i < |blocks| {
        assert all[..i] == blocks[..i];
      }
    }
  }

  lemma {:induction false} TotalGrows(blocks: seq<Block>, i: nat, j: nat)
    requires i < j <= |blocks|
    ensures Total(blocks[..i]) + blocks[i].size <= Total(blocks[..j])
    decreases j
  {
    assert blocks[..j][..j - 1] == blocks[..j - 1];
    if i < j - 1 {
      TotalGrows(blocks, i, j - 1);
    }
  }

  /** The first key is 0, each later one is where the block before ends, and `offset` is where the last one
      ends. */
  lemma KeysFollow(blocks: seq<Block>, i: nat)
    requires Packed(blocks) && i < |blocks|
    ensures blocks[i].key == if i == 0 then 0 else blocks[i - 1].key + blocks[i - 1].size
    ensures Total(blocks) == blocks[|blocks| - 1].key + blocks[|blocks| - 1].size
  {
    if i > 0 {
      assert blocks[..i][..i - 1] == blocks[..i - 1];
    }
    assert blocks[..|blocks| - 1] == blocks[..|blocks|][..|blocks| - 1];
  }

  /** After any run of allocations, blocks are cache-line aligned, pairwise disjoint and inside the heap. */
  lemma BlocksAreApart(blocks: seq<Block>, i: nat, j: nat)
    requires Packed(blocks) && Total(blocks) <= HEAP_SIZE && i < j < |blocks|
    ensures blocks[i].key + blocks[i].size <= blocks[j].key
    ensures blocks[j].key + blocks[j].size <= 67108864
    ensures blocks[i].key % 64 == 0 && blocks[j].key % 64 == 0
  {
    TotalGrows(blocks, i, j);
    TotalGrows(blocks, j, |blocks|);
    assert blocks[..|blocks|] == blocks;
    TotalIsAligned(blocks, i);
    TotalIsAligned(blocks, j);
  }

  lemma {:induction false} TotalIsAligned(blocks: seq<Block>, i: nat)
    requires Packed(blocks) && i <= |blocks|
    ensures Total(blocks[..i]) % LINE == 0
    decreases i
  {
    if i > 0 {
      assert blocks[..i][..i - 1] == blocks[..i - 1];
      TotalIsAligned(blocks, i - 1);
    }
  }
}

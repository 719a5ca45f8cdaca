/** The first-fit allocator of src/heap_allocator.c.  The heap is a
    16 MB region at 0x80000000 cut into blocks, each a header followed by
    its payload; the headers form a singly linked list in address order.
    The model keeps that list as a sequence of blocks in link order (a
    block's successor is the next element) and the heap as a `Heap` object
    whose list `malloc` and `free` replace. */
module HeapAllocator {

  /** `HEAP_START` and `HEAP_SIZE`. */
  const HeapStart: nat := 0x8000_0000
  const HeapSize: nat := 0x0100_0000
  const HeapEnd: nat := HeapStart + HeapSize

  /** `sizeof(heap_block_t)` on AArch64: an 8-byte `size_t`, an 8-byte
      pointer and a 4-byte `int`, padded to a multiple of 8. */
  const Header: nat := 24

  /** `size_t` arithmetic is modulo 2^64. */
  const SizeLimit: nat := 0x1_0000_0000_0000_0000

  /** A block header: where the header sits, the payload size after it, and
      whether the block is free. */
  datatype Block = Block(addr: nat, size: nat, free: bool)

  /** The first address past a block's payload. */
  function End(b: Block): nat
  {
    b.addr + Header + b.size
  }

  /** The list tiles [start, end): the first block starts at `start`, each
      block's successor starts right after its payload, and the last block
      ends at `end`. */
  predicate Tiles(bs: seq<Block>, start: nat, end: nat)
  {
    && |bs| > 0 && bs[0].addr == start && End(bs[|bs| - 1]) == end
    && forall i :: 0 <= i < |bs| - 1 ==> bs[i + 1].addr == End(bs[i])
  }

  /** The room the blocks take, headers included. */
  function Footprint(bs: seq<Block>): nat
  {
    if bs == [] then 0 else Header + bs[0].size + Footprint(bs[1..])
  }

  /** A tiling accounts for every byte: the sizes plus headers add up to the
      length of the region. */
  lemma {:induction false} TilesFootprint(bs: seq<Block>, start: nat, end: nat)
    requires Tiles(bs, start, end)
    ensures Footprint(bs) == end - start
    decreases |bs|
  {
    if |bs| > 1 {
      assert Tiles(bs[1..], End(bs[0]), end) by {
        forall i | 0 <= i < |bs[1..]| - 1 ensures bs[1..][i + 1].addr == End(bs[1..][i]) {
          assert bs[1..][i] == bs[i + 1];
        }
      }
      TilesFootprint(bs[1..], End(bs[0]), end);
    }
  }

  /** In a tiling, a later block starts at or after the end of an earlier
      one: payloads of distinct blocks never overlap. */
  lemma {:induction false} TilesDisjoint(bs: seq<Block>, start: nat, end: nat, i: nat, j: nat)
    requires Tiles(bs, start, end) && i < j < |bs|
    ensures End(bs[i]) <= bs[j].addr
    decreases j - i
  {
    if j > i + 1 {
      TilesDisjoint(bs, start, end, i, j - 1);
    }
  }

  /** The blocks in use, in list order. */
  function Used(bs: seq<Block>): (u: seq<Block>)
    ensures |u| <= |bs|
  {
    if bs == [] then []
    else (if bs[0].free then [] else [bs[0]]) + Used(bs[1..])
  }

  lemma {:induction false} UsedConcat(a: seq<Block>, b: seq<Block>)
    ensures Used(a + b) == Used(a) + Used(b)
    decreases |a|
  {
    if a == [] {
      assert a + b == b;
    } else {
      assert (a + b)[1..] == a[1..] + b;
      UsedConcat(a[1..], b);
    }
  }

  /** No two neighbours in the list are both free. */
  predicate Coalesced(bs: seq<Block>)
  {
    forall i :: 0 <= i < |bs| - 1 ==> !(bs[i].free && bs[i + 1].free)
  }

  /** A block `malloc` may take for an `n`-byte request. */
  predicate Fits(b: Block, n: nat)
  {
    b.free && b.size >= n
  }

  /** The first block that fits, or -1. */
  function FirstFit(bs: seq<Block>, n: nat): (k: int)
    ensures -1 <= k < |bs|
    ensures k >= 0 ==> Fits(bs[k], n) && forall j :: 0 <= j < k ==> !Fits(bs[j], n)
    ensures k < 0 ==> forall j :: 0 <= j < |bs| ==> !Fits(bs[j], n)
    decreases |bs|
  {
    if bs == [] then -1
    else if Fits(bs[0], n) then 0
    else
      var k := FirstFit(bs[1..], n);
      if k < 0 then -1 else k + 1
  }

  /** The request size `malloc` works with: rounded up to a multiple of 8. */
  function Aligned(size: nat): (n: nat)
    ensures n % 8 == 0 && size <= n < size + 8
  {
    (size + 7) / 8 * 8
  }

  /** The rounding as written, `(size + 7) & ~7` in `size_t`: the sum wraps
      modulo 2^64 before the low three bits are cleared. */
  function AlignedAsWritten(size: nat): (n: nat)
    requires size < SizeLimit
    ensures n % 8 == 0
    ensures size + 7 < SizeLimit ==> n == Aligned(size)
  {
    (size + 7) % SizeLimit / 8 * 8
  }

  /** `& ~7` clears the low three bits, which rounds down to a multiple of 8. */
  lemma ClearLowBits(x: bv64)
    ensures (x & !7) % 8 == 0 && x & !7 <= x && x - (x & !7) < 8
  {
  }

  /** A request for 2^64 - 1 bytes wraps to 0 when rounded, so on a fresh
      heap the first block fits it and `malloc` hands out a block. */
  lemma AsWrittenGrantsHugeRequest()
    ensures AlignedAsWritten(SizeLimit - 1) == 0
    ensures FirstFit([Block(HeapStart, HeapSize - Header, true)], AlignedAsWritten(SizeLimit - 1)) == 0
  {
  }

  /** With the rounding done without wrap-around, no block of a heap fits a
      request larger than the heap. */
  lemma {:induction false} HugeRequestRefused(bs: seq<Block>, size: nat)
    requires Tiles(bs, HeapStart, HeapEnd) && size > HeapSize
    ensures FirstFit(bs, Aligned(size)) < 0
  {
    forall j | 0 <= j < |bs| ensures bs[j].size < HeapSize {
      if j > 0 {
        TilesDisjoint(bs, HeapStart, HeapEnd, 0, j);
      }
      if j < |bs| - 1 {
        TilesDisjoint(bs, HeapStart, HeapEnd, j, |bs| - 1);
      }
    }
  }

  /** The list after `malloc` takes block `k` for an `n`-byte request: a
      block with room for another header beyond `n` is split, keeping
      exactly `n` bytes and linking the rest as a free block right after it;
      otherwise the whole block is taken. */
  function Allocated(bs: seq<Block>, k: nat, n: nat): (r: seq<Block>)
    requires k < |bs|
    ensures |r| == if bs[k].size > n + Header then |bs| + 1 else |bs|
  {
    var b := bs[k];
    if b.size > n + Header then
      bs[..k] + [Block(b.addr, n, false), Block(b.addr + Header + n, b.size - n - Header, true)] + bs[k + 1..]
    else
      bs[k := b.(free := false)]
  }

  /** Taking a fitting block keeps the tiling and gives the caller a used
      block of at least `n` bytes at the same address. */
  lemma AllocatedKeepsTiling(bs: seq<Block>, start: nat, end: nat, k: nat, n: nat)
    requires Tiles(bs, start, end) && k < |bs| && Fits(bs[k], n)
    ensures Tiles(Allocated(bs, k, n), start, end)
    ensures Allocated(bs, k, n)[k].addr == bs[k].addr && !Allocated(bs, k, n)[k].free
    ensures n <= Allocated(bs, k, n)[k].size
  {
    var b := bs[k];
    var r := Allocated(bs, k, n);
    if b.size > n + Header {
      var b1, b2 := Block(b.addr, n, false), Block(b.addr + Header + n, b.size - n - Header, true);
      assert r[k] == b1 && r[k + 1] == b2;
      assert forall i :: 0 <= i < k ==> r[i] == bs[i];
      assert forall i :: k + 1 < i < |r| ==> r[i] == bs[i - 1];
      forall i | 0 <= i < |r| - 1 ensures r[i + 1].addr == End(r[i]) {
        if i > k + 1 {
          assert r[i] == bs[i - 1] && r[i + 1] == bs[i];
        } else if i == k + 1 {
          assert r[i + 1] == bs[k + 1];
        }
      }
      assert r[|r| - 1] == if k == |bs| - 1 then b2 else bs[|bs| - 1];
    }
  }

  /** Taking block `k` leaves every other block in use as it was: the ones
      in use are those before it, the taken block, and those after it. */
  lemma AllocatedKeepsUsed(bs: seq<Block>, k: nat, n: nat)
    requires k < |bs| && bs[k].free
    ensures Used(Allocated(bs, k, n)) == Used(bs[..k]) + [Allocated(bs, k, n)[k]] + Used(bs[k + 1..])
  {
    var b := bs[k];
    var r := Allocated(bs, k, n);
    if b.size > n + Header {
      var b1, b2 := Block(b.addr, n, false), Block(b.addr + Header + n, b.size - n - Header, true);
      assert r == bs[..k] + [b1, b2] + bs[k + 1..];
      UsedConcat(bs[..k] + [b1, b2], bs[k + 1..]);
      UsedConcat(bs[..k], [b1, b2]);
      assert Used([b1, b2]) == [b1] by {
        assert [b1, b2][1..] == [b2];
        assert [b2][1..] == [];
      }
    } else {
      assert r == bs[..k] + [b.(free := false)] + bs[k + 1..];
      UsedConcat(bs[..k] + [b.(free := false)], bs[k + 1..]);
      UsedConcat(bs[..k], [b.(free := false)]);
      assert Used([b.(free := false)]) == [b.(free := false)] by {
        assert [b.(free := false)][1..] == [];
      }
    }
  }

  /** Merging free block `i` with its free successor: one block with both
      payloads and the header in between. */
  function Merged(bs: seq<Block>, i: nat): (r: seq<Block>)
    requires i + 1 < |bs|
    ensures |r| == |bs| - 1
  {
    bs[..i] + [Block(bs[i].addr, bs[i].size + Header + bs[i + 1].size, true)] + bs[i + 2..]
  }

  /** Merging two free neighbours keeps the tiling, every block before
      them, and a free block in their place. */
  lemma MergedKeepsTiling(bs: seq<Block>, start: nat, end: nat, i: nat)
    requires Tiles(bs, start, end) && i + 1 < |bs|
    ensures Tiles(Merged(bs, i), start, end)
    ensures Merged(bs, i)[..i] == bs[..i]
    ensures Merged(bs, i)[i].free
  {
    var m := Block(bs[i].addr, bs[i].size + Header + bs[i + 1].size, true);
    var r := Merged(bs, i);
    assert r[i] == m;
    assert forall j :: 0 <= j < i ==> r[j] == bs[j];
    assert forall j :: i < j < |r| ==> r[j] == bs[j + 1];
    forall j | 0 <= j < |r| - 1 ensures r[j + 1].addr == End(r[j]) {
      if j > i {
        assert r[j] == bs[j + 1] && r[j + 1] == bs[j + 2];
      }
    }
    assert r[|r| - 1] == if i + 2 == |bs| then m else bs[|bs| - 1];
  }

  /** Merging two free neighbours keeps the blocks in use. */
  lemma MergedKeepsUsed(bs: seq<Block>, i: nat)
    requires i + 1 < |bs| && bs[i].free && bs[i + 1].free
    ensures Used(Merged(bs, i)) == Used(bs)
  {
    var m := Block(bs[i].addr, bs[i].size + Header + bs[i + 1].size, true);
    assert Merged(bs, i) == bs[..i] + [m] + bs[i + 2..];
    assert bs == bs[..i] + [bs[i], bs[i + 1]] + bs[i + 2..];
    UsedConcat(bs[..i] + [bs[i], bs[i + 1]], bs[i + 2..]);
    UsedConcat(bs[..i], [bs[i], bs[i + 1]]);
    UsedConcat(bs[..i] + [m], bs[i + 2..]);
    UsedConcat(bs[..i], [m]);
    assert Used([bs[i], bs[i + 1]]) == [] by {
      assert [bs[i], bs[i + 1]][1..] == [bs[i + 1]];
      assert [bs[i + 1]][1..] == [];
    }
    assert Used([m]) == [] by {
      assert [m][1..] == [];
    }
  }

  /** The block whose payload starts at `ptr`, or -1. */
  function BlockOf(bs: seq<Block>, ptr: nat): (k: int)
    ensures -1 <= k < |bs|
    ensures k >= 0 ==> bs[k].addr + Header == ptr && forall j :: 0 <= j < k ==> bs[j].addr + Header != ptr
    ensures k < 0 ==> forall j :: 0 <= j < |bs| ==> bs[j].addr + Header != ptr
    decreases |bs|
  {
    if bs == [] then -1
    else if bs[0].addr + Header == ptr then 0
    else
      var k := BlockOf(bs[1..], ptr);
      if k < 0 then -1 else k + 1
  }

  /** What `malloc` returns is what `free` accepts: after block `k` is
      taken, the block whose payload starts at the returned address is
      block `k`. */
  lemma AllocatedPointerFreeable(bs: seq<Block>, k: nat, n: nat)
    requires Tiles(bs, HeapStart, HeapEnd) && k < |bs| && Fits(bs[k], n)
    ensures BlockOf(Allocated(bs, k, n), bs[k].addr + Header) == k
  {
    var r := Allocated(bs, k, n);
    AllocatedKeepsTiling(bs, HeapStart, HeapEnd, k, n);
    forall j | 0 <= j < k ensures r[j].addr + Header != bs[k].addr + Header {
      TilesDisjoint(r, HeapStart, HeapEnd, j, k);
    }
    assert r[k].addr + Header == bs[k].addr + Header;
  }

  /** The free list and the heap it describes. */
  class Heap {
    /** The blocks, in the order of the `next` links from `free_list`. */
    var blocks: seq<Block>

    ghost predicate Valid()
      reads this
    {
      Tiles(blocks, HeapStart, HeapEnd)
    }

    /** `heap_init`: one free block spanning the heap, with no successor. */
    constructor ()
      ensures Valid()
      ensures blocks == [Block(HeapStart, HeapSize - Header, true)]
    {
      blocks := [Block(HeapStart, HeapSize - Header, true)];
    }

    /** `malloc`: rounds the request up to a multiple of 8 and takes the
        first free block large enough, splitting off the rest when there is
        room for another header; returns the payload address, or 0 (NULL)
        with the list unchanged when no block fits. */
    method Malloc(size: nat) returns (p: nat)
      requires Valid() && size < SizeLimit
      modifies this
      ensures Valid()
      ensures var k := FirstFit(old(blocks), Aligned(size));
        if k < 0 then p == 0 && blocks == old(blocks)
        else p == old(blocks)[k].addr + Header && blocks == Allocated(old(blocks), k, Aligned(size))
    {
      var n := Aligned(size);
      var i := 0;
      while i < |blocks|
        invariant i <= |blocks|
        invariant forall j :: 0 <= j < i ==> !Fits(blocks[j], n)
      {
        if blocks[i].free && blocks[i].size >= n {
          var b := blocks[i];
          AllocatedKeepsTiling(blocks, HeapStart, HeapEnd, i, n);
          if b.size > n + Header {
            blocks := blocks[..i] + [Block(b.addr, n, false), Block(b.addr + Header + n, b.size - n - Header, true)] + blocks[i + 1..];
          } else {
            blocks := blocks[i := b.(free := false)];
          }
          return b.addr + Header;
        }
        i := i + 1;
      }
      return 0;
    }

    /** `free`: NULL is ignored; otherwise the block whose payload is at
        `ptr` becomes free, and then one pass from the head of the list
        merges every free block with the free blocks that follow it. */
    method Free(ptr: nat)
      requires Valid()
      requires ptr == 0 || BlockOf(blocks, ptr) >= 0
      modifies this
      ensures Valid()
      ensures ptr == 0 ==> blocks == old(blocks)
      ensures ptr != 0 ==>
        && Coalesced(blocks)
        && Used(blocks) == Used(old(blocks)[BlockOf(old(blocks), ptr) := old(blocks)[BlockOf(old(blocks), ptr)].(free := true)])
    {
      if ptr == 0 {
        return;
      }
      var k := BlockOf(blocks, ptr);
      blocks := blocks[k := blocks[k].(free := true)];
      ghost var marked := blocks;
      var i := 0;
      while i + 1 < |blocks|
        invariant Valid() && i < |blocks|
        invariant Used(blocks) == Used(marked)
        invariant forall j :: 0 <= j < i ==> !(blocks[j].free && blocks[j + 1].free)
        decreases 2 * |blocks| - i
      {
        if blocks[i].free && blocks[i + 1].free {
          MergedKeepsTiling(blocks, HeapStart, HeapEnd, i);
          MergedKeepsUsed(blocks, i);
          blocks := Merged(blocks, i);
        } else {
          i := i + 1;
        }
      }
    }
  }
}

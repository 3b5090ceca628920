/** How a heap is divided into blocks, as values: what allocation and release do to the
    division, and what they keep. Models the block structure of kernel/mm/malloc.c. */
module HeapLayout {
  import opened PhysicalFrames

  const HEAD_SIZE := 16
  const FOOT_SIZE := 8
  const OVERHEAD := HEAD_SIZE + FOOT_SIZE
  const HEAP_SIZE := 20
  const HEAP_FRAMES := 16
  const HEAP_BLOCK_SIZE_MAX := 0x1000_0000
  const HEAD_MAGIC := 0xBEEF_0001
  const FOOT_MAGIC := 0xBEEF_0002

  /** A block with its header and footer. */
  datatype Block = Block(addr: int, size: int, free: bool)

  /** A heap: its descriptor at `addr`, then its blocks, up to the end of its frames. */
  datatype Heap = Heap(addr: int, frames: int, blocks: seq<Block>)

  function End(b: Block): int { b.addr + b.size }

  function First(h: Heap): int { h.addr + HEAP_SIZE }

  function Limit(h: Heap): int { h.addr + h.frames * FRAME_SIZE }

  // ---------------------------------------------------------------- sizes

  /** The value of a 32-bit unsigned expression. */
  function U32(x: int): int { x % 0x1_0000_0000 }

  /** `ALIGN_UP` in 32 bits: clearing the low bits of a power of two is rounding down. */
  function AlignUp(size: int, align: int): int
    requires align > 0
  {
    U32(size + (align - 1)) - U32(size + (align - 1)) % align
  }

  /** The size of the block for a request, as computed in 32 bits. */
  function RealSize(size: int): int {
    U32(U32(AlignUp(size, 4) + HEAD_SIZE) + FOOT_SIZE)
  }

  /** The frames for a new heap, as computed in 32 bits. */
  function HeapFrames(size: int): int {
    var frames := AlignUp(U32(RealSize(size) + HEAP_SIZE), FRAME_SIZE) / FRAME_SIZE;
    if frames < HEAP_FRAMES then HEAP_FRAMES else frames
  }

  lemma NoWrap(x: int)
    requires 0 <= x < 0x1_0000_0000
    ensures U32(x) == x
  {
  }

  lemma AlignUpExact(size: int, align: int)
    requires 0 <= size < 0x8000_0000 && (align == 4 || align == FRAME_SIZE)
    ensures AlignUp(size, align) % align == 0 && size <= AlignUp(size, align) < size + align
  {
    NoWrap(size + (align - 1));
    hide U32;
    if align == 4 {
      assert AlignUp(size, 4) == (size + 3) - (size + 3) % 4;
    } else {
      assert AlignUp(size, FRAME_SIZE) == (size + 4095) - (size + 4095) % 4096;
    }
  }

  /** The block is aligned, large enough, and not larger than needed; nothing wraps around. */
  lemma RealSizeExact(size: int)
    requires 0 <= size <= HEAP_BLOCK_SIZE_MAX
    ensures RealSize(size) % 4 == 0
    ensures size + OVERHEAD <= RealSize(size) < size + OVERHEAD + 4
    ensures U32(RealSize(size) + OVERHEAD) == RealSize(size) + OVERHEAD
  {
    hide AlignUp, U32;
    AlignUpExact(size, 4);
    var aligned := AlignUp(size, 4);
    NoWrap(aligned + HEAD_SIZE);
    NoWrap(aligned + OVERHEAD);
    NoWrap(aligned + OVERHEAD + OVERHEAD);
  }

  /** A new heap has room for its descriptor and the block it is made for. */
  lemma HeapFramesExact(size: int)
    requires 0 <= size <= HEAP_BLOCK_SIZE_MAX
    ensures HeapFrames(size) >= HEAP_FRAMES
    ensures RealSize(size) + HEAP_SIZE <= HeapFrames(size) * FRAME_SIZE < 0x1_0000_0000
    ensures HeapFrames(size) == HEAP_FRAMES || HeapFrames(size) * FRAME_SIZE < RealSize(size) + HEAP_SIZE + FRAME_SIZE
  {
    hide AlignUp, RealSize, U32;
    RealSizeExact(size);
    NoWrap(RealSize(size) + HEAP_SIZE);
    AlignUpExact(RealSize(size) + HEAP_SIZE, FRAME_SIZE);
  }

  // ---------------------------------------------------------------- tiling

  /** The blocks fill the range from `from` to `to` without a gap or an overlap. */
  ghost predicate Tiles(bs: seq<Block>, from: int, to: int) {
    if bs == [] then from == to else
      && bs[0].addr == from && bs[0].size >= OVERHEAD && bs[0].size % 4 == 0
      && Tiles(bs[1..], End(bs[0]), to)
  }

  lemma {:induction false} TilesJoin(a: seq<Block>, b: seq<Block>, from: int, mid: int, to: int)
    requires Tiles(a, from, mid) && Tiles(b, mid, to)
    ensures Tiles(a + b, from, to)
  {
    if a == [] {
      assert a + b == b;
    } else {
      TilesJoin(a[1..], b, End(a[0]), mid, to);
      assert (a + b)[1..] == a[1..] + b;
    }
  }

  lemma {:induction false} TilesCut(bs: seq<Block>, from: int, to: int, k: nat) returns (mid: int)
    requires Tiles(bs, from, to) && k <= |bs|
    ensures Tiles(bs[..k], from, mid) && Tiles(bs[k..], mid, to) && from <= mid <= to
    ensures k < |bs| ==> mid == bs[k].addr && bs[k].size >= OVERHEAD && bs[k].size % 4 == 0 && End(bs[k]) <= to
    ensures k == |bs| ==> mid == to
    ensures mid % 4 == from % 4
  {
    if k == 0 {
      mid := from;
      assert bs[0..] == bs;
      TilesLength(bs, from, to);
    } else {
      mid := TilesCut(bs[1..], End(bs[0]), to, k - 1);
      assert bs[..k][1..] == bs[1..][..k - 1];
      assert bs[k..] == bs[1..][k - 1..];
    }
  }

  lemma {:induction false} TilesLength(bs: seq<Block>, from: int, to: int)
    requires Tiles(bs, from, to)
    ensures from + OVERHEAD * |bs| <= to
    ensures bs != [] ==> End(bs[0]) <= to
  {
    if bs != [] {
      TilesLength(bs[1..], End(bs[0]), to);
    }
  }

  /** Blocks of one heap are inside it, aligned, and one after another. */
  lemma {:induction false} TilesApart(bs: seq<Block>, from: int, to: int)
    requires Tiles(bs, from, to)
    ensures forall i :: 0 <= i < |bs| ==> from <= bs[i].addr && bs[i].size >= OVERHEAD && End(bs[i]) <= to
    ensures forall i :: 0 <= i < |bs| ==> bs[i].addr % 4 == from % 4 && bs[i].size % 4 == 0
    ensures forall i, j :: 0 <= i < j < |bs| ==> End(bs[i]) <= bs[j].addr
  {
    if bs != [] {
      TilesApart(bs[1..], End(bs[0]), to);
      TilesLength(bs[1..], End(bs[0]), to);
      assert forall i :: 0 < i < |bs| ==> bs[i] == bs[1..][i - 1];
    }
  }

  // ---------------------------------------------------------------- allocation and release

  /** No two free blocks are neighbours. */
  ghost predicate Merged(bs: seq<Block>) {
    forall i :: 0 <= i < |bs| - 1 ==> !(bs[i].free && bs[i + 1].free)
  }

  /** The heap is one free block. */
  ghost predicate AllFree(bs: seq<Block>) {
    |bs| == 1 && bs[0].free
  }

  /** A free block taken for a block of `need` bytes: the rest is split off if it is large enough. */
  ghost function Taken(b: Block, need: int): (bs: seq<Block>)
    ensures bs != []
  {
    if b.size > need + OVERHEAD
    then [Block(b.addr, need, false), Block(b.addr + need, b.size - need, true)]
    else [b.(free := false)]
  }

  /** The block that is taken is exactly as large as needed if another block fits behind it,
      which is free then; otherwise it is the whole free block. */
  lemma TakenExact(c: Block, need: int)
    requires need >= OVERHEAD
    ensures
      var b := Taken(c, need)[0];
      && b.addr == c.addr && !b.free
      && b.size == (if c.size > need + OVERHEAD then need else c.size)
      && Taken(c, need)[1..] == (if c.size > need + OVERHEAD then [Block(End(b), c.size - need, true)] else [])
      && (c.size >= need ==> b.size <= need + OVERHEAD)
  {
  }

  ghost function Take(bs: seq<Block>, k: nat, need: int): seq<Block>
    requires k < |bs|
  {
    bs[..k] + Taken(bs[k], need) + bs[k + 1..]
  }

  /** Two neighbours made one free block. */
  ghost function Merge(bs: seq<Block>, k: nat): seq<Block>
    requires k + 1 < |bs|
  {
    bs[..k] + [Block(bs[k].addr, bs[k].size + bs[k + 1].size, true)] + bs[k + 2..]
  }

  ghost function Freed(bs: seq<Block>, k: nat): seq<Block>
    requires k < |bs|
  {
    bs[..k] + [bs[k].(free := true)] + bs[k + 1..]
  }

  ghost function MergedNext(bs: seq<Block>, k: nat): seq<Block>
    requires k < |bs|
  {
    if k + 1 < |bs| && bs[k + 1].free then Merge(bs, k) else bs
  }

  ghost function MergedPrev(bs: seq<Block>, k: nat): seq<Block>
    requires k < |bs|
  {
    if 0 < k && bs[k - 1].free then Merge(bs, k - 1) else bs
  }

  /** The blocks after block `k` is released. */
  ghost function Release(bs: seq<Block>, k: nat): seq<Block>
    requires k < |bs|
  {
    MergedPrev(MergedNext(Freed(bs, k), k), k)
  }

  lemma TakenTiles(b: Block, need: int)
    requires b.size % 4 == 0 && need % 4 == 0 && OVERHEAD <= need <= b.size
    ensures Tiles(Taken(b, need), b.addr, End(b))
  {
    TilesPair(Taken(b, need), b.addr, End(b));
  }

  lemma TakeTiles(bs: seq<Block>, k: nat, need: int, from: int, to: int)
    requires Tiles(bs, from, to) && k < |bs| && need >= OVERHEAD && need % 4 == 0 && need <= bs[k].size
    ensures Tiles(Take(bs, k, need), from, to)
  {
    var mid := TilesCut(bs, from, to, k);
    var b := bs[k];
    assert bs[k..][1..] == bs[k + 1..];
    var new_ := Taken(b, need);
    TakenTiles(b, need);
    TilesJoin(bs[..k], new_, from, mid, End(b));
    TilesJoin(bs[..k] + new_, bs[k + 1..], from, End(b), to);
  }

  lemma TilesPair(bs: seq<Block>, from: int, to: int)
    requires |bs| == 1 || |bs| == 2
    requires bs[0].addr == from && forall i :: 0 <= i < |bs| ==> bs[i].size >= OVERHEAD && bs[i].size % 4 == 0
    requires if |bs| == 1 then End(bs[0]) == to else End(bs[0]) == bs[1].addr && End(bs[1]) == to
    ensures Tiles(bs, from, to)
  {
    assert bs[1..] == if |bs| == 1 then [] else [bs[1]];
    assert Tiles(bs[1..], End(bs[0]), to);
  }

  lemma MergeTiles(bs: seq<Block>, k: nat, from: int, to: int)
    requires Tiles(bs, from, to) && k + 1 < |bs|
    ensures Tiles(Merge(bs, k), from, to)
  {
    var mid := TilesCut(bs, from, to, k);
    var next := TilesCut(bs, from, to, k + 1);
    assert bs[k..][1..] == bs[k + 1..] && bs[k + 1..][1..] == bs[k + 2..];
    var b := Block(bs[k].addr, bs[k].size + bs[k + 1].size, true);
    TilesPair([b], mid, End(b));
    TilesJoin(bs[..k], [b], from, mid, End(b));
    TilesJoin(bs[..k] + [b], bs[k + 2..], from, End(b), to);
  }

  lemma FreedTiles(bs: seq<Block>, k: nat, from: int, to: int)
    requires Tiles(bs, from, to) && k < |bs|
    ensures Tiles(Freed(bs, k), from, to)
  {
    var mid := TilesCut(bs, from, to, k);
    assert bs[k..][1..] == bs[k + 1..];
    var b := bs[k].(free := true);
    TilesPair([b], mid, End(b));
    TilesJoin(bs[..k], [b], from, mid, End(b));
    TilesJoin(bs[..k] + [b], bs[k + 1..], from, End(b), to);
  }

  /** Taking a free block leaves no two free neighbours. */
  lemma TakeMerged(bs: seq<Block>, k: nat, need: int)
    requires Merged(bs) && k < |bs| && bs[k].free
    ensures Merged(Take(bs, k, need)) && !AllFree(Take(bs, k, need))
  {
    var t := Take(bs, k, need);
    assert !t[k].free;
  }

  /** Neighbours `i` and `i + 1` are not both free. */
  ghost predicate ApartAt(bs: seq<Block>, i: int) {
    0 <= i < |bs| - 1 ==> !(bs[i].free && bs[i + 1].free)
  }

  lemma MergedNextKeeps(bs: seq<Block>, k: nat)
    requires k < |bs| && bs[k].free && forall i :: i != k && i != k - 1 ==> ApartAt(bs, i)
    ensures
      var g := MergedNext(bs, k);
      k < |g| && g[k].free && forall i :: i != k - 1 ==> ApartAt(g, i)
  {
    var g := MergedNext(bs, k);
    forall i | i != k - 1
      ensures ApartAt(g, i)
    {
      assert ApartAt(bs, if i >= k && |g| < |bs| then i + 1 else i) || i == k;
    }
  }

  lemma MergedPrevKeeps(bs: seq<Block>, k: nat)
    requires k < |bs| && bs[k].free && forall i :: i != k - 1 ==> ApartAt(bs, i)
    ensures Merged(MergedPrev(bs, k)) && MergedPrev(bs, k) != []
  {
    var g := MergedPrev(bs, k);
    forall i | 0 <= i < |g| - 1
      ensures !(g[i].free && g[i + 1].free)
    {
      assert ApartAt(bs, if i >= k - 1 && |g| < |bs| then i + 1 else i) || i == k - 1;
      assert k > 1 ==> ApartAt(bs, k - 2);
    }
  }

  /** Releasing a block merges it with its free neighbours, and no others. */
  lemma ReleaseMerged(bs: seq<Block>, k: nat)
    requires Merged(bs) && k < |bs| && !bs[k].free
    ensures Merged(Release(bs, k)) && Release(bs, k) != []
  {
    var f := Freed(bs, k);
    forall i | i != k && i != k - 1
      ensures ApartAt(f, i)
    {
      assert ApartAt(bs, i);
    }
    MergedNextKeeps(f, k);
    MergedPrevKeeps(MergedNext(f, k), k);
  }

  // ---------------------------------------------------------------- occupied blocks

  ghost function Used(bs: seq<Block>): set<Block> {
    set b | b in bs && !b.free
  }

  /** The blocks that clients hold. */
  ghost function Held(layout: seq<Heap>): set<Block> {
    set h, b | h in layout && b in h.blocks && !b.free :: b
  }

  lemma UsedJoin(a: seq<Block>, b: seq<Block>, c: seq<Block>)
    ensures Used(a + b + c) == Used(a) + Used(b) + Used(c)
  {
  }

  lemma TakeUsed(bs: seq<Block>, k: nat, need: int, from: int, to: int)
    requires Tiles(bs, from, to) && k < |bs| && bs[k].free && need > 0
    ensures Used(Take(bs, k, need)) == Used(bs) + {Taken(bs[k], need)[0]} && Taken(bs[k], need)[0] !in Used(bs)
  {
    hide Tiles;
    TilesApart(bs, from, to);
    var new_ := Taken(bs[k], need);
    assert new_[0].addr == bs[k].addr;
    assert Used([bs[k]]) == {};
    assert Used(new_) == {new_[0]};
    assert new_[0] !in Used(bs);
    hide Used, Taken;
    assert bs == bs[..k] + [bs[k]] + bs[k + 1..];
    UsedJoin(bs[..k], [bs[k]], bs[k + 1..]);
    UsedJoin(bs[..k], new_, bs[k + 1..]);
  }

  lemma ReleaseUsed(bs: seq<Block>, k: nat, from: int, to: int)
    requires Tiles(bs, from, to) && k < |bs| && !bs[k].free
    ensures Used(Release(bs, k)) == Used(bs) - {bs[k]}
  {
    var f := Freed(bs, k);
    FreedUsed(bs, k, from, to);
    var g := MergedNext(f, k);
    if g != f {
      MergeUsed(f, k);
    }
    if 0 < k && g[k - 1].free {
      MergeUsed(g, k - 1);
    }
  }

  lemma FreedUsed(bs: seq<Block>, k: nat, from: int, to: int)
    requires Tiles(bs, from, to) && k < |bs| && !bs[k].free
    ensures Used(Freed(bs, k)) == Used(bs) - {bs[k]}
  {
    TilesApart(bs, from, to);
    assert bs == bs[..k] + [bs[k]] + bs[k + 1..];
    UsedJoin(bs[..k], [bs[k]], bs[k + 1..]);
    UsedJoin(bs[..k], [bs[k].(free := true)], bs[k + 1..]);
    assert Used([bs[k]]) == {bs[k]} && Used([bs[k].(free := true)]) == {};
    assert bs[k] !in Used(bs[..k]) && bs[k] !in Used(bs[k + 1..]);
  }

  lemma MergeUsed(bs: seq<Block>, k: nat)
    requires k + 1 < |bs| && bs[k].free && bs[k + 1].free
    ensures Used(Merge(bs, k)) == Used(bs)
  {
    assert bs == bs[..k] + [bs[k], bs[k + 1]] + bs[k + 2..];
  }

  // ---------------------------------------------------------------- blocks in memory

  /** The header and the footer of block `b` of the heap at `heap` are in memory. */
  ghost predicate BlockAt(m: seq<int>, b: Block, heap: int) {
    && 0 <= b.addr && b.size >= OVERHEAD && End(b) <= |m|
    && m[b.addr] == b.size && m[b.addr + 4] == (if b.free then 1 else 0)
    && m[b.addr + 8] == heap && m[b.addr + 12] == HEAD_MAGIC
    && m[End(b) - FOOT_SIZE] == FOOT_MAGIC && m[End(b) - 4] == b.size
  }

  ghost predicate BlocksAt(m: seq<int>, bs: seq<Block>, heap: int) {
    forall i :: 0 <= i < |bs| ==> BlockAt(m, bs[i], heap)
  }

  /** The descriptor of a heap is in memory, and its frames are divided into blocks. */
  ghost predicate HeapAt(m: seq<int>, h: Heap) {
    && 0 <= h.addr && h.addr % 4 == 0 && 0 < h.frames && Limit(h) <= |m|
    && m[h.addr + 8] == First(h) && m[h.addr + 12] == Limit(h) && m[h.addr + 16] == h.frames
    && Tiles(h.blocks, First(h), Limit(h)) && BlocksAt(m, h.blocks, h.addr)
  }

  ghost predicate Same(m: seq<int>, m': seq<int>, lo: int, hi: int) {
    |m| == |m'| && forall i :: 0 <= i < |m| && lo <= i < hi ==> m[i] == m'[i]
  }

  ghost predicate SameOutside(m: seq<int>, m': seq<int>, lo: int, hi: int) {
    |m| == |m'| && forall i :: 0 <= i < |m| && !(lo <= i < hi) ==> m[i] == m'[i]
  }

  /** The block after block `k` begins where block `k` ends. */
  lemma NextBlock(m: seq<int>, h: Heap, k: nat)
    requires HeapAt(m, h) && k < |h.blocks|
    ensures BlockAt(m, h.blocks[k], h.addr) && First(h) <= h.blocks[k].addr && End(h.blocks[k]) <= Limit(h)
    ensures End(h.blocks[k]) == if k + 1 < |h.blocks| then h.blocks[k + 1].addr else Limit(h)
  {
    TilesApart(h.blocks, First(h), Limit(h));
    var mid := TilesCut(h.blocks, First(h), Limit(h), k);
    var next := TilesCut(h.blocks, First(h), Limit(h), k + 1);
    assert h.blocks[k..][0] == h.blocks[k] && h.blocks[k..][1..] == h.blocks[k + 1..];
    TilesStart(h.blocks[k + 1..], End(h.blocks[k]), next, Limit(h));
  }

  /** The words that `block_check` reads are in memory. */
  predicate Readable(m: seq<int>, addr: int) {
    && 0 <= addr && addr + HEAD_SIZE <= |m|
    && 0 <= m[addr + 8] && m[addr + 8] + 16 <= |m|
    && 0 <= addr + m[addr] - FOOT_SIZE && addr + m[addr] <= |m|
  }

  /** The assertions of `block_check`: the block is in its heap, header and footer are intact and agree. */
  predicate Intact(m: seq<int>, addr: int)
    requires Readable(m, addr)
  {
    var heap, foot := m[addr + 8], addr + m[addr] - FOOT_SIZE;
    && m[heap + 8] <= addr < m[heap + 12]
    && m[addr + 12] == HEAD_MAGIC && m[foot] == FOOT_MAGIC && m[addr] == m[foot + 4]
  }

  /** All of them hold of every block of every heap. */
  lemma BlocksAreIntact(m: seq<int>, h: Heap, k: nat)
    requires HeapAt(m, h) && k < |h.blocks|
    ensures Readable(m, h.blocks[k].addr) && Intact(m, h.blocks[k].addr)
  {
    hide Tiles, BlocksAt;
    NextBlock(m, h, k);
  }

  lemma TilesStart(bs: seq<Block>, from: int, from': int, to: int)
    requires Tiles(bs, from, to) && Tiles(bs, from', to)
    ensures from == from'
  {
  }

  lemma FirstBlock(m: seq<int>, h: Heap)
    requires HeapAt(m, h)
    ensures h.blocks != [] ==> h.blocks[0].addr == First(h)
    ensures h.blocks == [] ==> First(h) == Limit(h)
  {
  }

  lemma HeapKept(m: seq<int>, m': seq<int>, h: Heap)
    requires HeapAt(m, h) && Same(m, m', h.addr, Limit(h))
    ensures HeapAt(m', h)
  {
    TilesApart(h.blocks, First(h), Limit(h));
    TilesLength(h.blocks, First(h), Limit(h));
    forall i | 0 <= i < |h.blocks|
      ensures BlockAt(m', h.blocks[i], h.addr)
    {
      assert BlockAt(m, h.blocks[i], h.addr);
    }
  }

  lemma BlockKept(m: seq<int>, m': seq<int>, b: Block, heap: int, lo: int, hi: int)
    requires BlockAt(m, b, heap) && SameOutside(m, m', lo, hi) && (End(b) <= lo || hi <= b.addr)
    ensures BlockAt(m', b, heap)
  {
  }

  /** Blocks `k` to `k + n - 1` of a heap give way to `new_`, with no change elsewhere. */
  lemma HeapChanged(m: seq<int>, m': seq<int>, h: Heap, k: nat, n: nat, new_: seq<Block>)
    requires HeapAt(m, h) && 0 < n && k + n <= |h.blocks|
    requires SameOutside(m, m', h.blocks[k].addr, End(h.blocks[k + n - 1])) && BlocksAt(m', new_, h.addr)
    requires Tiles(h.blocks[..k] + new_ + h.blocks[k + n..], First(h), Limit(h))
    ensures HeapAt(m', h.(blocks := h.blocks[..k] + new_ + h.blocks[k + n..]))
  {
    var bs := h.blocks;
    TilesApart(bs, First(h), Limit(h));
    var t := bs[..k] + new_ + bs[k + n..];
    var lo, hi := bs[k].addr, End(bs[k + n - 1]);
    forall i | 0 <= i < |t|
      ensures BlockAt(m', t[i], h.addr)
    {
      if i < k {
        BlockKept(m, m', bs[i], h.addr, lo, hi);
      } else if i < k + |new_| {
        assert t[i] == new_[i - k];
      } else {
        BlockKept(m, m', bs[i - |new_| + n], h.addr, lo, hi);
      }
    }
  }

  // ---------------------------------------------------------------- all heaps

  /** Every heap is in memory, owns its frames, is merged, and is not one free block. */
  ghost predicate LayoutAt(m: seq<int>, layout: seq<Heap>, live: map<int, int>) {
    && (forall i :: 0 <= i < |layout| ==>
         && HeapAt(m, layout[i]) && Merged(layout[i].blocks) && !AllFree(layout[i].blocks)
         && layout[i].addr in live && live[layout[i].addr] == layout[i].frames)
    && (forall i, j :: 0 <= i < j < |layout| ==> layout[i].addr != layout[j].addr)
  }

  lemma HeapsApart(m: seq<int>, layout: seq<Heap>, live: map<int, int>, i: nat, j: nat)
    requires LayoutAt(m, layout, live) && LiveApart(live) && i < |layout| && j < |layout| && i != j
    ensures Limit(layout[i]) <= layout[j].addr || Limit(layout[j]) <= layout[i].addr
  {
    assert layout[i].addr != layout[j].addr;
  }

  /** One heap changes, inside its frames. */
  lemma LayoutChanged(m: seq<int>, m': seq<int>, layout: seq<Heap>, live: map<int, int>, i: nat, h: Heap)
    requires LayoutAt(m, layout, live) && LiveApart(live) && i < |layout|
    requires h.addr == layout[i].addr && h.frames == layout[i].frames
    requires HeapAt(m', h) && Merged(h.blocks) && !AllFree(h.blocks)
    requires SameOutside(m, m', h.addr, Limit(h))
    ensures LayoutAt(m', layout[i := h], live)
  {
    var layout' := layout[i := h];
    forall j | 0 <= j < |layout'|
      ensures HeapAt(m', layout'[j])
    {
      if j != i {
        HeapsApart(m, layout, live, i, j);
        HeapKept(m, m', layout[j]);
      }
    }
  }

  /** One heap goes away, with its frames. */
  lemma LayoutRemoved(m: seq<int>, m': seq<int>, layout: seq<Heap>, live: map<int, int>, i: nat)
    requires LayoutAt(m, layout, live) && LiveApart(live) && i < |layout|
    requires SameOutside(m, m', layout[i].addr, Limit(layout[i]))
    ensures LayoutAt(m', layout[..i] + layout[i + 1..], live - {layout[i].addr})
  {
    var layout' := layout[..i] + layout[i + 1..];
    forall j | 0 <= j < |layout'|
      ensures HeapAt(m', layout'[j]) && layout'[j].addr != layout[i].addr
    {
      var j' := if j < i then j else j + 1;
      assert layout'[j] == layout[j'];
      HeapsApart(m, layout, live, i, j');
      HeapKept(m, m', layout[j']);
    }
  }

  /** A heap is added, in frames that nobody had. */
  lemma LayoutAdded(m: seq<int>, m': seq<int>, layout: seq<Heap>, live: map<int, int>, h: Heap)
    requires LayoutAt(m, layout, live) && h.addr !in live && LiveApart(live[h.addr := h.frames])
    requires HeapAt(m', h) && Merged(h.blocks) && !AllFree(h.blocks)
    requires SameOutside(m, m', h.addr, Limit(h))
    ensures LayoutAt(m', layout + [h], live[h.addr := h.frames])
  {
    var live' := live[h.addr := h.frames];
    forall j | 0 <= j < |layout|
      ensures HeapAt(m', layout[j]) && layout[j].addr != h.addr
    {
      assert layout[j].addr in live' && h.addr in live';
      HeapKept(m, m', layout[j]);
    }
  }

  // ---------------------------------------------------------------- what clients see

  /** The bytes of every held block are the same. */
  ghost predicate Undisturbed(m: seq<int>, m': seq<int>, held: set<Block>) {
    forall b :: b in held ==> Same(m, m', b.addr, End(b))
  }

  /** Blocks that clients hold do not overlap. */
  lemma HeldApart(m: seq<int>, layout: seq<Heap>, live: map<int, int>, b: Block, c: Block)
    requires LayoutAt(m, layout, live) && LiveApart(live)
    requires b in Held(layout) && c in Held(layout) && b != c
    ensures End(b) <= c.addr || End(c) <= b.addr
  {
    var i, k := FindHeld(m, layout, live, b);
    var j, l := FindHeld(m, layout, live, c);
    assert HeapAt(m, layout[i]);
    TilesApart(layout[i].blocks, First(layout[i]), Limit(layout[i]));
    if i != j {
      HeapsApart(m, layout, live, i, j);
    }
  }

  /** There is a heap exactly when clients hold something. */
  lemma HeapsAreHeld(m: seq<int>, layout: seq<Heap>, live: map<int, int>)
    requires LayoutAt(m, layout, live)
    ensures layout == [] <==> Held(layout) == {}
  {
    if layout != [] {
      var h := layout[0];
      assert HeapAt(m, h) && h.blocks != [];
      var k := if h.blocks[0].free then 1 else 0;
      assert h.blocks[k] in Held(layout);
    }
  }

  lemma HeldSplit(layout: seq<Heap>, i: nat, h: Heap)
    requires i < |layout|
    ensures Held(layout[i := h]) == Held(layout[..i]) + Used(h.blocks) + Held(layout[i + 1..])
  {
    var layout' := layout[i := h];
    assert layout' == layout[..i] + [h] + layout[i + 1..];
    assert forall g :: g in layout' <==> g in layout[..i] || g == h || g in layout[i + 1..];
  }

  lemma HeldJoin(a: seq<Heap>, b: seq<Heap>)
    ensures Held(a + b) == Held(a) + Held(b)
  {
    assert forall g :: g in a + b <==> g in a || g in b;
  }

  /** A held block is block `l` of heap `j`, and lies inside that heap. */
  lemma FindHeld(m: seq<int>, layout: seq<Heap>, live: map<int, int>, c: Block) returns (j: nat, l: nat)
    requires LayoutAt(m, layout, live) && c in Held(layout)
    ensures j < |layout| && l < |layout[j].blocks| && layout[j].blocks[l] == c && !c.free
    ensures First(layout[j]) <= c.addr && c.size >= OVERHEAD && End(c) <= Limit(layout[j])
  {
    j, l :| 0 <= j < |layout| && 0 <= l < |layout[j].blocks| && layout[j].blocks[l] == c && !c.free;
    assert HeapAt(m, layout[j]);
    TilesApart(layout[j].blocks, First(layout[j]), Limit(layout[j]));
  }

  /** A block of one heap is in no other heap. */
  lemma HeldElsewhere(m: seq<int>, layout: seq<Heap>, live: map<int, int>, i: nat, k: nat)
    requires LayoutAt(m, layout, live) && LiveApart(live) && i < |layout| && k < |layout[i].blocks|
    ensures layout[i].blocks[k] !in Held(layout[..i]) && layout[i].blocks[k] !in Held(layout[i + 1..])
  {
    var b := layout[i].blocks[k];
    assert HeapAt(m, layout[i]);
    TilesApart(layout[i].blocks, First(layout[i]), Limit(layout[i]));
    forall j | 0 <= j < |layout| && j != i
      ensures b !in layout[j].blocks
    {
      HeapsApart(m, layout, live, i, j);
      assert HeapAt(m, layout[j]);
      TilesApart(layout[j].blocks, First(layout[j]), Limit(layout[j]));
    }
  }

  /** What clients hold after an allocation from a free block. */
  lemma TakeHeld(m: seq<int>, layout: seq<Heap>, live: map<int, int>, i: nat, k: nat, need: int)
    requires LayoutAt(m, layout, live) && LiveApart(live) && i < |layout| && k < |layout[i].blocks|
    requires layout[i].blocks[k].free && OVERHEAD <= need <= layout[i].blocks[k].size
    ensures
      var h, b := layout[i], Taken(layout[i].blocks[k], need)[0];
      && Held(layout[i := h.(blocks := Take(h.blocks, k, need))]) == Held(layout) + {b} && b !in Held(layout)
  {
    hide Held, Used, Take, Tiles, BlocksAt;
    var h := layout[i];
    assert HeapAt(m, h);
    TakeUsed(h.blocks, k, need, First(h), Limit(h));
    HeldSplit(layout, i, h.(blocks := Take(h.blocks, k, need)));
    HeldSplit(layout, i, h);
    assert layout[i := h] == layout;
    ApartFromHeld(m, layout, live, i, k);
    assert Taken(h.blocks[k], need)[0].addr == h.blocks[k].addr;
  }

  lemma TakeSeen(m: seq<int>, m': seq<int>, layout: seq<Heap>, live: map<int, int>, i: nat, k: nat, need: int)
    requires LayoutAt(m, layout, live) && LiveApart(live) && i < |layout| && k < |layout[i].blocks|
    requires layout[i].blocks[k].free && OVERHEAD <= need <= layout[i].blocks[k].size
    requires SameOutside(m, m', layout[i].blocks[k].addr, End(layout[i].blocks[k]))
    ensures Undisturbed(m, m', Held(layout))
    ensures SameOutside(m, m', layout[i].addr, Limit(layout[i]))
    ensures layout[i].blocks[k].addr % 4 == 0 && 0 < layout[i].blocks[k].addr
  {
    var h := layout[i];
    assert HeapAt(m, h);
    TilesApart(h.blocks, First(h), Limit(h));
    ApartFromHeld(m, layout, live, i, k);
  }

  /** What clients hold after a release: everything but the released block. */
  lemma ReleaseHeld(m: seq<int>, layout: seq<Heap>, live: map<int, int>, i: nat, k: nat)
    requires LayoutAt(m, layout, live) && LiveApart(live) && i < |layout| && k < |layout[i].blocks|
    requires !layout[i].blocks[k].free
    ensures Held(layout[i := layout[i].(blocks := Release(layout[i].blocks, k))])
         == Held(layout) - {layout[i].blocks[k]}
  {
    hide Held, Used, Release, Tiles, BlocksAt;
    var h := layout[i];
    assert HeapAt(m, h);
    ReleaseUsed(h.blocks, k, First(h), Limit(h));
    HeldSplit(layout, i, h.(blocks := Release(h.blocks, k)));
    HeldSplit(layout, i, h);
    assert layout[i := h] == layout;
    HeldElsewhere(m, layout, live, i, k);
  }

  lemma DropUnheld(layout: seq<Heap>, i: nat, h: Heap)
    requires i < |layout| && AllFree(h.blocks)
    ensures Held(layout[..i] + layout[i + 1..]) == Held(layout[i := h])
  {
    HeldSplit(layout, i, h);
    HeldJoin(layout[..i], layout[i + 1..]);
    assert Used(h.blocks) == {};
  }

  /** The range in which a release writes. */
  ghost function ReleaseFrom(bs: seq<Block>, k: nat): int
    requires k < |bs|
  {
    if 0 < k && bs[k - 1].free then bs[k - 1].addr else bs[k].addr
  }

  ghost function ReleaseTo(bs: seq<Block>, k: nat): int
    requires k < |bs|
  {
    if k + 1 < |bs| && bs[k + 1].free then End(bs[k + 1]) else End(bs[k])
  }

  /** The steps of a release write in that range. */
  lemma ReleaseRange(bs: seq<Block>, k: nat, from: int, to: int)
    requires Tiles(bs, from, to) && k < |bs|
    ensures
      var f := Freed(bs, k);
      var g := MergedNext(f, k);
      && k < |g| && g[k].addr == bs[k].addr && ReleaseTo(f, k) == ReleaseTo(bs, k)
      && ReleaseFrom(g, k) == ReleaseFrom(bs, k) && End(g[k]) == ReleaseTo(bs, k)
      && from <= ReleaseFrom(bs, k) <= bs[k].addr && End(bs[k]) <= ReleaseTo(bs, k) <= to
  {
    TilesApart(bs, from, to);
    if k + 1 < |bs| {
      TilesNext(bs, from, to, k);
    }
  }

  lemma {:induction false} TilesNext(bs: seq<Block>, from: int, to: int, k: nat)
    requires Tiles(bs, from, to) && k + 1 < |bs|
    ensures End(bs[k]) == bs[k + 1].addr
  {
    if k > 0 {
      TilesNext(bs[1..], End(bs[0]), to, k - 1);
    }
  }

  /** The released block and its free neighbours are one free block; all others stay. The heap
      is one free block exactly when all others have been free. */
  lemma ReleaseExact(bs: seq<Block>, k: nat, from: int, to: int)
    requires Tiles(bs, from, to) && Merged(bs) && k < |bs| && !bs[k].free
    ensures
      var prev, next := k > 0 && bs[k - 1].free, k + 1 < |bs| && bs[k + 1].free;
      var lo, hi := if prev then k - 1 else k, if next then k + 1 else k;
      Release(bs, k) == bs[..lo] + [Block(bs[lo].addr, End(bs[hi]) - bs[lo].addr, true)] + bs[hi + 1..]
    ensures AllFree(Release(bs, k)) <==> forall l :: 0 <= l < |bs| && l != k ==> bs[l].free
  {
    hide Tiles, Merged, AllFree, Release;
    if k > 0 {
      TilesNext(bs, from, to, k - 1);
    }
    if k + 1 < |bs| {
      TilesNext(bs, from, to, k);
    }
    ReleaseParts(bs, k);
    ReleaseEmpties(bs, k);
  }

  lemma ReleaseEmpties(bs: seq<Block>, k: nat)
    requires Merged(bs) && k < |bs| && !bs[k].free
    ensures AllFree(Release(bs, k)) <==> forall l :: 0 <= l < |bs| && l != k ==> bs[l].free
  {
    ReleaseParts(bs, k);
    hide Release;
    if forall l :: 0 <= l < |bs| && l != k ==> bs[l].free {
      var first, last := bs[if k < 2 then 0 else k - 2], bs[if k + 2 < |bs| then k + 2 else k];
      assert k < 2 && |bs| <= k + 2;
    }
  }

  lemma ReleaseParts(bs: seq<Block>, k: nat)
    requires k < |bs|
    ensures
      var prev, next := k > 0 && bs[k - 1].free, k + 1 < |bs| && bs[k + 1].free;
      var size := (if prev then bs[k - 1].size else 0) + bs[k].size + (if next then bs[k + 1].size else 0);
      Release(bs, k) == bs[..if prev then k - 1 else k]
        + [Block(if prev then bs[k - 1].addr else bs[k].addr, size, true)] + bs[if next then k + 2 else k + 1..]
  {
    var next := k + 1 < |bs| && bs[k + 1].free;
    var f := Freed(bs, k);
    var g := MergedNext(f, k);
    var size := bs[k].size + if next then bs[k + 1].size else 0;
    assert g == bs[..k] + [Block(bs[k].addr, size, true)] + bs[if next then k + 2 else k + 1..];
    assert k > 0 ==> g[..k - 1] == bs[..k - 1];
  }

  lemma ReleaseSeen(m: seq<int>, m': seq<int>, layout: seq<Heap>, live: map<int, int>, i: nat, k: nat)
    requires LayoutAt(m, layout, live) && LiveApart(live) && i < |layout| && k < |layout[i].blocks|
    requires SameOutside(m, m', ReleaseFrom(layout[i].blocks, k), ReleaseTo(layout[i].blocks, k))
    ensures Undisturbed(m, m', Held(layout) - {layout[i].blocks[k]})
    ensures SameOutside(m, m', layout[i].addr, Limit(layout[i]))
  {
    var bs := layout[i].blocks;
    assert HeapAt(m, layout[i]);
    ReleaseRange(bs, k, First(layout[i]), Limit(layout[i]));
    forall c | c in Held(layout) && c != bs[k]
      ensures End(c) <= ReleaseFrom(bs, k) || ReleaseTo(bs, k) <= c.addr
    {
      ReleaseApart(m, layout, live, i, k, c);
    }
  }

  lemma ReleaseApart(m: seq<int>, layout: seq<Heap>, live: map<int, int>, i: nat, k: nat, c: Block)
    requires LayoutAt(m, layout, live) && LiveApart(live) && i < |layout| && k < |layout[i].blocks|
    requires c in Held(layout) && c != layout[i].blocks[k]
    ensures End(c) <= ReleaseFrom(layout[i].blocks, k) || ReleaseTo(layout[i].blocks, k) <= c.addr
  {
    var bs := layout[i].blocks;
    var from, to := First(layout[i]), Limit(layout[i]);
    assert HeapAt(m, layout[i]) && Tiles(bs, from, to);
    ReleaseRange(bs, k, from, to);
    var j, l := FindHeld(m, layout, live, c);
    hide LayoutAt, LiveApart, Held, ReleaseFrom, ReleaseTo, Tiles, HeapAt;
    if i != j {
      HeapsApart(m, layout, live, i, j);
    } else {
      ReleaseBeside(bs, k, from, to, l);
    }
  }

  lemma ReleaseBeside(bs: seq<Block>, k: nat, from: int, to: int, l: nat)
    requires Tiles(bs, from, to) && k < |bs| && l < |bs| && l != k && !bs[l].free
    ensures End(bs[l]) <= ReleaseFrom(bs, k) || ReleaseTo(bs, k) <= bs[l].addr
  {
    TilesApart(bs, from, to);
    hide Tiles;
    if l < k - 1 {
      assert End(bs[l]) <= bs[k - 1].addr;
    } else if l > k + 1 {
      assert End(bs[k + 1]) <= bs[l].addr;
    }
  }

  /** No held block meets a free one. */
  lemma ApartFromHeld(m: seq<int>, layout: seq<Heap>, live: map<int, int>, i: nat, k: nat)
    requires LayoutAt(m, layout, live) && LiveApart(live) && i < |layout| && k < |layout[i].blocks|
    requires layout[i].blocks[k].free
    ensures forall c :: c in Held(layout) ==>
      c.size > 0 && (End(c) <= layout[i].blocks[k].addr || End(layout[i].blocks[k]) <= c.addr)
  {
    var b := layout[i].blocks[k];
    assert HeapAt(m, layout[i]);
    TilesApart(layout[i].blocks, First(layout[i]), Limit(layout[i]));
    forall c | c in Held(layout)
      ensures c.size > 0 && (End(c) <= b.addr || End(b) <= c.addr)
    {
      var j, l := FindHeld(m, layout, live, c);
      if i != j {
        HeapsApart(m, layout, live, i, j);
      }
    }
  }

  lemma NewHeapHeld(layout: seq<Heap>, addr: int, frames: int, need: int)
    ensures
      var h := NewHeap(addr, frames, need);
      Held(layout + [h]) == Held(layout) + {h.blocks[0]}
  {
    var h := NewHeap(addr, frames, need);
    HeldJoin(layout, [h]);
    assert Held([h]) == Used(h.blocks) == {h.blocks[0]};
  }

  lemma NewHeapFirst(addr: int, frames: int, need: int)
    requires OVERHEAD <= need && need + HEAP_SIZE <= frames * FRAME_SIZE
    ensures
      var h := NewHeap(addr, frames, need);
      var b := h.blocks[0];
      b.addr == First(h) && b.size >= need && End(b) <= Limit(h)
  {
  }

  /** A write in the payload of a block leaves the heap as it is. */
  lemma PayloadWrite(m: seq<int>, m': seq<int>, h: Heap, k: nat, at: int)
    requires HeapAt(m, h) && k < |h.blocks| && SameOutside(m, m', at, at + 1)
    requires h.blocks[k].addr + HEAD_SIZE <= at < End(h.blocks[k]) - FOOT_SIZE
    ensures HeapAt(m', h) && SameOutside(m, m', h.addr, Limit(h))
  {
    TilesApart(h.blocks, First(h), Limit(h));
    forall j | 0 <= j < |h.blocks|
      ensures BlockAt(m', h.blocks[j], h.addr)
    {
      assert BlockAt(m, h.blocks[j], h.addr);
    }
  }

  lemma PayloadSeen(m: seq<int>, m': seq<int>, layout: seq<Heap>, live: map<int, int>, b: Block, at: int)
    requires LayoutAt(m, layout, live) && LiveApart(live) && b in Held(layout) && b.addr <= at < End(b)
    requires SameOutside(m, m', at, at + 1)
    ensures Undisturbed(m, m', Held(layout) - {b})
  {
    forall c | c in Held(layout) && c != b
      ensures Same(m, m', c.addr, End(c))
    {
      HeldApart(m, layout, live, b, c);
    }
  }

  /** What clients see of a new heap. */
  lemma NewHeapSeen(m: seq<int>, m': seq<int>, layout: seq<Heap>, live: map<int, int>, h: Heap)
    requires LayoutAt(m, layout, live) && h.addr !in live && LiveApart(live[h.addr := h.frames]) && 0 < h.frames
    requires SameOutside(m, m', h.addr, Limit(h))
    ensures forall c :: c in Held(layout) ==> End(c) <= h.addr || Limit(h) <= c.addr
    ensures forall c: Block :: h.addr < c.addr && c.size > 0 && End(c) <= Limit(h) ==> c !in Held(layout)
    ensures Undisturbed(m, m', Held(layout))
  {
    forall c | c in Held(layout)
      ensures End(c) <= h.addr || Limit(h) <= c.addr
    {
      var j, l := FindHeld(m, layout, live, c);
      var live' := live[h.addr := h.frames];
      assert layout[j].addr in live' && h.addr in live' && layout[j].addr != h.addr;
    }
  }

  /** All of that, for a heap of `frames` frames made for a block of `need` bytes. */
  lemma NewHeapMade(m: seq<int>, m': seq<int>, layout: seq<Heap>, live: map<int, int>,
                    addr: int, frames: int, need: int)
    requires LayoutAt(m, layout, live) && addr !in live && LiveApart(live[addr := frames]) && 0 < frames
    requires SameOutside(m, m', addr, addr + frames * FRAME_SIZE)
    requires OVERHEAD <= need && need + HEAP_SIZE <= frames * FRAME_SIZE
    ensures
      var h := NewHeap(addr, frames, need);
      && Held(layout + [h]) == Held(layout) + {h.blocks[0]} && h.blocks[0] !in Held(layout)
      && h.blocks[0].addr == addr + HEAP_SIZE && h.blocks[0].size >= need
      && Undisturbed(m, m', Held(layout))
      && Others(live[addr := frames], layout + [h]) == Others(live, layout)
  {
    hide LayoutAt, LiveApart, SameOutside, Held, Others, Undisturbed, Taken;
    var h := NewHeap(addr, frames, need);
    NewHeapHeld(layout, addr, frames, need);
    OthersAdded(layout, live, h);
    NewHeapFirst(addr, frames, need);
    NewHeapSeen(m, m', layout, live, h);
  }

  /** The frame ranges of everybody but the heap allocator. */
  ghost function Others(live: map<int, int>, layout: seq<Heap>): map<int, int> {
    live - Addresses(layout)
  }

  ghost function Addresses(layout: seq<Heap>): set<int> {
    set h | h in layout :: h.addr
  }

  lemma AddressesJoin(a: seq<Heap>, b: seq<Heap>)
    ensures Addresses(a + b) == Addresses(a) + Addresses(b)
  {
    assert forall g :: g in a + b <==> g in a || g in b;
  }

  lemma OthersKept(layout: seq<Heap>, live: map<int, int>, i: nat, h: Heap)
    requires i < |layout| && h.addr == layout[i].addr
    ensures Others(live, layout[i := h]) == Others(live, layout)
    ensures Others(live - {h.addr}, layout[..i] + layout[i + 1..]) == Others(live, layout)
  {
    hide Addresses;
    AddressesSplit(layout, i, h);
    AddressesSplit(layout, i, layout[i]);
    assert layout[i := layout[i]] == layout;
  }

  lemma AddressesSplit(layout: seq<Heap>, i: nat, h: Heap)
    requires i < |layout|
    ensures Addresses(layout[i := h]) == Addresses(layout[..i] + layout[i + 1..]) + {h.addr}
  {
    AddressesJoin(layout[..i], layout[i + 1..]);
    AddressesJoin(layout[..i], [h]);
    AddressesJoin(layout[..i] + [h], layout[i + 1..]);
    assert layout[i := h] == layout[..i] + [h] + layout[i + 1..];
    assert Addresses([h]) == {h.addr};
  }

  lemma OthersAdded(layout: seq<Heap>, live: map<int, int>, h: Heap)
    requires h.addr !in live
    ensures Others(live[h.addr := h.frames], layout + [h]) == Others(live, layout)
  {
    AddressesJoin(layout, [h]);
    assert Addresses([h]) == {h.addr};
  }

  // ---------------------------------------------------------------- first fit

  ghost predicate Fits(b: Block, need: int) {
    b.free && b.size >= need
  }

  ghost predicate NoneFits(bs: seq<Block>, need: int) {
    forall k :: 0 <= k < |bs| ==> !Fits(bs[k], need)
  }

  /** Block `k` of heap `i` is the first that fits, in the order of the heaps and of addresses. */
  ghost predicate FirstFit(layout: seq<Heap>, need: int, i: nat, k: nat) {
    && i < |layout| && k < |layout[i].blocks| && Fits(layout[i].blocks[k], need)
    && NoneFits(layout[i].blocks[..k], need)
    && forall j :: 0 <= j < i ==> NoneFits(layout[j].blocks, need)
  }

  /** The heaps after block `k` of heap `i` has been taken for `need` bytes. */
  ghost function TakenAt(layout: seq<Heap>, i: nat, k: nat, need: int): seq<Heap>
    requires i < |layout| && k < |layout[i].blocks|
  {
    layout[i := layout[i].(blocks := Take(layout[i].blocks, k, need))]
  }

  /** A new heap whose first block is for a request of `need` bytes. */
  ghost function NewHeap(addr: int, frames: int, need: int): (h: Heap)
    ensures h.blocks != []
  {
    Heap(addr, frames, Taken(Block(addr + HEAP_SIZE, frames * FRAME_SIZE - HEAP_SIZE, true), need))
  }

  lemma TakenAtExact(layout: seq<Heap>, i: nat, k: nat, need: int)
    requires FirstFit(layout, need, i, k) && need >= OVERHEAD
    ensures
      var h := layout[i];
      var c, b := h.blocks[k], Taken(h.blocks[k], need)[0];
      && c.free && c.size >= need && b.addr == c.addr && !b.free && b.size <= need + OVERHEAD
      && b.size == (if c.size > need + OVERHEAD then need else c.size)
      && var behind := if c.size > b.size then [Block(End(b), c.size - b.size, true)] else [];
         TakenAt(layout, i, k, need) == layout[i := h.(blocks := h.blocks[..k] + [b] + behind + h.blocks[k + 1..])]
  {
    var bs := layout[i].blocks;
    var taken := Taken(bs[k], need);
    TakenExact(bs[k], need);
    assert taken == [taken[0]] + taken[1..];
    assert bs[..k] + taken == bs[..k] + [taken[0]] + taken[1..];
  }

  lemma NewHeapExact(addr: int, frames: int, need: int)
    requires OVERHEAD <= need && need + HEAP_SIZE <= frames * FRAME_SIZE
    ensures
      var h, size := NewHeap(addr, frames, need), frames * FRAME_SIZE - HEAP_SIZE;
      var b := h.blocks[0];
      && h.addr == addr && h.frames == frames && b.addr == addr + HEAP_SIZE && !b.free && b.size <= need + OVERHEAD
      && b.size == (if size > need + OVERHEAD then need else size)
      && h.blocks == [b] + if size > b.size then [Block(End(b), size - b.size, true)] else []
  {
    TakenExact(Block(addr + HEAP_SIZE, frames * FRAME_SIZE - HEAP_SIZE, true), need);
    var bs := NewHeap(addr, frames, need).blocks;
    assert bs == [bs[0]] + bs[1..];
  }

  lemma NewHeapAt(m: seq<int>, addr: int, frames: int, need: int)
    requires 0 <= addr && addr % 4 == 0 && 0 < frames && addr + frames * FRAME_SIZE <= |m|
    requires need % 4 == 0 && OVERHEAD <= need && need + HEAP_SIZE <= frames * FRAME_SIZE
    requires m[addr + 8] == addr + HEAP_SIZE && m[addr + 12] == addr + frames * FRAME_SIZE && m[addr + 16] == frames
    requires BlocksAt(m, NewHeap(addr, frames, need).blocks, addr)
    ensures HeapAt(m, NewHeap(addr, frames, need))
    ensures Merged(NewHeap(addr, frames, need).blocks) && !AllFree(NewHeap(addr, frames, need).blocks)
  {
    hide BlocksAt;
    NewHeapTiles(addr, frames, need);
  }

  lemma NewHeapTiles(addr: int, frames: int, need: int)
    requires need % 4 == 0 && OVERHEAD <= need && need + HEAP_SIZE <= frames * FRAME_SIZE
    ensures
      var h := NewHeap(addr, frames, need);
      Tiles(h.blocks, First(h), Limit(h)) && Merged(h.blocks) && !AllFree(h.blocks)
  {
    hide Tiles;
    var size := frames * FRAME_SIZE - HEAP_SIZE;
    assert size == 4 * (frames * 1024 - 5);
    TakenTiles(Block(addr + HEAP_SIZE, size, true), need);
  }

  ghost predicate NoFit(layout: seq<Heap>, need: int) {
    forall i :: 0 <= i < |layout| ==> NoneFits(layout[i].blocks, need)
  }

  lemma NoneIsLarge(layout: seq<Heap>, need: int)
    requires NoFit(layout, need)
    ensures forall j, l :: 0 <= j < |layout| && 0 <= l < |layout[j].blocks| && layout[j].blocks[l].free ==>
      layout[j].blocks[l].size < need
  {
  }

  lemma FirstIsLarge(layout: seq<Heap>, need: int, i: nat, k: nat)
    requires FirstFit(layout, need, i, k)
    ensures i < |layout| && k < |layout[i].blocks|
    ensures forall j, l :: 0 <= j <= i && 0 <= l < |layout[j].blocks| && (j < i || l < k) ==>
      layout[j].blocks[l].free ==> layout[j].blocks[l].size < need
  {
    forall j, l | 0 <= j <= i && 0 <= l < |layout[j].blocks| && (j < i || l < k)
      ensures !Fits(layout[j].blocks[l], need)
    {
      assert j == i ==> layout[i].blocks[..k][l] == layout[i].blocks[l];
    }
  }
}

/** The heap allocator over physical memory. Models kernel/mm/malloc.c. */
module HeapAllocator {
  import opened Basics
  import opened PhysicalFrames
  import opened HeapLayout

  /** A heap allocator over the memory `mem`. A word lives at its byte address. */
  class Allocator {
    const mem: array<int>
    const frames: FrameAllocator
    /** The heaps, in the order of the list. */
    var heap_list: seq<int>
    ghost var layout: seq<Heap>

    ghost predicate Valid()
      reads this, mem, frames
    {
      && frames.Valid() && frames.limit <= mem.Length
      && |heap_list| == |layout| && (forall i :: 0 <= i < |layout| ==> heap_list[i] == layout[i].addr)
      && LayoutAt(mem[..], layout, frames.live)
    }

    /** `heap_init` */
    constructor (mem: array<int>, frames: FrameAllocator)
      requires frames.Valid() && frames.limit <= mem.Length
      ensures Valid() && layout == [] && this.mem == mem && this.frames == frames
    {
      this.mem, this.frames, heap_list, layout := mem, frames, [], [];
    }

    // -------------------------------------------------------------- blocks

    /** `block_check`: whether all its assertions hold. */
    method BlockCheck(addr: int) returns (ok: bool)
      requires Readable(mem[..], addr)
      ensures ok <==> Intact(mem[..], addr)
    {
      var heap := mem[addr + 8];
      var foot := addr + mem[addr] - FOOT_SIZE;
      ok := addr >= mem[heap + 8] && addr < mem[heap + 12] && mem[addr + 12] == HEAD_MAGIC
        && mem[foot] == FOOT_MAGIC && mem[addr] == mem[foot + 4];
    }

    method BlockInit(addr: int, size: int, free: bool, heap: int)
      requires 0 <= addr && size >= OVERHEAD && addr + size <= mem.Length
      modifies mem
      ensures BlockAt(mem[..], Block(addr, size, free), heap)
      ensures SameOutside(old(mem[..]), mem[..], addr, addr + size)
      ensures Same(old(mem[..]), mem[..], addr + HEAD_SIZE, addr + size - FOOT_SIZE)
    {
      var foot := addr + size - FOOT_SIZE;
      mem[addr] := size;
      mem[addr + 4] := if free then 1 else 0;
      mem[addr + 8] := heap;
      mem[addr + 12] := HEAD_MAGIC;
      mem[foot] := FOOT_MAGIC;
      mem[foot + 4] := size;
    }

    /** The step of `malloc` for the block it has found. */
    method Claim(pos: int, real_size: int, heap: int, ghost h: Heap, ghost k: nat) returns (result: int)
      requires HeapAt(mem[..], h) && k < |h.blocks| && heap == h.addr
      requires pos == h.blocks[k].addr && Fits(h.blocks[k], real_size) && real_size >= OVERHEAD && real_size % 4 == 0
      modifies mem
      ensures result == pos + HEAD_SIZE
      ensures HeapAt(mem[..], h.(blocks := Take(h.blocks, k, real_size)))
      ensures SameOutside(old(mem[..]), mem[..], pos, End(h.blocks[k]))
    {
      ghost var m, b := mem[..], h.blocks[k];
      TakeTiles(h.blocks, k, real_size, First(h), Limit(h));
      result := Occupy(pos, real_size, heap, b);
      HeapChanged(m, mem[..], h, k, 1, Taken(b, real_size));
    }

    method Occupy(pos: int, real_size: int, heap: int, ghost b: Block) returns (result: int)
      requires BlockAt(mem[..], b, heap) && pos == b.addr && Fits(b, real_size) && real_size >= OVERHEAD
      modifies mem
      ensures result == pos + HEAD_SIZE
      ensures BlocksAt(mem[..], Taken(b, real_size), heap) && SameOutside(old(mem[..]), mem[..], pos, End(b))
    {
      hide BlockAt;
      ReadBlock(b, heap);
      var split_limit := real_size + OVERHEAD;
      if mem[pos] > split_limit {
        var next := pos + real_size;
        BlockInit(next, mem[pos] - real_size, true, heap);
        ghost var m1 := mem[..];
        BlockInit(pos, real_size, false, heap);
        BlockKept(m1, mem[..], Block(next, b.size - real_size, true), heap, pos, next);
      } else {
        SetFree(pos, false, heap, b);
      }
      result := pos + HEAD_SIZE;
    }

    /** What the code reads in a block. */
    lemma ReadBlock(b: Block, heap: int)
      requires BlockAt(mem[..], b, heap)
      ensures 0 <= b.addr && b.size >= OVERHEAD && End(b) <= mem.Length
      ensures mem[b.addr] == b.size && (mem[b.addr + 4] != 0 <==> b.free) && mem[b.addr + 8] == heap
      ensures mem[End(b) - 4] == b.size
    {
    }

    method SetFree(pos: int, free: bool, ghost heap: int, ghost b: Block)
      requires BlockAt(mem[..], b, heap) && pos == b.addr
      modifies mem
      ensures BlockAt(mem[..], b.(free := free), heap) && SameOutside(old(mem[..]), mem[..], pos, End(b))
    {
      mem[pos + 4] := if free then 1 else 0;
    }

    // -------------------------------------------------------------- malloc

    /** `malloc_heap`: 0 stands for NULL. */
    method MallocHeap(size: int) returns (result: int)
      requires Valid() && 0 <= size <= HEAP_BLOCK_SIZE_MAX
      modifies this, mem, frames
      ensures Valid()
      ensures result == 0 ==>
        && layout == old(layout) && mem[..] == old(mem[..]) && frames.live == old(frames.live)
        && frames.log == old(frames.log) + [Refused(HeapFrames(size))]
      ensures result != 0 ==>
        var phys := result - HEAP_SIZE - HEAD_SIZE;
        && phys !in old(frames.live) && frames.live == old(frames.live)[phys := HeapFrames(size)]
        && frames.log == old(frames.log) + [Granted(phys, HeapFrames(size))]
        && layout == old(layout) + [NewHeap(phys, HeapFrames(size), RealSize(size))]
        && SameOutside(old(mem[..]), mem[..], phys, phys + HeapFrames(size) * FRAME_SIZE)
      // the block, and the free one behind it if another block fits there
      ensures result != 0 ==>
        && |layout| == |old(layout)| + 1
        && var h, payload := layout[|layout| - 1], HeapFrames(size) * FRAME_SIZE - HEAP_SIZE;
           && h.addr == result - HEAP_SIZE - HEAD_SIZE && h.frames == HeapFrames(size) && h.blocks != []
           && var b := h.blocks[0];
              && b.addr == result - HEAD_SIZE && !b.free
              && b.size == (if payload > RealSize(size) + OVERHEAD then RealSize(size) else payload)
              && h.blocks == [b] + if payload > b.size then [Block(End(b), payload - b.size, true)] else []
    {
      hide HeapAt, LayoutAt, LiveApart, U32, AlignUp, RealSize, HeapFrames, Merged, AllFree, Taken;
      RealSizeExact(size);
      HeapFramesExact(size);
      var real_size := RealSize(size);
      var count := HeapFrames(size);
      var heap_size := count * FRAME_SIZE;
      ghost var m := mem[..];
      var phys := frames.Alloc(count);
      if phys == -1 {
        return 0;
      }
      assert phys in frames.live;
      result := MakeHeap(phys, count, heap_size, real_size);
      ghost var h := NewHeap(phys, count, real_size);
      LayoutAdded(m, mem[..], layout, old(frames.live), h);
      heap_list := heap_list + [phys];
      layout := layout + [h];
      NewHeapExact(phys, count, real_size);
    }

    /** `malloc`: 0 stands for NULL. `at` is the place of the block that is taken, if it is
        an old one, and `b` the block that the caller gets. */
    method Malloc(size: int) returns (result: int, ghost at: Option<(nat, nat)>, ghost b: Block)
      requires Valid() && 0 <= size <= HEAP_BLOCK_SIZE_MAX
      modifies this, mem, frames
      ensures Valid()
      // first fit: no free block before this one is large enough
      ensures at.Some? ==>
        && result != 0 && FirstFit(old(layout), RealSize(size), at.value.0, at.value.1)
        && forall j, l ::
             (&& 0 <= j <= at.value.0 && 0 <= l < |old(layout)[j].blocks|
              && (j < at.value.0 || l < at.value.1) && old(layout)[j].blocks[l].free) ==>
               old(layout)[j].blocks[l].size < RealSize(size)
      // it is split exactly when another block fits behind the new one, and that one is free
      ensures at.Some? ==>
        var (i, k) := at.value;
        var h, c := old(layout)[i], old(layout)[i].blocks[k];
        && c.free && c.size >= RealSize(size) && b.addr == c.addr
        && b.size == (if c.size > RealSize(size) + OVERHEAD then RealSize(size) else c.size)
        && frames.live == old(frames.live) && frames.log == old(frames.log)
        && var behind := if c.size > b.size then [Block(End(b), c.size - b.size, true)] else [];
           layout == old(layout)[i := h.(blocks := h.blocks[..k] + [b] + behind + h.blocks[k + 1..])]
      // a new heap when nothing fits, split in the same way, or NULL when the frame allocator refuses
      ensures at.None? ==>
        forall j, l :: 0 <= j < |old(layout)| && 0 <= l < |old(layout)[j].blocks| && old(layout)[j].blocks[l].free ==>
          old(layout)[j].blocks[l].size < RealSize(size)
      ensures at.None? && result == 0 ==>
        frames.live == old(frames.live) && frames.log == old(frames.log) + [Refused(HeapFrames(size))]
      ensures at.None? && result != 0 ==>
        var phys, payload := result - HEAP_SIZE - HEAD_SIZE, HeapFrames(size) * FRAME_SIZE - HEAP_SIZE;
        && phys !in old(frames.live) && frames.live == old(frames.live)[phys := HeapFrames(size)]
        && frames.log == old(frames.log) + [Granted(phys, HeapFrames(size))]
        && b.size == (if payload > RealSize(size) + OVERHEAD then RealSize(size) else payload)
        && var behind := if payload > b.size then [Block(End(b), payload - b.size, true)] else [];
           layout == old(layout) + [Heap(phys, HeapFrames(size), [b] + behind)]
      ensures result == 0 ==> layout == old(layout)
      ensures Others(frames.live, layout) == old(Others(frames.live, layout))
      // what the caller gets, and what others keep
      ensures result == 0 ==> Held(layout) == old(Held(layout))
      ensures result != 0 ==>
        && Held(layout) == old(Held(layout)) + {b} && b !in old(Held(layout))
        && result == b.addr + HEAD_SIZE && result % 4 == 0 && b.size - OVERHEAD >= size
        && b.size <= size + 2 * OVERHEAD + 3 && !b.free
      ensures Undisturbed(old(mem[..]), mem[..], old(Held(layout)))
    {
      hide *;
      RealSizeExact(size);
      var real_size := RealSize(size);
      result, at, b := MallocOld(real_size);
      if result == 0 {
        result, b := MallocNew(size);
      }
    }

    /** The part of `malloc` that looks for a block in the heaps of the list. */
    method MallocOld(real_size: int) returns (result: int, ghost at: Option<(nat, nat)>, ghost b: Block)
      requires Valid() && real_size >= OVERHEAD && real_size % 4 == 0
      modifies this, mem
      ensures Valid() && Others(frames.live, layout) == old(Others(frames.live, layout))
      ensures result == 0 ==> at.None? && layout == old(layout) && mem[..] == old(mem[..])
      ensures result == 0 ==>
        forall j, l :: 0 <= j < |old(layout)| && 0 <= l < |old(layout)[j].blocks| && old(layout)[j].blocks[l].free ==>
          old(layout)[j].blocks[l].size < real_size
      ensures result != 0 ==>
        && at.Some? && FirstFit(old(layout), real_size, at.value.0, at.value.1)
        && forall j, l ::
             (&& 0 <= j <= at.value.0 && 0 <= l < |old(layout)[j].blocks|
              && (j < at.value.0 || l < at.value.1) && old(layout)[j].blocks[l].free) ==>
               old(layout)[j].blocks[l].size < real_size
      ensures result != 0 ==>
        var (i, k) := at.value;
        var h, c := old(layout)[i], old(layout)[i].blocks[k];
        && c.free && c.size >= real_size && b.addr == c.addr && !b.free
        && b.size == (if c.size > real_size + OVERHEAD then real_size else c.size) <= real_size + OVERHEAD
        && var behind := if c.size > b.size then [Block(End(b), c.size - b.size, true)] else [];
           layout == old(layout)[i := h.(blocks := h.blocks[..k] + [b] + behind + h.blocks[k + 1..])]
      ensures result != 0 ==>
        && Held(layout) == old(Held(layout)) + {b} && b !in old(Held(layout))
        && result == b.addr + HEAD_SIZE && result % 4 == 0 && b.size >= real_size
      ensures Undisturbed(old(mem[..]), mem[..], old(Held(layout)))
    {
      hide Others, Held, Undisturbed, Taken, TakenAt, Fits, NoneFits, LayoutAt, LiveApart;
      at, b := None, Block(0, 0, false);
      ghost var m := mem[..];
      var i := 0;
      result := 0;
      while i < |heap_list| && result == 0
        invariant 0 <= i <= |heap_list| && Valid() && result == 0
        invariant layout == old(layout) && mem[..] == m
        invariant forall j :: 0 <= j < i ==> NoneFits(layout[j].blocks, real_size)
      {
        ghost var k;
        result, k, b := MallocHere(heap_list[i], real_size, i);
        if result != 0 {
          at := Some((i, k));
          FirstIsLarge(old(layout), real_size, i, k);
          TakenAtExact(old(layout), i, k, real_size);
          return;
        }
        i := i + 1;
      }
      StillUndisturbed(m, Held(layout));
      NoneIsLarge(layout, real_size);
    }

    /** The part of `malloc` that looks at one heap of the list. */
    method MallocHere(heap: int, real_size: int, ghost i: nat) returns (result: int, ghost k: nat, ghost b: Block)
      requires Valid() && i < |layout| && heap == layout[i].addr && real_size >= OVERHEAD && real_size % 4 == 0
      modifies this, mem
      ensures Valid()
      ensures result == 0 ==> layout == old(layout) && mem[..] == old(mem[..]) && NoneFits(layout[i].blocks, real_size)
      ensures result != 0 ==>
        && k < |old(layout)[i].blocks| && Fits(old(layout)[i].blocks[k], real_size)
        && NoneFits(old(layout)[i].blocks[..k], real_size) && b == Taken(old(layout)[i].blocks[k], real_size)[0]
        && layout == TakenAt(old(layout), i, k, real_size)
        && Held(layout) == old(Held(layout)) + {b} && b !in old(Held(layout))
        && result == b.addr + HEAD_SIZE && result % 4 == 0 && b.size >= real_size
      ensures Undisturbed(old(mem[..]), mem[..], old(Held(layout)))
      ensures Others(frames.live, layout) == old(Others(frames.live, layout))
    {
      hide Others, HeapAt, Held, Undisturbed, BlockAt, BlocksAt, Tiles, Merged, AllFree, Take, NoneFits;
      ghost var m, h := mem[..], layout[i];
      b := Block(0, 0, false);
      result, k := MallocIn(heap, real_size, h);
      if result == 0 {
        StillUndisturbed(m, Held(layout));
      } else {
        b := Taken(h.blocks[k], real_size)[0];
        ghost var h' := h.(blocks := Take(h.blocks, k, real_size));
        TakeMerged(h.blocks, k, real_size);
        TakeHeld(m, layout, frames.live, i, k, real_size);
        TakeSeen(m, mem[..], layout, frames.live, i, k, real_size);
        LayoutChanged(m, mem[..], layout, frames.live, i, h');
        OthersKept(layout, frames.live, i, h');
        layout := layout[i := h'];
        assert layout == TakenAt(old(layout), i, k, real_size);
      }
    }

    lemma StillUndisturbed(m: seq<int>, held: set<Block>)
      ensures Undisturbed(m, m, held)
    {
    }

    lemma NewBlockAligned(size: int, phys: int)
      requires 0 <= size <= HEAP_BLOCK_SIZE_MAX && phys % FRAME_SIZE == 0
      ensures 0 < HeapFrames(size) && (phys + HEAP_SIZE + HEAD_SIZE) % 4 == 0
    {
      hide HeapFrames, RealSize;
      HeapFramesExact(size);
    }

    lemma Parts()
      requires Valid()
      ensures LayoutAt(mem[..], layout, frames.live) && LiveApart(frames.live)
      ensures forall phys :: phys in frames.live ==> phys % FRAME_SIZE == 0
    {
      hide LayoutAt, LiveApart;
    }

    /** The part of `malloc` that asks for a new heap. */
    method MallocNew(size: int) returns (result: int, ghost b: Block)
      requires Valid() && 0 <= size <= HEAP_BLOCK_SIZE_MAX
      modifies this, mem, frames
      ensures Valid()
      ensures result == 0 ==>
        && layout == old(layout) && frames.live == old(frames.live)
        && frames.log == old(frames.log) + [Refused(HeapFrames(size))]
      ensures result != 0 ==>
        var phys, payload := result - HEAP_SIZE - HEAD_SIZE, HeapFrames(size) * FRAME_SIZE - HEAP_SIZE;
        && phys !in old(frames.live) && frames.live == old(frames.live)[phys := HeapFrames(size)]
        && frames.log == old(frames.log) + [Granted(phys, HeapFrames(size))]
        && b.size == (if payload > RealSize(size) + OVERHEAD then RealSize(size) else payload)
        && !b.free && b.size <= RealSize(size) + OVERHEAD
        && var behind := if payload > b.size then [Block(End(b), payload - b.size, true)] else [];
           layout == old(layout) + [Heap(phys, HeapFrames(size), [b] + behind)]
      ensures result != 0 ==>
        && Held(layout) == old(Held(layout)) + {b} && b !in old(Held(layout))
        && result == b.addr + HEAD_SIZE && result % 4 == 0 && b.size - OVERHEAD >= size
      ensures Undisturbed(old(mem[..]), mem[..], old(Held(layout)))
      ensures Others(frames.live, layout) == old(Others(frames.live, layout))
    {
      hide *;
      RealSizeExact(size);
      HeapFramesExact(size);
      Parts();
      ghost var m, layout0, live0 := mem[..], layout, frames.live;
      b := Block(0, 0, false);
      result := MallocHeap(size);
      if result == 0 {
        StillUndisturbed(m, Held(layout));
      } else {
        ghost var phys := result - HEAP_SIZE - HEAD_SIZE;
        Parts();
        assert phys in frames.live;
        NewBlockAligned(size, phys);
        b := NewHeap(phys, HeapFrames(size), RealSize(size)).blocks[0];
        NewHeapMade(m, mem[..], layout0, live0, phys, HeapFrames(size), RealSize(size));
        NewHeapExact(phys, HeapFrames(size), RealSize(size));
      }
    }

    /** Writes the descriptor of a new heap and divides it. */
    method MakeHeap(heap: int, count: int, heap_size: int, real_size: int) returns (result: int)
      requires 0 <= heap && heap % 4 == 0 && 0 < count && heap_size == count * FRAME_SIZE
      requires heap + heap_size <= mem.Length
      requires real_size % 4 == 0 && OVERHEAD <= real_size && real_size + HEAP_SIZE <= heap_size
      modifies mem
      ensures result == heap + HEAP_SIZE + HEAD_SIZE
      ensures SameOutside(old(mem[..]), mem[..], heap, heap + heap_size)
      ensures
        var h := NewHeap(heap, count, real_size);
        HeapAt(mem[..], h) && Merged(h.blocks) && !AllFree(h.blocks)
    {
      hide BlocksAt, HeapAt, Merged, Tiles;
      ghost var m := mem[..];
      mem[heap + 8] := heap + HEAP_SIZE;
      mem[heap + 12] := heap + heap_size;
      mem[heap + 16] := count;
      var cur := mem[heap + 8];
      var payload_heap_size := heap_size - HEAP_SIZE;
      Divide(cur, payload_heap_size, real_size, heap);
      NewHeapAt(mem[..], heap, count, real_size);
      result := mem[heap + 8] + HEAD_SIZE;
    }

    /** Makes the first block of a new heap, and a free block of the rest. */
    method Divide(cur: int, payload_heap_size: int, real_size: int, heap: int)
      requires 0 <= cur && OVERHEAD <= real_size <= payload_heap_size && cur + payload_heap_size <= mem.Length
      modifies mem
      ensures BlocksAt(mem[..], Taken(Block(cur, payload_heap_size, true), real_size), heap)
      ensures SameOutside(old(mem[..]), mem[..], cur, cur + payload_heap_size)
    {
      hide BlockAt;
      var split_limit := real_size + OVERHEAD;
      if payload_heap_size > split_limit {
        var next := cur + real_size;
        BlockInit(next, payload_heap_size - real_size, true, heap);
        ghost var m1 := mem[..];
        BlockInit(cur, real_size, false, heap);
        BlockKept(m1, mem[..], Block(next, payload_heap_size - real_size, true), heap, cur, next);
      } else {
        BlockInit(cur, payload_heap_size, false, heap);
      }
    }

    /** The scan of one heap by `malloc`; 0 when no block fits. */
    method MallocIn(heap: int, real_size: int, ghost h: Heap) returns (result: int, ghost k: nat)
      requires HeapAt(mem[..], h) && heap == h.addr && real_size >= OVERHEAD && real_size % 4 == 0
      modifies mem
      ensures result == 0 ==> NoneFits(h.blocks, real_size) && mem[..] == old(mem[..])
      ensures result != 0 ==>
        && k < |h.blocks| && Fits(h.blocks[k], real_size) && NoneFits(h.blocks[..k], real_size)
        && result == h.blocks[k].addr + HEAD_SIZE
        && HeapAt(mem[..], h.(blocks := Take(h.blocks, k, real_size)))
        && SameOutside(old(mem[..]), mem[..], h.blocks[k].addr, End(h.blocks[k]))
    {
      hide Tiles, BlocksAt, BlockAt, HeapAt;
      result, k := 0, 0;
      FirstBlock(mem[..], h);
      Bounds(h);
      var pos := mem[heap + 8];
      while result == 0 && pos < mem[heap + 12]
        invariant result == 0 && mem[..] == old(mem[..])
        invariant k <= |h.blocks| && NoneFits(h.blocks[..k], real_size)
        invariant pos == if k < |h.blocks| then h.blocks[k].addr else Limit(h)
        decreases |h.blocks| - k
      {
        NextBlock(mem[..], h, k);
        ReadBlock(h.blocks[k], heap);
        BlocksAreIntact(mem[..], h, k);
        var ok := BlockCheck(pos);
        assert ok;
        if mem[pos + 4] != 0 && mem[pos] >= real_size {
          result := Claim(pos, real_size, heap, h, k);
          return;
        }
        pos := pos + mem[pos];
        k := k + 1;
      }
      StartsBelow(h, k);
    }

    lemma Bounds(h: Heap)
      requires HeapAt(mem[..], h)
      ensures 0 <= h.addr && h.addr + HEAP_SIZE <= Limit(h) <= mem.Length
      ensures mem[h.addr + 8] == First(h) && mem[h.addr + 12] == Limit(h) && mem[h.addr + 16] == h.frames
    {
      assert mem[..][h.addr + 8] == mem[h.addr + 8];
    }

    lemma StartsBelow(h: Heap, k: nat)
      requires HeapAt(mem[..], h)
      ensures k < |h.blocks| ==> h.blocks[k].addr < Limit(h)
    {
      if k < |h.blocks| {
        NextBlock(mem[..], h, k);
      }
    }

    // -------------------------------------------------------------- free

    /** `free` of a block that a client holds: block `k` of heap `i`. */
    method Free(addr: int, ghost i: nat, ghost k: nat)
      requires Valid() && i < |layout| && k < |layout[i].blocks| && !layout[i].blocks[k].free
      requires addr == layout[i].blocks[k].addr + HEAD_SIZE
      modifies this, mem, frames
      ensures Valid()
      ensures Held(layout) == old(Held(layout)) - {old(layout[i].blocks[k])}
      ensures Undisturbed(old(mem[..]), mem[..], old(Held(layout)) - {old(layout[i].blocks[k])})
      // the heap goes back to the frame allocator exactly when all its other blocks are free;
      // otherwise the block and its free neighbours are one free block
      ensures
        var h := old(layout)[i];
        var bs := h.blocks;
        if forall l :: 0 <= l < |bs| && l != k ==> bs[l].free then
          && layout == old(layout)[..i] + old(layout)[i + 1..]
          && frames.live == old(frames.live) - {h.addr}
          && frames.log == old(frames.log) + [Returned(h.addr, h.frames)]
        else
          var lo := if k > 0 && bs[k - 1].free then k - 1 else k;
          var hi := if k + 1 < |bs| && bs[k + 1].free then k + 1 else k;
          var b := Block(bs[lo].addr, End(bs[hi]) - bs[lo].addr, true);
          && layout == old(layout)[i := h.(blocks := bs[..lo] + [b] + bs[hi + 1..])]
          && frames.live == old(frames.live) && frames.log == old(frames.log)
      ensures Others(frames.live, layout) == old(Others(frames.live, layout))
    {
      hide *;
      IntactHeap(i);
      ReleaseExact(layout[i].blocks, k, First(layout[i]), Limit(layout[i]));
      FreeHead(addr - HEAD_SIZE, i, k);
    }

    lemma IntactHeap(i: nat)
      requires Valid() && i < |layout|
      ensures Tiles(layout[i].blocks, First(layout[i]), Limit(layout[i])) && Merged(layout[i].blocks)
    {
    }

    /** `free`, from the header of the block on. */
    method FreeHead(head: int, ghost i: nat, ghost k: nat)
      requires Valid() && i < |layout| && k < |layout[i].blocks| && !layout[i].blocks[k].free
      requires head == layout[i].blocks[k].addr
      modifies this, mem, frames
      ensures Valid()
      ensures Held(layout) == old(Held(layout)) - {old(layout[i].blocks[k])}
      ensures Undisturbed(old(mem[..]), mem[..], old(Held(layout)) - {old(layout[i].blocks[k])})
      ensures
        var h := old(layout)[i];
        if AllFree(Release(h.blocks, k)) then
          && layout == old(layout)[..i] + old(layout)[i + 1..]
          && frames.live == old(frames.live) - {h.addr}
          && frames.log == old(frames.log) + [Returned(h.addr, h.frames)]
        else
          && layout == old(layout)[i := h.(blocks := Release(h.blocks, k))]
          && frames.live == old(frames.live) && frames.log == old(frames.log)
      ensures Others(frames.live, layout) == old(Others(frames.live, layout))
    {
      hide Others, HeapAt, LiveApart, Held, Undisturbed, Merged, AllFree, Release, ReleaseFrom, ReleaseTo;
      ghost var m, h := mem[..], layout[i];
      ghost var h' := h.(blocks := Release(h.blocks, k));
      var heap := Coalesce(head, h, k);
      ReleaseHeld(m, layout, frames.live, i, k);
      ReleaseSeen(m, mem[..], layout, frames.live, i, k);
      ReleaseMerged(h.blocks, k);
      OthersKept(layout, frames.live, i, h');
      var empty := IsOneFree(heap, h');
      if empty {
        LayoutRemoved(m, mem[..], layout, frames.live, i);
        DropUnheld(layout, i, h');
        RemoveAt(heap_list, i);
        Bounds(h');
        heap_list := Remove(heap_list, heap);
        var ok := frames.Free(heap, mem[heap + 16]);
        assert ok;
        layout := layout[..i] + layout[i + 1..];
      } else {
        LayoutChanged(m, mem[..], layout, frames.live, i, h');
        layout := layout[i := h'];
      }
    }

    /** The part of `free` that marks the block as free and merges it with its free neighbours. */
    method Coalesce(head: int, ghost h: Heap, ghost k: nat) returns (heap: int)
      requires HeapAt(mem[..], h) && k < |h.blocks| && !h.blocks[k].free && head == h.blocks[k].addr
      modifies mem
      ensures heap == h.addr && HeapAt(mem[..], h.(blocks := Release(h.blocks, k)))
      ensures SameOutside(old(mem[..]), mem[..], ReleaseFrom(h.blocks, k), ReleaseTo(h.blocks, k))
    {
      hide HeapAt, BlockAt, BlocksAt, Tiles, Merge, ReleaseFrom, ReleaseTo;
      NextBlock(mem[..], h, k);
      BlocksAreIntact(mem[..], h, k);
      var ok := BlockCheck(head);
      assert ok;
      ReadBlock(h.blocks[k], h.addr);
      assert mem[head + 4] == 0;
      heap := mem[head + 8];
      ghost var h1 := h.(blocks := Freed(h.blocks, k));
      TiledHeap(h);
      ReleaseRange(h.blocks, k, First(h), Limit(h));
      MarkFree(head, h, k);
      ghost var h2 := h.(blocks := MergedNext(h1.blocks, k));
      MergeWithNext(head, heap, h1, k);
      MergeWithPrev(head, heap, h2, k);
    }

    lemma OneBlockAt(b: Block, heap: int)
      requires BlockAt(mem[..], b, heap)
      ensures BlocksAt(mem[..], [b], heap)
    {
    }

    lemma TiledHeap(h: Heap)
      requires HeapAt(mem[..], h)
      ensures Tiles(h.blocks, First(h), Limit(h))
    {
    }

    method MarkFree(head: int, ghost h: Heap, ghost k: nat)
      requires HeapAt(mem[..], h) && k < |h.blocks| && head == h.blocks[k].addr
      modifies mem
      ensures HeapAt(mem[..], h.(blocks := Freed(h.blocks, k)))
      ensures SameOutside(old(mem[..]), mem[..], head, End(h.blocks[k]))
    {
      hide HeapAt, Tiles, BlocksAt, BlockAt;
      ghost var m := mem[..];
      NextBlock(m, h, k);
      TiledHeap(h);
      SetFree(head, true, h.addr, h.blocks[k]);
      FreedTiles(h.blocks, k, First(h), Limit(h));
      assert BlocksAt(mem[..], [h.blocks[k].(free := true)], h.addr) by {
        OneBlockAt(h.blocks[k].(free := true), h.addr);
      }
      HeapChanged(m, mem[..], h, k, 1, [h.blocks[k].(free := true)]);
    }

    method MergeWithNext(head: int, heap: int, ghost h: Heap, ghost k: nat)
      requires HeapAt(mem[..], h) && k < |h.blocks| && heap == h.addr && head == h.blocks[k].addr
      modifies mem
      ensures HeapAt(mem[..], h.(blocks := MergedNext(h.blocks, k)))
      ensures SameOutside(old(mem[..]), mem[..], head, ReleaseTo(h.blocks, k))
    {
      hide HeapAt, BlockAt, BlocksAt, Tiles;
      ghost var m := mem[..];
      Bounds(h);
      NextBlock(m, h, k);
      ReadBlock(h.blocks[k], heap);
      var next_head := head + mem[head];
      StartsBelow(h, k + 1);
      if next_head < mem[heap + 12] {
        NextBlock(m, h, k + 1);
        ReadBlock(h.blocks[k + 1], heap);
        BlocksAreIntact(mem[..], h, k + 1);
        var ok := BlockCheck(next_head);
        assert ok;
        if mem[next_head + 4] != 0 {
          JoinBlocks(head, heap, mem[head] + mem[next_head], h, k);
        }
      }
    }

    method MergeWithPrev(head: int, heap: int, ghost h: Heap, ghost k: nat)
      requires HeapAt(mem[..], h) && k < |h.blocks| && heap == h.addr && head == h.blocks[k].addr
      modifies mem
      ensures HeapAt(mem[..], h.(blocks := MergedPrev(h.blocks, k)))
      ensures SameOutside(old(mem[..]), mem[..], ReleaseFrom(h.blocks, k), End(h.blocks[k]))
    {
      hide HeapAt, BlockAt, BlocksAt, Tiles;
      ghost var m := mem[..];
      Bounds(h);
      NextBlock(m, h, k);
      FirstBlock(m, h);
      ReadBlock(h.blocks[k], heap);
      if k > 0 {
        NextBlock(m, h, k - 1);
        ReadBlock(h.blocks[k - 1], heap);
      }
      if head > mem[heap + 8] {
        var prev_foot := head - FOOT_SIZE;
        var prev_head := head - mem[prev_foot + 4];
        BlocksAreIntact(mem[..], h, k - 1);
        var ok := BlockCheck(prev_head);
        assert ok;
        if mem[prev_head + 4] != 0 {
          JoinBlocks(prev_head, heap, mem[prev_head] + mem[head], h, k - 1);
        }
      }
    }

    /** Block `k` and its neighbour become one free block of `size` bytes. */
    method JoinBlocks(head: int, heap: int, size: int, ghost h: Heap, ghost k: nat)
      requires HeapAt(mem[..], h) && k + 1 < |h.blocks| && heap == h.addr && head == h.blocks[k].addr
      requires size == h.blocks[k].size + h.blocks[k + 1].size
      modifies mem
      ensures HeapAt(mem[..], h.(blocks := Merge(h.blocks, k)))
      ensures SameOutside(old(mem[..]), mem[..], head, End(h.blocks[k + 1]))
    {
      hide HeapAt, Tiles, BlocksAt, BlockAt;
      ghost var m := mem[..];
      NextBlock(m, h, k);
      NextBlock(m, h, k + 1);
      Bounds(h);
      ReadBlock(h.blocks[k], heap);
      ReadBlock(h.blocks[k + 1], heap);
      TiledHeap(h);
      BlockInit(head, size, true, heap);
      OneBlockAt(Block(head, size, true), heap);
      MergeTiles(h.blocks, k, First(h), Limit(h));
      HeapChanged(m, mem[..], h, k, 2, [Block(head, size, true)]);
    }

    /** The last test of `free`. */
    method IsOneFree(heap: int, ghost h: Heap) returns (empty: bool)
      requires HeapAt(mem[..], h) && heap == h.addr && h.blocks != []
      ensures empty <==> AllFree(h.blocks)
    {
      Bounds(h);
      FirstBlock(mem[..], h);
      NextBlock(mem[..], h, 0);
      StartsBelow(h, 1);
      ReadBlock(h.blocks[0], heap);
      var head := mem[heap + 8];
      empty := mem[head + 4] != 0 && mem[heap + 8] + mem[head] == mem[heap + 12];
    }

    /** Freeing every held block, in any order, empties the list of heaps and gives back
        exactly the frames that the allocator has had. */
    method FreeAll(order: seq<Block>)
      requires Valid() && (forall b :: b in order <==> b in Held(layout))
      requires forall i, j :: 0 <= i < j < |order| ==> order[i] != order[j]
      modifies this, mem, frames
      ensures Valid() && heap_list == [] && frames.live == old(Others(frames.live, layout))
    {
      hide HeapAt, LayoutAt, Undisturbed, Release, AllFree;
      var n := 0;
      while n < |order|
        invariant 0 <= n <= |order| && Valid()
        invariant forall b :: b in Held(layout) <==> b in order[n..]
        invariant Others(frames.live, layout) == old(Others(frames.live, layout))
      {
        assert order[n] in order[n..] && order[n..] == [order[n]] + order[n + 1..];
        ghost var i, k :| 0 <= i < |layout| && 0 <= k < |layout[i].blocks| && layout[i].blocks[k] == order[n]
          && !layout[i].blocks[k].free;
        Free(order[n].addr + HEAD_SIZE, i, k);
        n := n + 1;
      }
      assert Held(layout) == {};
      HeapsAreHeld(mem[..], layout, frames.live);
    }

    // -------------------------------------------------------------- clients

    /** A client writes in the payload of a block that it holds. */
    method ClientWrite(at: int, value: int, ghost i: nat, ghost k: nat)
      requires Valid() && i < |layout| && k < |layout[i].blocks| && !layout[i].blocks[k].free
      requires layout[i].blocks[k].addr + HEAD_SIZE <= at < End(layout[i].blocks[k]) - FOOT_SIZE
      modifies mem
      ensures Valid() && mem[at] == value
      ensures Undisturbed(old(mem[..]), mem[..], Held(layout) - {layout[i].blocks[k]})
    {
      ghost var m := mem[..];
      NextBlock(m, layout[i], k);
      mem[at] := value;
      PayloadWrite(m, mem[..], layout[i], k, at);
      PayloadSeen(m, mem[..], layout, frames.live, layout[i].blocks[k], at);
      LayoutChanged(m, mem[..], layout, frames.live, i, layout[i]);
      assert layout[i := layout[i]] == layout;
    }
  }
}

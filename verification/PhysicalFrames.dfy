/** The contract of the frame allocator. Models kernel/mm/falloc.h. */
module PhysicalFrames {

  const FRAME_SIZE := 4096

  /** The frame ranges handed out do not overlap. */
  predicate LiveApart(live: map<int, int>) {
    forall p, q :: p in live && q in live && p != q ==>
      p + live[p] * FRAME_SIZE <= q || q + live[q] * FRAME_SIZE <= p
  }

  datatype FrameEvent =
    | Granted(phys: int, count: int)
    | Refused(count: int)
    | Returned(phys: int, count: int)

  /** The frame allocator: it may refuse, and hands out only what nobody has. */
  class FrameAllocator {
    /** Bytes of memory that it manages. */
    const limit: int
    /** The ranges handed out: address and number of frames. */
    var live: map<int, int>
    ghost var log: seq<FrameEvent>

    ghost predicate Valid()
      reads this
    {
      && LiveApart(live)
      && forall p :: p in live ==> 0 <= p && p % FRAME_SIZE == 0 && 0 < live[p] && p + live[p] * FRAME_SIZE <= limit
    }

    constructor (limit: int)
      ensures Valid() && this.limit == limit && live == map[] && log == []
    {
      this.limit, live, log := limit, map[], [];
    }

    /** `frame_alloc`: the address, or -1 when the request is refused. */
    method Alloc(count: int) returns (phys: int)
      requires Valid() && 0 < count
      modifies this
      ensures Valid()
      ensures phys == -1 ==> live == old(live) && log == old(log) + [Refused(count)]
      ensures phys != -1 ==>
        && 0 <= phys && phys !in old(live) && live == old(live)[phys := count]
        && log == old(log) + [Granted(phys, count)]
    {
      phys := -1;
      if * {
        // it may always refuse
      } else if p :| 0 <= p < limit && p !in live && p % FRAME_SIZE == 0 && p + count * FRAME_SIZE <= limit &&
                     LiveApart(live[p := count]) {
        phys := p;
        live := live[p := count];
      }
      log := log + [if phys == -1 then Refused(count) else Granted(phys, count)];
    }

    /** `frame_free`: succeeds on a range that was handed out. */
    method Free(phys: int, count: int) returns (ok: bool)
      requires Valid()
      modifies this
      ensures Valid() && ok == (phys in old(live) && old(live)[phys] == count)
      ensures live == (if ok then old(live) - {phys} else old(live))
      ensures log == if ok then old(log) + [Returned(phys, count)] else old(log)
    {
      ok := phys in live && live[phys] == count;
      if ok {
        live := live - {phys};
        log := log + [Returned(phys, count)];
      }
    }
  }
}

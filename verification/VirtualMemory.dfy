/** Address spaces over the frame allocator and the translation lookaside buffer.
    Models kernel/mm/vmm.c, the exception handlers of kernel/mm/tlb.c and the address space
    switch of kernel/head.S. */
module VirtualMemory {
  import opened Basics
  import opened PhysicalFrames
  import opened VirtualMap
  import opened TlbCoherence
  import opened TranslationBuffer

  /** `struct vmm` */
  class Vmm {
    const asid: int
    const vma: array<Vma>

    constructor (asid: int)
      ensures this.asid == asid && fresh(vma) && vma.Length == VMAS && forall i :: 0 <= i < VMAS ==> vma[i] == EMPTY
    {
      this.asid := asid;
      vma := new Vma[VMAS](_ => EMPTY);
    }

    /** The search for the place of an area that is placed automatically. */
    method AutoVpn() returns (vpn: int)
      ensures vpn == AutoPlace(vma[..])
    {
      vpn := 0;
      var i := 0;
      while i < vma.Length
        invariant 0 <= i <= vma.Length && vpn == AutoPlace(vma[..i])
      {
        assert vma[..i + 1][..i] == vma[..i];
        if vma[i].valid && vma[i].vpn_base < AUTO_LIMIT && vma[i].vpn_base + vma[i].count > vpn {
          vpn := vma[i].vpn_base + vma[i].count;
        }
        i := i + 1;
      }
      assert vma[..i] == vma[..];
    }

    /** The first empty slot, or the number of slots. */
    method EmptySlot() returns (i: int)
      ensures 0 <= i <= vma.Length && forall k :: 0 <= k < i ==> vma[k].valid
      ensures i < vma.Length ==> !vma[i].valid
    {
      i := 0;
      while i < vma.Length && vma[i].valid
        invariant 0 <= i <= vma.Length && forall k :: 0 <= k < i ==> vma[k].valid
      {
        i := i + 1;
      }
    }

    /** The first slot of an area that begins at a page, or the number of slots. */
    method SlotAt(vpn: int) returns (i: int)
      ensures 0 <= i <= vma.Length && forall k :: 0 <= k < i ==> !(vma[k].valid && vma[k].vpn_base == vpn)
      ensures i < vma.Length ==> vma[i].valid && vma[i].vpn_base == vpn
    {
      i := 0;
      while i < vma.Length && !(vma[i].valid && vma[i].vpn_base == vpn)
        invariant 0 <= i <= vma.Length && forall k :: 0 <= k < i ==> !(vma[k].valid && vma[k].vpn_base == vpn)
      {
        i := i + 1;
      }
    }

    /** `vma_check_user` */
    method CheckUser(addr: int, size: int) returns (ok: bool)
      ensures ok <==> Covered(vma[..], addr / PAGE_SIZE, (addr + size) % ADDRESSES / PAGE_SIZE)
    {
      var vpn_start, vpn_end := addr / PAGE_SIZE, (addr + size) % ADDRESSES / PAGE_SIZE;
      var i := 0;
      while i < vma.Length
        invariant 0 <= i <= vma.Length
        invariant forall k :: 0 <= k < i ==> !(Holds(vma[k], vpn_start) && Holds(vma[k], vpn_end))
      {
        var a := vma[i];
        if a.valid && a.vpn_base <= vpn_start && a.vpn_base + a.count > vpn_start && a.vpn_base <= vpn_end &&
           a.vpn_base + a.count > vpn_end {
          assert Holds(vma[..][i], vpn_start);
          return true;
        }
        i := i + 1;
      }
      return false;
    }

    /** `vmm_mapping_find`, for any slots. */
    method MappingFind(virt: int) returns (rc: Errno, phys: int)
      ensures rc == if Found(vma[..], virt / PAGE_SIZE) == None then EINVAL else EOK
      ensures rc == EOK ==> phys == Found(vma[..], virt / PAGE_SIZE).value * PAGE_SIZE + virt % PAGE_SIZE
    {
      var vpn := virt / PAGE_SIZE;
      var i := 0;
      while i < vma.Length
        invariant 0 <= i <= vma.Length && forall k :: 0 <= k < i ==> !Holds(vma[k], vpn)
      {
        if vma[i].valid && vma[i].vpn_base <= vpn && vma[i].vpn_base + vma[i].count > vpn {
          var pfn := vma[i].pfn_base + (vpn - vma[i].vpn_base);
          FoundFirst(vma[..], i, vpn);
          return EOK, pfn * PAGE_SIZE + virt % PAGE_SIZE;
        }
        i := i + 1;
      }
      FoundNone(vma[..], vpn);
      return EINVAL, 0;
    }
  }

  function Maps(histories: seq<seq<Change>>): (maps: seq<map<int, int>>)
    ensures |maps| == |histories|
    ensures forall i :: 0 <= i < |maps| ==> maps[i] == Replay(histories[i])
  {
    seq(|histories|, i requires 0 <= i < |histories| => Replay(histories[i]))
  }

  /** The memory of one processor, with all address spaces. */
  class Memory {
    const tlb: Tlb
    const frames: FrameAllocator
    var last_asid: int
    /** The address space of the current thread. */
    var vmm: Vmm?
    ghost var spaces: seq<Vmm>
    ghost var areas: seq<seq<Vma>>
    ghost var histories: seq<seq<Change>>

    /** The slots of the address spaces, which have been created in the order of their identifiers. */
    ghost predicate Stored()
      reads this, set s | s in spaces :: s.vma
    {
      && |spaces| == |areas| == |histories| == last_asid <= UNUSED_ASID
      && (forall i :: 0 <= i < |spaces| ==>
            spaces[i].asid == i && spaces[i].vma.Length == VMAS && spaces[i].vma[..] == areas[i])
      && (forall i, j :: 0 <= i < j < |spaces| ==> spaces[i].vma != spaces[j].vma)
      && (vmm != null ==> 0 <= vmm.asid < |spaces| && spaces[vmm.asid] == vmm)
    }

    ghost predicate Sound()
      reads this, tlb, tlb.entries, frames
    {
      && |areas| == |histories|
      && (forall i :: 0 <= i < |areas| ==> Proper(areas[i]) && Stands(areas[i], Replay(histories[i])))
      && Backed(areas, frames.live)
      && Coherent(tlb.entries[..], Maps(histories))
    }

    ghost predicate Valid()
      reads this, set s | s in spaces :: s.vma
      reads tlb, tlb.entries, frames
    {
      && frames.Valid() && frames.limit <= ADDRESSES
      && Stored() && Sound()
      && tlb.wired == 0 && (vmm != null ==> tlb.entryhi.asid == vmm.asid)
    }

    /** The page map of the current address space, after all that has been done to it. */
    ghost function Pages(): map<int, int>
      reads this
    {
      if vmm != null && 0 <= vmm.asid < |histories| then Replay(histories[vmm.asid]) else map[]
    }

    constructor (tlb: Tlb, frames: FrameAllocator)
      requires frames.Valid() && frames.limit <= ADDRESSES && Coherent(tlb.entries[..], []) && tlb.wired == 0
      ensures Valid() && this.tlb == tlb && this.frames == frames && spaces == [] && vmm == null
    {
      this.tlb, this.frames, last_asid, vmm := tlb, frames, 0, null;
      spaces, areas, histories := [], [], [];
    }

    /** `vmm_create`; `memory` says whether there is memory for the structure. */
    method VmmCreate(memory: bool) returns (rc: Errno, pvmm: Vmm?)
      requires Valid() && last_asid < UNUSED_ASID
      modifies this
      ensures Valid() && vmm == old(vmm)
      ensures rc == (if memory then EOK else ENOMEM) && (pvmm == null <==> !memory)
      ensures histories == if memory then old(histories) + [[]] else old(histories)
      ensures memory ==>
        && fresh(pvmm) && fresh(pvmm.vma) && spaces == old(spaces) + [pvmm]
        && pvmm.vma.Length == VMAS && forall i :: 0 <= i < VMAS ==> pvmm.vma[i] == EMPTY
    {
      hide Backed, Coherent, Proper, Stands;
      if !memory {
        return ENOMEM, null;
      }
      var new_vmm := new Vmm(last_asid);
      last_asid := (last_asid + 1) % 256;
      Grow(tlb.entries[..], Maps(histories), Maps(histories + [[]]));
      NoAreas(new_vmm.vma[..]);
      BackNone(areas, frames.live, new_vmm.vma[..]);
      spaces, areas, histories := spaces + [new_vmm], areas + [new_vmm.vma[..]], histories + [[]];
      return EOK, new_vmm;
    }

    /** The address space switch of `cpu_switch_context`. */
    method SwitchTo(next: Vmm)
      requires Valid() && next in spaces
      modifies this`vmm, tlb`entryhi
      ensures Valid() && vmm == next
    {
      tlb.entryhi := tlb.entryhi.(asid := next.asid);
      vmm := next;
    }

    /** The place of a new area: the given address, or the one that is chosen. */
    ghost function Target(auto: bool, from: int): int
      reads this
    {
      if auto && vmm != null && 0 <= vmm.asid < |areas| then AutoPlace(areas[vmm.asid]) else from / PAGE_SIZE
    }

    /** `vma_map` for user addresses; `auto` is the flag VF_VA_AUTO and `place` what is left in `*from`. */
    method VmaMap(auto: bool, from: int, size: int) returns (rc: Errno, place: int, ghost phys: int)
      requires Valid() && vmm != null && 0 <= from < ADDRESSES && 0 < size < ADDRESSES
      requires size % PAGE_SIZE == 0 && (if auto then Target(auto, from) != 0 else from % PAGE_SIZE == 0) ==>
        Room(areas[vmm.asid], Target(auto, from), size / PAGE_SIZE)
      modifies this, frames, vmm.vma
      ensures Valid() && vmm == old(vmm) && spaces == old(spaces)
      ensures rc == EINVAL <==> size % PAGE_SIZE != 0 || (!auto && from % PAGE_SIZE != 0)
      ensures rc == ENOMEM <==>
        && size % PAGE_SIZE == 0 && (auto || from % PAGE_SIZE == 0)
        && (|| (auto && old(Target(auto, from)) == 0)
            || (forall i :: 0 <= i < VMAS ==> old(vmm.vma[i].valid))
            || frames.log == old(frames.log) + [Refused(size / PAGE_SIZE)])
      ensures rc != EOK ==> histories == old(histories) && areas == old(areas) && frames.live == old(frames.live)
      ensures rc == EOK ==>
        && place == old(Target(auto, from)) * PAGE_SIZE && (!auto ==> place == from)
        && phys % PAGE_SIZE == 0 && phys !in old(frames.live)
        && frames.live == old(frames.live)[phys := size / PAGE_SIZE]
        && histories == old(histories)[vmm.asid :=
             old(histories[vmm.asid]) + [Mapped(place / PAGE_SIZE, phys / PAGE_SIZE, size / PAGE_SIZE)]]
      // exactly the pages of the area come into the page map, with consecutive frames
      ensures rc == EOK ==>
        && (forall p :: p in Pages() <==> p in old(Pages()) || 0 <= p - place / PAGE_SIZE < size / PAGE_SIZE)
        && (forall p :: p in Pages() ==>
             Pages()[p] == if p in old(Pages()) then old(Pages())[p] else phys / PAGE_SIZE + (p - place / PAGE_SIZE))
        && (forall p :: p in old(Pages()) ==> !(0 <= p - place / PAGE_SIZE < size / PAGE_SIZE))
    {
      hide Backed, Coherent, Proper, Stands, Replay, LiveApart, AutoPlace;
      place, phys := from, -1;
      if size / PAGE_SIZE * PAGE_SIZE != size {
        return EINVAL, place, phys;
      }
      var count := size / PAGE_SIZE;
      if auto {
        var vpn := vmm.AutoVpn();
        if vpn == 0 {
          return ENOMEM, place, phys;
        }
        place := vpn * PAGE_SIZE % ADDRESSES;
      }
      if place / PAGE_SIZE * PAGE_SIZE != place {
        return EINVAL, place, phys;
      }
      var i := vmm.EmptySlot();
      if i == vmm.vma.Length {
        return ENOMEM, place, phys;
      }
      rc, phys := FillSlot(i, place, count);
    }

    /** The part of `vma_map` that fills an empty slot. */
    method FillSlot(i: int, from: int, count: int) returns (rc: Errno, phys: int)
      requires Valid() && vmm != null && 0 <= i < VMAS && !vmm.vma[i].valid && 0 <= from < ADDRESSES
      requires Room(areas[vmm.asid], from / PAGE_SIZE, count)
      modifies this, frames, vmm.vma
      ensures Valid() && vmm == old(vmm) && spaces == old(spaces)
      ensures rc == EOK || rc == ENOMEM
      ensures rc == ENOMEM <==> frames.log == old(frames.log) + [Refused(count)]
      ensures rc != EOK ==> histories == old(histories) && areas == old(areas) && frames.live == old(frames.live)
      ensures rc == EOK ==>
        && phys % PAGE_SIZE == 0 && phys !in old(frames.live)
        && frames.live == old(frames.live)[phys := count]
        && histories == old(histories)[vmm.asid :=
             old(histories[vmm.asid]) + [Mapped(from / PAGE_SIZE, phys / PAGE_SIZE, count)]]
      ensures rc == EOK ==>
        && (forall p :: p in Pages() <==> p in old(Pages()) || 0 <= p - from / PAGE_SIZE < count)
        && (forall p :: p in Pages() ==>
             Pages()[p] == if p in old(Pages()) then old(Pages())[p] else phys / PAGE_SIZE + (p - from / PAGE_SIZE))
        && (forall p :: p in old(Pages()) ==> !(0 <= p - from / PAGE_SIZE < count))
    {
      hide Backed, Coherent, Proper, Stands, Replay, LiveApart, AutoPlace;
      ghost var live, s := frames.live, vmm.asid;
      phys := frames.Alloc(count);
      if phys == -1 {
        return ENOMEM, phys;
      }
      assert frames.log[|old(frames.log)|] == Granted(phys, count);
      assert phys in frames.live && phys / PAGE_SIZE * PAGE_SIZE == phys;
      ghost var slots, history := areas[s], histories[s];
      var a := Vma(from / PAGE_SIZE, phys / PAGE_SIZE, count, true);
      vmm.vma[i] := a;
      ghost var c := Mapped(a.vpn_base, a.pfn_base, count);
      Mapping(slots, Replay(history), i, a);
      ReplayLast(history, c);
      PagesAdded(slots, Replay(history), c);
      BackMore(areas, live, s, i, a);
      GrowsBy(tlb.entries[..], histories, s, slots, c);
      areas, histories := areas[s := slots[i := a]], histories[s := history + [c]];
      return EOK, phys;
    }

    /** The loop of `vma_unmap` over the pages of the area. */
    method FlushPages(vpn: int, count: int)
      requires vmm != null && 0 <= vmm.asid < |histories| && tlb.entryhi.asid == vmm.asid
      requires Coherent(tlb.entries[..], Maps(histories)) && 0 <= vpn && vpn + count <= PAGES
      modifies tlb, tlb.entries
      ensures Coherent(tlb.entries[..], Maps(histories))
      ensures tlb.entryhi == old(tlb.entryhi) && tlb.wired == old(tlb.wired)
      ensures forall p :: vpn <= p < vpn + count ==> !Translates(tlb.entries[..], vmm.asid, p)
      // no page outside the pairs of these pages is affected
      ensures forall a, p :: a != vmm.asid || p / 2 < vpn / 2 || (vpn + count - 1) / 2 < p / 2 ==>
        Translates(old(tlb.entries[..]), a, p) ==> Translates(tlb.entries[..], a, p)
    {
      hide Backed, Coherent, Proper, Stands, Replay, LiveApart, Translates, Flush;
      ghost var maps := Maps(histories);
      var pos := 0;
      while pos < count
        invariant 0 <= pos && (pos <= count || pos == 0) && tlb.entryhi == old(tlb.entryhi)
        invariant tlb.wired == old(tlb.wired)
        invariant Coherent(tlb.entries[..], maps)
        invariant forall p :: vpn <= p < vpn + pos ==> !Translates(tlb.entries[..], vmm.asid, p)
        invariant forall a, p :: a != vmm.asid || p / 2 < vpn / 2 || (vpn + count - 1) / 2 < p / 2 ==>
          Translates(old(tlb.entries[..]), a, p) ==> Translates(tlb.entries[..], a, p)
      {
        ghost var was := tlb.entries[..];
        ghost var hi := HiOf(vpn + pos, vmm.asid);
        assert (vpn + pos) * PAGE_SIZE / PAGE_SIZE == vpn + pos;
        OneMatch(was, maps, hi);
        Flushed(was, maps, vmm.asid, vpn + pos);
        assert forall i :: 0 <= i < tlb.entries.Length ==> was[i] == tlb.entries[i];
        tlb.TlbFlush((vpn + pos) * PAGE_SIZE);
        pos := pos + 1;
      }
    }

    /** `vma_unmap` */
    method VmaUnmap(from: int) returns (rc: Errno, ghost area: Vma)
      requires Valid() && vmm != null && 0 <= from < ADDRESSES
      modifies this, frames, tlb, tlb.entries, vmm.vma
      ensures Valid() && vmm == old(vmm) && spaces == old(spaces)
      ensures rc == EOK || rc == EINVAL
      ensures rc == EOK <==>
        && from % PAGE_SIZE == 0
        && exists i :: 0 <= i < VMAS && old(vmm.vma[i].valid && vmm.vma[i].vpn_base == from / PAGE_SIZE)
      ensures rc == EINVAL ==> histories == old(histories) && frames.live == old(frames.live)
      ensures rc == EOK ==>
        && area in old(vmm.vma[..]) && area.valid && area.vpn_base == from / PAGE_SIZE
        && frames.live == old(frames.live) - {area.pfn_base * PAGE_SIZE}
        && histories == old(histories)[vmm.asid := old(histories[vmm.asid]) + [Unmapped(area.vpn_base, area.count)]]
        && forall p :: Holds(area, p) ==> !Translates(tlb.entries[..], vmm.asid, p)
      // exactly the pages of the area leave the page map
      ensures rc == EOK ==>
        && (forall p :: p in Pages() <==> p in old(Pages()) && !(area.vpn_base <= p < area.vpn_base + area.count))
        && (forall p :: p in Pages() ==> Pages()[p] == old(Pages())[p])
    {
      hide Backed, Coherent, Proper, Stands, Replay, LiveApart, Translates, Apply, Maps;
      area := EMPTY;
      if from / PAGE_SIZE * PAGE_SIZE != from {
        return EINVAL, area;
      }
      var vpn := from / PAGE_SIZE;
      var i := vmm.SlotAt(vpn);
      if i == vmm.vma.Length {
        return EINVAL, area;
      }
      area := vmm.vma[i];
      ghost var live, s := frames.live, vmm.asid;
      ghost var slots, history := areas[s], histories[s];
      AreaIsBacked(areas, live, s, i);
      var ok := frames.Free(vmm.vma[i].pfn_base * PAGE_SIZE, vmm.vma[i].count);
      if !ok {
        return EINVAL, area;
      }
      FlushPages(vpn, vmm.vma[i].count);
      vmm.vma[i] := vmm.vma[i].(valid := false);
      ghost var c := Unmapped(vpn, area.count);
      Unmapping(slots, Replay(history), i);
      ReplayLast(history, c);
      PagesTaken(Replay(history), c);
      BackLess(areas, live, s, i);
      ShrinksBy(tlb.entries[..], histories, s, c);
      areas, histories := areas[s := slots[i := area.(valid := false)]], histories[s := history + [c]];
      return EOK, area;
    }

    /** `vma_check_user`. A range that is accepted translates everywhere when it does not wrap,
        and otherwise exactly when every page of the address space is mapped. */
    method VmaCheckUser(addr: int, size: int) returns (ok: bool)
      requires Valid() && vmm != null && 0 <= addr < ADDRESSES && 0 <= size < ADDRESSES
      ensures ok <==> Covered(areas[vmm.asid], addr / PAGE_SIZE, PageOf(addr + size))
      ensures ok ==>
        ((forall virt :: addr <= virt <= addr + size ==> PageOf(virt) in Pages()) <==>
         addr + size < ADDRESSES || forall p :: 0 <= p < PAGES ==> p in Pages())
    {
      hide Backed, Coherent, Proper, Stands, Replay, LiveApart, Covered;
      ok := vmm.CheckUser(addr, size);
      if ok {
        if addr + size < ADDRESSES {
          CoveredTranslates(areas[vmm.asid], Pages(), addr, size);
        } else {
          WrappedCheck(areas[vmm.asid], Pages(), addr, size);
        }
      }
    }

    /** `vmm_mapping_find` */
    method VmmMappingFind(virt: int) returns (rc: Errno, phys: int)
      requires Valid() && vmm != null && 0 <= virt < ADDRESSES
      ensures rc == if virt / PAGE_SIZE in Pages() then EOK else EINVAL
      ensures rc == EOK ==> phys == Pages()[virt / PAGE_SIZE] * PAGE_SIZE + virt % PAGE_SIZE
    {
      hide Backed, Coherent, Proper, Stands, Replay, LiveApart;
      rc, phys := vmm.MappingFind(virt);
      FoundIsMapped(vmm.vma[..], Pages(), virt / PAGE_SIZE);
    }

    // -------------------------------------------------------------- exceptions

    /** `wrapped_tlb_refill`, for the address whose access has found no entry; the thread is
        finished when it returns false. */
    method TlbRefill(virt: int, random: int) returns (handled: bool)
      requires Valid() && vmm != null && 0 <= virt < ADDRESSES && 0 <= random < TLB_SIZE
      requires tlb.entryhi == HiOf(virt / PAGE_SIZE, vmm.asid)
      requires forall i :: 0 <= i < tlb.entries.Length ==> !Matches(tlb.entries[i], tlb.entryhi)
      modifies tlb, tlb.entries
      ensures Valid() && tlb.entryhi == old(tlb.entryhi)
      ensures handled <==> virt / PAGE_SIZE in Pages()
      ensures handled ==> Translates(tlb.entries[..], vmm.asid, virt / PAGE_SIZE)
      ensures forall i :: 0 <= i < tlb.entries.Length && i != random ==> tlb.entries[i] == old(tlb.entries[i])
      ensures !handled ==> tlb.entries[..] == old(tlb.entries[..])
    {
      hide Backed, Coherent, Proper, Stands, Replay, LiveApart, Translates;
      ghost var was, maps := tlb.entries[..], Maps(histories);
      var rc, phys := VmmMappingFind(virt);
      if rc != EOK {
        return false;
      }
      var vpn, pfn := virt / PAGE_SIZE, phys / PAGE_SIZE;
      Wide(was, maps);
      TlbCoherence.StoreRandom(was, maps, random, vmm.asid, vpn);
      tlb.StoreRandom(vpn, pfn, random);
      return true;
    }

    /** `tlb_invalid`, for the address whose access has found an invalid entry; the thread is
        finished when it returns false. */
    method TlbInvalid(virt: int, entryhi: EntryHi, random: int) returns (handled: bool)
      requires Valid() && vmm != null && 0 <= virt < ADDRESSES && 0 <= random < TLB_SIZE
      requires entryhi == HiOf(virt / PAGE_SIZE, vmm.asid)
      modifies tlb, tlb.entries
      ensures Valid()
      ensures handled <==> virt / PAGE_SIZE in Pages()
      ensures handled ==> Translates(tlb.entries[..], vmm.asid, virt / PAGE_SIZE) && tlb.entryhi == entryhi
      // nothing that the buffer has translated is lost, unless it was in the entry that is replaced
      ensures (exists i :: 0 <= i < tlb.entries.Length && Matches(old(tlb.entries[i]), entryhi)) ==>
        forall a, p :: Translates(old(tlb.entries[..]), a, p) ==> Translates(tlb.entries[..], a, p)
      ensures (forall i :: 0 <= i < tlb.entries.Length ==> !Matches(old(tlb.entries[i]), entryhi)) ==>
        forall i :: 0 <= i < tlb.entries.Length && i != random ==> tlb.entries[i] == old(tlb.entries[i])
      ensures !handled ==> tlb.entries[..] == old(tlb.entries[..])
    {
      hide Backed, Coherent, Proper, Stands, Replay, LiveApart, Translates;
      ghost var was, maps := tlb.entries[..], Maps(histories);
      var rc, phys := VmmMappingFind(virt);
      if rc != EOK {
        return false;
      }
      var vpn, pfn := virt / PAGE_SIZE, phys / PAGE_SIZE;
      Wide(was, maps);
      OneMatch(was, maps, entryhi);
      assert forall i :: 0 <= i < tlb.entries.Length ==> was[i] == tlb.entries[i];
      tlb.entryhi := entryhi;
      tlb.Probe();
      if tlb.p {
        TlbCoherence.StoreRandom(was, maps, random, vmm.asid, vpn);
        tlb.StoreRandom(vpn, pfn, random);
      } else {
        TlbCoherence.StoreIndexed(was, maps, tlb.index, vmm.asid, vpn);
        tlb.StoreIndexed(vpn, pfn);
      }
      return true;
    }

    /** An access of the current thread to a mapped address: the processor looks into the
        buffer, raises an exception when it has no valid half, and tries again. The result is
        the physical address, or None when the thread is finished. Whatever the buffer holds,
        this is what the page map says. */
    method Access(virt: int, random: int) returns (phys: Option<int>)
      requires Valid() && vmm != null && 0 <= virt < ADDRESSES && 0 <= random < TLB_SIZE
      modifies tlb, tlb.entries
      ensures Valid()
      ensures phys == if virt / PAGE_SIZE in Pages() then Some(Pages()[virt / PAGE_SIZE] * PAGE_SIZE + virt % PAGE_SIZE)
                      else None
    {
      hide Backed, Coherent, Proper, Stands, Replay, LiveApart;
      var vpn := virt / PAGE_SIZE;
      var k := tlb.Search(HiOf(vpn, vmm.asid));
      if k == -1 || !Half(tlb.entries[k], vpn).v {
        tlb.entryhi := HiOf(vpn, vmm.asid);
        var handled: bool;
        if k == -1 {
          handled := TlbRefill(virt, random);
        } else {
          handled := TlbInvalid(virt, tlb.entryhi, random);
        }
        if !handled {
          return None;
        }
        k := tlb.Search(HiOf(vpn, vmm.asid));
        Wide(tlb.entries[..], Maps(histories));
        ghost var i :| 0 <= i < |tlb.entries[..]| && Matches(tlb.entries[..][i], HiOf(vpn, vmm.asid)) &&
          Half(tlb.entries[..][i], vpn).v;
        TlbCoherence.Sound(tlb.entries[..], Maps(histories), vmm.asid, vpn, i);
        assert tlb.entries[..][k] == tlb.entries[k];
      }
      TlbCoherence.Sound(tlb.entries[..], Maps(histories), vmm.asid, vpn, k);
      return Some(Half(tlb.entries[k], vpn).pfn * PAGE_SIZE + virt % PAGE_SIZE);
    }
  }

  lemma ShrinksBy(entries: seq<Entry>, histories: seq<seq<Change>>, s: nat, c: Change)
    requires Coherent(entries, Maps(histories)) && s < |histories| && c.Unmapped?
    requires forall p :: c.vpn <= p < c.vpn + c.count ==> !Translates(entries, s, p)
    ensures Coherent(entries, Maps(histories[s := histories[s] + [c]]))
  {
    hide Coherent, Replay, Translates;
    ReplayLast(histories[s], c);
    var pages := Apply(Replay(histories[s]), c);
    Shrink(entries, Maps(histories), s, pages);
    assert Maps(histories)[s := pages] == Maps(histories[s := histories[s] + [c]]);
  }

  lemma GrowsBy(entries: seq<Entry>, histories: seq<seq<Change>>, s: nat, slots: seq<Vma>, c: Change)
    requires Coherent(entries, Maps(histories)) && s < |histories| && c.Mapped?
    requires Stands(slots, Replay(histories[s])) && Room(slots, c.vpn, c.count)
    ensures Coherent(entries, Maps(histories[s := histories[s] + [c]]))
  {
    hide Coherent, Replay;
    ReplayLast(histories[s], c);
    var old_map := Replay(histories[s]);
    forall p | p in old_map ensures p in Apply(old_map, c) && Apply(old_map, c)[p] == old_map[p] {
      assert SomeHolds(slots, p);
    }
    Wide(entries, Maps(histories));
    Grow(entries, Maps(histories), Maps(histories[s := histories[s] + [c]]));
  }

  lemma AreaIsBacked(areas: seq<seq<Vma>>, live: map<int, int>, s: nat, i: nat)
    requires Backed(areas, live) && s < |areas| && i < |areas[s]| && areas[s][i].valid && Proper(areas[s])
    ensures areas[s][i].pfn_base * PAGE_SIZE in live && live[areas[s][i].pfn_base * PAGE_SIZE] == areas[s][i].count
    ensures 0 <= areas[s][i].vpn_base && Top(areas[s][i]) <= PAGES
  {
  }

  lemma Wide(entries: seq<Entry>, maps: seq<map<int, int>>)
    requires Coherent(entries, maps)
    ensures |maps| <= UNUSED_ASID && |entries| == TLB_SIZE
    ensures forall i :: 0 <= i < |entries| ==> !entries[i].g
  {
    assert forall i :: 0 <= i < |entries| ==> EntryAgrees(entries[i], maps);
  }
}

/** The translation lookaside buffer and the functions that manage it.
    Models kernel/mm/tlb.c up to the exception handlers. */
module TranslationBuffer {
  import opened TlbCoherence
  import opened VirtualMap

  /** The buffer with the registers that give access to it. */
  class Tlb {
    const entries: array<Entry>
    var entryhi: EntryHi
    var entrylo0: EntryLo
    var entrylo1: EntryLo
    var pagemask: int
    var wired: int
    /** The Index register, and its bit for a probe that has failed. */
    var index: int
    var p: bool

    // -------------------------------------------------------------- instructions

    /** TLBR */
    method Read()
      requires 0 <= index < entries.Length
      modifies this`entryhi, this`entrylo0, this`entrylo1, this`pagemask
      ensures var e := entries[index];
        entryhi == e.hi && pagemask == e.mask && entrylo0 == e.lo0.(g := e.g) && entrylo1 == e.lo1.(g := e.g)
    {
      var e := entries[index];
      entryhi, pagemask := e.hi, e.mask;
      entrylo0, entrylo1 := e.lo0.(g := e.g), e.lo1.(g := e.g);
    }

    /** TLBP; the processor demands that at most one entry matches. */
    method Probe()
      requires forall i, j :: 0 <= i < j < entries.Length && Matches(entries[i], entryhi) ==>
        !Matches(entries[j], entryhi)
      modifies this`index, this`p
      ensures p <==> forall i :: 0 <= i < entries.Length ==> !Matches(entries[i], entryhi)
      ensures !p ==> 0 <= index < entries.Length && Matches(entries[index], entryhi)
    {
      var i := 0;
      while i < entries.Length
        invariant 0 <= i <= entries.Length && entryhi == old(entryhi)
        invariant forall k :: 0 <= k < i ==> !Matches(entries[k], entryhi)
      {
        if Matches(entries[i], entryhi) {
          index, p := i, false;
          return;
        }
        i := i + 1;
      }
      p := true;
    }

    /** The processor's own search: the index of a matching entry, or -1. */
    method Search(hi: EntryHi) returns (k: int)
      ensures k == -1 || (0 <= k < entries.Length && Matches(entries[k], hi))
      ensures k == -1 ==> forall i :: 0 <= i < entries.Length ==> !Matches(entries[i], hi)
    {
      k := 0;
      while k < entries.Length && !Matches(entries[k], hi)
        invariant 0 <= k <= entries.Length && forall i :: 0 <= i < k ==> !Matches(entries[i], hi)
      {
        k := k + 1;
      }
      if k == entries.Length {
        k := -1;
      }
    }

    function Assembled(): Entry
      reads this
    {
      var g := entrylo0.g && entrylo1.g;
      Entry(pagemask, entryhi, g, entrylo0.(g := g), entrylo1.(g := g))
    }

    /** TLBWI */
    method WriteIndexed()
      requires 0 <= index < entries.Length
      modifies entries
      ensures entries[..] == old(entries[..])[index := Assembled()]
    {
      entries[index] := Assembled();
    }

    /** TLBWR, with the value of the Random register. */
    method WriteRandom(random: int)
      requires 0 <= wired <= random < entries.Length
      modifies entries
      ensures entries[..] == old(entries[..])[random := Assembled()]
    {
      entries[random] := Assembled();
    }

    // -------------------------------------------------------------- tlb.c

    /** `tlb_init`; what the registers and the buffer hold before is arbitrary. */
    constructor (was: array<Entry>)
      requires was.Length == TLB_SIZE
      modifies was
      ensures entries == was && wired == 0 && Coherent(entries[..], []) && entryhi.asid == UNUSED_ASID
    {
      entries := was;
      wired, pagemask := 0, PAGEMASK_4K;
      entrylo0, entrylo1 := INVALID, INVALID;
      entryhi := EntryHi(0, UNUSED_ASID);
      new;
      var i := 0;
      while i < TLB_SIZE
        invariant 0 <= i <= TLB_SIZE && entries == was
        invariant wired == 0 && entryhi == EntryHi(0, UNUSED_ASID)
        invariant Assembled() == Entry(PAGEMASK_4K, entryhi, false, INVALID, INVALID)
        invariant forall k :: 0 <= k < i ==>
          entries[k] == Entry(PAGEMASK_4K, EntryHi(0, UNUSED_ASID), false, INVALID, INVALID)
      {
        index := i;
        ghost var before := entries[..];
        WriteIndexed();
        assert forall k :: 0 <= k < TLB_SIZE ==> entries[..][k] == entries[k];
        i := i + 1;
      }
      Cleared(entries[..]);
    }

    /** `tlb_store_indexed` */
    method StoreIndexed(vpn: int, pfn: int)
      requires 0 <= index < entries.Length && !entries[index].g
      modifies this, entries
      ensures entries[..] == old(entries[..])[old(index) := WithHalf(old(entries[index]), vpn, pfn)]
      // the half for the page is valid, and the other one stays
      ensures forall k :: 0 <= k < entries.Length && k != old(index) ==> entries[k] == old(entries[k])
      ensures
        var was, now := old(entries[index]), entries[old(index)];
        && now.hi == was.hi && now.mask == PAGEMASK_4K && !now.g
        && (if vpn % 2 == 0 then now.lo0 == EntryLo(pfn, true, true, false) && now.lo1 == was.lo1.(g := false)
            else now.lo1 == EntryLo(pfn, true, true, false) && now.lo0 == was.lo0.(g := false))
      ensures entryhi == old(entries[index].hi) && wired == old(wired)
    {
      Read();
      pagemask := PAGEMASK_4K;
      if vpn % 2 == 0 {
        entrylo0 := EntryLo(pfn, true, true, false);
      } else {
        entrylo1 := EntryLo(pfn, true, true, false);
      }
      WriteIndexed();
    }

    /** `tlb_store_random` */
    method StoreRandom(vpn: int, pfn: int, random: int)
      requires 0 <= wired <= random < entries.Length
      modifies this, entries
      ensures entries[..] == old(entries[..])[random := OnlyHalf(entryhi, vpn, pfn)]
      // the half for the page is valid, and the other one is not
      ensures forall k :: 0 <= k < entries.Length && k != random ==> entries[k] == old(entries[k])
      ensures entries[random] == if vpn % 2 == 0
        then Entry(PAGEMASK_4K, entryhi, false, EntryLo(pfn, true, true, false), INVALID)
        else Entry(PAGEMASK_4K, entryhi, false, INVALID, EntryLo(pfn, true, true, false))
      ensures entryhi == old(entryhi) && wired == old(wired)
    {
      pagemask := PAGEMASK_4K;
      if vpn % 2 == 0 {
        entrylo0, entrylo1 := EntryLo(pfn, true, true, false), INVALID;
      } else {
        entrylo0, entrylo1 := INVALID, EntryLo(pfn, true, true, false);
      }
      WriteRandom(random);
    }

    /** `tlb_flush` */
    method TlbFlush(addr: int)
      requires 0 <= addr < ADDRESSES
      requires forall i, j ::
        0 <= i < j < entries.Length && Matches(entries[i], HiOf(addr / PAGE_SIZE, entryhi.asid)) ==>
        !Matches(entries[j], HiOf(addr / PAGE_SIZE, entryhi.asid))
      modifies this, entries
      ensures entries[..] == Flush(old(entries[..]), HiOf(addr / PAGE_SIZE, entryhi.asid))
      // both halves of what matches are invalid, and all else stays
      ensures forall k :: 0 <= k < entries.Length ==>
        if Matches(old(entries[k]), HiOf(addr / PAGE_SIZE, entryhi.asid))
        then entries[k].hi == HiOf(addr / PAGE_SIZE, entryhi.asid) && !entries[k].lo0.v && !entries[k].lo1.v
        else entries[k] == old(entries[k])
      ensures entryhi == old(entryhi) && wired == old(wired)
    {
      ghost var was := entries[..];
      var hi := entryhi;
      entryhi := entryhi.(vpn2 := addr / PAGE_SIZE / 2);
      Probe();
      if !p {
        pagemask := PAGEMASK_4K;
        entrylo0, entrylo1 := INVALID, INVALID;
        WriteIndexed();
      }
      entryhi := hi;
      assert forall k :: 0 <= k < |was| ==> was[k] == old(entries[k]);
    }
  }
}

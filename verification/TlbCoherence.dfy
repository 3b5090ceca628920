/** The contents of the translation lookaside buffer, and when it agrees with the page maps
    of the address spaces. Models the data of kernel/mm/tlb.c. */
module TlbCoherence {
  const TLB_SIZE := 48
  const PAGEMASK_4K := 0
  /** The address space identifier that is never given to an address space. */
  const UNUSED_ASID := 255

  datatype EntryHi = EntryHi(vpn2: int, asid: int)

  /** `d`: may be written to, `v`: valid, `g`: for all address spaces. */
  datatype EntryLo = EntryLo(pfn: int, d: bool, v: bool, g: bool)

  const INVALID := EntryLo(0, false, false, false)

  datatype Entry = Entry(mask: int, hi: EntryHi, g: bool, lo0: EntryLo, lo1: EntryLo)

  /** What a probe with `hi` finds, for entries of 4 KB pages. */
  predicate Matches(e: Entry, hi: EntryHi) {
    e.hi.vpn2 == hi.vpn2 && (e.g || e.hi.asid == hi.asid)
  }

  function Half(e: Entry, vpn: int): EntryLo {
    if vpn % 2 == 0 then e.lo0 else e.lo1
  }

  function HiOf(vpn: int, asid: int): EntryHi {
    EntryHi(vpn / 2, asid)
  }

  /** Whether the buffer translates a page of an address space. */
  ghost predicate Translates(tlb: seq<Entry>, asid: int, vpn: int) {
    exists i :: 0 <= i < |tlb| && Matches(tlb[i], HiOf(vpn, asid)) && Half(tlb[i], vpn).v
  }

  // ---------------------------------------------------------------- agreement

  predicate HalfAgrees(lo: EntryLo, pages: map<int, int>, vpn: int) {
    lo.v ==> vpn in pages && lo.pfn == pages[vpn] && lo.d
  }

  /** An entry is unused, or agrees with the page map of its address space. */
  predicate EntryAgrees(e: Entry, maps: seq<map<int, int>>) {
    && e.mask == PAGEMASK_4K && !e.g
    && if e.hi.asid == UNUSED_ASID then !e.lo0.v && !e.lo1.v
       else
         && 0 <= e.hi.asid < |maps|
         && HalfAgrees(e.lo0, maps[e.hi.asid], 2 * e.hi.vpn2)
         && HalfAgrees(e.lo1, maps[e.hi.asid], 2 * e.hi.vpn2 + 1)
  }

  /** Every valid half agrees with the page map of its address space, and no two entries
      match the same pair of pages of an address space. */
  ghost predicate Coherent(tlb: seq<Entry>, maps: seq<map<int, int>>) {
    && |tlb| == TLB_SIZE && |maps| <= UNUSED_ASID
    && (forall i :: 0 <= i < |tlb| ==> EntryAgrees(tlb[i], maps))
    && (forall i, j :: 0 <= i < j < |tlb| && tlb[i].hi.asid != UNUSED_ASID ==> tlb[i].hi != tlb[j].hi)
  }

  /** All that a coherent buffer translates is as the page map says. */
  lemma Sound(tlb: seq<Entry>, maps: seq<map<int, int>>, asid: int, vpn: int, i: nat)
    requires Coherent(tlb, maps) && 0 <= asid < |maps| && i < |tlb|
    requires Matches(tlb[i], HiOf(vpn, asid)) && Half(tlb[i], vpn).v
    ensures vpn in maps[asid] && Half(tlb[i], vpn).pfn == maps[asid][vpn]
    ensures forall j :: 0 <= j < |tlb| && Matches(tlb[j], HiOf(vpn, asid)) ==> j == i
  {
    assert EntryAgrees(tlb[i], maps);
    assert vpn == 2 * (vpn / 2) + vpn % 2;
    forall j | 0 <= j < |tlb| && Matches(tlb[j], HiOf(vpn, asid)) ensures j == i {
      assert EntryAgrees(tlb[j], maps);
    }
  }

  lemma OneMatch(tlb: seq<Entry>, maps: seq<map<int, int>>, hi: EntryHi)
    requires Coherent(tlb, maps) && 0 <= hi.asid < |maps|
    ensures forall i :: 0 <= i < |tlb| && Matches(tlb[i], hi) ==> tlb[i].hi == hi
    ensures forall i, j :: 0 <= i < j < |tlb| && Matches(tlb[i], hi) ==> !Matches(tlb[j], hi)
  {
    assert forall i :: 0 <= i < |tlb| ==> EntryAgrees(tlb[i], maps);
  }

  /** The buffer of `tlb_init` agrees with anything. */
  lemma Cleared(tlb: seq<Entry>)
    requires |tlb| == TLB_SIZE
    requires forall i :: 0 <= i < |tlb| ==>
      tlb[i] == Entry(PAGEMASK_4K, EntryHi(0, UNUSED_ASID), false, INVALID, INVALID)
    ensures Coherent(tlb, [])
  {
  }

  /** Replacing an entry by one that agrees, when no other entry matches it. */
  lemma Store(tlb: seq<Entry>, maps: seq<map<int, int>>, i: nat, e: Entry)
    requires Coherent(tlb, maps) && i < |tlb| && EntryAgrees(e, maps)
    requires e.hi.asid != UNUSED_ASID && forall j :: 0 <= j < |tlb| && j != i ==> !Matches(tlb[j], e.hi)
    ensures Coherent(tlb[i := e], maps)
  {
    var now := tlb[i := e];
    forall k, j | 0 <= k < j < |now| && now[k].hi.asid != UNUSED_ASID ensures now[k].hi != now[j].hi {
      assert EntryAgrees(tlb[k], maps) && EntryAgrees(tlb[j], maps);
      assert k == i ==> !Matches(tlb[j], e.hi);
      assert j == i ==> !Matches(tlb[k], e.hi);
    }
  }

  /** A valid half for one page. */
  function Valid(pfn: int): EntryLo {
    EntryLo(pfn, true, true, false)
  }

  /** The entry with the half for a page replaced. */
  function WithHalf(e: Entry, vpn: int, pfn: int): Entry {
    if vpn % 2 == 0
    then Entry(PAGEMASK_4K, e.hi, false, Valid(pfn), e.lo1.(g := false))
    else Entry(PAGEMASK_4K, e.hi, false, e.lo0.(g := false), Valid(pfn))
  }

  /** The entry that translates one page and not the other of the pair. */
  function OnlyHalf(hi: EntryHi, vpn: int, pfn: int): Entry {
    WithHalf(Entry(PAGEMASK_4K, hi, false, INVALID, INVALID), vpn, pfn)
  }

  /** The buffer without what matches `hi`. */
  function Flush(tlb: seq<Entry>, hi: EntryHi): (r: seq<Entry>)
    ensures |r| == |tlb|
  {
    seq(|tlb|, i requires 0 <= i < |tlb| =>
      if Matches(tlb[i], hi) then Entry(PAGEMASK_4K, hi, false, INVALID, INVALID) else tlb[i])
  }

  lemma StoreIndexed(tlb: seq<Entry>, maps: seq<map<int, int>>, i: nat, asid: int, vpn: int)
    requires Coherent(tlb, maps) && i < |tlb| && 0 <= asid < |maps| && vpn in maps[asid]
    requires Matches(tlb[i], HiOf(vpn, asid))
    ensures Coherent(tlb[i := WithHalf(tlb[i], vpn, maps[asid][vpn])], maps)
    ensures Translates(tlb[i := WithHalf(tlb[i], vpn, maps[asid][vpn])], asid, vpn)
    ensures forall a, p :: Translates(tlb, a, p) ==> Translates(tlb[i := WithHalf(tlb[i], vpn, maps[asid][vpn])], a, p)
  {
    var e := WithHalf(tlb[i], vpn, maps[asid][vpn]);
    assert EntryAgrees(tlb[i], maps);
    assert vpn == 2 * (vpn / 2) + vpn % 2;
    OneMatch(tlb, maps, e.hi);
    Store(tlb, maps, i, e);
    var now := tlb[i := e];
    assert Matches(now[i], HiOf(vpn, asid)) && Half(now[i], vpn).v;
    forall a, p | Translates(tlb, a, p) ensures Translates(now, a, p) {
      var k :| 0 <= k < |tlb| && Matches(tlb[k], HiOf(p, a)) && Half(tlb[k], p).v;
      assert Matches(now[k], HiOf(p, a)) && Half(now[k], p).v;
    }
  }

  lemma StoreRandom(tlb: seq<Entry>, maps: seq<map<int, int>>, i: nat, asid: int, vpn: int)
    requires Coherent(tlb, maps) && i < |tlb| && 0 <= asid < |maps| && vpn in maps[asid]
    requires forall j :: 0 <= j < |tlb| ==> !Matches(tlb[j], HiOf(vpn, asid))
    ensures Coherent(tlb[i := OnlyHalf(HiOf(vpn, asid), vpn, maps[asid][vpn])], maps)
    ensures Translates(tlb[i := OnlyHalf(HiOf(vpn, asid), vpn, maps[asid][vpn])], asid, vpn)
  {
    var e := OnlyHalf(HiOf(vpn, asid), vpn, maps[asid][vpn]);
    assert vpn == 2 * (vpn / 2) + vpn % 2;
    Store(tlb, maps, i, e);
    assert Matches(tlb[i := e][i], HiOf(vpn, asid)) && Half(tlb[i := e][i], vpn).v;
  }

  /** Flushing a page leaves no translation of it, adds none of any other, and takes none away
      but that of the other page of the pair. */
  lemma Flushed(tlb: seq<Entry>, maps: seq<map<int, int>>, asid: int, vpn: int)
    requires Coherent(tlb, maps) && 0 <= asid < |maps|
    ensures Coherent(Flush(tlb, HiOf(vpn, asid)), maps)
    ensures !Translates(Flush(tlb, HiOf(vpn, asid)), asid, vpn)
    ensures forall a, p :: Translates(Flush(tlb, HiOf(vpn, asid)), a, p) ==> Translates(tlb, a, p)
    ensures forall a, p :: Translates(tlb, a, p) && !(a == asid && p / 2 == vpn / 2) ==>
      Translates(Flush(tlb, HiOf(vpn, asid)), a, p)
  {
    var hi := HiOf(vpn, asid);
    var now := Flush(tlb, hi);
    OneMatch(tlb, maps, hi);
    forall i | 0 <= i < |now| ensures EntryAgrees(now[i], maps) && now[i].hi == tlb[i].hi {
      assert EntryAgrees(tlb[i], maps);
    }
    forall a, p | Translates(now, a, p) ensures Translates(tlb, a, p) {
      var i :| 0 <= i < |now| && Matches(now[i], HiOf(p, a)) && Half(now[i], p).v;
      assert now[i] == tlb[i];
    }
    forall a, p | Translates(tlb, a, p) && !(a == asid && p / 2 == vpn / 2) ensures Translates(now, a, p) {
      var i :| 0 <= i < |tlb| && Matches(tlb[i], HiOf(p, a)) && Half(tlb[i], p).v;
      assert EntryAgrees(tlb[i], maps) && now[i] == tlb[i];
    }
  }

  /** A larger page map, or one more address space, agrees with all that agreed before. */
  lemma Grow(tlb: seq<Entry>, maps: seq<map<int, int>>, more: seq<map<int, int>>)
    requires Coherent(tlb, maps) && |maps| <= |more| <= UNUSED_ASID
    requires forall a, p :: 0 <= a < |maps| && p in maps[a] ==> p in more[a] && more[a][p] == maps[a][p]
    ensures Coherent(tlb, more)
  {
    forall i | 0 <= i < |tlb| ensures EntryAgrees(tlb[i], more) {
      assert EntryAgrees(tlb[i], maps);
    }
  }

  /** Pages may leave the page map exactly when the buffer does not translate them. */
  lemma Shrink(tlb: seq<Entry>, maps: seq<map<int, int>>, asid: nat, pages: map<int, int>)
    requires Coherent(tlb, maps) && asid < |maps|
    requires forall p :: p in pages ==> p in maps[asid] && maps[asid][p] == pages[p]
    ensures Coherent(tlb, maps[asid := pages]) <==>
      forall p :: p in maps[asid] && p !in pages ==> !Translates(tlb, asid, p)
  {
    var now := maps[asid := pages];
    if Coherent(tlb, now) {
      forall p | p in maps[asid] && p !in pages ensures !Translates(tlb, asid, p) {
        forall i | 0 <= i < |tlb| && Matches(tlb[i], HiOf(p, asid)) ensures !Half(tlb[i], p).v {
          if Half(tlb[i], p).v {
            Sound(tlb, now, asid, p, i);
          }
        }
      }
    }
    if forall p :: p in maps[asid] && p !in pages ==> !Translates(tlb, asid, p) {
      StillCoherent(tlb, maps, asid, pages);
    }
  }

  lemma StillCoherent(tlb: seq<Entry>, maps: seq<map<int, int>>, asid: nat, pages: map<int, int>)
    requires Coherent(tlb, maps) && asid < |maps|
    requires forall p :: p in pages ==> p in maps[asid] && maps[asid][p] == pages[p]
    requires forall p :: p in maps[asid] && p !in pages ==> !Translates(tlb, asid, p)
    ensures Coherent(tlb, maps[asid := pages])
  {
    var now := maps[asid := pages];
    forall i | 0 <= i < |tlb| ensures EntryAgrees(tlb[i], now) {
      var e := tlb[i];
      assert EntryAgrees(e, maps);
      if e.hi.asid == asid {
        forall p | p == 2 * e.hi.vpn2 || p == 2 * e.hi.vpn2 + 1 ensures HalfAgrees(Half(e, p), pages, p) {
          assert Matches(tlb[i], HiOf(p, asid));
          assert HalfAgrees(Half(e, p), maps[asid], p);
        }
        assert HalfAgrees(Half(e, 2 * e.hi.vpn2), pages, 2 * e.hi.vpn2);
        assert HalfAgrees(Half(e, 2 * e.hi.vpn2 + 1), pages, 2 * e.hi.vpn2 + 1);
      }
    }
  }
}

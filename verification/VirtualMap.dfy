/** Virtual memory maps: the array of areas of an address space, and the page map that it
    stands for. Models the data of kernel/mm/vmm.c and kernel/mm/vmm.h. */
module VirtualMap {
  import opened Basics
  import opened PhysicalFrames

  const VMAS := 100
  const PAGE_SIZE := 4096
  const ADDRESSES := 0x1_0000_0000
  /** The number of pages of the virtual address space. */
  const PAGES := 0x10_0000
  /** Only areas that begin below this page count when an area is placed automatically. */
  const AUTO_LIMIT := 0x40000

  datatype Vma = Vma(vpn_base: int, pfn_base: int, count: int, valid: bool)

  /** What has been done to an address space. */
  datatype Change =
    | Mapped(vpn: int, pfn: int, count: int)
    | Unmapped(vpn: int, count: int)

  const EMPTY := Vma(0, 0, 0, false)

  function Top(a: Vma): int {
    a.vpn_base + a.count
  }

  predicate Holds(a: Vma, vpn: int) {
    a.valid && a.vpn_base <= vpn < Top(a)
  }

  predicate Apart(a: Vma, vpn: int, count: int) {
    a.valid ==> Top(a) <= vpn || vpn + count <= a.vpn_base
  }

  /** Valid areas are not empty, lie in the address space, and are disjoint. */
  ghost predicate Proper(slots: seq<Vma>) {
    && (forall i :: 0 <= i < |slots| && slots[i].valid ==>
          0 <= slots[i].vpn_base && 0 < slots[i].count && Top(slots[i]) <= PAGES && 0 <= slots[i].pfn_base)
    && (forall i, j :: 0 <= i < j < |slots| && slots[i].valid ==> Apart(slots[j], slots[i].vpn_base, slots[i].count))
  }

  /** Whether an area may be put at `vpn`. */
  ghost predicate Room(slots: seq<Vma>, vpn: int, count: int) {
    && 0 <= vpn && 0 < count && vpn + count <= PAGES
    && forall i :: 0 <= i < |slots| ==> Apart(slots[i], vpn, count)
  }

  // ---------------------------------------------------------------- the page map

  function FrameAt(vpn: int, pfn: int, p: int): int {
    pfn + (p - vpn)
  }

  function AreaPages(vpn: int, pfn: int, count: int): map<int, int> {
    map p | vpn <= p < vpn + count :: FrameAt(vpn, pfn, p)
  }

  function Apply(pages: map<int, int>, c: Change): map<int, int> {
    match c
    case Mapped(vpn, pfn, count) => pages + AreaPages(vpn, pfn, count)
    case Unmapped(vpn, count) => map p | p in pages && !(vpn <= p < vpn + count) :: pages[p]
  }

  /** The page map that a history of mapping and unmapping leads to. */
  function Replay(history: seq<Change>): map<int, int> {
    if history == [] then map[] else Apply(Replay(history[..|history| - 1]), history[|history| - 1])
  }

  lemma ReplayLast(history: seq<Change>, c: Change)
    ensures Replay(history + [c]) == Apply(Replay(history), c)
  {
    assert (history + [c])[..|history|] == history;
  }

  ghost predicate SomeHolds(slots: seq<Vma>, vpn: int) {
    exists i :: 0 <= i < |slots| && Holds(slots[i], vpn)
  }

  /** The areas stand for the page map: the same pages, at the same offsets. */
  ghost predicate Stands(slots: seq<Vma>, pages: map<int, int>) {
    && (forall p :: p in pages <==> SomeHolds(slots, p))
    && (forall i, p :: 0 <= i < |slots| && Holds(slots[i], p) ==>
          p in pages && pages[p] == slots[i].pfn_base + (p - slots[i].vpn_base))
  }

  lemma NoAreas(slots: seq<Vma>)
    requires forall i :: 0 <= i < |slots| ==> !slots[i].valid
    ensures Proper(slots) && Stands(slots, Replay([]))
  {
  }

  lemma Mapping(slots: seq<Vma>, pages: map<int, int>, i: nat, a: Vma)
    requires Proper(slots) && Stands(slots, pages) && i < |slots| && !slots[i].valid
    requires a.valid && 0 <= a.pfn_base && Room(slots, a.vpn_base, a.count)
    ensures Proper(slots[i := a])
    ensures Stands(slots[i := a], Apply(pages, Mapped(a.vpn_base, a.pfn_base, a.count)))
  {
    var now := slots[i := a];
    var after := Apply(pages, Mapped(a.vpn_base, a.pfn_base, a.count));
    forall p ensures p in after <==> SomeHolds(now, p) {
      if SomeHolds(slots, p) {
        var k :| 0 <= k < |slots| && Holds(slots[k], p);
        assert Holds(now[k], p);
      }
      if Holds(a, p) {
        assert Holds(now[i], p);
      }
    }
    forall k, p | 0 <= k < |now| && Holds(now[k], p)
      ensures p in after && after[p] == now[k].pfn_base + (p - now[k].vpn_base)
    {
      assert k != i ==> Apart(slots[k], a.vpn_base, a.count) && now[k] == slots[k];
    }
  }

  /** The pages of a new area come into the page map, and all others keep their frames. */
  lemma PagesAdded(slots: seq<Vma>, pages: map<int, int>, c: Change)
    requires c.Mapped? && Stands(slots, pages) && Room(slots, c.vpn, c.count)
    ensures
      var after := Apply(pages, c);
      && (forall p :: p in after <==> p in pages || 0 <= p - c.vpn < c.count)
      && (forall p :: p in after ==> after[p] == if p in pages then pages[p] else c.pfn + (p - c.vpn))
      && (forall p :: p in pages ==> !(0 <= p - c.vpn < c.count))
  {
    forall p | p in pages ensures !(0 <= p - c.vpn < c.count) {
      assert SomeHolds(slots, p);
    }
  }

  lemma PagesTaken(pages: map<int, int>, c: Change)
    requires c.Unmapped?
    ensures
      var after := Apply(pages, c);
      && (forall p :: p in after <==> p in pages && !(c.vpn <= p < c.vpn + c.count))
      && (forall p :: p in after ==> after[p] == pages[p])
  {
  }

  lemma Unmapping(slots: seq<Vma>, pages: map<int, int>, i: nat)
    requires Proper(slots) && Stands(slots, pages) && i < |slots| && slots[i].valid
    ensures Proper(slots[i := slots[i].(valid := false)])
    ensures Stands(slots[i := slots[i].(valid := false)], Apply(pages, Unmapped(slots[i].vpn_base, slots[i].count)))
  {
    var a := slots[i];
    var now := slots[i := a.(valid := false)];
    var after := Apply(pages, Unmapped(a.vpn_base, a.count));
    forall k, p | 0 <= k < |slots| && k != i && Holds(slots[k], p) ensures !Holds(a, p) {
      assert k < i ==> Apart(slots[i], slots[k].vpn_base, slots[k].count);
      assert i < k ==> Apart(slots[k], a.vpn_base, a.count);
    }
    forall p ensures p in after <==> SomeHolds(now, p) {
      if SomeHolds(slots, p) {
        var k :| 0 <= k < |slots| && Holds(slots[k], p);
        assert k != i ==> Holds(now[k], p);
      }
      if SomeHolds(now, p) {
        var k :| 0 <= k < |now| && Holds(now[k], p);
        assert k != i && Holds(slots[k], p);
      }
    }
    forall k, p | 0 <= k < |now| && Holds(now[k], p)
      ensures p in after && after[p] == now[k].pfn_base + (p - now[k].vpn_base)
    {
      assert k != i && Holds(slots[k], p);
    }
  }

  // ---------------------------------------------------------------- areas that overlap

  /** The frame of a page, by the first slot that holds it. */
  function Found(slots: seq<Vma>, p: int): Option<int> {
    if slots == [] then None
    else if Holds(slots[0], p) then Some(slots[0].pfn_base + (p - slots[0].vpn_base))
    else Found(slots[1..], p)
  }

  lemma {:induction false} FoundFirst(slots: seq<Vma>, i: nat, p: int)
    requires i < |slots| && Holds(slots[i], p) && forall k :: 0 <= k < i ==> !Holds(slots[k], p)
    ensures Found(slots, p) == Some(slots[i].pfn_base + (p - slots[i].vpn_base))
  {
    if i > 0 {
      FoundFirst(slots[1..], i - 1, p);
    }
  }

  lemma {:induction false} FoundNone(slots: seq<Vma>, p: int)
    ensures Found(slots, p) == None <==> !SomeHolds(slots, p)
  {
    if slots != [] {
      FoundNone(slots[1..], p);
      if SomeHolds(slots[1..], p) {
        var k :| 0 <= k < |slots[1..]| && Holds(slots[1..][k], p);
        assert Holds(slots[k + 1], p);
      }
      if SomeHolds(slots, p) && !Holds(slots[0], p) {
        var k :| 0 <= k < |slots| && Holds(slots[k], p);
        assert Holds(slots[1..][k - 1], p);
      }
    }
  }

  /** Where the areas stand for a page map, the search finds what it says. */
  lemma FoundIsMapped(slots: seq<Vma>, pages: map<int, int>, p: int)
    requires Stands(slots, pages)
    ensures Found(slots, p) == if p in pages then Some(pages[p]) else None
  {
    FoundNone(slots, p);
    if SomeHolds(slots, p) {
      var i := FirstHolder(slots, p);
      FoundFirst(slots, i, p);
    }
  }

  lemma FirstHolder(slots: seq<Vma>, p: int) returns (i: nat)
    requires SomeHolds(slots, p)
    ensures i < |slots| && Holds(slots[i], p) && forall k :: 0 <= k < i ==> !Holds(slots[k], p)
  {
    i := 0;
    while !Holds(slots[i], p)
      invariant i < |slots| && forall k :: 0 <= k < i ==> !Holds(slots[k], p)
      decreases |slots| - i
    {
      i := i + 1;
    }
  }

  /** For any slots and any new area over frames that no other area has: all pages, old and new, are
      found at their frames exactly when no page of the new area was mapped before. */
  lemma OverlapHides(slots: seq<Vma>, i: nat, a: Vma)
    requires i < |slots| && !slots[i].valid && a.valid
    requires forall k, p :: 0 <= k < |slots| && Holds(slots[k], p) && Holds(a, p) ==>
      slots[k].pfn_base + (p - slots[k].vpn_base) != a.pfn_base + (p - a.vpn_base)
    ensures
      && (forall p :: Holds(a, p) ==> Found(slots[i := a], p) == Some(a.pfn_base + (p - a.vpn_base)))
      && (forall p :: Found(slots, p) != None ==> Found(slots[i := a], p) == Found(slots, p))
      <==> forall p :: Holds(a, p) ==> Found(slots, p) == None
  {
    var now := slots[i := a];
    if forall p :: Holds(a, p) ==> Found(slots, p) == None {
      forall p | Holds(a, p) ensures Found(now, p) == Some(a.pfn_base + (p - a.vpn_base)) {
        FoundNone(slots, p);
        FoundFirst(now, i, p);
      }
      forall p | Found(slots, p) != None ensures Found(now, p) == Found(slots, p) {
        FoundNone(slots, p);
        var k := FirstHolder(slots, p);
        FoundFirst(slots, k, p);
        FoundFirst(now, k, p);
      }
    } else {
      var p :| Holds(a, p) && Found(slots, p) != None;
      FoundNone(slots, p);
      var k := FirstHolder(slots, p);
      FoundFirst(slots, k, p);
    }
  }

  // ---------------------------------------------------------------- placing an area

  /** The largest end of an area that begins below the limit, or 0. */
  function AutoPlace(slots: seq<Vma>): int {
    if slots == [] then 0 else
    var vpn := AutoPlace(slots[..|slots| - 1]);
    var a := slots[|slots| - 1];
    if a.valid && a.vpn_base < AUTO_LIMIT && Top(a) > vpn then Top(a) else vpn
  }

  lemma {:induction false} AutoPlaceIsTop(slots: seq<Vma>)
    ensures forall i :: 0 <= i < |slots| && slots[i].valid && slots[i].vpn_base < AUTO_LIMIT ==>
      Top(slots[i]) <= AutoPlace(slots)
    ensures AutoPlace(slots) == 0 ||
      exists i ::
        0 <= i < |slots| && slots[i].valid && slots[i].vpn_base < AUTO_LIMIT && Top(slots[i]) == AutoPlace(slots)
    ensures 0 <= AutoPlace(slots)
  {
    if slots != [] {
      var n := |slots| - 1;
      AutoPlaceIsTop(slots[..n]);
      if AutoPlace(slots) != 0 && AutoPlace(slots) == AutoPlace(slots[..n]) {
        var i :| 0 <= i < n && slots[..n][i].valid && slots[..n][i].vpn_base < AUTO_LIMIT &&
          Top(slots[..n][i]) == AutoPlace(slots[..n]);
        assert Top(slots[i]) == AutoPlace(slots);
      }
    }
  }

  /** An area placed automatically is disjoint from all others exactly when it ends before
      every area that begins at the limit or above. */
  lemma AutoRoom(slots: seq<Vma>, count: int)
    requires Proper(slots) && 0 < count && AutoPlace(slots) + count <= PAGES
    ensures Room(slots, AutoPlace(slots), count) <==>
      forall i :: 0 <= i < |slots| && slots[i].valid && slots[i].vpn_base >= AUTO_LIMIT ==>
        AutoPlace(slots) + count <= slots[i].vpn_base
  {
    AutoPlaceIsTop(slots);
    var vpn := AutoPlace(slots);
    forall i | 0 <= i < |slots| && slots[i].valid && slots[i].vpn_base >= AUTO_LIMIT
      ensures vpn <= slots[i].vpn_base
    {
      if vpn != 0 {
        var k :| 0 <= k < |slots| && slots[k].valid && slots[k].vpn_base < AUTO_LIMIT && Top(slots[k]) == vpn;
        assert k < i ==> Apart(slots[i], slots[k].vpn_base, slots[k].count);
        assert i < k ==> Apart(slots[k], slots[i].vpn_base, slots[i].count);
      }
    }
    forall i | 0 <= i < |slots| && slots[i].valid && slots[i].vpn_base < AUTO_LIMIT
      ensures Apart(slots[i], vpn, count)
    {
    }
  }

  lemma AutoBelowLimit(slots: seq<Vma>, count: int)
    requires Proper(slots) && 0 < count && AutoPlace(slots) + count <= AUTO_LIMIT
    ensures Room(slots, AutoPlace(slots), count)
  {
    AutoRoom(slots, count);
  }

  // ---------------------------------------------------------------- checking a range

  /** One area holds the first and the last page. */
  ghost predicate Covered(slots: seq<Vma>, first: int, last: int) {
    exists i :: 0 <= i < |slots| && Holds(slots[i], first) && Holds(slots[i], last)
  }

  /** What `vma_check_user` accepts translates everywhere, when the range does not wrap. */
  lemma CoveredTranslates(slots: seq<Vma>, pages: map<int, int>, addr: int, size: int)
    requires Stands(slots, pages) && 0 <= addr && 0 <= size && addr + size < ADDRESSES
    requires Covered(slots, addr / PAGE_SIZE, (addr + size) / PAGE_SIZE)
    ensures forall virt :: addr <= virt <= addr + size ==> virt / PAGE_SIZE in pages
  {
    var i :| 0 <= i < |slots| && Holds(slots[i], addr / PAGE_SIZE) && Holds(slots[i], (addr + size) / PAGE_SIZE);
    forall virt | addr <= virt <= addr + size ensures virt / PAGE_SIZE in pages {
      assert addr / PAGE_SIZE <= virt / PAGE_SIZE <= (addr + size) / PAGE_SIZE;
      assert Holds(slots[i], virt / PAGE_SIZE);
    }
  }

  /** The exact condition, for a range that does not wrap and begins in an area: the address
      after its last byte is in that area, too. */
  lemma CheckIsExact(slots: seq<Vma>, i: nat, addr: int, size: int)
    requires Proper(slots) && i < |slots| && 0 <= addr && 0 <= size
    requires Holds(slots[i], addr / PAGE_SIZE)
    ensures Covered(slots, addr / PAGE_SIZE, (addr + size) / PAGE_SIZE) <==> addr + size < Top(slots[i]) * PAGE_SIZE
  {
    assert forall k :: 0 <= k < |slots| && Holds(slots[k], addr / PAGE_SIZE) ==> k == i;
    assert addr / PAGE_SIZE <= (addr + size) / PAGE_SIZE;
  }

  /** So the whole of an area is refused, although it translates. */
  lemma CheckRefusesWholeArea(slots: seq<Vma>, pages: map<int, int>, i: nat)
    requires Proper(slots) && Stands(slots, pages) && i < |slots| && slots[i].valid
    ensures
      var addr, size := slots[i].vpn_base * PAGE_SIZE, slots[i].count * PAGE_SIZE;
      && (forall virt :: addr <= virt < addr + size ==> virt / PAGE_SIZE in pages)
      && !Covered(slots, addr / PAGE_SIZE, (addr + size) / PAGE_SIZE)
  {
    var a := slots[i];
    forall virt | a.vpn_base * PAGE_SIZE <= virt < Top(a) * PAGE_SIZE ensures virt / PAGE_SIZE in pages {
      assert Holds(a, virt / PAGE_SIZE);
    }
    assert a.vpn_base * PAGE_SIZE / PAGE_SIZE == a.vpn_base;
    CheckIsExact(slots, i, a.vpn_base * PAGE_SIZE, a.count * PAGE_SIZE);
  }

  /** A range that wraps around the end of the address space and is accepted translates
      everywhere exactly when the whole address space is mapped. */
  lemma WrappedCheck(slots: seq<Vma>, pages: map<int, int>, addr: int, size: int)
    requires Proper(slots) && Stands(slots, pages)
    requires 0 <= addr < ADDRESSES && 0 <= size < ADDRESSES && ADDRESSES <= addr + size
    requires Covered(slots, addr / PAGE_SIZE, (addr + size) % ADDRESSES / PAGE_SIZE)
    ensures (forall virt :: addr <= virt <= addr + size ==> PageOf(virt) in pages) <==>
      (forall p :: 0 <= p < PAGES ==> p in pages)
  {
    if forall virt :: addr <= virt <= addr + size ==> PageOf(virt) in pages {
      forall p | 0 <= p < PAGES ensures p in pages {
        WrappedReaches(slots, pages, addr, size, p);
      }
    }
  }

  lemma WrappedReaches(slots: seq<Vma>, pages: map<int, int>, addr: int, size: int, p: int)
    requires Stands(slots, pages)
    requires 0 <= addr < ADDRESSES && 0 <= size < ADDRESSES && ADDRESSES <= addr + size
    requires Covered(slots, addr / PAGE_SIZE, (addr + size) % ADDRESSES / PAGE_SIZE)
    requires forall virt :: addr <= virt <= addr + size ==> PageOf(virt) in pages
    requires 0 <= p < PAGES
    ensures p in pages
  {
    var first, last := addr / PAGE_SIZE, (addr + size) % ADDRESSES / PAGE_SIZE;
    if first < p {
      PageBegins(p, 0);
    } else if p < last {
      PageBegins(p, ADDRESSES);
      assert (addr + size) % ADDRESSES == addr + size - ADDRESSES;
    } else {
      var i :| 0 <= i < |slots| && Holds(slots[i], first) && Holds(slots[i], last);
      assert Holds(slots[i], p);
    }
  }

  lemma PageBegins(p: int, round: int)
    requires 0 <= p < PAGES && (round == 0 || round == ADDRESSES)
    ensures PageOf(round + p * PAGE_SIZE) == p
  {
    assert (round + p * PAGE_SIZE) % ADDRESSES == p * PAGE_SIZE;
  }

  /** The page of a 32-bit address. */
  function PageOf(virt: int): int {
    virt % ADDRESSES / PAGE_SIZE
  }

  /** An example: with pages 0 and 1 mapped, a range from page 1 to the end of the address
      space and round to page 0 is accepted, and its second page does not translate. */
  lemma WrapIsAccepted(slots: seq<Vma>, pages: map<int, int>)
    requires |slots| == VMAS && slots[0] == Vma(0, 7, 2, true) && Stands(slots, pages)
    requires forall i :: 0 < i < VMAS ==> !slots[i].valid
    ensures Covered(slots, 4096 / PAGE_SIZE, (4096 + 0xFFFF_FFF0) % ADDRESSES / PAGE_SIZE)
    ensures 4096 <= 8192 <= 4096 + 0xFFFF_FFF0 && PageOf(8192) !in pages
  {
    assert Holds(slots[0], 1) && Holds(slots[0], 0);
    assert !SomeHolds(slots, 2);
  }

  // ---------------------------------------------------------------- frames

  /** Every area of every address space has a range of frames of its own. */
  ghost predicate Backed(spaces: seq<seq<Vma>>, live: map<int, int>) {
    && (forall s, i :: 0 <= s < |spaces| && 0 <= i < |spaces[s]| && spaces[s][i].valid ==>
          spaces[s][i].pfn_base * PAGE_SIZE in live && live[spaces[s][i].pfn_base * PAGE_SIZE] == spaces[s][i].count)
    && (forall s, i, t, j ::
          (&& 0 <= s < |spaces| && 0 <= i < |spaces[s]| && spaces[s][i].valid
           && 0 <= t < |spaces| && 0 <= j < |spaces[t]| && spaces[t][j].valid
           && spaces[s][i].pfn_base == spaces[t][j].pfn_base) ==>
            s == t && i == j)
  }

  /** Two pages that are mapped, in one address space or in two, never share a frame. */
  lemma FramesApart(spaces: seq<seq<Vma>>, maps: seq<map<int, int>>, live: map<int, int>,
                    s: nat, p: int, t: nat, q: int)
    requires Backed(spaces, live) && LiveApart(live) && |spaces| == |maps|
    requires s < |maps| && t < |maps| && Stands(spaces[s], maps[s]) && Stands(spaces[t], maps[t])
    requires p in maps[s] && q in maps[t] && (s != t || p != q)
    ensures maps[s][p] != maps[t][q]
  {
    assert SomeHolds(spaces[s], p) && SomeHolds(spaces[t], q);
    var i :| 0 <= i < |spaces[s]| && Holds(spaces[s][i], p);
    var j :| 0 <= j < |spaces[t]| && Holds(spaces[t][j], q);
    var a, b := spaces[s][i], spaces[t][j];
    if a.pfn_base != b.pfn_base {
      var x, y := a.pfn_base * PAGE_SIZE, b.pfn_base * PAGE_SIZE;
      assert x in live && y in live && live[x] == a.count && live[y] == b.count && x != y;
    }
  }

  lemma BackMore(spaces: seq<seq<Vma>>, live: map<int, int>, s: nat, i: nat, a: Vma)
    requires Backed(spaces, live) && s < |spaces| && i < |spaces[s]| && a.valid
    requires a.pfn_base * PAGE_SIZE !in live
    ensures Backed(spaces[s := spaces[s][i := a]], live[a.pfn_base * PAGE_SIZE := a.count])
  {
    var now: seq<seq<Vma>> := spaces[s := spaces[s][i := a]];
    forall t, j | 0 <= t < |now| && 0 <= j < |now[t]| && now[t][j].valid && (t != s || j != i)
      ensures now[t][j] == spaces[t][j]
      ensures now[t][j].pfn_base * PAGE_SIZE in live && now[t][j].pfn_base != a.pfn_base
    {
    }
  }

  lemma BackLess(spaces: seq<seq<Vma>>, live: map<int, int>, s: nat, i: nat)
    requires Backed(spaces, live) && s < |spaces| && i < |spaces[s]| && spaces[s][i].valid
    ensures Backed(spaces[s := spaces[s][i := spaces[s][i].(valid := false)]],
                   live - {spaces[s][i].pfn_base * PAGE_SIZE})
  {
    var now: seq<seq<Vma>> := spaces[s := spaces[s][i := spaces[s][i].(valid := false)]];
    forall t, j | 0 <= t < |now| && 0 <= j < |now[t]| && now[t][j].valid
      ensures now[t][j] == spaces[t][j] && now[t][j].pfn_base != spaces[s][i].pfn_base
    {
    }
  }

  lemma BackNone(spaces: seq<seq<Vma>>, live: map<int, int>, slots: seq<Vma>)
    requires Backed(spaces, live) && forall i :: 0 <= i < |slots| ==> !slots[i].valid
    ensures Backed(spaces + [slots], live)
  {
    var now: seq<seq<Vma>> := spaces + [slots];
    assert forall t, j :: 0 <= t < |now| && 0 <= j < |now[t]| && now[t][j].valid ==>
      t < |spaces| && now[t] == spaces[t];
  }
}

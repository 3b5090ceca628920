/** The sorted list of areas with its counters, as a circular list with a bumper at each end.
    Models kernel/tests/vmm/shared/tst_area_list.c. */
module AreaList {
  import opened Basics
  import opened LinkedRing
  import opened AreaCounts

  const INT_MAX := 0x7FFF_FFFF

  /** The members of an area beside its link. */
  datatype Span = Span(start: int, size: int)

  ghost predicate Tallied(cells: seq<Cell>, areas: int, holes: int, neighs: int) {
    && Laid(cells)
    && areas == |cells| - 2 && holes == Count(cells, Hole) && neighs == Count(cells, Neigh)
  }

  class AreaList {
    const front: Link<Span>
    const rear: Link<Span>
    var area_count: int
    var hole_count: int
    var neigh_count: int
    ghost var ring: seq<Link<Span>>
    ghost var cells: seq<Cell>

    ghost predicate Linked()
      reads this, ring
    {
      && |ring| == |cells| >= 2 && Ring(ring)
      && ring[0] == front && ring[|ring| - 1] == rear
      && forall i :: 0 <= i < |ring| ==> ring[i].data == Span(cells[i].start, cells[i].size)
    }

    ghost predicate Valid()
      reads this, ring
    {
      Linked() && Tallied(cells, area_count, hole_count, neigh_count)
    }

    /** `tst_area_list_init`; the list, with its one hole, is valid exactly for a segment of at
        least one page. */
    constructor (page_start: int, page_count: int)
      ensures Linked() && cells == [Cell(page_start, 0, true), Cell(page_start + page_count, INT_MAX, true)]
      ensures Valid() <==> 0 < page_count
      ensures fresh(ring)
    {
      hide Tallied;
      hole_count, area_count, neigh_count := 1, 0, 0;
      var first := new Link(Span(page_start, 0));
      var last := new Link(Span(page_start + page_count, INT_MAX));
      front, rear := first, last;
      ring := [first, last];
      cells := [Cell(page_start, 0, true), Cell(page_start + page_count, INT_MAX, true)];
      new;
      front.prev, front.next := front, front;
      rear.prev, rear.next := rear, rear;
      assert Ring([front]);
      Insert(rear, front, front.next, [front], 1);
      assert Inserted([front], 1, rear) == ring;
      NoAreasYet(cells);
    }

    // -------------------------------------------------------------- searches

    /** `tst_list_find` with `match_succ_area`: null when no area or bumper begins beyond the page. */
    method FindAfter(page: int) returns (succ: Link?<Span>, ghost i: int)
      requires Valid()
      ensures succ == null <==> cells[|cells| - 1].start <= page
      ensures succ != null ==> IsAfter(cells, i, page) && succ == ring[i]
    {
      hide Ring, Count;
      var item := front.next;
      At(ring, 0);
      i := 1;
      while item != front
        invariant 0 < i <= |ring| && item == (if i == |ring| then front else ring[i])
        invariant forall j :: 0 < j < i ==> cells[j].start <= page
        decreases |ring| - i
      {
        AtFront(ring, i);
        if item.data.start > page {
          return item, i;
        }
        At(ring, i);
        item := item.next;
        i := i + 1;
      }
      AtFront(ring, i);
      return null, i;
    }

    /** `tst_list_get_nth` */
    method Nth(nth: int) returns (item: Link<Span>)
      requires Valid() && 0 <= nth < area_count
      ensures item == ring[nth + 1]
    {
      hide Ring, Count;
      item := GetNth(front, nth, ring);
    }

    // -------------------------------------------------------------- queries

    /** `tst_area_list_get_area` */
    method GetArea(nth: int) returns (start_page: int, page_count: int)
      requires Valid() && 0 <= nth < area_count
      ensures start_page == cells[nth + 1].start && page_count == cells[nth + 1].size
    {
      var item := Nth(nth);
      return item.data.start, item.data.size;
    }

    /** `tst_area_list_get_hole`: the hole that has `nth` holes before it. */
    method GetHole(nth: int) returns (start_page: int, page_count: int)
      requires Valid() && 0 <= nth < hole_count
      ensures exists i ::
        && 0 < i < |cells| && Count(cells[..i], Hole) == nth && One(cells[i - 1], cells[i], Hole) == 1
        && start_page == End(cells[i - 1]) && page_count == cells[i].start - start_page
    {
      hide Ring, Count;
      var cnt := nth;
      var item := front.next;
      At(ring, 0);
      ghost var i := 1;
      CountFirst(cells, Hole);
      assert cells[..|cells|] == cells;
      ghost var all := cells[..|cells|];
      while item != front
        invariant 0 < i <= |ring| && item == (if i == |ring| then front else ring[i])
        invariant 0 <= cnt && cnt + Count(cells[..i], Hole) == nth
        decreases |ring| - i
      {
        AtFront(ring, i);
        At(ring, i);
        CountNext(cells, i, Hole);
        if item.prev.data.start + item.prev.data.size < item.data.start {
          if cnt == 0 {
            start_page := item.prev.data.start + item.prev.data.size;
            page_count := item.data.start - start_page;
            return;
          }
          cnt := cnt - 1;
        }
        item := item.next;
        i := i + 1;
      }
      AtFront(ring, i);
    }

    /** `tst_area_list_get_neigh`: the first area of the pair that has `nth_neigh` pairs before
        it, with its number in the list. */
    method GetNeigh(nth_neigh: int) returns (nth: int, start_page: int, page_count: int)
      requires Valid() && 0 <= nth_neigh < neigh_count
      ensures 0 <= nth < area_count - 1 && Count(cells[..nth + 2], Neigh) == nth_neigh
      ensures One(cells[nth + 1], cells[nth + 2], Neigh) == 1
      ensures start_page == cells[nth + 1].start && page_count == cells[nth + 1].size
    {
      hide Ring, Count, Laid, One;
      var cnt := nth_neigh;
      nth := -1;
      var item := front.next;
      At(ring, 0);
      NoBorderAtRear(cells);
      while item != front
        invariant -1 <= nth < |ring| - 3 && item == ring[nth + 2]
        invariant 0 <= cnt && cnt + Count(cells[..nth + 3], Neigh) == nth_neigh
        decreases |ring| - nth
      {
        At(ring, nth + 2);
        CountNext(cells, nth + 3, Neigh);
        RealPair(cells, nth + 2);
        nth := nth + 1;
        if item.data.start + item.data.size == item.next.data.start {
          if cnt == 0 {
            return nth, item.data.start, item.data.size;
          }
          cnt := cnt - 1;
        }
        item := item.next;
      }
      AtFront(ring, nth + 2);
    }

    // -------------------------------------------------------------- mutations

    /** `tst_area_list_add`; `memory` says whether there is memory for the area. */
    method Add(start_page: int, page_count: int, memory: bool) returns (rc: Errno, ghost i: int)
      requires Valid() && 0 < page_count && start_page < cells[|cells| - 1].start
      modifies this, ring
      ensures Valid() && forall j :: 0 <= j < |ring| ==> ring[j] in old(ring) || fresh(ring[j])
      ensures rc == EINVAL <==> old(Clash(cells, start_page, page_count))
      ensures rc == ENOMEM <==> !memory && !old(Clash(cells, start_page, page_count))
      ensures rc != EOK ==> cells == old(cells)
      ensures rc == EOK ==>
        0 < i < |old(cells)| && cells == Inserted(old(cells), i, Cell(start_page, page_count, false))
    {
      hide Ring, Count, Inserted, Clash, Laid;
      var succ_area: Link?<Span>;
      succ_area, i := FindAfter(start_page);
      At(ring, i);
      Ends(ring, i);
      var pred_area := succ_area.prev;
      ClashIsLocal(cells, i, start_page, page_count);
      if pred_area.data.start + pred_area.data.size > start_page || start_page + page_count > succ_area.data.start {
        return EINVAL, i;
      }
      if !memory {
        return ENOMEM, i;
      }
      PutNew(pred_area, succ_area, start_page, page_count, i);
      return EOK, i;
    }

    /** A new area between two others, with the counting. */
    method PutNew(pred_area: Link<Span>, succ_area: Link<Span>, start: int, count: int, ghost i: int)
      requires Valid() && 0 < count && 0 < i < |ring| && pred_area == ring[i - 1] && succ_area == ring[i]
      requires End(cells[i - 1]) <= start && start + count <= cells[i].start
      modifies this, ring
      ensures Valid() && forall j :: 0 <= j < |ring| ==> ring[j] in old(ring) || fresh(ring[j])
      ensures cells == Inserted(old(cells), i, Cell(start, count, false))
    {
      hide Ring, Count, Inserted, Laid, One;
      Ends(ring, i);
      AddTally(cells, i, start, count);
      var new_area := new Link(Span(start, count));
      InsertedAt(ring, i, new_area);
      PutAt(new_area, succ_area, i);
      area_count := area_count + 1;
      hole_count := hole_count - 1;
      TallyIn(pred_area, succ_area, start, count);
    }

    /** The counting of `add` and `remap` for an area that comes between two others. */
    method TallyIn(pred_area: Link<Span>, succ_area: Link<Span>, start: int, count: int)
      modifies `hole_count, `neigh_count
      ensures hole_count == old(hole_count)
        + (if pred_area.data.start + pred_area.data.size == start then 0 else 1)
        + (if start + count == succ_area.data.start then 0 else 1)
      ensures neigh_count == old(neigh_count)
        + (if pred_area.data.start + pred_area.data.size == start && pred_area != front then 1 else 0)
        + (if start + count == succ_area.data.start && succ_area != rear then 1 else 0)
    {
      if pred_area.data.start + pred_area.data.size == start {
        if pred_area != front {
          neigh_count := neigh_count + 1;
        }
      } else {
        hole_count := hole_count + 1;
      }
      if start + count == succ_area.data.start {
        if succ_area != rear {
          neigh_count := neigh_count + 1;
        }
      } else {
        hole_count := hole_count + 1;
      }
    }

    /** The counting of `del` and `remap` for an area that leaves its place. */
    method TallyOut(pred_area: Link<Span>, area: Link<Span>, succ_area: Link<Span>)
      modifies `hole_count, `neigh_count
      ensures hole_count == old(hole_count)
        - (if pred_area.data.start + pred_area.data.size == area.data.start then 0 else 1)
        - (if area.data.start + area.data.size == succ_area.data.start then 0 else 1)
      ensures neigh_count == old(neigh_count)
        - (if pred_area.data.start + pred_area.data.size == area.data.start && pred_area != front then 1 else 0)
        - (if area.data.start + area.data.size == succ_area.data.start && succ_area != rear then 1 else 0)
    {
      if pred_area.data.start + pred_area.data.size == area.data.start {
        if pred_area != front {
          neigh_count := neigh_count - 1;
        }
      } else {
        hole_count := hole_count - 1;
      }
      if area.data.start + area.data.size == succ_area.data.start {
        if succ_area != rear {
          neigh_count := neigh_count - 1;
        }
      } else {
        hole_count := hole_count - 1;
      }
    }

    /** `tst_area_list_del` */
    method Del(nth: int)
      requires Valid() && 0 <= nth < area_count
      modifies this, ring
      ensures Valid() && forall j :: 0 <= j < |ring| ==> ring[j] in old(ring)
      ensures cells == Removed(old(cells), nth + 1)
    {
      hide Ring, Count, Removed, Laid;
      var nth_area := Nth(nth);
      ghost var k := nth + 1;
      At(ring, k);
      Ends(ring, k);
      Ends(ring, k + 1);
      CutTally(cells, k);
      var pred_area, succ_area := nth_area.prev, nth_area.next;
      area_count := area_count - 1;
      hole_count := hole_count + 1;
      TallyOut(pred_area, nth_area, succ_area);
      RemovedAt(ring, k);
      TakeFrom(nth_area, k);
    }

    /** A new size for an area. */
    method SetSize(area: Link<Span>, size: int, ghost k: int)
      requires Linked() && 0 < k < |ring| - 1 && area == ring[k]
      modifies area`data, `cells
      ensures Linked() && cells == old(cells)[k := old(cells[k]).(size := size)]
      ensures forall j :: 0 <= j < |ring| && j != k ==> ring[j].data == old(ring[j].data)
    {
      hide Ring;
      forall j | 0 <= j < |ring| && j != k ensures ring[j] != area {
        SkipItself(ring, k, j + 1);
      }
      area.data := area.data.(size := size);
      cells := cells[k := cells[k].(size := size)];
    }

    /** `tst_area_list_resize` */
    method Resize(nth: int, page_count: int) returns (rc: Errno)
      requires Valid() && 0 <= nth < area_count && 0 < page_count
      modifies this, ring
      ensures Valid() && ring == old(ring) && (rc == EOK || rc == EINVAL)
      ensures rc == EINVAL <==> Clash(Removed(old(cells), nth + 1), old(cells[nth + 1].start), page_count)
      ensures cells == if rc == EOK then old(cells)[nth + 1 := old(cells[nth + 1]).(size := page_count)] else old(cells)
    {
      hide Ring, Count, Removed, Laid, Clash;
      var nth_area := Nth(nth);
      ghost var k := nth + 1;
      At(ring, k);
      Ends(ring, k + 1);
      Sorted(cells, k);
      GrowthIsLocal(cells, k, page_count);
      var succ_area := nth_area.next;
      if nth_area.data.start + page_count > succ_area.data.start {
        return EINVAL;
      }
      SizeTally(cells, k, page_count);
      if nth_area.data.start + nth_area.data.size == succ_area.data.start &&
         nth_area.data.start + page_count < succ_area.data.start {
        if succ_area != rear {
          neigh_count := neigh_count - 1;
        }
        hole_count := hole_count + 1;
      } else if nth_area.data.start + nth_area.data.size < succ_area.data.start &&
                nth_area.data.start + page_count == succ_area.data.start {
        if succ_area != rear {
          neigh_count := neigh_count + 1;
        }
        hole_count := hole_count - 1;
      }
      SetSize(nth_area, page_count, k);
      return EOK;
    }

    /** `tst_area_list_split`, at a page inside the area of place `k`. */
    method Split(split_page: int, memory: bool, ghost k: int) returns (rc: Errno)
      requires Valid() && 0 < k < |cells| - 1 && cells[k].start < split_page < End(cells[k])
      modifies this, ring
      ensures Valid() && forall j :: 0 <= j < |ring| ==> ring[j] in old(ring) || fresh(ring[j])
      ensures rc == if memory then EOK else ENOMEM
      ensures rc == ENOMEM ==> cells == old(cells)
      ensures rc == EOK ==>
        var low := old(cells[k]).(size := split_page - old(cells[k].start));
        cells == Inserted(old(cells)[k := low], k + 1, Cell(split_page, End(old(cells[k])) - split_page, false))
    {
      hide Ring, Count, Inserted, Laid, One, IsAfter;
      Sorted(cells, k);
      SegmentHolds(cells, k);
      var succ_area, i := FindAfter(split_page);
      HolderIsBefore(cells, k, i, split_page);
      At(ring, i);
      var this_area := succ_area.prev;
      if !memory {
        return ENOMEM;
      }
      SplitTally(cells, k, split_page);
      CutArea(this_area, succ_area, split_page, k);
      neigh_count := neigh_count + 1;
      area_count := area_count + 1;
      return EOK;
    }

    /** The cutting alone: the upper part becomes a new area. */
    method CutArea(this_area: Link<Span>, succ_area: Link<Span>, split_page: int, ghost k: int)
      requires Linked() && 0 < k < |ring| - 1 && this_area == ring[k] && succ_area == ring[k + 1]
      modifies `ring, `cells, ring
      ensures Linked() && forall j :: 0 <= j < |ring| ==> ring[j] in old(ring) || fresh(ring[j])
      ensures
        var low := old(cells[k]).(size := split_page - old(cells[k].start));
        cells == Inserted(old(cells)[k := low], k + 1, Cell(split_page, End(old(cells[k])) - split_page, false))
    {
      hide Ring, Inserted;
      var new_area := new Link(Span(split_page, this_area.data.start + this_area.data.size - split_page));
      SetSize(this_area, this_area.data.size - new_area.data.size, k);
      InsertedAt(ring, k + 1, new_area);
      PutAt(new_area, succ_area, k + 1);
    }

    /** `tst_area_list_merge` of an area with the area that begins where it ends. */
    method Merge(nth: int)
      requires Valid() && 0 <= nth < area_count - 1 && End(cells[nth + 1]) == cells[nth + 2].start
      modifies this, ring
      ensures Valid() && forall j :: 0 <= j < |ring| ==> ring[j] in old(ring)
      ensures cells == Removed(old(cells), nth + 2)[nth + 1 :=
        old(cells[nth + 1]).(size := old(cells[nth + 1].size + cells[nth + 2].size))]
    {
      hide Ring, Count, Removed, Laid;
      var nth_area := Nth(nth);
      ghost var k := nth + 1;
      ghost var c := cells;
      At(ring, k);
      MergeTally(cells, k);
      RemovedAt(ring, k + 1);
      var succ_area := nth_area.next;
      SetSize(nth_area, nth_area.data.size + succ_area.data.size, k);
      area_count := area_count - 1;
      neigh_count := neigh_count - 1;
      TakeFrom(succ_area, k + 1);
      SetThenRemove(c, k, c[k].(size := c[k].size + c[k + 1].size));
    }

    /** The search of `remap` for the two areas around the target, other than the area itself. */
    method FindPlace(area: Link<Span>, to_page: int, ghost k: int)
      returns (to_pred: Link<Span>, to_succ: Link<Span>, ghost j: int)
      requires Valid() && to_page < cells[|cells| - 1].start && 0 < k < |ring| - 1 && area == ring[k]
      ensures IsAfter(Removed(cells, k), j, to_page) && 0 < j < |Removed(ring, k)|
      ensures to_pred == Removed(ring, k)[j - 1] && to_succ == Removed(ring, k)[j]
    {
      hide Ring, Count, Removed, Laid;
      At(ring, k);
      ghost var i;
      var found: Link?<Span>;
      found, i := FindAfter(to_page);
      to_succ := found;
      At(ring, i);
      to_pred := to_succ.prev;
      j := if i <= k then i else i - 1;
      SkipItself(ring, k, i);
      if to_succ == area {
        to_succ := area.next;
      } else if to_pred == area {
        to_pred := area.prev;
      }
      RemovedAt(ring, k);
      RemovedAt(cells, k);
      SearchSkips(cells, k, i, to_page);
    }

    /** `tst_area_list_remap` */
    method Remap(nth: int, to_page: int) returns (rc: Errno, ghost j: int)
      requires Valid() && 0 <= nth < area_count && to_page < cells[|cells| - 1].start
      modifies this, ring
      ensures Valid() && (rc == EOK || rc == EINVAL) && forall j :: 0 <= j < |ring| ==> ring[j] in old(ring)
      ensures rc == EINVAL <==> Clash(Removed(old(cells), nth + 1), to_page, old(cells[nth + 1].size))
      ensures rc == EINVAL ==> cells == old(cells)
      ensures rc == EOK ==>
        && 0 < j < |old(cells)| - 1
        && cells == Inserted(Removed(old(cells), nth + 1), j, old(cells[nth + 1]).(start := to_page))
    {
      hide Ring, Count, Removed, Inserted, Laid, Clash, IsAfter;
      var nth_area := Nth(nth);
      ghost var k := nth + 1;
      At(ring, k);
      RemovedAt(ring, k);
      var from_succ_area, from_pred_area := nth_area.next, nth_area.prev;
      var to_pred_area, to_succ_area;
      to_pred_area, to_succ_area, j := FindPlace(nth_area, to_page, k);
      RemovedAt(cells, k);
      TakeOut(cells, k);
      Sorted(cells, k);
      ClashIsLocal(Removed(cells, k), j, to_page, cells[k].size);
      if to_page < to_pred_area.data.start + to_pred_area.data.size ||
         to_page + nth_area.data.size > to_succ_area.data.start {
        return EINVAL, j;
      }
      Move(nth_area, from_pred_area, from_succ_area, to_pred_area, to_succ_area, to_page, k, j);
      return EOK, j;
    }

    /** The counting and the moving of `tst_area_list_remap`. */
    method Move(area: Link<Span>, from_pred: Link<Span>, from_succ: Link<Span>,
                to_pred: Link<Span>, to_succ: Link<Span>, to_page: int, ghost k: int, ghost j: int)
      requires Valid() && 0 < k < |ring| - 1 && 0 < j <= |ring| - 2 && area == ring[k]
      requires from_pred == ring[k - 1] && from_succ == ring[k + 1]
      requires to_pred == Removed(ring, k)[j - 1] && to_succ == Removed(ring, k)[j]
      requires End(Removed(cells, k)[j - 1]) <= to_page && to_page + cells[k].size <= Removed(cells, k)[j].start
      modifies this, ring
      ensures Valid() && forall j :: 0 <= j < |ring| ==> ring[j] in old(ring)
      ensures cells == Inserted(Removed(old(cells), k), j, old(cells[k]).(start := to_page))
    {
      hide Ring, Count, Removed, Inserted, Laid, One;
      ghost var r := Removed(ring, k);
      ghost var size := cells[k].size;
      RemovedAt(ring, k);
      RemovedAt(cells, k);
      Sorted(cells, k);
      CutTally(cells, k);
      AddTally(Removed(cells, k), j, to_page, size);
      Ends(ring, k);
      Ends(ring, k + 1);
      EndsWithout(ring, k, j);
      TallyOut(from_pred, area, from_succ);
      TallyIn(to_pred, to_succ, to_page, area.data.size);
      Relink(area, to_succ, to_page, k, j);
    }

    /** The moving alone. */
    method Relink(area: Link<Span>, to_succ: Link<Span>, to_page: int, ghost k: int, ghost j: int)
      requires Linked() && 0 < k < |ring| - 1 && 0 < j <= |ring| - 2 && area == ring[k]
      requires to_succ == Removed(ring, k)[j]
      modifies `ring, `cells, ring
      ensures Linked() && forall j :: 0 <= j < |ring| ==> ring[j] in old(ring)
      ensures cells == Inserted(Removed(old(cells), k), j, Cell(to_page, old(cells[k].size), false))
    {
      hide Ring, Removed, Inserted;
      RemovedAt(ring, k);
      RemovedAt(cells, k);
      Gone(ring, k);
      TakeFrom(area, k);
      area.data := area.data.(start := to_page);
      InsertedAt(ring, j, area);
      PutAt(area, to_succ, j);
    }

    /** `tst_list_del` of an area. */
    method TakeFrom(area: Link<Span>, ghost k: int)
      requires Linked() && 0 < k < |ring| - 1 && area == ring[k]
      modifies `ring, `cells, ring
      ensures Linked() && ring == Removed(old(ring), k) && cells == Removed(old(cells), k)
      ensures forall j :: 0 <= j < |old(ring)| ==> old(ring)[j].data == old(ring[j].data)
    {
      hide Ring, Removed;
      RemovedAt(ring, k);
      RemovedAt(cells, k);
      Delete(area, ring, k);
      ring := Removed(ring, k);
      cells := Removed(cells, k);
    }

    /** `tst_list_add_pred` of a new area. */
    method PutAt(area: Link<Span>, succ: Link<Span>, ghost i: int)
      requires Linked() && area !in ring && 0 < i < |ring| && succ == ring[i]
      modifies `ring, `cells, ring, area
      ensures Linked() && ring == Inserted(old(ring), i, area)
      ensures cells == Inserted(old(cells), i, Cell(area.data.start, area.data.size, false))
      ensures area.data == old(area.data) && forall j :: 0 <= j < |old(ring)| ==> old(ring)[j].data == old(ring[j].data)
    {
      hide Ring, Inserted;
      At(ring, i);
      ghost var r, c, x := ring, cells, Cell(area.data.start, area.data.size, false);
      InsertedAt(r, i, area);
      InsertedAt(c, i, x);
      Insert(area, succ.prev, succ, ring, i);
      ring := Inserted(r, i, area);
      cells := Inserted(c, i, x);
    }
  }

  /** One hole is right for two bumpers exactly when there is a page between them. */
  lemma NoAreasYet(c: seq<Cell>)
    requires |c| == 2 && c[0].bumper && c[1].bumper && c[0].size == 0
    ensures Tallied(c, 0, 1, 0) <==> c[0].start < c[1].start
  {
    assert c[1..] == [c[1]];
    assert Count(c[1..], Hole) == 0 && Count(c[1..], Neigh) == 0;
    assert Count(c, Hole) == One(c[0], c[1], Hole) && Count(c, Neigh) == One(c[0], c[1], Neigh);
  }

  lemma SegmentHolds(c: seq<Cell>, k: int)
    requires Laid(c) && 0 < k < |c| - 1
    ensures End(c[k]) <= c[|c| - 1].start
  {
  }

  lemma SetThenRemove(c: seq<Cell>, k: int, x: Cell)
    requires 0 < k && k + 1 < |c|
    ensures Removed(c[k := x], k + 1) == Removed(c, k + 1)[k := x]
  {
  }

  /** Which links the search of `remap` finds, compared with the area itself. */
  lemma SkipItself(r: seq<Link<Span>>, k: int, i: int)
    requires Ring(r) && 0 < k < |r| - 1 && 0 < i <= |r|
    ensures i < |r| ==> (r[i] == r[k] <==> i == k)
    ensures r[i - 1] == r[k] <==> i == k + 1
  {
  }

  /** The same without one link. */
  lemma EndsWithout(r: seq<Link<Span>>, k: int, j: int)
    requires Ring(r) && 0 < k < |r| - 1 && 0 < j <= |r| - 2
    ensures Removed(r, k)[j - 1] == r[0] <==> j == 1
    ensures Removed(r, k)[j] == r[|r| - 1] <==> j == |r| - 2
  {
  }

  lemma Gone(r: seq<Link<Span>>, k: int)
    requires Ring(r) && 0 < k < |r| - 1
    ensures r[k] !in Removed(r, k)
  {
  }

  /** Two areas that are not at the end have a border exactly when they touch. */
  lemma RealPair(c: seq<Cell>, i: int)
    requires Laid(c) && 0 < i < |c| - 2
    ensures One(c[i], c[i + 1], Neigh) == if End(c[i]) == c[i + 1].start then 1 else 0
  {
  }

  lemma NoBorderAtRear(c: seq<Cell>)
    requires Laid(c)
    ensures Count(c[..|c| - 1], Neigh) == Count(c, Neigh)
    ensures |c| == 2 ==> Count(c, Neigh) == 0
    ensures Count(c[..2], Neigh) == 0
  {
    CountFirst(c, Neigh);
    CountNext(c, 1, Neigh);
    CountNext(c, |c| - 1, Neigh);
    assert c[..|c|] == c;
  }

  /** Which neighbours of a place are the ends of the list. */
  lemma Ends<T>(r: seq<Link<T>>, i: int)
    requires Ring(r) && 0 < i < |r|
    ensures r[i - 1] == r[0] <==> i == 1
    ensures r[i] == r[|r| - 1] <==> i == |r| - 1
  {
  }

  /** The first link of a ring is at no other place. */
  lemma AtFront<T>(r: seq<Link<T>>, i: int)
    requires Ring(r) && 0 < i <= |r|
    ensures i < |r| ==> r[i] != r[0]
  {
  }

  lemma CountFirst(c: seq<Cell>, k: Kind)
    requires |c| >= 1
    ensures Count(c[..1], k) == 0
  {
  }

  lemma CountNext(c: seq<Cell>, i: int, k: Kind)
    requires 0 < i < |c|
    ensures Count(c[..i + 1], k) == Count(c[..i], k) + One(c[i - 1], c[i], k)
  {
    CountJoin(c[..i], [c[i]], k);
    assert c[..i] + [c[i]] == c[..i + 1];
  }
}

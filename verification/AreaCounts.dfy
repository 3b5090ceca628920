/** Sorted areas between two bumpers: the counts of holes and of neighbours, and when an
    interval collides with an area. Models the data of kernel/tests/vmm/shared/tst_area_list.c. */
module AreaCounts {
  import opened LinkedRing

  /** An area, or one of the two bumpers of the list. */
  datatype Cell = Cell(start: int, size: int, bumper: bool)

  datatype Kind = Hole | Neigh

  function End(c: Cell): int {
    c.start + c.size
  }

  /** Whether there is a hole, or a border of two areas, between two consecutive cells. */
  function One(a: Cell, b: Cell, k: Kind): nat {
    match k
    case Hole => if End(a) < b.start then 1 else 0
    case Neigh => if End(a) == b.start && !a.bumper && !b.bumper then 1 else 0
  }

  function Count(c: seq<Cell>, k: Kind): nat {
    if |c| < 2 then 0 else One(c[0], c[1], k) + Count(c[1..], k)
  }

  /** Areas of at least one page, in order, disjoint, between the bumpers. */
  ghost predicate Laid(c: seq<Cell>) {
    && 2 <= |c|
    && c[0].start < c[|c| - 1].start && c[0].size == 0
    && (forall i :: 0 <= i < |c| ==> (c[i].bumper <==> i == 0 || i == |c| - 1))
    && (forall i :: 0 < i < |c| - 1 ==> 0 < c[i].size)
    && (forall i, j :: 0 <= i < j < |c| ==> End(c[i]) <= c[j].start)
  }

  // ---------------------------------------------------------------- counting

  lemma {:induction false} CountJoin(a: seq<Cell>, b: seq<Cell>, k: Kind)
    requires a != [] && b != []
    ensures Count(a + b, k) == Count(a, k) + Count(b, k) + One(a[|a| - 1], b[0], k)
  {
    if |a| == 1 {
      assert (a + b)[1..] == b;
    } else {
      assert (a + b)[1..] == a[1..] + b;
      CountJoin(a[1..], b, k);
    }
  }

  lemma CountAdd(c: seq<Cell>, i: int, x: Cell, k: Kind)
    requires 0 < i < |c|
    ensures Count(Inserted(c, i, x), k) == Count(c, k) - One(c[i - 1], c[i], k) + One(c[i - 1], x, k) + One(x, c[i], k)
  {
    CountJoin(c[..i], c[i..], k);
    assert c[..i] + c[i..] == c;
    CountJoin(c[..i], [x] + c[i..], k);
    CountJoin([x], c[i..], k);
    assert c[..i] + ([x] + c[i..]) == Inserted(c, i, x);
  }

  lemma CountCut(c: seq<Cell>, i: int, k: Kind)
    requires 0 < i < |c| - 1
    ensures Count(Removed(c, i), k) ==
      Count(c, k) - One(c[i - 1], c[i], k) - One(c[i], c[i + 1], k) + One(c[i - 1], c[i + 1], k)
  {
    var r := Removed(c, i);
    assert Inserted(r, i, c[i]) == c;
    CountAdd(r, i, c[i], k);
  }

  lemma SetIsMove(c: seq<Cell>, i: int, x: Cell)
    requires 0 < i < |c| - 1
    ensures Inserted(Removed(c, i), i, x) == c[i := x]
  {
    RemovedAt(c, i);
    InsertedAt(Removed(c, i), i, x);
  }

  // ---------------------------------------------------------------- what is counted

  /** The pages that no area holds. */
  predicate Unmapped(c: seq<Cell>, p: int) {
    forall i :: 0 < i < |c| - 1 ==> !(c[i].start <= p < End(c[i]))
  }

  predicate StartsHole(c: seq<Cell>, p: int)
    requires c != []
  {
    Unmapped(c, p) && (p == c[0].start || !Unmapped(c, p - 1))
  }

  /** The first pages of the maximal runs of unmapped pages of the segment. */
  ghost function HoleStarts(c: seq<Cell>): set<int>
    requires Laid(c)
  {
    set p | c[0].start <= p < c[|c| - 1].start && StartsHole(c, p)
  }

  /** The pages at which one area ends and another one begins. */
  ghost function Borders(c: seq<Cell>): set<int>
    requires Laid(c)
  {
    set i, j | 0 < i < |c| - 1 && 0 < j < |c| - 1 && End(c[i]) == c[j].start :: End(c[i])
  }

  predicate Marked(c: seq<Cell>, k: Kind, i: int) {
    0 <= i < |c| - 1 && One(c[i], c[i + 1], k) == 1
  }

  ghost function Marks(c: seq<Cell>, k: Kind, m: nat): set<int>
    requires m < |c|
  {
    set i | 0 <= i < m && Marked(c, k, i) :: End(c[i])
  }

  lemma {:induction false} MarksAreCounted(c: seq<Cell>, k: Kind, m: nat)
    requires Laid(c) && m < |c|
    ensures |Marks(c, k, m)| == Count(c[..m + 1], k)
  {
    hide Laid, Marks;
    if m == 0 {
      NoMarks(c, k);
    } else {
      MarksAreCounted(c, k, m - 1);
      CountJoin(c[..m], [c[m]], k);
      assert c[..m] + [c[m]] == c[..m + 1];
      assert Count([c[m]], k) == 0;
      MarksGrow(c, k, m - 1);
    }
  }

  lemma NoMarks(c: seq<Cell>, k: Kind)
    requires Laid(c)
    ensures Marks(c, k, 0) == {}
  {
  }

  lemma MarksStep(c: seq<Cell>, k: Kind, m: nat)
    requires m + 1 < |c|
    ensures Marks(c, k, m + 1) == Marks(c, k, m) + if Marked(c, k, m) then {End(c[m])} else {}
  {
    hide Marked, End;
  }

  lemma MarksGrow(c: seq<Cell>, k: Kind, m: nat)
    requires Laid(c) && m + 1 < |c|
    ensures |Marks(c, k, m + 1)| == |Marks(c, k, m)| + One(c[m], c[m + 1], k)
  {
    hide Laid, End, One;
    var less := Marks(c, k, m);
    MarksStep(c, k, m);
    OneOrNone(c[m], c[m + 1], k);
    if Marked(c, k, m) {
      forall i | 0 <= i < m && Marked(c, k, i) ensures End(c[i]) != End(c[m]) {
        MarkedBefore(c, k, i, m);
      }
      assert End(c[m]) !in less;
    } else {
      assert Marks(c, k, m + 1) == less;
    }
  }

  lemma OneOrNone(a: Cell, b: Cell, k: Kind)
    ensures One(a, b, k) == 0 || One(a, b, k) == 1
  {
  }

  lemma MarkedBefore(c: seq<Cell>, k: Kind, i: int, m: int)
    requires Laid(c) && 0 <= i < m < |c| - 1 && One(c[i], c[i + 1], k) == 1
    ensures End(c[i]) < End(c[m])
  {
    assert End(c[i]) <= c[i + 1].start && 0 < c[m].size;
  }

  /** The counts are the numbers of holes and of borders in the segment itself. */
  lemma CountsAreExact(c: seq<Cell>)
    requires Laid(c)
    ensures Count(c, Hole) == |HoleStarts(c)|
    ensures Count(c, Neigh) == |Borders(c)|
  {
    var n := |c| - 1;
    assert c[..n + 1] == c;
    MarksAreCounted(c, Hole, n);
    MarksAreCounted(c, Neigh, n);
    HolesAreMarked(c);
    BordersAreMarked(c);
  }

  lemma HolesAreMarked(c: seq<Cell>)
    requires Laid(c)
    ensures HoleStarts(c) == Marks(c, Hole, |c| - 1)
  {
    hide StartsHole, Marked, End;
    forall p | p in HoleStarts(c) ensures p in Marks(c, Hole, |c| - 1) {
      var i := HoleIsMarked(c, p);
    }
    forall i | 0 <= i < |c| - 1 && Marked(c, Hole, i) ensures End(c[i]) in HoleStarts(c) {
      MarkedIsHole(c, i);
    }
  }

  lemma HoleIsMarked(c: seq<Cell>, p: int) returns (i: int)
    requires Laid(c) && c[0].start <= p < c[|c| - 1].start && StartsHole(c, p)
    ensures 0 <= i < |c| - 1 && Marked(c, Hole, i) && End(c[i]) == p
  {
    i := Before(c, p);
    if End(c[i]) < p {
      HoleGoesOn(c, p, i);
    }
  }

  lemma MarkedIsHole(c: seq<Cell>, i: int)
    requires Laid(c) && Marked(c, Hole, i)
    ensures c[0].start <= End(c[i]) < c[|c| - 1].start && StartsHole(c, End(c[i]))
  {
    var n, p := |c| - 1, End(c[i]);
    assert c[0].start <= p && c[i + 1].start <= c[n].start;
    forall j | 0 < j < n ensures !(c[j].start <= p < End(c[j])) {
      assert i < j ==> c[i + 1].start <= c[j].start;
      assert j < i ==> End(c[j]) <= c[i].start;
    }
    assert i != 0 ==> c[i].start <= p - 1 < End(c[i]);
  }

  lemma HoleGoesOn(c: seq<Cell>, p: int, i: int)
    requires Laid(c) && 0 <= i < |c| - 1 && End(c[i]) < p < c[i + 1].start
    ensures Unmapped(c, p - 1) && c[0].start < p
  {
    forall j | 0 < j < |c| - 1 ensures !(c[j].start <= p - 1 < End(c[j])) {
      assert j < i ==> End(c[j]) <= c[i].start;
    }
  }

  /** The last cell that begins at or before a page that is not mapped. */
  lemma Before(c: seq<Cell>, p: int) returns (i: int)
    requires Laid(c) && c[0].start <= p < c[|c| - 1].start && Unmapped(c, p)
    ensures 0 <= i < |c| - 1 && End(c[i]) <= p < c[i + 1].start
  {
    i := 0;
    while c[i + 1].start <= p
      invariant 0 <= i < |c| - 1 && c[i].start <= p
      decreases |c| - i
    {
      i := i + 1;
    }
  }

  lemma BetweenThem(c: seq<Cell>, i: int, j: int)
    requires Laid(c) && 0 < i && i + 1 < j < |c| - 1
    ensures End(c[i]) < c[j].start
  {
    assert End(c[i]) <= c[i + 1].start && End(c[i + 1]) <= c[j].start;
  }

  lemma BordersAreMarked(c: seq<Cell>)
    requires Laid(c)
    ensures Borders(c) == Marks(c, Neigh, |c| - 1)
  {
    forall i, j | 0 < i < |c| - 1 && 0 < j < |c| - 1 && End(c[i]) == c[j].start ensures j == i + 1 {
      if i + 1 < j {
        BetweenThem(c, i, j);
      }
    }
    forall i, j | 0 < i < |c| - 1 && 0 < j < |c| - 1 && End(c[i]) == c[j].start ensures Marked(c, Neigh, i) {
      assert j == i + 1;
    }
    forall i | 0 <= i < |c| - 1 && Marked(c, Neigh, i) ensures 0 < i < |c| - 2 && End(c[i]) in Borders(c) {
      assert End(c[i]) == c[i + 1].start;
    }
  }

  // ---------------------------------------------------------------- collisions

  /** The first cell after the front bumper that begins beyond a page. */
  predicate IsAfter(c: seq<Cell>, i: int, page: int) {
    && 0 < i < |c| && page < c[i].start
    && forall j :: 0 < j < i ==> c[j].start <= page
  }

  /** The interval leaves the segment, or overlaps an area. */
  predicate Clash(c: seq<Cell>, start: int, count: int)
    requires c != []
  {
    || start < c[0].start || c[|c| - 1].start < start + count
    || exists i :: 0 < i < |c| - 1 && start < End(c[i]) && c[i].start < start + count
  }

  /** It is enough to look at the two cells that the interval would go between. */
  lemma ClashIsLocal(c: seq<Cell>, i: int, start: int, count: int)
    requires Laid(c) && 0 < count && IsAfter(c, i, start)
    ensures Clash(c, start, count) <==> End(c[i - 1]) > start || start + count > c[i].start
  {
    var n := |c| - 1;
    if End(c[i - 1]) > start {
      assert i - 1 > 0 ==> c[i - 1].start <= start;
    } else if start + count > c[i].start {
      assert i < n ==> start < End(c[i]);
    } else {
      forall j | 0 < j < n ensures !(start < End(c[j]) && c[j].start < start + count) {
        assert j < i - 1 ==> End(c[j]) <= c[i - 1].start;
        assert i < j ==> c[i].start <= c[j].start;
      }
      assert c[0].start <= End(c[i - 1]) && c[i].start <= c[n].start;
    }
  }

  lemma PutIn(c: seq<Cell>, i: int, start: int, count: int)
    requires Laid(c) && 0 < count && 0 < i < |c| && End(c[i - 1]) <= start && start + count <= c[i].start
    ensures Laid(Inserted(c, i, Cell(start, count, false)))
  {
    hide Inserted;
    var x := Cell(start, count, false);
    var r := Inserted(c, i, x);
    InsertedAt(c, i, x);
    forall a, b | 0 <= a < b < |r| ensures End(r[a]) <= r[b].start {
      assert a < i - 1 ==> End(c[a]) <= c[i - 1].start <= End(c[i - 1]);
      assert i < |c| - 1 ==> c[i].start <= End(c[i]);
      assert i + 1 < b ==> End(c[i]) <= c[b - 1].start;
    }
  }

  /** What putting an area between two cells does to the counts. */
  lemma AddTally(c: seq<Cell>, i: int, start: int, count: int)
    requires Laid(c) && 0 < count && 0 < i < |c| && End(c[i - 1]) <= start && start + count <= c[i].start
    ensures var n := Inserted(c, i, Cell(start, count, false));
      && Laid(n) && |n| == |c| + 1
      && Count(n, Hole) == Count(c, Hole) - 1
           + (if End(c[i - 1]) == start then 0 else 1) + (if start + count == c[i].start then 0 else 1)
      && Count(n, Neigh) == Count(c, Neigh)
           + (if End(c[i - 1]) == start && i != 1 then 1 else 0)
           + (if start + count == c[i].start && i != |c| - 1 then 1 else 0)
  {
    hide Count, Inserted;
    var x := Cell(start, count, false);
    PutIn(c, i, start, count);
    InsertedAt(c, i, x);
    CountAdd(c, i, x, Hole);
    CountAdd(c, i, x, Neigh);
  }

  /** What taking an area out does to the counts. */
  lemma CutTally(c: seq<Cell>, i: int)
    requires Laid(c) && 0 < i < |c| - 1
    ensures var n := Removed(c, i);
      && Laid(n) && |n| == |c| - 1
      && Count(n, Hole) == Count(c, Hole) + 1
           - (if End(c[i - 1]) == c[i].start then 0 else 1) - (if End(c[i]) == c[i + 1].start then 0 else 1)
      && Count(n, Neigh) == Count(c, Neigh)
           - (if End(c[i - 1]) == c[i].start && i != 1 then 1 else 0)
           - (if End(c[i]) == c[i + 1].start && i != |c| - 2 then 1 else 0)
  {
    hide Count, Removed;
    TakeOut(c, i);
    RemovedAt(c, i);
    CountCut(c, i, Hole);
    CountCut(c, i, Neigh);
  }

  /** What a new size of an area does to the counts. */
  lemma SizeTally(c: seq<Cell>, i: int, size: int)
    requires Laid(c) && 0 < i < |c| - 1 && 0 < size && c[i].start + size <= c[i + 1].start
    ensures var n := c[i := c[i].(size := size)];
      && Laid(n)
      && Count(n, Hole) == Count(c, Hole)
           + (if End(c[i]) == c[i + 1].start then 1 else 0) - (if c[i].start + size == c[i + 1].start then 1 else 0)
      && Count(n, Neigh) == Count(c, Neigh)
           - (if End(c[i]) == c[i + 1].start && i != |c| - 2 then 1 else 0)
           + (if c[i].start + size == c[i + 1].start && i != |c| - 2 then 1 else 0)
  {
    hide Count, Removed, Inserted, Laid;
    var rest := Removed(c, i);
    RemovedAt(c, i);
    CutTally(c, i);
    Sorted(c, i);
    AddTally(rest, i, c[i].start, size);
    SetIsMove(c, i, c[i].(size := size));
  }

  lemma Sorted(c: seq<Cell>, i: int)
    requires Laid(c) && 0 < i < |c| - 1
    ensures End(c[i - 1]) <= c[i].start && End(c[i]) <= c[i + 1].start && !c[i].bumper && 0 < c[i].size
    ensures c[i - 1].start <= c[i].start && c[i].start < c[|c| - 1].start
  {
    assert i - 1 > 0 ==> c[i - 1].size > 0;
  }

  /** An area collides, at its own place, exactly with the cell after it. */
  lemma GrowthIsLocal(c: seq<Cell>, i: int, size: int)
    requires Laid(c) && 0 < i < |c| - 1 && 0 < size
    ensures Clash(Removed(c, i), c[i].start, size) <==> c[i].start + size > c[i + 1].start
  {
    var rest := Removed(c, i);
    RemovedAt(c, i);
    TakeOut(c, i);
    Sorted(c, i);
    forall j | 0 < j < i ensures rest[j].start <= c[i].start {
      assert End(c[j]) <= c[i].start;
    }
    ClashIsLocal(rest, i, c[i].start, size);
  }

  /** Splitting an area adds a border and keeps the holes. */
  lemma SplitTally(c: seq<Cell>, i: int, page: int)
    requires Laid(c) && 0 < i < |c| - 1 && c[i].start < page < End(c[i])
    ensures var n := Inserted(c[i := c[i].(size := page - c[i].start)], i + 1, Cell(page, End(c[i]) - page, false));
      Laid(n) && |n| == |c| + 1 && Count(n, Hole) == Count(c, Hole) && Count(n, Neigh) == Count(c, Neigh) + 1
  {
    hide Count, Removed, Inserted, Laid;
    Sorted(c, i);
    SizeTally(c, i, page - c[i].start);
    AddTally(c[i := c[i].(size := page - c[i].start)], i + 1, page, End(c[i]) - page);
  }

  /** Merging two areas takes a border away and keeps the holes. */
  lemma MergeTally(c: seq<Cell>, i: int)
    requires Laid(c) && 0 < i && i + 1 < |c| - 1 && End(c[i]) == c[i + 1].start
    ensures var n := Removed(c, i + 1)[i := c[i].(size := c[i].size + c[i + 1].size)];
      Laid(n) && |n| == |c| - 1 && Count(n, Hole) == Count(c, Hole) && Count(n, Neigh) == Count(c, Neigh) - 1
  {
    hide Count, Removed, Inserted, Laid;
    Sorted(c, i);
    Sorted(c, i + 1);
    RemovedAt(c, i + 1);
    CutTally(c, i + 1);
    SizeTally(Removed(c, i + 1), i, c[i].size + c[i + 1].size);
  }

  /** The area that holds a page is the one before the search for that page. */
  lemma HolderIsBefore(c: seq<Cell>, k: int, i: int, page: int)
    requires Laid(c) && 0 < k < |c| - 1 && c[k].start < page < End(c[k]) && IsAfter(c, i, page)
    ensures i == k + 1
  {
    forall j | 0 < j <= k ensures c[j].start <= page {
      assert j < k ==> End(c[j]) <= c[k].start && 0 < c[j].size;
    }
    assert page < End(c[k]) <= c[k + 1].start;
  }

  lemma TakeOut(c: seq<Cell>, i: int)
    requires Laid(c) && 0 < i < |c| - 1
    ensures Laid(Removed(c, i))
  {
    RemovedAt(c, i);
  }

  /** Without area `n`, the interval would go where the search of `remap` points, with the area
      itself skipped. */
  lemma SearchSkips(c: seq<Cell>, n: int, i: int, page: int)
    requires Laid(c) && 0 < n < |c| - 1 && IsAfter(c, i, page)
    ensures IsAfter(Removed(c, n), if i <= n then i else i - 1, page)
  {
    RemovedAt(c, n);
    assert c[n].start <= End(c[n]) <= c[n + 1].start;
    if i == n + 1 {
      assert c[n].start <= page;
    }
  }
}

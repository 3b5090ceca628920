/** Circular doubly linked lists. The other members of the structure that a link is embedded in
    are the `data` of the link. Models kernel/adt/list.h and kernel/tests/include/tst_list.h. */
module LinkedRing {
  import opened Basics

  class Link<T> {
    var prev: Link?<T>
    var next: Link?<T>
    var data: T

    /** `link_init` of a new structure. */
    constructor (data: T)
      ensures this.data == data && prev == null && next == null
    {
      this.data, prev, next := data, null, null;
    }
  }

  function Succ(n: int, i: int): int {
    if i + 1 == n then 0 else i + 1
  }

  function Pred(n: int, i: int): int {
    if i == 0 then n - 1 else i - 1
  }

  ghost predicate LinkedAt<T>(r: seq<Link<T>>, i: int)
    requires 0 <= i < |r|
    reads r`prev, r`next
  {
    r[i].next == r[Succ(|r|, i)] && r[i].prev == r[Pred(|r|, i)]
  }

  /** The links of `r` are linked to each other in this order, the last one to the first. */
  ghost predicate Ring<T>(r: seq<Link<T>>)
    reads r`prev, r`next
  {
    r != [] && NoRepeats(r) && forall i :: 0 <= i < |r| ==> LinkedAt(r, i)
  }

  lemma At<T>(r: seq<Link<T>>, i: int)
    requires Ring(r) && 0 <= i < |r|
    ensures r[i].next == r[Succ(|r|, i)] && r[i].prev == r[Pred(|r|, i)]
  {
    assert LinkedAt(r, i);
  }

  lemma Different<T>(r: seq<T>, i: int, j: int)
    requires NoRepeats(r) && 0 <= i < |r| && 0 <= j < |r| && i != j
    ensures r[i] != r[j]
  {
  }

  function Inserted<T>(r: seq<T>, k: int, x: T): seq<T>
    requires 0 <= k <= |r|
  {
    r[..k] + [x] + r[k..]
  }

  function Removed<T>(r: seq<T>, k: int): seq<T>
    requires 0 <= k < |r|
  {
    r[..k] + r[k + 1..]
  }

  /** Without what is between two places. */
  function Skipped<T>(r: seq<T>, i: int, j: int): seq<T>
    requires 0 <= i < j <= |r|
  {
    r[..i + 1] + r[j..]
  }

  lemma InsertedAt<T>(r: seq<T>, k: int, x: T)
    requires 0 <= k <= |r|
    ensures var n := Inserted(r, k, x);
      && |n| == |r| + 1
      && (forall i :: 0 <= i < k ==> n[i] == r[i])
      && n[k] == x
      && (forall i :: k < i < |n| ==> n[i] == r[i - 1])
      && (forall y :: y in n ==> y == x || y in r)
  {
  }

  lemma RemovedAt<T>(r: seq<T>, k: int)
    requires 0 <= k < |r|
    ensures var n := Removed(r, k);
      && |n| == |r| - 1
      && (forall i :: 0 <= i < k ==> n[i] == r[i])
      && (forall i :: k <= i < |n| ==> n[i] == r[i + 1])
      && (forall y :: y in n ==> y in r)
  {
  }

  /** `__tst_list_add`, and what `list_append` and `list_prepend` do: a link goes between two
      consecutive ones, the second of which may be the first of the ring again. */
  method Insert<T>(link: Link<T>, prev: Link<T>, next: Link<T>, ghost r: seq<Link<T>>, ghost k: int)
    requires Ring(r) && 0 < k <= |r| && link !in r
    requires prev == r[k - 1] && next == r[if k == |r| then 0 else k]
    modifies link`prev, link`next, prev`next, next`prev
    ensures Ring(Inserted(r, k, link))
  {
    hide Inserted, NoRepeats;
    At(r, k - 1);
    link.next := next;
    link.prev := prev;
    next.prev := link;
    prev.next := link;
    InsertedAt(r, k, link);
    InsertedOnce(r, k, link);
    ghost var n := Inserted(r, k, link);
    ghost var j := if k == |r| then 0 else k;
    forall i | 0 <= i < |n| ensures LinkedAt(n, i) {
      if i != k {
        ghost var m := if i < k then i else i - 1;
        assert old(LinkedAt(r, m)) && n[i] == r[m];
        if m != k - 1 {
          Different(r, m, k - 1);
        }
        if m != j {
          Different(r, m, j);
        }
      }
    }
  }

  lemma InsertedOnce<T>(r: seq<T>, k: int, x: T)
    requires 0 <= k <= |r| && NoRepeats(r) && x !in r
    ensures NoRepeats(Inserted(r, k, x))
  {
    InsertedAt(r, k, x);
  }

  /** `__tst_list_del`, and what `list_remove` does to the two neighbours: all links between two
      are left out. The second one may be the first of the ring again. */
  method Bypass<T>(prev: Link<T>, next: Link<T>, ghost r: seq<Link<T>>, ghost i: int, ghost j: int)
    requires Ring(r) && 0 <= i < j <= |r| && prev == r[i] && next == r[if j == |r| then 0 else j]
    modifies prev`next, next`prev
    ensures Ring(Skipped(r, i, j))
  {
    hide Skipped, NoRepeats;
    next.prev := prev;
    prev.next := next;
    LeftOut(r, i, j);
    ghost var n := Skipped(r, i, j);
    ghost var l := if j == |r| then 0 else j;
    forall k | 0 <= k < |n| ensures LinkedAt(n, k) {
      ghost var m := if k <= i then k else k + (j - i - 1);
      assert old(LinkedAt(r, m)) && n[k] == r[m];
      if m != i {
        Different(r, m, i);
      }
      if m != l {
        Different(r, m, l);
      }
    }
  }

  lemma LeftOut<T>(r: seq<T>, i: int, j: int)
    requires 0 <= i < j <= |r|
    ensures var n := Skipped(r, i, j);
      && |n| == |r| - (j - i - 1)
      && (forall k :: 0 <= k <= i ==> n[k] == r[k])
      && (forall k :: i < k < |n| ==> n[k] == r[k + (j - i - 1)])
    ensures NoRepeats(r) ==> NoRepeats(Skipped(r, i, j))
  {
  }

  /** `tst_list_del` */
  method Delete<T>(entry: Link<T>, ghost r: seq<Link<T>>, ghost k: int)
    requires Ring(r) && 0 < k < |r| && entry == r[k]
    modifies r`prev, r`next
    ensures Ring(Removed(r, k)) && entry.next == entry && entry.prev == entry
  {
    At(r, k);
    Bypass(entry.prev, entry.next, r, k - 1, k + 1);
    entry.next, entry.prev := entry, entry;
  }

  /** `tst_list_get_nth`: the entry with a given number after the head, or null. */
  method GetNth<T>(head: Link<T>, nth: int, ghost r: seq<Link<T>>) returns (entry: Link?<T>)
    requires Ring(r) && head == r[0]
    ensures entry == if 0 <= nth < |r| - 1 then r[nth + 1] else null
  {
    var cnt := nth;
    At(r, 0);
    entry := head.next;
    ghost var i := Succ(|r|, 0);
    while entry != head
      invariant 0 <= i < |r| && entry == r[i]
      invariant (0 <= nth ==> 0 <= cnt) && cnt + (if i == 0 then |r| else i) == nth + 1
      decreases if i == 0 then 0 else |r| - i
    {
      if cnt == 0 {
        return;
      }
      cnt := cnt - 1;
      At(r, i);
      entry := entry.next;
      i := Succ(|r|, i);
    }
    entry := null;
  }

  lemma TakenOut<T>(head: Link<T>, items: seq<Link<T>>, k: int)
    requires Ring([head] + items) && 0 <= k < |items|
    ensures Skipped([head] + items, k, k + 2) == [head] + Removed(items, k)
    ensures items[k] !in Removed(items, k) && items[k] != head
  {
    var r := [head] + items;
    assert r[k + 1] == items[k] && r[0] == head;
    forall i | 0 <= i < |items| && i != k ensures items[i] != items[k] {
      assert r[i + 1] == items[i];
    }
  }

  lemma InHead<T>(head: Link<T>, items: seq<Link<T>>)
    ensures forall x :: x in [head] + items <==> x == head || x in items
  {
  }

  /** `list_t`, with the links that are in it. */
  class List<T> {
    const head: Link<T>
    ghost var items: seq<Link<T>>

    ghost predicate Valid()
      reads this, head, items
    {
      Ring([head] + items)
    }

    /** `list_init` */
    constructor (head: Link<T>)
      modifies head`prev, head`next
      ensures Valid() && this.head == head && items == []
    {
      this.head, items := head, [];
      new;
      head.prev, head.next := head, head;
    }

    method IsEmpty() returns (empty: bool)
      requires Valid()
      ensures empty <==> items == []
    {
      empty := head.next == head;
      At([head] + items, 0);
      if items != [] {
        assert ([head] + items)[1] == items[0];
      }
    }

    /** `list_append` */
    method Append(link: Link<T>)
      requires Valid() && link !in items && link != head
      modifies this`items, link`prev, link`next, head`prev, head`next, items`prev, items`next
      ensures Valid() && items == old(items) + [link]
    {
      ghost var r := [head] + items;
      At(r, 0);
      InHead(head, items);
      Insert(link, head.prev, head, r, |r|);
      items := items + [link];
      assert Inserted(r, |r|, link) == [head] + items;
    }

    /** `list_prepend` */
    method Prepend(link: Link<T>)
      requires Valid() && link !in items && link != head
      modifies this`items, link`prev, link`next, head`prev, head`next, items`prev, items`next
      ensures Valid() && items == [link] + old(items)
    {
      ghost var r := [head] + items;
      At(r, 0);
      InHead(head, items);
      Insert(link, head, head.next, r, 1);
      items := [link] + items;
      assert Inserted(r, 1, link) == [head] + items;
    }

    /** `list_remove` of a link that is in this list, or in none. */
    method Remove(link: Link<T>, ghost k: int)
      requires Valid() && link != head
      requires if link in items then 0 <= k < |items| && items[k] == link else link.prev == null || link.next == null
      modifies this`items, link`prev, link`next, head`prev, head`next, items`prev, items`next
      ensures Valid() && link.prev == null && link.next == null && link !in items
      ensures items == if link in old(items) then Removed(old(items), k) else old(items)
    {
      hide Ring, Removed, Skipped;
      ghost var r := [head] + items;
      if link in items {
        At(r, k + 1);
      }
      if link.prev != null && link.next != null {
        assert r[k + 1] == link;
        At(r, k + 1);
        TakenOut(head, items, k);
        InHead(head, items);
        Bypass(link.prev, link.next, r, k, k + 2);
        items := Removed(items, k);
        InHead(head, items);
      }
      link.prev, link.next := null, null;
    }

    /** `list_pop` */
    method Pop() returns (item: Link?<T>)
      requires Valid()
      modifies this`items, head`prev, head`next, items`prev, items`next
      ensures Valid()
      ensures item == null <==> old(items == [])
      ensures item == null ==> items == []
      ensures item != null ==> item != head && item !in items
      ensures item != null ==> [item] + items == old(items) && item.prev == null && item.next == null
    {
      var empty := IsEmpty();
      if empty {
        return null;
      }
      At([head] + items, 0);
      assert ([head] + items)[1] == items[0];
      item := head.next;
      Remove(item, 0);
    }

    /** `list_rotate` */
    method Rotate() returns (item: Link?<T>)
      requires Valid()
      modifies this`items, head`prev, head`next, items`prev, items`next
      ensures Valid()
      ensures old(items == []) ==> item == null && items == []
      ensures old(items != []) ==> item == old(items[0]) && items == old(items[1..] + [items[0]])
    {
      hide Ring;
      var empty := IsEmpty();
      if empty {
        return null;
      }
      item := Pop();
      assert old(items)[0] == item && old(items)[1..] == items;
      assert forall x :: x in items ==> x in old(items);
      Append(item);
    }

    /** `list_foreach`, with the structures that it visits. */
    method Foreach() returns (visited: seq<Link<T>>)
      requires Valid()
      ensures visited == items
    {
      ghost var r := [head] + items;
      At(r, 0);
      visited := [];
      var link := head.next;
      ghost var i := Succ(|r|, 0);
      while link != head
        invariant 0 <= i < |r| && link == r[i]
        invariant visited == if i == 0 then items else items[..i - 1]
        decreases if i == 0 then 0 else |r| - i
      {
        At(r, i);
        visited := visited + [link];
        link := link.next;
        i := Succ(|r|, i);
      }
    }
  }
}

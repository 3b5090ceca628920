/** A list of structures that have a link of it inside, as the run queue and the list of timers
    are. Models the use of kernel/adt/list.h in kernel/sched/sched.c and kernel/time/timer.c. */
module LinkedQueue {
  import opened Basics
  import opened LinkedRing

  lemma RemovedHas<T>(r: seq<T>, k: int, x: T)
    requires 0 <= k < |r| && x !in Removed(r, k)
    ensures x !in r || x == r[k]
  {
  }

  class Queue<K(==)> {
    const list: List<K>
    /** The link inside each structure; the structure is the `data` of the link. */
    var links: map<K, Link<K>>
    /** The structures in the list, in order. */
    ghost var keys: seq<K>
    ghost var Repr: set<object>

    ghost predicate Valid()
      reads this, Repr
    {
      && this in Repr && list in Repr && list.head in Repr && this as object != list
      && (forall l :: l in list.items ==> l in Repr)
      && (forall k :: k in links ==> links[k] in Repr)
      && list.Valid() && Holds()
    }

    /** The links of the listed structures are those in the list; no other link is connected. */
    ghost predicate Holds()
      requires list in Repr && list.head in Repr
      requires (forall l :: l in list.items ==> l in Repr) && (forall k :: k in links ==> links[k] in Repr)
      reads this, Repr
    {
      && |keys| == |list.items|
      && (forall i :: 0 <= i < |keys| ==> keys[i] in links && links[keys[i]] == list.items[i])
      && (forall k :: k in links ==> links[k] != list.head && links[k].data == k)
      && (forall k :: k in links && links[k] !in list.items ==> links[k].prev == null && links[k].next == null)
    }

    constructor (head: Link<K>)
      modifies head`prev, head`next
      ensures Valid() && keys == [] && links == map[] && fresh(Repr - {head})
    {
      var l := new List(head);
      list, links, keys := l, map[], [];
      new;
      Repr := {this, list, head};
    }

    /** The listed structures are all different, and exactly their links are in the list. */
    lemma Listed()
      requires Valid()
      ensures NoRepeats(keys) && NoRepeats(list.items)
      ensures forall k :: k in links ==> (links[k] in list.items <==> k in keys)
      ensures forall k :: k in keys ==> k in links
    {
      var r := [list.head] + list.items;
      assert forall i :: 0 <= i < |list.items| ==> r[i + 1] == list.items[i];
      forall k | k in links ensures links[k] in list.items <==> k in keys {
        if links[k] in list.items {
          var i :| 0 <= i < |list.items| && list.items[i] == links[k];
          assert keys[i] == links[keys[i]].data == k;
        }
      }
    }

    lemma IsListed(k: K)
      requires Valid() && k in links
      ensures links[k] in list.items <==> k in keys
    {
      Listed();
    }

    /** `link_init` of the link in a structure, which may be a new one. */
    method Init(k: K)
      requires Valid() && k !in keys
      modifies Repr
      ensures Valid() && keys == old(keys) && links.Keys == old(links.Keys) + {k} && fresh(Repr - old(Repr))
    {
      Listed();
      if k in links {
        links[k].prev, links[k].next := null, null;
      } else {
        var link := new Link(k);
        links := links[k := link];
        Repr := Repr + {link};
      }
    }

    /** The structure and its link are gone. */
    method Forget(k: K)
      requires Valid() && k in links && k !in keys
      modifies this
      ensures Valid() && keys == old(keys) && links.Keys == old(links.Keys) - {k} && Repr == old(Repr)
    {
      links := links - {k};
    }

    /** `list_append` of the link in a structure. */
    method Append(k: K)
      requires Valid() && k in links && k !in keys
      modifies Repr
      ensures Valid() && keys == old(keys) + [k] && links == old(links) && Repr == old(Repr)
    {
      Listed();
      list.Append(links[k]);
      keys := keys + [k];
    }

    /** `list_remove` of the link in a structure, whether it is in the list or not. */
    method Remove(k: K)
      requires Valid() && k in links
      modifies Repr
      ensures Valid() && keys == Basics.Remove(old(keys), k) && links == old(links) && Repr == old(Repr)
    {
      hide Holds, Queue.Valid;
      Listed();
      ghost var i := 0;
      if k in keys {
        i :| 0 <= i < |keys| && keys[i] == k;
        RemoveAt(keys, i);
      } else {
        RemoveAbsent(keys, k);
      }
      Unlink(k, i);
    }

    /** The same, with the place of the structure in the list, if it is there. */
    method Unlink(k: K, ghost i: int)
      requires Valid() && k in links && (k in keys ==> 0 <= i < |keys| && keys[i] == k)
      modifies Repr
      ensures Valid() && links == old(links) && Repr == old(Repr)
      ensures keys == if k in old(keys) then Removed(old(keys), i) else old(keys)
    {
      hide Removed, List.Valid;
      IsListed(k);
      ghost var was, listed := list.items, k in keys;
      list.Remove(links[k], i);
      if listed {
        RemovedAt(was, i);
        RemovedAt(keys, i);
        forall x | x in links && links[x] !in list.items ensures links[x] == links[k] || links[x] !in was {
          RemovedHas(was, i, links[x]);
        }
        keys := Removed(keys, i);
      }
    }

    /** `list_rotate`: the structure that was the first one, or None on the empty list. */
    method Rotate() returns (k: Option<K>)
      requires Valid()
      modifies Repr
      ensures Valid() && links == old(links) && Repr == old(Repr)
      ensures k == if old(keys) == [] then None else Some(old(keys)[0])
      ensures keys == if old(keys) == [] then [] else old(keys)[1..] + [old(keys)[0]]
    {
      var link := list.Rotate();
      if link == null {
        return None;
      }
      keys := keys[1..] + [keys[0]];
      return Some(link.data);
    }

    // -------------------------------------------------------------- list_foreach

    /** A loop over the list is at place `i`. */
    ghost predicate At(link: Link<K>, i: int)
      reads this, list
    {
      |keys| == |list.items| && 0 <= i <= |keys| && link == if i == |keys| then list.head else list.items[i]
    }

    /** The loop ends exactly after the last structure, and shows the structures in order. */
    lemma Shows(link: Link<K>, i: int)
      requires Valid() && At(link, i)
      ensures link == list.head <==> i == |keys|
      ensures i < |keys| ==> keys[i] == link.data
    {
      if i < |keys| {
        assert links[keys[i]] == link;
      }
    }

    method Begin() returns (link: Link<K>)
      requires Valid()
      ensures At(link, 0)
    {
      ghost var r := [list.head] + list.items;
      LinkedRing.At(r, 0);
      link := list.head.next;
    }

    method Advance(link: Link<K>, ghost i: int) returns (next: Link<K>)
      requires Valid() && At(link, i) && i < |keys|
      ensures At(next, i + 1)
    {
      ghost var r := [list.head] + list.items;
      assert r[i + 1] == link;
      LinkedRing.At(r, i + 1);
      next := link.next;
    }
  }
}

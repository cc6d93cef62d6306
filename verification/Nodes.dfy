/**
 * The intrusive list node shared by every list and by the hash table, and the circular
 * doubly linked list built from it.  Each list hangs off a dummy head.
 */
module Nodes {
  import opened Seqs

  class Node<K(0), V(0)> {
    var nextHash: Node?<K, V>
    var next: Node?<K, V>
    var prev: Node?<K, V>
    var refs: nat
    var hash: nat
    var key: K
    var value: V
    /** The dummy head of the list the node was last appended to; a head is its own. */
    ghost var home: Node?<K, V>
    /** On a dummy head: the nodes of its list, oldest first. */
    ghost var members: seq<Node<K, V>>

    /** A dummy head: an empty circular list. */
    constructor Head()
      ensures IsRing(this) && members == []
    {
      next, prev, home := this, this, this;
      members := [];
    }

    /** A node in no list yet. */
    constructor Fresh()
      ensures home == null
    {
      next, prev, home := null, null, null;
    }

    method Init(k: K, h: nat)
      modifies this`refs, this`hash, this`key
      ensures refs == 1 && hash == h && key == k
    {
      refs, hash, key := 1, h, k;
    }
  }

  /** The links of a circular list run through exactly `s`, in both directions. */
  ghost predicate Linked<K(0), V(0)>(head: Node<K, V>, s: seq<Node<K, V>>)
    reads head`next, head`prev, s`next, s`prev
  {
    && head.next == (if s == [] then head else s[0])
    && head.prev == (if s == [] then head else s[|s| - 1])
    && (forall i {:trigger s[i].next} :: 0 <= i < |s| ==> s[i].next == if i + 1 < |s| then s[i + 1] else head)
    && (forall i {:trigger s[i].prev} :: 0 <= i < |s| ==> s[i].prev == if i > 0 then s[i - 1] else head)
  }

  /** The circular list behind `head`. */
  ghost predicate IsRing<K(0), V(0)>(head: Node<K, V>)
    reads head`next, head`prev, head`home, head`members
    reads head.members`next, head.members`prev, head.members`home
  {
    && head.home == head
    && head !in head.members
    && Distinct(head.members)
    && (forall i :: 0 <= i < |head.members| ==> head.members[i].home == head)
    && Linked(head, head.members)
  }

  method Unlink<K(0), V(0)>(e: Node<K, V>, ghost head: Node<K, V>, ghost s: seq<Node<K, V>>, ghost k: nat)
    requires Linked(head, s) && Distinct(s) && head !in s && k < |s| && s[k] == e
    modifies e.next`prev, e.prev`next
    ensures Linked(head, RemoveAt(s, k))
  {
    e.next.prev := e.prev;
    e.prev.next := e.next;
  }

  /** Unlinks `e`, the `k`-th node of its list. */
  method ListRemove<K(0), V(0)>(e: Node<K, V>, ghost k: nat)
    requires e.home != null && IsRing(e.home) && k < |e.home.members| && e.home.members[k] == e
    modifies e.next`prev, e.prev`next, e.home`members
    ensures e.home.members == RemoveAt(old(e.home.members), k)
    ensures IsRing(e.home) && e !in e.home.members
  {
    RemoveAtMembers(e.home.members, k);
    Unlink(e, e.home, e.home.members, k);
    e.home.members := RemoveAt(e.home.members, k);
  }

  /** Links `e` as the newest node of `list`, just before the dummy head. */
  method ListAppend<K(0), V(0)>(list: Node<K, V>, e: Node<K, V>)
    requires IsRing(list) && e !in list.members && e != list
    modifies e`next, e`prev, e`home, list.prev`next, list`prev, list`members
    ensures list.members == old(list.members) + [e]
    ensures IsRing(list)
  {
    e.next := list;
    e.prev := list.prev;
    e.prev.next := e;
    e.next.prev := e;
    e.home := list;
    list.members := list.members + [e];
  }
}

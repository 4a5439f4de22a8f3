/**
 The intrusive circular lists of 2/utilidades/list.h. A list is a sentinel and the nodes that follow it;
 each operation is proved to do to the nodes what the same edit does to a sequence.
*/
module ListHeads {

  class ListHead {
    var next: ListHead
    var prev: ListHead
    /** The position of the structure that embeds this node, which `list_entry` recovers; -1 for a sentinel. */
    const entry: int

    /** INIT_LIST_HEAD on a new node. */
    constructor (entry: int)
      ensures next == this && prev == this && this.entry == entry
    {
      next, prev := this, this;
      this.entry := entry;
    }
  }

  /** The node after position i of the list, and the one before it: the sentinel closes the ring. */
  ghost function After(head: ListHead, s: seq<ListHead>, i: int): ListHead
    requires -1 <= i < |s|
  {
    if i + 1 < |s| then s[i + 1] else head
  }

  ghost function Before(head: ListHead, s: seq<ListHead>, i: int): ListHead
    requires 0 <= i <= |s|
  {
    if i > 0 then s[i - 1] else head
  }

  /** The sentinel and the nodes of s, in order, form one circular doubly linked list. */
  ghost predicate Ring(head: ListHead, s: seq<ListHead>)
    reads head, s
  {
    && head !in s
    && (forall i, j :: 0 <= i < j < |s| ==> s[i] != s[j])
    && (forall i {:trigger s[i].next} :: 0 <= i < |s| ==> s[i].next == After(head, s, i))
    && (forall i {:trigger s[i].prev} :: 0 <= i < |s| ==> s[i].prev == Before(head, s, i))
    && head.next == After(head, s, -1)
    && head.prev == Before(head, s, |s|)
  }

  /** __list_add: between two neighbours, which are one node when the list is empty. */
  method InsertBetween(novo: ListHead, prev: ListHead, next: ListHead)
    requires novo != prev && novo != next
    modifies novo, prev, next
    ensures novo.next == next && novo.prev == prev && prev.next == novo && next.prev == novo
    ensures prev != next ==> prev.prev == old(prev.prev) && next.next == old(next.next)
  {
    next.prev := novo;
    novo.next := next;
    novo.prev := prev;
    prev.next := novo;
  }

  method ListAdd(novo: ListHead, head: ListHead, ghost s: seq<ListHead>)
    requires Ring(head, s) && novo != head && novo !in s
    modifies novo, head, head.next
    ensures Ring(head, [novo] + s)
  {
    InsertBetween(novo, head, head.next);
  }

  method ListAddTail(novo: ListHead, head: ListHead, ghost s: seq<ListHead>)
    requires Ring(head, s) && novo != head && novo !in s
    modifies novo, head, head.prev
    ensures Ring(head, s + [novo])
  {
    InsertBetween(novo, head.prev, head);
  }

  /** __list_del: the neighbours of a node point past it. */
  method Unlink(prev: ListHead, next: ListHead)
    modifies prev, next
    ensures prev.next == next && next.prev == prev
    ensures prev != next ==> prev.prev == old(prev.prev) && next.next == old(next.next)
  {
    next.prev := prev;
    prev.next := next;
  }

  /** The sequence without its element k. */
  ghost function Removed<T>(s: seq<T>, k: nat): (r: seq<T>)
    requires k < |s|
    ensures |r| == |s| - 1
    ensures forall i :: 0 <= i < |r| ==> r[i] == if i < k then s[i] else s[i + 1]
  {
    s[..k] + s[k + 1..]
  }

  /** The list with node k bypassed: its neighbours point past it, all other links are as they were. */
  ghost predicate Bypassed(head: ListHead, s: seq<ListHead>, k: nat)
    requires k < |s|
    reads head, s
  {
    && head !in s
    && (forall i, j :: 0 <= i < j < |s| ==> s[i] != s[j])
    && (forall i {:trigger s[i].next} :: 0 <= i < |s| && i != k ==>
          s[i].next == After(head, s, if i + 1 == k then k else i))
    && (forall i {:trigger s[i].prev} :: 0 <= i < |s| && i != k ==>
          s[i].prev == Before(head, s, if i == k + 1 then k else i))
    && head.next == After(head, s, if k == 0 then 0 else -1)
    && head.prev == Before(head, s, if k == |s| - 1 then k else |s|)
  }

  lemma RemovedDistinct(head: ListHead, s: seq<ListHead>, k: nat)
    requires k < |s| && head !in s && forall i, j :: 0 <= i < j < |s| ==> s[i] != s[j]
    ensures head !in Removed(s, k)
    ensures forall i, j :: 0 <= i < j < |s| - 1 ==> Removed(s, k)[i] != Removed(s, k)[j]
  {
  }

  lemma BypassedNext(head: ListHead, s: seq<ListHead>, k: nat)
    requires k < |s|
    requires forall i {:trigger s[i].next} :: 0 <= i < |s| && i != k ==>
               s[i].next == After(head, s, if i + 1 == k then k else i)
    ensures forall i :: 0 <= i < |s| - 1 ==> Removed(s, k)[i].next == After(head, Removed(s, k), i)
  {
    var r := Removed(s, k);
    forall i | 0 <= i < |r| ensures r[i].next == After(head, r, i) {
      assert r[i] == s[if i < k then i else i + 1];
    }
  }

  lemma BypassedPrev(head: ListHead, s: seq<ListHead>, k: nat)
    requires k < |s|
    requires forall i {:trigger s[i].prev} :: 0 <= i < |s| && i != k ==>
               s[i].prev == Before(head, s, if i == k + 1 then k else i)
    ensures forall i :: 0 <= i < |s| - 1 ==> Removed(s, k)[i].prev == Before(head, Removed(s, k), i)
  {
    var r := Removed(s, k);
    forall i | 0 <= i < |r| ensures r[i].prev == Before(head, r, i) {
      assert r[i] == s[if i < k then i else i + 1];
    }
  }

  lemma BypassedIsRing(head: ListHead, s: seq<ListHead>, k: nat)
    requires k < |s| && Bypassed(head, s, k)
    ensures Ring(head, Removed(s, k))
  {
    assert |Removed(s, k)| == |s| - 1;
    hide Removed, After, Before;
    RemovedDistinct(head, s, k);
    BypassedNext(head, s, k);
    BypassedPrev(head, s, k);
  }

  /** __list_del on the neighbours of a node. */
  method UnlinkNode(node: ListHead, head: ListHead, ghost s: seq<ListHead>, ghost k: nat)
    requires Ring(head, s) && k < |s| && s[k] == node
    modifies node.prev, node.next
    ensures Ring(head, Removed(s, k))
  {
    hide Removed;
    ghost var p, n := Before(head, s, k), After(head, s, k);
    Unlink(node.prev, node.next);
    assert p.next == n && n.prev == p;
    BypassedIsRing(head, s, k);
  }

  method ListDelInit(node: ListHead, head: ListHead, ghost s: seq<ListHead>, ghost k: nat)
    requires Ring(head, s) && k < |s| && s[k] == node
    modifies node, node.prev, node.next
    ensures Ring(head, Removed(s, k))
    ensures Ring(node, [])
  {
    UnlinkNode(node, head, s, k);
    node.next, node.prev := node, node;
  }

  /** list_move: from one list to the front of another. */
  method ListMove(node: ListHead, from: ListHead, ghost s: seq<ListHead>, ghost k: nat,
                  to: ListHead, ghost t: seq<ListHead>)
    requires Ring(from, s) && k < |s| && s[k] == node
    requires Ring(to, t) && to != from && to !in s && from !in t && (forall n :: n in s ==> n !in t)
    modifies from, s, to, t
    ensures Ring(from, Removed(s, k)) && Ring(to, [node] + t)
  {
    assert node.prev == Before(from, s, k) && node.next == After(from, s, k);
    assert forall i :: 0 <= i < |t| ==> t[i] !in s;
    UnlinkNode(node, from, s, k);
    assert node !in Removed(s, k) && (forall n :: n in Removed(s, k) ==> n in s);
    ListAdd(node, to, t);
  }

  predicate ListEmpty(head: ListHead, ghost s: seq<ListHead>)
    requires Ring(head, s)
    reads head, s
    ensures ListEmpty(head, s) <==> s == []
  {
    head.next == head
  }

  /** list_splice_init: all of one list goes to the front of another, and the first becomes empty. */
  method ListSpliceInit(list: ListHead, ghost s: seq<ListHead>, head: ListHead, ghost t: seq<ListHead>)
    requires Ring(list, s) && Ring(head, t)
    requires list != head && list !in t && head !in s && (forall n :: n in s ==> n !in t)
    modifies list, s, head, t
    ensures Ring(head, s + t) && Ring(list, [])
  {
    if ListEmpty(list, s) {
      assert s + t == t;
    } else {
      ghost var joint := After(head, t, -1);
      var first, last, at := list.next, list.prev, head.next;
      assert first == s[0] && last == s[|s| - 1] && at == joint;
      assert forall i :: 0 <= i < |t| ==> t[i] !in s;
      first.prev := head;
      head.next := first;
      last.next := at;
      at.prev := last;
      list.next, list.prev := list, list;
      SplicedIsRing(s, head, t);
    }
  }

  /** Two chains joined end to start, and closed by the sentinel. */
  lemma SplicedIsRing(s: seq<ListHead>, head: ListHead, t: seq<ListHead>)
    requires s != [] && head !in s && head !in t && (forall i :: 0 <= i < |t| ==> t[i] !in s)
    requires forall i, j :: 0 <= i < j < |s| ==> s[i] != s[j]
    requires forall i, j :: 0 <= i < j < |t| ==> t[i] != t[j]
    requires forall i {:trigger s[i].prev} :: 0 <= i < |s| ==> s[i].prev == Before(head, s, i)
    requires forall i {:trigger s[i].next} :: 0 <= i < |s| - 1 ==> s[i].next == s[i + 1]
    requires s[|s| - 1].next == After(head, t, -1) && After(head, t, -1).prev == s[|s| - 1]
    requires forall i {:trigger t[i].next} :: 0 <= i < |t| ==> t[i].next == After(head, t, i)
    requires forall i {:trigger t[i].prev} :: 1 <= i < |t| ==> t[i].prev == t[i - 1]
    requires t != [] ==> head.prev == t[|t| - 1]
    requires head.next == s[0]
    ensures Ring(head, s + t)
  {
    var u := s + t;
    forall i, j | 0 <= i < j < |u| ensures u[i] != u[j] {
      if i < |s| <= j {
        assert u[j] == t[j - |s|];
      }
    }
    forall i | 0 <= i < |u| ensures u[i].next == After(head, u, i) {
      if i >= |s| {
        assert u[i] == t[i - |s|];
      }
    }
    forall i | 0 <= i < |u| ensures u[i].prev == Before(head, u, i) {
      if i >= |s| {
        assert u[i] == t[i - |s|];
      }
    }
  }
}

/** Doubly linked lists whose head is one word, so that an element can be inserted
    before another or removed without knowing the head. */
module DoublyLinkedList {
  import opened Links

  ghost predicate ListQ(h: Link, s: seq<Link>)
    reads h, s
  {
    && Chain(h, s)
    && forall i {:trigger s[i].prev} :: 0 <= i < |s| ==> s[i].prev == Before(h, s, i)
  }

  method Init(h: Link)
    modifies h`next
    ensures ListQ(h, [])
  {
    h.next := null;
  }

  method InsertHead(h: Link, elm: Link, ghost s: seq<Link>)
    requires ListQ(h, s) && elm != h && elm !in s
    modifies h`next, elm, s`prev
    ensures ListQ(h, [elm] + s)
  {
    ChainIsAcyclic(h, s);
    elm.next := h.next;
    if elm.next != null {
      h.next.prev := elm;
    }
    h.next := elm;
    elm.prev := h;
  }

  method InsertBefore(listelm: Link, elm: Link, ghost h: Link, ghost s: seq<Link>, ghost k: nat)
    requires ListQ(h, s) && elm != h && elm !in s
    requires k < |s| && s[k] == listelm
    modifies elm, listelm`prev, Before(h, s, k)`next
    ensures ListQ(h, s[..k] + [elm] + s[k..])
  {
    ChainIsAcyclic(h, s);
    elm.prev := listelm.prev;
    elm.next := listelm;
    listelm.prev.next := elm;
    listelm.prev := elm;
  }

  method InsertAfter(listelm: Link, elm: Link, ghost h: Link, ghost s: seq<Link>, ghost k: nat)
    requires ListQ(h, s) && elm != h && elm !in s
    requires k < |s| && s[k] == listelm
    modifies elm, listelm`next, s`prev
    ensures ListQ(h, s[..k + 1] + [elm] + s[k + 1..])
  {
    ChainIsAcyclic(h, s);
    elm.next := listelm.next;
    if elm.next != null {
      listelm.next.prev := elm;
    }
    listelm.next := elm;
    elm.prev := listelm;
  }

  method Remove(elm: Link, ghost h: Link, ghost s: seq<Link>, ghost k: nat)
    requires ListQ(h, s)
    requires k < |s| && s[k] == elm
    modifies Before(h, s, k)`next, s`prev
    ensures ListQ(h, Without(s, k))
    ensures elm.next == old(elm.next) && elm.prev == old(elm.prev)
  {
    ChainIsAcyclic(h, s);
    if elm.next != null {
      elm.next.prev := elm.prev;
    }
    elm.prev.next := elm.next;
  }

  method Replace(elm: Link, elm2: Link, ghost h: Link, ghost s: seq<Link>, ghost k: nat)
    requires ListQ(h, s) && elm2 != h && elm2 !in s
    requires k < |s| && s[k] == elm
    modifies Before(h, s, k)`next, s`prev, elm2
    ensures ListQ(h, s[k := elm2])
    ensures elm.next == old(elm.next) && elm.prev == old(elm.prev)
  {
    ChainIsAcyclic(h, s);
    elm2.next := elm.next;
    if elm2.next != null {
      elm2.next.prev := elm2;
    }
    elm2.prev := elm.prev;
    elm2.prev.next := elm2;
  }

  method Swap(h1: Link, h2: Link, ghost s1: seq<Link>, ghost s2: seq<Link>)
    requires ListQ(h1, s1) && ListQ(h2, s2)
    requires h1 == h2 || Apart(h1, s1, h2, s2)
    modifies h1`next, h2`next, s1`prev, s2`prev
    ensures ListQ(h1, s2) && ListQ(h2, s1)
  {
    ChainIsAcyclic(h1, s1);
    ChainIsAcyclic(h2, s2);
    if h1 == h2 { ChainIsUnique(h1, s1, s2); }
    var swapTmp := h1.next;
    h1.next := h2.next;
    h2.next := swapTmp;
    swapTmp := h1.next;
    if swapTmp != null {
      swapTmp.prev := h1;
    }
    swapTmp := h2.next;
    if swapTmp != null {
      swapTmp.prev := h2;
    }
  }

  method Prev(elm: Link, h: Link, ghost s: seq<Link>, ghost k: nat) returns (before: Link?)
    requires ListQ(h, s)
    requires k < |s| && s[k] == elm
    ensures before == At(s, k - 1)
  {
    before := if elm.prev == h then null else elm.prev;
  }
}

/** Tail queues: doubly linked, with a head that knows its last next word. */
module TailQueue {
  import opened Links

  /** h heads a tail queue of the elements s: each prev is the cell whose next word
      points here, and the head's second word is the cell that holds the last next. */
  ghost predicate TailQ(h: Link, s: seq<Link>)
    reads h, s
  {
    && Chain(h, s)
    && h.prev == Before(h, s, |s|)
    && forall i {:trigger s[i].prev} :: 0 <= i < |s| ==> s[i].prev == Before(h, s, i)
  }

  method Init(h: Link)
    modifies h
    ensures TailQ(h, [])
  {
    h.next := null;
    h.prev := h;
  }

  method InsertHead(h: Link, elm: Link, ghost s: seq<Link>)
    requires TailQ(h, s) && elm != h && elm !in s
    modifies h, elm, s
    ensures TailQ(h, [elm] + s)
  {
    ChainIsAcyclic(h, s);
    elm.next := h.next;
    if elm.next != null {
      h.next.prev := elm;
    } else {
      h.prev := elm;
    }
    h.next := elm;
    elm.prev := h;
  }

  method InsertBefore(listelm: Link, elm: Link, ghost h: Link, ghost s: seq<Link>, ghost k: nat)
    requires TailQ(h, s) && elm != h && elm !in s
    requires k < |s| && s[k] == listelm
    modifies elm, listelm`prev, Before(h, s, k)`next
    ensures TailQ(h, s[..k] + [elm] + s[k..])
  {
    ChainIsAcyclic(h, s);
    elm.prev := listelm.prev;
    elm.next := listelm;
    listelm.prev.next := elm;
    listelm.prev := elm;
  }

  method InsertAfter(h: Link, listelm: Link, elm: Link, ghost s: seq<Link>, ghost k: nat)
    requires TailQ(h, s) && elm != h && elm !in s
    requires k < |s| && s[k] == listelm
    modifies h, elm, s
    ensures TailQ(h, s[..k + 1] + [elm] + s[k + 1..])
  {
    ChainIsAcyclic(h, s);
    elm.next := listelm.next;
    if elm.next != null {
      elm.next.prev := elm;
    } else {
      h.prev := elm;
    }
    listelm.next := elm;
    elm.prev := listelm;
  }

  method InsertTail(h: Link, elm: Link, ghost s: seq<Link>)
    requires TailQ(h, s) && elm != h && elm !in s
    modifies h, elm, s
    ensures TailQ(h, s + [elm])
  {
    ChainIsAcyclic(h, s);
    elm.next := null;
    elm.prev := h.prev;
    h.prev.next := elm;
    h.prev := elm;
  }

  method Concat(h1: Link, h2: Link, ghost s1: seq<Link>, ghost s2: seq<Link>)
    requires TailQ(h1, s1) && TailQ(h2, s2) && Apart(h1, s1, h2, s2)
    modifies h1, h2, s1, s2
    ensures TailQ(h1, s1 + s2) && TailQ(h2, [])
  {
    ChainIsAcyclic(h1, s1);
    ChainIsAcyclic(h2, s2);
    if h2.next != null {
      h1.prev.next := h2.next;
      h2.next.prev := h1.prev;
      h1.prev := h2.prev;
      Init(h2);
      forall i | 0 <= i < |s1 + s2|
        ensures (s1 + s2)[i].next == At(s1 + s2, i + 1)
        ensures (s1 + s2)[i].prev == Before(h1, s1 + s2, i)
      {
        var c := if i < |s1| then s1[i] else s2[i - |s1|];
        assert (s1 + s2)[i] == c;
      }
    }
  }

  method Remove(h: Link, elm: Link, ghost s: seq<Link>, ghost k: nat)
    requires TailQ(h, s)
    requires k < |s| && s[k] == elm
    modifies h, s
    ensures TailQ(h, Without(s, k))
    ensures elm.next == old(elm.next) && elm.prev == old(elm.prev)
  {
    ChainIsAcyclic(h, s);
    if elm.next != null {
      elm.next.prev := elm.prev;
    } else {
      h.prev := elm.prev;
    }
    elm.prev.next := elm.next;
  }

  method Replace(h: Link, elm: Link, elm2: Link, ghost s: seq<Link>, ghost k: nat)
    requires TailQ(h, s) && elm2 != h && elm2 !in s
    requires k < |s| && s[k] == elm
    modifies h, s, elm2
    ensures TailQ(h, s[k := elm2])
    ensures elm.next == old(elm.next) && elm.prev == old(elm.prev)
  {
    ChainIsAcyclic(h, s);
    elm2.next := elm.next;
    if elm2.next != null {
      elm2.next.prev := elm2;
    } else {
      h.prev := elm2;
    }
    elm2.prev := elm.prev;
    elm2.prev.next := elm2;
  }

  method Swap(h1: Link, h2: Link, ghost s1: seq<Link>, ghost s2: seq<Link>)
    requires TailQ(h1, s1) && TailQ(h2, s2)
    requires h1 == h2 || Apart(h1, s1, h2, s2)
    modifies h1, h2, s1, s2
    ensures TailQ(h1, s2) && TailQ(h2, s1)
  {
    ChainIsAcyclic(h1, s1);
    ChainIsAcyclic(h2, s2);
    if h1 == h2 { ChainIsUnique(h1, s1, s2); }
    var swapFirst, swapLast := h1.next, h1.prev;
    h1.next := h2.next;
    h1.prev := h2.prev;
    h2.next := swapFirst;
    h2.prev := swapLast;
    swapFirst := h1.next;
    if swapFirst != null {
      swapFirst.prev := h1;
    } else {
      h1.prev := h1;
    }
    swapFirst := h2.next;
    if swapFirst != null {
      swapFirst.prev := h2;
    } else {
      h2.prev := h2;
    }
  }

  /** The head's link to the last cell, reread as a head, leads back one cell; the
      next word found there is the last element, or the end if there is none. */
  method Last(h: Link, ghost s: seq<Link>) returns (last: Link?)
    requires TailQ(h, s)
    ensures last == At(s, |s| - 1)
  {
    last := h.prev.prev.next;
  }

  method Prev(elm: Link, ghost h: Link, ghost s: seq<Link>, ghost k: nat) returns (before: Link?)
    requires TailQ(h, s)
    requires k < |s| && s[k] == elm
    ensures before == At(s, k - 1)
  {
    before := elm.prev.prev.next;
  }

  ghost function Reversed(s: seq<Link>): (r: seq<Link>)
    ensures |r| == |s|
    ensures forall i :: 0 <= i < |s| ==> r[i] == s[|s| - 1 - i]
  {
    if s == [] then [] else Reversed(s[1..]) + [s[0]]
  }

  method Foreach(h: Link, ghost s: seq<Link>) returns (visited: seq<Link>)
    requires TailQ(h, s)
    ensures visited == s
  {
    visited := [];
    var x := h.next;
    while x != null
      invariant |visited| <= |s| && visited == s[..|visited|] && x == At(s, |visited|)
      decreases |s| - |visited|
    {
      visited := visited + [x];
      x := x.next;
    }
  }

  method ForeachReverse(h: Link, ghost s: seq<Link>) returns (visited: seq<Link>)
    requires TailQ(h, s)
    ensures visited == Reversed(s)
  {
    visited := [];
    var x := h.prev.prev.next;
    while x != null
      invariant |visited| <= |s| && visited == Reversed(s)[..|visited|]
      invariant x == At(s, |s| - 1 - |visited|)
      decreases |s| - |visited|
    {
      visited := visited + [x];
      x := x.prev.prev.next;
    }
  }
}

/** Singly linked tail queues: only the head has a second word, the cell of the last next. */
module SinglyLinkedTailQueue {
  import opened Links

  ghost predicate STailQ(h: Link, s: seq<Link>)
    reads h, s
  {
    Chain(h, s) && h.prev == Before(h, s, |s|)
  }

  method Init(h: Link)
    modifies h
    ensures STailQ(h, [])
  {
    h.next := null;
    h.prev := h;
  }

  method InsertHead(h: Link, elm: Link, ghost s: seq<Link>)
    requires STailQ(h, s) && elm != h && elm !in s
    modifies h, elm`next
    ensures STailQ(h, [elm] + s)
  {
    elm.next := h.next;
    if elm.next == null {
      h.prev := elm;
    }
    h.next := elm;
  }

  method InsertAfter(h: Link, listelm: Link, elm: Link, ghost s: seq<Link>, ghost k: nat)
    requires STailQ(h, s) && elm != h && elm !in s
    requires k < |s| && s[k] == listelm
    modifies h`prev, listelm`next, elm`next
    ensures STailQ(h, s[..k + 1] + [elm] + s[k + 1..])
  {
    ChainIsAcyclic(h, s);
    elm.next := listelm.next;
    if elm.next == null {
      h.prev := elm;
    }
    listelm.next := elm;
  }

  method InsertTail(h: Link, elm: Link, ghost s: seq<Link>)
    requires STailQ(h, s) && elm != h && elm !in s
    modifies h, s`next, elm`next
    ensures STailQ(h, s + [elm])
  {
    ChainIsAcyclic(h, s);
    elm.next := null;
    h.prev.next := elm;
    h.prev := elm;
  }

  method Concat(h1: Link, h2: Link, ghost s1: seq<Link>, ghost s2: seq<Link>)
    requires STailQ(h1, s1) && STailQ(h2, s2) && Apart(h1, s1, h2, s2)
    modifies h1, h2, s1`next
    ensures STailQ(h1, s1 + s2) && STailQ(h2, [])
  {
    ChainIsAcyclic(h1, s1);
    if h2.next != null {
      h1.prev.next := h2.next;
      h1.prev := h2.prev;
      Init(h2);
      forall i | 0 <= i < |s1 + s2|
        ensures (s1 + s2)[i].next == At(s1 + s2, i + 1)
      {
        var c := if i < |s1| then s1[i] else s2[i - |s1|];
        assert (s1 + s2)[i] == c;
      }
    }
  }

  method RemoveHead(h: Link, ghost s: seq<Link>)
    requires STailQ(h, s) && s != []
    modifies h
    ensures STailQ(h, s[1..])
  {
    h.next := h.next.next;
    if h.next == null {
      h.prev := h;
    }
  }

  method RemoveHeadUntil(h: Link, elm: Link, ghost s: seq<Link>, ghost k: nat)
    requires STailQ(h, s)
    requires k < |s| && s[k] == elm
    modifies h
    ensures STailQ(h, s[k + 1..])
  {
    h.next := elm.next;
    if h.next == null {
      h.prev := h;
    }
  }

  method RemoveAfter(h: Link, elm: Link, ghost s: seq<Link>, ghost k: nat)
    requires STailQ(h, s)
    requires k + 1 < |s| && s[k] == elm
    modifies h`prev, elm`next
    ensures STailQ(h, Without(s, k + 1))
  {
    ChainIsAcyclic(h, s);
    elm.next := elm.next.next;
    if elm.next == null {
      h.prev := elm;
    }
  }

  /** The search needs elm in the queue: past the end it would follow a null link. */
  method Remove(h: Link, elm: Link, ghost s: seq<Link>, ghost k: nat)
    requires STailQ(h, s)
    requires k < |s| && s[k] == elm
    modifies h, s`next
    ensures STailQ(h, Without(s, k))
    ensures elm.next == old(elm.next)
  {
    ChainIsAcyclic(h, s);
    if h.next == elm {
      RemoveHead(h, s);
      assert k == 0 && Without(s, 0) == s[1..];
    } else {
      var cur := h.next;
      ghost var i := 0;
      while cur.next != elm
        invariant 0 <= i < k && cur == s[i]
        decreases k - i
      {
        cur := cur.next;
        i := i + 1;
      }
      cur.next := cur.next.next;
      if cur.next == null {
        h.prev := cur;
      }
    }
  }

  method Swap(h1: Link, h2: Link, ghost s1: seq<Link>, ghost s2: seq<Link>)
    requires STailQ(h1, s1) && STailQ(h2, s2)
    requires h1 == h2 || Apart(h1, s1, h2, s2)
    modifies h1, h2
    ensures STailQ(h1, s2) && STailQ(h2, s1)
  {
    if h1 == h2 { ChainIsUnique(h1, s1, s2); }
    var swapFirst, swapLast := h1.next, h1.prev;
    h1.next := h2.next;
    h1.prev := h2.prev;
    h2.next := swapFirst;
    h2.prev := swapLast;
    if h1.next == null {
      h1.prev := h1;
    }
    if h2.next == null {
      h2.prev := h2;
    }
  }

  method Last(h: Link, ghost s: seq<Link>) returns (last: Link?)
    requires STailQ(h, s)
    ensures last == At(s, |s| - 1)
  {
    last := if h.next == null then null else h.prev;
  }
}

/** Circular queues: both ends of the list are marked by the head itself. */
module CircularQueue {
  import opened Links

  /** The element at position i, or the head outside the list. */
  ghost function AtOrHead(h: Link, s: seq<Link>, i: int): Link {
    if 0 <= i < |s| then s[i] else h
  }

  ghost predicate CircleQ(h: Link, s: seq<Link>)
    reads h, s
  {
    && h !in s
    && h.next == AtOrHead(h, s, 0)
    && h.prev == AtOrHead(h, s, |s| - 1)
    && (forall i {:trigger s[i].next} :: 0 <= i < |s| ==> s[i].next == AtOrHead(h, s, i + 1))
    && (forall i {:trigger s[i].prev} :: 0 <= i < |s| ==> s[i].prev == AtOrHead(h, s, i - 1))
  }

  lemma {:induction false} TailsDiffer(h: Link, s: seq<Link>, i: nat, j: nat)
    requires CircleQ(h, s)
    requires i < j < |s|
    ensures s[i] != s[j]
    decreases |s| - j
  {
    if s[i] == s[j] {
      assert s[i].next == AtOrHead(h, s, i + 1) && s[j].next == AtOrHead(h, s, j + 1);
      if j + 1 < |s| {
        TailsDiffer(h, s, i + 1, j + 1);
      }
    }
  }

  lemma AllDistinct(h: Link, s: seq<Link>)
    requires CircleQ(h, s)
    ensures Distinct(s)
  {
    forall i, j | 0 <= i < j < |s| ensures s[i] != s[j] {
      TailsDiffer(h, s, i, j);
    }
  }

  /** Going on and going back undo each other at every cell, the head included. */
  lemma LinksAreInverse(h: Link, s: seq<Link>, x: Link)
    requires CircleQ(h, s) && (x == h || x in s)
    ensures x.next != null && x.prev != null
    ensures x.next == h || x.next in s
    ensures x.prev == h || x.prev in s
    ensures x.next.prev == x && x.prev.next == x
  {
    if x != h {
      var i :| 0 <= i < |s| && s[i] == x;
      assert s[i].next == AtOrHead(h, s, i + 1) && s[i].prev == AtOrHead(h, s, i - 1);
    }
  }

  method Init(h: Link)
    modifies h
    ensures CircleQ(h, [])
  {
    h.next := h;
    h.prev := h;
  }

  method InsertHead(h: Link, elm: Link, ghost s: seq<Link>)
    requires CircleQ(h, s) && elm != h && elm !in s
    modifies h, elm, s`prev
    ensures CircleQ(h, [elm] + s)
  {
    AllDistinct(h, s);
    elm.next := h.next;
    elm.prev := h;
    if h.prev == h {
      h.prev := elm;
    } else {
      h.next.prev := elm;
    }
    h.next := elm;
  }

  method InsertBefore(h: Link, listelm: Link, elm: Link, ghost s: seq<Link>, ghost k: nat)
    requires CircleQ(h, s) && elm != h && elm !in s
    requires k < |s| && s[k] == listelm
    modifies h`next, elm, listelm`prev, s`next
    ensures CircleQ(h, s[..k] + [elm] + s[k..])
  {
    AllDistinct(h, s);
    elm.next := listelm;
    elm.prev := listelm.prev;
    if listelm.prev == h {
      h.next := elm;
    } else {
      listelm.prev.next := elm;
    }
    listelm.prev := elm;
  }

  method InsertAfter(h: Link, listelm: Link, elm: Link, ghost s: seq<Link>, ghost k: nat)
    requires CircleQ(h, s) && elm != h && elm !in s
    requires k < |s| && s[k] == listelm
    modifies h`prev, elm, listelm`next, s`prev
    ensures CircleQ(h, s[..k + 1] + [elm] + s[k + 1..])
  {
    AllDistinct(h, s);
    elm.next := listelm.next;
    elm.prev := listelm;
    if listelm.next == h {
      h.prev := elm;
    } else {
      listelm.next.prev := elm;
    }
    listelm.next := elm;
    ghost var t := s[..k + 1] + [elm] + s[k + 1..];
    forall i | 0 <= i < |t| ensures t[i].next == AtOrHead(h, t, i + 1) && t[i].prev == AtOrHead(h, t, i - 1) {
      assert i <= k ==> t[i] == s[i];
      assert i > k + 1 ==> t[i] == s[i - 1];
    }
  }

  method InsertTail(h: Link, elm: Link, ghost s: seq<Link>)
    requires CircleQ(h, s) && elm != h && elm !in s
    modifies h, elm, s`next
    ensures CircleQ(h, s + [elm])
  {
    AllDistinct(h, s);
    elm.next := h;
    elm.prev := h.prev;
    if h.next == h {
      h.next := elm;
    } else {
      h.prev.next := elm;
    }
    h.prev := elm;
  }

  method Remove(h: Link, elm: Link, ghost s: seq<Link>, ghost k: nat)
    requires CircleQ(h, s)
    requires k < |s| && s[k] == elm
    modifies h, s
    ensures CircleQ(h, Without(s, k))
    ensures elm.next == old(elm.next) && elm.prev == old(elm.prev)
  {
    AllDistinct(h, s);
    if elm.next == h {
      h.prev := elm.prev;
    } else {
      elm.next.prev := elm.prev;
    }
    if elm.prev == h {
      h.next := elm.next;
    } else {
      elm.prev.next := elm.next;
    }
  }

  function LoopNext(h: Link, elm: Link): Link?
    reads h, elm
  {
    if elm.next == h then h.next else elm.next
  }

  function LoopPrev(h: Link, elm: Link): Link?
    reads h, elm
  {
    if elm.prev == h then h.prev else elm.prev
  }

  ghost function Wrapped(i: nat, n: nat): nat
    requires i <= 2 * n
  {
    if i < n then i else i - n
  }

  /** Looping skips the head: the element after the last is the first. */
  lemma LoopNextIsCyclic(h: Link, s: seq<Link>, k: nat)
    requires CircleQ(h, s) && k < |s|
    ensures LoopNext(h, s[k]) == s[Wrapped(k + 1, |s|)]
  {
    assert s[k].next == AtOrHead(h, s, k + 1);
  }

  lemma LoopsUndoEachOther(h: Link, s: seq<Link>, x: Link)
    requires CircleQ(h, s) && x in s
    ensures LoopNext(h, x) in s && LoopPrev(h, LoopNext(h, x)) == x
    ensures LoopPrev(h, x) in s && LoopNext(h, LoopPrev(h, x)) == x
  {
    var i :| 0 <= i < |s| && s[i] == x;
    AllDistinct(h, s);
    assert s[i].next == AtOrHead(h, s, i + 1) && s[i].prev == AtOrHead(h, s, i - 1);
    assert s[0].prev == h && s[|s| - 1].next == h;
  }

  /** The element reached from position k by m steps of CIRCLEQ_LOOP_NEXT. */
  ghost function AfterSteps(h: Link, s: seq<Link>, k: nat, m: nat): (x: Link)
    requires CircleQ(h, s) && k < |s| && m <= |s|
    reads h, s
    ensures x == s[Wrapped(k + m, |s|)]
  {
    if m == 0 then s[k]
    else
      LoopNextIsCyclic(h, s, Wrapped(k + m - 1, |s|));
      LoopNext(h, AfterSteps(h, s, k, m - 1))
  }

  /** As many steps as there are elements visit each element once and come back. */
  lemma FullLoop(h: Link, s: seq<Link>, k: nat)
    requires CircleQ(h, s) && k < |s|
    ensures seq(|s|, m requires 0 <= m < |s| reads h, s requires CircleQ(h, s) => AfterSteps(h, s, k, m))
         == s[k..] + s[..k]
    ensures Distinct(s[k..] + s[..k])
    ensures AfterSteps(h, s, k, |s|) == s[k]
  {
    AllDistinct(h, s);
  }
}

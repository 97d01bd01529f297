/** Singly linked lists, and the list of client threads that the server keeps in one. */
module SinglyLinkedList {
  import opened Links

  method Init(h: Link)
    modifies h`next
    ensures Chain(h, [])
  {
    h.next := null;
  }

  method InsertHead(h: Link, elm: Link, ghost s: seq<Link>)
    requires Chain(h, s) && elm != h && elm !in s
    modifies h`next, elm`next
    ensures Chain(h, [elm] + s)
  {
    elm.next := h.next;
    h.next := elm;
  }

  method InsertAfter(listelm: Link, elm: Link, ghost h: Link, ghost s: seq<Link>, ghost k: nat)
    requires Chain(h, s) && elm != h && elm !in s
    requires k < |s| && s[k] == listelm
    modifies listelm`next, elm`next
    ensures Chain(h, s[..k + 1] + [elm] + s[k + 1..])
  {
    ChainIsAcyclic(h, s);
    elm.next := listelm.next;
    listelm.next := elm;
  }

  method RemoveHead(h: Link, ghost s: seq<Link>)
    requires Chain(h, s) && s != []
    modifies h`next
    ensures Chain(h, s[1..])
  {
    h.next := h.next.next;
  }

  method RemoveAfter(listelm: Link, ghost h: Link, ghost s: seq<Link>, ghost k: nat)
    requires Chain(h, s)
    requires k + 1 < |s| && s[k] == listelm
    modifies listelm`next
    ensures Chain(h, Without(s, k + 1))
  {
    ChainIsAcyclic(h, s);
    listelm.next := listelm.next.next;
  }

  /** The search needs elm in the list: past the end it would follow a null link. */
  method Remove(h: Link, elm: Link, ghost s: seq<Link>, ghost k: nat)
    requires Chain(h, s)
    requires k < |s| && s[k] == elm
    modifies h`next, s`next
    ensures Chain(h, Without(s, k))
    ensures elm.next == old(elm.next)
  {
    ChainIsAcyclic(h, s);
    if h.next == elm {
      RemoveHead(h, s);
      assert k == 0 && Without(s, 0) == s[1..];
    } else {
      var cur := h.next;
      ghost var i := 0;
      while cur.next != elm
        invariant 0 <= i < k && cur == s[i]
        decreases k - i
      {
        cur := cur.next;
        i := i + 1;
      }
      cur.next := cur.next.next;
    }
  }

  method Swap(h1: Link, h2: Link, ghost s1: seq<Link>, ghost s2: seq<Link>)
    requires Chain(h1, s1) && Chain(h2, s2)
    requires h1 == h2 || Apart(h1, s1, h2, s2)
    modifies h1`next, h2`next
    ensures Chain(h1, s2) && Chain(h2, s1)
  {
    if h1 == h2 { ChainIsUnique(h1, s1, s2); }
    var swapFirst := h1.next;
    h1.next := h2.next;
    h2.next := swapFirst;
  }

  /** Visits the elements in order.  The successor is read before the body runs, so the
      body may free the element it was given, or do with its links what it likes. */
  method ForeachSafe(h: Link, ghost s: seq<Link>) returns (visited: seq<Link>)
    requires Chain(h, s)
    modifies s
    ensures visited == s && Distinct(visited)
  {
    ChainIsAcyclic(h, s);
    visited := [];
    var x := h.next;
    while x != null
      invariant |visited| <= |s| && visited == s[..|visited|] && x == At(s, |visited|)
      invariant forall i {:trigger s[i].next} :: |visited| <= i < |s| ==> s[i].next == At(s, i + 1)
      decreases |s| - |visited|
    {
      var next := x.next;
      visited := visited + [x];
      x.next, x.prev := *, *;
      x := next;
    }
  }

  /** The signal handler's last loop: take the first node off and free it, until the
      list is empty.  Every node is freed, in order, exactly once, and the node that is
      about to be freed was never freed before it was read. */
  method FreeAll(h: Link, ghost s: seq<Link>) returns (freed: seq<Link>)
    requires Chain(h, s)
    modifies h`next
    ensures Chain(h, [])
    ensures freed == s && Distinct(freed)
  {
    ChainIsAcyclic(h, s);
    freed := [];
    while h.next != null
      invariant |freed| <= |s| && freed == s[..|freed|]
      invariant Chain(h, s[|freed|..])
      decreases |s| - |freed|
    {
      var node := h.next;
      assert node == s[|freed|] && node !in freed;
      RemoveHead(h, s[|freed|..]);
      freed := freed + [node];
    }
  }
}

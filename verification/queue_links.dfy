/**
 The memory cells that the queue macros link together.

 A queue head and a queue entry are both records of at most two pointers.  The tail
 queue macros rely on that: they take the address of a "next" word and read it back as
 if it were a whole head.  So one class stands for both records, and a pointer to a
 "next" word is a reference to the cell whose first word it is: storing through the
 pointer p is `p.next := x`.  An element is identified with its entry.
 */
module Links {

  class Link {
    /** First word: tqh_first, stqh_first, lh_first, slh_first, cqh_first of a head;
        tqe_next, stqe_next, le_next, sle_next, cqe_next of an entry. */
    var next: Link?
    /** Second word: tqh_last, stqh_last, cqh_last of a head; tqe_prev, le_prev,
        cqe_prev of an entry.  Kinds of queue without this word never touch it. */
    var prev: Link?
  }

  /** The element after position i, or the end of the list. */
  ghost function At(s: seq<Link>, i: int): Link? {
    if 0 <= i < |s| then s[i] else null
  }

  /** The cell whose next word leads to position i: the head, or the element before. */
  ghost function Before(h: Link, s: seq<Link>, i: int): Link {
    if 0 < i <= |s| then s[i - 1] else h
  }

  /** From head h the next words lead through exactly the elements s, and then end. */
  ghost predicate Chain(h: Link, s: seq<Link>)
    reads h, s
  {
    && h !in s
    && h.next == At(s, 0)
    && forall i {:trigger s[i].next} :: 0 <= i < |s| ==> s[i].next == At(s, i + 1)
  }

  /** All elements of s differ from each other. */
  ghost predicate Distinct(s: seq<Link>) {
    forall i, j :: 0 <= i < j < |s| ==> s[i] != s[j]
  }

  /** Two heads with their elements share no cell. */
  ghost predicate Apart(h1: Link, s1: seq<Link>, h2: Link, s2: seq<Link>) {
    && h1 != h2 && h1 !in s2 && h2 !in s1
    && forall i, j :: 0 <= i < |s1| && 0 <= j < |s2| ==> s1[i] != s2[j]
  }

  ghost function Without(s: seq<Link>, k: int): seq<Link>
    requires 0 <= k < |s|
  {
    s[..k] + s[k + 1..]
  }

  /** A chain that ends has no cycle: two equal cells would have equal tails. */
  lemma {:induction false} ChainTailsDiffer(h: Link, s: seq<Link>, i: nat, j: nat)
    requires Chain(h, s)
    requires i < j < |s|
    ensures s[i] != s[j]
    decreases |s| - j
  {
    if s[i] == s[j] {
      assert s[i].next == At(s, i + 1) && s[j].next == At(s, j + 1);
      if j + 1 < |s| {
        ChainTailsDiffer(h, s, i + 1, j + 1);
      }
    }
  }

  lemma ChainIsAcyclic(h: Link, s: seq<Link>)
    requires Chain(h, s)
    ensures Distinct(s)
  {
    forall i, j | 0 <= i < j < |s| ensures s[i] != s[j] {
      ChainTailsDiffer(h, s, i, j);
    }
  }

  /** The memory determines the sequence: a head leads through one list only. */
  lemma {:induction false} ChainIsUnique(h: Link, s: seq<Link>, t: seq<Link>)
    requires Chain(h, s) && Chain(h, t)
    ensures s == t
  {
    var n := if |s| <= |t| then |s| else |t|;
    var k := 0;
    while k < n
      invariant 0 <= k <= n
      invariant s[..k] == t[..k]
      invariant At(s, k) == At(t, k)
    {
      assert s[k].next == At(s, k + 1) && t[k].next == At(t, k + 1);
      k := k + 1;
    }
    assert s == s[..n] && t == t[..n];
  }
}

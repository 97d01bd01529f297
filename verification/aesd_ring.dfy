/** The circular buffer of the character device: a ring of entries, each a pointer to the
    bytes of one command and their number. */
module CircularBuffer {

  /** Kernel memory addresses; 0 is the null pointer. */
  type Addr = nat
  const NULL: Addr := 0

  datatype Entry = Entry(buffptr: Addr, size: nat)
  const NO_ENTRY := Entry(NULL, 0)

  /** The sizes of entries lo up to hi, added up. */
  function SizeOf(es: seq<Entry>, lo: nat, hi: nat): nat
    requires hi <= |es|
    decreases hi
  {
    if lo >= hi then 0 else SizeOf(es, lo, hi - 1) + es[hi - 1].size
  }

  lemma {:induction false} SizeSplit(es: seq<Entry>, lo: nat, mid: nat, hi: nat)
    requires lo <= mid <= hi <= |es|
    ensures SizeOf(es, lo, hi) == SizeOf(es, lo, mid) + SizeOf(es, mid, hi)
    decreases hi
  {
    if mid < hi { SizeSplit(es, lo, mid, hi - 1); }
  }

  lemma {:induction false} SizeAgree(a: seq<Entry>, b: seq<Entry>, lo: nat, hi: nat)
    requires hi <= |a| && hi <= |b| && forall i :: lo <= i < hi ==> a[i].size == b[i].size
    ensures SizeOf(a, lo, hi) == SizeOf(b, lo, hi)
    decreases hi
  {
    if lo < hi { SizeAgree(a, b, lo, hi - 1); }
  }

  lemma {:induction false} SizeShift(a: seq<Entry>, b: seq<Entry>, d: nat, n: nat)
    requires d + n <= |a| && n <= |b| && forall i :: 0 <= i < n ==> a[d + i].size == b[i].size
    ensures SizeOf(a, d, d + n) == SizeOf(b, 0, n)
    decreases n
  {
    if n > 0 {
      SizeShift(a, b, d, n - 1);
      assert a[d + (n - 1)].size == b[n - 1].size;
    }
  }

  lemma {:induction false} SizeZero(es: seq<Entry>, lo: nat, hi: nat)
    requires hi <= |es| && forall i :: lo <= i < hi ==> es[i] == NO_ENTRY
    ensures SizeOf(es, lo, hi) == 0
    decreases hi
  {
    if lo < hi { SizeZero(es, lo, hi - 1); }
  }

  /** The slot of the k-th oldest of n entries when the oldest is in slot o. */
  function Slot(o: nat, n: nat, k: nat): nat {
    if o + k < n then o + k else o + k - n
  }

  /** A ring of slots holds these entries, oldest first. */
  ghost predicate RingHolds(slots: seq<Entry>, o: nat, held: seq<Entry>) {
    && o < |slots| && |held| <= |slots|
    && (forall k :: 0 <= k < |held| ==> slots[Slot(o, |slots|, k)] == held[k])
    && (|held| < |slots| ==> o == 0 && forall i :: |held| <= i < |slots| ==> slots[i] == NO_ENTRY)
  }

  lemma TotalSizePartial(slots: seq<Entry>, o: nat, held: seq<Entry>)
    requires RingHolds(slots, o, held) && |held| < |slots|
    ensures SizeOf(slots, 0, |slots|) == SizeOf(held, 0, |held|)
  {
    SizeSplit(slots, 0, |held|, |slots|);
    SizeZero(slots, |held|, |slots|);
    forall i | 0 <= i < |held| ensures slots[i].size == held[i].size { assert Slot(o, |slots|, i) == i; }
    SizeAgree(slots, held, 0, |held|);
  }

  lemma TotalSizeRotated(slots: seq<Entry>, o: nat, held: seq<Entry>, m: nat)
    requires o + m == |slots| == |held|
    requires forall i :: 0 <= i < m ==> slots[o + i].size == held[i].size
    requires forall i :: 0 <= i < o ==> held[m + i].size == slots[i].size
    ensures SizeOf(slots, 0, |slots|) == SizeOf(held, 0, |held|)
  {
    SizeShift(slots, held, o, m);
    SizeShift(held, slots, m, o);
    SizeSplit(slots, 0, o, o + m);
    SizeSplit(held, 0, m, m + o);
  }

  /** Adding up all slots is adding up the entries held. */
  lemma TotalSize(slots: seq<Entry>, o: nat, held: seq<Entry>)
    requires RingHolds(slots, o, held)
    ensures SizeOf(slots, 0, |slots|) == SizeOf(held, 0, |held|)
  {
    var n, m := |slots|, |slots| - o;
    if |held| < n {
      TotalSizePartial(slots, o, held);
    } else {
      forall i | 0 <= i < m ensures slots[o + i].size == held[i].size { assert Slot(o, n, i) == o + i; }
      forall i | 0 <= i < o ensures held[m + i].size == slots[i].size { assert Slot(o, n, m + i) == i; }
      TotalSizeRotated(slots, o, held, m);
    }
  }

  /** The next slot, around the ring. */
  function Advance(i: nat, n: nat): (r: nat)
    requires i < n
    ensures r == if i + 1 == n then 0 else i + 1
  {
    (i + 1) % n
  }

  /** The slot behind the newest entry takes the next one; in a full ring that is the slot
      of the oldest, and the second oldest becomes the oldest. */
  lemma EntryAdded(slots: seq<Entry>, o: nat, held: seq<Entry>, e: Entry)
    requires RingHolds(slots, o, held)
    ensures var n := |slots|;
      if |held| == n then RingHolds(slots[o := e], Advance(o, n), held[1..] + [e])
      else RingHolds(slots[|held| := e], o, held + [e])
  {
  }

  lemma {:induction false} SizeMonotone(es: seq<Entry>, a: nat, b: nat)
    requires a <= b <= |es|
    ensures SizeOf(es, 0, a) <= SizeOf(es, 0, b)
  {
    if a < b { SizeMonotone(es, a, b - 1); }
  }

  class Ring {
    const entry: array<Entry>
    var inOffs: nat
    var outOffs: nat
    var full: bool

    /** The entries in the ring, oldest first. */
    ghost var held: seq<Entry>

    ghost predicate Valid()
      reads this, entry
    {
      && RingHolds(entry[..], outOffs, held)
      && full == (|held| == entry.Length)
      && inOffs == if full then outOffs else |held|
    }

    /** All zero, as the device structure is after module initialisation. */
    constructor (n: nat)
      requires n >= 1
      ensures Valid() && fresh(entry) && entry.Length == n && held == []
    {
      entry := new Entry[n](_ => NO_ENTRY);
      inOffs, outOffs, full, held := 0, 0, false, [];
    }

    /** Appends an entry; when the ring is full this overwrites the oldest one. */
    method AddEntry(e: Entry)
      requires Valid()
      modifies this, entry
      ensures Valid()
      ensures held == (if old(full) then old(held)[1..] else old(held)) + [e]
      ensures entry[..] == old(entry[..])[old(inOffs) := e]
      ensures inOffs == Advance(old(inOffs), entry.Length)
      ensures outOffs == if old(full) then Advance(old(outOffs), entry.Length) else old(outOffs)
    {
      var n := entry.Length;
      ghost var was := entry[..];
      EntryAdded(was, outOffs, held, e);
      entry[inOffs] := e;
      assert entry[..] == was[inOffs := e];
      inOffs := Advance(inOffs, n);
      if full {
        outOffs := Advance(outOffs, n);
      }
      held := (if full then held[1..] else held) + [e];
      full := inOffs == outOffs;
    }

    /** Adds up the sizes of all slots. */
    method TotalBytes() returns (total: nat)
      requires Valid()
      ensures total == SizeOf(held, 0, |held|)
    {
      total := 0;
      var i := 0;
      while i < entry.Length
        invariant 0 <= i <= entry.Length && total == SizeOf(entry[..], 0, i)
      {
        total := total + entry[i].size;
        i := i + 1;
      }
      TotalSize(entry[..], outOffs, held);
    }

    /** Finds the entry that holds byte charOffset of the entries taken oldest first.  The
        entry is found while the scan goes once around the ring: the end of the loop, and
        the return after it, are never reached.  A negative offset stands for one beyond
        any size, as it is after conversion to an unsigned type. */
    method FindEntryOffset(charOffset: int) returns (found: bool, i: nat, offset: nat, ghost age: nat)
      requires Valid()
      ensures found <==> 0 <= charOffset < SizeOf(held, 0, |held|)
      ensures found ==>
        && age < |held| && i == Slot(outOffs, entry.Length, age) && entry[i] == held[age]
        && offset < held[age].size && SizeOf(held, 0, age) + offset == charOffset
    {
      var n := entry.Length;
      i, offset, age := 0, 0, 0;
      var total := TotalBytes();
      if charOffset < 0 || charOffset >= total {
        return false, 0, 0, 0;
      }

      var isWrapped := false;
      var bytesSearched := 0;
      i := outOffs;
      while i != inOffs || !isWrapped
        invariant age < |held| && i == Slot(outOffs, n, age)
        invariant bytesSearched == SizeOf(held, 0, age) <= charOffset
        invariant isWrapped == (outOffs + age >= n)
        decreases |held| - age
      {
        if charOffset < bytesSearched + entry[i].size {
          return true, i, charOffset - bytesSearched, age;
        }
        bytesSearched := bytesSearched + entry[i].size;
        if i == n - 1 {
          isWrapped := true;
        }
        i := Advance(i, n);
        age := age + 1;
      }
      assert false;
    }
  }

  // ----- seeking to a command by its slot -----

  /** The slots in the order of age, from the oldest around the ring. */
  function ByAge(slots: seq<Entry>, o: nat): (aged: seq<Entry>)
    requires o <= |slots|
    ensures |aged| == |slots|
  {
    slots[o..] + slots[..o]
  }

  lemma RingByAge(slots: seq<Entry>, o: nat, held: seq<Entry>)
    requires RingHolds(slots, o, held)
    ensures ByAge(slots, o)[..|held|] == held
    ensures forall i :: |held| <= i < |slots| ==> ByAge(slots, o)[i] == NO_ENTRY
  {
    var n := |slots|;
    forall k | 0 <= k < |held| ensures ByAge(slots, o)[k] == held[k] {
      assert slots[Slot(o, n, k)] == held[k];
    }
  }
}

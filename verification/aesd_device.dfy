/** The character device: writes assemble commands, reads and seeks address the commands
    kept in the ring, and a lock is held inside each call. */
module CharDevice {
  import opened CommandSeeks
  import opened CommandStream
  import opened CircularBuffer
  import opened Sequences

  const EFAULT := 14
  const EINVAL := 22
  const ERESTARTSYS := 512

  /** Kernel memory: the allocated blocks by address.  An address that is not in the map
      must not be read, written or freed. */
  type Memory = map<Addr, seq<Byte>>

  /** The entry points to a block that begins with these bytes. */
  ghost predicate Stored(mem: Memory, e: Entry, bytes: seq<Byte>) {
    e.buffptr != NULL && e.buffptr in mem && e.size <= |mem[e.buffptr]| && mem[e.buffptr][..e.size] == bytes
  }

  /** The blocks of the first n entries. */
  ghost function Pointers(held: seq<Entry>, n: nat): set<Addr>
    requires n <= |held|
  {
    if n == 0 then {} else Pointers(held, n - 1) + {held[n - 1].buffptr}
  }

  /** No two of the first n entries share a block. */
  ghost predicate Unshared(held: seq<Entry>, n: nat)
    requires n <= |held|
  {
    n > 0 ==> Unshared(held, n - 1) && held[n - 1].buffptr !in Pointers(held, n - 1)
  }

  /** Each block belongs to exactly one slot or to the pending entry, and none is lost. */
  ghost predicate Owned(mem: Memory, held: seq<Entry>, entry: Entry) {
    && NULL !in mem && Unshared(held, |held|) && entry.buffptr !in Pointers(held, |held|)
    && mem.Keys == Pointers(held, |held|) + if entry.buffptr == NULL then {} else {entry.buffptr}
  }

  /** The first n entries store the commands from number first on. */
  ghost predicate Keeps(mem: Memory, held: seq<Entry>, cmds: seq<Command>, first: nat, n: nat)
    requires n <= |held| && first + n <= |cmds|
  {
    n > 0 ==> Keeps(mem, held, cmds, first, n - 1) && Stored(mem, held[n - 1], cmds[first + n - 1])
  }

  /** The entries of the ring store the last commands. */
  ghost predicate KeepsLast(mem: Memory, held: seq<Entry>, cmds: seq<Command>, first: nat) {
    first + |held| == |cmds| && Keeps(mem, held, cmds, first, |held|)
  }

  ghost predicate KeepsPending(mem: Memory, entry: Entry, bytes: seq<Byte>) {
    if entry.buffptr == NULL then entry == NO_ENTRY && bytes == [] else Stored(mem, entry, bytes)
  }

  // ----- consequences -----

  lemma {:induction false} KeepsAt(mem: Memory, held: seq<Entry>, cmds: seq<Command>, first: nat, n: nat, k: nat)
    requires k < n <= |held| && first + n <= |cmds| && Keeps(mem, held, cmds, first, n)
    ensures Stored(mem, held[k], cmds[first + k])
  {
    if k < n - 1 { KeepsAt(mem, held, cmds, first, n - 1, k); }
  }

  lemma {:induction false} KeepsPrefix(mem: Memory, held: seq<Entry>, cmds: seq<Command>, first: nat, n: nat, m: nat)
    requires m <= n <= |held| && first + n <= |cmds| && Keeps(mem, held, cmds, first, n)
    ensures Keeps(mem, held, cmds, first, m)
  {
    if m < n { KeepsPrefix(mem, held, cmds, first, n - 1, m); }
  }

  lemma {:induction false} PointersCount(held: seq<Entry>, n: nat)
    requires n <= |held| && Unshared(held, n)
    ensures |Pointers(held, n)| == n
  {
    if n > 0 { PointersCount(held, n - 1); }
  }

  /** Nothing leaks: there are as many blocks as filled slots, and one for the pending bytes. */
  lemma BlocksInUse(mem: Memory, held: seq<Entry>, entry: Entry)
    requires Owned(mem, held, entry)
    ensures |mem| == |held| + if entry.buffptr == NULL then 0 else 1
  {
    PointersCount(held, |held|);
    assert |mem| == |mem.Keys|;
  }

  /** The sizes of the entries are the lengths of the commands. */
  lemma {:induction false} SizesAreLengths(mem: Memory, held: seq<Entry>, cmds: seq<Command>, first: nat, n: nat)
    requires n <= |held| && first + n <= |cmds| && Keeps(mem, held, cmds, first, n)
    ensures SizeOf(held, 0, n) == |Joined(cmds, first, first + n)|
  {
    if n > 0 { SizesAreLengths(mem, held, cmds, first, n - 1); }
  }

  // ----- what changes to memory keep -----

  /** Commands stay stored while their blocks stay as they are. */
  lemma {:induction false} KeepsFrame(mem: Memory, mem': Memory, held: seq<Entry>, cmds: seq<Command>,
                                      first: nat, n: nat)
    requires n <= |held| && first + n <= |cmds| && Keeps(mem, held, cmds, first, n)
    requires forall p :: p in Pointers(held, n) && p in mem ==> p in mem' && mem'[p] == mem[p]
    ensures Keeps(mem', held, cmds, first, n)
  {
    if n > 0 {
      KeepsFrame(mem, mem', held, cmds, first, n - 1);
      assert held[n - 1].buffptr in Pointers(held, n);
    }
  }

  /** Only the first n entries and their commands matter. */
  lemma {:induction false} KeepsAgree(mem: Memory, a: seq<Entry>, b: seq<Entry>, c: seq<Command>, d: seq<Command>,
                                      first: nat, n: nat)
    requires n <= |a| && n <= |b| && first + n <= |c| && first + n <= |d|
    requires forall k :: 0 <= k < n ==> a[k] == b[k]
    requires forall i :: first <= i < first + n ==> c[i] == d[i]
    ensures Keeps(mem, a, c, first, n) == Keeps(mem, b, d, first, n)
    ensures Pointers(a, n) == Pointers(b, n) && Unshared(a, n) == Unshared(b, n)
  {
    if n > 0 { KeepsAgree(mem, a, b, c, d, first, n - 1); }
  }

  /** The same without the oldest entry. */
  lemma {:induction false} KeepsTail(mem: Memory, held: seq<Entry>, cmds: seq<Command>, first: nat, n: nat)
    requires n < |held| && first + n < |cmds| && Keeps(mem, held, cmds, first, n + 1) && Unshared(held, n + 1)
    ensures Keeps(mem, held[1..], cmds, first + 1, n)
    ensures Unshared(held[1..], n) && held[0].buffptr !in Pointers(held[1..], n)
    ensures Pointers(held, n + 1) == Pointers(held[1..], n) + {held[0].buffptr}
  {
    if n > 0 {
      KeepsTail(mem, held, cmds, first, n - 1);
      assert held[1..][n - 1] == held[n];
    }
  }

  /** Replacing the pending block leaves the ring's blocks alone. */
  lemma PendingReplaced(mem: Memory, mem': Memory, held: seq<Entry>, entry: Entry, entry': Entry,
                        cmds: seq<Command>, first: nat)
    requires Owned(mem, held, entry) && KeepsLast(mem, held, cmds, first)
    requires entry'.buffptr != NULL && (entry'.buffptr == entry.buffptr || entry'.buffptr !in mem)
    requires mem'.Keys == mem.Keys - {entry.buffptr} + {entry'.buffptr}
    requires forall p :: p in mem && p != entry.buffptr ==> p in mem' && (p != entry'.buffptr ==> mem'[p] == mem[p])
    ensures Owned(mem', held, entry') && KeepsLast(mem', held, cmds, first)
  {
    assert entry'.buffptr !in Pointers(held, |held|);
    KeepsFrame(mem, mem', held, cmds, first, |held|);
  }

  // ----- allocation -----

  lemma {:induction false} Above(s: set<Addr>) returns (b: Addr)
    ensures forall p :: p in s ==> p < b
  {
    b := 0;
    if s != {} {
      var x :| x in s;
      var c := Above(s - {x});
      b := if x < c then c else x + 1;
      forall p | p in s ensures p < b { assert p == x || p in s - {x}; }
    }
  }

  lemma FreshAddress(mem: Memory)
    ensures exists p: Addr :: p != NULL && p !in mem
  {
    var b := Above(mem.Keys);
    assert b + 1 != NULL && b + 1 !in mem;
  }

  /** Everything the device state means: the commands kept, the bytes pending, the memory
      in use and the cached total. */
  ghost predicate Consistent(mem: Memory, held: seq<Entry>, entry: Entry, total: nat, n: nat, store: Store) {
    match store
    case Store(committed, pending) =>
      && store.Valid()
      && Owned(mem, held, entry)
      && KeepsLast(mem, held, committed, store.Evicted(n))
      && KeepsPending(mem, entry, pending)
      && total == SizeOf(held, 0, |held|)
  }

  class Device {
    const buffer: Ring
    /** The pending entry. */
    var entry: Entry
    var totalBytes: nat
    var mem: Memory
    var locked: bool

    /** All that was ever committed, and what is pending. */
    ghost var store: Store

    ghost predicate Valid()
      reads this, buffer, buffer.entry
    {
      && buffer.Valid() && Consistent(mem, buffer.held, entry, totalBytes, buffer.entry.Length, store)
      && OldestSlot()
    }

    /** The ring turns by one slot with each eviction. */
    ghost predicate OldestSlot()
      requires buffer.entry.Length > 0
      reads this, buffer
    {
      buffer.outOffs == store.Evicted(buffer.entry.Length) % buffer.entry.Length
    }

    ghost function Content(): seq<Byte>
      reads this, buffer, buffer.entry
    {
      store.Content(buffer.entry.Length)
    }

    constructor (n: nat)
      requires n >= 1
      ensures Valid() && !locked && store == EMPTY_STORE
      ensures fresh(buffer) && fresh(buffer.entry) && buffer.entry.Length == n
    {
      buffer := new Ring(n);
      entry, totalBytes, mem, locked := NO_ENTRY, 0, map[], false;
      store := EMPTY_STORE;
    }

    method Kmalloc(n: nat) returns (p: Addr)
      requires NULL !in mem
      modifies this`mem
      ensures p != NULL && p !in old(mem)
      ensures p in mem && |mem[p]| == n && mem == old(mem)[p := mem[p]]
    {
      FreshAddress(mem);
      p :| p != NULL && p !in mem;
      var block := seq(n, _ => ' ');
      mem := mem[p := block];
    }

    /** Gives the block a new length, in place or elsewhere; what fits of the bytes stays. */
    method Krealloc(p: Addr, n: nat) returns (q: Addr)
      requires NULL !in mem && p in mem
      modifies this`mem
      ensures q != NULL && (q == p || q !in old(mem))
      ensures q in mem && |mem[q]| == n && mem == (old(mem) - {p})[q := mem[q]]
      ensures var kept := Min(n, |old(mem)[p]|); mem[q][..kept] == old(mem)[p][..kept]
    {
      var kept := Min(n, |mem[p]|);
      var block := mem[p][..kept] + seq(n - kept, _ => ' ');
      if * {
        q := p;
      } else {
        FreshAddress(mem);
        q :| q != NULL && q !in mem;
      }
      mem := (mem - {p})[q := block];
      assert block[..kept] == old(mem)[p][..kept];
    }

    /** Only an allocated block may be freed. */
    method Kfree(p: Addr)
      requires p in mem
      modifies this`mem
      ensures mem == old(mem) - {p}
    {
      mem := mem - {p};
    }

    /** Makes room for count more bytes after the pending ones. */
    method Grow(count: nat)
      requires Valid()
      modifies this`mem, this`entry
      ensures Valid() && entry.buffptr != NULL && entry.size == old(entry.size)
      ensures |mem[entry.buffptr]| == entry.size + count
      ensures mem.Keys == old(mem).Keys - {old(entry.buffptr)} + {entry.buffptr}
    {
      var p;
      if entry.buffptr != NULL {
        p := Krealloc(entry.buffptr, entry.size + count);
        SliceOfSlice(mem[p], old(mem)[entry.buffptr], Min(entry.size + count, |old(mem)[entry.buffptr]|), entry.size);
      } else {
        p := Kmalloc(count);
      }
      Grown(old(mem), mem, buffer.held, entry, p, totalBytes, buffer.entry.Length, store);
      entry := entry.(buffptr := p);
    }

    /** Copies the bytes behind the pending ones. */
    method CopyFromUser(buf: seq<Byte>)
      requires Valid() && entry.buffptr != NULL && |mem[entry.buffptr]| == entry.size + |buf|
      modifies this`mem, this`entry
      ensures Appended(old(mem), old(entry), buf, mem, entry)
    {
      mem := mem[entry.buffptr := mem[entry.buffptr][..entry.size] + buf];
      entry := entry.(size := entry.size + |buf|);
    }

    /** Frees the block that the slot to fill points at, if any. */
    method FreeSlot()
      requires ValidButPending()
      modifies this`mem, this`totalBytes
      ensures mem == if buffer.full then old(mem) - {buffer.held[0].buffptr} else old(mem)
      ensures totalBytes == SizeOf(Rest(buffer.held, buffer.full), 0, |Rest(buffer.held, buffer.full)|)
    {
      SlotToFill(buffer);
      var slot := buffer.entry[buffer.inOffs];
      if buffer.full {
        KeepsAt(mem, buffer.held, store.committed, store.Evicted(buffer.entry.Length), |buffer.held|, 0);
        SizeFirst(buffer.held);
      }
      if slot.buffptr != NULL {
        Kfree(slot.buffptr);
        totalBytes := totalBytes - slot.size;
      }
    }

    /** Valid, but for the pending entry, which may hold more than the pending bytes. */
    ghost predicate ValidButPending()
      reads this, buffer, buffer.entry
    {
      && buffer.Valid() && store.Valid()
      && Owned(mem, buffer.held, entry)
      && KeepsLast(mem, buffer.held, store.committed, store.Evicted(buffer.entry.Length))
      && totalBytes == SizeOf(buffer.held, 0, |buffer.held|)
      && OldestSlot()
    }

    /** Adds the pending entry to the ring. */
    method Install(ghost next: Store)
      requires buffer.Valid()
      requires Consistent(mem, Rest(buffer.held, buffer.full) + [entry], NO_ENTRY, totalBytes + entry.size,
                          buffer.entry.Length, next)
      requires NextOldest(buffer, next)
      modifies this`entry, this`totalBytes, this`store, buffer, buffer.entry
      ensures Valid() && store == next
    {
      ghost var all := Rest(buffer.held, buffer.full) + [entry];
      buffer.AddEntry(entry);
      assert buffer.held == all;
      totalBytes := totalBytes + entry.size;
      entry := NO_ENTRY;
      store := next;
    }

    /** Makes the slot to fill ready for the pending entry. */
    method MakeReady(ghost bytes: seq<Byte>)
      requires ValidButPending() && Stored(mem, entry, bytes) && NEWLINE in bytes
      modifies this`mem, this`totalBytes
      ensures mem == if buffer.full then old(mem) - {buffer.held[0].buffptr} else old(mem)
      ensures Consistent(mem, Rest(buffer.held, buffer.full) + [entry], NO_ENTRY, totalBytes + entry.size,
                         buffer.entry.Length, Store(store.committed + [bytes], []))
    {
      FreeSlot();
      Committed(old(mem), buffer.held, entry, store, bytes, buffer.full, mem, buffer.entry.Length);
    }

    /** Moves the pending entry into the ring; the block it pushes out is freed first. */
    method Commit(ghost bytes: seq<Byte>)
      requires ValidButPending() && Stored(mem, entry, bytes) && NEWLINE in bytes
      modifies this`mem, this`entry, this`totalBytes, this`store, buffer, buffer.entry
      ensures Valid() && store == Store(old(store).committed + [bytes], [])
      ensures mem == if old(buffer.full) then old(mem) - {old(buffer.held)[0].buffptr} else old(mem)
    {
      MakeReady(bytes);
      RingTurns(buffer, store, bytes);
      Install(Store(store.committed + [bytes], []));
    }

    /** Looks for a newline in the pending bytes, the new ones among them. */
    method CommitIfComplete(ghost buf: seq<Byte>)
      requires ValidButPending() && Stored(mem, entry, store.pending + buf)
      modifies this`mem, this`entry, this`totalBytes, this`store, buffer, buffer.entry
      ensures Valid() && store == Write(old(store), buf)
      ensures mem.Keys == old(mem).Keys -
        Pushed(old(buffer.held), old(buffer.full), |store.committed| > |old(store).committed|)
    {
      ghost var bytes := store.pending + buf;
      if NEWLINE in mem[entry.buffptr][..entry.size] {
        Commit(bytes);
      } else {
        store := store.(pending := bytes);
      }
    }

    /** The rest of a write, once there is room and the bytes can be copied. */
    method Append(buf: seq<Byte>)
      requires Valid() && entry.buffptr != NULL && |mem[entry.buffptr]| == entry.size + |buf|
      modifies this`mem, this`entry, this`totalBytes, this`store, buffer, buffer.entry
      ensures Valid() && store == Write(old(store), buf)
      ensures mem.Keys == old(mem).Keys -
        Pushed(old(buffer.held), old(buffer.full), |store.committed| > |old(store).committed|)
    {
      CopyFromUser(buf);
      Copied(old(mem), old(entry.size), buffer.held, mem, entry, buf, store, totalBytes, buffer.entry.Length);
      CommitIfComplete(buf);
    }

    /** Appends to the pending command, which is committed if it has a newline then.  A
        block is freed only if it was the pending one, and grew into another, or if it was
        the oldest of a full ring and a command was committed. */
    method AesdWrite(buf: seq<Byte>, interrupted: bool, fault: bool) returns (retval: int)
      requires Valid() && !locked
      modifies this, buffer, buffer.entry
      ensures Valid() && !locked
      ensures interrupted ==> retval == -ERESTARTSYS && store == old(store) && mem == old(mem)
      ensures !interrupted && fault ==> retval == -EFAULT && store == old(store)
      ensures !interrupted && !fault ==> retval == |buf| && store == Write(old(store), buf)
      ensures old(mem).Keys - mem.Keys <= {old(entry.buffptr)} +
        Pushed(old(buffer.held), old(buffer.full), |store.committed| > |old(store).committed|)
    {
      if interrupted {
        return -ERESTARTSYS;
      }
      locked := true;
      Grow(|buf|);
      if fault {
        locked := false;
        return -EFAULT;
      }
      Append(buf);
      retval := |buf|;
      locked := false;
    }

    /** The cached total is the number of bytes that can be read. */
    lemma TotalIsLength()
      requires Valid()
      ensures totalBytes == |Content()|
    {
      SizesAreLengths(mem, buffer.held, store.committed, store.Evicted(buffer.entry.Length), |buffer.held|);
    }

    /** The entry that holds byte target of the content, by the lookup in the ring. */
    method Lookup(target: int) returns (found: bool, e: Entry, offset: nat, ghost age: nat)
      requires Valid()
      ensures found <==> 0 <= target < |Content()|
      ensures found ==>
        var first := store.Evicted(buffer.entry.Length);
        && first + age < |store.committed| && Stored(mem, e, store.committed[first + age])
        && target == |Joined(store.committed, first, first + age)| + offset
        && offset < e.size == |store.committed[first + age]|
    {
      ghost var first := store.Evicted(buffer.entry.Length);
      var i;
      found, i, offset, age := buffer.FindEntryOffset(target);
      SizesAreLengths(mem, buffer.held, store.committed, first, |buffer.held|);
      e := NO_ENTRY;
      if found {
        e := buffer.entry[i];
        KeepsPrefix(mem, buffer.held, store.committed, first, |buffer.held|, age);
        SizesAreLengths(mem, buffer.held, store.committed, first, age);
        KeepsAt(mem, buffer.held, store.committed, first, |buffer.held|, age);
      }
    }

    /** Delivers the next bytes of the content, up to the end of the command they are in;
        at the end of the content the read fails. */
    method AesdRead(pos: nat, count: nat, interrupted: bool, fault: bool)
      returns (retval: int, out: seq<Byte>, newPos: nat, ghost a: nat)
      requires Valid() && !locked
      modifies this`locked
      ensures Valid() && !locked
      ensures interrupted ==> retval == -ERESTARTSYS
      ensures !interrupted && (fault || pos >= |Content()|) ==> retval == -EFAULT
      ensures retval < 0 ==> out == [] && newPos == pos
      ensures !interrupted && !fault && pos < |Content()| ==>
        && retval == |out| && newPos == pos + |out| <= |Content()|
        && out == Content()[pos..pos + |out|] && (count > 0 ==> out != [])
        && store.Evicted(buffer.entry.Length) <= a < |store.committed|
        && Holds(store.committed, store.Evicted(buffer.entry.Length), a, pos)
        && |out| == Min(count,
             |Joined(store.committed, store.Evicted(buffer.entry.Length), a)| + |store.committed[a]| - pos)
    {
      out, newPos, a := [], pos, 0;
      if interrupted {
        return -ERESTARTSYS, out, newPos, a;
      }
      locked := true;
      var found, e, offset, age := Lookup(pos);
      if !found || fault {
        locked := false;
        return -EFAULT, out, newPos, a;
      }
      var bytesToRead := e.size - offset;
      if bytesToRead > count {
        bytesToRead := count;
      }
      out := mem[e.buffptr][offset..offset + bytesToRead];
      newPos := pos + bytesToRead;
      ghost var first := store.Evicted(buffer.entry.Length);
      a := first + age;
      SliceOfPrefix(mem[e.buffptr], e.size, offset, offset + bytesToRead);
      JoinedAt(store.committed, first, |store.committed|, a, offset, offset + bytesToRead);
      locked := false;
      retval := bytesToRead;
    }

    /** The loop that sends the device content back: read with the given counts until a
        read delivers nothing.  On a device that nobody writes to it delivers the content
        from pos on, in order, and all of it after at most as many reads as bytes. */
    method ReadBack(pos: nat, counts: seq<nat>) returns (received: seq<Byte>)
      requires Valid() && !locked && pos <= |Content()|
      requires forall i :: 0 <= i < |counts| ==> counts[i] > 0
      modifies this`locked
      ensures Valid() && !locked
      ensures pos + |received| <= |Content()| && received == Content()[pos..pos + |received|]
      ensures |counts| >= |Content()| - pos ==> pos + |received| == |Content()|
    {
      ghost var content := Content();
      received := [];
      var fpos, i := pos, 0;
      while i < |counts|
        invariant Valid() && !locked && Content() == content && 0 <= i <= |counts|
        invariant pos + |received| == fpos <= |content| && received == content[pos..fpos]
        invariant |received| >= i
      {
        var retval, out, newPos, _ := AesdRead(fpos, counts[i], false, false);
        if retval <= 0 {
          return;
        }
        SlicesJoin(content, pos, fpos, newPos);
        received := received + out;
        fpos := newPos;
        i := i + 1;
      }
    }

    /** A new position, if it is one of the content; there is no seeking to its end.  The
        call keeps the lock when it does not know the mode. */
    method AesdLlseek(fpos: nat, off: int, whence: int, interrupted: bool) returns (retval: int, newPos: nat)
      requires Valid() && !locked
      modifies this`locked
      ensures Valid()
      ensures locked <==> !interrupted && !(0 <= whence <= 2)
      ensures interrupted ==> retval == -ERESTARTSYS
      ensures !interrupted ==>
        var target := if whence == 0 then off else if whence == 1 then fpos + off else |Content()| + off;
        if 0 <= whence <= 2 && 0 <= target < |Content()| then retval == newPos == target else retval == -EINVAL
      ensures retval < 0 ==> newPos == fpos
    {
      newPos := fpos;
      if interrupted {
        return -ERESTARTSYS, newPos;
      }
      locked := true;
      TotalIsLength();
      var found, e, offset;
      var target := 0;
      ghost var age;
      match whence {
        case 0 =>
          found, e, offset, age := Lookup(off);
          target := off;
        case 1 =>
          found, e, offset, age := Lookup(fpos + off);
          target := fpos + off;
        case 2 =>
          found, e, offset, age := Lookup(totalBytes + off);
          target := totalBytes + off;
        case _ =>
          return -EINVAL, newPos;
      }
      locked := false;
      if !found {
        return -EINVAL, newPos;
      }
      newPos := target;
      return target, newPos;
    }

    /** Slots, taken from the oldest on, are commands. */
    lemma AgedSeekIsCommandSeek(cmd: nat, offset: nat)
      requires Valid()
      ensures SlotSeek(ByAge(buffer.entry[..], buffer.outOffs), cmd, offset)
           == CommandSeek(store, buffer.entry.Length, cmd, offset)
    {
      AgedSlotHolds(mem, buffer.entry[..], buffer.outOffs, buffer.held, store.committed,
                    store.Evicted(buffer.entry.Length), cmd);
    }

    /** The seek by slots answers as the command of that age would exactly when this can be
        read off the sizes of the slots; with the oldest command in slot 0 it always does. */
    lemma SeeksByAgeIff(cmd: nat, offset: nat)
      requires Valid()
      ensures SlotSeek(buffer.entry[..], cmd, offset) == CommandSeek(store, buffer.entry.Length, cmd, offset)
         <==> SameFromOldest(buffer.entry[..], buffer.outOffs, cmd, offset)
      ensures buffer.outOffs == 0 ==> SameFromOldest(buffer.entry[..], buffer.outOffs, cmd, offset)
    {
      AgedSeekIsCommandSeek(cmd, offset);
      SlotSeekSameIff(buffer.entry[..], buffer.outOffs, cmd, offset);
    }

    /** Every request has the answer of the command of that age only if each slot has as many
        bytes as the one as many places from the oldest. */
    lemma AllSeeksByAgeIff()
      requires Valid()
      ensures (forall cmd: nat, offset: nat ::
                 SlotSeek(buffer.entry[..], cmd, offset) == CommandSeek(store, buffer.entry.Length, cmd, offset))
         <==> (forall i :: 0 <= i < buffer.entry.Length ==>
                 buffer.entry[i].size == ByAge(buffer.entry[..], buffer.outOffs)[i].size)
    {
      var slots, aged := buffer.entry[..], ByAge(buffer.entry[..], buffer.outOffs);
      forall cmd: nat, offset: nat
        ensures SlotSeek(aged, cmd, offset) == CommandSeek(store, buffer.entry.Length, cmd, offset)
      {
        AgedSeekIsCommandSeek(cmd, offset);
      }
      AllSeeksSameIff(slots, buffer.outOffs);
    }

    /** What is in which slot follows from the commands alone. */
    lemma SlotsFollowStore(k: nat)
      requires Valid() && k <= buffer.entry.Length
      ensures forall i :: 0 <= i < k ==> buffer.entry[i].size == SlotLength(store, buffer.entry.Length, i)
      ensures SizeOf(buffer.entry[..], 0, k) == SlotBytes(store, buffer.entry.Length, k)
    {
      if k > 0 {
        SlotsFollowStore(k - 1);
        SlotHoldsCommand(mem, buffer.entry[..], buffer.held, store, k - 1);
      }
    }

    lemma SeekFollowsStore(cmd: nat, offset: nat)
      requires Valid()
      ensures SlotSeek(buffer.entry[..], cmd, offset) == SeekPlace(store, buffer.entry.Length, cmd, offset)
    {
      if cmd < buffer.entry.Length {
        SlotsFollowStore(cmd);
        SlotHoldsCommand(mem, buffer.entry[..], buffer.held, store, cmd);
      }
    }

    /** A byte of a slot is a byte of the content. */
    lemma SeekLandsInside(cmd: nat, offset: nat)
      requires Valid()
      ensures SlotSeek(buffer.entry[..], cmd, offset).At? ==>
        SlotSeek(buffer.entry[..], cmd, offset).pos < |Content()|
    {
      if SlotSeek(buffer.entry[..], cmd, offset).At? {
        SeekLands(mem, buffer.entry[..], buffer.outOffs, buffer.held, store.committed,
                  store.Evicted(buffer.entry.Length), cmd, offset);
      }
    }

    /** The bytes in the slots before this one. */
    method BytesBefore(writeCmd: nat) returns (pos: nat)
      requires Valid() && writeCmd <= buffer.entry.Length
      ensures pos == SizeOf(buffer.entry[..], 0, writeCmd)
    {
      pos := 0;
      var i := 0;
      while i < writeCmd
        invariant 0 <= i <= writeCmd && pos == SizeOf(buffer.entry[..], 0, i)
      {
        pos := pos + buffer.entry[i].size;
        i := i + 1;
      }
    }

    /** Seeks to a byte of a command given by its slot: never outside the content, and to the
        command of that age exactly when the slots from the oldest on read alike. */
    method AesdIoctlSeekTo(fpos: nat, writeCmd: nat, writeCmdOffset: nat, interrupted: bool, fault: bool)
      returns (retval: int, newPos: nat)
      requires Valid() && !locked
      modifies this`locked
      ensures Valid() && !locked
      ensures retval == 0 ==> newPos < |Content()|
      ensures retval != 0 ==> newPos == fpos
      ensures fault ==> retval == -EFAULT
      ensures !fault && interrupted ==> retval == -ERESTARTSYS
      ensures !fault && !interrupted ==>
        && Answers(retval, newPos, SlotSeek(buffer.entry[..], writeCmd, writeCmdOffset))
        && Answers(retval, newPos, SeekPlace(store, buffer.entry.Length, writeCmd, writeCmdOffset))
        && (Answers(retval, newPos, CommandSeek(store, buffer.entry.Length, writeCmd, writeCmdOffset))
            <==> SameFromOldest(buffer.entry[..], buffer.outOffs, writeCmd, writeCmdOffset))
      ensures !fault && !interrupted && buffer.outOffs == 0 ==>
        Answers(retval, newPos, CommandSeek(store, buffer.entry.Length, writeCmd, writeCmdOffset))
    {
      newPos := fpos;
      if fault {
        return -EFAULT, newPos;
      }
      if interrupted {
        return -ERESTARTSYS, newPos;
      }
      locked := true;
      SeekLandsInside(writeCmd, writeCmdOffset);
      SeeksByAgeIff(writeCmd, writeCmdOffset);
      SeekFollowsStore(writeCmd, writeCmdOffset);
      if buffer.entry.Length <= writeCmd || buffer.entry[writeCmd].size <= writeCmdOffset {
        locked := false;
        return -EINVAL, newPos;
      }
      var pos := BytesBefore(writeCmd);
      newPos := pos + writeCmdOffset;
      locked := false;
      retval := 0;
    }

    /** A read at the place of a byte of a command delivers the command from that byte on. */
    method ReadCommand(pos: nat, count: nat, ghost b: nat, ghost offset: nat) returns (retval: int, out: seq<Byte>)
      requires Valid() && !locked
      modifies this`locked
      ensures Valid() && !locked
      ensures IsPlaceOf(store.committed, store.Evicted(buffer.entry.Length), b, offset, pos) && pos < |Content()| ==>
        DeliversCommand(store.committed, b, offset, count, retval, out)
    {
      var after;
      ghost var a;
      retval, out, after, a := AesdRead(pos, count, false, false);
      ghost var first := store.Evicted(buffer.entry.Length);
      if IsPlaceOf(store.committed, first, b, offset, pos) && pos < |Content()| {
        ReadFindsCommand(store.committed, first, b, offset, pos, count, Content(), a, out);
      }
    }

    /** A seek and the read after it.  With the oldest command in slot 0 this delivers the
        command of that age from the byte asked for on, as much as the count allows; and the
        seek fails exactly when there is no such command or no such byte in it. */
    method SeekThenRead(fpos: nat, cmd: nat, offset: nat, count: nat) returns (retval: int, out: seq<Byte>)
      requires Valid() && !locked
      modifies this`locked
      ensures Valid() && !locked
      ensures buffer.outOffs == 0 ==>
        ReadsCommand(store, buffer.entry.Length, cmd, offset, count, retval, out)
    {
      var newPos;
      retval, newPos := AesdIoctlSeekTo(fpos, cmd, offset, false, false);
      SeekOutcome(store, buffer.entry.Length, cmd, offset, count, retval, newPos);
      if retval != 0 {
        return retval, [];
      }
      ghost var c := store.Evicted(buffer.entry.Length) + cmd;
      retval, out := ReadCommand(newPos, count, c, offset);
    }

    /** Writes one after another. */
    method WriteEach(chunks: seq<seq<Byte>>)
      requires Valid() && !locked
      modifies this, buffer, buffer.entry
      ensures Valid() && !locked && store == WriteAll(old(store), chunks)
    {
      var i := 0;
      while i < |chunks|
        invariant 0 <= i <= |chunks| && Valid() && !locked
        invariant store == WriteAll(old(store), chunks[..i])
      {
        var _ := AesdWrite(chunks[i], false, false);
        i := i + 1;
        assert chunks[..i][..i - 1] == chunks[..i - 1];
      }
      assert chunks[..i] == chunks;
    }
  }

  // ----- seeking to a command -----

  /** The seek command counts slots from slot 0, and the bytes of the slots before. */
  function SlotSeek(slots: seq<Entry>, cmd: nat, offset: nat): Position {
    if cmd < |slots| && offset < slots[cmd].size then At(SizeOf(slots, 0, cmd) + offset) else Nowhere
  }

  /** Slot number cmd and the slot cmd places from the oldest one both have a byte at this
      offset, behind as many bytes; or neither has. */
  predicate SameFromOldest(slots: seq<Entry>, o: nat, cmd: nat, offset: nat)
    requires o <= |slots|
  {
    cmd < |slots| ==>
      var aged := ByAge(slots, o);
      && (offset < slots[cmd].size <==> offset < aged[cmd].size)
      && (offset < slots[cmd].size ==> SizeOf(slots, 0, cmd) == SizeOf(aged, 0, cmd))
  }

  lemma SlotSeekSameIff(slots: seq<Entry>, o: nat, cmd: nat, offset: nat)
    requires o <= |slots|
    ensures SlotSeek(slots, cmd, offset) == SlotSeek(ByAge(slots, o), cmd, offset)
       <==> SameFromOldest(slots, o, cmd, offset)
    ensures o == 0 ==> SameFromOldest(slots, o, cmd, offset)
  {
    if o == 0 { assert ByAge(slots, o) == slots; }
  }

  /** All requests have the same answer only if each slot has as many bytes as the one as
      many places from the oldest. */
  lemma AllSeeksSameIff(slots: seq<Entry>, o: nat)
    requires o <= |slots|
    ensures (forall cmd: nat, offset: nat :: SlotSeek(slots, cmd, offset) == SlotSeek(ByAge(slots, o), cmd, offset))
       <==> forall i :: 0 <= i < |slots| ==> slots[i].size == ByAge(slots, o)[i].size
  {
    var aged := ByAge(slots, o);
    if forall cmd: nat, offset: nat :: SlotSeek(slots, cmd, offset) == SlotSeek(aged, cmd, offset) {
      forall i | 0 <= i < |slots| ensures slots[i].size == aged[i].size {
        assert SlotSeek(slots, i, slots[i].size) == SlotSeek(aged, i, slots[i].size);
        assert SlotSeek(slots, i, aged[i].size) == SlotSeek(aged, i, aged[i].size);
      }
    }
    if forall i :: 0 <= i < |slots| ==> slots[i].size == aged[i].size {
      forall cmd: nat, offset: nat ensures SlotSeek(slots, cmd, offset) == SlotSeek(aged, cmd, offset) {
        if cmd < |slots| { SizeAgree(slots, aged, 0, cmd); }
      }
    }
  }

  /** The outcome of a seek says that this is the position. */
  ghost predicate Answers(retval: int, newPos: nat, p: Position) {
    match p
    case At(pos) => retval == 0 && newPos == pos
    case Nowhere => retval == -EINVAL
  }

  /** A read delivers the command of this age from the byte on, as much as the count allows;
      or there is no such command or no such byte, and the call failed. */
  ghost predicate ReadsCommand(store: Store, n: nat, cmd: nat, offset: nat, count: nat, retval: int, out: seq<Byte>) {
    var c := store.Evicted(n) + cmd;
    if c < |store.committed| && offset < |store.committed[c]|
    then DeliversCommand(store.committed, c, offset, count, retval, out)
    else retval == -EINVAL && out == []
  }

  ghost predicate DeliversCommand(cmds: seq<Command>, c: nat, offset: nat, count: nat, retval: int, out: seq<Byte>)
    requires c < |cmds| && offset < |cmds[c]|
  {
    retval == |out| && out == cmds[c][offset..][..Min(count, |cmds[c]| - offset)]
  }

  lemma SeekOutcome(store: Store, n: nat, cmd: nat, offset: nat, count: nat, retval: int, pos: nat)
    ensures Answers(retval, pos, CommandSeek(store, n, cmd, offset)) ==>
      if retval == 0 then IsPlaceOf(store.committed, store.Evicted(n), store.Evicted(n) + cmd, offset, pos)
      else ReadsCommand(store, n, cmd, offset, count, retval, [])
  {
  }

  lemma HolderIsCommand(cmds: seq<Command>, first: nat, b: nat, offset: nat, a: nat)
    requires first <= a < |cmds| && first <= b < |cmds| && offset < |cmds[b]|
    requires Holds(cmds, first, a, |Joined(cmds, first, b)| + offset)
    ensures a == b
  {
    OnlyOneHolds(cmds, first, a, b, |Joined(cmds, first, b)| + offset);
  }

  lemma PartOfCommand(cmds: seq<Command>, first: nat, a: nat, offset: nat, k: nat)
    requires first <= a < |cmds| && offset + k <= |cmds[a]|
    ensures var base := |Joined(cmds, first, a)|;
      && base + offset + k <= |Joined(cmds, first, |cmds|)|
      && Joined(cmds, first, |cmds|)[base + offset..base + offset + k] == cmds[a][offset..][..k]
  {
    JoinedAt(cmds, first, |cmds|, a, offset, offset + k);
    assert cmds[a][offset..][..k] == cmds[a][offset..offset + k];
  }

  /** The place is that of a byte of command b. */
  ghost predicate IsPlaceOf(cmds: seq<Command>, first: nat, b: nat, offset: nat, pos: nat) {
    first <= b < |cmds| && offset < |cmds[b]| && pos == |Joined(cmds, first, b)| + offset
  }

  /** The read at the place of a byte of a command is of that command. */
  lemma ReadFindsCommand(cmds: seq<Command>, first: nat, b: nat, offset: nat, pos: nat, count: nat,
                         whole: seq<Byte>, a: nat, out: seq<Byte>)
    requires IsPlaceOf(cmds, first, b, offset, pos) && whole == Joined(cmds, first, |cmds|)
    requires first <= a < |cmds| && Holds(cmds, first, a, pos)
    requires pos + |out| <= |whole| && out == whole[pos..pos + |out|]
    requires |out| == Min(count, |Joined(cmds, first, a)| + |cmds[a]| - pos)
    ensures out == cmds[b][offset..][..Min(count, |cmds[b]| - offset)]
  {
    HolderIsCommand(cmds, first, b, offset, a);
    assert |out| == Min(count, |cmds[b]| - offset);
    PartOfCommand(cmds, first, b, offset, |out|);
  }

  /** Each slot holds the command whose turn it was. */
  lemma SlotHoldsCommand(mem: Memory, slots: seq<Entry>, held: seq<Entry>, store: Store, i: nat)
    requires i < |slots| && RingHolds(slots, store.Evicted(|slots|) % |slots|, held)
    requires KeepsLast(mem, held, store.committed, store.Evicted(|slots|))
    ensures slots[i].size == SlotLength(store, |slots|, i)
  {
    var n := |slots|;
    var o := store.Evicted(n) % n;
    var k := if i >= o then i - o else i + n - o;
    assert SlotCommand(store, n, i) == store.Evicted(n) + k && Slot(o, n, k) == i;
    if k < |held| { KeepsAt(mem, held, store.committed, store.Evicted(n), |held|, k); }
  }

  lemma AgedSlotHolds(mem: Memory, slots: seq<Entry>, o: nat, held: seq<Entry>, cmds: seq<Command>, first: nat, c: nat)
    requires RingHolds(slots, o, held) && KeepsLast(mem, held, cmds, first)
    ensures var aged := ByAge(slots, o);
      if c < |held| then aged[c].size == |cmds[first + c]| && SizeOf(aged, 0, c) == |Joined(cmds, first, first + c)|
      else c < |slots| ==> aged[c].size == 0
  {
    var aged := ByAge(slots, o);
    RingByAge(slots, o, held);
    if c < |held| {
      KeepsAt(mem, held, cmds, first, |held|, c);
      KeepsPrefix(mem, held, cmds, first, |held|, c);
      SizesAreLengths(mem, held, cmds, first, c);
      forall i | 0 <= i <= c ensures aged[i] == held[i] { assert aged[i] == aged[..|held|][i]; }
      SizeAgree(aged, held, 0, c);
    }
  }

  /** n commands of one byte, and o more, the first of which has two bytes: they take the
      first o slots, and the ring has turned by o. */
  function WrapAround(n: nat, o: nat): (cmds: seq<Command>)
    requires 0 < o < n
    ensures |cmds| == n + o
    ensures forall i :: 0 <= i < n + o ==> cmds[i] == if i == n then ['x', NEWLINE] else [NEWLINE]
  {
    Copies([NEWLINE], n) + [['x', NEWLINE]] + Copies([NEWLINE], o - 1)
  }

  lemma WrappedStore(n: nat, o: nat, store: Store)
    requires 0 < o < n && store == WriteAll(EMPTY_STORE, WrapAround(n, o))
    ensures store == Store(WrapAround(n, o), []) && store.Evicted(n) == o
    ensures CommandSeek(store, n, 1, 0) == At(1)
  {
    LinesAreCommitted(WrapAround(n, o));
    var cmds := store.committed;
    assert |Joined(cmds, o, o)| == 0;
    assert |Joined(cmds, o, o + 1)| == |Joined(cmds, o, o)| + |cmds[o]|;
  }

  lemma WrappedSlots(mem: Memory, slots: seq<Entry>, held: seq<Entry>, n: nat, o: nat)
    requires 0 < o < n && |slots| == n && RingHolds(slots, o, held)
    requires KeepsLast(mem, held, WrapAround(n, o), o)
    ensures slots[0].size == 2 && slots[1].size == 1
  {
    var k := if o == 1 then 0 else n - o + 1;
    KeepsAt(mem, held, WrapAround(n, o), o, n, n - o);
    KeepsAt(mem, held, WrapAround(n, o), o, n, k);
    assert slots[Slot(o, n, n - o)] == held[n - o] && slots[Slot(o, n, k)] == held[k];
  }

  /** Wherever the oldest command is, except in slot 0, some device sends a request to another
      byte than the one asked for. */
  lemma WrappedSeekMisses(d: Device, n: nat, o: nat)
    requires 0 < o < n && d.Valid() && n == d.buffer.entry.Length
    requires d.store == WriteAll(EMPTY_STORE, WrapAround(n, o))
    ensures d.buffer.outOffs == o
    ensures SlotSeek(d.buffer.entry[..], 1, 0) == At(2)
    ensures CommandSeek(d.store, n, 1, 0) == At(1)
  {
    WrappedStore(n, o, d.store);
    ModIs(o, 0, o, n);
    var slots := d.buffer.entry[..];
    WrappedSlots(d.mem, slots, d.buffer.held, n, o);
    SizeOfFirst(slots);
  }

  lemma SizeOfFirst(es: seq<Entry>)
    requires es != []
    ensures SizeOf(es, 0, 1) == es[0].size
  {
    assert SizeOf(es, 0, 0) == 0;
  }

  /** Each of them is reached by writing; so with the oldest command in slot 0 alone the seek
      is right whatever the sizes are. */
  method WrappedDevice(n: nat, o: nat) returns (d: Device, retval: int, newPos: nat)
    requires 0 < o < n
    ensures d.Valid() && d.buffer.entry.Length == n && d.store == WriteAll(EMPTY_STORE, WrapAround(n, o))
    ensures d.buffer.outOffs == o && retval == 0 && newPos == 2 && CommandSeek(d.store, n, 1, 0) == At(1)
  {
    d := new Device(n);
    d.WriteEach(WrapAround(n, o));
    WrappedSeekMisses(d, n, o);
    retval, newPos := d.AesdIoctlSeekTo(0, 1, 0, false, false);
  }

  /** The slot that will be the oldest once the pending entry is in the ring. */
  ghost predicate NextOldest(ring: Ring, next: Store)
    requires ring.Valid()
    reads ring, ring.entry
  {
    var n := ring.entry.Length;
    next.Evicted(n) % n == if ring.full then Advance(ring.outOffs, n) else ring.outOffs
  }

  lemma AdvanceIsNext(e: nat, n: nat)
    requires n > 0
    ensures (e + 1) % n == Advance(e % n, n)
  {
    var q, r := e / n, e % n;
    if r + 1 < n {
      ModIs(e + 1, q, r + 1, n);
    } else {
      assert (q + 1) * n == q * n + n;
      ModIs(e + 1, q + 1, 0, n);
    }
  }

  lemma RingTurns(ring: Ring, store: Store, bytes: Command)
    requires ring.Valid() && store.Evicted(ring.entry.Length) + |ring.held| == |store.committed|
    requires ring.outOffs == store.Evicted(ring.entry.Length) % ring.entry.Length
    ensures NextOldest(ring, Store(store.committed + [bytes], []))
  {
    AdvanceIsNext(store.Evicted(ring.entry.Length), ring.entry.Length);
  }

  /** A byte of a slot is a byte of the content. */
  lemma SeekLands(mem: Memory, slots: seq<Entry>, o: nat, held: seq<Entry>, cmds: seq<Command>, first: nat,
                  c: nat, offset: nat)
    requires RingHolds(slots, o, held) && KeepsLast(mem, held, cmds, first)
    requires c < |slots| && offset < slots[c].size
    ensures SizeOf(slots, 0, c) + offset < |Joined(cmds, first, |cmds|)|
  {
    SizesAreLengths(mem, held, cmds, first, |held|);
    TotalSize(slots, o, held);
    SizeMonotone(slots, c + 1, |slots|);
  }

  /** The entries that stay when one more comes in. */
  ghost function Rest(held: seq<Entry>, full: bool): seq<Entry>
    requires full ==> held != []
  {
    if full then held[1..] else held
  }

  /** The block that a commit pushes out of a full ring. */
  ghost function Pushed(held: seq<Entry>, full: bool, commit: bool): set<Addr> {
    if full && commit && held != [] then {held[0].buffptr} else {}
  }

  /** The buffer was copied behind the bytes of the entry, and nothing else changed. */
  ghost predicate Appended(mem: Memory, entry: Entry, buf: seq<Byte>, mem': Memory, entry': Entry) {
    && entry.buffptr in mem && entry.size <= |mem[entry.buffptr]|
    && mem' == mem[entry.buffptr := mem[entry.buffptr][..entry.size] + buf]
    && entry' == Entry(entry.buffptr, entry.size + |buf|)
  }

  lemma Grown(mem: Memory, mem': Memory, held: seq<Entry>, entry: Entry, p: Addr, total: nat, n: nat, store: Store)
    requires Consistent(mem, held, entry, total, n, store)
    requires p != NULL && (p == entry.buffptr || p !in mem)
    requires mem'.Keys == mem.Keys - {entry.buffptr} + {p}
    requires forall q :: q in mem && q != entry.buffptr && q != p ==> mem'[q] == mem[q]
    requires |mem'[p]| >= entry.size
    requires entry.buffptr != NULL ==> mem'[p][..entry.size] == mem[entry.buffptr][..entry.size]
    ensures Consistent(mem', held, entry.(buffptr := p), total, n, store)
  {
    PendingReplaced(mem, mem', held, entry, entry.(buffptr := p), store.committed, store.Evicted(n));
  }

  lemma Copied(mem: Memory, size: nat, held: seq<Entry>, mem': Memory, entry': Entry, buf: seq<Byte>,
               store: Store, total: nat, n: nat)
    requires Consistent(mem, held, Entry(entry'.buffptr, size), total, n, store)
    requires entry'.buffptr != NULL && Appended(mem, Entry(entry'.buffptr, size), buf, mem', entry')
    ensures Owned(mem', held, entry') && KeepsLast(mem', held, store.committed, store.Evicted(n))
    ensures Stored(mem', entry', store.pending + buf)
  {
    PendingReplaced(mem, mem', held, Entry(entry'.buffptr, size), entry', store.committed, store.Evicted(n));
    assert mem'[entry'.buffptr][..entry'.size] == store.pending + buf;
  }

  /** The slot that takes the next entry is empty, or holds the oldest entry of a full ring. */
  lemma SlotToFill(ring: Ring)
    requires ring.Valid()
    ensures ring.inOffs < ring.entry.Length
    ensures ring.entry[ring.inOffs] == if ring.full then ring.held[0] else NO_ENTRY
  {
    assert ring.entry[..][ring.inOffs] == ring.entry[ring.inOffs];
    assert ring.full ==> Slot(ring.outOffs, ring.entry.Length, 0) == ring.inOffs;
  }

  lemma SizeFirst(held: seq<Entry>)
    requires held != []
    ensures SizeOf(held, 0, |held|) == held[0].size + SizeOf(held[1..], 0, |held| - 1)
  {
    SizeSplit(held, 0, 1, |held|);
    SizeShift(held, held[1..], 1, |held| - 1);
  }

  lemma SizeSnoc(held: seq<Entry>, e: Entry)
    ensures SizeOf(held + [e], 0, |held| + 1) == SizeOf(held, 0, |held|) + e.size
  {
    SizeAgree(held + [e], held, 0, |held|);
  }

  /** What the ring holds after a commit: the first entry is gone if the ring was full. */
  lemma KeepsNext(mem: Memory, entry: Entry, cmds: seq<Command>, bytes: seq<Byte>,
                  mem': Memory, rest: seq<Entry>, from: nat)
    requires Unshared(rest, |rest|) && entry.buffptr !in Pointers(rest, |rest|) && entry.buffptr != NULL
    requires from + |rest| == |cmds| && Keeps(mem, rest, cmds, from, |rest|)
    requires Stored(mem, entry, bytes) && NULL !in mem
    requires mem'.Keys == Pointers(rest, |rest|) + {entry.buffptr}
    requires forall p :: p in mem' ==> p in mem && mem'[p] == mem[p]
    ensures Owned(mem', rest + [entry], NO_ENTRY)
    ensures KeepsLast(mem', rest + [entry], cmds + [bytes], from)
  {
    var next := rest + [entry];
    KeepsFrame(mem, mem', rest, cmds, from, |rest|);
    KeepsAgree(mem', rest, next, cmds, cmds + [bytes], from, |rest|);
  }

  lemma StoreNext(store: Store, bytes: seq<Byte>, n: nat, kept: nat)
    requires store.Valid() && NEWLINE in bytes && kept == |store.committed| - store.Evicted(n)
    ensures var next := Store(store.committed + [bytes], []);
      next.Valid() && next.Evicted(n) == store.Evicted(n) + if kept == n then 1 else 0
  {
  }

  lemma Committed(mem: Memory, held: seq<Entry>, entry: Entry, store: Store, bytes: seq<Byte>, full: bool,
                  mem': Memory, n: nat)
    requires store.Valid() && NEWLINE in bytes && n >= 1 && full == (|held| == n)
    requires Owned(mem, held, entry) && Stored(mem, entry, bytes)
    requires KeepsLast(mem, held, store.committed, store.Evicted(n))
    requires mem' == if full then mem - {held[0].buffptr} else mem
    ensures Consistent(mem', Rest(held, full) + [entry], NO_ENTRY,
                       SizeOf(Rest(held, full), 0, |Rest(held, full)|) + entry.size, n,
                       Store(store.committed + [bytes], []))
  {
    var rest, first := Rest(held, full), store.Evicted(n);
    StoreNext(store, bytes, n, |held|);
    if full { KeepsTail(mem, held, store.committed, first, |held| - 1); }
    KeepsNext(mem, entry, store.committed, bytes, mem', rest, first + if full then 1 else 0);
    SizeSnoc(rest, entry);
  }
}

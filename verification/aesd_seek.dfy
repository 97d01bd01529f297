/**
 Seeking to a byte of a command.  Commands take the slots of the ring in turn, and the seek
 command of the device counts slots; so where it lands depends on how often the ring has turned.
 */
module CommandSeeks {
  import opened CommandStream
  import opened Sequences

  datatype Position = At(pos: nat) | Nowhere

  /** Where byte offset of the cmd-th oldest command is in the content. */
  function CommandSeek(store: Store, n: nat, cmd: nat, offset: nat): Position {
    var first := store.Evicted(n);
    if first + cmd < |store.committed| && offset < |store.committed[first + cmd]|
    then At(|Joined(store.committed, first, first + cmd)| + offset) else Nowhere
  }

  /** From that place on the content reads the command from the offset on; there is no such
      place exactly when there is no such command or no such byte in it. */
  lemma CommandSeekFinds(store: Store, n: nat, cmd: nat, offset: nat)
    ensures var first, content := store.Evicted(n), store.Content(n);
      match CommandSeek(store, n, cmd, offset)
      case At(p) =>
        && first + cmd < |store.committed| && offset < |store.committed[first + cmd]|
        && var rest := store.committed[first + cmd][offset..];
           p + |rest| <= |content| && content[p..p + |rest|] == rest
      case Nowhere => first + cmd >= |store.committed| || offset >= |store.committed[first + cmd]|
  {
    var first := store.Evicted(n);
    if first + cmd < |store.committed| && offset < |store.committed[first + cmd]| {
      var c := store.committed[first + cmd];
      JoinedAt(store.committed, first, |store.committed|, first + cmd, offset, |c|);
      assert c[offset..|c|] == c[offset..];
    }
  }

  // ----- slots -----

  lemma MultipleIsFar(k: int, n: nat)
    ensures k == 0 || k * n >= n || k * n + n <= 0
  {
  }

  lemma ModIs(x: nat, q: nat, r: nat, n: nat)
    requires r < n && x == q * n + r
    ensures x % n == r
  {
    var k := q - x / n;
    assert k * n == x % n - r;
    MultipleIsFar(k, n);
  }

  /** The number of the command that slot i of n holds, or will be the next to hold. */
  function SlotCommand(store: Store, n: nat, i: nat): nat
    requires i < n
  {
    var first := store.Evicted(n);
    var o := first % n;
    if i >= o then first + (i - o) else first + (n - o) + i
  }

  /** It is the one of the last n whose turn it was to take that slot. */
  lemma SlotCommandIs(store: Store, n: nat, i: nat)
    requires i < n
    ensures store.Evicted(n) <= SlotCommand(store, n, i) < store.Evicted(n) + n
    ensures SlotCommand(store, n, i) % n == i
  {
    var first := store.Evicted(n);
    var q, o := first / n, first % n;
    if i >= o {
      ModIs(first + (i - o), q, i, n);
    } else {
      assert (q + 1) * n == q * n + n;
      ModIs(first + (n - o) + i, q + 1, i, n);
    }
  }

  function SlotLength(store: Store, n: nat, i: nat): nat
    requires i < n
  {
    var j := SlotCommand(store, n, i);
    if j < |store.committed| then |store.committed[j]| else 0
  }

  /** The bytes in the first k slots. */
  function SlotBytes(store: Store, n: nat, k: nat): nat
    requires k <= n
  {
    if k == 0 then 0 else SlotBytes(store, n, k - 1) + SlotLength(store, n, k - 1)
  }

  /** Where the seek command of the device lands. */
  function SeekPlace(store: Store, n: nat, cmd: nat, offset: nat): Position {
    if cmd < n && offset < SlotLength(store, n, cmd) then At(SlotBytes(store, n, cmd) + offset) else Nowhere
  }

  /** While the oldest command is in slot 0, it lands on the command of that age. */
  lemma SeekPlaceIsCommandSeek(store: Store, n: nat, cmd: nat, offset: nat)
    requires n > 0 && store.Evicted(n) % n == 0
    ensures SeekPlace(store, n, cmd, offset) == CommandSeek(store, n, cmd, offset)
  {
    if cmd < n && SlotCommand(store, n, cmd) < |store.committed| { SlotBytesInOrder(store, n, cmd); }
  }

  lemma {:induction false} SlotBytesInOrder(store: Store, n: nat, k: nat)
    requires n > 0 && store.Evicted(n) % n == 0 && k <= n && store.Evicted(n) + k <= |store.committed|
    ensures SlotBytes(store, n, k) == |Joined(store.committed, store.Evicted(n), store.Evicted(n) + k)|
  {
    if k > 0 { SlotBytesInOrder(store, n, k - 1); }
  }

  /** In a full ring the slots before the oldest command hold the newest ones. */
  lemma {:induction false} SlotBytesBefore(store: Store, n: nat, k: nat, o: nat)
    requires n > 0 && o == store.Evicted(n) % n && k <= o && |store.committed| >= n
    ensures var begin := |store.committed| - o;
      SlotBytes(store, n, k) == |Joined(store.committed, begin, begin + k)|
  {
    if k > 0 { SlotBytesBefore(store, n, k - 1, o); }
  }

  lemma {:induction false} SlotBytesFrom(store: Store, n: nat, k: nat, o: nat)
    requires n > 0 && o == store.Evicted(n) % n && o <= k <= n && |store.committed| >= n
    ensures var first, end := store.Evicted(n), |store.committed|;
      SlotBytes(store, n, k) ==
        |Joined(store.committed, end - o, end)| + |Joined(store.committed, first, first + (k - o))|
  {
    if k > o { SlotBytesFrom(store, n, k - 1, o); } else { SlotBytesBefore(store, n, k, o); }
  }

  lemma SlotCommandPartial(store: Store, n: nat, i: nat)
    requires |store.committed| <= n && i < n
    ensures SlotCommand(store, n, i) == i
  {
    ModIs(0, 0, 0, n);
  }

  /** In a ring that is not full, slots are commands, and then empty. */
  lemma {:induction false} SlotBytesPartial(store: Store, n: nat, k: nat)
    requires |store.committed| <= n && k <= n && n > 0
    ensures SlotBytes(store, n, k) == |Joined(store.committed, 0, Min(k, |store.committed|))|
  {
    if k > 0 {
      SlotBytesPartial(store, n, k - 1);
      SlotCommandPartial(store, n, k - 1);
    }
  }

  /** All slots together hold the content. */
  lemma AllSlotBytes(store: Store, n: nat)
    requires n > 0
    ensures SlotBytes(store, n, n) == |store.Content(n)|
  {
    if |store.committed| <= n {
      SlotBytesPartial(store, n, n);
    } else {
      var first, end := store.Evicted(n), |store.committed|;
      var o := first % n;
      SlotBytesFrom(store, n, n, o);
      JoinedSplit(store.committed, first, end - o, end);
    }
  }

  lemma {:induction false} SlotBytesMonotone(store: Store, n: nat, a: nat, b: nat)
    requires a <= b <= n
    ensures SlotBytes(store, n, a) <= SlotBytes(store, n, b)
  {
    if a < b { SlotBytesMonotone(store, n, a, b - 1); }
  }

  /** A seek that succeeds lands inside the content. */
  lemma SeekPlaceInside(store: Store, n: nat, cmd: nat, offset: nat)
    requires SeekPlace(store, n, cmd, offset).At?
    ensures SeekPlace(store, n, cmd, offset).pos < |store.Content(n)|
  {
    AllSlotBytes(store, n);
    SlotBytesMonotone(store, n, cmd + 1, n);
  }
}

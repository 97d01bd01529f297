/**
 What the character device is for: a byte stream, cut into commands at the writes that
 bring a newline, of which the last N commands can be read back.
 */
module CommandStream {
  import opened Sequences

  type Byte = char
  type Command = seq<Byte>

  const NEWLINE: Byte := '\n'

  // ----- commands end to end -----

  /** The commands from number lo up to, but not including, number hi, end to end. */
  function Joined(cmds: seq<Command>, lo: nat, hi: nat): seq<Byte>
    requires hi <= |cmds|
    decreases hi
  {
    if lo >= hi then [] else Joined(cmds, lo, hi - 1) + cmds[hi - 1]
  }

  lemma {:induction false} JoinedSplit(cmds: seq<Command>, lo: nat, mid: nat, hi: nat)
    requires lo <= mid <= hi <= |cmds|
    ensures Joined(cmds, lo, hi) == Joined(cmds, lo, mid) + Joined(cmds, mid, hi)
    decreases hi
  {
    if mid < hi {
      JoinedSplit(cmds, lo, mid, hi - 1);
    }
  }

  lemma {:induction false} JoinedAgree(a: seq<Command>, b: seq<Command>, lo: nat, hi: nat)
    requires hi <= |a| && hi <= |b|
    requires forall i :: lo <= i < hi ==> a[i] == b[i]
    ensures Joined(a, lo, hi) == Joined(b, lo, hi)
    decreases hi
  {
    if lo < hi { JoinedAgree(a, b, lo, hi - 1); }
  }

  /** Committing one more command extends what is read from any earlier command on. */
  lemma JoinedSnoc(cmds: seq<Command>, c: Command, lo: nat)
    requires lo <= |cmds|
    ensures Joined(cmds + [c], lo, |cmds| + 1) == Joined(cmds, lo, |cmds|) + c
  {
    JoinedAgree(cmds + [c], cmds, lo, |cmds|);
  }

  // ----- writing -----

  /** All commands ever committed, and the bytes still waiting for a newline. */
  datatype Store = Store(committed: seq<Command>, pending: Command) {
    function Stream(): seq<Byte> {
      Joined(committed, 0, |committed|) + pending
    }

    /** How many commands have been pushed out by later ones. */
    function Evicted(n: nat): (e: nat)
      ensures e <= |committed|
    {
      if |committed| <= n then 0 else |committed| - n
    }

    /** What a device that keeps n commands holds: the last n, oldest first. */
    function Content(n: nat): seq<Byte> {
      Joined(committed, Evicted(n), |committed|)
    }

    ghost predicate Valid() {
      && NEWLINE !in pending
      && forall i :: 0 <= i < |committed| ==> NEWLINE in committed[i]
    }
  }

  const EMPTY_STORE := Store([], [])

  function Write(s: Store, chunk: seq<Byte>): Store {
    var bytes := s.pending + chunk;
    if NEWLINE in bytes then Store(s.committed + [bytes], []) else s.(pending := bytes)
  }

  function WriteAll(s: Store, chunks: seq<seq<Byte>>): Store {
    if chunks == [] then s else Write(WriteAll(s, chunks[..|chunks| - 1]), chunks[|chunks| - 1])
  }

  lemma WriteKeepsStream(s: Store, chunk: seq<Byte>)
    requires s.Valid()
    ensures Write(s, chunk).Valid()
    ensures Write(s, chunk).Stream() == s.Stream() + chunk
  {
    JoinedSnoc(s.committed, s.pending + chunk, 0);
  }

  /** No byte is lost, repeated or moved, however the stream is split into writes; what is
      pending has no newline and every command has one. */
  lemma {:induction false} StreamIsKept(s: Store, chunks: seq<seq<Byte>>)
    requires s.Valid()
    ensures WriteAll(s, chunks).Valid()
    ensures WriteAll(s, chunks).Stream() == s.Stream() + Joined(chunks, 0, |chunks|)
  {
    if chunks != [] {
      var m := |chunks| - 1;
      StreamIsKept(s, chunks[..m]);
      WriteKeepsStream(WriteAll(s, chunks[..m]), chunks[m]);
      JoinedAgree(chunks, chunks[..m], 0, m);
    } else {
      assert s.Stream() + [] == s.Stream();
    }
  }

  /** A newline at the end and nowhere before. */
  predicate IsLine(c: Command) {
    c != [] && c[|c| - 1] == NEWLINE && NEWLINE !in c[..|c| - 1]
  }

  /** No newline before the last byte. */
  predicate NewlineOnlyLast(chunk: seq<Byte>) {
    chunk == [] || NEWLINE !in chunk[..|chunk| - 1]
  }

  ghost predicate AllLines(cmds: seq<Command>) {
    forall i :: 0 <= i < |cmds| ==> IsLine(cmds[i])
  }

  lemma WriteCommitsLineIff(s: Store, chunk: seq<Byte>)
    requires s.Valid()
    ensures AllLines(Write(s, chunk).committed) <==> AllLines(s.committed) && NewlineOnlyLast(chunk)
  {
    var bytes, next := s.pending + chunk, Write(s, chunk);
    if NEWLINE in bytes {
      assert next.committed[..|s.committed|] == s.committed;
      assert next.committed[|s.committed|] == bytes;
      assert chunk != [];
      assert bytes[..|bytes| - 1] == s.pending + chunk[..|chunk| - 1];
      assert IsLine(bytes) <==> NewlineOnlyLast(chunk);
      assert forall i :: 0 <= i < |s.committed| ==> next.committed[i] == s.committed[i];
    } else if chunk != [] {
      assert NEWLINE !in chunk[..|chunk| - 1];
    }
  }

  /** The commands are the lines of the stream exactly when no write has a newline before
      its last byte: the device does not cut a write in two. */
  lemma {:induction false} CommandsAreLinesIff(chunks: seq<seq<Byte>>)
    ensures AllLines(WriteAll(EMPTY_STORE, chunks).committed)
       <==> forall i :: 0 <= i < |chunks| ==> NewlineOnlyLast(chunks[i])
  {
    if chunks != [] {
      var front := chunks[..|chunks| - 1];
      CommandsAreLinesIff(front);
      StreamIsKept(EMPTY_STORE, front);
      WriteCommitsLineIff(WriteAll(EMPTY_STORE, front), chunks[|chunks| - 1]);
      assert forall i :: 0 <= i < |front| ==> front[i] == chunks[i];
    }
  }

  /** Written one by one, lines are the commands. */
  lemma {:induction false} LinesAreCommitted(lines: seq<Command>)
    requires forall i :: 0 <= i < |lines| ==> NEWLINE in lines[i]
    ensures WriteAll(EMPTY_STORE, lines) == Store(lines, [])
  {
    if lines != [] {
      var m := |lines| - 1;
      LinesAreCommitted(lines[..m]);
      assert [] + lines[m] == lines[m] && lines[..m] + [lines[m]] == lines;
    }
  }

  /** The same command again and again. */
  function Copies(c: Command, k: nat): (cmds: seq<Command>)
    ensures |cmds| == k && forall i :: 0 <= i < k ==> cmds[i] == c
  {
    if k == 0 then [] else Copies(c, k - 1) + [c]
  }

  // ----- reading -----

  /** Command a holds byte pos of what is joined from lo. */
  ghost predicate Holds(cmds: seq<Command>, lo: nat, a: nat, pos: nat)
    requires a < |cmds|
  {
    |Joined(cmds, lo, a)| <= pos < |Joined(cmds, lo, a)| + |cmds[a]|
  }

  lemma {:induction false} JoinedMonotone(cmds: seq<Command>, lo: nat, a: nat, b: nat)
    requires a <= b <= |cmds|
    ensures |Joined(cmds, lo, a)| <= |Joined(cmds, lo, b)|
    decreases b
  {
    if a < b {
      JoinedMonotone(cmds, lo, a, b - 1);
    }
  }

  /** There is only one such command. */
  lemma OnlyOneHolds(cmds: seq<Command>, lo: nat, a: nat, b: nat, pos: nat)
    requires lo <= a < |cmds| && lo <= b < |cmds|
    requires Holds(cmds, lo, a, pos) && Holds(cmds, lo, b, pos)
    ensures a == b
  {
    if a < b {
      JoinedMonotone(cmds, lo, a + 1, b);
    } else if b < a {
      JoinedMonotone(cmds, lo, b + 1, a);
    }
  }

  lemma JoinedAtLast(cmds: seq<Command>, lo: nat, a: nat, i: nat, j: nat)
    requires lo <= a < |cmds| && i <= j <= |cmds[a]|
    ensures var base := |Joined(cmds, lo, a)|;
      base + j <= |Joined(cmds, lo, a + 1)| && Joined(cmds, lo, a + 1)[base + i..base + j] == cmds[a][i..j]
  {
    SliceRight(Joined(cmds, lo, a), cmds[a], i, j);
  }

  /** Bytes of one command, found in the whole. */
  lemma {:induction false} JoinedAt(cmds: seq<Command>, lo: nat, hi: nat, a: nat, i: nat, j: nat)
    requires lo <= a < hi <= |cmds| && i <= j <= |cmds[a]|
    ensures var base := |Joined(cmds, lo, a)|;
      base + j <= |Joined(cmds, lo, hi)| && Joined(cmds, lo, hi)[base + i..base + j] == cmds[a][i..j]
    decreases hi
  {
    if a < hi - 1 {
      var base := |Joined(cmds, lo, a)|;
      JoinedAt(cmds, lo, hi - 1, a, i, j);
      SliceLeft(Joined(cmds, lo, hi - 1), cmds[hi - 1], base + i, base + j);
    } else {
      JoinedAtLast(cmds, lo, a, i, j);
    }
  }

  function Min(a: nat, b: nat): nat {
    if a < b then a else b
  }
}

/**
 What a packet is and what its chunks do, said on the bytes that were received and on the
 events of a run: where the receive loop stops, what reaches the device, and where the client
 begins to read.
 */
module ServerPackets {
  import opened CommandSeeks
  import opened CommandStream
  import opened Sequences
  import opened ServerRuns
  import opened SocketServer

  // ----- where a packet ends -----

  /** The last byte received with this chunk is a newline. */
  predicate LastByteIsNewline(c: Chunk) {
    var received := match c
      case Data(bytes) => bytes
      case Seek(text, _, _) => text;
    |received| > 0 && received[|received| - 1] == '\n'
  }

  ghost predicate NoneEnds(chunks: seq<Chunk>) {
    forall i :: 0 <= i < |chunks| ==> !LastByteIsNewline(chunks[i])
  }

  /** The data of chunks, end to end; a seek command has none. */
  function DataOf(chunks: seq<Chunk>): seq<Byte> {
    if chunks == [] then []
    else
      var last := chunks[|chunks| - 1];
      DataOf(chunks[..|chunks| - 1]) + if last.Data? then last.bytes else []
  }

  /** The chunks that the receive loop takes of all that the client sends: up to the first
      that ends with a newline, or all if none does. */
  ghost predicate IsTaken(taken: seq<Chunk>, chunks: seq<Chunk>) {
    && |taken| <= |chunks| && taken == chunks[..|taken|]
    && (taken != [] ==> NoneEnds(taken[..|taken| - 1]))
    && (taken == chunks || (taken != [] && LastByteIsNewline(taken[|taken| - 1])))
  }

  lemma EndsOnlyLast(taken: seq<Chunk>, chunks: seq<Chunk>, i: nat)
    requires IsTaken(taken, chunks) && i + 1 < |taken|
    ensures !LastByteIsNewline(chunks[i])
  {
    assert taken[..|taken| - 1][i] == chunks[i];
  }

  lemma TakenIsUnique(a: seq<Chunk>, b: seq<Chunk>, chunks: seq<Chunk>)
    requires IsTaken(a, chunks) && IsTaken(b, chunks)
    ensures a == b
  {
    if a != [] && |a| < |b| { EndsOnlyLast(b, chunks, |a| - 1); }
    if b != [] && |b| < |a| { EndsOnlyLast(a, chunks, |b| - 1); }
  }

  lemma {:induction false} DataOfFirst(c: Chunk, rest: seq<Chunk>)
    ensures DataOf([c] + rest) == c.Bytes() + DataOf(rest)
  {
    if rest == [] {
      assert [c] + rest == [c] && [c][..0] == [];
    } else {
      var m := |rest| - 1;
      DataOfFirst(c, rest[..m]);
      assert ([c] + rest)[..m + 1] == [c] + rest[..m];
      Regroup(c.Bytes(), DataOf(rest[..m]), if rest[m].Data? then rest[m].bytes else []);
    }
  }

  lemma TakenRest(taken: seq<Chunk>, chunks: seq<Chunk>)
    requires IsTaken(taken, chunks) && chunks != []
    ensures taken != [] && taken[0] == chunks[0]
    ensures IsTaken(taken[1..], Rest(chunks))
  {
    assert chunks[0].EndsPacket() == LastByteIsNewline(chunks[0]);
    if chunks[0].EndsPacket() {
      if |taken| > 1 { EndsOnlyLast(taken, chunks, 0); }
      assert taken[1..] == [];
    } else {
      var rest := taken[1..];
      if rest != [] {
        var front := rest[..|rest| - 1];
        forall i | 0 <= i < |front| ensures !LastByteIsNewline(front[i]) {
          assert taken[..|taken| - 1][i + 1] == front[i];
        }
      }
    }
  }

  /** Exactly the data of the chunks taken goes to the device. */
  lemma {:induction false} AcceptedIsTaken(taken: seq<Chunk>, chunks: seq<Chunk>)
    requires IsTaken(taken, chunks)
    ensures Accepted(chunks) == DataOf(taken)
    decreases |taken|
  {
    if chunks != [] {
      TakenRest(taken, chunks);
      AcceptedIsTaken(taken[1..], Rest(chunks));
      DataOfFirst(taken[0], taken[1..]);
      assert [taken[0]] + taken[1..] == taken;
    }
  }

  /** No chunk behind number i has data. */
  ghost predicate OnlySeeksAfter(chunks: seq<Chunk>, i: int) {
    forall j :: 0 <= j < |chunks| && i < j ==> chunks[j].Seek?
  }

  lemma OnlySeeksShift(taken: seq<Chunk>, rest: seq<Chunk>, i: int)
    requires taken != [] && rest == taken[1..] && -1 <= i
    ensures OnlySeeksAfter(rest, i) <==> OnlySeeksAfter(taken, i + 1)
  {
    assert forall j :: 0 <= j < |rest| ==> rest[j] == taken[j + 1];
    assert forall j :: 1 <= j < |taken| ==> taken[j] == rest[j - 1];
  }

  lemma {:induction false} NoDataIsTaken(taken: seq<Chunk>, chunks: seq<Chunk>)
    requires IsTaken(taken, chunks)
    ensures NoData(chunks) <==> OnlySeeksAfter(taken, -1)
    decreases |taken|
  {
    if chunks != [] {
      TakenRest(taken, chunks);
      NoDataIsTaken(taken[1..], Rest(chunks));
      OnlySeeksShift(taken, taken[1..], -1);
    }
  }

  /** The last of these chunks that has data, if there is one, brings a newline. */
  ghost predicate LastDataHasNewline(chunks: seq<Chunk>) {
    forall i :: 0 <= i < |chunks| && chunks[i].Data? && OnlySeeksAfter(chunks, i) ==> '\n' in chunks[i].bytes
  }

  lemma LastDataStep(taken: seq<Chunk>, rest: seq<Chunk>)
    requires taken != [] && rest == taken[1..]
    ensures LastDataHasNewline(taken) <==> (LastDataHasNewline(rest) &&
      (taken[0].Data? && OnlySeeksAfter(rest, -1) ==> '\n' in taken[0].bytes))
  {
    OnlySeeksShift(taken, rest, -1);
    if LastDataHasNewline(taken) {
      forall i | 0 <= i < |rest| && rest[i].Data? && OnlySeeksAfter(rest, i) ensures '\n' in rest[i].bytes {
        OnlySeeksShift(taken, rest, i);
        assert taken[i + 1] == rest[i];
      }
    }
    if LastDataHasNewline(rest) && (taken[0].Data? && OnlySeeksAfter(rest, -1) ==> '\n' in taken[0].bytes) {
      forall i | 0 <= i < |taken| && taken[i].Data? && OnlySeeksAfter(taken, i) ensures '\n' in taken[i].bytes {
        if i > 0 {
          OnlySeeksShift(taken, rest, i - 1);
          assert taken[i] == rest[i - 1];
        }
      }
    }
  }

  /** What the theorems about pending bytes ask of a packet: that the last of the chunks taken
      that has data brings a newline. */
  lemma {:induction false} TerminatedIsTaken(taken: seq<Chunk>, chunks: seq<Chunk>)
    requires IsTaken(taken, chunks)
    ensures Terminated(chunks) <==> LastDataHasNewline(taken)
    decreases |taken|
  {
    if chunks != [] {
      TakenRest(taken, chunks);
      TerminatedIsTaken(taken[1..], Rest(chunks));
      NoDataIsTaken(taken[1..], Rest(chunks));
      LastDataStep(taken, taken[1..]);
    }
  }

  lemma TakenUpTo(front: seq<Chunk>, last: Chunk, tail: seq<Chunk>)
    requires NoneEnds(front) && LastByteIsNewline(last)
    ensures IsTaken(front + [last], front + [last] + tail)
  {
    var taken := front + [last];
    assert taken[..|taken| - 1] == front;
    assert (taken + tail)[..|taken|] == taken;
  }

  lemma TakenAll(chunks: seq<Chunk>)
    requires NoneEnds(chunks)
    ensures IsTaken(chunks, chunks)
  {
  }

  /** Whatever follows the first chunk whose last byte is a newline is not received any more;
      a packet without such a chunk is received whole. */
  lemma PacketEnds(front: seq<Chunk>, last: Chunk, tail: seq<Chunk>)
    requires NoneEnds(front)
    ensures LastByteIsNewline(last) ==>
      Accepted(front + [last] + tail) == DataOf(front) + if last.Data? then last.bytes else []
    ensures Accepted(front) == DataOf(front)
  {
    TakenAll(front);
    AcceptedIsTaken(front, front);
    if LastByteIsNewline(last) {
      TakenUpTo(front, last, tail);
      AcceptedIsTaken(front + [last], front + [last] + tail);
      assert (front + [last])[..|front|] == front;
    }
  }

  // ----- what a thread has done with its packet -----

  /** The event lets thread t handle the next chunk of its packet. */
  ghost predicate HandlesChunk(s: Server, e: Event, t: nat) {
    e.t == t < |s.clients| && s.clients[t].phase == Writing && s.clients[t].inbox != []
  }

  /** The chunks that thread t has handled in a run. */
  ghost function Handled(packets: seq<seq<Chunk>>, events: seq<Event>, n: nat, t: nat): seq<Chunk> {
    if events == [] then []
    else
      var front, e := events[..|events| - 1], events[|events| - 1];
      var s := Run(Start(packets), front, n);
      Handled(packets, front, n, t) + if HandlesChunk(s, e, t) then [s.clients[t].inbox[0]] else []
  }

  /** A thread handles the chunks of its packet in order, until one ends with a newline. */
  ghost predicate HandledInv(c: Client, handled: seq<Chunk>) {
    c.written == DataOf(handled) &&
    if c.phase == Waiting then handled == [] && c.inbox == c.packet
    else if c.inbox != [] then c.phase == Writing && NoneEnds(handled) && c.packet == handled + c.inbox
    else IsTaken(handled, c.packet)
  }

  lemma HandleOne(c: Client, handled: seq<Chunk>, next: Client)
    requires HandledInv(c, handled) && c.phase == Writing && c.inbox != []
    requires next.packet == c.packet && next.phase == Writing && next.inbox == Rest(c.inbox)
    requires next.written == c.written + c.inbox[0].Bytes()
    ensures HandledInv(next, handled + [c.inbox[0]])
  {
    var more, chunk := handled + [c.inbox[0]], c.inbox[0];
    assert more[..|more| - 1] == handled;
    assert c.written + [] == c.written;
    assert chunk.EndsPacket() == LastByteIsNewline(chunk);
    assert c.packet[..|more|] == more;
    if chunk.EndsPacket() || |c.inbox| == 1 {
      assert |c.inbox| == 1 ==> more == c.packet;
    } else {
      assert c.packet == more + c.inbox[1..];
    }
  }

  lemma StepHandles(s: Server, e: Event, n: nat, t: nat, handled: seq<Chunk>)
    requires t < |s.clients| && HandledInv(s.clients[t], handled)
    ensures |Step(s, e, n).clients| == |s.clients|
    ensures HandledInv(Step(s, e, n).clients[t],
                       handled + if HandlesChunk(s, e, t) then [s.clients[t].inbox[0]] else [])
  {
    StepChanges(s, e, n);
    assert handled + [] == handled;
    if HandlesChunk(s, e, t) {
      assert s.clients[t].written + [] == s.clients[t].written;
      HandleOne(s.clients[t], handled, Processed(s.clients[t], s.store, n));
    } else if !Idle(s, e) && e.t == t {
      StepsOtherwise(s.clients[t], s.store, n, handled);
    }
  }

  lemma StepsOtherwise(c: Client, store: Store, n: nat, handled: seq<Chunk>)
    requires HandledInv(c, handled) && c.phase != Done && (c.phase == Writing ==> c.inbox == [])
    ensures HandledInv(Stepped(c, store, n), handled)
  {
  }

  lemma {:induction false} RunHandles(packets: seq<seq<Chunk>>, events: seq<Event>, n: nat, t: nat)
    requires t < |packets|
    ensures var s := Run(Start(packets), events, n);
      |s.clients| == |packets| && HandledInv(s.clients[t], Handled(packets, events, n, t))
  {
    if events != [] {
      var front := events[..|events| - 1];
      RunHandles(packets, front, n, t);
      StepHandles(Run(Start(packets), front, n), events[|events| - 1], n, t, Handled(packets, front, n, t));
    }
  }

  /** In every interleaving a thread that has left the mutex has handled exactly the chunks up
      to the first whose last byte is a newline, or all of them, and written their data. */
  lemma LeavesAtPacketEnd(packets: seq<seq<Chunk>>, events: seq<Event>, n: nat, t: nat)
    requires t < |packets|
    ensures var s := Run(Start(packets), events, n);
      |s.clients| == |packets| &&
      (s.clients[t].phase == Reading || s.clients[t].phase == Done ==>
        && IsTaken(Handled(packets, events, n, t), packets[t])
        && s.clients[t].written == DataOf(Handled(packets, events, n, t)))
  {
    RunHandles(packets, events, n, t);
    PacketsStay(packets, events, n);
  }

  /** The same for a packet given by its parts. */
  lemma WritesUpToNewline(packets: seq<seq<Chunk>>, events: seq<Event>, n: nat, t: nat,
                          front: seq<Chunk>, last: Chunk, tail: seq<Chunk>)
    requires t < |packets| && NoneEnds(front)
    ensures var s := Run(Start(packets), events, n);
      |s.clients| == |packets| &&
      (s.clients[t].phase == Reading || s.clients[t].phase == Done ==>
        && (LastByteIsNewline(last) && packets[t] == front + [last] + tail ==>
              s.clients[t].written == DataOf(front) + if last.Data? then last.bytes else [])
        && (packets[t] == front ==> s.clients[t].written == DataOf(front)))
  {
    LeavesAtPacketEnd(packets, events, n, t);
    var handled := Handled(packets, events, n, t);
    var s := Run(Start(packets), events, n);
    if s.clients[t].phase == Reading || s.clients[t].phase == Done {
      if LastByteIsNewline(last) && packets[t] == front + [last] + tail {
        TakenUpTo(front, last, tail);
        TakenIsUnique(handled, front + [last], packets[t]);
        assert (front + [last])[..|front|] == front;
      }
      if packets[t] == front {
        TakenAll(front);
        TakenIsUnique(handled, front, packets[t]);
      }
    }
  }

  // ----- where a client begins to read -----

  /** Where the last seek command of thread t that found a place has put the reader: the place
      in the content as it was at that step; 0 if there was none. */
  ghost function LastSeek(packets: seq<seq<Chunk>>, events: seq<Event>, n: nat, t: nat): nat {
    if events == [] then 0
    else
      var front, e := events[..|events| - 1], events[|events| - 1];
      var s := Run(Start(packets), front, n);
      if HandlesChunk(s, e, t) && s.clients[t].inbox[0].Seek? then
        match SeekPlace(s.store, n, s.clients[t].inbox[0].cmd, s.clients[t].inbox[0].offset)
        case At(p) => p
        case Nowhere => LastSeek(packets, front, n, t)
      else LastSeek(packets, front, n, t)
  }

  ghost predicate SeekInv(c: Client, last: nat) {
    match c.phase
    case Waiting => last == 0
    case Writing => c.pos == last
    case Reading => c.start == last
    case Done => c.start == last
  }

  lemma StepSeeks(s: Server, e: Event, n: nat, t: nat, last: nat, more: nat)
    requires t < |s.clients| && SeekInv(s.clients[t], last)
    requires more == if HandlesChunk(s, e, t) then Processed(s.clients[t], s.store, n).pos else last
    ensures |Step(s, e, n).clients| == |s.clients| && SeekInv(Step(s, e, n).clients[t], more)
  {
    StepChanges(s, e, n);
  }

  lemma {:induction false} RunSeeks(packets: seq<seq<Chunk>>, events: seq<Event>, n: nat, t: nat)
    requires t < |packets|
    ensures var s := Run(Start(packets), events, n);
      |s.clients| == |packets| && SeekInv(s.clients[t], LastSeek(packets, events, n, t))
  {
    if events != [] {
      var front, e := events[..|events| - 1], events[|events| - 1];
      RunSeeks(packets, front, n, t);
      StepSeeks(Run(Start(packets), front, n), e, n, t,
                LastSeek(packets, front, n, t), LastSeek(packets, events, n, t));
    }
  }

  /** In every interleaving a client begins to read where its last seek that found a place has
      put it, and at 0 without one. */
  lemma ReadsFromLastSeek(packets: seq<seq<Chunk>>, events: seq<Event>, n: nat, t: nat)
    requires t < |packets|
    ensures var s := Run(Start(packets), events, n);
      |s.clients| == |packets| &&
      (s.clients[t].phase == Reading || s.clients[t].phase == Done ==>
        s.clients[t].start == LastSeek(packets, events, n, t))
  {
    RunSeeks(packets, events, n, t);
  }

  lemma SeekAlone(s: Server, n: nat, t: nat, seek: Chunk) returns (events: seq<Event>)
    requires t < |s.clients| && s.clients[t] == NewClient([seek]) && s.holder == Free && seek.Seek?
    ensures var s' := Run(s, events, n);
      && s'.store == s.store && |s'.clients| == |s.clients|
      && s'.clients[t].phase == Reading && s'.clients[t].received == []
      && s'.clients[t].pos == Sought(0, SeekPlace(s.store, n, seek.cmd, seek.offset))
  {
    var e := Event(t);
    events := [] + [e] + [e] + [e];
    RunMore(s, [], e, n);
    RunMore(s, [] + [e], e, n);
    RunMore(s, [] + [e] + [e], e, n);
  }

  /** A client that sends one seek command and is alone receives the content from the place of
      that seek on; or all of it, if the device knows no such place. */
  lemma LoneSeekReceives(s: Server, n: nat, t: nat, seek: Chunk) returns (events: seq<Event>)
    requires t < |s.clients| && s.clients[t] == NewClient([seek]) && s.holder == Free && seek.Seek?
    ensures var s' := Run(s, events, n);
      && s'.store == s.store && |s'.clients| == |s.clients| && s'.clients[t].phase == Done
      && s'.clients[t].received == match SeekPlace(s.store, n, seek.cmd, seek.offset)
         case At(p) => if p <= |s.store.Content(n)| then s.store.Content(n)[p..] else []
         case Nowhere => s.store.Content(n)
    ensures SeekPlace(s.store, n, seek.cmd, seek.offset).At? ==>
      SeekPlace(s.store, n, seek.cmd, seek.offset).pos < |s.store.Content(n)|
  {
    var first := SeekAlone(s, n, t, seek);
    if SeekPlace(s.store, n, seek.cmd, seek.offset).At? { SeekPlaceInside(s.store, n, seek.cmd, seek.offset); }
    var rest := ReadToEnd(Run(s, first, n), n, t);
    RunAppend(s, first, rest, n);
    events := first + rest;
    var content := s.store.Content(n);
    assert content[0..] == content;
    assert forall p :: 0 <= p <= |content| ==> [] + content[p..] == content[p..];
  }

  /** While the oldest command is in slot 0, it receives first the command asked for, from the
      byte asked for on. */
  lemma LoneSeekReceivesCommand(s: Server, n: nat, t: nat, seek: Chunk) returns (events: seq<Event>)
    requires t < |s.clients| && s.clients[t] == NewClient([seek]) && s.holder == Free && seek.Seek?
    requires n > 0 && s.store.Evicted(n) % n == 0
    ensures var s', c := Run(s, events, n), s.store.Evicted(n) + seek.cmd;
      && t < |s'.clients| && s'.clients[t].phase == Done
      && if c < |s.store.committed| && seek.offset < |s.store.committed[c]|
         then s.store.committed[c][seek.offset..] <= s'.clients[t].received
         else s'.clients[t].received == s.store.Content(n)
  {
    events := LoneSeekReceives(s, n, t, seek);
    SeekPlaceIsCommandSeek(s.store, n, seek.cmd, seek.offset);
    CommandSeekFinds(s.store, n, seek.cmd, seek.offset);
  }
}

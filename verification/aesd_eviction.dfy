/**
 Where the guarantee for readers ends: for a device of any capacity, a schedule in which one
 eviction between the first read and the last makes a client receive other bytes than those
 of the content.
 */
module EvictionSchedule {
  import opened CommandStream
  import opened Sequences
  import opened ServerRuns
  import opened SocketServer

  /** A client that is about to read from 0. */
  ghost predicate AtZero(c: Client) {
    c.phase == Reading && c.start == 0 && c.pos == 0 && c.received == [] && c.rounds == 0
  }

  /** What one thread does when nothing stops it: it takes the mutex, writes its only chunk,
      which ends the packet, and releases the mutex. */
  lemma OneChunkPacket(s: Server, n: nat, t: nat, bytes: seq<Byte>) returns (events: seq<Event>)
    requires t < |s.clients| && s.clients[t] == NewClient([Data(bytes)]) && s.holder == Free
    requires Data(bytes).EndsPacket()
    ensures var s' := Run(s, events, n);
      && s'.store == Write(s.store, bytes) && s'.holder == Free
      && |s'.clients| == |s.clients| && (forall i :: 0 <= i < |s.clients| && i != t ==> s'.clients[i] == s.clients[i])
      && AtZero(s'.clients[t])
  {
    var e := Event(t);
    events := [] + [e] + [e] + [e];
    RunMore(s, [], e, n);
    RunMore(s, [] + [e], e, n);
    RunMore(s, [] + [e] + [e], e, n);
  }

  /** One client after another sends the same packet. */
  lemma {:induction false} PacketsInARow(s: Server, n: nat, from: nat, k: nat, b: seq<Byte>)
    returns (events: seq<Event>)
    requires from + k <= |s.clients| && s.holder == Free && s.store.pending == [] && Data(b).EndsPacket()
    requires forall i :: from <= i < from + k ==> s.clients[i] == NewClient([Data(b)])
    ensures var s' := Run(s, events, n);
      && s'.store == Store(s.store.committed + Copies(b, k), []) && s'.holder == Free
      && |s'.clients| == |s.clients|
      && forall i :: 0 <= i < |s.clients| && !(from <= i < from + k) ==> s'.clients[i] == s.clients[i]
    decreases k
  {
    if k == 0 {
      events := [];
      assert s.store.committed + [] == s.store.committed;
    } else {
      var front := PacketsInARow(s, n, from, k - 1, b);
      var s1 := Run(s, front, n);
      var last := OneChunkPacket(s1, n, from + k - 1, b);
      RunAppend(s, front, last, n);
      events := front + last;
      assert [] + b == b;
      Regroup(s.store.committed, Copies(b, k - 1), [b]);
    }
  }

  lemma FirstCommits(packets: seq<seq<Chunk>>, a: seq<Byte>, n: nat) returns (events: seq<Event>)
    requires packets != [] && packets[0] == [Data(a)] && Data(a).EndsPacket()
    ensures var s := Run(Start(packets), events, n);
      && s.store == Store([a], []) && s.holder == Free && |s.clients| == |packets|
      && (forall i :: 1 <= i < |packets| ==> s.clients[i] == NewClient(packets[i]))
      && AtZero(s.clients[0])
  {
    events := OneChunkPacket(Start(packets), n, 0, a);
    assert [] + a == a && [] + [a] == [a];
  }

  /** The first client's packet is committed and received. */
  lemma FirstReads(packets: seq<seq<Chunk>>, a: seq<Byte>, n: nat) returns (events: seq<Event>)
    requires n >= 1 && packets != [] && packets[0] == [Data(a)] && Data(a).EndsPacket()
    ensures var s := Run(Start(packets), events, n);
      && s.store == Store([a], []) && s.holder == Free && |s.clients| == |packets|
      && (forall i :: 1 <= i < |packets| ==> s.clients[i] == NewClient(packets[i]))
      && s.clients[0].phase == Reading && s.clients[0].start == 0
      && s.clients[0].mark == 0 && s.clients[0].rounds > 0
      && s.clients[0].received == a
  {
    var first := FirstCommits(packets, a, n);
    OneCommand(a, n);
    var rest := ReadRest(Run(Start(packets), first, n), n, 0);
    RunAppend(Start(packets), first, rest, n);
    events := first + rest;
    assert [] + a[0..] == a;
  }

  lemma OneCommand(a: Command, n: nat)
    requires n >= 1
    ensures Store([a], []).Content(n) == a && Store([a], []).Evicted(n) == 0
  {
    assert [] + a == a;
  }

  /** After n more commands the device holds those. */
  lemma PushedOut(a: Command, b: Command, n: nat)
    requires n >= 1 && b != []
    ensures var store := Store([a] + Copies(b, n), []);
      store.Evicted(n) == 1 && |b| <= |store.Content(n)| && store.Content(n)[0] == b[0]
  {
    var cmds := [a] + Copies(b, n);
    JoinedAt(cmds, 1, n + 1, 1, 0, |b|);
    assert cmds[1] == b;
    assert Joined(cmds, 1, n + 1)[0..|b|][0] == b[0];
  }

  /** One eviction between the first read and the last is enough to break the guarantee, for
      a device of any capacity: n more clients commit while the first one reads, its packet
      is pushed out, and what it received is not the content of its last read. */
  lemma EvictionCanMislead(packets: seq<seq<Chunk>>, a: seq<Byte>, b: seq<Byte>, n: nat) returns (events: seq<Event>)
    requires n >= 1 && |packets| == n + 1 && packets[0] == [Data(a)]
    requires forall i :: 1 <= i <= n ==> packets[i] == [Data(b)]
    requires Data(a).EndsPacket() && Data(b).EndsPacket() && a[0] != b[0]
    ensures var s := Run(Start(packets), events, n);
      |s.clients| == |packets| &&
      var c := s.clients[0];
      && c.phase == Done && c.start == 0 && c.rounds > 0 && c.finalMark == c.mark + 1
      && a <= c.received && c.received != c.final && !Received(c)
  {
    var s0 := Start(packets);
    var first := FirstReads(packets, a, n);
    var s1 := Run(s0, first, n);
    var others := PacketsInARow(s1, n, 1, n, b);
    RunAppend(s0, first, others, n);
    var s2 := Run(s0, first + others, n);
    PushedOut(a, b, n);
    var last := ReadToEnd(s2, n, 0);
    RunAppend(s0, first + others, last, n);
    events := first + others + last;
  }
}

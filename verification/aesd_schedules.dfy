/** How long runs of the server can be: every schedule comes to an end, and none gets stuck. */
module ServerSchedules {
  import opened CommandSeeks
  import opened CommandStream
  import opened Sequences
  import opened SocketServer

  /** Bytes written by the threads of the first k clients. */
  function WrittenBytes(clients: seq<Client>, k: nat): nat
    requires k <= |clients|
  {
    if k == 0 then 0 else WrittenBytes(clients, k - 1) + |clients[k - 1].written|
  }

  /** Bytes for the device in the first k packets. */
  function PacketBytes(packets: seq<seq<Chunk>>, k: nat): nat
    requires k <= |packets|
  {
    if k == 0 then 0 else PacketBytes(packets, k - 1) + |Accepted(packets[k - 1])|
  }

  lemma {:induction false} WrittenChange(clients: seq<Client>, t: nat, c: Client, k: nat)
    requires t < |clients| && k <= |clients|
    ensures WrittenBytes(clients[t := c], k) ==
      WrittenBytes(clients, k) + if t < k then |c.written| - |clients[t].written| else 0
  {
    if k > 0 { WrittenChange(clients, t, c, k - 1); }
  }

  lemma OneWritten(c: Client, store: Store, n: nat)
    requires ClientInv(c, store, n)
    ensures |c.written| <= |Accepted(c.packet)|
  {
    assert |c.written + Accepted(c.inbox)| == |Accepted(c.packet)|;
  }

  lemma {:induction false} WrittenAtMost(clients: seq<Client>, packets: seq<seq<Chunk>>, store: Store, n: nat, k: nat)
    requires ClientsInv(clients, store, n) && SamePackets(clients, packets) && k <= |clients|
    ensures WrittenBytes(clients, k) <= PacketBytes(packets, k)
  {
    if k > 0 {
      WrittenAtMost(clients, packets, store, n, k - 1);
      OneWritten(clients[k - 1], store, n);
    }
  }

  /** Each successful read delivered something, from a position in the stream. */
  ghost predicate Bounded(c: Client, size: nat) {
    c.rounds <= |c.received| <= c.pos <= size
  }

  ghost predicate AllBounded(clients: seq<Client>, size: nat) {
    forall t {:trigger Bounded(clients[t], size)} :: 0 <= t < |clients| ==> Bounded(clients[t], size)
  }

  ghost predicate SizeInv(s: Server) {
    && |s.store.Stream()| == WrittenBytes(s.clients, |s.clients|)
    && AllBounded(s.clients, |s.store.Stream()|)
  }

  lemma ContentFits(store: Store, n: nat)
    ensures |store.Content(n)| <= |store.Stream()|
  {
    EvictedFirst(store, n);
  }

  lemma OneBounded(clients: seq<Client>, t: nat, c: Client, size: nat, more: nat)
    requires AllBounded(clients, size) && size <= more && t < |clients| && Bounded(c, more)
    ensures AllBounded(clients[t := c], more)
  {
    var next := clients[t := c];
    forall i | 0 <= i < |clients| ensures Bounded(next[i], more) {
      assert Bounded(clients[i], size);
    }
  }

  lemma SoughtInside(pos: nat, store: Store, n: nat, cmd: nat, offset: nat)
    requires pos <= |store.Stream()|
    ensures Sought(pos, SeekPlace(store, n, cmd, offset)) <= |store.Stream()|
  {
    ContentFits(store, n);
    if SeekPlace(store, n, cmd, offset).At? { SeekPlaceInside(store, n, cmd, offset); }
  }

  lemma SteppedSize(c: Client, store: Store, n: nat, next: Store)
    requires store.Valid() && ClientInv(c, store, n) && Bounded(c, |store.Stream()|)
    requires next == if c.phase == Writing && c.inbox != [] then StoreAfter(c, store) else store
    ensures var c' := Stepped(c, store, n);
      |next.Stream()| == |store.Stream()| + |c'.written| - |c.written| && Bounded(c', |next.Stream()|)
      && |c'.written| >= |c.written|
  {
    ContentFits(store, n);
    if c.phase == Writing && c.inbox != [] {
      match c.inbox[0]
      case Data(bytes) => WriteKeepsStream(store, bytes);
      case Seek(_, cmd, offset) => SoughtInside(c.pos, store, n, cmd, offset);
    }
  }

  lemma StepKeepsSize(s: Server, e: Event, n: nat)
    requires Inv(s, n) && SizeInv(s)
    ensures SizeInv(Step(s, e, n))
  {
    StepChanges(s, e, n);
    if !Idle(s, e) {
      var c, next := s.clients[e.t], Step(s, e, n);
      assert ClientInv(c, s.store, n) && Bounded(c, |s.store.Stream()|);
      var c' := Stepped(c, s.store, n);
      SteppedSize(c, s.store, n, next.store);
      WrittenChange(s.clients, e.t, c', |s.clients|);
      OneBounded(s.clients, e.t, c', |s.store.Stream()|, |next.store.Stream()|);
    }
  }

  lemma {:induction false} NothingWritten(packets: seq<seq<Chunk>>, k: nat)
    requires k <= |packets|
    ensures WrittenBytes(NewClients(packets), k) == 0
  {
    if k > 0 { NothingWritten(packets, k - 1); }
  }

  lemma {:induction false} RunKeepsSize(packets: seq<seq<Chunk>>, events: seq<Event>, n: nat)
    ensures Inv(Run(Start(packets), events, n), n) && SizeInv(Run(Start(packets), events, n))
  {
    StartInv(packets, n);
    if events == [] {
      NothingWritten(packets, |packets|);
    } else {
      var front := events[..|events| - 1];
      RunKeepsSize(packets, front, n);
      StepKeepsSize(Run(Start(packets), front, n), events[|events| - 1], n);
      StepKeepsInv(Run(Start(packets), front, n), events[|events| - 1], n);
    }
  }

  /** Though others commit while it reads, no client reads on forever: in every interleaving
      its successful reads, and the bytes they deliver, are at most the bytes of all packets. */
  lemma ReadsAreBounded(packets: seq<seq<Chunk>>, events: seq<Event>, n: nat, t: nat)
    requires t < |packets|
    ensures var s := Run(Start(packets), events, n);
      t < |s.clients| && s.clients[t].rounds <= |s.clients[t].received| <= PacketBytes(packets, |packets|)
  {
    var s := Run(Start(packets), events, n);
    RunKeepsSize(packets, events, n);
    PacketsStay(packets, events, n);
    WrittenAtMost(s.clients, packets, s.store, n, |s.clients|);
    assert Bounded(s.clients[t], |s.store.Stream()|);
  }

  /** A bound on the steps that a client has still to make, if it reads at most b times. */
  function StepsLeft(c: Client, b: nat): int {
    match c.phase
    case Waiting => |c.inbox| + b + 3
    case Writing => |c.inbox| + b + 2
    case Reading => b - c.rounds + 1
    case Done => 0
  }

  function AllStepsLeft(clients: seq<Client>, b: nat, k: nat): int
    requires k <= |clients|
  {
    if k == 0 then 0 else AllStepsLeft(clients, b, k - 1) + StepsLeft(clients[k - 1], b)
  }

  lemma {:induction false} StepsLeftChange(clients: seq<Client>, b: nat, t: nat, c: Client, k: nat)
    requires t < |clients| && k <= |clients|
    ensures AllStepsLeft(clients[t := c], b, k) ==
      AllStepsLeft(clients, b, k) + if t < k then StepsLeft(c, b) - StepsLeft(clients[t], b) else 0
  {
    if k > 0 { StepsLeftChange(clients, b, t, c, k - 1); }
  }

  lemma {:induction false} StepsLeftNatural(clients: seq<Client>, b: nat, k: nat)
    requires k <= |clients| && forall t :: 0 <= t < |clients| ==> clients[t].rounds <= b
    ensures AllStepsLeft(clients, b, k) >= 0
  {
    if k > 0 { StepsLeftNatural(clients, b, k - 1); }
  }

  lemma SteppedHasLess(c: Client, store: Store, n: nat, b: nat)
    requires ClientInv(c, store, n) && c.phase != Done && Bounded(c, b)
    ensures c.phase == Reading || c.rounds == 0
    ensures StepsLeft(Stepped(c, store, n), b) < StepsLeft(c, b)
  {
  }

  /** How many of the events did something. */
  ghost function Effective(s: Server, events: seq<Event>, n: nat): nat {
    if events == [] then 0
    else
      var front := events[..|events| - 1];
      Effective(s, front, n) + if Idle(Run(s, front, n), events[|events| - 1]) then 0 else 1
  }

  lemma StepHasLess(s: Server, e: Event, n: nat, b: nat)
    requires Inv(s, n) && SizeInv(s) && |s.store.Stream()| <= b
    ensures var next := Step(s, e, n);
      |next.clients| == |s.clients| &&
      AllStepsLeft(next.clients, b, |s.clients|) + (if Idle(s, e) then 0 else 1)
        <= AllStepsLeft(s.clients, b, |s.clients|)
  {
    StepChanges(s, e, n);
    if !Idle(s, e) {
      var c := s.clients[e.t];
      assert ClientInv(c, s.store, n) && Bounded(c, |s.store.Stream()|);
      SteppedHasLess(c, s.store, n, b);
      StepsLeftChange(s.clients, b, e.t, Stepped(c, s.store, n), |s.clients|);
    }
  }

  lemma StreamAtMost(packets: seq<seq<Chunk>>, events: seq<Event>, n: nat)
    ensures |Run(Start(packets), events, n).store.Stream()| <= PacketBytes(packets, |packets|)
  {
    var s := Run(Start(packets), events, n);
    RunKeepsSize(packets, events, n);
    PacketsStay(packets, events, n);
    WrittenAtMost(s.clients, packets, s.store, n, |s.clients|);
  }

  lemma {:induction false} EffectiveAtMost(packets: seq<seq<Chunk>>, events: seq<Event>, n: nat, b: nat)
    requires b == PacketBytes(packets, |packets|)
    ensures var s := Run(Start(packets), events, n);
      |s.clients| == |packets| &&
      Effective(Start(packets), events, n) + AllStepsLeft(s.clients, b, |packets|)
        <= AllStepsLeft(NewClients(packets), b, |packets|)
  {
    if events != [] {
      var front := events[..|events| - 1];
      EffectiveAtMost(packets, front, n, b);
      RunKeepsSize(packets, front, n);
      StreamAtMost(packets, front, n);
      StepHasLess(Run(Start(packets), front, n), events[|events| - 1], n, b);
    }
  }

  /** One step for each chunk, and for taking and leaving the mutex and the last read; and
      a read for each byte of all packets. */
  function StepBound(packets: seq<seq<Chunk>>, b: nat, k: nat): nat
    requires k <= |packets|
  {
    if k == 0 then 0 else StepBound(packets, b, k - 1) + |packets[k - 1]| + b + 3
  }

  lemma {:induction false} StepsLeftAtStart(packets: seq<seq<Chunk>>, b: nat, k: nat)
    requires k <= |packets|
    ensures AllStepsLeft(NewClients(packets), b, k) == StepBound(packets, b, k)
  {
    if k > 0 { StepsLeftAtStart(packets, b, k - 1); }
  }

  /** No schedule keeps the threads busy for ever: in every interleaving only so many events
      do anything. */
  lemma StepsAreBounded(packets: seq<seq<Chunk>>, events: seq<Event>, n: nat)
    ensures Effective(Start(packets), events, n) <= StepBound(packets, PacketBytes(packets, |packets|), |packets|)
  {
    var b, s := PacketBytes(packets, |packets|), Run(Start(packets), events, n);
    EffectiveAtMost(packets, events, n, b);
    StepsLeftAtStart(packets, b, |packets|);
    forall t | 0 <= t < |s.clients| ensures s.clients[t].rounds <= b {
      ReadsAreBounded(packets, events, n, t);
    }
    StepsLeftNatural(s.clients, b, |packets|);
  }

  /** And none gets stuck: while some client is not done, some thread can make a step. */
  lemma SomeThreadCanStep(packets: seq<seq<Chunk>>, events: seq<Event>, n: nat, t: nat)
    ensures var s := Run(Start(packets), events, n);
      t < |s.clients| && s.clients[t].phase != Done ==> exists e :: Step(s, e, n) != s
  {
    var s := Run(Start(packets), events, n);
    RunKeepsSize(packets, events, n);
    if t < |s.clients| && s.clients[t].phase != Done {
      var e := Event(if s.holder.HeldBy? then s.holder.t else t);
      BusyStepsChange(s, e, n);
    }
  }

  lemma BusyStepsChange(s: Server, e: Event, n: nat)
    requires Inv(s, n) && SizeInv(s) && !Idle(s, e)
    ensures Step(s, e, n) != s
  {
    var c, size := s.clients[e.t], |s.store.Stream()|;
    StepChanges(s, e, n);
    assert ClientInv(c, s.store, n) && Bounded(c, size);
    SteppedHasLess(c, s.store, n, size);
    assert Step(s, e, n).clients[e.t] == Stepped(c, s.store, n);
  }
}

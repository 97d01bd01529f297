/**
 The socket server: one thread for each client, all on the same device and one mutex.

 A thread takes the mutex, opens the device, writes what its client sends up to the end of
 the packet, releases the mutex, and only then reads the device and sends back what it
 reads.  One event is one step of one thread.
 */
module SocketServer {
  import opened CommandSeeks
  import opened CommandStream
  import opened Sequences

  const BUFFER_SIZE := 1024

  /** What recv brings: bytes for the device, or the text of a seek command, which asks for
      byte offset of command cmd. */
  datatype Chunk = Data(bytes: seq<Byte>) | Seek(text: seq<Byte>, cmd: nat, offset: nat) {
    predicate EndsPacket() {
      match this
      case Data(bytes) => bytes != [] && bytes[|bytes| - 1] == NEWLINE
      case Seek(text, _, _) => text != [] && text[|text| - 1] == NEWLINE
    }

    function Bytes(): seq<Byte> {
      match this
      case Data(bytes) => bytes
      case Seek(_, _, _) => []
    }
  }

  /** The chunks still to come after the first. */
  function Rest(chunks: seq<Chunk>): seq<Chunk>
    requires chunks != []
  {
    if chunks[0].EndsPacket() then [] else chunks[1..]
  }

  /** All bytes of a packet that go to the device. */
  function Accepted(chunks: seq<Chunk>): seq<Byte>
    decreases |chunks|
  {
    if chunks == [] then [] else chunks[0].Bytes() + Accepted(Rest(chunks))
  }

  predicate NoData(chunks: seq<Chunk>)
    decreases |chunks|
  {
    chunks == [] || (chunks[0].Seek? && NoData(Rest(chunks)))
  }

  /** The last chunk that goes to the device, if there is one, brings a newline. */
  predicate Terminated(chunks: seq<Chunk>)
    decreases |chunks|
  {
    chunks == [] || (Terminated(Rest(chunks)) &&
      (chunks[0].Data? && NoData(Rest(chunks)) ==> NEWLINE in chunks[0].bytes))
  }

  datatype Phase = Waiting | Writing | Reading | Done

  datatype Client = Client(
    packet: seq<Chunk>,      // everything the client will send
    phase: Phase,
    inbox: seq<Chunk>,       // what it has still to send
    written: seq<Byte>,      // what its thread has written
    wrote: bool,             // it has written at all
    base: nat,               // length of the stream when its thread took the mutex
    had: nat,                // commands committed by then
    mark: nat,               // commands evicted when a first read delivered something
    pos: nat,                // file position
    start: nat,              // file position when reading began
    received: seq<Byte>,     // what the client got back
    places: seq<nat>,        // where those bytes are in the stream
    rounds: nat,             // reads that delivered them
    final: seq<Byte>,        // device content at its last read
    finalMark: nat,          // commands evicted by then
    origin: nat)             // place in the stream where that content begins

  datatype Holder = Free | HeldBy(t: nat)

  datatype Server = Server(store: Store, holder: Holder, clients: seq<Client>, order: seq<nat>)

  /** Thread t makes a step. */
  datatype Event = Event(t: nat)

  function NewClient(packet: seq<Chunk>): Client {
    Client(packet, Waiting, packet, [], false, 0, 0, 0, 0, 0, [], [], 0, [], 0, 0)
  }

  function Acquired(c: Client, store: Store): Client {
    c.(phase := Writing, base := |store.Stream()|, had := |store.committed|, pos := 0)
  }

  function Released(c: Client): Client {
    c.(phase := Reading, start := c.pos)
  }

  /** A seek that fails leaves the position. */
  function Sought(pos: nat, place: Position): nat {
    match place
    case At(p) => p
    case Nowhere => pos
  }

  /** One round of the receive loop. */
  function Processed(c: Client, store: Store, n: nat): Client
    requires c.inbox != []
  {
    match c.inbox[0]
    case Data(bytes) => c.(inbox := Rest(c.inbox), written := c.written + bytes, wrote := true)
    case Seek(_, cmd, offset) => c.(inbox := Rest(c.inbox), pos := Sought(c.pos, SeekPlace(store, n, cmd, offset)))
  }

  function StoreAfter(c: Client, store: Store): Store
    requires c.inbox != []
  {
    match c.inbox[0]
    case Data(bytes) => Write(store, bytes)
    case Seek(_, _, _) => store
  }

  /** How far it is from this position to the end of the command that holds it. */
  function ToCommandEnd(cmds: seq<Command>, lo: nat, hi: nat, pos: nat): (r: nat)
    requires hi <= |cmds| && pos < |Joined(cmds, lo, hi)|
    ensures 0 < r <= |Joined(cmds, lo, hi)| - pos
    decreases hi
  {
    if pos < |Joined(cmds, lo, hi - 1)| then ToCommandEnd(cmds, lo, hi - 1, pos)
    else |Joined(cmds, lo, hi)| - pos
  }

  /** What one read delivers: the bytes up to the end of the command, if the buffer has
      room for them. */
  function ReadSize(store: Store, n: nat, pos: nat): (k: nat)
    requires pos < |store.Content(n)|
    ensures 0 < k <= |store.Content(n)| - pos
  {
    Min(BUFFER_SIZE, ToCommandEnd(store.committed, store.Evicted(n), |store.committed|, pos))
  }

  /** How much of the stream has been pushed out. */
  function Gone(store: Store, n: nat): nat {
    |Joined(store.committed, 0, store.Evicted(n))|
  }

  /** Places in the stream, one after another. */
  function Places(from: nat, k: nat): (places: seq<nat>)
    ensures |places| == k && forall i :: 0 <= i < k ==> places[i] == from + i
  {
    if k == 0 then [] else Places(from, k - 1) + [from + k - 1]
  }

  function Delivered(c: Client, store: Store, n: nat, bytes: seq<Byte>): Client {
    c.(received := c.received + bytes,
       places := c.places + Places(Gone(store, n) + c.pos, |bytes|),
       pos := c.pos + |bytes|,
       rounds := c.rounds + 1,
       mark := if c.rounds == 0 then store.Evicted(n) else c.mark)
  }

  /** One round of the loop that sends the content back, until a read fails at the end. */
  function ReadOnce(c: Client, store: Store, n: nat): Client {
    var content := store.Content(n);
    if c.pos >= |content|
    then c.(phase := Done, final := content, finalMark := store.Evicted(n), origin := Gone(store, n))
    else Delivered(c, store, n, content[c.pos..c.pos + ReadSize(store, n, c.pos)])
  }

  lemma {:induction false} CommandEndAt(cmds: seq<Command>, lo: nat, hi: nat, a: nat, pos: nat)
    requires lo <= a < hi <= |cmds| && Holds(cmds, lo, a, pos) && pos < |Joined(cmds, lo, hi)|
    ensures ToCommandEnd(cmds, lo, hi, pos) == |Joined(cmds, lo, a)| + |cmds[a]| - pos
    decreases hi
  {
    if a < hi - 1 {
      JoinedMonotone(cmds, lo, a + 1, hi - 1);
      CommandEndAt(cmds, lo, hi - 1, a, pos);
    }
  }

  lemma CommandInside(cmds: seq<Command>, lo: nat, a: nat)
    requires lo <= a < |cmds|
    ensures |Joined(cmds, lo, a)| + |cmds[a]| <= |Joined(cmds, lo, |cmds|)|
  {
    JoinedMonotone(cmds, lo, a + 1, |cmds|);
  }

  /** A read of the step system has the size of the device's read into the same buffer: up
      to the end of the command that holds the position. */
  lemma ReadIsDeviceRead(store: Store, n: nat, a: nat, pos: nat)
    requires store.Evicted(n) <= a < |store.committed| && Holds(store.committed, store.Evicted(n), a, pos)
    ensures pos < |store.Content(n)|
    ensures ReadSize(store, n, pos) ==
      Min(BUFFER_SIZE, |Joined(store.committed, store.Evicted(n), a)| + |store.committed[a]| - pos)
  {
    CommandInside(store.committed, store.Evicted(n), a);
    CommandEndAt(store.committed, store.Evicted(n), |store.committed|, a, pos);
  }

  function Step(s: Server, e: Event, n: nat): Server {
    if e.t >= |s.clients| then s
    else
      var c := s.clients[e.t];
      match c.phase
      case Waiting =>
        if s.holder.HeldBy? then s
        else s.(holder := HeldBy(e.t), order := s.order + [e.t], clients := s.clients[e.t := Acquired(c, s.store)])
      case Writing =>
        if c.inbox == [] then
          s.(holder := Free, clients := s.clients[e.t := Released(c)])
        else
          s.(store := StoreAfter(c, s.store), clients := s.clients[e.t := Processed(c, s.store, n)])
      case Reading => s.(clients := s.clients[e.t := ReadOnce(c, s.store, n)])
      case Done => s
  }

  /** The client after a step, when something happens at all. */
  function Stepped(c: Client, store: Store, n: nat): Client {
    match c.phase
    case Waiting => Acquired(c, store)
    case Writing => if c.inbox == [] then Released(c) else Processed(c, store, n)
    case Reading => ReadOnce(c, store, n)
    case Done => c
  }

  ghost predicate Idle(s: Server, e: Event) {
    e.t >= |s.clients| || s.clients[e.t].phase == Done || (s.clients[e.t].phase == Waiting && s.holder.HeldBy?)
  }

  lemma StepChanges(s: Server, e: Event, n: nat)
    ensures Idle(s, e) ==> Step(s, e, n) == s
    ensures !Idle(s, e) ==>
      Step(s, e, n).clients == s.clients[e.t := Stepped(s.clients[e.t], s.store, n)]
  {
  }

  function NewClients(packets: seq<seq<Chunk>>): (clients: seq<Client>)
    ensures |clients| == |packets|
    ensures forall t :: 0 <= t < |packets| ==> clients[t] == NewClient(packets[t])
  {
    if packets == [] then []
    else NewClients(packets[..|packets| - 1]) + [NewClient(packets[|packets| - 1])]
  }

  function Start(packets: seq<seq<Chunk>>): Server {
    Server(EMPTY_STORE, Free, NewClients(packets), [])
  }

  function Run(s: Server, events: seq<Event>, n: nat): Server {
    if events == [] then s else Step(Run(s, events[..|events| - 1], n), events[|events| - 1], n)
  }

  // ----- how the device grows -----

  /** A prefix of s, by length and content. */
  ghost predicate Prefix(p: seq<Byte>, s: seq<Byte>) {
    |p| <= |s| && s[..|p|] == p
  }

  function Committed(store: Store): seq<Byte> {
    Joined(store.committed, 0, |store.committed|)
  }

  lemma WriteGrows(store: Store, bytes: seq<Byte>, n: nat)
    requires store.Valid()
    ensures var next := Write(store, bytes);
      && next.Valid() && next.Stream() == store.Stream() + bytes
      && store.Evicted(n) <= next.Evicted(n)
      && Prefix(Committed(store), Committed(next))
      && (next.Evicted(n) == store.Evicted(n) ==> Prefix(store.Content(n), next.Content(n)))
      && (NEWLINE in bytes ==> next.pending == [])
  {
    WriteKeepsStream(store, bytes);
    JoinedSnoc(store.committed, store.pending + bytes, 0);
    JoinedSnoc(store.committed, store.pending + bytes, store.Evicted(n));
  }

  // ----- one client -----

  /** The client's bytes are in the stream where its thread began to write. */
  ghost predicate Placed(c: Client, stream: seq<Byte>) {
    c.base + |c.written| <= |stream| && stream[c.base..c.base + |c.written|] == c.written
  }

  /** What a client has received is the content from its start on. */
  ghost predicate Follows(c: Client, content: seq<Byte>) {
    c.start <= c.pos <= |content| && c.received == content[c.start..c.pos]
  }

  /** What is written and what is to be written make up the packet. */
  ghost predicate PacketInv(c: Client) {
    && c.written + Accepted(c.inbox) == Accepted(c.packet)
    && (Terminated(c.packet) ==> Terminated(c.inbox))
  }

  /** The client's bytes are where its thread began to write, behind the commands there were
      by then and before the end of the next one. */
  ghost predicate StreamInv(c: Client, store: Store) {
    && c.had <= |store.committed|
    && |Joined(store.committed, 0, c.had)| <= c.base
    && (c.had < |store.committed| ==> c.base < |Joined(store.committed, 0, c.had + 1)|)
    && Placed(c, store.Stream())
  }

  ghost predicate WritingInv(c: Client, store: Store) {
    && c.received == [] && c.rounds == 0 && c.base + |c.written| == |store.Stream()|
    && (Terminated(c.packet) && c.wrote && NoData(c.inbox) ==> store.pending == [])
  }

  /** Once a read has delivered something, the client follows the content until something
      is evicted. */
  ghost predicate FollowInv(c: Client, store: Store, n: nat) {
    if c.rounds == 0 then c.pos == c.start && c.received == []
    else c.mark <= store.Evicted(n) && (c.mark == store.Evicted(n) ==> Follows(c, store.Content(n)))
  }

  ghost predicate ReadingInv(c: Client, store: Store, n: nat) {
    && c.inbox == [] && FollowInv(c, store, n)
    && (Terminated(c.packet) && c.wrote ==> c.base + |c.written| <= |Committed(store)|)
  }

  /** Nothing was evicted between the first read that delivered something and the last read. */
  predicate Undisturbed(c: Client) {
    c.rounds == 0 || c.mark == c.finalMark
  }

  ghost predicate DoneInv(c: Client, store: Store, n: nat) {
    && c.inbox == [] && c.finalMark <= store.Evicted(n) && (c.rounds > 0 ==> c.mark <= c.finalMark)
    && (Undisturbed(c) ==> Received(c))
  }

  ghost predicate ClientInv(c: Client, store: Store, n: nat) {
    PacketInv(c) &&
    match c.phase
    case Waiting => c.inbox == c.packet && !c.wrote && c.received == [] && c.rounds == 0
    case Writing => StreamInv(c, store) && WritingInv(c, store)
    case Reading => StreamInv(c, store) && ReadingInv(c, store, n)
    case Done => StreamInv(c, store) && DoneInv(c, store, n)
  }

  /** What a client got back in the end: the content of its last read, from its start on;
      in it its own packet, if that is terminated, the client read from 0, and only
      commands from before the packet had been evicted. */
  ghost predicate Received(c: Client) {
    && c.received == (if c.start <= |c.final| then c.final[c.start..] else [])
    && (Terminated(c.packet) && c.wrote && c.start == 0 && c.finalMark <= c.had ==>
          Contains(c.received, Accepted(c.packet)))
  }

  ghost predicate Contains(s: seq<Byte>, p: seq<Byte>) {
    exists a: nat :: IsAt(s, p, a)
  }

  ghost predicate IsAt(s: seq<Byte>, p: seq<Byte>, a: nat) {
    a + |p| <= |s| && s[a..a + |p|] == p
  }

  lemma EvictedFirst(store: Store, n: nat)
    ensures Committed(store) == Joined(store.committed, 0, store.Evicted(n)) + store.Content(n)
  {
    JoinedSplit(store.committed, 0, store.Evicted(n), |store.committed|);
  }

  /** What was evicted lies before the client's bytes exactly when it was committed before
      its thread took the mutex. */
  lemma EvictedBeforeIff(c: Client, store: Store, m: nat)
    requires StreamInv(c, store) && m <= |store.committed|
    ensures |Joined(store.committed, 0, m)| <= c.base <==> m <= c.had
  {
    if m <= c.had {
      JoinedMonotone(store.committed, 0, m, c.had);
    } else {
      JoinedMonotone(store.committed, 0, c.had + 1, m);
    }
  }

  lemma AcquireKeeps(c: Client, store: Store, n: nat)
    requires ClientInv(c, store, n) && c.phase == Waiting
    ensures ClientInv(Acquired(c, store), store, n)
    ensures c.written == []
  {
    assert |c.written| + |Accepted(c.inbox)| == |Accepted(c.packet)|;
  }

  lemma PacketGoesOn(c: Client, next: Client)
    requires PacketInv(c) && c.inbox != []
    requires next.packet == c.packet && next.inbox == Rest(c.inbox) && next.written == c.written + c.inbox[0].Bytes()
    ensures PacketInv(next)
  {
    Regroup(c.written, c.inbox[0].Bytes(), Accepted(next.inbox));
  }

  lemma CommandsStay(c: Client, store: Store, bytes: seq<Byte>)
    requires store.Valid() && c.had <= |store.committed| && c.base <= |store.Stream()|
    requires |Joined(store.committed, 0, c.had)| <= c.base
    requires c.had < |store.committed| ==> c.base < |Joined(store.committed, 0, c.had + 1)|
    ensures var next := Write(store, bytes);
      && c.had <= |next.committed|
      && |Joined(next.committed, 0, c.had)| <= c.base
      && (c.had < |next.committed| ==> c.base < |Joined(next.committed, 0, c.had + 1)|)
  {
    CommittedStay(store, bytes, c.had);
    if c.had < |store.committed| {
      CommittedStay(store, bytes, c.had + 1);
    } else if NEWLINE in store.pending + bytes {
      JoinedSnoc(store.committed, store.pending + bytes, 0);
      assert bytes != [];
    }
  }

  /** What a thread has in the stream stays there when the stream goes on. */
  lemma StreamGoesOn(c: Client, store: Store, bytes: seq<Byte>)
    requires store.Valid() && StreamInv(c, store)
    ensures StreamInv(c, Write(store, bytes))
  {
    WriteKeepsStream(store, bytes);
    CommandsStay(c, store, bytes);
    SliceLeft(store.Stream(), bytes, c.base, c.base + |c.written|);
  }

  lemma PlacedMore(c: Client, stream: seq<Byte>, bytes: seq<Byte>)
    requires Placed(c, stream) && c.base + |c.written| == |stream|
    ensures Placed(c.(written := c.written + bytes), stream + bytes)
  {
    assert stream[c.base..] == c.written;
    assert (stream + bytes)[c.base..] == stream[c.base..] + bytes;
  }

  lemma WriteChunkPlaced(c: Client, store: Store, bytes: seq<Byte>, next: Client)
    requires store.Valid() && StreamInv(c, store) && c.base + |c.written| == |store.Stream()|
    requires next.base == c.base && next.had == c.had && next.written == c.written + bytes
    ensures StreamInv(next, Write(store, bytes))
    ensures next.base + |next.written| == |Write(store, bytes).Stream()|
  {
    WriteKeepsStream(store, bytes);
    CommandsStay(c, store, bytes);
    PlacedMore(c, store.Stream(), bytes);
  }

  lemma NothingPendingAfter(c: Client, store: Store, bytes: seq<Byte>)
    requires store.Valid() && c.inbox != [] && c.inbox[0] == Data(bytes)
    requires Terminated(c.inbox) && NoData(Rest(c.inbox))
    ensures Write(store, bytes).pending == []
  {
    assert NEWLINE in bytes;
  }

  lemma WriteChunkKeeps(c: Client, store: Store, bytes: seq<Byte>, next: Client)
    requires store.Valid() && StreamInv(c, store) && WritingInv(c, store)
    requires c.inbox != [] && c.inbox[0] == Data(bytes)
    requires Terminated(c.packet) ==> Terminated(c.inbox)
    requires next == c.(inbox := Rest(c.inbox), written := c.written + bytes, wrote := true)
    ensures StreamInv(next, Write(store, bytes)) && WritingInv(next, Write(store, bytes))
  {
    WriteChunkPlaced(c, store, bytes, next);
    if Terminated(c.packet) && NoData(next.inbox) { NothingPendingAfter(c, store, bytes); }
  }

  lemma ProcessKeeps(c: Client, store: Store, n: nat)
    requires store.Valid() && ClientInv(c, store, n) && c.phase == Writing && c.inbox != []
    ensures ClientInv(Processed(c, store, n), StoreAfter(c, store), n)
  {
    var next := Processed(c, store, n);
    match c.inbox[0]
    case Data(bytes) =>
      PacketGoesOn(c, next);
      WriteChunkKeeps(c, store, bytes, next);
    case Seek(_, _, _) =>
      assert c.written + [] == c.written;
      PacketGoesOn(c, next);
  }

  lemma CommittedStay(store: Store, bytes: seq<Byte>, m: nat)
    requires m <= |store.committed|
    ensures Joined(Write(store, bytes).committed, 0, m) == Joined(store.committed, 0, m)
  {
    JoinedAgree(Write(store, bytes).committed, store.committed, 0, m);
  }

  lemma ReleaseKeeps(c: Client, store: Store, n: nat)
    requires ClientInv(c, store, n) && c.phase == Writing && c.inbox == []
    ensures ClientInv(Released(c), store, n)
    ensures c.written == Accepted(c.packet)
  {
    assert c.written + [] == c.written;
  }

  /** While another thread writes, a thread that does not write keeps what it has. */
  lemma OthersKeep(c: Client, store: Store, n: nat, bytes: seq<Byte>)
    requires store.Valid() && ClientInv(c, store, n) && c.phase != Writing
    ensures ClientInv(c, Write(store, bytes), n)
  {
    WriteGrows(store, bytes, n);
    if c.phase != Waiting { StreamGoesOn(c, store, bytes); }
    if c.phase == Reading { ReadingGoesOn(c, store, n, bytes); }
  }

  lemma ReadingGoesOn(c: Client, store: Store, n: nat, bytes: seq<Byte>)
    requires store.Valid() && ReadingInv(c, store, n)
    ensures ReadingInv(c, Write(store, bytes), n)
  {
    var next := Write(store, bytes);
    WriteGrows(store, bytes, n);
    if c.rounds > 0 && c.mark == next.Evicted(n) {
      FollowsPrefix(c, store.Content(n), next.Content(n));
    }
  }

  lemma FollowsPrefix(c: Client, content: seq<Byte>, more: seq<Byte>)
    requires Follows(c, content) && Prefix(content, more)
    ensures Follows(c, more)
  {
    assert more[c.start..c.pos] == more[..|content|][c.start..c.pos];
  }

  /** The client's packet is in the content, once it is committed, as long as what was
      evicted lies before it. */
  lemma OwnPacketInContent(c: Client, store: Store, n: nat)
    requires StreamInv(c, store) && |Joined(store.committed, 0, store.Evicted(n))| <= c.base
    requires c.base + |c.written| <= |Committed(store)|
    ensures Contains(store.Content(n), c.written)
  {
    EvictedFirst(store, n);
    var gone, content := Joined(store.committed, 0, store.Evicted(n)), store.Content(n);
    SliceLeft(Committed(store), store.pending, c.base, c.base + |c.written|);
    SliceRight(gone, content, c.base - |gone|, c.base + |c.written| - |gone|);
    assert IsAt(content, c.written, c.base - |gone|);
  }

  lemma LastReadReceived(c: Client, store: Store, n: nat)
    requires PacketInv(c) && StreamInv(c, store) && ReadingInv(c, store, n) && c.pos >= |store.Content(n)|
    requires Undisturbed(ReadOnce(c, store, n))
    ensures Received(ReadOnce(c, store, n))
  {
    var content := store.Content(n);
    assert c.written + [] == c.written;
    if c.start <= |content| { assert content[c.start..c.pos] == content[c.start..]; }
    if Terminated(c.packet) && c.wrote && c.start == 0 && store.Evicted(n) <= c.had {
      EvictedBeforeIff(c, store, store.Evicted(n));
      OwnPacketInContent(c, store, n);
      assert content[0..] == content;
    }
  }

  lemma FollowsOn(c: Client, content: seq<Byte>, next: Client)
    requires Follows(c, content) || (c.start == c.pos < |content| && c.received == [])
    requires c.pos <= next.pos <= |content| && next.start == c.start
    requires next.received == c.received + content[c.pos..next.pos]
    ensures Follows(next, content)
  {
    SlicesJoin(content, c.start, c.pos, next.pos);
  }

  lemma MiddleReadKeeps(c: Client, store: Store, n: nat, next: Client)
    requires FollowInv(c, store, n) && c.pos < |store.Content(n)| && next == ReadOnce(c, store, n)
    ensures FollowInv(next, store, n)
  {
    if c.rounds == 0 || c.mark == store.Evicted(n) { FollowsOn(c, store.Content(n), next); }
  }

  lemma ReadKeeps(c: Client, store: Store, n: nat)
    requires ClientInv(c, store, n) && c.phase == Reading
    ensures ClientInv(ReadOnce(c, store, n), store, n)
  {
    if c.pos < |store.Content(n)| {
      MiddleReadKeeps(c, store, n, ReadOnce(c, store, n));
    } else if Undisturbed(ReadOnce(c, store, n)) {
      LastReadReceived(c, store, n);
    }
  }

  // ----- all clients -----

  /** What the threads wrote, in the order in which they took the mutex. */
  function Sent(clients: seq<Client>, order: seq<nat>, n: nat): seq<Byte>
    requires n <= |order| && forall i :: 0 <= i < |order| ==> order[i] < |clients|
  {
    if n == 0 then [] else Sent(clients, order, n - 1) + clients[order[n - 1]].written
  }

  lemma {:induction false} SentAgree(a: seq<Client>, b: seq<Client>, order: seq<nat>, order': seq<nat>, n: nat)
    requires n <= |order| && forall i :: 0 <= i < |order| ==> order[i] < |a|
    requires n <= |order'| && forall i :: 0 <= i < |order'| ==> order'[i] < |b|
    requires forall i :: 0 <= i < n ==> order[i] == order'[i] && a[order[i]].written == b[order[i]].written
    ensures Sent(a, order, n) == Sent(b, order', n)
  {
    if n > 0 { SentAgree(a, b, order, order', n - 1); }
  }

  /** The mutex: its holder is the one thread that writes, and the last that took it. */
  ghost predicate MutexInv(clients: seq<Client>, holder: Holder, order: seq<nat>) {
    && (forall i :: 0 <= i < |order| ==> order[i] < |clients| && clients[order[i]].phase != Waiting)
    && (forall i, j :: 0 <= i < j < |order| ==> order[i] != order[j])
    && (forall t :: 0 <= t < |clients| ==> (clients[t].phase == Writing <==> holder == HeldBy(t)))
    && (holder.HeldBy? ==> holder.t < |clients| && order != [] && order[|order| - 1] == holder.t)
  }

  ghost predicate Inv(s: Server, n: nat) {
    && s.store.Valid()
    && MutexInv(s.clients, s.holder, s.order)
    && s.store.Stream() == Sent(s.clients, s.order, |s.order|)
    && ClientsInv(s.clients, s.store, n)
  }

  ghost predicate ClientsInv(clients: seq<Client>, store: Store, n: nat) {
    forall t {:trigger ClientInv(clients[t], store, n)} :: 0 <= t < |clients| ==> ClientInv(clients[t], store, n)
  }

  lemma StartInv(packets: seq<seq<Chunk>>, n: nat)
    ensures Inv(Start(packets), n)
  {
  }

  lemma OneChanged(clients: seq<Client>, store: Store, n: nat, t: nat, c: Client)
    requires ClientsInv(clients, store, n) && t < |clients| && ClientInv(c, store, n)
    ensures ClientsInv(clients[t := c], store, n)
  {
  }

  lemma MutexTaken(clients: seq<Client>, order: seq<nat>, t: nat, c: Client)
    requires MutexInv(clients, Free, order) && t < |clients| && clients[t].phase == Waiting && c.phase == Writing
    ensures MutexInv(clients[t := c], HeldBy(t), order + [t])
  {
  }

  lemma MutexLeft(clients: seq<Client>, order: seq<nat>, t: nat, c: Client)
    requires MutexInv(clients, HeldBy(t), order) && t < |clients| && c.phase == Reading
    ensures MutexInv(clients[t := c], Free, order)
  {
  }

  lemma MutexSame(clients: seq<Client>, holder: Holder, order: seq<nat>, t: nat, c: Client)
    requires MutexInv(clients, holder, order) && t < |clients|
    requires c.phase == clients[t].phase || (c.phase == Done && clients[t].phase == Reading)
    ensures MutexInv(clients[t := c], holder, order)
  {
  }

  lemma SentSame(clients: seq<Client>, order: seq<nat>, t: nat, c: Client)
    requires forall i :: 0 <= i < |order| ==> order[i] < |clients|
    requires t < |clients| && c.written == clients[t].written
    ensures Sent(clients[t := c], order, |order|) == Sent(clients, order, |order|)
  {
    SentAgree(clients, clients[t := c], order, order, |order|);
  }

  lemma SentTaken(clients: seq<Client>, order: seq<nat>, t: nat, c: Client)
    requires MutexInv(clients, Free, order) && t < |clients| && clients[t].phase == Waiting && c.written == []
    ensures Sent(clients[t := c], order + [t], |order| + 1) == Sent(clients, order, |order|)
  {
    SentAgree(clients, clients[t := c], order, order + [t], |order|);
    assert Sent(clients, order, |order|) + [] == Sent(clients, order, |order|);
  }

  lemma TakenInv(store: Store, clients: seq<Client>, order: seq<nat>, t: nat, c: Client, n: nat)
    requires store.Valid() && MutexInv(clients, Free, order) && store.Stream() == Sent(clients, order, |order|)
    requires t < |clients| && clients[t].phase == Waiting && c.phase == Writing && c.written == []
    requires ClientsInv(clients[t := c], store, n)
    ensures Inv(Server(store, HeldBy(t), clients[t := c], order + [t]), n)
  {
    MutexTaken(clients, order, t, c);
    SentTaken(clients, order, t, c);
  }

  lemma AcquireStep(s: Server, e: Event, n: nat)
    requires Inv(s, n) && e.t < |s.clients| && s.clients[e.t].phase == Waiting && s.holder == Free
    ensures Inv(Step(s, e, n), n)
  {
    var c := Acquired(s.clients[e.t], s.store);
    AcquireKeeps(s.clients[e.t], s.store, n);
    OneChanged(s.clients, s.store, n, e.t, c);
    TakenInv(s.store, s.clients, s.order, e.t, c, n);
  }

  lemma SeekStep(s: Server, e: Event, n: nat)
    requires Inv(s, n) && e.t < |s.clients| && s.clients[e.t].phase == Writing
    requires s.clients[e.t].inbox != [] && s.clients[e.t].inbox[0].Seek?
    ensures Inv(Step(s, e, n), n)
  {
    var c := Processed(s.clients[e.t], s.store, n);
    ProcessKeeps(s.clients[e.t], s.store, n);
    OneChanged(s.clients, s.store, n, e.t, c);
    MutexSame(s.clients, s.holder, s.order, e.t, c);
    SentSame(s.clients, s.order, e.t, c);
  }

  lemma SentMore(clients: seq<Client>, order: seq<nat>, t: nat, c: Client, bytes: seq<Byte>)
    requires MutexInv(clients, HeldBy(t), order) && c.written == clients[t].written + bytes
    ensures Sent(clients[t := c], order, |order|) == Sent(clients, order, |order|) + bytes
  {
    SentAgree(clients, clients[t := c], order, order, |order| - 1);
    Regroup(Sent(clients, order, |order| - 1), clients[t].written, bytes);
  }

  lemma WriteStep(s: Server, e: Event, n: nat, bytes: seq<Byte>)
    requires Inv(s, n) && e.t < |s.clients| && s.clients[e.t].phase == Writing
    requires s.clients[e.t].inbox != [] && s.clients[e.t].inbox[0] == Data(bytes)
    ensures Inv(Step(s, e, n), n)
  {
    var c, store := Processed(s.clients[e.t], s.store, n), Write(s.store, bytes);
    ProcessKeeps(s.clients[e.t], s.store, n);
    forall t | 0 <= t < |s.clients| && t != e.t ensures ClientInv(s.clients[t], store, n) {
      OthersKeep(s.clients[t], s.store, n, bytes);
    }
    MutexSame(s.clients, s.holder, s.order, e.t, c);
    SentMore(s.clients, s.order, e.t, c, bytes);
    WriteKeepsStream(s.store, bytes);
  }

  lemma ReleaseStep(s: Server, e: Event, n: nat)
    requires Inv(s, n) && e.t < |s.clients| && s.clients[e.t].phase == Writing && s.clients[e.t].inbox == []
    ensures Inv(Step(s, e, n), n)
  {
    var c := Released(s.clients[e.t]);
    ReleaseKeeps(s.clients[e.t], s.store, n);
    OneChanged(s.clients, s.store, n, e.t, c);
    MutexLeft(s.clients, s.order, e.t, c);
    SentSame(s.clients, s.order, e.t, c);
  }

  lemma ReadStep(s: Server, e: Event, n: nat)
    requires Inv(s, n) && e.t < |s.clients| && s.clients[e.t].phase == Reading
    ensures Inv(Step(s, e, n), n)
  {
    var c := ReadOnce(s.clients[e.t], s.store, n);
    ReadKeeps(s.clients[e.t], s.store, n);
    OneChanged(s.clients, s.store, n, e.t, c);
    MutexSame(s.clients, s.holder, s.order, e.t, c);
    SentSame(s.clients, s.order, e.t, c);
  }

  lemma StepKeepsInv(s: Server, e: Event, n: nat)
    requires Inv(s, n)
    ensures Inv(Step(s, e, n), n)
  {
    if e.t < |s.clients| {
      var c := s.clients[e.t];
      match c.phase
      case Waiting => if s.holder == Free { AcquireStep(s, e, n); }
      case Writing =>
        if c.inbox == [] { ReleaseStep(s, e, n); }
        else if c.inbox[0].Seek? { SeekStep(s, e, n); }
        else { WriteStep(s, e, n, c.inbox[0].bytes); }
      case Reading => ReadStep(s, e, n);
      case Done =>
    }
  }

  lemma {:induction false} RunKeepsInv(s: Server, events: seq<Event>, n: nat)
    requires Inv(s, n)
    ensures Inv(Run(s, events, n), n)
  {
    if events != [] {
      RunKeepsInv(s, events[..|events| - 1], n);
      StepKeepsInv(Run(s, events[..|events| - 1], n), events[|events| - 1], n);
    }
  }

  // ----- the main results: every interleaving of the threads -----

  /** Steps do not change who the clients are. */
  lemma {:induction false} PacketsStay(packets: seq<seq<Chunk>>, events: seq<Event>, n: nat)
    ensures SamePackets(Run(Start(packets), events, n).clients, packets)
  {
    if events != [] { PacketsStay(packets, events[..|events| - 1], n); }
  }

  /** Whole packets end to end, in this order. */
  function Packets(packets: seq<seq<Chunk>>, order: seq<nat>, k: nat): seq<Byte>
    requires k <= |order| && forall i :: 0 <= i < |order| ==> order[i] < |packets|
  {
    if k == 0 then [] else Packets(packets, order, k - 1) + Accepted(packets[order[k - 1]])
  }

  lemma {:induction false} SentArePackets(clients: seq<Client>, packets: seq<seq<Chunk>>, order: seq<nat>, k: nat)
    requires k <= |order| && forall i :: 0 <= i < |order| ==> order[i] < |packets| == |clients|
    requires forall i :: 0 <= i < k ==> clients[order[i]].written == Accepted(packets[order[i]])
    ensures Sent(clients, order, k) == Packets(packets, order, k)
  {
    if k > 0 {
      assert order[k - 1] < |packets|;
      SentArePackets(clients, packets, order, k - 1);
    }
  }

  lemma WrittenAll(c: Client, store: Store, n: nat)
    requires ClientInv(c, store, n) && (c.phase == Reading || c.phase == Done)
    ensures c.written == Accepted(c.packet)
  {
    assert c.written + [] == c.written;
  }

  /** Each place in the order is a client, and no client is there twice. */
  ghost predicate InOrder(order: seq<nat>, count: nat) {
    && (forall i :: 0 <= i < |order| ==> order[i] < count)
    && (forall i, j :: 0 <= i < j < |order| ==> order[i] != order[j])
  }

  /** The last in the order holds the mutex, and a first part of its packet is taken. */
  ghost predicate PartTaken(s: Server, packets: seq<seq<Chunk>>, t: nat)
    requires InOrder(s.order, |packets|)
  {
    && |s.order| > 0 && s.order[|s.order| - 1] == t < |s.clients|
    && s.store.Stream() == Packets(packets, s.order, |s.order| - 1) + s.clients[t].written
    && Prefix(s.clients[t].written, Accepted(packets[t]))
  }

  /** The device has taken whole packets, none twice and none interleaved, in the order in
      which their threads took the mutex; and a first part of the holder's packet. */
  ghost predicate TakenWhole(s: Server, packets: seq<seq<Chunk>>) {
    && InOrder(s.order, |packets|)
    && match s.holder
       case Free => s.store.Stream() == Packets(packets, s.order, |s.order|)
       case HeldBy(t) => PartTaken(s, packets, t)
  }

  ghost predicate SamePackets(clients: seq<Client>, packets: seq<seq<Chunk>>) {
    |clients| == |packets| && forall t :: 0 <= t < |packets| ==> clients[t].packet == packets[t]
  }

  /** All but the holder have written their packets to the end. */
  lemma OthersAreWhole(s: Server, packets: seq<seq<Chunk>>, n: nat, k: nat)
    requires Inv(s, n) && SamePackets(s.clients, packets) && k <= |s.order|
    requires s.holder.HeldBy? ==> k < |s.order|
    ensures forall i :: 0 <= i < |s.order| ==> s.order[i] < |packets|
    ensures Sent(s.clients, s.order, k) == Packets(packets, s.order, k)
  {
    forall i | 0 <= i < k ensures s.clients[s.order[i]].written == Accepted(packets[s.order[i]]) {
      assert s.holder.HeldBy? ==> s.order[i] != s.order[|s.order| - 1];
      WrittenAll(s.clients[s.order[i]], s.store, n);
    }
    SentArePackets(s.clients, packets, s.order, k);
  }

  lemma HolderWrotePart(s: Server, packets: seq<seq<Chunk>>, n: nat, t: nat)
    requires ClientsInv(s.clients, s.store, n) && SamePackets(s.clients, packets) && t < |packets|
    ensures Prefix(s.clients[t].written, Accepted(packets[t]))
  {
    var c := s.clients[t];
    assert ClientInv(c, s.store, n);
    assert Accepted(c.packet)[..|c.written|] == c.written;
  }

  lemma MutexInOrder(clients: seq<Client>, holder: Holder, order: seq<nat>)
    requires MutexInv(clients, holder, order)
    ensures InOrder(order, |clients|)
  {
  }

  lemma LastSent(clients: seq<Client>, order: seq<nat>)
    requires order != [] && forall i :: 0 <= i < |order| ==> order[i] < |clients|
    ensures Sent(clients, order, |order|) ==
      Sent(clients, order, |order| - 1) + clients[order[|order| - 1]].written
  {
  }

  lemma HolderTakenPart(s: Server, packets: seq<seq<Chunk>>, n: nat, t: nat)
    requires Inv(s, n) && SamePackets(s.clients, packets) && s.holder == HeldBy(t)
    requires InOrder(s.order, |packets|)
    ensures PartTaken(s, packets, t)
  {
    LastSent(s.clients, s.order);
    OthersAreWhole(s, packets, n, |s.order| - 1);
    HolderWrotePart(s, packets, n, t);
  }

  lemma FreeTakenWhole(s: Server, packets: seq<seq<Chunk>>, n: nat)
    requires Inv(s, n) && SamePackets(s.clients, packets) && s.holder == Free
    requires InOrder(s.order, |packets|)
    ensures s.store.Stream() == Packets(packets, s.order, |s.order|)
  {
    OthersAreWhole(s, packets, n, |s.order|);
  }

  lemma InvTakenWhole(s: Server, packets: seq<seq<Chunk>>, n: nat)
    requires Inv(s, n) && SamePackets(s.clients, packets)
    ensures TakenWhole(s, packets)
  {
    MutexInOrder(s.clients, s.holder, s.order);
    match s.holder
    case Free => FreeTakenWhole(s, packets, n);
    case HeldBy(t) => HolderTakenPart(s, packets, n, t);
  }

  /** In every interleaving the device takes the packets whole and in mutex order. */
  lemma WholePackets(packets: seq<seq<Chunk>>, events: seq<Event>, n: nat)
    ensures TakenWhole(Run(Start(packets), events, n), packets)
  {
    StartInv(packets, n);
    RunKeepsInv(Start(packets), events, n);
    PacketsStay(packets, events, n);
    InvTakenWhole(Run(Start(packets), events, n), packets, n);
  }

  /** Nothing is pending while nobody holds the mutex, or while the holder has not written. */
  ghost predicate PendingInv(s: Server) {
    match s.holder
    case Free => s.store.pending == []
    case HeldBy(t) => t < |s.clients| && (!s.clients[t].wrote ==> s.store.pending == [])
  }

  lemma StepKeepsPending(s: Server, e: Event, n: nat)
    requires Inv(s, n) && PendingInv(s)
    requires forall t :: 0 <= t < |s.clients| ==> Terminated(s.clients[t].packet)
    ensures PendingInv(Step(s, e, n))
  {
    if e.t < |s.clients| {
      var c := s.clients[e.t];
      assert ClientInv(c, s.store, n);
    }
  }

  /** If each packet's last chunk for the device brings a newline, no bytes are pending
      whenever the mutex is free. */
  lemma {:induction false} NothingPendingBetweenPackets(packets: seq<seq<Chunk>>, events: seq<Event>, n: nat)
    requires forall t :: 0 <= t < |packets| ==> Terminated(packets[t])
    ensures PendingInv(Run(Start(packets), events, n))
  {
    if events != [] {
      var front := events[..|events| - 1];
      NothingPendingBetweenPackets(packets, front, n);
      StartInv(packets, n);
      RunKeepsInv(Start(packets), front, n);
      PacketsStay(packets, front, n);
      StepKeepsPending(Run(Start(packets), front, n), events[|events| - 1], n);
    }
  }

  lemma DoneReceived(c: Client, store: Store, n: nat)
    requires ClientInv(c, store, n)
    ensures c.phase == Done && Undisturbed(c) ==> Received(c)
    ensures c.phase == Done ==> c.finalMark <= store.Evicted(n) && (c.rounds > 0 ==> c.mark <= c.finalMark)
  {
  }

  /** Although it reads without the mutex while others write: a client got back the content of
      its last read, from where it started reading, if nothing was evicted between the first
      read that delivered something and the last; and with it its own packet, if it read from
      0, the packet is terminated and no part of it was evicted. */
  lemma ClientReceivesContent(packets: seq<seq<Chunk>>, events: seq<Event>, n: nat, t: nat)
    requires t < |packets|
    ensures var s := Run(Start(packets), events, n);
      && t < |s.clients| && s.clients[t].packet == packets[t]
      && (s.clients[t].phase == Done && Undisturbed(s.clients[t]) ==> Received(s.clients[t]))
  {
    var s := Run(Start(packets), events, n);
    StartInv(packets, n);
    RunKeepsInv(Start(packets), events, n);
    PacketsStay(packets, events, n);
    DoneReceived(s.clients[t], s.store, n);
  }

  /** In terms of the stream, the condition for the own packet says that what was evicted
      lies before it. */
  lemma EvictedBeforePacketIff(packets: seq<seq<Chunk>>, events: seq<Event>, n: nat, t: nat)
    requires t < |packets|
    ensures var s := Run(Start(packets), events, n);
      && t < |s.clients|
      && var c := s.clients[t];
         c.phase == Done ==>
           && c.finalMark <= |s.store.committed|
           && (c.finalMark <= c.had <==> |Joined(s.store.committed, 0, c.finalMark)| <= c.base)
  {
    var s := Run(Start(packets), events, n);
    StartInv(packets, n);
    RunKeepsInv(Start(packets), events, n);
    PacketsStay(packets, events, n);
    assert ClientInv(s.clients[t], s.store, n);
    if s.clients[t].phase == Done { EvictedBeforeIff(s.clients[t], s.store, s.clients[t].finalMark); }
  }

  /** In a run in which the ring never evicts, every client that is done has the content
      and in it its own packet. */
  lemma AllReceiveContent(packets: seq<seq<Chunk>>, events: seq<Event>, n: nat)
    requires Run(Start(packets), events, n).store.Evicted(n) == 0
    ensures var s := Run(Start(packets), events, n);
      forall t :: 0 <= t < |s.clients| && s.clients[t].phase == Done ==>
        Received(s.clients[t]) && s.clients[t].finalMark <= s.clients[t].had
  {
    var s := Run(Start(packets), events, n);
    StartInv(packets, n);
    RunKeepsInv(Start(packets), events, n);
    forall t | 0 <= t < |s.clients| && s.clients[t].phase == Done
      ensures Received(s.clients[t]) && s.clients[t].finalMark <= s.clients[t].had
    {
      DoneReceived(s.clients[t], s.store, n);
    }
  }
}

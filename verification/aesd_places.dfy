/**
 Which bytes of the stream a client gets back, in every interleaving: always some of them, in
 their order and none twice; and those of the content of its last read exactly if nothing was
 evicted between its first read and its last.
 */
module ReaderPlaces {
  import opened CommandStream
  import opened Sequences
  import opened SocketServer

  /** Each byte is the one at its place in the stream, and the places go up. */
  ghost predicate Truthful(c: Client, stream: seq<Byte>) {
    && |c.places| == |c.received|
    && (forall i :: 0 <= i < |c.places| ==> c.places[i] < |stream| && c.received[i] == stream[c.places[i]])
    && forall i, j :: 0 <= i < j < |c.places| ==> c.places[i] < c.places[j]
  }

  /** The places are those from this one on, one after another. */
  ghost predicate InARow(places: seq<nat>, from: nat) {
    forall i :: 0 <= i < |places| ==> places[i] == from + i
  }

  /** All places lie before this one. */
  ghost predicate AllBefore(places: seq<nat>, end: nat) {
    forall i :: 0 <= i < |places| ==> places[i] < end
  }

  /** Where the commands evicted by a client's first read end. */
  function FirstGone(c: Client, store: Store): nat
    requires c.mark <= |store.committed|
  {
    |Joined(store.committed, 0, c.mark)|
  }

  /** The first byte came from where the content began then, and while nothing more is
      evicted the others follow on it. */
  ghost predicate FirstInv(c: Client, store: Store, evicted: nat) {
    if c.rounds == 0 then c.received == []
    else
      && c.received != [] && c.mark <= |store.committed| && |c.places| == |c.received|
      && c.places[0] == FirstGone(c, store) + c.start
      && (c.mark == evicted ==> InARow(c.places, FirstGone(c, store) + c.start))
  }

  ghost predicate FinalInv(c: Client, store: Store) {
    && c.finalMark <= |store.committed| && c.origin == |Joined(store.committed, 0, c.finalMark)|
    && c.origin + |c.final| <= |store.Stream()|
    && store.Stream()[c.origin..c.origin + |c.final|] == c.final
    && FirstInv(c, store, c.finalMark)
  }

  /** While a client reads: all it has lies before its position. */
  ghost predicate SoFar(c: Client, store: Store, evicted: nat, gone: nat) {
    && AllBefore(c.places, gone + c.pos)
    && FirstInv(c, store, evicted) && (c.rounds == 0 ==> c.pos == c.start)
    && (c.rounds > 0 && c.mark == evicted ==> c.pos == c.start + |c.places|)
  }

  ghost predicate PlacesInv(c: Client, store: Store, n: nat) {
    Truthful(c, store.Stream()) &&
    match c.phase
    case Waiting => c.received == []
    case Writing => c.received == []
    case Reading => SoFar(c, store, store.Evicted(n), Gone(store, n))
    case Done => FinalInv(c, store)
  }

  ghost predicate AllPlaces(clients: seq<Client>, store: Store, n: nat) {
    forall t {:trigger PlacesInv(clients[t], store, n)} :: 0 <= t < |clients| ==> PlacesInv(clients[t], store, n)
  }

  // ----- when the stream goes on -----

  lemma TruthfulGoesOn(c: Client, stream: seq<Byte>, bytes: seq<Byte>)
    requires Truthful(c, stream)
    ensures Truthful(c, stream + bytes)
  {
  }

  lemma GoneGrows(store: Store, bytes: seq<Byte>, n: nat)
    requires store.Valid()
    ensures Gone(store, n) <= Gone(Write(store, bytes), n)
  {
    WriteGrows(store, bytes, n);
    CommittedStay(store, bytes, store.Evicted(n));
    JoinedMonotone(Write(store, bytes).committed, 0, store.Evicted(n), Write(store, bytes).Evicted(n));
  }

  lemma FirstGoesOn(c: Client, store: Store, bytes: seq<Byte>, evicted: nat, more: nat)
    requires store.Valid() && FirstInv(c, store, evicted) && (c.rounds > 0 && c.mark == more ==> c.mark == evicted)
    ensures FirstInv(c, Write(store, bytes), more)
  {
    if c.rounds > 0 { CommittedStay(store, bytes, c.mark); }
  }

  lemma FinalGoesOn(c: Client, store: Store, bytes: seq<Byte>)
    requires store.Valid() && FinalInv(c, store)
    ensures FinalInv(c, Write(store, bytes))
  {
    WriteKeepsStream(store, bytes);
    CommittedStay(store, bytes, c.finalMark);
    SliceLeft(store.Stream(), bytes, c.origin, c.origin + |c.final|);
    FirstGoesOn(c, store, bytes, c.finalMark, c.finalMark);
  }

  lemma PlacesGoOn(c: Client, store: Store, n: nat, bytes: seq<Byte>)
    requires store.Valid() && ClientInv(c, store, n) && PlacesInv(c, store, n)
    ensures PlacesInv(c, Write(store, bytes), n)
  {
    WriteGrows(store, bytes, n);
    TruthfulGoesOn(c, store.Stream(), bytes);
    if c.phase == Reading {
      GoneGrows(store, bytes, n);
      FirstGoesOn(c, store, bytes, store.Evicted(n), Write(store, bytes).Evicted(n));
    } else if c.phase == Done {
      FinalGoesOn(c, store, bytes);
    }
  }

  // ----- when the client reads -----

  lemma ContentInStream(store: Store, n: nat)
    ensures Gone(store, n) + |store.Content(n)| <= |store.Stream()|
    ensures store.Stream()[Gone(store, n)..Gone(store, n) + |store.Content(n)|] == store.Content(n)
  {
    EvictedFirst(store, n);
    var gone := Joined(store.committed, 0, store.Evicted(n));
    SliceLeft(gone + store.Content(n), store.pending, |gone|, |gone| + |store.Content(n)|);
    SliceRight(gone, store.Content(n), 0, |store.Content(n)|);
    assert store.Content(n)[0..|store.Content(n)|] == store.Content(n);
  }

  lemma DeliveredTruthful(c: Client, stream: seq<Byte>, bytes: seq<Byte>, from: nat, next: Client)
    requires Truthful(c, stream) && AllBefore(c.places, from)
    requires from + |bytes| <= |stream| && stream[from..from + |bytes|] == bytes
    requires next.received == c.received + bytes && next.places == c.places + Places(from, |bytes|)
    ensures Truthful(next, stream)
  {
    forall i | 0 <= i < |next.places|
      ensures next.places[i] < |stream| && next.received[i] == stream[next.places[i]]
    {
      if i >= |c.places| { assert bytes[i - |c.places|] == stream[from..from + |bytes|][i - |c.places|]; }
    }
  }

  lemma DeliveredSoFar(c: Client, store: Store, evicted: nat, gone: nat, k: nat, next: Client)
    requires SoFar(c, store, evicted, gone) && k > 0 && |c.places| == |c.received|
    requires evicted <= |store.committed| && gone == |Joined(store.committed, 0, evicted)|
    requires next.start == c.start && next.rounds == c.rounds + 1 && next.pos == c.pos + k
    requires next.mark == if c.rounds == 0 then evicted else c.mark
    requires next.places == c.places + Places(gone + c.pos, k) && |next.received| == |c.received| + k
    ensures SoFar(next, store, evicted, gone)
  {
  }

  lemma SliceOfWhole(stream: seq<Byte>, content: seq<Byte>, gone: nat, i: nat, j: nat)
    requires gone + |content| <= |stream| && stream[gone..gone + |content|] == content && i <= j <= |content|
    ensures stream[gone + i..gone + j] == content[i..j]
  {
    forall k | 0 <= k < j - i ensures stream[gone + i..gone + j][k] == content[i..j][k] {
      assert stream[gone..gone + |content|][i + k] == content[i + k];
    }
  }

  lemma BytesInStream(store: Store, n: nat, i: nat, j: nat)
    requires i <= j <= |store.Content(n)|
    ensures Gone(store, n) + j <= |store.Stream()|
    ensures store.Stream()[Gone(store, n) + i..Gone(store, n) + j] == store.Content(n)[i..j]
  {
    ContentInStream(store, n);
    SliceOfWhole(store.Stream(), store.Content(n), Gone(store, n), i, j);
  }

  lemma MiddleReadTruthful(c: Client, store: Store, n: nat, bytes: seq<Byte>, next: Client)
    requires Truthful(c, store.Stream()) && AllBefore(c.places, Gone(store, n) + c.pos)
    requires c.pos + |bytes| <= |store.Content(n)| && bytes == store.Content(n)[c.pos..c.pos + |bytes|]
    requires next == Delivered(c, store, n, bytes)
    ensures Truthful(next, store.Stream())
  {
    BytesInStream(store, n, c.pos, c.pos + |bytes|);
    DeliveredTruthful(c, store.Stream(), bytes, Gone(store, n) + c.pos, next);
  }

  lemma MiddleReadSoFar(c: Client, store: Store, n: nat, bytes: seq<Byte>, next: Client)
    requires |c.places| == |c.received| && SoFar(c, store, store.Evicted(n), Gone(store, n)) && bytes != []
    requires next == Delivered(c, store, n, bytes)
    ensures SoFar(next, store, store.Evicted(n), Gone(store, n))
  {
    DeliveredSoFar(c, store, store.Evicted(n), Gone(store, n), |bytes|, next);
  }

  lemma ReadKeepsPlaces(c: Client, store: Store, n: nat)
    requires PlacesInv(c, store, n) && c.phase == Reading
    ensures PlacesInv(ReadOnce(c, store, n), store, n)
  {
    if c.pos < |store.Content(n)| {
      var bytes := store.Content(n)[c.pos..c.pos + ReadSize(store, n, c.pos)];
      MiddleReadTruthful(c, store, n, bytes, ReadOnce(c, store, n));
      MiddleReadSoFar(c, store, n, bytes, ReadOnce(c, store, n));
    } else {
      ContentInStream(store, n);
    }
  }

  // ----- every step, every run -----

  lemma SteppedPlaces(c: Client, store: Store, n: nat, next: Store)
    requires store.Valid() && ClientInv(c, store, n) && PlacesInv(c, store, n)
    requires next == if c.phase == Writing && c.inbox != [] then StoreAfter(c, store) else store
    ensures PlacesInv(Stepped(c, store, n), next, n)
  {
    if c.phase == Reading { ReadKeepsPlaces(c, store, n); }
  }

  lemma OthersKeepPlaces(c: Client, store: Store, n: nat, next: Store, writer: Client)
    requires store.Valid() && ClientInv(c, store, n) && PlacesInv(c, store, n)
    requires next == if writer.phase == Writing && writer.inbox != [] then StoreAfter(writer, store) else store
    ensures PlacesInv(c, next, n)
  {
    if writer.phase == Writing && writer.inbox != [] && writer.inbox[0].Data? {
      PlacesGoOn(c, store, n, writer.inbox[0].bytes);
    }
  }

  lemma StepKeepsPlaces(s: Server, e: Event, n: nat)
    requires Inv(s, n) && AllPlaces(s.clients, s.store, n)
    ensures AllPlaces(Step(s, e, n).clients, Step(s, e, n).store, n)
  {
    StepChanges(s, e, n);
    if !Idle(s, e) {
      var c, next := s.clients[e.t], Step(s, e, n);
      forall t | 0 <= t < |s.clients| ensures PlacesInv(next.clients[t], next.store, n) {
        assert ClientInv(s.clients[t], s.store, n) && PlacesInv(s.clients[t], s.store, n);
        if t == e.t {
          SteppedPlaces(c, s.store, n, next.store);
        } else {
          OthersKeepPlaces(s.clients[t], s.store, n, next.store, c);
        }
      }
    }
  }

  lemma {:induction false} RunKeepsPlaces(packets: seq<seq<Chunk>>, events: seq<Event>, n: nat)
    ensures var s := Run(Start(packets), events, n);
      Inv(s, n) && AllPlaces(s.clients, s.store, n)
  {
    StartInv(packets, n);
    if events != [] {
      var front := events[..|events| - 1];
      RunKeepsPlaces(packets, front, n);
      StepKeepsPlaces(Run(Start(packets), front, n), events[|events| - 1], n);
      StepKeepsInv(Run(Start(packets), front, n), events[|events| - 1], n);
    }
  }

  // ----- the main results -----

  lemma ClientAt(packets: seq<seq<Chunk>>, events: seq<Event>, n: nat, t: nat)
    requires t < |packets|
    ensures var s := Run(Start(packets), events, n);
      s.store.Valid() && t < |s.clients| && ClientInv(s.clients[t], s.store, n) && PlacesInv(s.clients[t], s.store, n)
  {
    RunKeepsPlaces(packets, events, n);
    PacketsStay(packets, events, n);
    var s := Run(Start(packets), events, n);
    assert ClientInv(s.clients[t], s.store, n) && PlacesInv(s.clients[t], s.store, n);
  }

  /** In every interleaving, whatever is evicted meanwhile, a client receives bytes of the
      stream, in their order and none twice. */
  lemma ReceivesInOrder(packets: seq<seq<Chunk>>, events: seq<Event>, n: nat, t: nat)
    requires t < |packets|
    ensures var s := Run(Start(packets), events, n);
      t < |s.clients| && Truthful(s.clients[t], s.store.Stream())
  {
    ClientAt(packets, events, n, t);
  }

  /** The client received the content of its last read from its start on, and each byte was
      taken from the place it has in that content. */
  ghost predicate ContentInPlace(c: Client) {
    && c.received == (if c.start <= |c.final| then c.final[c.start..] else [])
    && InARow(c.places, c.origin + c.start)
  }

  lemma LaterBegins(store: Store, a: nat, b: nat)
    requires store.Valid() && a < b <= |store.committed|
    ensures |Joined(store.committed, 0, a)| < |Joined(store.committed, 0, b)|
  {
    assert store.committed[a] != [];
    JoinedMonotone(store.committed, 0, a + 1, b);
  }

  lemma InPlaceIff(c: Client, store: Store, n: nat)
    requires store.Valid() && ClientInv(c, store, n) && PlacesInv(c, store, n) && c.phase == Done
    ensures ContentInPlace(c) <==> Undisturbed(c)
  {
    if c.rounds > 0 && c.mark < c.finalMark { LaterBegins(store, c.mark, c.finalMark); }
  }

  /** The exact condition, for every run and every client that is done: what it received is
      the content of its last read, byte for byte from the places the content has in the
      stream, if and only if no read delivered anything or nothing was evicted between the
      first read that did and the last. */
  lemma ReceivesContentIff(packets: seq<seq<Chunk>>, events: seq<Event>, n: nat, t: nat)
    requires t < |packets|
    ensures var s := Run(Start(packets), events, n);
      t < |s.clients| &&
      var c := s.clients[t];
      c.phase == Done ==>
        && c.origin + |c.final| <= |s.store.Stream()|
        && s.store.Stream()[c.origin..c.origin + |c.final|] == c.final
        && (ContentInPlace(c) <==> Undisturbed(c))
  {
    var s := Run(Start(packets), events, n);
    ClientAt(packets, events, n, t);
    if s.clients[t].phase == Done { InPlaceIff(s.clients[t], s.store, n); }
  }
}

/** Runs put together from shorter ones, and how one client reads to the end. */
module ServerRuns {
  import opened CommandStream
  import opened Sequences
  import opened SocketServer

  lemma {:induction false} RunAppend(s: Server, events: seq<Event>, more: seq<Event>, n: nat)
    ensures Run(s, events + more, n) == Run(Run(s, events, n), more, n)
    decreases |more|
  {
    if more == [] {
      assert events + [] == events;
    } else {
      RunAppend(s, events, more[..|more| - 1], n);
      assert (events + more)[..|events + more| - 1] == events + more[..|more| - 1];
    }
  }

  lemma RunMore(s: Server, events: seq<Event>, e: Event, n: nat)
    ensures Run(s, events + [e], n) == Step(Run(s, events, n), e, n)
  {
    assert (events + [e])[..|events|] == events;
  }

  lemma SomeMore(received: seq<Byte>, content: seq<Byte>, p: nat, q: nat)
    requires p <= q <= |content|
    ensures (received + content[p..q]) + content[q..] == received + content[p..]
  {
  }

  /** What a client has read: the rest of the content, with the eviction count of the first
      read that delivered something. */
  ghost predicate HasRead(c: Client, c': Client, content: seq<Byte>, evicted: nat) {
    && c.pos <= |content| && c'.received == c.received + content[c.pos..] && c'.pos == |content|
    && c'.phase == c.phase && c'.start == c.start
    && c'.mark == (if c.rounds == 0 && c.pos < |content| then evicted else c.mark)
    && (c'.rounds == 0 <==> c.rounds == 0 && c.pos == |content|)
  }

  /** Reading on while nobody commits gets the rest of the content. */
  lemma {:induction false} ReadRest(s: Server, n: nat, t: nat) returns (events: seq<Event>)
    requires t < |s.clients| && s.clients[t].phase == Reading && s.clients[t].pos <= |s.store.Content(n)|
    ensures var s' := Run(s, events, n);
      && |s'.clients| == |s.clients| && s' == s.(clients := s.clients[t := s'.clients[t]])
      && HasRead(s.clients[t], s'.clients[t], s.store.Content(n), s.store.Evicted(n))
    decreases |s.store.Content(n)| - s.clients[t].pos
  {
    var c, content := s.clients[t], s.store.Content(n);
    events := [];
    if c.pos == |content| {
      assert c.received + content[c.pos..] == c.received;
      assert s.clients[t := c] == s.clients;
    } else {
      var e := Event(t);
      var s1 := Step(s, e, n);
      var more := ReadRest(s1, n, t);
      RunMore(s, [], e, n);
      RunAppend(s, [e], more, n);
      events := [e] + more;
      assert [] + [e] == [e];
      SomeMore(c.received, content, c.pos, c.pos + ReadSize(s.store, n, c.pos));
    }
  }

  lemma LastRead(s: Server, n: nat, t: nat, e: Event)
    requires t < |s.clients| && s.clients[t].phase == Reading && |s.store.Content(n)| <= s.clients[t].pos
    requires e == Event(t)
    ensures var c' := s.clients[t].(phase := Done, final := s.store.Content(n), finalMark := s.store.Evicted(n),
                              origin := Gone(s.store, n));
      Step(s, e, n).clients == s.clients[t := c']
  {
  }

  /** The rest of the reads: what was received before stays in front. */
  lemma ReadToEnd(s: Server, n: nat, t: nat) returns (events: seq<Event>)
    requires t < |s.clients| && s.clients[t].phase == Reading
    ensures var s' := Run(s, events, n);
      && |s'.clients| == |s.clients| && s'.clients[t].phase == Done
      && s'.clients[t].start == s.clients[t].start
      && (s.clients[t].rounds > 0 ==> s'.clients[t].rounds > 0 && s'.clients[t].mark == s.clients[t].mark)
      && s'.clients[t].final == s.store.Content(n) && s'.clients[t].finalMark == s.store.Evicted(n)
      && s.clients[t].received <= s'.clients[t].received
      && (s.clients[t].pos <= |s.store.Content(n)| ==>
            s'.clients[t].received == s.clients[t].received + s.store.Content(n)[s.clients[t].pos..])
      && s'.store == s.store
  {
    events := [];
    if s.clients[t].pos <= |s.store.Content(n)| { events := ReadRest(s, n, t); }
    LastRead(Run(s, events, n), n, t, Event(t));
    RunMore(s, events, Event(t), n);
    events := events + [Event(t)];
  }
}

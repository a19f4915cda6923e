/** The whole way of the events: from the sink's session through the frames on the socket and the
    client's reader to the strings the client shows. */
module Pipeline {
  import opened Words
  import opened Bytes
  import opened Protocol
  import opened EventReader
  import opened SessionSpec
  import opened SessionObject
  import O = Options
  import WebSocket

  /** What a client emits for a stream of messages, each handled by `onmessage` with a reader of its own;
      None if the stream breaks, a message is not binary (opcode 2 of section 5.2 of RFC 6455), or a reader
      does not end cleanly. */
  function ClientReads(stream: seq<byte>): O.Option<seq<ClientEvent>>
    decreases |stream|
  {
    if stream == [] then O.Some([])
    else
      match WebSocket.Receive(stream)
      case None => O.None
      case Some((opcode, payload, rest)) =>
        var (events, end) := ReadAll(payload, 0);
        if opcode != 2 || end != Finished then O.None
        else Before(events, ClientReads(rest))
  }

  function Before(events: seq<ClientEvent>, more: O.Option<seq<ClientEvent>>):
    O.Option<seq<ClientEvent>>
  {
    if more.Some? then O.Some(events + more.value) else O.None
  }

  lemma BeforeTwice(a: seq<ClientEvent>, b: seq<ClientEvent>, more: O.Option<seq<ClientEvent>>)
    ensures Before(a, Before(b, more)) == Before(a + b, more)
  {
    if more.Some? {
      assert a + (b + more.value) == a + b + more.value;
    }
  }

  lemma OneMessageReads(writes: seq<seq<byte>>, events: seq<Message>, rest: seq<byte>)
    requires Writable(writes) && Sendable(events) && Concat(writes) == EncodeAll(events)
    ensures ClientReads(WebSocket.Message(BINARY_FRAME, writes) + rest) == Before(SeenAll(events), ClientReads(rest))
  {
    hide EncodeAll, SeenAll, ReadAll, WebSocket.Receive, WebSocket.Message;
    var stream := WebSocket.Message(BINARY_FRAME, writes) + rest;
    WebSocket.MessageArrives(BINARY_FRAME, writes, rest);
    ReadsBack(events);
    assert stream != [];
  }

  lemma {:induction false} MessagesRead(messages: seq<seq<seq<byte>>>, delivered: seq<seq<Message>>, rest: seq<byte>)
    requires Carries(messages, delivered)
    ensures Sendable(Concat(delivered))
    ensures ClientReads(Stream(messages) + rest) == Before(SeenAll(Concat(delivered)), ClientReads(rest))
    decreases |messages|
  {
    hide EncodeAll, SeenAll, ClientReads, WebSocket.Message;
    if messages == [] {
      assert Stream(messages) + rest == rest;
      NothingRead(ClientReads(rest));
    } else {
      var n := |messages| - 1;
      var here := WebSocket.Message(BINARY_FRAME, messages[n]) + rest;
      assert Stream(messages) + rest == Stream(messages[..n]) + here;
      MessagesRead(messages[..n], delivered[..n], here);
      OneMessageReads(messages[n], delivered[n], rest);
      BeforeTwice(SeenAll(Concat(delivered[..n])), SeenAll(delivered[n]), ClientReads(rest));
      SeenAllAppend(Concat(delivered[..n]), delivered[n]);
      ConcatSnoc(delivered[..n], delivered[n]);
      assert delivered[..n] + [delivered[n]] == delivered;
    }
  }

  lemma NothingRead(more: O.Option<seq<ClientEvent>>)
    ensures Sendable([]) && Before(SeenAll([]), more) == more
  {
    if more.Some? {
      assert [] + more.value == more.value;
    }
  }

  /** Composition of encoder, buffer, framing, receiver and reader: when the connection is alive and the
      buffer is flushed, what the session has put on the socket reads as exactly its events, in order,
      every message ending cleanly. */
  lemma ClientSeesEverything(session: Session)
    requires session.Valid() && session.connection.alive && session.pending == []
    ensures session.base <= session.connection.socket.sent && Sendable(session.Events())
    ensures ClientReads(session.connection.socket.sent[|session.base|..]) ==
            O.Some(SeenAll(session.Events()))
  {
    hide EncodeAll, SeenAll, Stream;
    MessagesRead(session.messages, session.delivered, []);
    var stream := Stream(session.messages);
    assert stream + [] == stream;
    assert session.connection.socket.sent[|session.base|..] == stream;
    assert Concat(session.delivered) + [] == Concat(session.delivered);
    var seen := SeenAll(session.Events());
    assert seen + [] == seen;
  }

  lemma EventsAreSendable(session: Session)
    requires session.Valid()
    ensures Sendable(session.Events())
  {
    hide EncodeAll, Stream;
    ConcatSendable(session.delivered);
  }

  lemma {:induction false} ConcatSendable(parts: seq<seq<Message>>)
    requires forall i | 0 <= i < |parts| :: Sendable(parts[i])
    ensures Sendable(Concat(parts))
  {
    if parts != [] {
      ConcatSendable(parts[1..]);
    }
  }

  lemma ConnectedIsAlive(session: Session)
    ensures session.Connected() ==> session.connection.alive
  {
  }

  lemma EmitNothing(run: seq<EventData>, names: Names)
    ensures EmitAll(run[..0], names) == []
  {
  }

  lemma EmitAllStep(run: seq<EventData>, i: nat, names: Names)
    requires i < |run|
    ensures EmitAll(run[..i + 1], names) == Emit(EmitAll(run[..i], names), run[i], names)
  {
    hide Emit;
    assert run[..i + 1][..i] == run[..i];
  }

  /** `Flush` of the sink, for one session; the string table stays as it is. */
  method Flush(session: Session)
    requires session.Valid()
    modifies session`bufpos, session`messages, session`delivered, session`pending
    modifies session.connection, session.connection.socket
    ensures session.Valid() && session.pending == [] && session.Events() == old(session.Events())
    ensures old(session.Connected()) ==> session.Connected()
  {
    hide Announced, BitMask, Encode, EncodeAll, Stream, Carries;
    ghost var was := session.Events();
    var _ := session.FlushSession();
    assert session.Events() == was;
  }

  /** A session from its first event to a flush. If no send fails the client sees all of it. */
  method RunSession(connection: WebSocket.Connection, names: Names, run: seq<EventData>) returns (session: Session)
    requires forall i | 0 <= i < |run| :: FromApi(run[i])
    modifies connection, connection.socket
    ensures session.Valid() && session.names == names && session.connection == connection
    ensures session.base == old(connection.socket.sent)
    ensures session.Events() == EmitAll(run, names) && session.pending == []
    ensures Sendable(EmitAll(run, names))
    ensures old(connection.alive) && old(connection.socket.Healthy()) ==> connection.alive
    ensures connection.alive ==>
      && session.base <= connection.socket.sent
      && ClientReads(connection.socket.sent[|session.base|..]) == O.Some(SeenAll(EmitAll(run, names)))
  {
    hide *;
    session := new Session(connection, names);
    EmitNothing(run, names);
    var i := 0;
    while i < |run|
      invariant 0 <= i <= |run| && fresh(session) && fresh(session.buffer) && fresh(session.table)
      invariant session.Valid() && session.names == names && session.connection == connection
      invariant session.base == old(connection.socket.sent)
      invariant session.Events() == EmitAll(run[..i], names)
      invariant old(connection.alive) && old(connection.socket.Healthy()) ==> session.Connected()
    {
      EmitAllStep(run, i, names);
      var _ := session.WriteSessionEvent(run[i]);
      i := i + 1;
    }
    assert run[..i] == run;
    Flush(session);
    ConnectedIsAlive(session);
    EventsAreSendable(session);
    if connection.alive {
      ClientSeesEverything(session);
    }
  }
}

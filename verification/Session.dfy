/** A session of the WebSocket sink with its buffer and string table updated in place
    (src/WebsocketSink.cpp). */
module SessionObject {
  import opened Words
  import opened Bytes
  import opened Protocol
  import opened EventReader
  import opened SessionSpec
  import opened Sockets
  import WebSocket

  const BUF_SIZE := 4096
  const TABLE_SIZE := 4096
  const BINARY_FRAME := 2

  /** `1 << bit` for the four bits a slot can have. */
  function BitMask(bit: nat): bv8 {
    if bit == 0 then 1 else if bit == 1 then 2 else if bit == 4 then 16 else 32
  }

  lemma SetBit(b: bv8, bit: nat, other: nat)
    requires bit in {0, 1, 4, 5} && other in {0, 1, 4, 5}
    ensures (b | BitMask(bit)) & BitMask(other) != 0 <==> (b & BitMask(other) != 0 || bit == other)
  {
  }

  /** Messages on the wire, each given by the writes between its Begin and End. */
  function Stream(messages: seq<seq<seq<byte>>>): seq<byte>
    requires AllWritable(messages)
  {
    if messages == [] then []
    else Stream(messages[..|messages| - 1]) + WebSocket.Message(BINARY_FRAME, messages[|messages| - 1])
  }

  predicate Writable(writes: seq<seq<byte>>) {
    forall i | 0 <= i < |writes| :: |writes[i]| < SIGN
  }

  predicate AllWritable(messages: seq<seq<seq<byte>>>) {
    forall i | 0 <= i < |messages| :: Writable(messages[i])
  }

  /** The writes of each message carry the encodings of its events. */
  ghost predicate Carries(messages: seq<seq<seq<byte>>>, delivered: seq<seq<Message>>) {
    && AllWritable(messages) && |messages| == |delivered|
    && forall i | 0 <= i < |messages| :: Sendable(delivered[i]) && Concat(messages[i]) == EncodeAll(delivered[i])
  }

  class Session {
    const connection: WebSocket.Connection
    const names: Names
    const buffer: array<byte>
    const table: array<bv8>
    var bufpos: nat

    /** What the stream held when the session began, the messages sent since, the events in each of
        them, and the events still in the buffer. */
    ghost const base: seq<byte>
    ghost var messages: seq<seq<seq<byte>>>
    ghost var delivered: seq<seq<Message>>
    ghost var pending: seq<Message>

    ghost predicate Valid()
      reads this, buffer, table, connection, connection.socket
    {
      Carrying() && TableOk()
    }

    /** Valid but for the string table. */
    ghost predicate Carrying()
      reads this, buffer, connection, connection.socket
    {
      && buffer.Length == BUF_SIZE && table.Length == TABLE_SIZE && buffer as object != table
      && BufferOk()
      && Carries(messages, delivered)
      && StreamOk()
    }

    ghost predicate BufferOk()
      reads this, buffer
    {
      bufpos <= buffer.Length && Sendable(pending) && buffer[..bufpos] == EncodeAll(pending)
    }

    ghost predicate StreamOk()
      reads this, connection, connection.socket
      requires AllWritable(messages)
    {
      connection.alive ==> connection.socket.sent == base + Stream(messages)
    }

    ghost predicate TableOk()
      requires table.Length == TABLE_SIZE
      reads this, table
    {
      forall h: Handle :: Marked(h) <==> Announced(Events(), h)
    }

    predicate Marked(h: Handle)
      requires table.Length == TABLE_SIZE
      reads table
    {
      table[Slot(h).0] & BitMask(Slot(h).1) != 0
    }

    /** The connection is alive and no send will fail. */
    predicate Connected()
      reads connection, connection.socket
    {
      connection.alive && connection.socket.Healthy()
    }

    /** Everything the session has emitted, sent or not. */
    ghost function Events(): seq<Message>
      reads this
    {
      Concat(delivered) + pending
    }

    constructor (connection: WebSocket.Connection, names: Names)
      ensures Valid() && fresh(buffer) && fresh(table)
      ensures this.connection == connection && this.names == names && base == connection.socket.sent
      ensures buffer.Length == 4096 && table.Length == 4096
      ensures Events() == [] && (Connected() <==> connection.alive && connection.socket.Healthy())
    {
      this.connection := connection;
      this.names := names;
      bufpos := 0;
      buffer := new byte[BUF_SIZE];
      table := new bv8[TABLE_SIZE](_ => 0);
      base := connection.socket.sent;
      messages, delivered, pending := [], [], [];
    }

    /** Records a message that the connection has just sent, if it is still alive. */
    ghost method MessageGoesOut(writes: seq<seq<byte>>, events: seq<Message>)
      requires Carries(messages, delivered) && Writable(writes)
      requires Sendable(events) && Concat(writes) == EncodeAll(events)
      requires connection.alive ==>
        connection.socket.sent == (base + Stream(messages)) + WebSocket.Message(BINARY_FRAME, writes)
      modifies this`messages, this`delivered
      ensures Carries(messages, delivered) && StreamOk() && messages == old(messages) + [writes]
      ensures Concat(delivered) == Concat(old(delivered)) + events
    {
      hide EncodeAll, Stream, Carries, Concat, WebSocket.Message;
      CarriesSnoc(messages, delivered, writes, events);
      StreamSnoc(messages, writes);
      ConcatSnoc(delivered, events);
      messages, delivered := messages + [writes], delivered + [events];
    }

    method FlushSession() returns (r: Result)
      requires Carrying()
      modifies this`bufpos, this`messages, this`delivered, this`pending, connection, connection.socket
      ensures Carrying() && r.Success?
      ensures bufpos == 0 && pending == [] && Events() == old(Events())
      ensures messages == if old(bufpos) == 0 then old(messages) else old(messages) + [[old(buffer[..bufpos])]]
      ensures old(Connected()) ==> Connected()
    {
      hide EncodeAll, Encode;
      if bufpos != 0 {
        ghost var data := buffer[..bufpos];
        SendBuffer(connection, buffer[..bufpos]);
        MessageGoesOut([data], pending);
        pending := [];
        bufpos := 0;
        EmptyEncoding([]);
        assert buffer[..0] == [];
        assert Events() == old(Events());
        assert BufferOk();
      } else {
        EmptyEncoding(pending);
      }
      return Success;
    }

    /** Encodes an event behind those in the buffer, which must have room for it. */
    method AppendEvent(ev: EventData) returns (r: Result)
      requires Carrying() && Sized(ev) && !ev.None? && EncodeSize(ev) <= BUF_SIZE - bufpos
      modifies this`bufpos, this`pending, buffer
      ensures Carrying() && r.Success?
      ensures Events() == old(Events()) + [OnWire(ev, names.hash)]
      ensures old(Connected()) ==> Connected()
    {
      hide Encode, EncodeAll;
      EncodeSizeIsLength(ev, names.hash);
      var written;
      r, written := EncodeEvent(buffer, bufpos, BUF_SIZE - bufpos, ev, names.hash);
      ghost var m := OnWire(ev, names.hash);
      EncodeAllSnoc(pending, m);
      assert Encode(m)[..written] == Encode(m);
      pending := pending + [m];
      bufpos := bufpos + written;
      assert BufferOk();
    }

    method WriteSessionString(str: Pointer) returns (r: Result)
      requires Valid()
      modifies this`bufpos, this`messages, this`delivered, this`pending, buffer, table, connection, connection.socket
      ensures Valid() && r.Success?
      ensures Events() == Announce(old(Events()), str, names)
      ensures old(Connected()) ==> Connected()
    {
      hide Encode, EncodeAll, BitAnd, BitMask, Announced, Stream, Carries, Positive;
      var handle := names.hash(str);
      var index := handle % 0x8000;
      var byteIndex, bitMask := index / 8, BitMask(BitAnd(index, 5));
      assert Slot(handle) == (byteIndex, BitAnd(index, 5));

      if table[byteIndex] & bitMask == 0 {
        ghost var before := Events();
        r := EmitString(handle, names.Text(str));
        SetTableBit(handle, str, before);
      }
      return Success;
    }

    /** `byte |= bitMask`, after the string has been emitted. */
    method SetTableBit(handle: Handle, str: Pointer, ghost before: seq<Message>)
      requires Carrying() && handle == names.hash(str)
      requires forall h: Handle :: Marked(h) <==> Announced(before, h)
      requires !Announced(before, handle) && Events() == before + [names.StringFor(str)]
      modifies table
      ensures old(Connected()) ==> Connected()
      ensures Valid() && Events() == Announce(before, str, names)
    {
      hide Encode, EncodeAll, BitAnd, BitMask, Announced, Stream, Carries;
      ghost var was := table[..];
      var index := handle % 0x8000;
      assert Slot(handle) == (index / 8, BitAnd(index, 5));
      table[index / 8] := table[index / 8] | BitMask(BitAnd(index, 5));
      assert forall h: Handle :: was[Slot(h).0] == old(table[Slot(h).0]);
      MarkingAnnounces(before, str, handle, was);
    }

    /** A string event goes through the buffer if that can hold it, and as a message of its own if not. */
    method EmitString(handle: Handle, text: seq<byte>) returns (r: Result)
      requires Carrying() && |text| < 0x1_0000
      modifies this`bufpos, this`messages, this`delivered, this`pending, buffer, connection, connection.socket
      ensures Carrying() && r.Success?
      ensures Events() == old(Events()) + [String(handle, text)]
      ensures old(Connected()) ==> Connected()
    {
      hide Encode, EncodeAll, Positive, Stream, Carries, Concat;
      r := Success;
      var ev: EventData := String(handle, text);
      var size := EncodeSize(ev);
      if size > BUF_SIZE - bufpos {
        r := FlushSession();
      }
      if size <= BUF_SIZE - bufpos {
        r := AppendEvent(ev);
      } else {
        assert pending == [];
        SendString(connection, handle, text);
        StringEncoding(handle, text);
        MessageGoesOut([[5], Little(handle, 4), Little(|text|, 2), text], [String(handle, text)]);
      }
    }

    /** The strings an event refers to, each if new. */
    method WriteStrings(ev: EventData) returns (r: Result)
      requires Valid()
      modifies this`bufpos, this`messages, this`delivered, this`pending, buffer, table, connection, connection.socket
      ensures Valid() && r.Success?
      ensures Events() == AnnounceAll(old(Events()), Uses(ev), names)
      ensures old(Connected()) ==> Connected()
    {
      hide Encode, EncodeAll, Announce, Positive, Session.Valid, Session.Connected;
      ghost var before := Events();
      r := Success;
      match ev {
        case Region(_, name, file, _, _) =>
          r := WriteSessionString(name);
          r := WriteSessionString(file);
          AnnounceTwo(before, name, file, names);
        case CounterSet(_, name, file, _, _) =>
          r := WriteSessionString(name);
          r := WriteSessionString(file);
          AnnounceTwo(before, name, file, names);
        case CounterAdd(name, _) =>
          r := WriteSessionString(name);
          AnnounceOne(before, name, names);
        case _ =>
      }
    }

    /** The strings an event refers to, then the event. */
    method WriteSessionEvent(ev: EventData) returns (r: Result)
      requires Valid() && FromApi(ev)
      modifies this`bufpos, this`messages, this`delivered, this`pending, buffer, table, connection, connection.socket
      ensures Valid() && r.Success?
      ensures Events() == Emit(old(Events()), ev, names)
      ensures old(Connected()) ==> Connected()
    {
      assert !OnWire(ev, names.hash).String?;
      hide Encode, EncodeAll, Positive, Stream, Carries, BitMask, Slot, OnWire, Concat, AnnounceAll;
      r := WriteStrings(ev);
      var length := EncodeSize(ev);
      if length > BUF_SIZE - bufpos {
        r := FlushSession();
      }
      ghost var announced := Events();
      assert TableOk();
      r := AppendEvent(ev);
      forall h: Handle
        ensures Marked(h) <==> Announced(Events(), h)
      {
        AnnouncedSnoc(announced, OnWire(ev, names.hash), h);
      }
    }

    /** After the bit of a handle is set, the table shows what its announcement adds. */
    lemma MarkingAnnounces(before: seq<Message>, str: Pointer, handle: Handle, was: seq<bv8>)
      requires table.Length == TABLE_SIZE == |was| && handle == names.hash(str)
      requires forall h: Handle :: was[Slot(h).0] & BitMask(Slot(h).1) != 0 <==> Announced(before, h)
      requires !Announced(before, handle)
      requires table[..] == was[Slot(handle).0 := was[Slot(handle).0] | BitMask(Slot(handle).1)]
      requires Events() == before + [names.StringFor(str)]
      ensures TableOk() && Events() == Announce(before, str, names)
    {
      forall h: Handle
        ensures Marked(h) <==> Announced(Events(), h)
      {
        SlotBits(h);
        SlotBits(handle);
        SetBit(was[Slot(handle).0], Slot(handle).1, Slot(h).1);
        assert table[Slot(h).0] == table[..][Slot(h).0];
        AnnouncedSnoc(before, names.StringFor(str), h);
      }
    }
  }

  lemma AnnounceTwo(events: seq<Message>, p: Pointer, q: Pointer, names: Names)
    ensures AnnounceAll(events, [p, q], names) == Announce(Announce(events, p, names), q, names)
  {
    assert [p, q][1..] == [q];
    AnnounceOne(Announce(events, p, names), q, names);
  }

  lemma AnnouncedSnoc(events: seq<Message>, m: Message, h: Handle)
    ensures Announced(events + [m], h) <==> (Announced(events, h) || (m.String? && Slot(m.id) == Slot(h)))
  {
    var longer := events + [m];
    if Announced(events, h) {
      var i :| 0 <= i < |events| && events[i].String? && Slot(events[i].id) == Slot(h);
      assert longer[i] == events[i];
    }
    if m.String? && Slot(m.id) == Slot(h) {
      assert longer[|events|] == m;
    }
  }

  lemma StringEncoding(handle: Handle, text: seq<byte>)
    requires |text| < 0x1_0000
    ensures Sendable([String(handle, text)])
    ensures Writable([[5], Little(handle, 4), Little(|text|, 2), text])
    ensures Concat([[5], Little(handle, 4), Little(|text|, 2), text]) == EncodeAll([String(handle, text)])
  {
    var m: Message := String(handle, text);
    assert EncodeAll([m]) == Encode(m) + EncodeAll([m][1..]);
    ConcatFour([5], Little(handle, 4), Little(|text|, 2), text);
  }

  lemma ConcatFour(w: seq<byte>, x: seq<byte>, y: seq<byte>, z: seq<byte>)
    ensures Concat([w, x, y, z]) == w + (x + y + z)
  {
    assert Concat([z]) == z + Concat([z][1..]);
    assert Concat([y, z]) == y + Concat([y, z][1..]);
    assert Concat([x, y, z]) == x + Concat([x, y, z][1..]);
    assert Concat([w, x, y, z]) == w + Concat([w, x, y, z][1..]);
  }

  /** The branch for strings that no buffer can hold: the same bytes as the encoder's, in four writes. */
  method SendString(connection: WebSocket.Connection, handle: Handle, text: seq<byte>)
    requires |text| < 0x1_0000
    modifies connection, connection.socket
    ensures connection.alive ==> old(connection.alive)
    ensures old(connection.socket.Healthy()) ==>
      connection.alive == old(connection.alive) && connection.socket.Healthy()
    ensures var message := WebSocket.Message(BINARY_FRAME, [[5], Little(handle, 4), Little(|text|, 2), text]);
      connection.alive ==> connection.socket.sent == old(connection.socket.sent) + message
  {
    hide WebSocket.Frame, WebSocket.Header, WebSocket.Message, Little, SendAll, Positive;
    var a, b := Little(handle, 4), Little(|text|, 2);
    FiveParts(connection.socket.sent, WebSocket.Frame(BINARY_FRAME, [5], false), WebSocket.Frame(0, a, false),
              WebSocket.Frame(0, b, false), WebSocket.Frame(0, text, false), WebSocket.Frame(0, [], true));
    connection.BeginSocketFrame(BINARY_FRAME);
    var _ := connection.Write([5]);
    var _ := connection.Write(a);
    var _ := connection.Write(b);
    var _ := connection.Write(text);
    connection.EndSocketFrame();
    FourWrites(BINARY_FRAME, [5], a, b, text);
  }

  lemma FiveParts(s: seq<byte>, v: seq<byte>, w: seq<byte>, x: seq<byte>, y: seq<byte>, z: seq<byte>)
    ensures s + v + w + x + y + z == s + (v + (w + (x + (y + z))))
  {
  }

  lemma FourWrites(opcode: byte, w: seq<byte>, x: seq<byte>, y: seq<byte>, z: seq<byte>)
    requires |w| < SIGN && |x| < SIGN && |y| < SIGN && |z| < SIGN
    ensures WebSocket.Message(opcode, [w, x, y, z]) ==
            WebSocket.Frame(opcode, w, false) + (WebSocket.Frame(0, x, false) +
            (WebSocket.Frame(0, y, false) + (WebSocket.Frame(0, z, false) + WebSocket.Frame(0, [], true))))
  {
    hide WebSocket.Frame;
    assert [w, x, y, z][1..] == [x, y, z] && [x, y, z][1..] == [y, z] && [y, z][1..] == [z];
    assert WebSocket.Message(0, [z]) == WebSocket.Frame(0, z, false) + WebSocket.Message(0, [z][1..]);
    assert WebSocket.Message(0, [y, z]) == WebSocket.Frame(0, y, false) + WebSocket.Message(0, [z]);
    assert WebSocket.Message(0, [x, y, z]) == WebSocket.Frame(0, x, false) + WebSocket.Message(0, [y, z]);
  }

  /** One binary message with the buffered bytes. */
  method SendBuffer(connection: WebSocket.Connection, data: seq<byte>)
    requires |data| < SIGN
    modifies connection, connection.socket
    ensures connection.alive ==> old(connection.alive)
    ensures old(connection.socket.Healthy()) ==>
      connection.alive == old(connection.alive) && connection.socket.Healthy()
    ensures connection.alive ==>
      connection.socket.sent == old(connection.socket.sent) + WebSocket.Message(BINARY_FRAME, [data])
    ensures Concat([data]) == data
  {
    hide WebSocket.Header, SendAll, Positive;
    connection.BeginSocketFrame(BINARY_FRAME);
    var _ := connection.Write(data);
    connection.EndSocketFrame();
    assert WebSocket.Message(0, [data][1..]) == WebSocket.Frame(0, [], true);
    assert Concat([data]) == data + Concat([data][1..]);
  }

  lemma StreamSnoc(messages: seq<seq<seq<byte>>>, writes: seq<seq<byte>>)
    requires AllWritable(messages) && Writable(writes)
    ensures AllWritable(messages + [writes])
    ensures Stream(messages + [writes]) == Stream(messages) + WebSocket.Message(BINARY_FRAME, writes)
  {
    assert (messages + [writes])[..|messages|] == messages;
  }

  lemma CarriesSnoc(messages: seq<seq<seq<byte>>>, delivered: seq<seq<Message>>,
                    writes: seq<seq<byte>>, events: seq<Message>)
    requires Carries(messages, delivered) && Writable(writes)
    requires Sendable(events) && Concat(writes) == EncodeAll(events)
    ensures AllWritable(messages) && Carries(messages + [writes], delivered + [events])
  {
    hide EncodeAll, Concat;
  }

  lemma EmptyEncoding(ms: seq<Message>)
    requires Sendable(ms)
    ensures EncodeAll(ms) == [] <==> ms == []
  {
  }
}

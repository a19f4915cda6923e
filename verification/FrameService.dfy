/** The WebSocket state of a connection (src/webby/webby.c): one frame is scanned, answered or handed to the
    handler, and the connection is reset for the next one. */
module FrameService {
  import opened Options
  import opened Words
  import opened Bytes
  import opened Sockets
  import opened BodyReader
  import WebSocket

  const CLOSE: byte := 8
  const PING: byte := 9
  const PONG: byte := 10

  // ----- Discarding

  /** `discard_incoming_data`: reads of at most 1024 bytes until so many are gone. */
  method DiscardIncomingData(reader: Reader, size: nat, turns: nat) returns (reading: Reading)
    requires reader.Valid()
    modifies reader`headerBodyLeft, reader`ioDataLeft, reader`bodyBytesRead, reader`alive, reader.socket
    ensures reader.Valid() && (reading.Returned? ==> reading.r <= 0)
    ensures reading == Returned(0) ==>
      size <= |old(reader.Remaining())| && reader.Remaining() == old(reader.Remaining())[size..]
    ensures reading == Returned(0) ==> reader.Buffered() == old(reader.Buffered()) - Min(size, old(reader.Buffered()))
    ensures !old(Failing(reader.socket.script)) && turns > |old(reader.socket.script)| ==>
      reading == if size <= |old(reader.Remaining())| then Returned(0) else StillReading
  {
    hide Unmask, Reader.Plain, Reader.Outcome, Failing, Reader.Remaining;
    ghost var all := reader.Remaining();
    var count := size;
    while count > 0
      invariant 0 <= count <= size && reader.Valid()
      invariant reader.Buffered() == old(reader.Buffered()) - Min(size - count, old(reader.Buffered()))
      invariant size - count <= |all| && reader.Remaining() == all[size - count..]
      invariant |reader.socket.script| <= |old(reader.socket.script)|
      invariant Failing(reader.socket.script) ==> old(Failing(reader.socket.script))
    {
      var n := if count > 1024 then 1024 else count;
      reader.ReadEndsIff(n);
      var dest := new byte[n];
      reading := reader.Read(dest, turns);
      if reading != Returned(0) {
        return;
      }
      count := count - n;
    }
    return Returned(0);
  }

  // ----- Serving one frame

  datatype Service =
    | Incomplete
    | Waiting
    | Dead
    | Served(data: seq<byte>)

  /** Bytes behind the header that are gone when the frame has been served: what the handler has read, and
      the rest of the payload if it left any. */
  function Spent(length: int, taken: nat): nat {
    if taken < length then length else taken
  }

  function Unmasked(data: seq<byte>, key: seq<byte>): seq<byte>
    requires key == [] || |key| == 4
  {
    if key == [] then data else Unmask(data, key, 0)
  }

  /** `websocket_pong`. */
  function Pong(): seq<byte> {
    [0x80, PONG, 0]
  }

  /** How many bytes the handler reads, if the frame is one for the handler. */
  function Asked(f: WebSocket.WsFrame, sizes: seq<nat>): nat {
    if f.opcode == PING then 0 else Total(sizes)
  }

  /** The handler's reads, and the rest of the payload if it left any. */
  method ReadPayload(reader: Reader, length: int, sizes: seq<nat>, turns: nat)
    returns (reading: Reading, data: seq<byte>)
    requires reader.Valid() && reader.bodyBytesRead == 0
    modifies reader`headerBodyLeft, reader`ioDataLeft, reader`bodyBytesRead, reader`alive, reader.socket
    ensures reader.Valid()
    ensures reading == Returned(0) ==> Spent(length, Total(sizes)) <= |old(reader.Remaining())|
    ensures reading == Returned(0) ==> data == reader.Plain(old(reader.Remaining())[..Total(sizes)], 0)
    ensures reading == Returned(0) ==>
      var n, buffered := Spent(length, Total(sizes)), old(reader.Buffered());
      reader.Remaining() == old(reader.Remaining())[n..] && reader.Buffered() == buffered - Min(n, buffered)
    ensures !old(Failing(reader.socket.script)) && turns > |old(reader.socket.script)| ==>
      reading == if Spent(length, Total(sizes)) <= |old(reader.Remaining())| then Returned(0) else StillReading
  {
    hide Unmask, Reader.Plain, Failing, Reader.Remaining;
    reading, data := ReadParts(reader, sizes, turns);
    if reading == Returned(0) && reader.bodyBytesRead < length {
      reading := DiscardIncomingData(reader, length - reader.bodyBytesRead, turns);
    }
  }

  /** The data of a frame at the start of some bytes, and what its service leaves in the socket when `used`
      of the bytes were in the buffer. */
  predicate Delivers(f: WebSocket.WsFrame, all: seq<byte>, used: nat, taken: nat, data: seq<byte>, left: seq<byte>)
    requires f.maskKey == [] || |f.maskKey| == 4
  {
    var n := Spent(f.payloadLength, taken);
    && f.headerSize + n <= |all|
    && data == Unmasked(all[f.headerSize..f.headerSize + taken], f.maskKey)
    && Max(used, f.headerSize + n) <= |all| && left == all[Max(used, f.headerSize + n)..]
  }

  /** The connection reads from the rest of the buffer, then from the socket. */
  method Open(io: array<byte>, used: nat, size: nat, key: seq<byte>, socket: Incoming) returns (reader: Reader)
    requires size <= used <= io.Length && (key == [] || |key| == 4)
    ensures fresh(reader) && reader.Valid() && reader.socket == socket && reader.key == key
    ensures reader.bodyBytesRead == 0 && reader.Buffered() == used - size
    ensures size <= |io[..used] + socket.remaining|
    ensures reader.Remaining() == (io[..used] + socket.remaining)[size..]
  {
    var none := new byte[0];
    reader := new Reader(socket, none, 0, 0, io, used, used - size, key);
    hide Reader.Remaining;
    BehindHeader(none[0..0], io[..used], size, socket.remaining);
    assert io[..used][size..] == io[size..used];
  }

  lemma BehindHeader(none: seq<byte>, buffered: seq<byte>, size: nat, remaining: seq<byte>)
    requires none == [] && size <= |buffered|
    ensures none + buffered[size..] + remaining == (buffered + remaining)[size..]
  {
  }

  /** From the scanned header on. */
  method ServePayload(io: array<byte>, used: nat, f: WebSocket.WsFrame, socket: Incoming, sizes: seq<nat>, turns: nat)
    returns (r: Service)
    requires f.headerSize <= used <= io.Length && (f.maskKey == [] || |f.maskKey| == 4)
    modifies socket
    ensures var all, taken := io[..used] + old(socket.remaining), Total(sizes);
      && !r.Incomplete?
      && (r.Served? ==> Delivers(f, all, used, taken, r.data, socket.remaining))
      && (!old(Failing(socket.script)) && turns > |old(socket.script)| ==>
        if f.headerSize + Spent(f.payloadLength, taken) <= |all| then r.Served? else r.Waiting?)
  {
    ghost var all := io[..used] + socket.remaining;
    hide Unmask, Failing, Unmasked, Reader.Plain, Reader.Remaining, Reader.Buffered, Delivers, Total;
    var reader := Open(io, used, f.headerSize, f.maskKey, socket);
    var reading, data := ReadPayload(reader, f.payloadLength, sizes, turns);
    if reading == Returned(0) {
      LeftInSocket(reader);
      PlainIsUnmasked(reader, all[f.headerSize..][..Total(sizes)]);
      IsDelivered(f, all, used, Total(sizes), data, socket.remaining);
    }
    r := if reading == Returned(0) then Served(data) else if reading == StillReading then Waiting else Dead;
  }

  lemma IsDelivered(f: WebSocket.WsFrame, all: seq<byte>, used: nat, taken: nat, data: seq<byte>, left: seq<byte>)
    requires (f.maskKey == [] || |f.maskKey| == 4) && f.headerSize <= used <= |all|
    requires var payload, n := all[f.headerSize..], Spent(f.payloadLength, taken);
      && n <= |payload| && data == Unmasked(payload[..taken], f.maskKey)
      && left == payload[n..][used - f.headerSize - Min(n, used - f.headerSize)..]
    ensures Delivers(f, all, used, taken, data, left)
  {
    hide Unmasked;
    var h, n := f.headerSize, Spent(f.payloadLength, taken);
    assert all[h..][..taken] == all[h..h + taken];
    assert all[h..][n..] == all[h + n..];
  }

  /** The state WBC_WEBSOCKET, once the I/O buffer holds `used` bytes: `sizes` are the reads of the handler,
      which gives up when one fails. Afterwards the buffer counts as empty, so the next frame is scanned from
      what the socket still holds. */
  method ServeFrame(io: array<byte>, used: nat, socket: Incoming, out: Socket, sizes: seq<nat>, turns: nat)
    returns (r: Service)
    requires used <= io.Length
    modifies socket, out
    ensures r.Incomplete? <==> WebSocket.Scan(io[..used]).None?
    ensures r.Incomplete? ==> socket.remaining == old(socket.remaining) && out.sent == old(out.sent)
    ensures !r.Incomplete? ==>
      var f, all := WebSocket.Scan(io[..used]).value, io[..used] + old(socket.remaining);
      var taken := Asked(f, sizes);
      && (f.opcode == 8 ==> r.Dead? && out.sent == old(out.sent))
      && |f.maskKey| in {0, 4}
      && (r.Served? ==>
        && Delivers(f, all, used, taken, r.data, socket.remaining)
        && f.headerSize + taken <= |all|
        && CombinedWith(r.data, all[f.headerSize..f.headerSize + taken], f.maskKey, 0)
        && out.sent == old(out.sent) + if f.opcode == 9 then [0x80, 0x0a, 0x00] else [])
      && (f.opcode != 8 && old(out.Healthy()) && !old(Failing(socket.script)) && turns > |old(socket.script)| ==>
        if f.headerSize + Spent(f.payloadLength, taken) <= |all| then r.Served? else r.Waiting?)
  {
    hide Delivers, Failing, WebSocket.Scan, Positive, CombinedWith;
    var scanned := WebSocket.Scan(io[..used]);
    if scanned.None? {
      return Incomplete;
    }
    var f := scanned.value;
    KeyLength(io[..used]);
    if f.opcode == CLOSE {
      return Dead;
    }
    var parts := sizes;
    if f.opcode == PING {
      parts := [];
      var sent := out.SendFully(Pong());
      if sent != 0 {
        return Dead;
      }
    }
    r := ServePayload(io, used, f, socket, parts, turns);
    if r.Served? {
      DeliversCombined(f, io[..used] + old(socket.remaining), used, Asked(f, sizes), r.data, socket.remaining);
    }
  }

  lemma DeliversCombined(f: WebSocket.WsFrame, all: seq<byte>, used: nat, taken: nat, data: seq<byte>, left: seq<byte>)
    requires (f.maskKey == [] || |f.maskKey| == 4) && Delivers(f, all, used, taken, data, left)
    ensures f.headerSize + taken <= |all|
    ensures CombinedWith(data, all[f.headerSize..f.headerSize + taken], f.maskKey, 0)
  {
    hide Unmask;
    if f.maskKey != [] {
      UnmaskCombines(all[f.headerSize..f.headerSize + taken], f.maskKey, 0);
    }
  }

  lemma LeftInSocket(reader: Reader)
    requires reader.Valid()
    ensures reader.Buffered() <= |reader.Remaining()|
    ensures reader.socket.remaining == reader.Remaining()[reader.Buffered()..]
  {
  }

  lemma PlainIsUnmasked(reader: Reader, data: seq<byte>)
    requires reader.key == [] || |reader.key| == 4
    ensures reader.Plain(data, 0) == Unmasked(data, reader.key)
  {
  }

  function Max(a: nat, b: nat): nat {
    if a < b then b else a
  }

  lemma KeyLength(data: seq<byte>)
    ensures var r := WebSocket.Scan(data); r.Some? ==> |r.value.maskKey| in {0, 4}
  {
  }

  /** The next frame is scanned from where this one ends exactly if the handler has not read beyond the
      payload and the buffer held nothing of the next frame. */
  lemma InStepIff(f: WebSocket.WsFrame, all: seq<byte>, used: nat, taken: nat, data: seq<byte>, left: seq<byte>)
    requires (f.maskKey == [] || |f.maskKey| == 4) && f.payloadLength >= 0
    requires Delivers(f, all, used, taken, data, left)
    ensures var end := f.headerSize + f.payloadLength;
      end <= |all| && (left == all[end..] <==> taken <= f.payloadLength && used <= end)
  {
    var end := f.headerSize + f.payloadLength;
    assert |all[end..]| == |all| - end;
  }

  /** A frame as a client sends it. */
  function Masked(opcode: byte, payload: seq<byte>, fin: bool, key: seq<byte>): seq<byte>
    requires |payload| < SIGN && |key| == 4
  {
    WebSocket.Header(opcode, |payload|, fin, key) + Unmask(payload, key, 0)
  }

  /** Wherever the buffer ends: a masked frame is scanned as soon as its header is there. */
  lemma ScannedWhenHeaderIsThere(opcode: byte, payload: seq<byte>, fin: bool, key: seq<byte>, rest: seq<byte>,
                                 io: seq<byte>, coming: seq<byte>)
    requires |payload| < SIGN && |key| == 4 && opcode < 16
    requires io + coming == Masked(opcode, payload, fin, key) + rest
    ensures var h := |WebSocket.Header(opcode, |payload|, fin, key)|;
      WebSocket.Scan(io) ==
      if |io| < h then None else Some(WebSocket.WsFrame(fin, true, opcode, h, key, |payload|))
  {
    hide Unmask, WebSocket.Scan, WebSocket.Header;
    var header, all := WebSocket.Header(opcode, |payload|, fin, key), io + coming;
    assert all == header + (Unmask(payload, key, 0) + rest);
    WebSocket.ScanInvertsHeader(opcode, |payload|, fin, key, Unmask(payload, key, 0) + rest);
    WebSocket.ScanNeedsWholeHeader(all, |io|, []);
    assert all[..|io|] == io && io + [] == io;
  }

  /** What is delivered of a masked frame is the beginning of its payload. */
  lemma DeliversPayload(f: WebSocket.WsFrame, payload: seq<byte>, rest: seq<byte>, used: nat, taken: nat,
                        data: seq<byte>, left: seq<byte>)
    requires f.opcode < 16 && |f.maskKey| == 4 && f.payloadLength == |payload| < SIGN
    requires f.headerSize == |WebSocket.Header(f.opcode, |payload|, f.fin, f.maskKey)|
    requires Delivers(f, Masked(f.opcode, payload, f.fin, f.maskKey) + rest, used, taken, data, left)
    ensures taken <= |payload| ==> data == payload[..taken]
    ensures left == rest <==> taken <= |payload| && used <= f.headerSize + |payload|
    ensures used + |left| <= |Masked(f.opcode, payload, f.fin, f.maskKey) + rest|
  {
    var key := f.maskKey;
    var all, h := Masked(f.opcode, payload, f.fin, key) + rest, f.headerSize;
    var masked := Unmask(payload, key, 0);
    InStepIff(f, all, used, taken, data, left);
    hide Unmask;
    assert all[h + |payload|..] == rest;
    if taken <= |payload| {
      assert all[h..h + taken] == masked[..taken];
      UnmaskBeginning(masked, key, taken);
      UnmaskTwice(payload, key, 0);
    }
  }

  lemma UnmaskBeginning(s: seq<byte>, key: seq<byte>, n: nat)
    requires |key| == 4 && n <= |s|
    ensures Unmask(s[..n], key, 0) == Unmask(s, key, 0)[..n]
  {
    hide Xor;
  }

  /** A masked frame that begins in the buffer and ends there or in the socket, read in any parts: the
      handler gets its payload, and the stream goes on behind it exactly if the handler does not read on and
      nothing of the next frame was in the buffer yet. */
  method ReceiveFrame(io: array<byte>, used: nat, socket: Incoming, out: Socket, sizes: seq<nat>, turns: nat,
                      ghost opcode: byte, ghost payload: seq<byte>, ghost fin: bool, ghost key: seq<byte>,
                      ghost rest: seq<byte>)
    returns (r: Service)
    requires used <= io.Length && |payload| < SIGN && |key| == 4 && opcode < 16 && opcode !in {CLOSE, PING}
    requires io[..used] + socket.remaining == Masked(opcode, payload, fin, key) + rest
    modifies socket, out
    ensures r.Incomplete? <==> used < |WebSocket.Header(opcode, |payload|, fin, key)|
    ensures r.Served? && Total(sizes) <= |payload| ==> r.data == payload[..Total(sizes)]
    ensures r.Served? ==>
      (socket.remaining == rest <==>
        Total(sizes) <= |payload| && used <= |Masked(opcode, payload, fin, key)|)
    ensures r.Served? ==> |socket.remaining| <= |old(socket.remaining)|
    ensures !r.Incomplete? && old(out.Healthy()) && !old(Failing(socket.script)) && turns > |old(socket.script)| ==>
      if Total(sizes) <= |payload| + |rest| then r.Served? else r.Waiting?
  {
    hide Unmask, Delivers, Failing, WebSocket.Scan, WebSocket.Header, Positive;
    ScannedWhenHeaderIsThere(opcode, payload, fin, key, rest, io[..used], socket.remaining);
    r := ServeFrame(io, used, socket, out, sizes, turns);
    if r.Served? {
      ghost var f := WebSocket.Scan(io[..used]).value;
      DeliversPayload(f, payload, rest, used, Total(sizes), r.data, socket.remaining);
    }
  }

  /** Two frames that arrive together: the second is gone when the first has been served. */
  method FramesTogether(io: array<byte>, socket: Incoming, out: Socket, turns: nat,
                        ghost first: seq<byte>, ghost second: seq<byte>, ghost key: seq<byte>)
    returns (r: Service)
    requires 0 < |first| < SIGN && |second| < SIGN && |key| == 4 && socket.remaining == []
    requires io[..] == Masked(1, first, true, key) + Masked(1, second, true, key)
    requires out.Healthy() && !Failing(socket.script) && turns > |socket.script|
    modifies socket, out
    ensures r == Served(first[..1]) && socket.remaining == [] != Masked(1, second, true, key)
  {
    hide Unmask, Delivers, Failing, WebSocket.Scan, Positive;
    assert io[..io.Length] == io[..];
    assert io[..] + socket.remaining == io[..];
    r := ReceiveFrame(io, io.Length, socket, out, [1], turns, 1, first, true, key, Masked(1, second, true, key));
  }

  /** The frame handler of the sink (src/WebsocketSink.cpp) asks for 1024 bytes whatever the frame holds:
      unless as much follows it waits, for ever if the peer closes, and it stays in step only on frames of at
      least 1024 bytes. */
  method SinkFrame(io: array<byte>, used: nat, socket: Incoming, out: Socket, turns: nat,
                   ghost opcode: byte, ghost payload: seq<byte>, ghost fin: bool, ghost key: seq<byte>,
                   ghost rest: seq<byte>)
    returns (r: Service)
    requires used <= io.Length && |payload| < SIGN && |key| == 4 && opcode < 16 && opcode !in {CLOSE, PING}
    requires io[..used] + socket.remaining == Masked(opcode, payload, fin, key) + rest
    modifies socket, out
    ensures r.Incomplete? <==> used < |WebSocket.Header(opcode, |payload|, fin, key)|
    ensures !r.Incomplete? && old(out.Healthy()) && !old(Failing(socket.script)) && turns > |old(socket.script)| ==>
      if |payload| + |rest| < 1024 then r.Waiting? else r.Served?
    ensures r.Served? ==>
      (socket.remaining == rest <==> |payload| >= 1024 && used <= |Masked(opcode, payload, fin, key)|)
  {
    hide Unmask, Failing, WebSocket.Scan, WebSocket.Header, Positive;
    assert [1024][..0] == [];
    assert Total([1024]) == 1024;
    r := ReceiveFrame(io, used, socket, out, [1024], turns, opcode, payload, fin, key, rest);
  }

  /** The masked "Hello" of section 5.7 of RFC 6455. */
  const HELLO: seq<byte> := [0x81, 0x85, 0x37, 0xfa, 0x21, 0x3d, 0x7f, 0x9f, 0x4d, 0x51, 0x58]

  lemma HelloBytes()
    ensures Xor(0x7f, 0x37) == 0x48 && Xor(0x9f, 0xfa) == 0x65 && Xor(0x4d, 0x21) == 0x6c
    ensures Xor(0x51, 0x3d) == 0x6c && Xor(0x58, 0x37) == 0x6f
  {
  }

  lemma HelloScanned()
    ensures WebSocket.Scan(HELLO) == Some(WebSocket.WsFrame(true, true, 1, 6, [0x37, 0xfa, 0x21, 0x3d], 5))
  {
    assert HELLO[2..6] == [0x37, 0xfa, 0x21, 0x3d];
  }

  lemma HelloUnmasked()
    ensures Unmasked(HELLO[6..11], [0x37, 0xfa, 0x21, 0x3d]) == [0x48, 0x65, 0x6c, 0x6c, 0x6f]
  {
    hide Xor;
    HelloBytes();
    var text: seq<byte> := [0x7f, 0x9f, 0x4d, 0x51, 0x58];
    assert HELLO[6..11] == text;
    var plain := Unmask(text, [0x37, 0xfa, 0x21, 0x3d], 0);
    assert plain[0] == 0x48 && plain[1] == 0x65 && plain[2] == 0x6c && plain[3] == 0x6c && plain[4] == 0x6f;
  }

  /** In one piece it is served as what it says. */
  method HelloArrives(turns: nat) returns (r: Service)
    requires turns > 0
    ensures r == Served([0x48, 0x65, 0x6c, 0x6c, 0x6f])
  {
    var io := new byte[11] [0x81, 0x85, 0x37, 0xfa, 0x21, 0x3d, 0x7f, 0x9f, 0x4d, 0x51, 0x58];
    assert io[..11] + [] == io[..11] == HELLO;
    assert Total([5]) == Total([5][..0]) + 5 == 5;
    HelloScanned();
    HelloUnmasked();
    hide Unmasked, WebSocket.Scan, CombinedWith, Total, HELLO;
    var socket := new Incoming([], []);
    var out := new Socket([]);
    r := ServeFrame(io, 11, socket, out, [5], turns);
  }

  // ----- Pongs

  /** What the server puts on the wire between the frames it receives. */
  datatype Sent = Data(opcode: byte, writes: seq<seq<byte>>) | Answer

  predicate Sound(items: seq<Sent>) {
    forall i | 0 <= i < |items| && items[i].Data? ::
      0 < items[i].opcode < 16 && forall w <- items[i].writes :: |w| < SIGN
  }

  function Wire(items: seq<Sent>): seq<byte>
    requires Sound(items)
  {
    if items == [] then []
    else
      (match items[0]
       case Data(opcode, writes) => WebSocket.Message(opcode, writes)
       case Answer => Pong()) + Wire(items[1..])
  }

  /** The messages meant: an answer is a pong without data. */
  function Meant(items: seq<Sent>): seq<(byte, seq<byte>)> {
    if items == [] then []
    else
      [match items[0]
       case Data(opcode, writes) => (opcode, Concat(writes))
       case Answer => (10, [])] + Meant(items[1..])
  }

  /** All messages of a stream, or None if it breaks. */
  function ReceiveAll(stream: seq<byte>): Option<seq<(byte, seq<byte>)>>
    decreases |stream|
  {
    if stream == [] then Some([])
    else
      match WebSocket.Receive(stream)
      case None => None
      case Some((opcode, payload, rest)) =>
        match ReceiveAll(rest)
        case None => None
        case Some(more) => Some([(opcode, payload)] + more)
  }

  /** The three bytes of the answer to a ping are the header of a continuation of ten bytes: no receiver
      finds a message behind them. The two bytes of a pong would be received as one. */
  lemma PongIsNoPong(rest: seq<byte>)
    ensures WebSocket.Scan(Pong() + rest) == Some(WebSocket.WsFrame(true, false, 0, 2, [], 10))
    ensures WebSocket.Receive(Pong() + rest) == None
    ensures Pong() == [0x80, 0x0a, 0x00]
    ensures WebSocket.Receive([0x8a, 0x00] + rest) == Some((10, [], rest))
  {
    var stream := Pong() + rest;
    assert stream[2..2] == [];
    WebSocket.MessageArrives(PONG, [], rest);
    assert WebSocket.Message(PONG, []) == [0x80 + PONG, 0];
  }

  /** What the server sends arrives as it is meant exactly if it answers no ping. */
  lemma {:induction false} ArrivesIffNoPing(items: seq<Sent>)
    requires Sound(items)
    ensures ReceiveAll(Wire(items)) == Some(Meant(items)) <==> Answer !in items
    ensures Answer in items ==> ReceiveAll(Wire(items)).None?
    decreases |items|
  {
    hide WebSocket.Message, WebSocket.Receive;
    if items != [] {
      var rest := Wire(items[1..]);
      ArrivesIffNoPing(items[1..]);
      match items[0] {
        case Data(opcode, writes) =>
          WebSocket.MessageArrives(opcode, writes, rest);
          assert Answer in items <==> Answer in items[1..];
        case Answer =>
          PongIsNoPong(rest);
      }
    }
  }
}

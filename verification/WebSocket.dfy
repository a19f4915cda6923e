/** WebSocket framing in src/webby/webby.c: printing and scanning frame headers, and messages sent as
    fragments. */
module WebSocket {
  import opened Options
  import opened Words
  import opened Bytes
  import opened Sockets

  // ----- Frame headers

  /** The header of section 5.2 of RFC 6455 with the shortest of the three length forms; `mask` is empty
      or the four key bytes. */
  function Header(opcode: byte, length: nat, fin: bool, mask: seq<byte>): (h: seq<byte>)
    requires length < 0x1_0000_0000_0000_0000 && (mask == [] || |mask| == 4)
    ensures |h| == (if length < 126 then 2 else if length < 0x1_0000 then 4 else 10) + |mask|
  {
    var flag := if mask == [] then 0 else 0x80;
    [Or80(opcode, fin)] +
    (if length < 126 then [flag + length]
     else if length < 0x1_0000 then [flag + 126] + Big(length, 2)
     else [flag + 127] + Big(length, 8)) + mask
  }

  /** `(fin ? 0x80 : 0x00) | opcode`. */
  function Or80(opcode: byte, fin: bool): byte {
    if fin && opcode < 0x80 then opcode + 0x80 else opcode
  }

  datatype WsFrame = WsFrame(
    fin: bool, masked: bool, opcode: byte, headerSize: nat, maskKey: seq<byte>, payloadLength: int)

  /** What scan_websocket_frame finds at the start of a buffer; None while the header is incomplete. */
  function Scan(data: seq<byte>): (r: Option<WsFrame>)
    ensures r.Some? ==> 2 <= r.value.headerSize <= |data|
  {
    if |data| < 2 then None
    else
      var maskBytes := if data[1] >= 0x80 then 4 else 0;
      var len7 := data[1] % 0x80;
      var lenBytes := if len7 == 126 then 2 else if len7 == 127 then 8 else 0;
      var size := 2 + lenBytes + maskBytes;
      if size > |data| then None
      else
        // the length is accumulated in a 32-bit word and stored as an int
        var len := if lenBytes == 0 then len7 else FromBig(data[2..2 + lenBytes]) % WORD;
        Some(WsFrame(data[0] >= 0x80, maskBytes == 4, data[0] % 16, size, data[2 + lenBytes..size], Signed(len)))
  }

  /** make_websocket_header: fills the header into a buffer of ten bytes and returns its size. */
  method MakeWebsocketHeader(buffer: array<byte>, opcode: byte, payloadLen: nat, fin: bool) returns (size: nat)
    requires buffer.Length == 10 && payloadLen < SIGN
    modifies buffer
    ensures size <= 10 && buffer[..size] == Header(opcode, payloadLen, fin, [])
  {
    buffer[0] := if fin && opcode < 0x80 then opcode + 0x80 else opcode;
    if payloadLen < 126 {
      buffer[1] := payloadLen % 0x80;
      size := 2;
    } else if payloadLen < 65536 {
      buffer[1] := 126;
      buffer[2] := payloadLen / 0x100 % 0x100;
      buffer[3] := payloadLen % 0x100;
      size := 4;
      BigTwo(payloadLen);
    } else {
      buffer[1] := 127;
      buffer[2], buffer[3], buffer[4], buffer[5] := 0, 0, 0, 0;
      buffer[6] := payloadLen / 0x100_0000 % 0x100;
      buffer[7] := payloadLen / 0x1_0000 % 0x100;
      buffer[8] := payloadLen / 0x100 % 0x100;
      buffer[9] := payloadLen % 0x100;
      size := 10;
      BigEight(payloadLen);
    }
  }

  lemma BigEight(n: nat)
    requires n < WORD
    ensures Big(n, 8) ==
            [0, 0, 0, 0, n / 0x100_0000 % 0x100, n / 0x1_0000 % 0x100, n / 0x100 % 0x100, n % 0x100]
  {
    BigSplit(n, 4, 4);
    HighFour(n);
    BigFour(0);
    BigFour(n);
  }

  /** The headers of the examples in section 5.7 of RFC 6455. */
  lemma KnownHeaders()
    ensures Header(1, 5, true, []) == [0x81, 0x05]
    ensures Header(1, 5, true, [0x37, 0xfa, 0x21, 0x3d]) == [0x81, 0x85, 0x37, 0xfa, 0x21, 0x3d]
    ensures Header(1, 3, false, []) == [0x01, 0x03] && Header(0, 2, true, []) == [0x80, 0x02]
    ensures Header(2, 256, true, []) == [0x82, 0x7e, 0x01, 0x00]
    ensures Header(2, 65536, true, []) == [0x82, 0x7f, 0, 0, 0, 0, 0, 1, 0, 0]
  {
    BigTwo(256);
    BigEight(65536);
  }

  // ----- Printing and scanning are inverse

  lemma {:induction false} FromBigRange(b: seq<byte>)
    ensures FromBig(b) < Range(|b|)
  {
    if b != [] {
      FromBigRange(b[..|b| - 1]);
    }
  }

  lemma ShortHeader(opcode: byte, length: nat, fin: bool, mask: seq<byte>, rest: seq<byte>)
    requires length < 126 && (mask == [] || |mask| == 4)
    ensures var h := Header(opcode, length, fin, mask);
      Scan(h + rest) == Some(WsFrame(fin || opcode >= 0x80, mask != [], opcode % 16, |h|, mask, length))
  {
    var h := Header(opcode, length, fin, mask);
    assert (h + rest)[2..|h|] == mask;
  }

  lemma MediumHeader(opcode: byte, length: nat, fin: bool, mask: seq<byte>, rest: seq<byte>)
    requires 126 <= length < 0x1_0000 && (mask == [] || |mask| == 4)
    ensures var h := Header(opcode, length, fin, mask);
      Scan(h + rest) == Some(WsFrame(fin || opcode >= 0x80, mask != [], opcode % 16, |h|, mask, length))
  {
    var h := Header(opcode, length, fin, mask);
    assert (h + rest)[2..4] == Big(length, 2);
    assert (h + rest)[4..|h|] == mask;
    Ranges();
    BigRoundTrip(length, 2);
  }

  lemma LongHeader(opcode: byte, length: nat, fin: bool, mask: seq<byte>, rest: seq<byte>)
    requires 0x1_0000 <= length < DOUBLE_WORD && (mask == [] || |mask| == 4)
    ensures var h := Header(opcode, length, fin, mask);
      Scan(h + rest) ==
      Some(WsFrame(fin || opcode >= 0x80, mask != [], opcode % 16, |h|, mask, Signed(length % WORD)))
  {
    var h := Header(opcode, length, fin, mask);
    assert (h + rest)[2..10] == Big(length, 8);
    assert (h + rest)[10..|h|] == mask;
    Ranges();
    BigRoundTrip(length, 8);
  }

  /** Scanning inverts printing for every opcode and every length a header can announce, masked or not,
      whatever follows: the low four bits of the opcode come back, FIN unless an opcode of 128 or more
      fakes it, and of the length what an int makes of its low 32 bits. */
  lemma ScanInvertsHeader(opcode: byte, length: nat, fin: bool, mask: seq<byte>, rest: seq<byte>)
    requires length < DOUBLE_WORD && (mask == [] || |mask| == 4)
    ensures var h := Header(opcode, length, fin, mask);
      Scan(h + rest) ==
      Some(WsFrame(fin || opcode >= 0x80, mask != [], opcode % 16, |h|, mask, Signed(length % WORD)))
  {
    if length < 126 {
      ShortHeader(opcode, length, fin, mask, rest);
    } else if length < 0x1_0000 {
      MediumHeader(opcode, length, fin, mask, rest);
    } else {
      LongHeader(opcode, length, fin, mask, rest);
    }
  }

  /** The length scanned is the one announced exactly below 2^31. */
  lemma LengthArrivesIff(opcode: byte, length: nat, fin: bool, mask: seq<byte>, rest: seq<byte>)
    requires length < DOUBLE_WORD && (mask == [] || |mask| == 4)
    ensures var r := Scan(Header(opcode, length, fin, mask) + rest);
      r.Some? && (r.value.payloadLength == length <==> length < SIGN)
  {
    ScanInvertsHeader(opcode, length, fin, mask, rest);
  }

  /** A masked frame of 2^31 bytes scans with the length -2^31. */
  lemma LengthTurnsNegative(key: seq<byte>, rest: seq<byte>)
    requires |key| == 4
    ensures var r := Scan(Header(2, SIGN, true, key) + rest); r.Some? && r.value.payloadLength == -SIGN
  {
    ScanInvertsHeader(2, SIGN, true, key, rest);
  }

  /** One of 2^32 bytes scans as empty. */
  lemma LengthVanishes(key: seq<byte>, rest: seq<byte>)
    requires |key| == 4
    ensures var r := Scan(Header(2, WORD, true, key) + rest); r.Some? && r.value.payloadLength == 0
  {
    ScanInvertsHeader(2, WORD, true, key, rest);
  }

  /** So printing and scanning agree exactly on the opcodes that the four-bit field can hold and the
      lengths that an int can. */
  lemma RoundTripIffFits(opcode: byte, length: nat, fin: bool, mask: seq<byte>, rest: seq<byte>)
    requires length < DOUBLE_WORD && (mask == [] || |mask| == 4)
    ensures var h := Header(opcode, length, fin, mask);
      Scan(h + rest) == Some(WsFrame(fin, mask != [], opcode, |h|, mask, length))
      <==> opcode < 16 && length < SIGN
  {
    ScanInvertsHeader(opcode, length, fin, mask, rest);
  }

  /** The size of a scanned header is decided by its bytes alone: fewer bytes scan as incomplete, and
      what follows never changes the result. */
  lemma ScanNeedsWholeHeader(data: seq<byte>, n: nat, tail: seq<byte>)
    requires Scan(data).Some? && n <= |data|
    ensures n < Scan(data).value.headerSize ==> Scan(data[..n]).None?
    ensures n >= Scan(data).value.headerSize ==> Scan(data[..n] + tail) == Scan(data)
  {
    var cut := data[..n] + tail;
    if n >= 2 {
      assert cut[0] == data[0] && cut[1] == data[1];
    }
    var f := Scan(data).value;
    if n >= f.headerSize {
      var lenBytes := f.headerSize - 2 - if f.masked then 4 else 0;
      assert cut[2..2 + lenBytes] == data[2..2 + lenBytes];
      assert cut[2 + lenBytes..f.headerSize] == data[2 + lenBytes..f.headerSize];
    }
  }

  /** No header that announces the same length is shorter than the printed one. */
  lemma HeaderIsShortest(data: seq<byte>, opcode: byte, fin: bool)
    requires Scan(data).Some? && Scan(data).value.payloadLength >= 0
    ensures var f := Scan(data).value;
      |Header(opcode, f.payloadLength, fin, f.maskKey)| <= f.headerSize
  {
    var len7 := data[1] % 0x80;
    if len7 == 126 {
      FromBigRange(data[2..4]);
      Ranges();
    }
  }

  // ----- Messages in fragments

  /** A frame without a mask, as the server sends it. */
  function Frame(opcode: byte, payload: seq<byte>, fin: bool): seq<byte>
    requires |payload| < SIGN
  {
    Header(opcode, |payload|, fin, []) + payload
  }

  /** What goes out between WebbyBeginSocketFrame and WebbyEndSocketFrame: one frame for each write, the
      opcode on the first only, and an empty final frame. */
  function Message(opcode: byte, writes: seq<seq<byte>>): seq<byte>
    requires forall i | 0 <= i < |writes| :: |writes[i]| < SIGN
  {
    if writes == [] then Frame(opcode, [], true)
    else Frame(opcode, writes[0], false) + Message(0, writes[1..])
  }

  datatype Fragment = Fragment(fin: bool, opcode: byte, payload: seq<byte>)

  /** The frames at the start of a stream up to and including the first final one, by section 5.2 of
      RFC 6455, and what follows them. */
  function Fragments(stream: seq<byte>): (r: Option<(seq<Fragment>, seq<byte>)>)
    decreases |stream|
    ensures r.Some? ==> |r.value.1| < |stream|
  {
    match Scan(stream)
    case None => None
    case Some(f) =>
      if f.masked || f.payloadLength < 0 || f.headerSize + f.payloadLength > |stream| then None
      else
        var end := f.headerSize + f.payloadLength;
        var first := Fragment(f.fin, f.opcode, stream[f.headerSize..end]);
        if f.fin then Some(([first], stream[end..]))
        else
          match Fragments(stream[end..])
          case None => None
          case Some((more, rest)) => Some(([first] + more, rest))
  }

  /** Section 5.4 of RFC 6455: an opcode other than 0 on the first frame, 0 on all others, FIN on the
      last only. */
  predicate WellFormed(fs: seq<Fragment>) {
    && fs != []
    && fs[0].opcode != 0
    && (forall i | 1 <= i < |fs| :: fs[i].opcode == 0)
    && (forall i | 0 <= i < |fs| :: fs[i].fin <==> i == |fs| - 1)
  }

  function Payloads(fs: seq<Fragment>): seq<byte> {
    if fs == [] then [] else fs[0].payload + Payloads(fs[1..])
  }

  /** The receiver's view of a stream: the opcode and payload of the first message, and the rest. */
  function Receive(stream: seq<byte>): (r: Option<(byte, seq<byte>, seq<byte>)>)
    ensures r.Some? ==> |r.value.2| < |stream|
  {
    match Fragments(stream)
    case None => None
    case Some((fs, rest)) => if WellFormed(fs) then Some((fs[0].opcode, Payloads(fs), rest)) else None
  }

  function FragmentsOf(opcode: byte, writes: seq<seq<byte>>): (fs: seq<Fragment>)
    ensures |fs| == |writes| + 1
  {
    if writes == [] then [Fragment(true, opcode, [])]
    else [Fragment(false, opcode, writes[0])] + FragmentsOf(0, writes[1..])
  }

  lemma OneFragment(opcode: byte, payload: seq<byte>, fin: bool, rest: seq<byte>)
    requires opcode < 16 && |payload| < SIGN
    ensures var stream := Frame(opcode, payload, fin) + rest;
      var h := |Header(opcode, |payload|, fin, [])|;
      && Scan(stream) == Some(WsFrame(fin, false, opcode, h, [], |payload|))
      && h + |payload| <= |stream|
      && stream[h..h + |payload|] == payload && stream[h + |payload|..] == rest
  {
    var stream := Frame(opcode, payload, fin) + rest;
    ScanInvertsHeader(opcode, |payload|, fin, [], payload + rest);
    assert stream == Header(opcode, |payload|, fin, []) + (payload + rest);
  }

  lemma {:induction false} MessageFragments(opcode: byte, writes: seq<seq<byte>>, rest: seq<byte>)
    requires opcode < 16 && forall i | 0 <= i < |writes| :: |writes[i]| < SIGN
    ensures Fragments(Message(opcode, writes) + rest) == Some((FragmentsOf(opcode, writes), rest))
    decreases |writes|
  {
    hide Scan, Header;
    var stream := Message(opcode, writes) + rest;
    if writes == [] {
      OneFragment(opcode, [], true, rest);
    } else {
      var more := Message(0, writes[1..]) + rest;
      OneFragment(opcode, writes[0], false, more);
      assert stream == Frame(opcode, writes[0], false) + more;
      MessageFragments(0, writes[1..], rest);
    }
  }

  lemma {:induction false} FragmentsShape(opcode: byte, writes: seq<seq<byte>>)
    ensures var fs := FragmentsOf(opcode, writes);
      && fs[0].opcode == opcode
      && (forall i | 1 <= i < |fs| :: fs[i].opcode == 0)
      && (forall i | 0 <= i < |fs| :: fs[i].fin <==> i == |fs| - 1)
      && Payloads(fs) == Concat(writes)
    decreases |writes|
  {
    if writes != [] {
      FragmentsShape(0, writes[1..]);
      var fs := FragmentsOf(opcode, writes);
      assert fs[1..] == FragmentsOf(0, writes[1..]);
    } else {
      assert Payloads([Fragment(true, opcode, [])]) == [] + Payloads([]);
    }
  }

  /** Whatever is written between Begin and End arrives as one message with its opcode and all its
      bytes, and the stream goes on behind it. */
  lemma MessageArrives(opcode: byte, writes: seq<seq<byte>>, rest: seq<byte>)
    requires 0 < opcode < 16 && forall i | 0 <= i < |writes| :: |writes[i]| < SIGN
    ensures Receive(Message(opcode, writes) + rest) == Some((opcode, Concat(writes), rest))
  {
    MessageFragments(opcode, writes, rest);
    FragmentsShape(opcode, writes);
  }

  // ----- The connection's writing side

  class Connection {
    const socket: Socket
    var wsOpcode: byte
    /** WB_ALIVE: cleared when a send fails. */
    var alive: bool

    constructor (socket: Socket)
      ensures this.socket == socket && alive
    {
      this.socket := socket;
      wsOpcode := 0;
      alive := true;
    }

    /** WebbyBeginSocketFrame; the switch of the socket to blocking mode succeeds. */
    method BeginSocketFrame(opcode: byte)
      modifies this
      ensures wsOpcode == opcode && alive == old(alive)
    {
      wsOpcode := opcode;
    }

    method SendHeader(opcode: byte, length: nat, fin: bool) returns (r: int)
      requires length < SIGN
      modifies this`alive, socket
      ensures var s := SendAll(old(socket.script), Header(opcode, length, fin, []));
        && (r == 0 <==> s.ok) && socket.script == s.script
        && socket.sent == old(socket.sent) + Header(opcode, length, fin, [])[..s.taken]
      ensures old(socket.Healthy()) ==> r == 0 && socket.Healthy()
      ensures alive == (old(alive) && r == 0)
      ensures r == 0 ==> socket.sent == old(socket.sent) + Header(opcode, length, fin, [])
      ensures old(socket.sent) <= socket.sent <= old(socket.sent) + Header(opcode, length, fin, [])
    {
      hide SendAll;
      var header := new byte[10];
      var size := MakeWebsocketHeader(header, opcode, length, fin);
      r := socket.SendFully(header[..size]);
      if r != 0 {
        alive := false;
      }
    }

    /** WebbyWrite on a WebSocket connection: a frame of its own for each write. It succeeds exactly if the
        coming sends take the header and then the data. */
    method Write(data: seq<byte>) returns (r: int)
      requires |data| < SIGN
      modifies this, socket
      ensures var header := Header(old(wsOpcode), |data|, false, []);
        var first := SendAll(old(socket.script), header);
        var second := SendAll(first.script, data);
        && (r == 0 <==> first.ok && second.ok)
        && socket.script == (if first.ok then second else first).script
        && socket.sent == old(socket.sent) + if first.ok then header + data[..second.taken] else header[..first.taken]
      ensures old(socket.Healthy()) ==> r == 0 && socket.Healthy()
      ensures wsOpcode == 0 && alive == (old(alive) && r == 0)
      ensures r == 0 ==> socket.sent == old(socket.sent) + Frame(old(wsOpcode), data, false)
      ensures old(socket.sent) <= socket.sent <= old(socket.sent) + Frame(old(wsOpcode), data, false)
    {
      hide SendAll, Header;
      var opcode := wsOpcode;
      wsOpcode := 0;
      r := SendHeader(opcode, |data|, false);
      if r != 0 {
        return -1;
      }
      r := socket.SendFully(data);
      if r != 0 {
        alive := false;
        return -1;
      }
    }

    /** WebbyEndSocketFrame: the empty final frame; only a failed send ends the connection. */
    method EndSocketFrame()
      modifies this`alive, socket
      ensures var s := SendAll(old(socket.script), Frame(wsOpcode, [], true));
        && alive == (old(alive) && s.ok) && socket.script == s.script
        && socket.sent == old(socket.sent) + Frame(wsOpcode, [], true)[..s.taken]
      ensures old(socket.Healthy()) ==> alive == old(alive) && socket.Healthy()
      ensures alive ==> old(alive) && socket.sent == old(socket.sent) + Frame(wsOpcode, [], true)
      ensures old(socket.sent) <= socket.sent <= old(socket.sent) + Frame(wsOpcode, [], true)
    {
      hide SendAll;
      assert Frame(wsOpcode, [], true) == Header(wsOpcode, 0, true, []);
      var r := SendHeader(wsOpcode, 0, true);
    }
  }
}

/** Reading a request body or the payload of a frame: first what the two buffers still hold, then from the
    socket, and unmasked on the way (src/webby/webby.c). */
module BodyReader {
  import opened Words
  import opened BitXors
  import opened Bytes
  import opened Sockets
  import WebSocket

  // ----- Masking

  function Xor(a: byte, b: byte): byte {
    EightBits();
    BitXor(a, b, 8)
  }

  lemma EightBits()
    ensures Pow2(8) == 256
  {
    assert Pow2(4) == 16;
    PowSplit(4, 4);
  }

  lemma XorTwice(a: byte, b: byte)
    ensures Xor(Xor(a, b), b) == a
  {
    EightBits();
    BitXorTwice(a, b, 8);
  }

  /** Bit by bit: each byte of r is the exclusive disjunction of the byte of s at its place and the byte of
      the repeated key that belongs to its position in the payload (section 5.3 of RFC 6455); without a key r
      is s. */
  ghost predicate CombinedWith(r: seq<byte>, s: seq<byte>, key: seq<byte>, position: nat) {
    && (key == [] ==> r == s)
    && (|key| == 4 ==>
      && |r| == |s|
      && forall i, j | 0 <= i < |s| && 0 <= j < 8 ::
           Bit(r[i], j) <==> Bit(s[i], j) != Bit(key[(position + i) % 4], j))
  }

  lemma UnmaskCombines(s: seq<byte>, key: seq<byte>, position: nat)
    requires |key| == 4
    ensures CombinedWith(Unmask(s, key, position), s, key, position)
  {
    hide Bit;
    var r := Unmask(s, key, position);
    forall i, j | 0 <= i < |s| && 0 <= j < 8
      ensures Bit(r[i], j) <==> Bit(s[i], j) != Bit(key[(position + i) % 4], j)
    {
      BitXorBits(s[i], key[(position + i) % 4], 8, j);
    }
  }

  /** There is no other way to combine them. */
  lemma CombinedIsUnmask(r: seq<byte>, s: seq<byte>, key: seq<byte>, position: nat)
    requires |key| == 4 && CombinedWith(r, s, key, position)
    ensures r == Unmask(s, key, position)
  {
    hide Bit, Unmask;
    UnmaskCombines(s, key, position);
    var u := Unmask(s, key, position);
    EightBits();
    forall i | 0 <= i < |s|
      ensures r[i] == u[i]
    {
      SameBitsSameWord(r[i], u[i], 8);
    }
  }

  /** Section 5.3 of RFC 6455: the bytes from a position of the payload on, combined with the repeated
      key. */
  function Unmask(s: seq<byte>, key: seq<byte>, position: nat): (r: seq<byte>)
    requires |key| == 4
    ensures |r| == |s|
  {
    seq(|s|, i requires 0 <= i < |s| => Xor(s[i], key[(position + i) % 4]))
  }

  /** The pieces of a payload unmask on their own if each goes on where the one before it stopped. */
  lemma UnmaskConcat(a: seq<byte>, b: seq<byte>, key: seq<byte>, position: nat)
    requires |key| == 4
    ensures Unmask(a + b, key, position) == Unmask(a, key, position) + Unmask(b, key, position + |a|)
  {
    hide Xor;
  }

  /** Masking and unmasking are the same operation. */
  lemma UnmaskTwice(s: seq<byte>, key: seq<byte>, position: nat)
    requires |key| == 4
    ensures Unmask(Unmask(s, key, position), key, position) == s
  {
    hide Xor;
    forall i | 0 <= i < |s|
      ensures Unmask(Unmask(s, key, position), key, position)[i] == s[i]
    {
      XorTwice(s[i], key[(position + i) % 4]);
    }
  }

  // ----- The socket's reading side

  class Incoming {
    /** How many bytes the coming receives are ready to yield; a negative number is a failure. Beyond the
        list the socket yields all it has. */
    var script: seq<int>
    /** What the peer still sends before it closes, and nobody has received. */
    var remaining: seq<byte>

    constructor (script: seq<int>, remaining: seq<byte>)
      ensures this.script == script && this.remaining == remaining
    {
      this.script, this.remaining := script, remaining;
    }

    /** Any beginning of what remains; for ever nothing once the peer has closed; a negative result is a
        failure. */
    method Recv(length: nat) returns (n: int, data: seq<byte>)
      requires length > 0
      modifies this
      ensures n == Taken(old(script), Min(length, |old(remaining)|)) && script == Later(old(script))
      ensures n >= 0 ==> data == old(remaining)[..n] && remaining == old(remaining)[n..]
      ensures n < 0 ==> remaining == old(remaining)
    {
      n := Min(length, |remaining|);
      if script != [] {
        n := if script[0] < n then script[0] else n;
        script := script[1..];
      }
      data := [];
      if n >= 0 {
        data, remaining := remaining[..n], remaining[n..];
      }
    }
  }

  /** What can be seen of a read after a number of receives: its result, unless it goes on. */
  datatype Reading = StillReading | Returned(r: int)

  /** The loop over recv seen for some turns, when the peer still sends `there` bytes before it closes. */
  function Received(wanted: nat, there: nat, script: seq<int>, turns: nat): (reading: Reading)
    ensures reading.Returned? ==> reading.r <= 0
  {
    if wanted == 0 then Returned(0)
    else if turns == 0 then StillReading
    else
      var n := Taken(script, Min(wanted, there));
      if n < 0 then Returned(n) else Received(wanted - n, there - n, Later(script), turns - 1)
  }

  /** A receive will fail. */
  predicate Failing(script: seq<int>) {
    exists i | 0 <= i < |script| :: script[i] < 0
  }

  lemma FailingLater(script: seq<int>)
    ensures Failing(script) <==> (script != [] && (script[0] < 0 || Failing(Later(script))))
  {
    if script != [] && Failing(script[1..]) {
      var i :| 0 <= i < |script[1..]| && script[1..][i] < 0;
      assert script[i + 1] < 0;
    }
  }

  /** If the peer sends enough, or a receive fails, the loop ends within the length of the script and one
      more turn. */
  lemma {:induction false} ReceivedInTime(wanted: nat, there: nat, script: seq<int>, turns: nat)
    requires (wanted <= there || Failing(script)) && turns > |script|
    ensures Received(wanted, there, script, turns).Returned?
    ensures !Failing(script) ==> Received(wanted, there, script, turns) == Returned(0)
    decreases turns
  {
    var n := Taken(script, Min(wanted, there));
    FailingLater(script);
    if wanted > 0 && n >= 0 && script != [] {
      ReceivedInTime(wanted - n, there - n, Later(script), turns - 1);
    }
  }

  /** If the peer closes early and no receive fails, it never ends. */
  lemma {:induction false} NeverReceived(wanted: nat, there: nat, script: seq<int>, turns: nat)
    requires there < wanted && !Failing(script)
    ensures Received(wanted, there, script, turns) == StillReading
    decreases turns
  {
    var n := Taken(script, Min(wanted, there));
    FailingLater(script);
    if turns > 0 {
      NeverReceived(wanted - n, there - n, Later(script), turns - 1);
    }
  }

  /** Two bytes are wanted of a peer that sends one and closes: every later receive yields nothing, and the
      loop goes on for ever. */
  lemma ClosedPeerHangs()
    ensures forall turns: nat :: Received(2, 1, [], turns) == StillReading
  {
    forall turns: nat
      ensures Received(2, 1, [], turns) == StillReading
    {
      NeverReceived(2, 1, [], turns);
    }
  }

  // ----- The connection's reading side

  class Reader {
    const socket: Incoming
    const header: array<byte>
    const headerUsed: nat
    const io: array<byte>
    const ioUsed: nat
    /** How much of the end of each buffer has not been read. */
    var headerBodyLeft: nat
    var ioDataLeft: nat
    var bodyBytesRead: nat
    var alive: bool
    /** The four key bytes of a masked WebSocket frame, or nothing. */
    const key: seq<byte>

    predicate Valid()
      reads this
    {
      && headerBodyLeft <= headerUsed <= header.Length && ioDataLeft <= ioUsed <= io.Length
      && (key == [] || |key| == 4)
    }

    /** All that is still to be read, as it came. */
    function Remaining(): seq<byte>
      reads this, header, io, socket
      requires Valid()
    {
      HeaderRest() + IoRest() + socket.remaining
    }

    function HeaderRest(): (s: seq<byte>)
      reads this, header
      requires Valid()
      ensures |s| == headerBodyLeft
    {
      header[headerUsed - headerBodyLeft..headerUsed]
    }

    function IoRest(): (s: seq<byte>)
      reads this, io
      requires Valid()
      ensures |s| == ioDataLeft
    {
      io[ioUsed - ioDataLeft..ioUsed]
    }

    /** What a read at the present position makes of some bytes. */
    function Plain(s: seq<byte>, position: nat): (r: seq<byte>)
      requires key == [] || |key| == 4
      ensures |r| == |s|
    {
      if key == [] then s else Unmask(s, key, position)
    }

    constructor (socket: Incoming, header: array<byte>, headerUsed: nat, headerBodyLeft: nat,
                 io: array<byte>, ioUsed: nat, ioDataLeft: nat, key: seq<byte>)
      requires headerBodyLeft <= headerUsed <= header.Length && ioDataLeft <= ioUsed <= io.Length
      requires key == [] || |key| == 4
      ensures Valid() && this.socket == socket && this.key == key && bodyBytesRead == 0
      ensures this.header == header && this.io == io
      ensures Remaining() ==
              header[headerUsed - headerBodyLeft..headerUsed] + io[ioUsed - ioDataLeft..ioUsed] + socket.remaining
    {
      this.socket, this.header, this.headerUsed, this.headerBodyLeft := socket, header, headerUsed, headerBodyLeft;
      this.io, this.ioUsed, this.ioDataLeft, this.key := io, ioUsed, ioDataLeft, key;
      bodyBytesRead, alive := 0, true;
    }

    /** How many bytes the two buffers still hold, and what they lack of a number of bytes. */
    function Buffered(): nat
      reads this
    {
      headerBodyLeft + ioDataLeft
    }

    function Lacking(length: nat): nat
      reads this
    {
      if length <= Buffered() then 0 else length - Buffered()
    }

    /** What a read of this length comes to, seen for some receives. */
    function Outcome(length: nat, turns: nat): (reading: Reading)
      reads this, socket
      ensures reading.Returned? ==> reading.r <= 0
    {
      Received(Lacking(length), |socket.remaining|, socket.script, turns)
    }

    /** A read ends exactly when a receive fails or all it asks for is there or still to come; if the peer
        closes before that, it loops for ever. Without failures an end is a success. */
    lemma ReadEndsIff(length: nat)
      requires Valid()
      ensures (exists turns: nat :: Outcome(length, turns).Returned?) <==>
              (length <= |Remaining()| || Failing(socket.script))
      ensures (length <= |Remaining()| || Failing(socket.script)) ==>
              Outcome(length, |socket.script| + 1).Returned?
      ensures !Failing(socket.script) ==>
              forall turns: nat | turns > |socket.script| ::
                Outcome(length, turns) == if length <= |Remaining()| then Returned(0) else StillReading
    {
      hide Received;
      var wanted, there, script := Lacking(length), |socket.remaining|, socket.script;
      assert wanted <= there <==> length <= |Remaining()|;
      assert wanted == 0 ==> wanted <= there;
      forall turns: nat
        ensures wanted <= there || Failing(script) ==>
                turns > |script| ==> Received(wanted, there, script, turns).Returned?
        ensures wanted <= there && !Failing(script) && turns > |script| ==>
                Received(wanted, there, script, turns) == Returned(0)
        ensures wanted > there && !Failing(script) ==> Received(wanted, there, script, turns) == StillReading
      {
        if wanted > there && !Failing(script) {
          NeverReceived(wanted, there, script, turns);
        } else if turns > |script| {
          ReceivedInTime(wanted, there, script, turns);
        }
      }
      if wanted <= there || Failing(script) {
        assert Outcome(length, |script| + 1).Returned?;
      }
    }

    /** In the middle of a read: what has arrived and what remains is all there was, and beyond the buffers
        nothing is read before they are empty. */
    ghost predicate Underway(dest: array<byte>, at: nat, all: seq<byte>, start: nat)
      reads this, header, io, socket, dest
    {
      && Valid() && at <= dest.Length && bodyBytesRead == start + at
      && dest[..at] + Remaining() == all
    }

    method ReadHeaderData(dest: array<byte>, ghost all: seq<byte>, ghost start: nat) returns (at: nat)
      requires Underway(dest, 0, all, start) && dest != header && dest != io
      modifies this`headerBodyLeft, this`bodyBytesRead, dest
      ensures Underway(dest, at, all, start)
      ensures at == Min(dest.Length, old(headerBodyLeft)) && headerBodyLeft == old(headerBodyLeft) - at
    {
      ghost var before, h, i, s := dest[..0], HeaderRest(), IoRest(), socket.remaining;
      at := ReadBufferedData(headerBodyLeft, header, headerUsed, dest, 0);
      headerBodyLeft := headerBodyLeft - at;
      bodyBytesRead := bodyBytesRead + at;
      assert IoRest() == i && HeaderRest() == h[at..] && dest[..at] == before + h[..at];
      hide Reader.IoRest, Reader.HeaderRest;
      Consumed(before, h, at, i, s);
    }

    method ReadIoData(dest: array<byte>, at: nat, ghost all: seq<byte>, ghost start: nat) returns (end: nat)
      requires Underway(dest, at, all, start) && dest != header && dest != io
      requires at == dest.Length || headerBodyLeft == 0
      modifies this`ioDataLeft, this`bodyBytesRead, dest
      ensures Underway(dest, end, all, start)
      ensures end == at + Min(dest.Length - at, old(ioDataLeft)) && ioDataLeft == old(ioDataLeft) - (end - at)
    {
      ghost var before, h, i, s := dest[..at], HeaderRest(), IoRest(), socket.remaining;
      var size := ReadBufferedData(ioDataLeft, io, ioUsed, dest, at);
      ioDataLeft := ioDataLeft - size;
      bodyBytesRead := bodyBytesRead + size;
      end := at + size;
      assert HeaderRest() == h && IoRest() == i[size..] && dest[..end] == before + i[..size];
      hide Reader.IoRest, Reader.HeaderRest;
      ConsumedNext(before, h, i, size, s);
    }

    lemma NothingBuffered()
      requires Valid() && headerBodyLeft == 0 && ioDataLeft == 0
      ensures Remaining() == socket.remaining
    {
    }

    /** One recv, once the buffers are empty. */
    method ReceiveSome(dest: array<byte>, at: nat, ghost all: seq<byte>, ghost start: nat) returns (err: int)
      requires Underway(dest, at, all, start) && at < dest.Length && dest != header && dest != io
      requires headerBodyLeft == 0 && ioDataLeft == 0
      modifies this`bodyBytesRead, socket, dest
      ensures Valid() && err == Taken(old(socket.script), Min(dest.Length - at, |old(socket.remaining)|))
      ensures err >= 0 ==> Underway(dest, at + err, all, start)
      ensures |socket.remaining| == |old(socket.remaining)| - (if err < 0 then 0 else err)
      ensures socket.script == Later(old(socket.script))
    {
      hide Reader.Remaining, Taken, Later;
      ghost var before, coming := dest[..at], socket.remaining;
      NothingBuffered();
      var data;
      err, data := socket.Recv(dest.Length - at);
      TakenFits(old(socket.script), Min(dest.Length - at, |coming|));
      if err >= 0 {
        CopyInto(dest, at, data);
        bodyBytesRead := bodyBytesRead + err;
        NothingBuffered();
        Moved(before, coming, err);
      }
    }

    /** The loop over recv, seen for some turns. */
    method Receive(dest: array<byte>, begin: nat, turns: nat, ghost all: seq<byte>, ghost start: nat)
      returns (reading: Reading, at: nat)
      requires Underway(dest, begin, all, start) && dest != header && dest != io
      requires begin == dest.Length || (headerBodyLeft == 0 && ioDataLeft == 0)
      modifies this`bodyBytesRead, this`alive, socket, dest
      ensures Valid() && alive == (old(alive) && reading in {StillReading, Returned(0)})
      ensures reading == Received(dest.Length - begin, |old(socket.remaining)|, old(socket.script), turns)
      ensures reading in {StillReading, Returned(0)} ==> Underway(dest, at, all, start)
      ensures reading == Returned(0) ==> at == dest.Length
      ensures |socket.script| <= |old(socket.script)| && (Failing(socket.script) ==> Failing(old(socket.script)))
    {
      hide Reader.Remaining, Taken, Later;
      at := begin;
      var turn := 0;
      while at < dest.Length
        invariant begin <= at && turn <= turns && Underway(dest, at, all, start) && alive == old(alive)
        invariant Received(dest.Length - begin, |old(socket.remaining)|, old(socket.script), turns) ==
                  Received(dest.Length - at, |socket.remaining|, socket.script, turns - turn)
        invariant |socket.script| <= |old(socket.script)|
        invariant Failing(socket.script) ==> Failing(old(socket.script))
        decreases turns - turn
      {
        if turn == turns {
          return StillReading, at;
        }
        FailingLater(socket.script);
        LaterIsShorter(socket.script);
        var err := ReceiveSome(dest, at, all, start);
        turn := turn + 1;
        if err < 0 {
          alive := false;
          return Returned(err), at;
        }
        at := at + err;
      }
      return Returned(0), at;
    }

    /** Combines the bytes read with the key, counted from the start of the payload. */
    method UnmaskFrom(dest: array<byte>, startPos: nat)
      requires |key| == 4 && bodyBytesRead == startPos + dest.Length
      modifies dest
      ensures dest[..] == Unmask(old(dest[..]), key, startPos)
    {
      hide Xor, BitAnd;
      for i := startPos to bodyBytesRead
        invariant forall k | 0 <= k < i - startPos :: dest[k] == Xor(old(dest[k]), key[(startPos + k) % 4])
        invariant forall k | i - startPos <= k < dest.Length :: dest[k] == old(dest[k])
      {
        LowTwoBits(i);
        dest[i - startPos] := Xor(dest[i - startPos], key[BitAnd(i, 3)]);
      }
    }

    /** What is there already: the rest of the header buffer, then that of the I/O buffer. */
    method ReadBuffers(dest: array<byte>) returns (at: nat)
      requires Valid() && dest != header && dest != io
      modifies this`headerBodyLeft, this`ioDataLeft, this`bodyBytesRead, dest
      ensures Underway(dest, at, old(Remaining()), old(bodyBytesRead))
      ensures at == Min(dest.Length, old(Buffered())) && Buffered() == old(Buffered()) - at
      ensures headerBodyLeft == old(headerBodyLeft) - Min(dest.Length, old(headerBodyLeft))
    {
      ghost var all, start := Remaining(), bodyBytesRead;
      at := 0;
      assert dest[..0] == [];
      hide Reader.Remaining;
      if headerBodyLeft > 0 {
        at := ReadHeaderData(dest, all, start);
      }
      if ioDataLeft > 0 {
        at := ReadIoData(dest, at, all, start);
      }
    }

    /** WebbyRead into a buffer of its own, seen for some receives: the buffers first, in their order, then
        the socket until all bytes are there or a receive fails. */
    method Read(dest: array<byte>, turns: nat) returns (reading: Reading)
      requires Valid() && dest != header && dest != io
      modifies this`headerBodyLeft, this`ioDataLeft, this`bodyBytesRead, this`alive, socket, dest
      ensures Valid() && reading == old(Outcome(dest.Length, turns))
      ensures alive == (old(alive) && reading in {StillReading, Returned(0)})
      ensures headerBodyLeft == old(headerBodyLeft) - Min(dest.Length, old(headerBodyLeft))
      ensures Buffered() == old(Buffered()) - Min(dest.Length, old(Buffered()))
      ensures reading == Returned(0) ==>
        dest.Length <= |old(Remaining())| && bodyBytesRead == old(bodyBytesRead) + dest.Length
      ensures reading == Returned(0) ==> dest[..] == Plain(old(Remaining())[..dest.Length], old(bodyBytesRead))
      ensures reading == Returned(0) ==>
        CombinedWith(dest[..], old(Remaining())[..dest.Length], key, old(bodyBytesRead))
      ensures reading == Returned(0) ==> Remaining() == old(Remaining())[dest.Length..]
      ensures reading == StillReading ==>
        var n := bodyBytesRead - old(bodyBytesRead);
        0 <= n <= dest.Length && dest[..n] + Remaining() == old(Remaining())
      ensures |socket.script| <= |old(socket.script)| && (Failing(socket.script) ==> Failing(old(socket.script)))
    {
      hide Xor, Unmask, Received, Failing, Reader.Remaining, Bit;
      var startPos := bodyBytesRead;
      ghost var all := Remaining();
      var at := ReadBuffers(dest);
      reading, at := Receive(dest, at, turns, all, startPos);
      if reading != Returned(0) {
        return;
      }
      assert dest[..dest.Length] == dest[..];
      if key != [] {
        UnmaskCombines(dest[..], key, startPos);
        UnmaskFrom(dest, startPos);
      }
    }
  }

  lemma LaterIsShorter(script: seq<int>)
    ensures |Later(script)| <= |script|
  {
  }

  lemma LowTwoBits(i: nat)
    ensures BitAnd(i, 3) == i % 4
  {
    MaskIsRemainder(i, 2);
    assert Pow2(2) == 4;
  }

  /** `read_buffered_data`: from the unread end of a buffer, as much as there is and fits. */
  method ReadBufferedData(left: nat, data: array<byte>, used: nat, dest: array<byte>, at: nat) returns (size: nat)
    requires left <= used <= data.Length && at <= dest.Length && dest != data
    modifies dest
    ensures size == if left <= dest.Length - at then left else dest.Length - at
    ensures var rest := data[used - left..used];
      dest[..at + size] == old(dest[..at]) + rest[..size] && data[used - (left - size)..used] == rest[size..]
  {
    if left == 0 {
      assert old(dest[..at]) + [] == old(dest[..at]);
      return 0;
    }
    size := if dest.Length - at > left then left else dest.Length - at;
    CopyInto(dest, at, data[used - left..used - left + size]);
    assert data[used - left..used - left + size] == data[used - left..used][..size];
  }

  lemma TakenFits(script: seq<int>, n: nat)
    ensures Taken(script, n) <= n
  {
  }

  lemma Moved(before: seq<byte>, coming: seq<byte>, n: nat)
    requires n <= |coming|
    ensures before + coming[..n] + coming[n..] == before + coming
  {
  }

  /** Bytes that move from the front of what is left behind those that were read before. */
  lemma Consumed(before: seq<byte>, header: seq<byte>, n: nat, io: seq<byte>, socket: seq<byte>)
    requires n <= |header|
    ensures (before + header[..n]) + (header[n..] + io + socket) == before + (header + io + socket)
  {
  }

  lemma ConsumedNext(before: seq<byte>, header: seq<byte>, io: seq<byte>, n: nat, socket: seq<byte>)
    requires n <= |io| && (header == [] || n == 0)
    ensures (before + io[..n]) + (header + io[n..] + socket) == before + (header + io + socket)
  {
    if n == 0 {
      assert io[..n] == [] && io[n..] == io && before + [] == before;
    } else {
      assert header + io[n..] == io[n..] && header + io == io;
    }
  }

  /** Reads of any sizes, one after the other, whatever lies in the buffers and however the socket yields:
      if all succeed, together they give the beginning of the payload, unmasked as a whole. If no receive
      fails they succeed exactly when the peer sends enough. */
  method ReadParts(reader: Reader, sizes: seq<nat>, turns: nat) returns (reading: Reading, result: seq<byte>)
    requires reader.Valid()
    modifies reader`headerBodyLeft, reader`ioDataLeft, reader`bodyBytesRead, reader`alive, reader.socket
    ensures reader.Valid() && (reading.Returned? ==> reading.r <= 0)
    ensures reading == Returned(0) ==> |result| == Total(sizes) <= |old(reader.Remaining())|
    ensures reading == Returned(0) ==>
      result == reader.Plain(old(reader.Remaining())[..|result|], old(reader.bodyBytesRead))
    ensures reading == Returned(0) ==>
      CombinedWith(result, old(reader.Remaining())[..|result|], reader.key, old(reader.bodyBytesRead))
    ensures reading == Returned(0) ==> reader.Remaining() == old(reader.Remaining())[|result|..]
    ensures reading == Returned(0) ==> reader.bodyBytesRead == old(reader.bodyBytesRead) + |result|
    ensures reading == Returned(0) ==>
      reader.Buffered() == old(reader.Buffered()) - Min(|result|, old(reader.Buffered()))
    ensures !old(Failing(reader.socket.script)) && turns > |old(reader.socket.script)| ==>
      reading == if Total(sizes) <= |old(reader.Remaining())| then Returned(0) else StillReading
    ensures Failing(reader.socket.script) ==> old(Failing(reader.socket.script))
    ensures |reader.socket.script| <= |old(reader.socket.script)|
  {
    hide Unmask, Reader.Plain, Reader.Outcome, Failing, Reader.Remaining, CombinedWith;
    reading, result := Returned(0), [];
    ghost var all, start := reader.Remaining(), reader.bodyBytesRead;
    PlainNothing(reader, start);
    for i := 0 to |sizes|
      invariant reader.Valid() && reading == Returned(0) && |result| == Total(sizes[..i]) <= |all|
      invariant reader.bodyBytesRead == start + |result|
      invariant reader.Buffered() == old(reader.Buffered()) - Min(|result|, old(reader.Buffered()))
      invariant result == reader.Plain(all[..|result|], start)
      invariant reader.Remaining() == all[|result|..]
      invariant |reader.socket.script| <= |old(reader.socket.script)|
      invariant Failing(reader.socket.script) ==> old(Failing(reader.socket.script))
    {
      TotalGrows(sizes, i);
      reader.ReadEndsIff(sizes[i]);
      var dest := new byte[sizes[i]];
      reading := reader.Read(dest, turns);
      if reading != Returned(0) {
        return;
      }
      var n := |result|;
      PlainStep(reader, all, n, sizes[i], start);
      result := result + dest[..];
    }
    assert sizes[..|sizes|] == sizes;
    PlainCombines(reader, all[..|result|], start);
  }

  lemma {:induction false} TotalGrows(sizes: seq<nat>, i: nat)
    requires i < |sizes|
    ensures Total(sizes[..i + 1]) == Total(sizes[..i]) + sizes[i] <= Total(sizes)
    decreases |sizes|
  {
    assert sizes[..i + 1][..i] == sizes[..i];
    var n := |sizes| - 1;
    if i < n {
      TotalGrows(sizes[..n], i);
      assert sizes[..n][..i] == sizes[..i] && sizes[..n][..i + 1] == sizes[..i + 1];
    } else {
      assert sizes[..i + 1] == sizes;
    }
  }

  lemma PlainCombines(reader: Reader, s: seq<byte>, position: nat)
    requires reader.key == [] || |reader.key| == 4
    ensures CombinedWith(reader.Plain(s, position), s, reader.key, position)
  {
    hide Unmask;
    if reader.key != [] {
      UnmaskCombines(s, reader.key, position);
    }
  }

  lemma PlainNothing(reader: Reader, position: nat)
    requires reader.key == [] || |reader.key| == 4
    ensures reader.Plain([], position) == []
  {
  }

  lemma PlainStep(reader: Reader, all: seq<byte>, n: nat, size: nat, position: nat)
    requires (reader.key == [] || |reader.key| == 4) && n + size <= |all|
    ensures reader.Plain(all[..n + size], position) ==
            reader.Plain(all[..n], position) + reader.Plain(all[n..][..size], position + n)
    ensures all[n..][size..] == all[n + size..]
  {
    hide Reader.Plain;
    PlainConcat(reader, all[..n], all[n..][..size], position);
    assert all[..n] + all[n..][..size] == all[..n + size];
  }

  lemma PlainConcat(reader: Reader, a: seq<byte>, b: seq<byte>, position: nat)
    requires reader.key == [] || |reader.key| == 4
    ensures reader.Plain(a + b, position) == reader.Plain(a, position) + reader.Plain(b, position + |a|)
  {
    if reader.key != [] {
      UnmaskConcat(a, b, reader.key, position);
    }
  }

  function Total(sizes: seq<nat>): nat {
    if sizes == [] then 0 else Total(sizes[..|sizes| - 1]) + sizes[|sizes| - 1]
  }

  /** A masked frame from a client scans and unmasks to what the client sent, for any key. */
  lemma MaskedFrameArrives(opcode: byte, payload: seq<byte>, fin: bool, key: seq<byte>, rest: seq<byte>)
    requires |payload| < SIGN && |key| == 4 && opcode < 16
    ensures var data := WebSocket.Header(opcode, |payload|, fin, key) + Unmask(payload, key, 0) + rest;
      && WebSocket.Scan(data).Some?
      && var f := WebSocket.Scan(data).value;
      && f.fin == fin && f.opcode == opcode && f.maskKey == key && f.payloadLength == |payload|
      && f.headerSize + |payload| <= |data|
      && Unmask(data[f.headerSize..f.headerSize + |payload|], key, 0) == payload
  {
    hide Unmask;
    var masked := Unmask(payload, key, 0);
    var header := WebSocket.Header(opcode, |payload|, fin, key);
    WebSocket.ScanInvertsHeader(opcode, |payload|, fin, key, masked + rest);
    assert header + masked + rest == header + (masked + rest);
    assert (header + masked + rest)[|header|..|header| + |payload|] == masked;
    UnmaskTwice(payload, key, 0);
  }
}

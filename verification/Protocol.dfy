/** The event encoding of src/Protocol.cpp: what EncodeEvent writes, field by field, into a bounded
    buffer. The memory image of an integer is taken to be little-endian; a double is its 64 bits. */
module Protocol {
  import opened Words
  import opened Bytes

  /** An event; names and files are pointers on the program's side and string handles on the wire. */
  datatype Event<Name> =
    | None
    | Header(frequency: uint64, start: uint64)
    | Tick(when: uint64)
    | Region(line: uint32, name: Name, file: Name, begin: uint64, end: uint64)
    | CounterSet(line: uint32, name: Name, file: Name, when: uint64, value: uint64)
    | String(id: uint32, text: seq<byte>)
    | CounterAdd(name: Name, amount: uint64)

  type Pointer = uint64
  type Handle = uint32
  type EventData = Event<Pointer>
  type Message = Event<Handle>

  /** The size field has 16 bits. */
  predicate Sized<N>(ev: Event<N>) {
    ev.String? ==> |ev.text| < 0x1_0000
  }

  /** Names replaced by their hashes. */
  function OnWire(ev: EventData, hash: Pointer -> Handle): (m: Message)
    ensures Sized(ev) ==> Sized(m)
  {
    match ev
    case None => None
    case Header(frequency, start) => Header(frequency, start)
    case Tick(when) => Tick(when)
    case Region(line, name, file, begin, end) => Region(line, hash(name), hash(file), begin, end)
    case CounterSet(line, name, file, when, value) => CounterSet(line, hash(name), hash(file), when, value)
    case String(id, text) => String(id, text)
    case CounterAdd(name, amount) => CounterAdd(hash(name), amount)
  }

  function TypeByte<N>(ev: Event<N>): byte {
    match ev
    case None => 0
    case Header(_, _) => 1
    case Tick(_) => 2
    case Region(_, _, _, _, _) => 3
    case CounterSet(_, _, _, _, _) => 4
    case String(_, _) => 5
    case CounterAdd(_, _) => 6
  }

  function Encode(m: Message): (b: seq<byte>)
    requires Sized(m)
    ensures |b| > 0 && b[0] == TypeByte(m)
  {
    [TypeByte(m)] +
    match m
    case None => []
    case Header(frequency, start) => Little(frequency, 8) + Little(start, 8)
    case Tick(when) => Little(when, 8)
    case Region(line, name, file, begin, end) =>
      Little(line, 4) + Little(name, 4) + Little(file, 4) + Little(begin, 8) + Little(end, 8)
    case CounterSet(line, name, file, when, value) =>
      Little(line, 4) + Little(name, 4) + Little(file, 4) + Little(when, 8) + Little(value, 8)
    case String(id, text) => Little(id, 4) + Little(|text|, 2) + text
    case CounterAdd(name, amount) => Little(name, 4) + Little(amount, 8)
  }

  /** The space an encoded event needs. */
  function EncodeSize<N>(ev: Event<N>): nat {
    match ev
    case None => 1
    case Header(_, _) => 1 + 8 + 8
    case Tick(_) => 1 + 8
    case Region(_, _, _, _, _) => 1 + 4 + 4 + 4 + 8 + 8
    case CounterSet(_, _, _, _, _) => 1 + 4 + 4 + 4 + 8 + 8
    case String(_, text) => 1 + 4 + 2 + |text|
    case CounterAdd(_, _) => 1 + 4 + 8
  }

  lemma EncodeSizeIsLength(ev: EventData, hash: Pointer -> Handle)
    requires Sized(ev)
    ensures |Encode(OnWire(ev, hash))| == EncodeSize(ev) == EncodeSize(OnWire(ev, hash))
  {
  }

  // ----- Some encodings in full

  lemma SmallWord(n: byte)
    ensures Little(n, 4) == [n, 0, 0, 0] && Little(n, 8) == [n, 0, 0, 0] + [0, 0, 0, 0]
  {
    LittleFour(n);
    LittleFour(0);
    LittleEight(n);
  }

  /** The double 1.0. */
  lemma KnownAmount()
    ensures Little(0x3ff0000000000000, 8) == [0, 0, 0, 0] + [0, 0, 0xf0, 0x3f]
  {
    hide Little;
    var n := 0x3ff0000000000000;
    LittleEight(n);
    assert n / WORD == 0x3ff00000;
    LittleFour(n / WORD);
    LittleFour(n);
  }

  lemma KnownTimes()
    ensures Encode(Header(1, 2)) == [1] + ([1, 0, 0, 0] + [0, 0, 0, 0] + ([2, 0, 0, 0] + [0, 0, 0, 0]))
    ensures Encode(Tick(3)) == [2] + ([3, 0, 0, 0] + [0, 0, 0, 0])
  {
    SmallWord(1);
    SmallWord(2);
    SmallWord(3);
    hide Little;
  }

  lemma KnownRegion()
    ensures Encode(Region(1, 2, 3, 4, 5)) ==
            [3] + ([1, 0, 0, 0] + [2, 0, 0, 0] + [3, 0, 0, 0]
                   + ([4, 0, 0, 0] + [0, 0, 0, 0]) + ([5, 0, 0, 0] + [0, 0, 0, 0]))
  {
    SmallWord(1);
    SmallWord(2);
    SmallWord(3);
    SmallWord(4);
    SmallWord(5);
    hide Little;
  }

  /** A counter set to the double 1.0, and one to which it is added. */
  lemma KnownCounters()
    ensures Encode(CounterSet(1, 2, 3, 4, 0x3ff0000000000000)) ==
            [4] + ([1, 0, 0, 0] + [2, 0, 0, 0] + [3, 0, 0, 0]
                   + ([4, 0, 0, 0] + [0, 0, 0, 0]) + ([0, 0, 0, 0] + [0, 0, 0xf0, 0x3f]))
    ensures Encode(CounterAdd(7, 0x3ff0000000000000)) == [6] + ([7, 0, 0, 0] + ([0, 0, 0, 0] + [0, 0, 0xf0, 0x3f]))
  {
    SmallWord(1);
    SmallWord(2);
    SmallWord(3);
    SmallWord(4);
    SmallWord(7);
    KnownAmount();
    hide Little;
  }

  lemma KnownString()
    ensures Encode(String(7, [0x68, 0x69])) == [5] + ([7, 0, 0, 0] + [2, 0] + [0x68, 0x69])
  {
    SmallWord(7);
    assert Little(2, 2) == [2] + Little(0, 1);
  }

  /** A field of an encoded event ends here. */
  predicate FieldEnd<N>(ev: Event<N>, n: nat) {
    match ev
    case None => n in {0, 1}
    case Header(_, _) => n in {0, 1, 9, 17}
    case Tick(_) => n in {0, 1, 9}
    case Region(_, _, _, _, _) => n in {0, 1, 5, 9, 13, 21, 29}
    case CounterSet(_, _, _, _, _) => n in {0, 1, 5, 9, 13, 21, 29}
    case String(_, text) => n in {0, 1, 5, 7 + |text|}
    case CounterAdd(_, _) => n in {0, 1, 5, 13}
  }

  datatype Result = Success | InvalidParameter | NoMemory

  /** `now` is `before` with the first n bytes of an encoding written at the offset. */
  ghost predicate Holds(now: seq<byte>, before: seq<byte>, offset: nat, encoded: seq<byte>, n: nat) {
    && offset + n <= |before| && n <= |encoded|
    && now == before[..offset] + encoded[..n] + before[offset + n..]
  }

  /** memcpy of the next part of an encoding. */
  method CopyIn(value: seq<byte>, buffer: array<byte>, offset: nat, written: nat,
                ghost before: seq<byte>, ghost encoded: seq<byte>)
    requires offset + written + |value| <= buffer.Length
    requires Holds(buffer[..], before, offset, encoded, written)
    requires written + |value| <= |encoded| && encoded[written..written + |value|] == value
    modifies buffer
    ensures Holds(buffer[..], before, offset, encoded, written + |value|)
  {
    for i := 0 to |value|
      invariant Holds(buffer[..], before, offset, encoded, written + i)
    {
      buffer[offset + written + i] := value[i];
      assert value[i] == encoded[written + i];
    }
  }

  /** TRY_WRITE: copies a field behind what is already there, unless it does not fit. */
  method Write(value: seq<byte>, buffer: array<byte>, offset: nat, available: nat, written: nat,
               ghost before: seq<byte>, ghost encoded: seq<byte>)
    returns (ok: bool, total: nat)
    requires offset + available <= buffer.Length && written <= available
    requires Holds(buffer[..], before, offset, encoded, written)
    requires written + |value| <= |encoded| && encoded[written..written + |value|] == value
    modifies buffer
    ensures ok <==> written + |value| <= available
    ensures total == if ok then written + |value| else written
    ensures Holds(buffer[..], before, offset, encoded, total)
  {
    if |value| > available - written {
      return false, written;
    }
    CopyIn(value, buffer, offset, written, before, encoded);
    return true, written + |value|;
  }

  method WritePair(first: seq<byte>, second: seq<byte>, buffer: array<byte>, offset: nat, available: nat,
                   ghost before: seq<byte>, ghost encoded: seq<byte>)
    returns (ok: bool, length: nat)
    requires 1 <= available && offset + available <= buffer.Length
    requires |encoded| == 1 + |first| + |second| && encoded[1..] == first + second
    requires Holds(buffer[..], before, offset, encoded, 1)
    modifies buffer
    ensures ok <==> available >= |encoded|
    ensures length == if ok then |encoded| else if available >= 1 + |first| then 1 + |first| else 1
    ensures Holds(buffer[..], before, offset, encoded, length)
  {
    assert encoded[1..1 + |first|] == encoded[1..][..|first|] == first;
    assert encoded[1 + |first|..] == encoded[1..][|first|..] == second;
    ok, length := Write(first, buffer, offset, available, 1, before, encoded);
    if !ok { return; }
    ok, length := Write(second, buffer, offset, available, length, before, encoded);
  }

  lemma LocatedSlices(b: seq<byte>, line: seq<byte>, name: seq<byte>, file: seq<byte>, x: seq<byte>, y: seq<byte>)
    requires |line| == |name| == |file| == 4 && |x| == |y| == 8
    requires |b| == 29 && b[1..] == line + name + file + x + y
    ensures b[1..5] == line && b[5..9] == name && b[9..13] == file && b[13..21] == x && b[21..29] == y
  {
    assert b[1..5] == b[1..][..4] && b[5..9] == b[1..][4..8] && b[9..13] == b[1..][8..12];
    assert b[13..21] == b[1..][12..20] && b[21..29] == b[1..][20..28];
  }

  /** The fields that a region and a counter value have in common, after the type byte. */
  method WriteLocated(line: uint32, name: Handle, file: Handle, x: uint64, y: uint64,
                      buffer: array<byte>, offset: nat, available: nat,
                      ghost before: seq<byte>, ghost encoded: seq<byte>)
    returns (ok: bool, length: nat)
    requires 1 <= available && offset + available <= buffer.Length
    requires |encoded| == 29
    requires encoded[1..] == Little(line, 4) + Little(name, 4) + Little(file, 4) + Little(x, 8) + Little(y, 8)
    requires Holds(buffer[..], before, offset, encoded, 1)
    modifies buffer
    ensures ok <==> available >= 29
    ensures length == if available < 5 then 1 else if available < 9 then 5 else if available < 13 then 9
                      else if available < 21 then 13 else if available < 29 then 21 else 29
    ensures Holds(buffer[..], before, offset, encoded, length)
  {
    LocatedSlices(encoded, Little(line, 4), Little(name, 4), Little(file, 4), Little(x, 8), Little(y, 8));
    ok, length := Write(Little(line, 4), buffer, offset, available, 1, before, encoded);
    if !ok { return; }
    ok, length := Write(Little(name, 4), buffer, offset, available, length, before, encoded);
    if !ok { return; }
    ok, length := Write(Little(file, 4), buffer, offset, available, length, before, encoded);
    if !ok { return; }
    ok, length := Write(Little(x, 8), buffer, offset, available, length, before, encoded);
    if !ok { return; }
    ok, length := Write(Little(y, 8), buffer, offset, available, length, before, encoded);
  }

  /** The fields of a string, after the type byte; the text is copied without a test. */
  method WriteString(id: Handle, text: seq<byte>, buffer: array<byte>, offset: nat, available: nat,
                     ghost before: seq<byte>, ghost encoded: seq<byte>)
    returns (ok: bool, length: nat)
    requires 1 <= available && offset + available <= buffer.Length
    requires |text| < 0x1_0000 && (available >= 7 ==> available >= 7 + |text|)
    requires |encoded| == 7 + |text|
    requires encoded[1..] == Little(id, 4) + Little(|text|, 2) + text
    requires Holds(buffer[..], before, offset, encoded, 1)
    modifies buffer
    ensures ok <==> available >= 7 + |text|
    ensures length == if available < 5 then 1 else if available < 7 then 5 else 7 + |text|
    ensures Holds(buffer[..], before, offset, encoded, length)
  {
    assert encoded[1..5] == encoded[1..][..4] && encoded[5..7] == encoded[1..][4..6];
    assert encoded[7..7 + |text|] == encoded[1..][6..];
    ok, length := Write(Little(id, 4), buffer, offset, available, 1, before, encoded);
    if !ok { return; }
    ok, length := Write(Little(|text|, 2), buffer, offset, available, length, before, encoded);
    if !ok { return; }
    CopyIn(text, buffer, offset, length, before, encoded);
    length := length + |text|;
  }

  /** What follows the type byte. */
  method EncodeFields(buffer: array<byte>, offset: nat, available: nat, ev: EventData, hash: Pointer -> Handle,
                      ghost before: seq<byte>)
    returns (ok: bool, length: nat)
    requires 1 <= available && offset + available <= buffer.Length
    requires Sized(ev) && (ev.String? && available >= 7 ==> available >= EncodeSize(ev))
    requires Holds(buffer[..], before, offset, Encode(OnWire(ev, hash)), 1)
    modifies buffer
    ensures ok <==> available >= EncodeSize(ev)
    ensures length <= available && (ok ==> length == EncodeSize(ev))
    ensures FieldEnd(ev, length) && forall n | length < n <= available :: !FieldEnd(ev, n)
    ensures Holds(buffer[..], before, offset, Encode(OnWire(ev, hash)), length)
  {
    hide Little, Holds;
    ok, length := true, 1;
    ghost var encoded := Encode(OnWire(ev, hash));
    match ev {
      case None =>
      case Header(frequency, start) =>
        ok, length := WritePair(Little(frequency, 8), Little(start, 8), buffer, offset, available, before, encoded);
      case Tick(when) =>
        ok, length := WritePair(Little(when, 8), [], buffer, offset, available, before, encoded);
      case Region(line, name, file, begin, end) =>
        ok, length := WriteLocated(line, hash(name), hash(file), begin, end,
                                   buffer, offset, available, before, encoded);
      case CounterSet(line, name, file, when, value) =>
        ok, length := WriteLocated(line, hash(name), hash(file), when, value,
                                   buffer, offset, available, before, encoded);
      case String(id, text) =>
        ok, length := WriteString(id, text, buffer, offset, available, before, encoded);
      case CounterAdd(name, amount) =>
        ok, length := WritePair(Little(hash(name), 4), Little(amount, 8), buffer, offset, available, before, encoded);
    }
  }

  /** Encodes an event at `offset`, into the `available` bytes from there. On success the buffer holds
      the encoding; when it does not fit, the fields that do. Nothing else changes. The copy of a
      string's text is not bounded by `available`, so the caller must have made room for it. */
  method EncodeEvent(buffer: array?<byte>, offset: nat, available: nat, ev: EventData, hash: Pointer -> Handle)
    returns (r: Result, length: nat)
    requires buffer != null ==> offset + available <= buffer.Length
    requires Sized(ev) && (ev.String? && available >= 7 ==> available >= EncodeSize(ev))
    modifies buffer
    ensures r.InvalidParameter? <==> buffer == null
    ensures r.InvalidParameter? ==> length == 0
    ensures r.Success? <==> buffer != null && available >= EncodeSize(ev)
    ensures r.Success? ==> length == EncodeSize(ev)
    ensures length <= available
    ensures buffer != null ==> FieldEnd(ev, length) && forall n | length < n <= available :: !FieldEnd(ev, n)
    ensures buffer != null ==> Holds(buffer[..], old(buffer[..]), offset, Encode(OnWire(ev, hash)), length)
  {
    hide Little;
    length := 0;
    if buffer == null {
      return InvalidParameter, length;
    }

    ghost var m := OnWire(ev, hash);
    ghost var encoded, before := Encode(m), buffer[..];
    assert Holds(buffer[..], before, offset, encoded, 0);
    hide Holds;
    var ok;
    ok, length := Write([TypeByte(ev)], buffer, offset, available, length, before, encoded);
    if !ok { return NoMemory, length; }
    ok, length := EncodeFields(buffer, offset, available, ev, hash, before);
    return if ok then Success else NoMemory, length;
  }
}

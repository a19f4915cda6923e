/** The client's event reader (tools/web/js/ysProtocol.js) and the round trip from the encoder. */
module EventReader {
  import opened Words
  import opened Bytes
  import opened Doubles
  import opened Protocol

  // ----- 64-bit integers as JavaScript numbers

  /** `hi * 2^32 + lo`; only the sum rounds, since hi has 32 bits. */
  function GetUint64(b: seq<byte>): nat
    requires |b| == 8
  {
    var lo, hi := FromLittle(b[..4]), FromLittle(b[4..]);
    ToDouble(hi * WORD + lo)
  }

  lemma {:induction false} FromLittleParts(low: seq<byte>, high: seq<byte>)
    ensures FromLittle(low + high) == FromLittle(low) + Range(|low|) * FromLittle(high)
  {
    if low == [] {
      assert low + high == high;
    } else {
      FromLittleParts(low[1..], high);
      assert (low + high)[1..] == low[1..] + high;
      Distribute(Range(|low| - 1), FromLittle(high));
    }
  }

  lemma Distribute(r: nat, h: nat)
    ensures 256 * (r * h) == 256 * r * h
  {
  }

  /** What the client sees of a 64-bit field. */
  lemma GetUint64Rounds(n: uint64)
    ensures GetUint64(Little(n, 8)) == ToDouble(n)
  {
    hide ToDouble, Spacing, Little, FromLittle, Range;
    var b := Little(n, 8);
    Ranges();
    LittleRoundTrip(n, 8);
    FromLittleParts(b[..4], b[4..]);
    assert b == b[..4] + b[4..];
  }

  /** It is a double, and no double is nearer to the field. */
  lemma GetUint64IsNearest(n: uint64)
    ensures IsDouble(GetUint64(Little(n, 8)))
    ensures forall y | IsDouble(y) :: Distance(GetUint64(Little(n, 8)), n) <= Distance(y, n)
  {
    hide ToDouble, GetUint64;
    GetUint64Rounds(n);
    ToDoubleIsDouble(n);
    forall y | IsDouble(y)
      ensures Distance(ToDouble(n), n) <= Distance(y, n)
    {
      ToDoubleIsNearest(n, y);
    }
  }

  /** The field arrives unchanged exactly when it is a multiple of the spacing of doubles around it; in
      particular whenever it is below 2^53. */
  lemma GetUint64ExactIff(n: uint64)
    ensures GetUint64(Little(n, 8)) == n <==> n % Spacing(n) == 0
    ensures n < EXACT ==> GetUint64(Little(n, 8)) == n
  {
    GetUint64Rounds(n);
    NearestMultiple(n, Spacing(n));
  }

  /** The first time that does not arrive: 2^53 + 1 reads as 2^53. */
  lemma LongTimeRounded()
    ensures GetUint64(Little(EXACT + 1, 8)) == EXACT
  {
    GetUint64Rounds(EXACT + 1);
    assert Spacing(EXACT + 1) == 2 * Spacing(EXACT / 2);
  }

  // ----- Reading one event

  /** The objects the reader builds. Times are numbers, a double is its 64 bits, and a character of a
      string is the byte it came from. */
  datatype ClientEvent =
    | JsHeader(frequency: nat, start: nat)
    | JsTick(when: nat)
    | JsRegion(line: nat, name: nat, file: nat, start: nat, end: nat)
    | JsCounterSet(line: nat, name: nat, file: nat, when: nat, value: nat)
    | JsString(id: nat, size: nat, text: seq<byte>)
    | JsCounterAdd(name: nat, amount: nat)

  /** What the client should see of an encoded event. */
  function Seen(m: Message): ClientEvent
    requires !m.None?
  {
    match m
    case Header(frequency, start) => JsHeader(ToDouble(frequency), ToDouble(start))
    case Tick(when) => JsTick(ToDouble(when))
    case Region(line, name, file, begin, end) => JsRegion(line, name, file, ToDouble(begin), ToDouble(end))
    case CounterSet(line, name, file, when, value) => JsCounterSet(line, name, file, ToDouble(when), value)
    case String(id, text) => JsString(id, |text|, text)
    case CounterAdd(name, amount) => JsCounterAdd(name, amount)
  }

  /** What a read comes to; `Thrown` is the RangeError of a DataView access past the end. */
  datatype Outcome = Value(ev: ClientEvent) | Finished | Unknown | Thrown

  /** The length of the event of a fixed size with this type byte. */
  function FixedSize(t: byte): (n: nat)
    ensures n == 0 || n >= 9
  {
    if t == 1 then 17 else if t == 2 then 9 else if t == 3 || t == 4 then 29 else if t == 6 then 13 else 0
  }

  /** One read from a position, and the position after it. */
  function ReadAt(data: seq<byte>, pos: nat): (r: (Outcome, nat))
    ensures r.0.Value? ==> pos < r.1 <= |data|
  {
    if pos >= |data| then (Finished, pos)
    else
      var t := data[pos];
      var size := FixedSize(t);
      if size > 0 then
        if pos + size > |data| then (Thrown, pos + size)
        else (Value(FixedEvent(data[pos..pos + size])), pos + size)
      else if t == 5 then
        if pos + 7 > |data| then (Thrown, pos)
        else
          var len := FromLittle(data[pos + 5..pos + 7]);
          if pos + 7 + len > |data| then (Thrown, pos)
          else (Value(JsString(FromLittle(data[pos + 1..pos + 5]), len, data[pos + 7..pos + 7 + len])), pos + 7 + len)
      else (Unknown, pos + |data|)
  }

  function FixedEvent(b: seq<byte>): ClientEvent
    requires |b| > 0 && FixedSize(b[0]) == |b|
  {
    match b[0]
    case 1 => JsHeader(GetUint64(b[1..9]), GetUint64(b[9..17]))
    case 2 => JsTick(GetUint64(b[1..9]))
    case 3 => JsRegion(FromLittle(b[1..5]), FromLittle(b[5..9]), FromLittle(b[9..13]),
                       GetUint64(b[13..21]), GetUint64(b[21..29]))
    case 4 => JsCounterSet(FromLittle(b[1..5]), FromLittle(b[5..9]), FromLittle(b[9..13]),
                           GetUint64(b[13..21]), FromLittle(b[21..29]))
    case _ => JsCounterAdd(FromLittle(b[1..5]), FromLittle(b[5..13]))
  }

  lemma TimesRead(b: seq<byte>, x: uint64, y: uint64)
    requires |b| == 17 && b[1..] == Little(x, 8) + Little(y, 8)
    ensures GetUint64(b[1..9]) == ToDouble(x) && GetUint64(b[9..17]) == ToDouble(y)
  {
    hide ToDouble;
    assert b[1..9] == b[1..][..8] == Little(x, 8) && b[9..17] == b[1..][8..] == Little(y, 8);
    GetUint64Rounds(x);
    GetUint64Rounds(y);
  }

  lemma CounterAddRead(b: seq<byte>, name: uint32, amount: uint64)
    requires |b| == 13 && b[1..] == Little(name, 4) + Little(amount, 8)
    ensures FromLittle(b[1..5]) == name && FromLittle(b[5..13]) == amount
  {
    Ranges();
    assert b[1..5] == b[1..][..4] == Little(name, 4) && b[5..13] == b[1..][4..] == Little(amount, 8);
    LittleRoundTrip(name, 4);
    LittleRoundTrip(amount, 8);
  }

  lemma FixedEventReads(m: Message)
    requires !m.None? && !m.String?
    ensures FixedSize(TypeByte(m)) == |Encode(m)| && FixedEvent(Encode(m)) == Seen(m)
  {
    hide ToDouble, GetUint64, FromLittle, Little;
    var b := Encode(m);
    match m {
      case Header(frequency, start) =>
        TimesRead(b, frequency, start);
      case Tick(when) =>
        assert b[1..9] == b[1..] == Little(when, 8);
        GetUint64Rounds(when);
      case Region(line, name, file, begin, end) =>
        LocatedFields(b, line, name, file, begin, end);
        GetUint64Rounds(begin);
        GetUint64Rounds(end);
      case CounterSet(line, name, file, when, value) =>
        LocatedFields(b, line, name, file, when, value);
        GetUint64Rounds(when);
        Ranges();
        LittleRoundTrip(value, 8);
      case CounterAdd(name, amount) =>
        CounterAddRead(b, name, amount);
    }
  }

  lemma LocatedFields(b: seq<byte>, line: uint32, name: uint32, file: uint32, x: uint64, y: uint64)
    requires |b| == 29
    requires b[1..] == Little(line, 4) + Little(name, 4) + Little(file, 4) + Little(x, 8) + Little(y, 8)
    ensures FromLittle(b[1..5]) == line && FromLittle(b[5..9]) == name && FromLittle(b[9..13]) == file
    ensures b[13..21] == Little(x, 8) && b[21..29] == Little(y, 8)
  {
    LocatedSlices(b, Little(line, 4), Little(name, 4), Little(file, 4), Little(x, 8), Little(y, 8));
    Ranges();
    LittleRoundTrip(line, 4);
    LittleRoundTrip(name, 4);
    LittleRoundTrip(file, 4);
  }

  /** An encoded event is read back wherever it lies. */
  lemma ReadsOne(before: seq<byte>, m: Message, after: seq<byte>)
    requires Sized(m) && !m.None?
    ensures ReadAt(before + Encode(m) + after, |before|) == (Value(Seen(m)), |before| + |Encode(m)|)
  {
    var data, b, p := before + Encode(m) + after, Encode(m), |before|;
    assert data[p..p + |b|] == b;
    assert data[p] == b[0];
    if m.String? {
      assert data[p + 1..p + 5] == b[1..5] == Little(m.id, 4);
      assert data[p + 5..p + 7] == b[5..7] == Little(|m.text|, 2);
      Ranges();
      LittleRoundTrip(m.id, 4);
      LittleRoundTrip(|m.text|, 2);
      assert data[p + 7..p + 7 + |m.text|] == b[7..] == m.text;
    } else {
      FixedEventReads(m);
    }
  }

  // ----- Reading a message

  /** All events from a position on, and how the reading ends. */
  function ReadAll(data: seq<byte>, pos: nat): (r: (seq<ClientEvent>, Outcome))
    decreases |data| - pos
    ensures !r.1.Value?
  {
    var (o, next) := ReadAt(data, pos);
    if o.Value? then
      var (rest, end) := ReadAll(data, next);
      ([o.ev] + rest, end)
    else ([], o)
  }

  /** Events that the encoder can put on the wire and the reader accepts. */
  predicate Sendable(ms: seq<Message>) {
    forall i | 0 <= i < |ms| :: Sized(ms[i]) && !ms[i].None?
  }

  function EncodeAll(ms: seq<Message>): seq<byte>
    requires Sendable(ms)
  {
    if ms == [] then [] else Encode(ms[0]) + EncodeAll(ms[1..])
  }

  function SeenAll(ms: seq<Message>): (evs: seq<ClientEvent>)
    requires Sendable(ms)
    ensures |evs| == |ms|
  {
    if ms == [] then [] else [Seen(ms[0])] + SeenAll(ms[1..])
  }

  lemma {:induction false} ReadsStream(before: seq<byte>, ms: seq<Message>, after: seq<byte>)
    requires Sendable(ms)
    ensures var data := before + EncodeAll(ms) + after;
      var (rest, end) := ReadAll(data, |before| + |EncodeAll(ms)|);
      ReadAll(data, |before|) == (SeenAll(ms) + rest, end)
    decreases |ms|
  {
    hide ReadAt, Encode, Seen;
    var data := before + EncodeAll(ms) + after;
    var (rest, end) := ReadAll(data, |before| + |EncodeAll(ms)|);
    if ms == [] {
      assert SeenAll(ms) + rest == rest;
    } else {
      var b, more := Encode(ms[0]), ms[1..];
      assert data == before + b + (EncodeAll(more) + after);
      ReadsOne(before, ms[0], EncodeAll(more) + after);
      assert data == before + b + EncodeAll(more) + after;
      ReadsStream(before + b, more, after);
      assert [Seen(ms[0])] + (SeenAll(more) + rest) == SeenAll(ms) + rest;
    }
  }

  /** The reader inverts the encoder over whole messages: every event in order, then a clean end. */
  lemma ReadsBack(ms: seq<Message>)
    requires Sendable(ms)
    ensures ReadAll(EncodeAll(ms), 0) == (SeenAll(ms), Finished)
  {
    hide Encode, Seen;
    ReadsStream([], ms, []);
    assert [] + EncodeAll(ms) + [] == EncodeAll(ms);
    assert SeenAll(ms) + [] == SeenAll(ms);
  }

  /** A message cut inside an event yields the events before the cut and then throws. */
  lemma CutMessageThrows(ms: seq<Message>, m: Message, n: nat)
    requires Sendable(ms) && Sized(m) && !m.None? && 0 < n < |Encode(m)|
    ensures ReadAll(EncodeAll(ms) + Encode(m)[..n], 0) == (SeenAll(ms), Thrown)
  {
    hide ReadAt, Encode, Seen;
    var cut := Encode(m)[..n];
    var data := EncodeAll(ms) + cut;
    ReadsStream([], ms, cut);
    assert [] + EncodeAll(ms) + cut == data;
    CutEventThrows(EncodeAll(ms), m, n);
    assert SeenAll(ms) + [] == SeenAll(ms);
  }

  lemma CutEventThrows(before: seq<byte>, m: Message, n: nat)
    requires Sized(m) && !m.None? && 0 < n < |Encode(m)|
    ensures ReadAt(before + Encode(m)[..n], |before|).0 == Thrown
  {
    var data, p := before + Encode(m)[..n], |before|;
    assert data[p] == Encode(m)[0];
    if m.String? {
      if n >= 7 {
        assert data[p + 5..p + 7] == Encode(m)[5..7] == Little(|m.text|, 2);
        Ranges();
        LittleRoundTrip(|m.text|, 2);
      }
    } else {
      FixedEventReads(m);
    }
  }

  // ----- The reader object

  class YsEventReader {
    const data: seq<byte>
    var pos: nat
    /** Where an unknown type byte was met, and which. */
    var error: ErrorInfo

    constructor (data: seq<byte>, pos: nat)
      ensures this.data == data && this.pos == pos && error == NoError
    {
      this.data := data;
      this.pos := pos;
      error := NoError;
    }

    method Read() returns (r: Outcome)
      modifies this
      ensures (r, pos) == ReadAt(data, old(pos))
      ensures error == if r.Unknown? then BadType(old(pos), data[old(pos)]) else old(error)
    {
      var p := pos;
      if p >= |data| {
        return Finished;
      }
      match data[p] {
        case 1 => r := ReadFixed(17);
        case 2 => r := ReadFixed(9);
        case 3 => r := ReadFixed(29);
        case 4 => r := ReadFixed(29);
        case 5 =>
          if p + 7 > |data| {
            return Thrown;
          }
          var id, len := FromLittle(data[p + 1..p + 5]), FromLittle(data[p + 5..p + 7]);
          var str: seq<byte> := [];
          var i := 0;
          while i != len
            invariant i <= len && p + 7 + i <= |data| && str == data[p + 7..p + 7 + i]
          {
            if p + 7 + i >= |data| {
              return Thrown;
            }
            str := str + [data[p + 7 + i]];
            i := i + 1;
          }
          pos := pos + 7 + len;
          r := Value(JsString(id, len, str));
        case 6 => r := ReadFixed(13);
        case _ =>
          error := BadType(p, data[p]);
          pos := pos + |data|;
          r := Unknown;
      }
    }

    /** The position moves on before the fields are accessed. */
    method ReadFixed(size: nat) returns (r: Outcome)
      requires pos < |data| && FixedSize(data[pos]) == size > 0
      modifies this`pos
      ensures pos == old(pos) + size
      ensures r == if pos > |data| then Thrown else Value(FixedEvent(data[old(pos)..pos]))
    {
      var p := pos;
      pos := pos + size;
      if pos > |data| {
        return Thrown;
      }
      r := Value(FixedEvent(data[p..pos]));
    }
  }

  datatype ErrorInfo = NoError | BadType(pos: nat, t: byte)

  /** `onmessage`: a fresh reader per message, read until it is done; the events are emitted in order.
      An exception ends the handler after the events already emitted. */
  method OnMessage(data: seq<byte>) returns (events: seq<ClientEvent>, end: Outcome, error: ErrorInfo)
    ensures (events, end) == ReadAll(data, 0)
    ensures error.NoError? <==> !end.Unknown?
  {
    var reader := new YsEventReader(data, 0);
    events := [];
    end := reader.Read();
    while end.Value?
      invariant reader.data == data && fresh(reader)
      invariant end.Value? ==> reader.pos <= |data|
      invariant ReadAll(data, 0).0 == events + Remaining(data, end, reader.pos).0
      invariant ReadAll(data, 0).1 == Remaining(data, end, reader.pos).1
      invariant reader.error.NoError? <==> !end.Unknown?
      decreases end.Value?, |data| - reader.pos
    {
      ghost var e, p := end.ev, reader.pos;
      events := events + [end.ev];
      end := reader.Read();
      assert Remaining(data, Value(e), p).0 == [e] + Remaining(data, end, reader.pos).0;
    }
    assert events + [] == events;
    error := reader.error;
  }

  /** What remains to be emitted when `end` was read just before the position. */
  ghost function Remaining(data: seq<byte>, end: Outcome, pos: nat): (seq<ClientEvent>, Outcome) {
    if end.Value? then ([end.ev] + ReadAll(data, pos).0, ReadAll(data, pos).1) else ([], end)
  }
}

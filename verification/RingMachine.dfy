/** The byte ring between one writer thread and one reader thread (src/ConcurrentCircularBuffer.h) as
    a step machine: the threads interleave at every index load, every copied byte and every store. */
module RingMachine {
  import opened Words

  /** What the writer is about to do, with its registers. */
  datatype Writer =
    | WriterIdle
    | WriteLoadTail(data: seq<byte>)
    | WriteLoadHead(data: seq<byte>, tail: nat)
    | WriteCopy(data: seq<byte>, head: nat, done: nat)
    | WriteReturned(ok: bool)

  datatype Reader =
    | ReaderIdle
    | ReadLoadTail(max: nat)
    | ReadLoadHead(max: nat, tail: nat)
    | ReadCopy(head: nat, amount: nat, out: seq<byte>)
    | ReadReturned(out: seq<byte>)

  datatype Ring = Ring(write: nat, read: nat, buffer: seq<byte>, writer: Writer, reader: Reader)
  {
    predicate Shape() {
      0 < |buffer| <= SIGN && write < |buffer| && read < |buffer|
    }
  }

  datatype Action = CallWrite(data: seq<byte>) | WriterRuns | CallRead(max: nat) | ReaderRuns

  /** `(x - y) & kBufferMask` on 32-bit words. */
  function MaskedDifference(x: nat, y: nat, size: nat): (d: nat)
    requires size > 0
    ensures d < size
  {
    (x - y) % WORD % size
  }

  /** The cell of byte `i` of a copy of `amount` bytes that starts at `head`: two memcpy calls, the
      second one from the start of the buffer. */
  function CopyCell(head: nat, amount: nat, i: nat, size: nat): nat
    requires head < size && i < amount
  {
    var space := size - head;
    var count := if amount < space then amount else space;
    if i < count then head + i else i - count
  }

  predicate Enabled(r: Ring, a: Action) {
    match a
    case CallWrite(data) => (r.writer.WriterIdle? || r.writer.WriteReturned?) && |data| < WORD
    case WriterRuns =>
      && !r.writer.WriterIdle? && !r.writer.WriteReturned?
      && (r.writer.WriteCopy? ==>
            r.writer.done <= |r.writer.data| < |r.buffer| && r.writer.head < |r.buffer|)
    case CallRead(max) => (r.reader.ReaderIdle? || r.reader.ReadReturned?) && max < WORD
    case ReaderRuns =>
      && !r.reader.ReaderIdle? && !r.reader.ReadReturned?
      && (r.reader.ReadCopy? ==>
            |r.reader.out| <= r.reader.amount < |r.buffer| && r.reader.head < |r.buffer|)
  }

  /** One action; an action that is not enabled changes nothing. */
  function Next(r: Ring, a: Action): (r': Ring)
    requires r.Shape()
    ensures r'.Shape() && |r'.buffer| == |r.buffer|
  {
    var size := |r.buffer|;
    if !Enabled(r, a) then r
    else
      match a
      case CallWrite(data) => r.(writer := WriteLoadTail(data))
      case CallRead(max) => r.(reader := ReadLoadTail(max))
      case WriterRuns => (
        match r.writer
        case WriteLoadTail(data) => r.(writer := WriteLoadHead(data, r.read))
        case WriteLoadHead(data, tail) =>
          var used := MaskedDifference(r.write, tail, size);
          if |data| < size - used then r.(writer := WriteCopy(data, r.write, 0))
          else r.(writer := WriteReturned(false))
        case WriteCopy(data, head, done) =>
          if done < |data| then
            r.(buffer := r.buffer[CopyCell(head, |data|, done, size) := data[done]],
               writer := WriteCopy(data, head, done + 1))
          else
            r.(write := (head + |data|) % WORD % size, writer := WriteReturned(true)))
      case ReaderRuns => (
        match r.reader
        case ReadLoadTail(max) => r.(reader := ReadLoadHead(max, r.write))
        case ReadLoadHead(max, tail) =>
          var available := MaskedDifference(tail, r.read, size);
          if available > 0 then r.(reader := ReadCopy(r.read, if max < available then max else available, []))
          else r.(reader := ReadReturned([]))
        case ReadCopy(head, amount, out) =>
          if |out| < amount then
            r.(reader := ReadCopy(head, amount, out + [r.buffer[CopyCell(head, amount, |out|, size)]]))
          else
            r.(read := (head + amount) % WORD % size, reader := ReadReturned(out)))
  }

  function Init(buffer: seq<byte>): (r: Ring)
    requires 0 < |buffer| <= SIGN
    ensures r.Shape()
  {
    Ring(0, 0, buffer, WriterIdle, ReaderIdle)
  }

  function RunAll(r: Ring, actions: seq<Action>): (r': Ring)
    requires r.Shape()
    ensures r'.Shape() && |r'.buffer| == |r.buffer|
  {
    if actions == [] then r
    else Next(RunAll(r, actions[..|actions| - 1]), actions[|actions| - 1])
  }

  lemma RunSnoc(r: Ring, actions: seq<Action>, a: Action)
    requires r.Shape()
    ensures RunAll(r, actions + [a]) == Next(RunAll(r, actions), a)
  {
    assert (actions + [a])[..|actions|] == actions;
  }
}

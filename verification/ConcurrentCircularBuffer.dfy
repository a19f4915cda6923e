/** The byte ring of src/ConcurrentCircularBuffer.h with its indices and bytes updated in place. TryWrite
    and Read have the form of the source, the other thread running between any two of their accesses;
    each is proved to be a run of the step machine. */
module CircularBufferObject {
  import opened Words
  import opened RingMachine
  import opened RingSafety

  class ConcurrentCircularBuffer {
    const log2Size: nat
    const buffer: array<byte>
    var write: uint32
    var read: uint32
    /** The registers of the two threads. */
    var writer: Writer
    var reader: Reader

    /** The state the constructor left, and everything done since. */
    ghost var start: Ring
    ghost var trace: seq<Action>

    ghost predicate Consistent()
      reads this
    {
      && log2Size <= 31 && buffer.Length == Pow2(log2Size) <= SIGN
      && write < buffer.Length && read < buffer.Length
      && (writer.WriteLoadHead? ==> writer.tail < WORD)
      && (reader.ReadLoadTail? ==> reader.max < WORD)
      && (reader.ReadLoadHead? ==> reader.max < WORD && reader.tail < WORD)
    }

    function State(): (r: Ring)
      requires Consistent()
      reads this, buffer
      ensures r.Shape()
    {
      Ring(write, read, buffer[..], writer, reader)
    }

    /** The present state is what the step machine reaches by the recorded trace. */
    ghost predicate Valid()
      reads this, buffer
    {
      && Consistent()
      && start.Shape() && |start.buffer| == buffer.Length && start == Init(start.buffer)
      && State() == RunAll(start, trace)
    }

    constructor (log2Size: nat)
      requires log2Size <= 31
      ensures Valid() && fresh(buffer) && this.log2Size == log2Size && Written() == [] && Taken() == []
    {
      this.log2Size := log2Size;
      buffer := new byte[Pow2(log2Size)];
      write, read := 0, 0;
      writer, reader := WriterIdle, ReaderIdle;
      new;
      PowerFits(log2Size, 31);
      start := Init(buffer[..]);
      trace := [];
    }

    /** `x & kBufferMask`. */
    function Masked(x: uint32): (i: nat)
      requires Consistent()
      reads this
      ensures i == x % buffer.Length
    {
      MaskIsRemainder(x, log2Size);
      BitAnd(x, buffer.Length - 1)
    }

    /** What was written and taken so far, and what the two threads saw of it. */
    ghost function Past(): History
      requires Valid()
      reads this, buffer
    {
      RecordAll(start, trace)
    }

    /** The bytes of all writes completed so far. */
    ghost function Written(): seq<byte>
      requires Valid()
      reads this, buffer
    {
      Past().written
    }

    /** The bytes of all reads completed so far. */
    ghost function Taken(): seq<byte>
      requires Valid()
      reads this, buffer
    {
      Past().taken
    }

    /** Whatever was done with it, the buffer delivers what was written, in order. */
    lemma DeliversInOrder()
      requires Valid()
      ensures Taken() <= Written() && |Written()| - |Taken()| <= buffer.Length - 1
    {
      PowerDividesWord(log2Size);
      ReadsArePrefixOfWrites(start.buffer, trace);
    }

    // ----- The writer's accesses

    method CallTryWrite(data: seq<byte>)
      requires Valid() && Enabled(State(), CallWrite(data))
      modifies this
      ensures Valid() && start == old(start)
      ensures Past() == old(Past())
      ensures writer == WriteLoadTail(data) && reader == old(reader)
    {
      hide RunAll, RecordAll;
      RunSnoc(start, trace, CallWrite(data));
      RecordSnoc(start, trace, CallWrite(data));
      writer := WriteLoadTail(data);
      trace := trace + [CallWrite(data)];
    }

    method LoadTailForWrite(data: seq<byte>) returns (tail: uint32)
      requires Valid() && writer == WriteLoadTail(data)
      modifies this
      ensures Valid() && start == old(start)
      ensures Past() == old(Past()).(seenRead := |old(Taken())|)
      ensures writer == WriteLoadHead(data, tail) && reader == old(reader)
    {
      hide RunAll, RecordAll;
      RunSnoc(start, trace, WriterRuns);
      RecordSnoc(start, trace, WriterRuns);
      tail := read;
      writer := WriteLoadHead(data, tail);
      trace := trace + [WriterRuns];
    }

    /** What every run from the constructor keeps. */
    lemma RunKeepsInv()
      requires Valid()
      ensures Inv(State(), Past())
    {
      PowerDividesWord(log2Size);
      RunInv(start.buffer, trace);
    }

    method LoadHeadForWrite(data: seq<byte>, tail: uint32) returns (head: uint32, accepted: bool)
      requires Valid() && writer == WriteLoadHead(data, tail)
      modifies this
      ensures Valid() && start == old(start)
      ensures Past() == old(Past())
      ensures writer == (if accepted then WriteCopy(data, head, 0) else WriteReturned(false)) && reader == old(reader)
      ensures accepted ==> |data| < buffer.Length && head < buffer.Length
      ensures accepted <==> |Written()| - Past().seenRead + |data| < buffer.Length
    {
      hide RunAll, RecordAll, Inv;
      RunKeepsInv();
      WriteAcceptedIffRoom(State(), Past());
      RunSnoc(start, trace, WriterRuns);
      RecordSnoc(start, trace, WriterRuns);
      head := write;
      var used := Masked((head - tail) % WORD);
      var available := buffer.Length - used;
      accepted := |data| < available;
      writer := if accepted then WriteCopy(data, head, 0) else WriteReturned(false);
      trace := trace + [WriterRuns];
    }

    /** One byte of either memcpy. */
    method StoreByte(cell: nat, data: seq<byte>, head: uint32, done: nat)
      requires Valid() && writer == WriteCopy(data, head, done)
      requires done < |data| < buffer.Length && head < buffer.Length
      requires cell == CopyCell(head, |data|, done, buffer.Length)
      modifies this, buffer
      ensures Valid() && start == old(start)
      ensures Past() == old(Past())
      ensures writer == WriteCopy(data, head, done + 1) && reader == old(reader)
    {
      hide RunAll, RecordAll;
      RunSnoc(start, trace, WriterRuns);
      RecordSnoc(start, trace, WriterRuns);
      buffer[cell] := data[done];
      writer := WriteCopy(data, head, done + 1);
      trace := trace + [WriterRuns];
    }

    method StoreWriteIndex(data: seq<byte>, head: uint32)
      requires Valid() && writer == WriteCopy(data, head, |data|) && |data| < buffer.Length && head < buffer.Length
      modifies this
      ensures Valid() && start == old(start)
      ensures Past() == old(Past()).(written := old(Written()) + data)
      ensures writer == WriteReturned(true) && reader == old(reader)
    {
      hide RunAll, RecordAll;
      RunSnoc(start, trace, WriterRuns);
      RecordSnoc(start, trace, WriterRuns);
      write := Masked((head + |data|) % WORD);
      writer := WriteReturned(true);
      trace := trace + [WriterRuns];
    }

    // ----- The reader's accesses

    method CallReadBytes(max: uint32)
      requires Valid() && Enabled(State(), CallRead(max))
      modifies this
      ensures Valid() && start == old(start)
      ensures Past() == old(Past())
      ensures reader == ReadLoadTail(max) && writer == old(writer)
    {
      hide RunAll, RecordAll;
      RunSnoc(start, trace, CallRead(max));
      RecordSnoc(start, trace, CallRead(max));
      reader := ReadLoadTail(max);
      trace := trace + [CallRead(max)];
    }

    method LoadTailForRead(max: uint32) returns (tail: uint32)
      requires Valid() && reader == ReadLoadTail(max)
      modifies this
      ensures Valid() && start == old(start)
      ensures Past() == old(Past()).(seenWrite := |old(Written())|)
      ensures reader == ReadLoadHead(max, tail) && writer == old(writer)
    {
      hide RunAll, RecordAll;
      RunSnoc(start, trace, ReaderRuns);
      RecordSnoc(start, trace, ReaderRuns);
      tail := write;
      reader := ReadLoadHead(max, tail);
      trace := trace + [ReaderRuns];
    }

    method LoadHeadForRead(max: uint32, tail: uint32) returns (head: uint32, amount: nat, some: bool)
      requires Valid() && reader == ReadLoadHead(max, tail)
      modifies this
      ensures Valid() && start == old(start)
      ensures Past() == old(Past())
      ensures writer == old(writer) && amount < buffer.Length && head < buffer.Length
      ensures reader == if some then ReadCopy(head, amount, []) else ReadReturned([])
      ensures |Taken()| <= Past().seenWrite && amount == Min(max, Past().seenWrite - |Taken()|)
      ensures some <==> Past().seenWrite > |Taken()|
    {
      hide RunAll, RecordAll, Inv;
      RunKeepsInv();
      ReadTakesWhatWasPublished(State(), Past());
      RunSnoc(start, trace, ReaderRuns);
      RecordSnoc(start, trace, ReaderRuns);
      head := read;
      var available := Masked((tail - head) % WORD);
      amount := if max < available then max else available;
      some := available > 0;
      reader := if some then ReadCopy(head, amount, []) else ReadReturned([]);
      trace := trace + [ReaderRuns];
    }

    method LoadByte(cell: nat, head: uint32, amount: nat, out: seq<byte>) returns (longer: seq<byte>)
      requires Valid() && reader == ReadCopy(head, amount, out)
      requires |out| < amount < buffer.Length && head < buffer.Length
      requires cell == CopyCell(head, amount, |out|, buffer.Length)
      modifies this
      ensures Valid() && start == old(start)
      ensures Past() == old(Past())
      ensures |longer| == |out| + 1 && reader == ReadCopy(head, amount, longer) && writer == old(writer)
    {
      hide RunAll, RecordAll;
      RunSnoc(start, trace, ReaderRuns);
      RecordSnoc(start, trace, ReaderRuns);
      longer := out + [buffer[cell]];
      reader := ReadCopy(head, amount, longer);
      trace := trace + [ReaderRuns];
    }

    method StoreReadIndex(head: uint32, amount: nat, out: seq<byte>)
      requires Valid() && reader == ReadCopy(head, amount, out)
      requires |out| == amount < buffer.Length && head < buffer.Length
      modifies this
      ensures Valid() && start == old(start)
      ensures Past() == old(Past()).(taken := old(Taken()) + out)
      ensures reader == ReadReturned(out) && writer == old(writer)
    {
      hide RunAll, RecordAll;
      RunSnoc(start, trace, ReaderRuns);
      RecordSnoc(start, trace, ReaderRuns);
      read := Masked((head + amount) % WORD);
      reader := ReadReturned(out);
      trace := trace + [ReaderRuns];
    }

    // ----- The other thread, resumed from its registers

    method RunReader(actions: seq<Action>)
      requires Valid() && ByReader(actions)
      modifies this, buffer
      ensures Valid() && start == old(start) && writer == old(writer)
      ensures Written() == old(Written()) && old(Taken()) <= Taken() && Past().seenRead == old(Past()).seenRead
    {
      hide RunAll, RecordAll;
      for i := 0 to |actions|
        invariant Valid() && start == old(start) && writer == old(writer)
        invariant Written() == old(Written()) && old(Taken()) <= Taken() && Past().seenRead == old(Past()).seenRead
      {
        assert actions[i] in actions;
        if Enabled(State(), actions[i]) {
          match reader {
            case ReadLoadTail(max) => var _ := LoadTailForRead(max);
            case ReadLoadHead(max, tail) => var _, _, _ := LoadHeadForRead(max, tail);
            case ReadCopy(head, amount, out) =>
              if |out| < amount {
                var _ := LoadByte(CopyCell(head, amount, |out|, buffer.Length), head, amount, out);
              } else {
                StoreReadIndex(head, amount, out);
              }
            case _ => CallReadBytes(actions[i].max);
          }
        }
      }
    }

    method RunWriter(actions: seq<Action>)
      requires Valid() && ByWriter(actions)
      modifies this, buffer
      ensures Valid() && start == old(start) && reader == old(reader)
      ensures Taken() == old(Taken()) && old(Written()) <= Written() && Past().seenWrite == old(Past()).seenWrite
    {
      hide RunAll, RecordAll;
      for i := 0 to |actions|
        invariant Valid() && start == old(start) && reader == old(reader)
        invariant Taken() == old(Taken()) && old(Written()) <= Written() && Past().seenWrite == old(Past()).seenWrite
      {
        assert actions[i] in actions;
        if Enabled(State(), actions[i]) {
          match writer {
            case WriteLoadTail(data) => var _ := LoadTailForWrite(data);
            case WriteLoadHead(data, tail) => var _, _ := LoadHeadForWrite(data, tail);
            case WriteCopy(data, head, done) =>
              if done < |data| {
                StoreByte(CopyCell(head, |data|, done, buffer.Length), data, head, done);
              } else {
                StoreWriteIndex(data, head);
              }
            case _ => CallTryWrite(actions[i].data);
          }
        }
      }
    }

    // ----- The calls

    /** others[n] is what the reader does before the n-th access of the call; beyond the list it rests.
        `seen` is how many bytes had been read when the reader's index was loaded. The write is complete
        when there was room for it then, leaving one cell free, and refused otherwise, whatever the reader
        does meanwhile. */
    method TryWrite(data: seq<byte>, others: seq<seq<Action>>) returns (ok: bool, ghost seen: nat)
      requires Valid() && Enabled(State(), CallWrite(data))
      requires forall actions <- others :: ByReader(actions)
      modifies this, buffer
      ensures Valid() && start == old(start) && writer == WriteReturned(ok)
      ensures Written() == old(Written()) + if ok then data else []
      ensures |old(Taken())| <= seen <= |Taken()|
      ensures ok <==> |old(Written())| - seen + |data| < buffer.Length
    {
      hide RunAll, RecordAll, ConcurrentCircularBuffer.Valid, ConcurrentCircularBuffer.Past;
      CallTryWrite(data);
      RunReader(At(others, 0));
      seen := |Taken()|;
      var tail := LoadTailForWrite(data);
      RunReader(At(others, 1));
      var head, accepted := LoadHeadForWrite(data, tail);
      ok := accepted;
      if !accepted {
        return;
      }

      var space := buffer.Length - head;
      var count := if |data| < space then |data| else space;
      for i := 0 to count
        invariant Valid() && start == old(start) && writer == WriteCopy(data, head, i)
        invariant Written() == old(Written()) && seen <= |Taken()|
      {
        RunReader(At(others, 2 + i));
        StoreByte(head + i, data, head, i);
      }
      for i := count to |data|
        invariant Valid() && start == old(start) && writer == WriteCopy(data, head, i)
        invariant Written() == old(Written()) && seen <= |Taken()|
      {
        RunReader(At(others, 2 + i));
        StoreByte(i - count, data, head, i);
      }

      RunReader(At(others, 2 + |data|));
      StoreWriteIndex(data, head);
    }

    /** Dually; `out` holds the bytes that the source copies to its argument, and `seen` is how many bytes
        had been written when the writer's index was loaded. */
    method Read(max: uint32, others: seq<seq<Action>>) returns (out: seq<byte>, ghost seen: nat)
      requires Valid() && Enabled(State(), CallRead(max))
      requires forall actions <- others :: ByWriter(actions)
      modifies this, buffer
      ensures Valid() && start == old(start) && reader == ReadReturned(out)
      ensures Taken() == old(Taken()) + out
      ensures |old(Written())| <= seen <= |Written()|
      ensures |old(Taken())| <= seen && |out| == Min(max, seen - |old(Taken())|)
    {
      hide RunAll, RecordAll, ConcurrentCircularBuffer.Valid, ConcurrentCircularBuffer.Past;
      CallReadBytes(max);
      RunWriter(At(others, 0));
      seen := |Written()|;
      var tail := LoadTailForRead(max);
      RunWriter(At(others, 1));
      var head, amount, some := LoadHeadForRead(max, tail);
      out := [];
      if !some {
        return;
      }

      var space := buffer.Length - head;
      var count := if space < amount then space else amount;
      for i := 0 to count
        invariant Valid() && start == old(start) && |out| == i && reader == ReadCopy(head, amount, out)
        invariant Taken() == old(Taken()) && seen <= |Written()|
      {
        RunWriter(At(others, 2 + i));
        out := LoadByte(head + i, head, amount, out);
      }
      for i := count to amount
        invariant Valid() && start == old(start) && |out| == i && reader == ReadCopy(head, amount, out)
        invariant Taken() == old(Taken()) && seen <= |Written()|
      {
        RunWriter(At(others, 2 + i));
        out := LoadByte(i - count, head, amount, out);
      }

      RunWriter(At(others, 2 + amount));
      StoreReadIndex(head, amount, out);
    }
  }

  predicate ByReader(actions: seq<Action>) {
    forall a <- actions :: a.CallRead? || a.ReaderRuns?
  }

  predicate ByWriter(actions: seq<Action>) {
    forall a <- actions :: a.CallWrite? || a.WriterRuns?
  }

  function At(others: seq<seq<Action>>, n: nat): (actions: seq<Action>)
    ensures actions == [] || actions in others
  {
    if n < |others| then others[n] else []
  }
}

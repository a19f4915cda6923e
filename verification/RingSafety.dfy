/** Safety of the byte ring over every interleaving of its two threads. */
module RingSafety {
  import opened Words
  import opened RingMachine

  /** `written` are the bytes of all completed writes in order, `taken` those of all completed reads;
      seenRead and seenWrite are the lengths the two threads saw when they last loaded the index of
      the other. */
  datatype History = History(written: seq<byte>, taken: seq<byte>, seenRead: nat, seenWrite: nat)

  function Record(r: Ring, h: History, a: Action): History {
    if !Enabled(r, a) then h
    else if a.WriterRuns? && r.writer.WriteLoadTail? then h.(seenRead := |h.taken|)
    else if a.WriterRuns? && r.writer.WriteCopy? && r.writer.done == |r.writer.data| then
      h.(written := h.written + r.writer.data)
    else if a.ReaderRuns? && r.reader.ReadLoadTail? then h.(seenWrite := |h.written|)
    else if a.ReaderRuns? && r.reader.ReadCopy? && |r.reader.out| == r.reader.amount then
      h.(taken := h.taken + r.reader.out)
    else h
  }

  function RecordAll(r: Ring, actions: seq<Action>): History
    requires r.Shape()
  {
    if actions == [] then History([], [], 0, 0)
    else
      var before, last := actions[..|actions| - 1], actions[|actions| - 1];
      Record(RunAll(r, before), RecordAll(r, before), last)
  }

  lemma RecordSnoc(r: Ring, actions: seq<Action>, a: Action)
    requires r.Shape()
    ensures RecordAll(r, actions + [a]) == Record(RunAll(r, actions), RecordAll(r, actions), a)
  {
    assert (actions + [a])[..|actions|] == actions;
  }

  ghost predicate Indices(r: Ring, h: History) {
    && r.Shape() && WORD % |r.buffer| == 0
    && |h.taken| <= |h.written| < |h.taken| + |r.buffer|
    && r.write == |h.written| % |r.buffer|
    && r.read == |h.taken| % |r.buffer|
  }

  /** The bytes between the two indices lie in their cells. */
  ghost predicate Cells(r: Ring, h: History)
    requires Indices(r, h)
  {
    forall t: nat | |h.taken| <= t < |h.written| :: r.buffer[t % |r.buffer|] == h.written[t]
  }

  ghost predicate WriterOk(r: Ring, h: History)
    requires Indices(r, h)
  {
    var size, w := |r.buffer|, |h.written|;
    match r.writer
    case WriteLoadHead(data, tail) =>
      tail == h.seenRead % size && h.seenRead <= |h.taken| && w < h.seenRead + size
    case WriteCopy(data, head, done) =>
      && head == w % size && done <= |data| && h.seenRead <= |h.taken| && w + |data| < h.seenRead + size
      && forall j: nat | j < done :: r.buffer[(w + j) % size] == data[j]
    case _ => true
  }

  ghost predicate ReaderOk(r: Ring, h: History)
    requires Indices(r, h)
  {
    var size, n := |r.buffer|, |h.taken|;
    match r.reader
    case ReadLoadHead(max, tail) => tail == h.seenWrite % size && n <= h.seenWrite <= |h.written|
    case ReadCopy(head, amount, out) =>
      && head == n % size && |out| <= amount && n + amount <= h.seenWrite <= |h.written|
      && out == h.written[n..n + |out|]
    case _ => true
  }

  ghost predicate Inv(r: Ring, h: History) {
    && Indices(r, h)
    && h.taken <= h.written
    && Cells(r, h)
    && WriterOk(r, h)
    && ReaderOk(r, h)
  }

  // ----- Cells and positions

  lemma CopyCellIsPosition(position: nat, amount: nat, i: nat, size: nat)
    requires size > 0 && i < amount < size
    ensures CopyCell(position % size, amount, i, size) == (position + i) % size
  {
    var head, q := position % size, position / size;
    assert position + i == q * size + (head + i);
    if head + i < size {
      Remainder(position + i, size, q, head + i);
    } else {
      assert position + i == (q + 1) * size + (head + i - size);
      Remainder(position + i, size, q + 1, head + i - size);
    }
  }

  /** The masked difference of two indices is the true distance of the positions behind them. */
  lemma DistanceFromIndices(x: nat, y: nat, size: nat)
    requires size > 0 && WORD % size == 0 && y <= x < y + size
    ensures MaskedDifference(x % size, y % size, size) == x - y
  {
    var a, q := x % size - y % size, x / size - y / size;
    WrapKeepsSlot(a, size);
    assert x - y == a + q * size;
    AddMultiple(a, size, q);
    Remainder(x - y, size, 0, x - y);
  }

  lemma NextIndex(position: nat, amount: nat, size: nat)
    requires 0 < size <= SIGN && WORD % size == 0 && amount < size
    ensures (position % size + amount) % WORD % size == (position + amount) % size
  {
    WrapKeepsSlot(position % size + amount, size);
    AddMultiple(position % size + amount, size, position / size);
    assert position + amount == position % size + amount + position / size * size;
  }

  // ----- Every step keeps the invariant

  lemma CopyInStep(r: Ring, h: History)
    requires Inv(r, h) && r.writer.WriteCopy? && r.writer.done < |r.writer.data|
    ensures Inv(Next(r, WriterRuns), h)
  {
    var size, w := |r.buffer|, |h.written|;
    var data, done := r.writer.data, r.writer.done;
    var r' := Next(r, WriterRuns);
    CopyCellIsPosition(w, |data|, done, size);
    var cell := (w + done) % size;
    assert r'.buffer == r.buffer[cell := data[done]];
    forall t: nat | |h.taken| <= t < w + done
      ensures t % size != cell
    {
      if t % size == cell { CloseAndCongruent(t, w + done, size); }
    }
    forall j: nat | j < done + 1
      ensures r'.buffer[(w + j) % size] == data[j]
    {
      assert j < done ==> (w + j) % size != cell;
    }
  }

  lemma PublishStep(r: Ring, h: History)
    requires Inv(r, h) && r.writer.WriteCopy? && r.writer.done == |r.writer.data|
    ensures Inv(Next(r, WriterRuns), Record(r, h, WriterRuns))
  {
    var size, w, data := |r.buffer|, |h.written|, r.writer.data;
    NextIndex(w, |data|, size);
    var r', h' := Next(r, WriterRuns), Record(r, h, WriterRuns);
    forall t: nat | |h'.taken| <= t < |h'.written|
      ensures r'.buffer[t % size] == h'.written[t]
    {
      if t >= w { assert r.buffer[(w + (t - w)) % size] == data[t - w]; }
    }
  }

  lemma CopyOutStep(r: Ring, h: History)
    requires Inv(r, h) && r.reader.ReadCopy? && |r.reader.out| < r.reader.amount
    ensures Inv(Next(r, ReaderRuns), h)
  {
    var n, out := |h.taken|, r.reader.out;
    CopyCellIsPosition(n, r.reader.amount, |out|, |r.buffer|);
    assert r.buffer[(n + |out|) % |r.buffer|] == h.written[n + |out|];
    assert h.written[n..n + |out| + 1] == h.written[n..n + |out|] + [h.written[n + |out|]];
  }

  lemma ReleaseStep(r: Ring, h: History)
    requires Inv(r, h) && r.reader.ReadCopy? && |r.reader.out| == r.reader.amount
    ensures Inv(Next(r, ReaderRuns), Record(r, h, ReaderRuns))
  {
    NextIndex(|h.taken|, r.reader.amount, |r.buffer|);
    assert h.taken == h.written[..|h.taken|];
  }

  lemma WriterTestStep(r: Ring, h: History)
    requires Inv(r, h) && r.writer.WriteLoadHead?
    ensures Inv(Next(r, WriterRuns), h)
  {
    DistanceFromIndices(|h.written|, h.seenRead, |r.buffer|);
  }

  lemma ReaderTestStep(r: Ring, h: History)
    requires Inv(r, h) && r.reader.ReadLoadHead?
    ensures Inv(Next(r, ReaderRuns), h)
  {
    DistanceFromIndices(h.seenWrite, |h.taken|, |r.buffer|);
  }

  lemma WriterInv(r: Ring, h: History)
    requires Inv(r, h) && Enabled(r, WriterRuns)
    ensures Inv(Next(r, WriterRuns), Record(r, h, WriterRuns))
  {
    match r.writer {
      case WriteLoadTail(data) =>
      case WriteLoadHead(data, tail) => WriterTestStep(r, h);
      case WriteCopy(data, head, done) => if done < |data| { CopyInStep(r, h); } else { PublishStep(r, h); }
    }
  }

  lemma ReaderInv(r: Ring, h: History)
    requires Inv(r, h) && Enabled(r, ReaderRuns)
    ensures Inv(Next(r, ReaderRuns), Record(r, h, ReaderRuns))
  {
    match r.reader {
      case ReadLoadTail(max) =>
      case ReadLoadHead(max, tail) => ReaderTestStep(r, h);
      case ReadCopy(head, amount, out) => if |out| < amount { CopyOutStep(r, h); } else { ReleaseStep(r, h); }
    }
  }

  /** Every action of either thread keeps the invariant. */
  lemma NextInv(r: Ring, h: History, a: Action)
    requires Inv(r, h)
    ensures Inv(Next(r, a), Record(r, h, a))
  {
    if Enabled(r, a) {
      match a {
        case WriterRuns => WriterInv(r, h);
        case ReaderRuns => ReaderInv(r, h);
        case CallWrite(_) =>
        case CallRead(_) =>
      }
    }
  }

  lemma {:induction false} RunInv(buffer: seq<byte>, actions: seq<Action>)
    requires 0 < |buffer| <= SIGN && WORD % |buffer| == 0
    ensures Inv(RunAll(Init(buffer), actions), RecordAll(Init(buffer), actions))
  {
    if actions != [] {
      var before := actions[..|actions| - 1];
      RunInv(buffer, before);
      NextInv(RunAll(Init(buffer), before), RecordAll(Init(buffer), before), actions[|actions| - 1]);
    }
  }

  // ----- What the two threads may rely on

  /** In every run the bytes read are a prefix of the bytes written, what lies between is in the buffer
      in order, and at most size - 1 bytes are in flight. */
  lemma ReadsArePrefixOfWrites(buffer: seq<byte>, actions: seq<Action>)
    requires 0 < |buffer| <= SIGN && WORD % |buffer| == 0
    ensures var r, h := RunAll(Init(buffer), actions), RecordAll(Init(buffer), actions);
      && h.taken <= h.written
      && |h.written| - |h.taken| <= |buffer| - 1
      && forall t: nat | |h.taken| <= t < |h.written| :: r.buffer[t % |buffer|] == h.written[t]
  {
    RunInv(buffer, actions);
  }

  /** The cells that the writer fills and the cells that the reader empties never overlap, whatever the
      two know of each other's progress and wherever the regions wrap. */
  lemma CopiesNeverOverlap(buffer: seq<byte>, actions: seq<Action>, i: nat, j: nat)
    requires 0 < |buffer| <= SIGN && WORD % |buffer| == 0
    ensures var r := RunAll(Init(buffer), actions);
      && r.writer.WriteCopy? && i < |r.writer.data| < |buffer| && r.writer.head < |buffer|
      && r.reader.ReadCopy? && j < r.reader.amount < |buffer| && r.reader.head < |buffer|
      ==> CopyCell(r.writer.head, |r.writer.data|, i, |buffer|) != CopyCell(r.reader.head, r.reader.amount, j, |buffer|)
  {
    RunInv(buffer, actions);
    var r, h := RunAll(Init(buffer), actions), RecordAll(Init(buffer), actions);
    if r.writer.WriteCopy? && i < |r.writer.data| && r.reader.ReadCopy? && j < r.reader.amount {
      CopyCellIsPosition(|h.written|, |r.writer.data|, i, |buffer|);
      CopyCellIsPosition(|h.taken|, r.reader.amount, j, |buffer|);
      var x, y := |h.written| + i, |h.taken| + j;
      if x % |buffer| == y % |buffer| { CloseAndCongruent(x, y, |buffer|); }
    }
  }

  /** TryWrite accepts exactly the data for which there was room, leaving one cell free, when it loaded
      the reader's index; its decision never blocks on what the reader did later. */
  lemma WriteAcceptedIffRoom(r: Ring, h: History)
    requires Inv(r, h) && r.writer.WriteLoadHead?
    ensures var data := r.writer.data;
      Next(r, WriterRuns).writer ==
        if |h.written| - h.seenRead + |data| < |r.buffer| then WriteCopy(data, r.write, 0) else WriteReturned(false)
  {
    DistanceFromIndices(|h.written|, h.seenRead, |r.buffer|);
  }

  /** Read takes as much as it wants of what was published when it loaded the writer's index. */
  lemma ReadTakesWhatWasPublished(r: Ring, h: History)
    requires Inv(r, h) && r.reader.ReadLoadHead?
    ensures var available := h.seenWrite - |h.taken|;
      Next(r, ReaderRuns).reader ==
        if available == 0 then ReadReturned([])
        else ReadCopy(r.read, if r.reader.max < available then r.reader.max else available, [])
  {
    DistanceFromIndices(h.seenWrite, |h.taken|, |r.buffer|);
  }
}

/** What the buffered writer of src/webby/webby.c does with a given sequence of send results, failures
    included, and exactly when its result can be relied on. */
module WriterSpec {
  import opened Words
  import opened Sockets
  import opened ChunkedCoding

  /** What is on the socket, how the coming sends will go, and what the buffer holds. */
  datatype Pipe = Pipe(sent: seq<byte>, script: seq<int>, held: seq<byte>)
  {
    /** Everything written so far, sent or not. */
    function Out(): seq<byte> { sent + held }
  }

  datatype Result = Result(ok: bool, pipe: Pipe)

  /** `send_fully` of some bytes that are not in the buffer. */
  function Direct(p: Pipe, data: seq<byte>): Result {
    var s := SendAll(p.script, data);
    Result(s.ok, p.(sent := p.sent + data[..s.taken], script := s.script))
  }

  function Flushed(p: Pipe): Result {
    var s := SendAll(p.script, p.held);
    Result(s.ok, Pipe(p.sent + p.held[..s.taken], s.script, if s.ok then [] else p.held))
  }

  /** The loop of `wb_push` with a buffer of this size. */
  function PushedAll(p: Pipe, max: nat, bytes: seq<byte>): Result
    requires |p.held| <= max
    decreases |bytes|, |p.held|
  {
    if bytes == [] then Result(true, p)
    else
      var n := Min(|bytes|, max - |p.held|);
      var filled, rest := p.(held := p.held + bytes[..n]), bytes[n..];
      if |filled.held| < max then PushedAll(filled, max, rest)
      else
        var f := Flushed(filled);
        if !f.ok then f
        else if |rest| >= max then Direct(f.pipe, rest)
        else PushedAll(f.pipe, max, rest)
  }

  function Pushed(p: Pipe, max: nat, bytes: seq<byte>): (r: Result)
    requires |p.held| <= max
  {
    if bytes == [] then Flushed(p) else PushedAll(p, max, bytes)
  }

  /** One turn of the loop. */
  lemma PushStep(p: Pipe, max: nat, bytes: seq<byte>)
    requires |p.held| <= max
    ensures bytes == [] ==> PushedAll(p, max, bytes) == Result(true, p)
    ensures bytes != [] ==>
      var n := Min(|bytes|, max - |p.held|);
      var filled, rest := p.(held := p.held + bytes[..n]), bytes[n..];
      PushedAll(p, max, bytes) ==
        if |filled.held| < max then PushedAll(filled, max, rest)
        else
          var f := Flushed(filled);
          if !f.ok then f
          else if |rest| >= max then Direct(f.pipe, rest)
          else PushedAll(f.pipe, max, rest)
  {
  }

  function SizeLine(n: nat): (line: seq<byte>)
    ensures |line| >= 3
  {
    Hex(n) + CRLF
  }

  // ----- Pushes

  lemma {:induction false} HeldFits(p: Pipe, max: nat, bytes: seq<byte>)
    requires |p.held| <= max
    ensures |PushedAll(p, max, bytes).pipe.held| <= max
    decreases |bytes|, |p.held|
  {
    if bytes != [] {
      var n := Min(|bytes|, max - |p.held|);
      var filled, rest := p.(held := p.held + bytes[..n]), bytes[n..];
      if |filled.held| < max {
        HeldFits(filled, max, rest);
      } else {
        var f := Flushed(filled);
        if f.ok && |rest| < max {
          HeldFits(f.pipe, max, rest);
        }
      }
    }
  }

  /** A push that succeeds conserves bytes and leaves room in the buffer. */
  lemma {:induction false} SuccessConserves(p: Pipe, max: nat, bytes: seq<byte>)
    requires |p.held| <= max && bytes != [] && PushedAll(p, max, bytes).ok
    ensures var r := PushedAll(p, max, bytes);
      r.pipe.Out() == p.Out() + bytes && (|r.pipe.held| < max || max == 0)
    decreases |bytes|, |p.held|
  {
    hide SendAll;
    var n := Min(|bytes|, max - |p.held|);
    var filled, rest := p.(held := p.held + bytes[..n]), bytes[n..];
    assert p.Out() + bytes == filled.Out() + rest;
    if |filled.held| < max {
      assert rest == [];
    } else {
      FlushKeeps(filled);
      var f := Flushed(filled);
      if |rest| >= max {
        DirectExtends(f.pipe, rest);
      } else if rest != [] {
        SuccessConserves(f.pipe, max, rest);
      }
    }
  }

  lemma FlushKeeps(p: Pipe)
    ensures var f := Flushed(p);
      && p.sent <= f.pipe.sent <= p.Out()
      && (f.ok ==> f.pipe.sent == f.pipe.Out() == p.Out() && f.pipe.held == [])
  {
  }

  lemma DirectExtends(p: Pipe, data: seq<byte>)
    requires p.held == []
    ensures var d := Direct(p, data);
      p.sent <= d.pipe.sent <= p.Out() + data && (d.ok ==> d.pipe.Out() == p.Out() + data) && d.pipe.held == []
  {
  }

  /** Whether it succeeds or not, what a push sends is a beginning of what should go out. */
  lemma {:induction false} SentInOrder(p: Pipe, max: nat, bytes: seq<byte>)
    requires |p.held| <= max
    ensures p.sent <= PushedAll(p, max, bytes).pipe.sent <= p.Out() + bytes
    decreases |bytes|, |p.held|
  {
    hide SendAll;
    if bytes != [] {
      var n := Min(|bytes|, max - |p.held|);
      var filled, rest := p.(held := p.held + bytes[..n]), bytes[n..];
      assert p.Out() + bytes == filled.Out() + rest;
      if |filled.held| < max {
        SentInOrder(filled, max, rest);
      } else {
        FlushKeeps(filled);
        var f := Flushed(filled);
        if f.ok && |rest| >= max {
          DirectExtends(f.pipe, rest);
        } else if f.ok {
          SentInOrder(f.pipe, max, rest);
        }
      }
    }
  }

  /** With a socket that does not fail every push succeeds. */
  lemma {:induction false} HealthySucceeds(p: Pipe, max: nat, bytes: seq<byte>)
    requires |p.held| <= max && Positive(p.script)
    ensures var r := PushedAll(p, max, bytes);
      r.ok && Positive(r.pipe.script) && (p.script == [] ==> r.pipe.script == [])
    decreases |bytes|, |p.held|
  {
    hide Positive;
    if bytes != [] {
      var n := Min(|bytes|, max - |p.held|);
      var filled, rest := p.(held := p.held + bytes[..n]), bytes[n..];
      if |filled.held| < max {
        HealthySucceeds(filled, max, rest);
      } else if |rest| < max {
        HealthySucceeds(Flushed(filled).pipe, max, rest);
      }
    }
  }

  /** What the caller of a push may rely on. */
  lemma PushContract(p: Pipe, max: nat, bytes: seq<byte>)
    requires |p.held| <= max
    ensures var r := Pushed(p, max, bytes);
      && |r.pipe.held| <= max
      && (r.ok ==> r.pipe.Out() == p.Out() + bytes && (|r.pipe.held| < max || max == 0))
      && (r.ok && bytes == [] ==> r.pipe.held == [])
      && p.sent <= r.pipe.sent <= p.Out() + bytes
      && (Positive(p.script) ==> r.ok && Positive(r.pipe.script))
      && (p.script == [] ==> r.pipe.script == [])
  {
    hide PushedAll, Flushed, Positive;
    if bytes == [] {
      FlushKeeps(p);
      FlushContract(p);
    } else {
      HeldFits(p, max, bytes);
      SentInOrder(p, max, bytes);
      if PushedAll(p, max, bytes).ok { SuccessConserves(p, max, bytes); }
      if Positive(p.script) { HealthySucceeds(p, max, bytes); }
      EmptyScript(p.script);
    }
  }

  lemma FlushContract(p: Pipe)
    ensures var f := Flushed(p);
      && |f.pipe.held| <= |p.held|
      && (Positive(p.script) ==> f.ok && Positive(f.pipe.script))
      && (p.script == [] ==> f.pipe.script == [])
  {
  }

  lemma EmptyScript(script: seq<int>)
    ensures script == [] ==> Positive(script)
  {
  }

  /** A push that does not fill the buffer only extends it. */
  lemma QuietPush(p: Pipe, max: nat, bytes: seq<byte>)
    requires bytes != [] && |p.held| + |bytes| < max
    ensures Pushed(p, max, bytes) == Result(true, p.(held := p.held + bytes))
  {
    assert bytes[..|bytes|] == bytes && bytes[|bytes|..] == [];
    assert PushedAll(p.(held := p.held + bytes), max, []) == Result(true, p.(held := p.held + bytes));
  }

  /** A push that overfills the buffer while the next send fails: what did not fit is lost. */
  lemma LostPush(p: Pipe, max: nat, bytes: seq<byte>)
    requires bytes != [] && |p.held| <= max < |p.held| + |bytes| && p.script == [0]
    ensures var r := Pushed(p, max, bytes);
      !r.ok && r.pipe.script == [] && |r.pipe.held| <= max && |r.pipe.Out()| < |p.Out()| + |bytes|
  {
  }

  /** A push that just fills the buffer while the next send takes one byte and then fails: that byte will
      be sent again. */
  lemma RepeatedPush(p: Pipe, max: nat, bytes: seq<byte>)
    requires |p.held| + |bytes| >= 2 && p.script == [1, 0]
    requires if bytes == [] then |p.held| <= max else |p.held| + |bytes| == max
    ensures var r := Pushed(p, max, bytes);
      !r.ok && r.pipe.script == [] && |r.pipe.held| <= max && |r.pipe.Out()| == |p.Out()| + |bytes| + 1
  {
    var held := p.held + bytes;
    OneByteTaken(held);
    if bytes != [] {
      assert bytes[..|bytes|] == bytes;
    } else {
      assert held == p.held;
    }
  }

  lemma OneByteTaken(data: seq<byte>)
    requires |data| >= 2
    ensures SendAll([1, 0], data) == Sending(false, 1, [])
  {
    assert [1, 0][1..] == [0] && [0][1..] == [];
    SendOne([1, 0], data);
    SendOne([0], data[1..]);
  }

  // ----- A chunk in three pushes

  datatype Writing = Writing(first: Result, second: Result, third: Result)
  {
    /** The result that WebbyWrite returns. */
    predicate Success() { third.ok }
  }

  function ChunkWritten(p: Pipe, max: nat, bytes: seq<byte>): Writing
    requires |p.held| <= max
  {
    var r1 := Pushed(p, max, SizeLine(|bytes|));
    PushContract(p, max, SizeLine(|bytes|));
    var r2 := Pushed(r1.pipe, max, bytes);
    PushContract(r1.pipe, max, bytes);
    Writing(r1, r2, Pushed(r2.pipe, max, CRLF))
  }

  /** The call reports success and the output has grown by anything but the chunk. */
  predicate FalseSuccess(p: Pipe, max: nat, bytes: seq<byte>)
    requires |p.held| <= max
  {
    var w := ChunkWritten(p, max, bytes);
    w.Success() && w.third.pipe.Out() != p.Out() + Chunk(bytes)
  }

  /** The size line and the data fit the buffer with room to spare, so that neither push sends. */
  predicate FitsBuffer(held: nat, max: nat, bytes: seq<byte>) {
    bytes != [] && held + |SizeLine(|bytes|)| + |bytes| < max
  }

  lemma FittingChunkIsWhole(p: Pipe, max: nat, bytes: seq<byte>)
    requires |p.held| <= max && FitsBuffer(|p.held|, max, bytes)
    ensures !FalseSuccess(p, max, bytes)
  {
    hide Pushed, Hex;
    var line := SizeLine(|bytes|);
    QuietPush(p, max, line);
    QuietPush(p.(held := p.held + line), max, bytes);
    var filled := p.(held := p.held + line + bytes);
    PushContract(filled, max, CRLF);
    assert filled.Out() + CRLF == p.Out() + Chunk(bytes);
  }

  /** A script on which a chunk that does not fit is broken and the call succeeds all the same. */
  lemma BrokenChunk(sent: seq<byte>, held: seq<byte>, max: nat, bytes: seq<byte>) returns (script: seq<int>)
    requires |held| <= max && !FitsBuffer(|held|, max, bytes)
    ensures FalseSuccess(Pipe(sent, script, held), max, bytes)
  {
    hide Pushed, Hex;
    var line := SizeLine(|bytes|);
    var first := |held| + |line|;
    script := if (first < max && first + |bytes| > max) || first > max then [0] else [1, 0];
    var p := Pipe(sent, script, held);
    if first >= max {
      FailingPush(p, max, line);
      var p1 := Pushed(p, max, line).pipe;
      PushContract(p1, max, bytes);
      PushContract(Pushed(p1, max, bytes).pipe, max, CRLF);
    } else {
      QuietPush(p, max, line);
      var p1 := p.(held := held + line);
      FailingPush(p1, max, bytes);
      PushContract(Pushed(p1, max, bytes).pipe, max, CRLF);
    }
    assert |p.Out() + Chunk(bytes)| == |p.Out()| + |line| + |bytes| + 2;
  }

  /** One such call: a buffer of one byte is full, the first send fails and the others succeed. The size
      line is lost, the byte, the data and their line end go out, and the result is that of a success. */
  lemma SizeLineLost()
    ensures var w := ChunkWritten(Pipe([], [0], [65]), 1, [66]);
      w.Success() && w.third.pipe == Pipe([65, 66, 13, 10], [], [])
    ensures Chunk([66]) == [49, 13, 10, 66, 13, 10]
  {
    hide Pushed;
    assert Hex(1) == [49];
    assert SizeLine(|[66]|) == [49, 13, 10] && Chunk([66]) == [49, 13, 10] + [66] + CRLF;
    FullBufferFails([49, 13, 10]);
    FullBufferSends([], 65, [66]);
    EmptyBufferSends([65, 66], CRLF);
    assert [] + [65] + [66] == [65, 66] && [65, 66] + CRLF == [65, 66, 13, 10];
  }

  lemma FullBufferFails(bytes: seq<byte>)
    requires bytes != []
    ensures Pushed(Pipe([], [0], [65]), 1, bytes) == Result(false, Pipe([], [], [65]))
  {
    assert bytes[..0] == [] && [65] + [] == [65];
    assert [65][..0] == [] && [0][1..] == [];
  }

  lemma FullBufferSends(sent: seq<byte>, b: byte, bytes: seq<byte>)
    requires bytes != []
    ensures Pushed(Pipe(sent, [], [b]), 1, bytes) == Result(true, Pipe(sent + [b] + bytes, [], []))
  {
    hide SendAll;
    assert bytes[..0] == [] && [b] + [] == [b] && bytes[0..] == bytes;
    assert [b][..1] == [b] && bytes[..|bytes|] == bytes;
  }

  lemma EmptyBufferSends(sent: seq<byte>, bytes: seq<byte>)
    requires |bytes| >= 2
    ensures Pushed(Pipe(sent, [], []), 1, bytes) == Result(true, Pipe(sent + bytes, [], []))
  {
    hide SendAll;
    var rest := bytes[1..];
    assert bytes[..1] == [bytes[0]] && [] + bytes[..1] == bytes[..1];
    assert bytes[..1][..1] == bytes[..1] && rest[..|rest|] == rest;
    assert sent + bytes[..1] + rest == sent + bytes;
  }

  /** A push that sends, with the script that breaks it. */
  lemma FailingPush(p: Pipe, max: nat, bytes: seq<byte>)
    requires |p.held| <= max && |p.held| + |bytes| >= 2
    requires bytes == [] || |p.held| + |bytes| >= max
    requires p.script == if bytes != [] && |p.held| + |bytes| > max then [0] else [1, 0]
    ensures var r := Pushed(p, max, bytes);
      !r.ok && r.pipe.script == [] && |r.pipe.held| <= max && |r.pipe.Out()| != |p.Out()| + |bytes|
  {
    hide Pushed;
    if bytes != [] && |p.held| + |bytes| > max {
      LostPush(p, max, bytes);
    } else {
      RepeatedPush(p, max, bytes);
    }
  }

  /** A result of 0 guarantees a whole chunk, however the sends go, if and only if the chunk is not empty
      and its size line and data leave room in the buffer. */
  lemma SuccessMeansWholeIff(held: seq<byte>, max: nat, bytes: seq<byte>)
    requires |held| <= max
    ensures (forall sent, script :: !FalseSuccess(Pipe(sent, script, held), max, bytes))
            <==> FitsBuffer(|held|, max, bytes)
  {
    hide FalseSuccess, FitsBuffer;
    if FitsBuffer(|held|, max, bytes) {
      forall sent, script
        ensures !FalseSuccess(Pipe(sent, script, held), max, bytes)
      {
        FittingChunkIsWhole(Pipe(sent, script, held), max, bytes);
      }
    } else {
      var script := BrokenChunk([], held, max, bytes);
      assert FalseSuccess(Pipe([], script, held), max, bytes);
    }
  }
}

/** The buffered writing side of a connection (src/webby/webby.c). */
module BufferedWriter {
  import opened Options
  import opened Words
  import opened Bytes
  import opened Sockets
  import opened ChunkedCoding
  import opened WriterSpec

  class Writer {
    const socket: Socket
    /** io_buf: `data`, of which the first `used` bytes wait to be sent. */
    const data: array<byte>
    var used: nat
    /** The connection is in the state WBC_SERVE. */
    var serving: bool
    var chunked: bool

    predicate Valid()
      reads this
    {
      used <= data.Length
    }

    /** Everything written so far, sent or not. */
    function Out(): seq<byte>
      reads this, data, socket
      requires Valid()
    {
      socket.sent + data[..used]
    }

    function View(): (p: Pipe)
      reads this, data, socket
      requires Valid()
      ensures p.Out() == Out() && |p.held| == used
    {
      Pipe(socket.sent, socket.script, data[..used])
    }

    constructor (socket: Socket, max: nat, serving: bool, chunked: bool)
      ensures Valid() && Out() == socket.sent && fresh(data) && data.Length == max
      ensures this.socket == socket && this.serving == serving && this.chunked == chunked && used == 0
    {
      this.socket, this.serving, this.chunked := socket, serving, chunked;
      data := new byte[max];
      used := 0;
    }

    /** `wb_flush`: after a failure the buffer is kept as it was. */
    method Flush() returns (r: int)
      requires Valid()
      modifies this`used, socket
      ensures Valid() && r in {0, 1}
      ensures Result(r == 0, View()) == Flushed(old(View()))
      ensures r == 0 ==> used == 0 && socket.sent == Out() == old(Out())
      ensures r == 1 ==> used == old(used) && socket.sent <= old(Out())
      ensures old(socket.sent) <= socket.sent
      ensures old(socket.Healthy()) ==> r == 0 && socket.Healthy()
    {
      if used == 0 {
        NothingToSend(socket.script, data[..used]);
      }
      if used > 0 {
        var failed := socket.SendFully(data[..used]);
        if failed != 0 {
          return 1;
        }
      }
      assert data[..0] == [];
      used := 0;
      return 0;
    }

    /** `wb_push`. Nothing is written unless the connection serves; writing nothing flushes. On success
        the bytes are behind all earlier ones, and the buffer is not full; on failure what has gone out is
        still a beginning of what should have. */
    method Push(bytes: seq<byte>) returns (r: int)
      requires Valid()
      modifies this`used, data, socket
      ensures Valid() && r in {0, 1}
      ensures !serving ==> r == 1 && View() == old(View())
      ensures serving ==> Result(r == 0, View()) == Pushed(old(View()), data.Length, bytes)
      ensures r == 0 ==> Out() == old(Out()) + bytes && (used < data.Length || data.Length == 0)
      ensures r == 0 && bytes == [] ==> used == 0
      ensures socket.sent <= old(Out()) + bytes && old(socket.sent) <= socket.sent
      ensures old(socket.Healthy()) ==> (r == 0 <==> serving) && socket.Healthy()
    {
      hide Flushed, PushedAll, Positive;
      if !serving {
        assert old(Out()) <= old(Out()) + bytes;
        return 1;
      }
      PushContract(View(), data.Length, bytes);
      if bytes == [] {
        r := Flush();
        return r;
      }
      r := PushAll(bytes);
    }

    /** The loop of `wb_push`. */
    method PushAll(bytes: seq<byte>) returns (r: int)
      requires Valid() && serving && bytes != []
      modifies this`used, data, socket
      ensures Valid() && r in {0, 1}
      ensures Result(r == 0, View()) == PushedAll(old(View()), data.Length, bytes)
    {
      hide Writer.Out, Writer.View, Flushed, PushedAll, Direct;
      assert bytes[0..] == bytes;
      var done := 0;
      while done < |bytes|
        invariant Valid() && done <= |bytes|
        invariant PushedAll(View(), data.Length, bytes[done..]) == PushedAll(old(View()), data.Length, bytes)
        decreases |bytes| - done, used
      {
        var space := data.Length - used;
        var copy := if |bytes| - done < space then |bytes| - done else space;
        PushStep(View(), data.Length, bytes[done..]);
        assert bytes[done..][..copy] == bytes[done..done + copy] && bytes[done..][copy..] == bytes[done + copy..];
        CopyIn(bytes[done..done + copy]);
        done := done + copy;
        if used == data.Length {
          var failed := Flush();
          if failed != 0 {
            return 1;
          }
          if |bytes| - done >= data.Length {
            r := SendDirect(bytes[done..]);
            return r;
          }
        }
      }
      assert bytes[done..] == [];
      PushStep(View(), data.Length, []);
      return 0;
    }

    /** The part that the buffer could not hold anyway. */
    method SendDirect(rest: seq<byte>) returns (r: int)
      requires Valid()
      modifies socket
      ensures r in {0, 1} && Result(r == 0, View()) == Direct(old(View()), rest)
    {
      r := socket.SendFully(rest);
    }

    /** memcpy behind what the buffer holds. */
    method CopyIn(chunk: seq<byte>)
      requires used + |chunk| <= data.Length
      modifies this`used, data
      ensures Valid() && used == old(used) + |chunk|
      ensures View() == old(View()).(held := old(View()).held + chunk)
    {
      CopyInto(data, used, chunk);
      used := used + |chunk|;
    }

    /** WebbyWrite on an HTTP connection. The result is that of the last push only; `ok` says that all of
        them succeeded. A result of 0 can be trusted when the chunk leaves room in the buffer. */
    method Write(bytes: seq<byte>) returns (r: int, ghost ok: bool)
      requires Valid() && |bytes| < SIGN
      modifies this`used, data, socket
      ensures Valid() && (ok ==> r == 0) && old(socket.sent) <= socket.sent
      ensures !serving ==> r != 0 && View() == old(View())
      ensures serving && chunked ==> Result(r == 0, View()) == ChunkWritten(old(View()), data.Length, bytes).third
      ensures serving && !chunked ==> Result(r == 0, View()) == Pushed(old(View()), data.Length, bytes)
      ensures chunked && FitsBuffer(old(used), data.Length, bytes) && r == 0 ==> Out() == old(Out()) + Chunk(bytes)
      ensures ok ==> Out() == old(Out()) + if chunked then Chunk(bytes) else bytes
      ensures old(socket.Healthy()) ==> (ok <==> serving) && socket.Healthy()
    {
      hide Socket.Healthy, Writer.Out, Writer.View, Hex, Pushed;
      if serving && chunked && FitsBuffer(used, data.Length, bytes) {
        FittingChunkIsWhole(View(), data.Length, bytes);
      }
      if chunked {
        ghost var r1, r2;
        r := Push(SizeLine(|bytes|));
        r1 := r;
        r := Push(bytes);
        r2 := r;
        r := Push(CRLF);
        ok := r1 == 0 && r2 == 0 && r == 0;
        Four(old(Out()), Hex(|bytes|), CRLF, bytes);
      } else {
        r := Push(bytes);
        ok := r == 0;
      }
    }

    /** WebbyEndResponse: the chunk of size zero, and whatever is left in the buffer. */
    method EndResponse() returns (ghost ok: bool)
      requires Valid()
      modifies this`used, this`chunked, data, socket
      ensures Valid() && !chunked
      ensures ok ==> used == 0 && socket.sent == Out() == old(Out()) + if old(chunked) then Chunks([]) else []
      ensures old(socket.Healthy()) ==> (ok <==> serving) && socket.Healthy()
    {
      hide Socket.Healthy, Chunks;
      ok := true;
      Nothing(Out());
      if chunked {
        HexZero();
        var r := Push([48, 13, 10, 13, 10]);
        ok := r == 0;
        chunked := false;
      }
      Nothing(Out());
      var r := Push([]);
      ok := ok && r == 0;
      if ok {
        AllSent();
      }
    }

    lemma AllSent()
      requires Valid()
      ensures used == 0 ==> Out() == socket.sent
    {
      assert data[..0] == [];
    }

    /** A whole response. When every send succeeds, everything written is on the wire and nothing is left in
        the buffer; a chunked response decodes to the writes if and only if none of them is empty. */
    method Respond(writes: seq<seq<byte>>)
      requires Valid() && serving && socket.Healthy()
      requires forall i | 0 <= i < |writes| :: |writes[i]| < SIGN
      modifies this`used, this`chunked, data, socket
      ensures Valid() && used == 0
      ensures old(Out()) <= socket.sent
      ensures var body := socket.sent[|old(Out())|..];
        if old(chunked) then
          body == Chunks(writes)
          && (Dechunk(body) == Some((Concat(writes), [])) <==> forall i | 0 <= i < |writes| :: writes[i] != [])
        else body == Concat(writes)
    {
      hide Socket.Healthy, Writer.Out, Dechunk, Chunk, Chunks;
      Nothing(Out());
      NothingWritten(chunked);
      for i := 0 to |writes|
        invariant Valid() && socket.Healthy() && chunked == old(chunked)
        invariant Out() == old(Out()) + Body(writes[..i], chunked)
      {
        BodySnoc(writes, i, chunked);
        Assoc(old(Out()), Body(writes[..i], chunked), if chunked then Chunk(writes[i]) else writes[i]);
        var _, _ := Write(writes[i]);
      }
      assert writes[..|writes|] == writes;
      ghost var ok := EndResponse();
      Assoc(old(Out()), Body(writes, old(chunked)), if old(chunked) then Chunks([]) else []);
      BodyEnd(writes);
      Nothing(Chunks(writes));
      Nothing(Body(writes, false));
      DechunksIffNoneEmpty(writes, []);
    }
  }

  /** The writes of a response without its end. */
  function Body(writes: seq<seq<byte>>, chunked: bool): seq<byte> {
    if writes == [] then []
    else Body(writes[..|writes| - 1], chunked) +
         if chunked then Chunk(writes[|writes| - 1]) else writes[|writes| - 1]
  }

  lemma NothingWritten(chunked: bool)
    ensures Body([], chunked) == []
  {
  }

  lemma BodySnoc(writes: seq<seq<byte>>, i: nat, chunked: bool)
    requires i < |writes|
    ensures Body(writes[..i + 1], chunked) ==
            Body(writes[..i], chunked) + if chunked then Chunk(writes[i]) else writes[i]
  {
    hide Chunk;
    assert writes[..i + 1][..i] == writes[..i];
  }

  lemma {:induction false} BodyThen(writes: seq<seq<byte>>, more: seq<seq<byte>>)
    ensures Body(writes, true) + Chunks(more) == Chunks(writes + more)
    decreases |writes|
  {
    hide Chunk;
    if writes == [] {
      assert writes + more == more && [] + Chunks(more) == Chunks(more);
    } else {
      var n := |writes| - 1;
      BodyThen(writes[..n], [writes[n]] + more);
      assert ([writes[n]] + more)[1..] == more;
      assert writes[..n] + ([writes[n]] + more) == writes + more;
      Assoc(Body(writes[..n], true), Chunk(writes[n]), Chunks(more));
    }
  }

  lemma {:induction false} BodyConcat(writes: seq<seq<byte>>)
    ensures Body(writes, false) == Concat(writes)
  {
    if writes != [] {
      var n := |writes| - 1;
      BodyConcat(writes[..n]);
      ConcatSnoc(writes[..n], writes[n]);
      assert writes[..n] + [writes[n]] == writes;
    }
  }

  lemma BodyEnd(writes: seq<seq<byte>>)
    ensures Body(writes, true) + Chunks([]) == Chunks(writes)
    ensures Body(writes, false) == Concat(writes)
  {
    hide Chunks;
    BodyThen(writes, []);
    BodyConcat(writes);
    assert writes + [] == writes;
  }

  lemma HexZero()
    ensures Chunks([]) == [48, 13, 10, 13, 10]
  {
    assert Hex(0) == [48];
  }

  lemma Nothing(out: seq<byte>)
    ensures out + [] == out
  {
  }

  lemma Assoc(a: seq<byte>, b: seq<byte>, c: seq<byte>)
    ensures a + b + c == a + (b + c)
  {
  }

  lemma Four(out: seq<byte>, hex: seq<byte>, crlf: seq<byte>, bytes: seq<byte>)
    ensures out + (hex + crlf) + bytes + crlf == out + (hex + crlf + bytes + crlf)
  {
  }
}

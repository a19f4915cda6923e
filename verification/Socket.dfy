/** A stream socket as Webby uses it: every send takes some of the bytes it is given, or fails. */
module Sockets {
  import opened Words

  /** How many of n bytes the next send or receive takes. For a send zero or less is a failure, for a receive
      less than zero. */
  function Taken(script: seq<int>, n: nat): int {
    if script == [] then n else if script[0] < n then script[0] else n
  }

  function Later(script: seq<int>): seq<int> {
    if script == [] then [] else script[1..]
  }

  /** No send will fail. */
  predicate Positive(script: seq<int>) {
    forall i | 0 <= i < |script| :: script[i] > 0
  }

  datatype Sending = Sending(ok: bool, taken: nat, script: seq<int>)

  /** Sending all of some bytes: how far it gets, and what remains of the script. */
  function SendAll(script: seq<int>, data: seq<byte>): (s: Sending)
    ensures s.taken <= |data| && (s.ok <==> s.taken == |data|)
    ensures Positive(script) ==> s.ok && Positive(s.script)
    ensures script == [] ==> s.script == []
    decreases |data|
  {
    if data == [] then Sending(true, 0, script)
    else
      var n := Taken(script, |data|);
      if n <= 0 then Sending(false, 0, Later(script))
      else
        var s := SendAll(Later(script), data[n..]);
        Sending(s.ok, n + s.taken, s.script)
  }

  lemma SendOne(script: seq<int>, data: seq<byte>)
    requires data != []
    ensures var n := Taken(script, |data|);
      SendAll(script, data) ==
        if n <= 0 then Sending(false, 0, Later(script))
        else
          var s := SendAll(Later(script), data[n..]);
          Sending(s.ok, n + s.taken, s.script)
  {
  }

  class Socket {
    /** How many bytes the coming sends will take; zero or less is a failure. Beyond the list the
        socket takes everything. */
    var script: seq<int>
    /** Everything the peer receives. */
    var sent: seq<byte>

    /** No send will ever fail. */
    predicate Healthy()
      reads this
    {
      Positive(script)
    }

    constructor (script: seq<int>)
      ensures this.script == script && sent == []
    {
      this.script := script;
      sent := [];
    }

    method Send(data: seq<byte>) returns (n: int)
      requires data != []
      modifies this
      ensures n <= |data|
      ensures sent == if n > 0 then old(sent) + data[..n] else old(sent)
      ensures n == Taken(old(script), |data|) && script == Later(old(script))
      ensures old(Healthy()) ==> n > 0 && Healthy()
    {
      n := |data|;
      if script != [] {
        n := if script[0] < n then script[0] else n;
        script := script[1..];
      }
      if n > 0 {
        sent := sent + data[..n];
      }
    }

    /** `send_fully`: 0 when the whole buffer is out, 1 when a send failed on the way. */
    method SendFully(buffer: seq<byte>) returns (r: int)
      modifies this
      ensures r == 0 || r == 1
      ensures var s := SendAll(old(script), buffer);
        (r == 0 <==> s.ok) && sent == old(sent) + buffer[..s.taken] && script == s.script
      ensures r == 0 ==> sent == old(sent) + buffer
      ensures r == 1 ==> exists n | 0 <= n < |buffer| :: sent == old(sent) + buffer[..n]
      ensures old(Healthy()) ==> r == 0 && Healthy()
    {
      hide SendAll, Taken, Later, Positive;
      var done := 0;
      ghost var all := SendAll(script, buffer);
      assert buffer[..0] == [] && buffer[0..] == buffer;
      while done < |buffer|
        invariant done <= |buffer| && sent == old(sent) + buffer[..done]
        invariant var s := SendAll(script, buffer[done..]); all == Sending(s.ok, done + s.taken, s.script)
      {
        SendOne(script, buffer[done..]);
        var err := Send(buffer[done..]);
        if err <= 0 {
          return 1;
        }
        assert buffer[..done] + buffer[done..][..err] == buffer[..done + err];
        assert buffer[done..][err..] == buffer[done + err..];
        done := done + err;
      }
      assert buffer[..done] == buffer;
      NothingToSend(script, buffer[done..]);
      return 0;
    }
  }

  lemma NothingToSend(script: seq<int>, data: seq<byte>)
    ensures data == [] ==> SendAll(script, data) == Sending(true, 0, script)
  {
  }
}

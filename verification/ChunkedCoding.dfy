/** Chunked transfer coding as section 4.1 of RFC 7230 defines it, and what WebbyWrite and
    WebbyEndResponse make of a list of writes (src/webby/webby.c). */
module ChunkedCoding {
  import opened Options
  import opened Words
  import opened Bytes
  import opened UrlDecode

  const CRLF: seq<byte> := [13, 10]

  /** `%x`. */
  function Hex(n: nat): (h: seq<byte>)
    ensures |h| > 0
  {
    if n < 16 then [Digit(n, false)] else Hex(n / 16) + [Digit(n % 16, false)]
  }

  function Chunk(data: seq<byte>): seq<byte> {
    Hex(|data|) + CRLF + data + CRLF
  }

  /** What a response with these writes puts out, up to its end. */
  function Chunks(writes: seq<seq<byte>>): seq<byte> {
    if writes == [] then Hex(0) + CRLF + CRLF else Chunk(writes[0]) + Chunks(writes[1..])
  }

  /** The chunks of "hello" and of 26 bytes. */
  lemma KnownChunks(data: seq<byte>)
    requires |data| == 26
    ensures Chunk([0x68, 0x65, 0x6c, 0x6c, 0x6f]) == [0x35, 13, 10] + [0x68, 0x65, 0x6c, 0x6c, 0x6f] + [13, 10]
    ensures Chunk(data) == [0x31, 0x61, 13, 10] + data + [13, 10]
    ensures Chunks([]) == [0x30, 13, 10, 13, 10]
  {
    assert Hex(26) == Hex(1) + [0x61];
  }

  // ----- The decoder

  function HexDigits(s: seq<byte>): (n: nat)
    ensures n <= |s| && forall i | 0 <= i < n :: IsHex(s[i])
  {
    if s == [] || !IsHex(s[0]) then 0 else 1 + HexDigits(s[1..])
  }

  function HexValue(digits: seq<byte>): nat
    requires forall i | 0 <= i < |digits| :: IsHex(digits[i])
  {
    if digits == [] then 0 else HexValue(digits[..|digits| - 1]) * 16 + HexToInt(digits[|digits| - 1])
  }

  /** The size at the start of a chunk, and what follows its line. */
  function Size(s: seq<byte>): (r: Option<(nat, seq<byte>)>)
    ensures r.Some? ==> |r.value.1| < |s|
  {
    var n := HexDigits(s);
    if n == 0 || !(CRLF <= s[n..]) then None else Some((HexValue(s[..n]), s[n + 2..]))
  }

  /** The content up to the chunk of size zero, and what follows; chunk extensions and trailers are not
      used here. */
  function Dechunk(s: seq<byte>): Option<(seq<byte>, seq<byte>)>
    decreases |s|
  {
    match Size(s)
    case None => None
    case Some((n, body)) =>
      if |body| < n || !(CRLF <= body[n..]) then None
      else if n == 0 then Some(([], body[2..]))
      else
        match Dechunk(body[n + 2..])
        case None => None
        case Some((content, rest)) => Some((body[..n] + content, rest))
  }

  lemma {:induction false} HexRoundTrip(n: nat)
    ensures forall i | 0 <= i < |Hex(n)| :: IsHex(Hex(n)[i])
    ensures HexValue(Hex(n)) == n
  {
    DigitRoundTrip(n % 16, false);
    if n >= 16 {
      HexRoundTrip(n / 16);
      assert Hex(n)[..|Hex(n)| - 1] == Hex(n / 16);
    } else {
      assert Hex(n)[..0] == [];
    }
  }

  lemma {:induction false} DigitsEnd(digits: seq<byte>, rest: seq<byte>)
    requires forall i | 0 <= i < |digits| :: IsHex(digits[i])
    requires rest != [] && !IsHex(rest[0])
    ensures HexDigits(digits + rest) == |digits|
  {
    if digits == [] {
      assert digits + rest == rest;
    } else {
      DigitsEnd(digits[1..], rest);
      assert (digits + rest)[1..] == digits[1..] + rest;
    }
  }

  lemma SizeReads(n: nat, rest: seq<byte>)
    ensures Size(Hex(n) + CRLF + rest) == Some((n, rest))
  {
    var s, h := Hex(n) + CRLF + rest, Hex(n);
    HexRoundTrip(n);
    DigitsEnd(h, CRLF + rest);
    assert s == h + (CRLF + rest);
    assert s[..|h|] == h && s[|h|..] == CRLF + rest && s[|h| + 2..] == rest;
  }

  lemma ChunkReads(data: seq<byte>, rest: seq<byte>)
    ensures Dechunk(Chunk(data) + rest) ==
      if data == [] then Some(([], rest))
      else match Dechunk(rest) case None => None case Some((content, after)) => Some((data + content, after))
  {
    hide Size, Hex;
    var s, body := Chunk(data) + rest, data + CRLF + rest;
    assert s == Hex(|data|) + CRLF + body;
    SizeReads(|data|, body);
    assert body[|data|..] == CRLF + rest && body[|data| + 2..] == rest && body[..|data|] == data;
  }

  /** The writes before the first empty one. */
  function BeforeEmpty(writes: seq<seq<byte>>): (n: nat)
    ensures n <= |writes|
    ensures forall i | 0 <= i < n :: writes[i] != []
    ensures n < |writes| ==> writes[n] == []
  {
    if writes == [] || writes[0] == [] then 0 else 1 + BeforeEmpty(writes[1..])
  }

  /** What a decoder makes of any list of writes: an empty write is taken for the end. */
  lemma {:induction false} DechunksUpToEmpty(writes: seq<seq<byte>>, after: seq<byte>)
    ensures var n := BeforeEmpty(writes);
      var rest := if n < |writes| then Chunks(writes[n + 1..]) else [];
      Dechunk(Chunks(writes) + after) == Some((Concat(writes[..n]), rest + after))
    decreases |writes|
  {
    hide Dechunk, Hex;
    if writes == [] {
      assert Chunks(writes) == Chunk([]);
      ChunkReads([], after);
      assert [] + after == after;
    } else {
      var more := Chunks(writes[1..]) + after;
      assert Chunks(writes) + after == Chunk(writes[0]) + more;
      ChunkReads(writes[0], more);
      if writes[0] != [] {
        DechunksUpToEmpty(writes[1..], after);
        var n := BeforeEmpty(writes);
        assert writes[..n][1..] == writes[1..][..n - 1];
        assert n < |writes| ==> writes[1..][n..] == writes[n + 1..];
      } else {
        assert writes[..0] == [];
      }
    }
  }

  /** A decoder recovers exactly the writes, and takes exactly the response, if and only if none of them is
      empty. */
  lemma DechunksIffNoneEmpty(writes: seq<seq<byte>>, after: seq<byte>)
    ensures Dechunk(Chunks(writes) + after) == Some((Concat(writes), after))
            <==> forall i | 0 <= i < |writes| :: writes[i] != []
  {
    hide Dechunk;
    DechunksUpToEmpty(writes, after);
    var n := BeforeEmpty(writes);
    if n == |writes| {
      assert writes[..n] == writes && [] + after == after;
    } else {
      var more := Chunks(writes[n + 1..]);
      ChunksNotEmpty(writes[n + 1..]);
      assert |more + after| > |after|;
    }
  }

  /** Two writes, the first of them empty: the decoder stops with nothing, and the other stays behind. */
  lemma EmptyWriteEnds()
    ensures Dechunk(Chunks([[], [65]])) == Some(([], Chunks([[65]])))
  {
    hide Dechunk, Chunks;
    var writes: seq<seq<byte>> := [[], [65]];
    DechunksUpToEmpty(writes, []);
    assert BeforeEmpty(writes) == 0 && writes[..0] == [] && writes[1..] == [[65]];
    assert Chunks(writes) + [] == Chunks(writes) && Chunks([[65]]) + [] == Chunks([[65]]);
  }

  lemma ChunksNotEmpty(writes: seq<seq<byte>>)
    ensures Chunks(writes) != []
  {
  }
}

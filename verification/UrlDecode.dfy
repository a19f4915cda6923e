/** Percent decoding, in place or from one buffer to another (src/webby/webby.c). */
module UrlDecode {
  import opened Words

  const PERCENT: byte := 37
  const PLUS: byte := 43
  const SPACE: byte := 32

  predicate IsDigit(c: byte) {
    48 <= c <= 57
  }

  predicate IsHex(c: byte) {
    IsDigit(c) || 65 <= c <= 70 || 97 <= c <= 102
  }

  function ToLower(c: byte): byte {
    if 65 <= c <= 90 then c + 32 else c
  }

  /** `HEXTOI(tolower(c))`: digits count from '0', letters from 'W', which is ten before 'a'. */
  function HexToInt(c: byte): (n: nat)
    requires IsHex(c)
    ensures n < 16
  {
    if IsDigit(ToLower(c)) then ToLower(c) - 48 else ToLower(c) - 87
  }

  predicate Escape(s: seq<byte>) {
    |s| >= 3 && s[0] == PERCENT && IsHex(s[1]) && IsHex(s[2])
  }

  /** The first byte that a text stands for, and how much of the text that takes: a percent sign with two
      hexadecimal digits behind it is a byte, any other percent sign stands for itself, and in form data a
      plus sign is a space. */
  function First(s: seq<byte>, form: bool): (r: (byte, nat))
    requires s != []
    ensures 1 <= r.1 <= |s|
  {
    if Escape(s) then (HexToInt(s[1]) * 16 + HexToInt(s[2]), 3)
    else (if form && s[0] == PLUS then SPACE else s[0], 1)
  }

  /** The decoding of a text from left to right. */
  function Decoded(s: seq<byte>, form: bool): (d: seq<byte>)
    ensures |d| <= |s|
  {
    if s == [] then [] else [First(s, form).0] + Decoded(s[First(s, form).1..], form)
  }

  // ----- Encoded texts

  /** The ways to write a byte: as itself, escaped with a choice of case for each digit, or a space as a
      plus sign. */
  datatype Token = Literal(b: byte) | Escaped(b: byte, upper1: bool, upper2: bool) | Plus

  function Digit(n: nat, upper: bool): byte
    requires n < 16
  {
    if n < 10 then 48 + n else if upper then 55 + n else 87 + n
  }

  function Render(ts: seq<Token>): seq<byte> {
    if ts == [] then [] else RenderToken(ts[0]) + Render(ts[1..])
  }

  function RenderToken(t: Token): seq<byte> {
    match t
    case Literal(b) => [b]
    case Escaped(b, upper1, upper2) => [PERCENT, Digit(b / 16, upper1), Digit(b % 16, upper2)]
    case Plus => [PLUS]
  }

  function Byte(t: Token): byte {
    match t
    case Literal(b) => b
    case Escaped(b, _, _) => b
    case Plus => SPACE
  }

  function Meaning(ts: seq<Token>): seq<byte> {
    if ts == [] then [] else [Byte(ts[0])] + Meaning(ts[1..])
  }

  /** A percent sign must be escaped, in form data a plus sign too, and only there a plus sign is a space. */
  predicate Allowed(t: Token, form: bool) {
    (t.Literal? ==> t.b != PERCENT && (form ==> t.b != PLUS)) && (t.Plus? ==> form)
  }

  predicate Encoded(ts: seq<Token>, form: bool) {
    forall i | 0 <= i < |ts| :: Allowed(ts[i], form)
  }

  lemma FirstOfToken(t: Token, rest: seq<byte>, form: bool)
    requires Allowed(t, form)
    ensures First(RenderToken(t) + rest, form) == (Byte(t), |RenderToken(t)|)
  {
    if t.Escaped? {
      DigitRoundTrip(t.b / 16, t.upper1);
      DigitRoundTrip(t.b % 16, t.upper2);
    }
  }

  lemma DigitRoundTrip(n: nat, upper: bool)
    requires n < 16
    ensures IsHex(Digit(n, upper)) && HexToInt(Digit(n, upper)) == n
  {
  }

  /** Whatever bytes an encoder escapes and in whatever case, decoding gives back what was encoded. */
  lemma {:induction false} DecodesEncoded(ts: seq<Token>, form: bool)
    requires Encoded(ts, form)
    ensures Decoded(Render(ts), form) == Meaning(ts)
    decreases |ts|
  {
    hide First, RenderToken, Byte, Allowed;
    if ts != [] {
      DecodesEncoded(ts[1..], form);
      var s, r := Render(ts), RenderToken(ts[0]);
      assert s == r + Render(ts[1..]);
      assert s[|r|..] == Render(ts[1..]);
      FirstOfToken(ts[0], Render(ts[1..]), form);
    }
  }

  // ----- Texts without escapes

  /** A percent sign and two hexadecimal digits. */
  predicate EscapeAt(s: seq<byte>, i: nat) {
    i + 2 < |s| && s[i] == 37 && IsHex(s[i + 1]) && IsHex(s[i + 2])
  }

  /** A text decodes to itself exactly if nothing in it is escaped, and no plus sign stands for a space; a
      percent sign without two digits behind it is kept. */
  lemma {:induction false} UnchangedIff(s: seq<byte>, form: bool)
    ensures Decoded(s, form) == s <==> NoEscape(s) && (form ==> 43 !in s)
    ensures NoEscape(s) <==> forall i | 0 <= i < |s| :: !EscapeAt(s, i)
  {
    hide EscapeAt, First;
    if s != [] {
      var (b, n) := First(s, form);
      FirstCases(s, form);
      assert Decoded(s, form) == [b] + Decoded(s[n..], form);
      if n == 1 {
        UnchangedIff(s[1..], form);
        NoEscapeShift(s);
        assert s == [s[0]] + s[1..];
      } else {
        assert EscapeAt(s, 0);
        assert |Decoded(s, form)| <= 1 + |s[3..]| < |s|;
      }
    }
  }

  predicate NoEscape(s: seq<byte>) {
    forall i | 0 <= i < |s| :: !EscapeAt(s, i)
  }

  lemma FirstCases(s: seq<byte>, form: bool)
    requires s != []
    ensures var (b, n) := First(s, form);
      if EscapeAt(s, 0) then n == 3 <= |s| else n == 1 && b == if form && s[0] == 43 then 32 else s[0]
  {
  }

  lemma NoEscapeShift(s: seq<byte>)
    requires s != []
    ensures NoEscape(s) <==> !EscapeAt(s, 0) && NoEscape(s[1..])
  {
    hide IsHex;
    forall i | 1 <= i < |s|
      ensures EscapeAt(s, i) == EscapeAt(s[1..], i - 1)
    {
    }
    forall i | 0 <= i < |s| - 1
      ensures EscapeAt(s[1..], i) == EscapeAt(s, i + 1)
    {
    }
  }

  /** "%6a+" in form data, and "%4F". */
  lemma KnownText()
    ensures Decoded([37, 54, 97, 43], true) == [106, 32]
    ensures Decoded([37, 52, 70], false) == [79]
  {
    var s: seq<byte> := [37, 54, 97, 43];
    assert s[3..] == [43] && [43][1..] == [];
    assert Decoded([43], true) == [32] + Decoded([], true);
    assert [37, 52, 70][3..] == [];
  }

  // ----- The implementation

  /** One turn of the loop; what is read lies in the source or is the byte behind it. */
  method DecodeStep(src: array<byte>, at: nat, end: nat, dst: array<byte>, to: nat, form: bool) returns (next: nat)
    requires at < end < src.Length && !IsHex(src[end]) && to < dst.Length
    modifies dst
    ensures var (b, n) := First(old(src[at..end]), form);
      next == at + n && dst[..] == old(dst[..])[to := b]
  {
    ghost var text := src[at..end];
    assert text[0] == src[at];
    next := at;
    if src[at] == PERCENT && IsHex(src[at + 1]) && IsHex(src[at + 2]) {
      assert at + 2 < end && text[1] == src[at + 1] && text[2] == src[at + 2];
      var a, b := ToLower(src[at + 1]), ToLower(src[at + 2]);
      dst[to] := (if IsDigit(a) then a - 48 else a - 87) * 16 + (if IsDigit(b) then b - 48 else b - 87);
      next := next + 2;
    } else if form && src[at] == PLUS {
      dst[to] := SPACE;
    } else {
      dst[to] := src[at];
    }
    next := next + 1;
  }

  lemma Progress(now: seq<byte>, was: seq<byte>, d: seq<byte>, to: nat, j: nat)
    requires j < |d| && to + j < |was| && now == was[..to] + d[..j] + was[to + j..]
    ensures now[to + j := d[j]] == was[..to] + d[..j + 1] + was[to + j + 1..]
  {
  }

  /** Between two turns: what is left of the source is untouched and decodes to what is left of the result,
      and the destination holds the beginning of the result. */
  predicate Halfway(src: seq<byte>, from: nat, i: nat, dst: seq<byte>, to: nat, j: nat,
                    text: seq<byte>, was: seq<byte>, form: bool)
  {
    SourceLeft(src, from, i, text) && j <= i <= |text| && Written(dst, to, j, text[i..], Decoded(text, form), was, form)
  }

  predicate SourceLeft(src: seq<byte>, from: nat, i: nat, text: seq<byte>) {
    i <= |text| && from + |text| < |src| && src[from + i..from + |text|] == text[i..] && !IsHex(src[from + |text|])
  }

  predicate Written(dst: seq<byte>, to: nat, j: nat, left: seq<byte>, d: seq<byte>, was: seq<byte>, form: bool) {
    && j <= |d| && to + j < |dst| == |was|
    && d[j..] == Decoded(left, form)
    && dst == was[..to] + d[..j] + was[to + j..]
  }

  lemma SourceKept(src: seq<byte>, from: nat, i: nat, n: nat, text: seq<byte>)
    requires SourceLeft(src, from, i, text) && i + n <= |text|
    ensures SourceLeft(src, from, i + n, text)
  {
    hide IsHex;
    assert src[from + i + n..from + |text|] == src[from + i..from + |text|][n..];
  }

  /** A write before what is left of the source leaves it alone. */
  lemma SourceWritten(src: seq<byte>, from: nat, i: nat, text: seq<byte>, at: nat, b: byte)
    requires SourceLeft(src, from, i, text) && at < from + i
    ensures SourceLeft(src[at := b], from, i, text)
  {
    hide IsHex;
    assert src[at := b][from + i..from + |text|] == src[from + i..from + |text|];
  }

  lemma WrittenOn(dst: seq<byte>, to: nat, j: nat, left: seq<byte>, d: seq<byte>, was: seq<byte>, form: bool)
    requires Written(dst, to, j, left, d, was, form) && left != [] && to + j + 1 < |dst|
    ensures var (b, n) := First(left, form);
      Written(dst[to + j := b], to, j + 1, left[n..], d, was, form)
  {
    hide First;
    var (b, n) := First(left, form);
    assert d[j..] == [b] + Decoded(left[n..], form);
    hide Decoded;
    assert d[j] == d[j..][0] && d[j + 1..] == d[j..][1..];
    Progress(dst, was, d, to, j);
  }

  lemma HalfwayOn(src: seq<byte>, from: nat, i: nat, dst: seq<byte>, to: nat, j: nat,
                  text: seq<byte>, was: seq<byte>, form: bool, same: bool)
    requires Halfway(src, from, i, dst, to, j, text, was, form) && i < |text| && to + j + 1 < |dst|
    requires same ==> from == to && src == dst
    ensures var (b, n) := First(text[i..], form);
      Halfway(if same then src[to + j := b] else src, from, i + n, dst[to + j := b], to, j + 1, text, was, form)
  {
    hide First, Decoded, SourceLeft;
    var (b, n) := First(text[i..], form);
    WrittenOn(dst, to, j, text[i..], Decoded(text, form), was, form);
    hide Written;
    assert text[i..][n..] == text[i + n..];
    SourceKept(src, from, i, n, text);
    if same {
      SourceWritten(src, from, i + n, text, to + j, b);
    }
  }

  method Turn(src: array<byte>, from: nat, srcLen: nat, i: nat, dst: array<byte>, to: nat, j: nat, form: bool,
              ghost text: seq<byte>, ghost was: seq<byte>)
    returns (next: nat)
    requires src == dst ==> from == to
    requires i < |text| == srcLen && to + j + 1 < dst.Length
    requires Halfway(src[..], from, i, dst[..], to, j, text, was, form)
    modifies dst
    ensures next > i && Halfway(src[..], from, next, dst[..], to, j + 1, text, was, form)
  {
    hide First, Decoded, IsHex;
    HalfwayOn(src[..], from, i, dst[..], to, j, text, was, form, src == dst);
    assert src[from + i..from + srcLen] == src[..][from + i..from + |text|] == text[i..];
    assert src[..][from + |text|] == src[from + srcLen];
    hide Halfway, SourceLeft;
    var at := DecodeStep(src, from + i, from + srcLen, dst, to + j, form);
    next := at - from;
  }

  /** `url_decode`. The source and the destination are different buffers or start at the same place of the
      same one; what follows the source must not be a hexadecimal digit, as a NUL or a '&' is not. */
  method UrlDecode(src: array<byte>, from: nat, srcLen: nat, dst: array<byte>, to: nat, dstLen: nat, form: bool)
    returns (j: nat)
    requires from + srcLen < src.Length && !IsHex(src[from + srcLen])
    requires 0 < dstLen && to + dstLen <= dst.Length
    requires src == dst ==> from == to
    modifies dst
    ensures var d := Decoded(old(src[from..from + srcLen]), form);
      && j == Min(|d|, dstLen - 1)
      && dst[..] == old(dst[..to]) + d[..j] + [0] + old(dst[to + j + 1..])
  {
    hide Halfway, Decoded, IsHex;
    ghost var text, was := src[from..from + srcLen], dst[..];
    var i := 0;
    j := 0;
    HalfwayStart(src[..], from, srcLen, was, to, form);
    while i < srcLen && j < dstLen - 1
      invariant i <= srcLen && j <= dstLen - 1 && Halfway(src[..], from, i, dst[..], to, j, text, was, form)
    {
      i := Turn(src, from, srcLen, i, dst, to, j, form, text, was);
      HalfwayBounds(src[..], from, i, dst[..], to, j + 1, text, was, form);
      j := j + 1;
    }
    HalfwayBounds(src[..], from, i, dst[..], to, j, text, was, form);
    dst[to + j] := 0;
  }

  lemma HalfwayStart(src: seq<byte>, from: nat, srcLen: nat, was: seq<byte>, to: nat, form: bool)
    requires from + srcLen < |src| && !IsHex(src[from + srcLen]) && to < |was|
    ensures Halfway(src, from, 0, was, to, 0, src[from..from + srcLen], was, form)
  {
    hide Decoded, IsHex;
    var text := src[from..from + srcLen];
    assert text[0..] == text && Decoded(text, form)[0..] == Decoded(text, form);
  }

  lemma HalfwayBounds(src: seq<byte>, from: nat, i: nat, dst: seq<byte>, to: nat, j: nat,
                      text: seq<byte>, was: seq<byte>, form: bool)
    requires Halfway(src, from, i, dst, to, j, text, was, form)
    ensures var d := Decoded(text, form);
      && i <= |text| && j <= |d| && to + j < |dst| == |was| && (i == |text| ==> j == |d|)
      && dst == was[..to] + d[..j] + was[to + j..]
  {
  }

  /** How the request line is decoded: in place, up to its NUL, with the room of the text and the NUL. */
  method DecodeUri(uri: array<byte>, from: nat, length: nat) returns (j: nat)
    requires from + length < uri.Length && uri[from + length] == 0
    modifies uri
    ensures var d := Decoded(old(uri[from..from + length]), true);
      && j == |d|
      && uri[..] == old(uri[..from]) + d + [0] + old(uri[from + j + 1..])
  {
    hide Decoded;
    j := UrlDecode(uri, from, length, uri, from, length + 1, true);
    ghost var d := Decoded(old(uri[from..from + length]), true);
    assert d[..j] == d;
  }
}

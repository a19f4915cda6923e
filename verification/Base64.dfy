/** Base64 as RFC 4648 section 4 defines it, and the encoder of src/webby/webby.c. */
module Base64 {
  import opened Options
  import opened Words

  /** The value of a character of the alphabet; 64 for the padding, 65 for anything else. */
  function Value(c: char): (v: nat) {
    if 'A' <= c <= 'Z' then (c - 'A') as nat
    else if 'a' <= c <= 'z' then (c - 'a') as nat + 26
    else if '0' <= c <= '9' then (c - '0') as nat + 52
    else if c == '+' then 62
    else if c == '/' then 63
    else if c == '=' then 64
    else 65
  }

  /** The table `enc`: the alphabet of RFC 4648 section 4 with the padding at its end. */
  function Letter(i: nat): (c: char)
    requires i < 65
  {
    if i < 26 then ('A' as int + i) as char
    else if i < 52 then ('a' as int + i - 26) as char
    else if i < 62 then ('0' as int + i - 52) as char
    else if i == 62 then '+' else if i == 63 then '/' else '='
  }

  lemma LetterValue(i: nat)
    requires i < 65
    ensures Value(Letter(i)) == i && Letter(i) != '\r' && Letter(i) != '\n'
  {
  }

  /** The alphabet of RFC 4648 section 4: A to Z, a to z, 0 to 9, + and /. */
  lemma Alphabet(i: nat)
    ensures Letter(0) == 'A' && Letter(25) == 'Z' && Letter(26) == 'a' && Letter(51) == 'z'
    ensures Letter(52) == '0' && Letter(61) == '9' && Letter(62) == '+' && Letter(63) == '/' && Letter(64) == '='
    ensures i < 61 && i !in {25, 51} ==> Letter(i + 1) as int == Letter(i) as int + 1
  {
  }

  // ----- The encoding

  /** The bytes of a group in one number, those beyond the end as 0. */
  function Group(b: seq<byte>): (n: nat)
    requires 1 <= |b| <= 3
    ensures n < 0x100_0000
  {
    Triple(b[0], if |b| > 1 then b[1] else 0, if |b| > 2 then b[2] else 0)
  }

  function Triple(x: nat, y: nat, z: nat): nat {
    x * 0x1_0000 + y * 0x100 + z
  }

  /** Four characters for up to three bytes, the rest of which is padding. */
  function Quad(b: seq<byte>): (q: string)
    requires 1 <= |b| <= 3
    ensures |q| == 4
  {
    var n := Group(b);
    [Letter(n / 0x4_0000), Letter(n / 0x1000 % 64),
     if |b| > 1 then Letter(n / 64 % 64) else '=', if |b| > 2 then Letter(n % 64) else '=']
  }

  function Encode(input: seq<byte>): string {
    if input == [] then ""
    else if |input| <= 3 then Quad(input)
    else Quad(input[..3]) + Encode(input[3..])
  }

  lemma {:induction false} EncodeLength(input: seq<byte>)
    ensures |Encode(input)| == 4 * ((|input| + 2) / 3)
  {
    hide Quad;
    if |input| > 3 {
      EncodeLength(input[3..]);
    }
  }

  /** One group of characters: complete, or padded with zero bits left over. */
  function Unquad(q: string): (b: Option<seq<byte>>)
    requires |q| == 4
  {
    var v0, v1, v2, v3 := Value(q[0]), Value(q[1]), Value(q[2]), Value(q[3]);
    if v0 > 63 || v1 > 63 || v2 > 64 || v3 > 64 then None
    else
      var first := v0 * 4 + v1 / 16;
      var second := v1 % 16 * 16 + v2 / 4;
      if v2 == 64 then if v3 == 64 && v1 % 16 == 0 then Some([first]) else None
      else if v3 == 64 then if v2 % 4 == 0 then Some([first, second]) else None
      else Some([first, second, v2 % 4 * 64 + v3])
  }

  /** Only the last group may be padded. */
  function Decode(q: string): (b: Option<seq<byte>>) {
    if q == "" then Some([])
    else if |q| < 4 then None
    else
      match Unquad(q[..4])
      case None => None
      case Some(b) =>
        if |q| == 4 then Some(b)
        else if |b| < 3 then None
        else
          match Decode(q[4..])
          case None => None
          case Some(more) => Some(b + more)
  }

  lemma QuadDecodes(b: seq<byte>)
    requires 1 <= |b| <= 3
    ensures Unquad(Quad(b)) == Some(b)
  {
    var n := Group(b);
    var x, y, z := b[0], if |b| > 1 then b[1] else 0, if |b| > 2 then b[2] else 0;
    Sextets(x, y, z);
    LetterValue(n / 0x4_0000);
    LetterValue(n / 0x1000 % 64);
    LetterValue(n / 64 % 64);
    LetterValue(n % 64);
    hide Letter;
    var q := Quad(b);
    assert Value(q[0]) == x / 4 && Value(q[1]) == x % 4 * 16 + y / 16;
    assert Value(q[2]) == if |b| > 1 then y % 16 * 4 + z / 64 else 64;
    assert Value(q[3]) == if |b| > 2 then z % 64 else 64;
    hide Quad, Value;
    Regrouped(q, b, x, y, z);
  }

  lemma Regrouped(q: string, b: seq<byte>, x: byte, y: byte, z: byte)
    requires 1 <= |b| <= 3 && b == [x, y, z][..|b|] && |q| == 4
    requires (|b| <= 1 ==> y == 0) && (|b| <= 2 ==> z == 0)
    requires Value(q[0]) == x / 4 && Value(q[1]) == x % 4 * 16 + y / 16
    requires Value(q[2]) == if |b| > 1 then y % 16 * 4 + z / 64 else 64
    requires Value(q[3]) == if |b| > 2 then z % 64 else 64
    ensures Unquad(q) == Some(b)
  {
    hide Value;
    var v0, v1, v2, v3 := Value(q[0]), Value(q[1]), Value(q[2]), Value(q[3]);
    assert v1 / 16 == x % 4 && v1 % 16 == y / 16;
    assert v0 * 4 + v1 / 16 == x;
    if |b| > 1 {
      assert v2 / 4 == y % 16 && v2 % 4 == z / 64;
      assert v1 % 16 * 16 + v2 / 4 == y;
    }
    if |b| > 2 {
      assert v2 % 4 * 64 + v3 == z;
    }
    assert [x, y, z][..1] == [x] && [x, y, z][..2] == [x, y] && [x, y, z][..3] == [x, y, z];
  }

  lemma Sextets(x: byte, y: byte, z: byte)
    ensures var n := Triple(x, y, z);
      && n / 0x4_0000 == x / 4 && n / 0x1000 % 64 == x % 4 * 16 + y / 16
      && n / 64 % 64 == y % 16 * 4 + z / 64 && n % 64 == z % 64
  {
    var n := Triple(x, y, z);
    Remainder(n, 0x4_0000, x / 4, x % 4 * 0x1_0000 + y * 0x100 + z);
    Remainder(n, 0x1000, x * 16 + y / 16, y % 16 * 0x100 + z);
    Remainder(x * 16 + y / 16, 64, x / 4, x % 4 * 16 + y / 16);
    Remainder(n, 64, x * 0x400 + y * 4 + z / 64, z % 64);
    Remainder(x * 0x400 + y * 4 + z / 64, 64, x * 16 + y / 16, y % 16 * 4 + z / 64);
  }

  lemma {:induction false} RoundTrip(input: seq<byte>)
    ensures Decode(Encode(input)) == Some(input)
  {
    hide Quad, Unquad;
    if 0 < |input| <= 3 {
      QuadDecodes(input);
      assert Quad(input)[..4] == Quad(input);
    } else if input != [] {
      QuadDecodes(input[..3]);
      RoundTrip(input[3..]);
      assert Encode(input)[..4] == Quad(input[..3]) && Encode(input)[4..] == Encode(input[3..]);
      assert input[..3] + input[3..] == input;
    }
  }

  // ----- The text the implementation writes

  const QUADS_BEFORE_LINEBREAK := 19

  /** One line break, behind the 19th group; there is no second one however long the text. */
  function WithBreak(q: string): (t: string)
    ensures |t| == |q| + if |q| >= 4 * QUADS_BEFORE_LINEBREAK then 2 else 0
  {
    var line := 4 * QUADS_BEFORE_LINEBREAK;
    if |q| >= line then q[..line] + "\r\n" + q[line..] else q
  }

  /** Lines of 19 groups, each with its break. */
  function Lines(q: string): (t: string)
    ensures |t| >= |q|
  {
    var line := 4 * QUADS_BEFORE_LINEBREAK;
    if |q| >= line then q[..line] + "\r\n" + Lines(q[line..]) else q
  }

  /** Every 19th group is followed by a break. */
  predicate BrokenIntoLines(input: seq<byte>, text: string) {
    text == Lines(Encode(input))
  }

  /** That is so exactly for inputs that need no second break. */
  lemma BrokenIffOneLine(input: seq<byte>)
    ensures BrokenIntoLines(input, WithBreak(Encode(input))) <==> |input| <= 3 * (2 * QUADS_BEFORE_LINEBREAK - 1)
  {
    EncodeLength(input);
    OneBreakIff(Encode(input));
    hide Encode, Lines, WithBreak;
    var triplets := (|input| + 2) / 3;
    assert triplets >= 38 <==> |input| >= 112;
  }

  lemma OneBreakIff(q: string)
    ensures WithBreak(q) == Lines(q) <==> |q| < 8 * QUADS_BEFORE_LINEBREAK
  {
    var line := 4 * QUADS_BEFORE_LINEBREAK;
    if |q| >= line {
      var rest := q[line..];
      assert |rest| >= line ==> |Lines(rest)| > |rest|;
    }
  }

  /** 112 bytes are the first that miss a break. */
  lemma SecondBreakMissing(input: seq<byte>)
    requires |input| == 112
    ensures !BrokenIntoLines(input, WithBreak(Encode(input)))
  {
    BrokenIffOneLine(input);
  }

  function Strip(t: string): string {
    if t == "" then "" else Kept(t[0]) + Strip(t[1..])
  }

  function Kept(c: char): string {
    if c == '\r' || c == '\n' then "" else [c]
  }

  predicate NoBreak(t: string) {
    forall i | 0 <= i < |t| :: t[i] != '\r' && t[i] != '\n'
  }

  lemma {:induction false} StripConcat(s: string, t: string)
    ensures Strip(s + t) == Strip(s) + Strip(t)
  {
    hide Kept;
    if s == "" {
      assert s + t == t;
    } else {
      StripConcat(s[1..], t);
      assert (s + t)[1..] == s[1..] + t && (s + t)[0] == s[0];
      var kept, a, b := Kept(s[0]), Strip(s[1..]), Strip(t);
      assert kept + (a + b) == (kept + a) + b;
    }
  }

  lemma {:induction false} StripNothing(t: string)
    requires NoBreak(t)
    ensures Strip(t) == t
  {
    if t != "" {
      StripNothing(t[1..]);
    }
  }

  lemma {:induction false} EncodeHasNoBreak(input: seq<byte>)
    ensures NoBreak(Encode(input))
  {
    hide Quad;
    if 0 < |input| <= 3 {
      QuadHasNoBreak(input);
    } else if input != [] {
      QuadHasNoBreak(input[..3]);
      EncodeHasNoBreak(input[3..]);
    }
  }

  lemma QuadHasNoBreak(b: seq<byte>)
    requires 1 <= |b| <= 3
    ensures NoBreak(Quad(b))
  {
    var n := Group(b);
    LetterValue(n / 0x4_0000);
    LetterValue(n / 0x1000 % 64);
    LetterValue(n / 64 % 64);
    LetterValue(n % 64);
    hide Letter;
  }

  /** With its line break removed the text decodes to the input, for every length. */
  lemma TextDecodes(input: seq<byte>)
    ensures Decode(Strip(WithBreak(Encode(input)))) == Some(input)
  {
    var q := Encode(input);
    var line := 4 * QUADS_BEFORE_LINEBREAK;
    EncodeHasNoBreak(input);
    RoundTrip(input);
    hide Encode, Decode;
    if |q| >= line {
      var a, b := q[..line], q[line..];
      StripConcat(a + "\r\n", b);
      StripConcat(a, "\r\n");
      StripNothing(a);
      StripNothing(b);
      StripBreak();
      assert a + "" + b == q;
    } else {
      StripNothing(q);
    }
  }

  lemma StripBreak()
    ensures Strip("\r\n") == ""
  {
    assert "\r\n"[1..] == "\n" && "\n"[1..] == "";
    assert Strip("\n") == Kept('\n') + Strip("");
  }

  lemma WithBreakSnoc(q: string, quad: string)
    requires |quad| == 4 && |q| % 4 == 0
    ensures WithBreak(q + quad) ==
            WithBreak(q) + quad + if |q| / 4 + 1 == QUADS_BEFORE_LINEBREAK then "\r\n" else ""
  {
    var line := 4 * QUADS_BEFORE_LINEBREAK;
    if |q| >= line {
      assert (q + quad)[..line] == q[..line] && (q + quad)[line..] == q[line..] + quad;
    } else if |q| + 4 == line {
      assert (q + quad)[..line] == q + quad && (q + quad)[line..] == "";
    }
  }

  lemma {:induction false} EncodeSnoc(input: seq<byte>, b: seq<byte>)
    requires |input| % 3 == 0 && 1 <= |b| <= 3
    ensures Encode(input + b) == Encode(input) + Quad(b)
  {
    hide Quad;
    if input == [] {
      assert input + b == b;
    } else {
      EncodeSnoc(input[3..], b);
      assert (input + b)[..3] == input[..3] && (input + b)[3..] == input[3..] + b;
      assert input[..3] == input || |input| > 3;
    }
  }

  /** `base64_bufsize`. */
  function BufSize(size: nat): nat {
    var triplets := (size + 2) / 3;
    4 * triplets + 2 * (triplets / QUADS_BEFORE_LINEBREAK) + 1
  }

  /** The size asked for is enough for the text and the NUL behind it, and more only from 38 groups on. */
  lemma BufSizeSuffices(input: seq<byte>)
    ensures |WithBreak(Encode(input))| + 1 <= BufSize(|input|)
    ensures |WithBreak(Encode(input))| + 1 == BufSize(|input|) <==> |input| <= 3 * (2 * QUADS_BEFORE_LINEBREAK - 1)
  {
    EncodeLength(input);
    hide Encode, WithBreak;
    var triplets := (|input| + 2) / 3;
    assert triplets >= 19 <==> triplets / 19 >= 1;
    assert triplets >= 38 <==> triplets / 19 >= 2;
    assert triplets >= 38 <==> |input| >= 112;
  }

  lemma Fits(input: seq<byte>, i: nat)
    requires i % 3 == 0 && i < |input|
    ensures |WithBreak(Encode(input[..Min(i + 3, |input|)]))| + 1 <= BufSize(|input|)
  {
    var part := input[..Min(i + 3, |input|)];
    BufSizeSuffices(part);
    EncodeLength(part);
    EncodeLength(input);
    hide Encode, WithBreak;
    var t, u := (|part| + 2) / 3, (|input| + 2) / 3;
    assert t <= u;
    assert t / QUADS_BEFORE_LINEBREAK <= u / QUADS_BEFORE_LINEBREAK;
  }

  /** The four characters of a group, taken from the top by shifting a 32-bit word. */
  method WriteQuad(output: array<char>, o: nat, group: nat, ghost b: seq<byte>, noThird: bool, noFourth: bool)
    requires o + 4 <= output.Length && 1 <= |b| <= 3 && group == Group(b)
    requires noThird == (|b| < 2) && noFourth == (|b| < 3)
    modifies output
    ensures output[..] == old(output[..o]) + Quad(b) + old(output[o + 4..])
  {
    hide Letter;
    Shifts(group);
    var i0 := group;
    var idx0 := i0 / 0x4_0000 % 64; i0 := i0 * 64 % WORD;
    var idx1 := i0 / 0x4_0000 % 64; i0 := i0 * 64 % WORD;
    var idx2 := i0 / 0x4_0000 % 64; i0 := i0 * 64 % WORD;
    var idx3 := i0 / 0x4_0000 % 64;
    if noThird {
      idx2 := 64;
    }
    if noFourth {
      idx3 := 64;
    }
    LetterValue(64);
    output[o] := Letter(idx0);
    output[o + 1] := Letter(idx1);
    output[o + 2] := Letter(idx2);
    output[o + 3] := Letter(idx3);
  }

  /** The digits of the number to the base 64, each brought to the top by another shift. */
  lemma Shifts(n: nat)
    requires n < 0x100_0000
    ensures var x1 := n * 64 % WORD;
      var x2 := x1 * 64 % WORD;
      var x3 := x2 * 64 % WORD;
      && n / 0x4_0000 % 64 == n / 0x4_0000 && x1 / 0x4_0000 % 64 == n / 0x1000 % 64
      && x2 / 0x4_0000 % 64 == n / 64 % 64 && x3 / 0x4_0000 % 64 == n % 64
  {
    var d0, d1, d2, d3 := n / 0x4_0000, n / 0x1000 % 64, n / 64 % 64, n % 64;
    var x1 := d0 * 0x100_0000 + d1 * 0x4_0000 + d2 * 0x1000 + d3 * 64;
    var x2 := d0 % 4 * 0x4000_0000 + d1 * 0x100_0000 + d2 * 0x4_0000 + d3 * 0x1000;
    var x3 := d1 % 4 * 0x4000_0000 + d2 * 0x100_0000 + d3 * 0x4_0000;
    Digits(n, d0, d1, d2, d3);
    Remainder(n * 64, WORD, 0, x1);
    Remainder(x1 * 64, WORD, d0 / 4, x2);
    Remainder(x2 * 64, WORD, d0 % 4 * 16 + d1 / 4, x3);
    Top(x1, d0, d1, d2 * 0x1000 + d3 * 64);
    Top(x2, d0 % 4 * 64 + d1, d2, d3 * 0x1000);
    Top(x3, d1 % 4 * 64 + d2, d3, 0);
  }

  lemma Digits(n: nat, d0: nat, d1: nat, d2: nat, d3: nat)
    requires d0 == n / 0x4_0000 && d1 == n / 0x1000 % 64 && d2 == n / 64 % 64 && d3 == n % 64
    ensures n == d0 * 0x4_0000 + d1 * 0x1000 + d2 * 64 + d3
  {
    var a := n / 64;
    var b := a / 64;
    assert b == n / 0x1000 && b / 64 == d0;
    assert n == a * 64 + d3 && a == b * 64 + d2 && b == d0 * 64 + d1;
  }

  lemma Top(x: nat, above: nat, digit: nat, below: nat)
    requires x == (above * 64 + digit) * 0x4_0000 + below && digit < 64 && below < 0x4_0000
    ensures x / 0x4_0000 % 64 == digit
  {
    Remainder(x, 0x4_0000, above * 64 + digit, below);
    Remainder(above * 64 + digit, 64, above, digit);
  }

  /** The text for the groups up to a position. */
  function TextTo(input: seq<byte>, i: nat): string {
    WithBreak(Encode(input[..Min(i, |input|)]))
  }

  lemma TextStep(input: seq<byte>, i: nat)
    requires i % 3 == 0 && i < |input|
    ensures TextTo(input, i + 3) == TextTo(input, i) + Quad(input[i..Min(i + 3, |input|)]) +
              if i / 3 + 1 == QUADS_BEFORE_LINEBREAK then "\r\n" else ""
    ensures |TextTo(input, i + 3)| + 1 <= BufSize(|input|)
  {
    hide Quad, WithBreak, Encode, BufSize;
    var before, b := input[..i], input[i..Min(i + 3, |input|)];
    Fits(input, i);
    EncodeSnoc(before, b);
    EncodeLength(before);
    assert (i + 2) / 3 == i / 3;
    WithBreakSnoc(Encode(before), Quad(b));
    assert before + b == input[..Min(i + 3, |input|)];
  }

  /** The array starts with the text and is otherwise as it was. */
  ghost predicate Written(output: array<char>, text: string, was: string)
    reads output
  {
    |text| <= output.Length == |was| && output[..] == text + was[|text|..]
  }

  /** The group at a position of the input. */
  method WriteGroup(output: array<char>, o: nat, input: seq<byte>, start: nat)
    requires o + 4 <= output.Length && start < |input|
    modifies output
    ensures output[..] == old(output[..o]) + Quad(input[start..Min(start + 3, |input|)]) + old(output[o + 4..])
  {
    var i := start;
    var b0 := input[i]; i := i + 1;
    var b1 := if i < |input| then input[i] else 0; i := i + 1;
    var b2 := if i < |input| then input[i] else 0; i := i + 1;
    WriteQuad(output, o, Triple(b0, b1, b2), input[start..Min(start + 3, |input|)], i - 1 > |input|, i > |input|);
  }

  /** `base64_encode`; 1 if the output is too small. */
  method Base64Encode(output: array<char>, input: seq<byte>) returns (r: int)
    modifies output
    ensures r == if output.Length < BufSize(|input|) then 1 else 0
    ensures r == 1 ==> output[..] == old(output[..])
    ensures r == 0 ==> Written(output, WithBreak(Encode(input)) + "\0", old(output[..]))
  {
    if output.Length < BufSize(|input|) {
      return 1;
    }
    hide Quad, Letter, WithBreak, Encode, TextTo, BufSize;
    ghost var was := output[..];
    NoText(input);
    var i, o, lineOut := 0, 0, 0;
    while i < |input|
      invariant i % 3 == 0 && i < |input| + 3 && lineOut == i / 3
      invariant o == |TextTo(input, i)| && o + 1 <= output.Length
      invariant Written(output, TextTo(input, i), was)
    {
      o, lineOut := EncodeStep(output, o, input, i, lineOut, was);
      i := i + 3;
    }
    WholeText(input, i);
    WriteEnd(output, o, TextTo(input, i), was);
    return 0;
  }

  /** One turn of the loop: a group, and the line break when it is the 19th. */
  method EncodeStep(output: array<char>, o: nat, input: seq<byte>, i: nat, lineOut: nat, ghost was: string)
    returns (end: nat, lines: nat)
    requires i % 3 == 0 && i < |input| && lineOut == i / 3
    requires output.Length >= BufSize(|input|) && o == |TextTo(input, i)|
    requires Written(output, TextTo(input, i), was)
    modifies output
    ensures lines == lineOut + 1
    ensures end == |TextTo(input, i + 3)| && end + 1 <= output.Length
    ensures Written(output, TextTo(input, i + 3), was)
  {
    hide Quad, Letter, WithBreak, Encode, TextTo, BufSize;
    TextStep(input, i);
    ghost var text, quad := TextTo(input, i), Quad(input[i..Min(i + 3, |input|)]);
    WriteGroup(output, o, input, i);
    assert Written(output, text + quad, was);
    end, lines := o + 4, lineOut + 1;
    if lines == QUADS_BEFORE_LINEBREAK {
      WriteBreak(output, end, text + quad, was);
      end := end + 2;
    }
  }

  method WriteEnd(output: array<char>, o: nat, ghost text: string, ghost was: string)
    requires Written(output, text, was) && o == |text| && o + 1 <= output.Length
    modifies output
    ensures Written(output, text + "\0", was)
  {
    output[o] := '\0';
  }

  method WriteBreak(output: array<char>, o: nat, ghost text: string, ghost was: string)
    requires Written(output, text, was) && o == |text| && o + 2 <= output.Length
    modifies output
    ensures Written(output, text + "\r\n", was)
  {
    output[o], output[o + 1] := '\r', '\n';
  }

  lemma NoText(input: seq<byte>)
    ensures TextTo(input, 0) == "" && 1 <= BufSize(|input|)
  {
    assert input[..0] == [];
  }

  lemma WholeText(input: seq<byte>, i: nat)
    requires i >= |input|
    ensures TextTo(input, i) == WithBreak(Encode(input))
  {
    assert input[..|input|] == input;
  }

}

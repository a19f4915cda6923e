/** The key with which the server accepts a WebSocket (send_websocket_upgrade in src/webby/webby.c). */
module Handshake {
  import opened Bytes
  import opened Options
  import opened Words
  import Base64
  import KnownDigests
  import Sha1

  /** The constant of section 1.3 of RFC 6455. */
  const GUID := "258EAFA5-E914-47DA-95CA-C5AB0DC85B11"

  function CharOctets(s: string): (o: seq<Sha1.Octet>)
    ensures |o| == |s|
  {
    seq(|s|, i requires 0 <= i < |s| => Sha1.ToOctet(s[i] as nat % 0x100))
  }

  function Plain(o: seq<Sha1.Octet>): (b: seq<byte>)
    ensures |b| == |o|
  {
    seq(|o|, i requires 0 <= i < |o| => o[i] as byte)
  }

  /** Section 4.2.2 of RFC 6455: the Base64 form of the SHA-1 digest of the client's key and the GUID. */
  function AcceptKey(key: string): string {
    Base64.Encode(Plain(Sha1.Digest(CharOctets(key) + CharOctets(GUID))))
  }

  /** The buffer of 64 characters always suffices, the text has 28 of them and no line break, and a NUL
      ends it. */
  method ComputeAcceptKey(key: string) returns (output: array<char>)
    requires |key| < 0x2000_0000
    ensures |AcceptKey(key)| == 28 && output.Length == 64 && Base64.NoBreak(AcceptKey(key))
    ensures output[..29] == AcceptKey(key) + "\0"
    ensures Base64.Decode(output[..28]) == Some(Plain(Sha1.Digest(CharOctets(key) + CharOctets(GUID))))
  {
    hide Sha1.Digest, CharOctets, Base64.Encode, Base64.Decode, Base64.NoBreak, Plain;
    var parts := [CharOctets(key), CharOctets(GUID)];
    TwoParts(parts[0], parts[1]);
    var digest := Sha1.DigestOfParts(parts);
    output := new char[64];
    ghost var was := output[..];
    var r := Base64.Base64Encode(output, Plain(digest[..]));
    Base64.EncodeLength(Plain(digest[..]));
    Base64.RoundTrip(Plain(digest[..]));
    Base64.EncodeHasNoBreak(Plain(digest[..]));
    assert output[..29] == AcceptKey(key) + "\0";
    assert output[..28] == output[..29][..28] == AcceptKey(key);
  }

  lemma TwoParts<T>(a: seq<T>, b: seq<T>)
    ensures Concat([a, b]) == a + b
  {
    assert [a, b][1..] == [b] && [b][1..] == [];
    assert Concat([b]) == b + Concat([]);
  }

  // ----- The example of section 1.3 of RFC 6455

  lemma CharOctetsAppend(s: string, t: string)
    ensures CharOctets(s + t) == CharOctets(s) + CharOctets(t)
  {
    hide Sha1.ToOctet;
  }

  lemma OctetOfNumber(n: nat, o: Sha1.Octet)
    requires o as int == n
    ensures n < 0x100 && n as bv8 == o
  {
    assert (o as int) as bv8 == o;
  }

  lemma OctetOfChar(c: char, o: Sha1.Octet)
    requires o as int == c as int
    ensures Sha1.ToOctet(c as nat % 0x100) == o
  {
    OctetOfNumber(c as nat, o);
    assert c as nat % 0x100 == c as nat;
  }

  lemma FourChars(s: string, w: bv32, a: Sha1.Octet, b: Sha1.Octet, c: Sha1.Octet, d: Sha1.Octet)
    requires |s| == 4 && Sha1.WordOctets(w) == [a, b, c, d]
    requires a as int == s[0] as int && b as int == s[1] as int && c as int == s[2] as int && d as int == s[3] as int
    ensures CharOctets(s) == Sha1.WordOctets(w)
  {
    hide Sha1.ToOctet, Sha1.WordOctets;
    OctetOfChar(s[0], a);
    OctetOfChar(s[1], b);
    OctetOfChar(s[2], c);
    OctetOfChar(s[3], d);
  }

  lemma KeyStart()
    ensures CharOctets("dGhlIHNhbXBsZSBu") ==
            KnownDigests.FourWords(0x6447686c, 0x49484e68, 0x62584273, 0x5a534275)
  {
    hide CharOctets, Sha1.ToOctet;
    FourChars("dGhl", 0x6447686c, 0x64, 0x47, 0x68, 0x6c);
    FourChars("IHNh", 0x49484e68, 0x49, 0x48, 0x4e, 0x68);
    FourChars("bXBs", 0x62584273, 0x62, 0x58, 0x42, 0x73);
    FourChars("ZSBu", 0x5a534275, 0x5a, 0x53, 0x42, 0x75);
    hide Sha1.WordOctets;
    CharOctetsAppend("dGhl", "IHNh");
    CharOctetsAppend("dGhlIHNh", "bXBs");
    CharOctetsAppend("dGhlIHNhbXBs", "ZSBu");
    assert "dGhl" + "IHNh" == "dGhlIHNh";
    assert "dGhlIHNh" + "bXBs" == "dGhlIHNhbXBs";
    assert "dGhlIHNhbXBs" + "ZSBu" == "dGhlIHNhbXBsZSBu";
  }

  lemma KeyMiddle()
    ensures CharOctets("b25jZQ==258EAFA5") ==
            KnownDigests.FourWords(0x6232356a, 0x5a513d3d, 0x32353845, 0x41464135)
  {
    hide CharOctets, Sha1.ToOctet;
    FourChars("b25j", 0x6232356a, 0x62, 0x32, 0x35, 0x6a);
    FourChars("ZQ==", 0x5a513d3d, 0x5a, 0x51, 0x3d, 0x3d);
    FourChars("258E", 0x32353845, 0x32, 0x35, 0x38, 0x45);
    FourChars("AFA5", 0x41464135, 0x41, 0x46, 0x41, 0x35);
    hide Sha1.WordOctets;
    CharOctetsAppend("b25j", "ZQ==");
    CharOctetsAppend("b25jZQ==", "258E");
    CharOctetsAppend("b25jZQ==258E", "AFA5");
    assert "b25j" + "ZQ==" == "b25jZQ==";
    assert "b25jZQ==" + "258E" == "b25jZQ==258E";
    assert "b25jZQ==258E" + "AFA5" == "b25jZQ==258EAFA5";
  }

  lemma GuidMiddle()
    ensures CharOctets("-E914-47DA-95CA-") ==
            KnownDigests.FourWords(0x2d453931, 0x342d3437, 0x44412d39, 0x3543412d)
  {
    hide CharOctets, Sha1.ToOctet;
    FourChars("-E91", 0x2d453931, 0x2d, 0x45, 0x39, 0x31);
    FourChars("4-47", 0x342d3437, 0x34, 0x2d, 0x34, 0x37);
    FourChars("DA-9", 0x44412d39, 0x44, 0x41, 0x2d, 0x39);
    FourChars("5CA-", 0x3543412d, 0x35, 0x43, 0x41, 0x2d);
    hide Sha1.WordOctets;
    CharOctetsAppend("-E91", "4-47");
    CharOctetsAppend("-E914-47", "DA-9");
    CharOctetsAppend("-E914-47DA-9", "5CA-");
    assert "-E91" + "4-47" == "-E914-47";
    assert "-E914-47" + "DA-9" == "-E914-47DA-9";
    assert "-E914-47DA-9" + "5CA-" == "-E914-47DA-95CA-";
  }

  lemma GuidEnd()
    ensures CharOctets("C5AB0DC85B11") ==
            Sha1.WordOctets(0x43354142) + Sha1.WordOctets(0x30444338) + Sha1.WordOctets(0x35423131)
  {
    hide CharOctets, Sha1.ToOctet;
    FourChars("C5AB", 0x43354142, 0x43, 0x35, 0x41, 0x42);
    FourChars("0DC8", 0x30444338, 0x30, 0x44, 0x43, 0x38);
    FourChars("5B11", 0x35423131, 0x35, 0x42, 0x31, 0x31);
    hide Sha1.WordOctets;
    CharOctetsAppend("C5AB", "0DC8");
    CharOctetsAppend("C5AB0DC8", "5B11");
    assert "C5AB" + "0DC8" == "C5AB0DC8";
    assert "C5AB0DC8" + "5B11" == "C5AB0DC85B11";
  }

  lemma Regroup(a: string, k: string, g: string, c: string, d: string)
    ensures (a + k) + (g + c + d) == a + (k + g) + c + d
  {
  }

  const SAMPLE := "dGhlIHNhbXBsZSBub25jZQ=="

  lemma SampleMessage()
    ensures CharOctets(SAMPLE) + CharOctets(GUID) == KnownDigests.KeyMessage()
  {
    KeyStart();
    KeyMiddle();
    GuidMiddle();
    GuidEnd();
    hide CharOctets, KnownDigests.FourWords, Sha1.WordOctets;
    CharOctetsAppend(SAMPLE, GUID);
    var a, b, c, d := "dGhlIHNhbXBsZSBu", "b25jZQ==258EAFA5", "-E914-47DA-95CA-", "C5AB0DC85B11";
    assert SAMPLE == a + "b25jZQ==" && GUID == "258EAFA5" + c + d && b == "b25jZQ==" + "258EAFA5";
    assert SAMPLE + GUID == a + b + c + d by {
      var k, g := "b25jZQ==", "258EAFA5";
      Regroup(a, k, g, c, d);
    }
    CharOctetsAppend(a, b);
    CharOctetsAppend(a + b, c);
    CharOctetsAppend(a + b + c, d);
  }

  lemma QuadOf(b: seq<byte>, v0: nat, v1: nat, v2: nat, v3: nat)
    requires |b| == 3 && v0 < 64 && v1 < 64 && v2 < 64 && v3 < 64
    requires Base64.Group(b) == v0 * 0x4_0000 + v1 * 0x1000 + v2 * 64 + v3
    ensures Base64.Quad(b) == [Base64.Letter(v0), Base64.Letter(v1), Base64.Letter(v2), Base64.Letter(v3)]
  {
    hide Base64.Letter;
    var n := Base64.Group(b);
    Remainder(n, 0x4_0000, v0, v1 * 0x1000 + v2 * 64 + v3);
    Remainder(n, 0x1000, v0 * 64 + v1, v2 * 64 + v3);
    Remainder(v0 * 64 + v1, 64, v0, v1);
    Remainder(n, 64, (v0 * 64 + v1) * 64 + v2, v3);
    Remainder((v0 * 64 + v1) * 64 + v2, 64, v0 * 64 + v1, v2);
  }

  lemma SampleQuads()
    ensures Base64.Quad([0xb3, 0x7a, 0x4f]) == "s3pP"
    ensures Base64.Quad([0x2c, 0xc0, 0x62]) == "LMBi"
    ensures Base64.Quad([0x4f, 0x16, 0x90]) == "TxaQ"
  {
    QuadOf([0xb3, 0x7a, 0x4f], 44, 55, 41, 15);
    QuadOf([0x2c, 0xc0, 0x62], 11, 12, 1, 34);
    QuadOf([0x4f, 0x16, 0x90], 19, 49, 26, 16);
  }

  lemma MoreQuads()
    ensures Base64.Quad([0xf6, 0x46, 0x06]) == "9kYG"
    ensures Base64.Quad([0xcf, 0x38, 0x59]) == "zzhZ"
    ensures Base64.Quad([0x45, 0xb2, 0xbe]) == "RbK+"
    ensures Base64.Quad([0xc4, 0xea]) == "xOo="
  {
    QuadOf([0xf6, 0x46, 0x06], 61, 36, 24, 6);
    QuadOf([0xcf, 0x38, 0x59], 51, 51, 33, 25);
    QuadOf([0x45, 0xb2, 0xbe], 17, 27, 10, 62);
  }

  lemma SevenGroups(a: seq<byte>, b: seq<byte>, c: seq<byte>, d: seq<byte>, e: seq<byte>, f: seq<byte>, g: seq<byte>)
    requires |a| == |b| == |c| == |d| == |e| == |f| == 3 && 1 <= |g| <= 3
    ensures Base64.Encode(a + (b + (c + (d + (e + (f + g)))))) ==
            Base64.Quad(a) + (Base64.Quad(b) + (Base64.Quad(c) + (Base64.Quad(d)
            + (Base64.Quad(e) + (Base64.Quad(f) + Base64.Quad(g))))))
  {
    hide Base64.Quad, Base64.Encode;
    EncodeStep(f, g);
    EncodeStep(e, f + g);
    EncodeStep(d, e + (f + g));
    EncodeStep(c, d + (e + (f + g)));
    EncodeStep(b, c + (d + (e + (f + g))));
    EncodeStep(a, b + (c + (d + (e + (f + g)))));
    LastGroup(g);
  }

  lemma LastGroup(g: seq<byte>)
    requires 1 <= |g| <= 3
    ensures Base64.Encode(g) == Base64.Quad(g)
  {
    hide Base64.Quad;
  }

  lemma EncodeStep(group: seq<byte>, rest: seq<byte>)
    requires |group| == 3 && rest != []
    ensures Base64.Encode(group + rest) == Base64.Quad(group) + Base64.Encode(rest)
  {
    hide Base64.Quad;
    assert (group + rest)[..3] == group && (group + rest)[3..] == rest;
  }

  const SAMPLE_DIGEST: seq<byte> :=
    [0xb3, 0x7a, 0x4f, 0x2c, 0xc0, 0x62, 0x4f, 0x16, 0x90, 0xf6,
     0x46, 0x06, 0xcf, 0x38, 0x59, 0x45, 0xb2, 0xbe, 0xc4, 0xea]

  lemma SampleText()
    ensures Base64.Encode(SAMPLE_DIGEST) == "s3pPLMBiTxaQ9kYGzzhZRbK+xOo="
  {
    SampleQuads();
    MoreQuads();
    hide Base64.Quad, Base64.Encode;
    SevenGroups([0xb3, 0x7a, 0x4f], [0x2c, 0xc0, 0x62], [0x4f, 0x16, 0x90], [0xf6, 0x46, 0x06],
                [0xcf, 0x38, 0x59], [0x45, 0xb2, 0xbe], [0xc4, 0xea]);
    assert SAMPLE_DIGEST ==
           [0xb3, 0x7a, 0x4f] + ([0x2c, 0xc0, 0x62] + ([0x4f, 0x16, 0x90]
           + ([0xf6, 0x46, 0x06] + ([0xcf, 0x38, 0x59] + ([0x45, 0xb2, 0xbe] + ([0xc4, 0xea]))))));
  }

  /** The sample key is answered with the accept key that the standard gives for it. */
  lemma SampleAcceptKey()
    ensures AcceptKey("dGhlIHNhbXBsZSBub25jZQ==") == "s3pPLMBiTxaQ9kYGzzhZRbK+xOo="
  {
    SampleMessage();
    KnownDigests.KeyDigest();
    SampleText();
    PlainDigest();
    assert SAMPLE == "dGhlIHNhbXBsZSBub25jZQ==";
    hide CharOctets, Sha1.Digest, Base64.Encode, Plain, KnownDigests.KeyMessage;
  }

  lemma PlainDigest()
    ensures Plain([0xb3, 0x7a, 0x4f, 0x2c, 0xc0, 0x62, 0x4f, 0x16, 0x90, 0xf6,
                   0x46, 0x06, 0xcf, 0x38, 0x59, 0x45, 0xb2, 0xbe, 0xc4, 0xea])
            == SAMPLE_DIGEST
  {
    var a: seq<Sha1.Octet> := [0xb3, 0x7a, 0x4f, 0x2c, 0xc0, 0x62, 0x4f, 0x16, 0x90, 0xf6];
    var b: seq<Sha1.Octet> := [0x46, 0x06, 0xcf, 0x38, 0x59, 0x45, 0xb2, 0xbe, 0xc4, 0xea];
    PlainStart();
    PlainEnd();
    hide Plain;
    PlainAppend(a, b);
    assert a + b == [0xb3, 0x7a, 0x4f, 0x2c, 0xc0, 0x62, 0x4f, 0x16, 0x90, 0xf6,
                     0x46, 0x06, 0xcf, 0x38, 0x59, 0x45, 0xb2, 0xbe, 0xc4, 0xea];
  }

  lemma PlainStart()
    ensures Plain([0xb3, 0x7a, 0x4f, 0x2c, 0xc0, 0x62, 0x4f, 0x16, 0x90, 0xf6]) ==
            [0xb3, 0x7a, 0x4f, 0x2c, 0xc0, 0x62, 0x4f, 0x16, 0x90, 0xf6]
  {
  }

  lemma PlainEnd()
    ensures Plain([0x46, 0x06, 0xcf, 0x38, 0x59, 0x45, 0xb2, 0xbe, 0xc4, 0xea]) ==
            [0x46, 0x06, 0xcf, 0x38, 0x59, 0x45, 0xb2, 0xbe, 0xc4, 0xea]
  {
  }

  lemma PlainAppend(a: seq<Sha1.Octet>, b: seq<Sha1.Octet>)
    ensures Plain(a + b) == Plain(a) + Plain(b)
  {
  }
}

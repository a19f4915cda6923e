/** Two digests worked out round by round: tables with the first word of the hash after each round and with
    all words of the schedule, checked line by line against section 6.1.2 of FIPS 180-4. */
module KnownDigests {
  import opened Sha1
  import opened Bytes

  /** Eight words that belong to successive rounds. */
  datatype Line = Line(w0: bv32, w1: bv32, w2: bv32, w3: bv32, w4: bv32, w5: bv32, w6: bv32, w7: bv32)

  /** One round; of the five words of the hash only the first is new. */
  predicate Link(t: nat, a: bv32, b: bv32, c: bv32, d: bv32, e: bv32, w: bv32, next: bv32) {
    next == Sum5(Rol(e, 5), F(t, d, Rol(c, 30), Rol(b, 30)), Rol(a, 30), K(t), w)
  }

  /** The rounds from t on take the line p to the line a. */
  predicate Follows(t: nat, p: Line, a: Line, w: Line) {
    && Link(t, p.w3, p.w4, p.w5, p.w6, p.w7, w.w0, a.w0)
    && Link(t + 1, p.w4, p.w5, p.w6, p.w7, a.w0, w.w1, a.w1)
    && Link(t + 2, p.w5, p.w6, p.w7, a.w0, a.w1, w.w2, a.w2)
    && Link(t + 3, p.w6, p.w7, a.w0, a.w1, a.w2, w.w3, a.w3)
    && Link(t + 4, p.w7, a.w0, a.w1, a.w2, a.w3, w.w4, a.w4)
    && Link(t + 5, a.w0, a.w1, a.w2, a.w3, a.w4, w.w5, a.w5)
    && Link(t + 6, a.w1, a.w2, a.w3, a.w4, a.w5, w.w6, a.w6)
    && Link(t + 7, a.w2, a.w3, a.w4, a.w5, a.w6, w.w7, a.w7)
  }

  function Scheduled(x: bv32, y: bv32, z: bv32, v: bv32): bv32 {
    Rol(x ^ y ^ z ^ v, 1)
  }

  /** The schedule goes on from u and v with w. */
  predicate Extends(u: Line, v: Line, w: Line) {
    && w.w0 == Scheduled(v.w5, v.w0, u.w2, u.w0)
    && w.w1 == Scheduled(v.w6, v.w1, u.w3, u.w1)
    && w.w2 == Scheduled(v.w7, v.w2, u.w4, u.w2)
    && w.w3 == Scheduled(w.w0, v.w3, u.w5, u.w3)
    && w.w4 == Scheduled(w.w1, v.w4, u.w6, u.w4)
    && w.w5 == Scheduled(w.w2, v.w5, u.w7, u.w5)
    && w.w6 == Scheduled(w.w3, v.w6, v.w0, u.w6)
    && w.w7 == Scheduled(w.w4, v.w7, v.w1, u.w7)
  }

  /** The words of a block from t on. */
  predicate LineAt(block: seq<Octet>, t: nat, w: Line)
    requires |block| == 64
  {
    && W(block, t) == w.w0 && W(block, t + 1) == w.w1 && W(block, t + 2) == w.w2 && W(block, t + 3) == w.w3
    && W(block, t + 4) == w.w4 && W(block, t + 5) == w.w5 && W(block, t + 6) == w.w6 && W(block, t + 7) == w.w7
  }

  /** The hash that the last five words of a line stand for. */
  function Last(a: Line): Hash {
    Hash(a.w7, a.w6, Rol(a.w5, 30), Rol(a.w4, 30), Rol(a.w3, 30))
  }

  lemma OneRound(h: Hash, block: seq<Octet>, t: nat, a: bv32, b: bv32, c: bv32, d: bv32, e: bv32, next: bv32)
    requires |block| == 64 && Rounds(h, block, t) == Hash(e, d, Rol(c, 30), Rol(b, 30), Rol(a, 30))
    requires Link(t, a, b, c, d, e, W(block, t), next)
    ensures Rounds(h, block, t + 1) == Hash(next, e, Rol(d, 30), Rol(c, 30), Rol(b, 30))
  {
    hide Rotate, Rol, F, K, Sum5, W;
    RolRotates(e);
    RolRotates(d);
  }

  lemma EightRounds(h: Hash, block: seq<Octet>, t: nat, p: Line, a: Line, w: Line)
    requires |block| == 64 && LineAt(block, t, w) && Follows(t, p, a, w)
    requires Rounds(h, block, t) == Last(p)
    ensures Rounds(h, block, t + 8) == Last(a)
  {
    hide Rol, Link, W, Rounds;
    OneRound(h, block, t, p.w3, p.w4, p.w5, p.w6, p.w7, a.w0);
    OneRound(h, block, t + 1, p.w4, p.w5, p.w6, p.w7, a.w0, a.w1);
    OneRound(h, block, t + 2, p.w5, p.w6, p.w7, a.w0, a.w1, a.w2);
    OneRound(h, block, t + 3, p.w6, p.w7, a.w0, a.w1, a.w2, a.w3);
    OneRound(h, block, t + 4, p.w7, a.w0, a.w1, a.w2, a.w3, a.w4);
    OneRound(h, block, t + 5, a.w0, a.w1, a.w2, a.w3, a.w4, a.w5);
    OneRound(h, block, t + 6, a.w1, a.w2, a.w3, a.w4, a.w5, a.w6);
    OneRound(h, block, t + 7, a.w2, a.w3, a.w4, a.w5, a.w6, a.w7);
  }

  lemma NextWord(block: seq<Octet>, t: nat)
    requires |block| == 64 && t >= 16
    ensures W(block, t) == Scheduled(W(block, t - 3), W(block, t - 8), W(block, t - 14), W(block, t - 16))
  {
    hide W, Rol;
    ScheduleWord(block, t);
  }

  lemma MoreWords(block: seq<Octet>, t: nat, u: Line, v: Line, w: Line)
    requires |block| == 64 && LineAt(block, t, u) && LineAt(block, t + 8, v) && Extends(u, v, w)
    ensures LineAt(block, t + 16, w)
  {
    hide Scheduled, W;
    NextWord(block, t + 16);
    NextWord(block, t + 17);
    NextWord(block, t + 18);
    NextWord(block, t + 19);
    NextWord(block, t + 20);
    NextWord(block, t + 21);
    NextWord(block, t + 22);
    NextWord(block, t + 23);
  }

  /** A block given by its words. */
  function BlockOf(u: Line, v: Line): (block: seq<Octet>)
    ensures |block| == 64
  {
    LineOctets(u) + LineOctets(v)
  }

  function LineOctets(u: Line): (o: seq<Octet>)
    ensures |o| == 32
  {
    FourWords(u.w0, u.w1, u.w2, u.w3) + FourWords(u.w4, u.w5, u.w6, u.w7)
  }

  function FourWords(a: bv32, b: bv32, c: bv32, d: bv32): (o: seq<Octet>)
    ensures |o| == 16
  {
    WordOctets(a) + WordOctets(b) + WordOctets(c) + WordOctets(d)
  }

  lemma WordOf(block: seq<Octet>, t: nat, w: bv32)
    requires |block| == 64 && t < 16 && block[4 * t..4 * t + 4] == WordOctets(w)
    ensures W(block, t) == w
  {
    var o := block[4 * t..4 * t + 4];
    assert block[4 * t] == o[0] && block[4 * t + 1] == o[1] && block[4 * t + 2] == o[2] && block[4 * t + 3] == o[3];
    Reassembled(w);
  }

  lemma Reassembled(w: bv32)
    ensures (((w >> 24) as bv8 as bv32) << 24) | ((((w >> 16) & 0xff) as bv8 as bv32) << 16) |
            ((((w >> 8) & 0xff) as bv8 as bv32) << 8) | ((w & 0xff) as bv8 as bv32) == w
  {
  }

  lemma Quarters(o: seq<Octet>, a: seq<Octet>, b: seq<Octet>, c: seq<Octet>, d: seq<Octet>)
    requires |a| == |b| == |c| == |d| == 4 && o == a + b + c + d
    ensures o[0..4] == a && o[4..8] == b && o[8..12] == c && o[12..16] == d
  {
  }

  lemma SliceOfSlice(s: seq<Octet>, k: nat, i: nat)
    requires i <= 12 && k + 16 <= |s|
    ensures s[k..k + 16][i..i + 4] == s[k + i..k + i + 4]
  {
    var x, y := s[k..k + 16][i..i + 4], s[k + i..k + i + 4];
    assert x[0] == y[0] && x[1] == y[1] && x[2] == y[2] && x[3] == y[3];
  }

  lemma FourOf(block: seq<Octet>, t: nat, a: bv32, b: bv32, c: bv32, d: bv32)
    requires |block| == 64 && t <= 12 && block[4 * t..4 * t + 16] == FourWords(a, b, c, d)
    ensures W(block, t) == a && W(block, t + 1) == b && W(block, t + 2) == c && W(block, t + 3) == d
  {
    hide WordOctets, W;
    Quarters(block[4 * t..4 * t + 16], WordOctets(a), WordOctets(b), WordOctets(c), WordOctets(d));
    SliceOfSlice(block, 4 * t, 0);
    SliceOfSlice(block, 4 * t, 4);
    SliceOfSlice(block, 4 * t, 8);
    SliceOfSlice(block, 4 * t, 12);
    WordOf(block, t, a);
    WordOf(block, t + 1, b);
    WordOf(block, t + 2, c);
    WordOf(block, t + 3, d);
  }

  lemma BlockWords(u: Line, v: Line)
    ensures LineAt(BlockOf(u, v), 0, u) && LineAt(BlockOf(u, v), 8, v)
  {
    hide FourWords, W;
    var block := BlockOf(u, v);
    assert block[0..16] == FourWords(u.w0, u.w1, u.w2, u.w3) && block[16..32] == FourWords(u.w4, u.w5, u.w6, u.w7);
    assert block[32..48] == FourWords(v.w0, v.w1, v.w2, v.w3) && block[48..64] == FourWords(v.w4, v.w5, v.w6, v.w7);
    FourOf(block, 0, u.w0, u.w1, u.w2, u.w3);
    FourOf(block, 4, u.w4, u.w5, u.w6, u.w7);
    FourOf(block, 8, v.w0, v.w1, v.w2, v.w3);
    FourOf(block, 12, v.w4, v.w5, v.w6, v.w7);
  }

  lemma Finished(h: Hash, block: seq<Octet>, a: Line)
    requires |block| == 64 && Rounds(h, block, 80) == Last(a)
    ensures Compress(h, block) == Sum(h, Last(a))
  {
  }

  lemma StartLine(h: Hash, block: seq<Octet>, p: Line)
    requires |block| == 64 && Last(p) == h
    ensures Rounds(h, block, 0) == Last(p)
  {
  }

  // ----- The block of "abc"

  const ABC_0 := Line(0x00000000, 0x00000000, 0x00000000, 0x0f4b87c3, 0x40c951d8, 0x62eb73fa, 0xefcdab89, 0x67452301)
  const ABC_1 := Line(0x0116fc33, 0x8990536d, 0xa1390f08, 0xcdd8e11b, 0xcfd499de, 0x3fc7ca40, 0x993e30c1, 0x9e8c07d4)
  const ABC_2 := Line(0x4b6ae328, 0x8351f929, 0xfbda9e89, 0x63188fe4, 0x4607b664, 0x9128f695, 0x196bee77, 0x20bdd62f)
  const ABC_3 := Line(0x4e925823, 0x82aa6728, 0xdc64901d, 0xfd9e1d7d, 0x1a37b0ca, 0x33a23bfc, 0x21283486, 0xd541f12d)
  const ABC_4 := Line(0xc7567dc6, 0x48413ba4, 0xbe35fbd5, 0x4aa84d97, 0x8370b52e, 0xc5fbaf5d, 0x1267b407, 0x3b845d33)
  const ABC_5 := Line(0x046faa0a, 0x2c0ebc11, 0x21796ad4, 0xdcbbb0cb, 0x0f511fd8, 0xdc63973f, 0x4c986405, 0x32de1cba)
  const ABC_6 := Line(0xfc87dedf, 0x970a0d5c, 0x7f193dc5, 0xee1b1aaf, 0x40f28e09, 0x1c51e1f2, 0xa01b846c, 0xbead02ca)
  const ABC_7 := Line(0xbaf39337, 0x120731c5, 0x641db2ce, 0x3847ad66, 0xe490436d, 0x27e9f1d8, 0x7b71f76d, 0x5e6456af)
  const ABC_8 := Line(0xc846093f, 0xd262ff50, 0x09d785fd, 0x3f52de5a, 0xd756c147, 0x548c9cb2, 0xb66c020b, 0x6b61c9e1)
  const ABC_9 := Line(0x19dfa7ac, 0x101655f9, 0x0c3df2b4, 0x78dd4d2b, 0x497093c0, 0x3f2588c2, 0xc199f8c7, 0x39859de7)
  const ABC_10 := Line(0xedb42de4, 0x11793f6f, 0x5ee76897, 0x63f7dab7, 0xa079b7d9, 0x860d21cc, 0x5738d5e1, 0x42541b35)
  const ABC_W1 := Line(0x61626380, 0x00000000, 0x00000000, 0x00000000, 0x00000000, 0x00000000, 0x00000000, 0x00000000)
  const ABC_W2 := Line(0x00000000, 0x00000000, 0x00000000, 0x00000000, 0x00000000, 0x00000000, 0x00000000, 0x00000018)
  const ABC_W3 := Line(0xc2c4c700, 0x00000000, 0x00000030, 0x85898e01, 0x00000000, 0x00000060, 0x0b131c03, 0x00000030)
  const ABC_W4 := Line(0x85898ec1, 0x16263806, 0x00000000, 0x00000180, 0x2c4c700c, 0x000000f0, 0x93afb507, 0x5898e048)
  const ABC_W5 := Line(0x8e9a9202, 0x00000600, 0xb131c0f0, 0x16263bc6, 0x4ebed41e, 0x626380a1, 0x16263806, 0x000018c0)
  const ABC_W6 := Line(0xd2e138c4, 0x00000f00, 0x3afb5079, 0x898e04e5, 0xe2ba3c2b, 0x000060c0, 0x053a37cd, 0x74458547)
  const ABC_W7 := Line(0xda9415ed, 0x26380a16, 0x626383a1, 0x4ebf54de, 0x3835b44b, 0x0000f600, 0x1e84c7a3, 0x98e04d98)
  const ABC_W8 := Line(0x651d16a0, 0x62658ca1, 0x458544d6, 0x44584cb7, 0x7ba06619, 0x6380aea2, 0x0ae55269, 0x627b49a1)
  const ABC_W9 := Line(0x7cd45c9d, 0x000f0000, 0xfb50753a, 0xec6765e8, 0xba3c2be2, 0x0060c000, 0x3a37cd05, 0x458546f4)
  const ABC_W10 := Line(0xb8599dd6, 0x380a1a26, 0x01e02203, 0xe7cc3456, 0xe6e60b69, 0x00f60a00, 0x5795ef4f, 0x822e0879)

  lemma AbcRounds8()
    ensures Follows(0, ABC_0, ABC_1, ABC_W1)
  {
  }

  lemma AbcRounds16()
    ensures Follows(8, ABC_1, ABC_2, ABC_W2)
  {
  }

  lemma AbcRounds24()
    ensures Follows(16, ABC_2, ABC_3, ABC_W3)
    ensures Extends(ABC_W1, ABC_W2, ABC_W3)
  {
  }

  lemma AbcRounds32()
    ensures Follows(24, ABC_3, ABC_4, ABC_W4)
    ensures Extends(ABC_W2, ABC_W3, ABC_W4)
  {
  }

  lemma AbcRounds40()
    ensures Follows(32, ABC_4, ABC_5, ABC_W5)
    ensures Extends(ABC_W3, ABC_W4, ABC_W5)
  {
  }

  lemma AbcRounds48()
    ensures Follows(40, ABC_5, ABC_6, ABC_W6)
    ensures Extends(ABC_W4, ABC_W5, ABC_W6)
  {
  }

  lemma AbcRounds56()
    ensures Follows(48, ABC_6, ABC_7, ABC_W7)
    ensures Extends(ABC_W5, ABC_W6, ABC_W7)
  {
  }

  lemma AbcRounds64()
    ensures Follows(56, ABC_7, ABC_8, ABC_W8)
    ensures Extends(ABC_W6, ABC_W7, ABC_W8)
  {
  }

  lemma AbcRounds72()
    ensures Follows(64, ABC_8, ABC_9, ABC_W9)
    ensures Extends(ABC_W7, ABC_W8, ABC_W9)
  {
  }

  lemma AbcRounds80()
    ensures Follows(72, ABC_9, ABC_10, ABC_W10)
    ensures Extends(ABC_W8, ABC_W9, ABC_W10)
  {
  }

  lemma AbcEnds()
    ensures Last(ABC_0) == Hash(0x67452301, 0xefcdab89, 0x98badcfe, 0x10325476, 0xc3d2e1f0)
    ensures Sum(Hash(0x67452301, 0xefcdab89, 0x98badcfe, 0x10325476, 0xc3d2e1f0), Last(ABC_10)) ==
            Hash(0xa9993e36, 0x4706816a, 0xba3e2571, 0x7850c26c, 0x9cd0d89d)
  {
  }

  lemma AbcCompressed()
    ensures Compress(Hash(0x67452301, 0xefcdab89, 0x98badcfe, 0x10325476, 0xc3d2e1f0), BlockOf(ABC_W1, ABC_W2)) ==
            Hash(0xa9993e36, 0x4706816a, 0xba3e2571, 0x7850c26c, 0x9cd0d89d)
  {
    hide *;
    var h, block := Hash(0x67452301, 0xefcdab89, 0x98badcfe, 0x10325476, 0xc3d2e1f0), BlockOf(ABC_W1, ABC_W2);
    BlockWords(ABC_W1, ABC_W2);
    AbcEnds();
    StartLine(h, block, ABC_0);
    AbcRounds8();
    EightRounds(h, block, 0, ABC_0, ABC_1, ABC_W1);
    AbcRounds16();
    EightRounds(h, block, 8, ABC_1, ABC_2, ABC_W2);
    AbcRounds24();
    MoreWords(block, 0, ABC_W1, ABC_W2, ABC_W3);
    EightRounds(h, block, 16, ABC_2, ABC_3, ABC_W3);
    AbcRounds32();
    MoreWords(block, 8, ABC_W2, ABC_W3, ABC_W4);
    EightRounds(h, block, 24, ABC_3, ABC_4, ABC_W4);
    AbcRounds40();
    MoreWords(block, 16, ABC_W3, ABC_W4, ABC_W5);
    EightRounds(h, block, 32, ABC_4, ABC_5, ABC_W5);
    AbcRounds48();
    MoreWords(block, 24, ABC_W4, ABC_W5, ABC_W6);
    EightRounds(h, block, 40, ABC_5, ABC_6, ABC_W6);
    AbcRounds56();
    MoreWords(block, 32, ABC_W5, ABC_W6, ABC_W7);
    EightRounds(h, block, 48, ABC_6, ABC_7, ABC_W7);
    AbcRounds64();
    MoreWords(block, 40, ABC_W6, ABC_W7, ABC_W8);
    EightRounds(h, block, 56, ABC_7, ABC_8, ABC_W8);
    AbcRounds72();
    MoreWords(block, 48, ABC_W7, ABC_W8, ABC_W9);
    EightRounds(h, block, 64, ABC_8, ABC_9, ABC_W9);
    AbcRounds80();
    MoreWords(block, 56, ABC_W8, ABC_W9, ABC_W10);
    EightRounds(h, block, 72, ABC_9, ABC_10, ABC_W10);
    Finished(h, block, ABC_10);
  }

  // ----- The first block of the sample key with the GUID

  const KEY1_0 := Line(0x00000000, 0x00000000, 0x00000000, 0x0f4b87c3, 0x40c951d8, 0x62eb73fa, 0xefcdab89, 0x67452301)
  const KEY1_1 := Line(0x03fc011f, 0x2f793f55, 0xbe90ee8f, 0x53e039ac, 0xdd8c7c12, 0x7320b969, 0x73553e84, 0x2e0ce601)
  const KEY1_2 := Line(0x32beb05a, 0xfaad2675, 0x5ff4238c, 0x34ceb986, 0x61bdb2bf, 0xae1a096e, 0xe922cc9d, 0xa004c468)
  const KEY1_3 := Line(0xd7daf575, 0x7ebb296b, 0x8dc510b6, 0x091ab97c, 0x518470a3, 0xd12f0b56, 0xbeafd554, 0x250e26ef)
  const KEY1_4 := Line(0x23d1c91b, 0x748b39a0, 0xef012f20, 0x571f7d82, 0x1abb1c37, 0x081b63e5, 0xb7dabc8b, 0xa6680a1f)
  const KEY1_5 := Line(0x1ae360a9, 0xeeaba35a, 0x149bb4d3, 0x9de793c8, 0x4ccd2227, 0x68760824, 0xd0869081, 0x2ba2c83e)
  const KEY1_6 := Line(0xcb8c52d0, 0x4f589a44, 0x868829b7, 0x6dc6a3d7, 0x5f5f3452, 0x72ff334d, 0xdee4b7a8, 0xabe1748a)
  const KEY1_7 := Line(0x7510d04f, 0x065f8486, 0x0e5d77c4, 0x10e7f671, 0x26c69395, 0x4c608ac4, 0x50c9104c, 0x7e1242f2)
  const KEY1_8 := Line(0x6ef6fef4, 0x0c247c2e, 0xd284f163, 0x4872d85a, 0xcd4200b8, 0x90f00d8f, 0x840054d3, 0x685e2ff6)
  const KEY1_9 := Line(0xa4cee018, 0xc3c2e45b, 0x53131a40, 0xcf8658ec, 0x966e049a, 0x07381b7e, 0x80d59773, 0x7e65e044)
  const KEY1_10 := Line(0x628e7b47, 0x143a8388, 0xe20983f9, 0x69cf0bca, 0x29171009, 0x97047bec, 0x835995e1, 0xf48a5426)
  const KEY1_W1 := Line(0x6447686c, 0x49484e68, 0x62584273, 0x5a534275, 0x6232356a, 0x5a513d3d, 0x32353845, 0x41464135)
  const KEY1_W2 := Line(0x2d453931, 0x342d3437, 0x44412d39, 0x3543412d, 0x43354142, 0x30444338, 0x35423131, 0x80000000)
  const KEY1_W3 := Line(0x363ca02c, 0x24e81236, 0x8856b441, 0x06fb3c92, 0x6fb4bcb6, 0x460b16e3, 0x599219ae, 0x35bf9369)
  const KEY1_W4 := Line(0x3267458e, 0xf828fd04, 0x753a96a7, 0x6336f612, 0xc3d66383, 0x06eb86f9, 0x73b4fd42, 0xa503c5b8)
  const KEY1_W5 := Line(0x15cdae35, 0x531e5dc5, 0x6fb6b7d0, 0x6c16e4ac, 0x4ddd36bd, 0x35d36946, 0xe8ae8b9c, 0x4a933ad0)
  const KEY1_W6 := Line(0xce8628b4, 0x415dba9e, 0x2792f049, 0x8e9b79e7, 0x79c425c5, 0x6353b49d, 0x00994218, 0x8a950ed1)
  const KEY1_W7 := Line(0xaf5d0b99, 0xfd9883de, 0x1ed8ffeb, 0xf007ff28, 0x425e3674, 0x059631c0, 0xad6c3c31, 0x860b71d7)
  const KEY1_W8 := Line(0x87bfc548, 0x3e64f92d, 0x8d0ab761, 0x34e1ee35, 0x0acf5108, 0xc2b479da, 0x6c93370a, 0xf7935ba1)
  const KEY1_W9 := Line(0xe91c91c1, 0xbed165a2, 0x4c3e4abe, 0x50d96238, 0xb6587dde, 0x1a2ee6e6, 0x2d335896, 0xf3495d0b)
  const KEY1_W10 := Line(0xf30e0a1d, 0x32ce5459, 0x7165e3b8, 0xab05ff94, 0xc5949f0b, 0xbcd84e4a, 0x07720392, 0xff3ff806)

  lemma Key1Rounds8()
    ensures Follows(0, KEY1_0, KEY1_1, KEY1_W1)
  {
  }

  lemma Key1Rounds16()
    ensures Follows(8, KEY1_1, KEY1_2, KEY1_W2)
  {
  }

  lemma Key1Rounds24()
    ensures Follows(16, KEY1_2, KEY1_3, KEY1_W3)
    ensures Extends(KEY1_W1, KEY1_W2, KEY1_W3)
  {
  }

  lemma Key1Rounds32()
    ensures Follows(24, KEY1_3, KEY1_4, KEY1_W4)
    ensures Extends(KEY1_W2, KEY1_W3, KEY1_W4)
  {
  }

  lemma Key1Rounds40()
    ensures Follows(32, KEY1_4, KEY1_5, KEY1_W5)
    ensures Extends(KEY1_W3, KEY1_W4, KEY1_W5)
  {
  }

  lemma Key1Rounds48()
    ensures Follows(40, KEY1_5, KEY1_6, KEY1_W6)
    ensures Extends(KEY1_W4, KEY1_W5, KEY1_W6)
  {
  }

  lemma Key1Rounds56()
    ensures Follows(48, KEY1_6, KEY1_7, KEY1_W7)
    ensures Extends(KEY1_W5, KEY1_W6, KEY1_W7)
  {
  }

  lemma Key1Rounds64()
    ensures Follows(56, KEY1_7, KEY1_8, KEY1_W8)
    ensures Extends(KEY1_W6, KEY1_W7, KEY1_W8)
  {
  }

  lemma Key1Rounds72()
    ensures Follows(64, KEY1_8, KEY1_9, KEY1_W9)
    ensures Extends(KEY1_W7, KEY1_W8, KEY1_W9)
  {
  }

  lemma Key1Rounds80()
    ensures Follows(72, KEY1_9, KEY1_10, KEY1_W10)
    ensures Extends(KEY1_W8, KEY1_W9, KEY1_W10)
  {
  }

  lemma Key1Ends()
    ensures Last(KEY1_0) == Hash(0x67452301, 0xefcdab89, 0x98badcfe, 0x10325476, 0xc3d2e1f0)
    ensures Sum(Hash(0x67452301, 0xefcdab89, 0x98badcfe, 0x10325476, 0xc3d2e1f0), Last(KEY1_10)) ==
            Hash(0x5bcf7727, 0x7327416a, 0xbe7bfbf9, 0x5a781878, 0x5e46a4e2)
  {
  }

  lemma Key1Compressed()
    ensures Compress(Hash(0x67452301, 0xefcdab89, 0x98badcfe, 0x10325476, 0xc3d2e1f0), BlockOf(KEY1_W1, KEY1_W2)) ==
            Hash(0x5bcf7727, 0x7327416a, 0xbe7bfbf9, 0x5a781878, 0x5e46a4e2)
  {
    hide *;
    var h, block := Hash(0x67452301, 0xefcdab89, 0x98badcfe, 0x10325476, 0xc3d2e1f0), BlockOf(KEY1_W1, KEY1_W2);
    BlockWords(KEY1_W1, KEY1_W2);
    Key1Ends();
    StartLine(h, block, KEY1_0);
    Key1Rounds8();
    EightRounds(h, block, 0, KEY1_0, KEY1_1, KEY1_W1);
    Key1Rounds16();
    EightRounds(h, block, 8, KEY1_1, KEY1_2, KEY1_W2);
    Key1Rounds24();
    MoreWords(block, 0, KEY1_W1, KEY1_W2, KEY1_W3);
    EightRounds(h, block, 16, KEY1_2, KEY1_3, KEY1_W3);
    Key1Rounds32();
    MoreWords(block, 8, KEY1_W2, KEY1_W3, KEY1_W4);
    EightRounds(h, block, 24, KEY1_3, KEY1_4, KEY1_W4);
    Key1Rounds40();
    MoreWords(block, 16, KEY1_W3, KEY1_W4, KEY1_W5);
    EightRounds(h, block, 32, KEY1_4, KEY1_5, KEY1_W5);
    Key1Rounds48();
    MoreWords(block, 24, KEY1_W4, KEY1_W5, KEY1_W6);
    EightRounds(h, block, 40, KEY1_5, KEY1_6, KEY1_W6);
    Key1Rounds56();
    MoreWords(block, 32, KEY1_W5, KEY1_W6, KEY1_W7);
    EightRounds(h, block, 48, KEY1_6, KEY1_7, KEY1_W7);
    Key1Rounds64();
    MoreWords(block, 40, KEY1_W6, KEY1_W7, KEY1_W8);
    EightRounds(h, block, 56, KEY1_7, KEY1_8, KEY1_W8);
    Key1Rounds72();
    MoreWords(block, 48, KEY1_W7, KEY1_W8, KEY1_W9);
    EightRounds(h, block, 64, KEY1_8, KEY1_9, KEY1_W9);
    Key1Rounds80();
    MoreWords(block, 56, KEY1_W8, KEY1_W9, KEY1_W10);
    EightRounds(h, block, 72, KEY1_9, KEY1_10, KEY1_W10);
    Finished(h, block, KEY1_10);
  }

  // ----- The second block

  const KEY2_0 := Line(0x00000000, 0x00000000, 0x00000000, 0x791a9389, 0x69e061e1, 0xf9efefe6, 0x7327416a, 0x5bcf7727)
  const KEY2_1 := Line(0x6d335cde, 0x186006b8, 0xf9fb295d, 0x15855523, 0xe43dd2f2, 0x93a5efbb, 0xb3bbcafe, 0x25c018be)
  const KEY2_2 := Line(0x80946593, 0x0b0814c3, 0x4ce92417, 0x250601ad, 0x6576d2dc, 0xad43f39e, 0x990b7be7, 0x986df268)
  const KEY2_3 := Line(0x3ad7440e, 0x72198f06, 0x2f193a09, 0x2a008b51, 0x12315b2b, 0x40fbcf98, 0x3e5179e7, 0x53c73650)
  const KEY2_4 := Line(0x1d24c44a, 0x646c677d, 0xd2e726da, 0x9327df6f, 0xf57cb53e, 0x243ee057, 0xf4ddd7b7, 0x3cf6eb58)
  const KEY2_5 := Line(0x730e9170, 0x96d9e59e, 0x942ac4d3, 0x76922a14, 0x7dbcf2ed, 0x796adef3, 0xc6ff0cd3, 0x6f698f1a)
  const KEY2_6 := Line(0x78716769, 0xfc343a02, 0xedfcd85b, 0x1e934acf, 0xfc7bd35f, 0x3bd9203b, 0xc8cda3da, 0xa3ef857e)
  const KEY2_7 := Line(0xa39f2041, 0xa516f265, 0xa3abe4f5, 0x5fe2a3db, 0x9e540637, 0x2c73bd78, 0x660dd0b1, 0xa1b68141)
  const KEY2_8 := Line(0x05033fa3, 0x21289715, 0x085eb2fe, 0x56119f19, 0x77489e23, 0x11132f8f, 0xd5ef1ed7, 0xa5937450)
  const KEY2_9 := Line(0x9ecfa66c, 0x17a22ef7, 0xc97f1968, 0x097a511c, 0x4e363db9, 0xbf3a7f95, 0xf6d1afee, 0xc90888ca)
  const KEY2_10 := Line(0xc7652edb, 0x26f99990, 0xe22b36d1, 0x51e08021, 0xd3010335, 0x49e92837, 0x4d3b0dac, 0x57aad805)
  const KEY2_W1 := Line(0x00000000, 0x00000000, 0x00000000, 0x00000000, 0x00000000, 0x00000000, 0x00000000, 0x00000000)
  const KEY2_W2 := Line(0x00000000, 0x00000000, 0x00000000, 0x00000000, 0x00000000, 0x00000000, 0x00000000, 0x000001e0)
  const KEY2_W3 := Line(0x00000000, 0x00000000, 0x000003c0, 0x00000000, 0x00000000, 0x00000780, 0x00000000, 0x000003c0)
  const KEY2_W4 := Line(0x00000f00, 0x00000000, 0x00000000, 0x00001e00, 0x00000000, 0x00000cc0, 0x00003c00, 0x00000440)
  const KEY2_W5 := Line(0x00000000, 0x00007800, 0x00000f00, 0x00003300, 0x0000f000, 0x00000f00, 0x00000000, 0x0001ef00)
  const KEY2_W6 := Line(0x00000000, 0x0000cc00, 0x0003c000, 0x00004380, 0x00000000, 0x00078f00, 0x0000ff00, 0x00032680)
  const KEY2_W7 := Line(0x000f0000, 0x0000f000, 0x00003300, 0x001eff00, 0x00000000, 0x000cb800, 0x003c0000, 0x00040b00)
  const KEY2_W8 := Line(0x0000f000, 0x0078ff00, 0x000ff000, 0x00338700, 0x00f00000, 0x000fc300, 0x0000f000, 0x01efbb00)
  const KEY2_W9 := Line(0x00000000, 0x00cc0000, 0x03c0f000, 0x00438000, 0x00000000, 0x078f0000, 0x00ff0000, 0x03269e00)
  const KEY2_W10 := Line(0x0f000000, 0x00f0f000, 0x00333c00, 0x1eff8800, 0x00000000, 0x0cb88800, 0x3c00f000, 0x040a4a00)

  lemma Key2Rounds8()
    ensures Follows(0, KEY2_0, KEY2_1, KEY2_W1)
  {
  }

  lemma Key2Rounds16()
    ensures Follows(8, KEY2_1, KEY2_2, KEY2_W2)
  {
  }

  lemma Key2Rounds24()
    ensures Follows(16, KEY2_2, KEY2_3, KEY2_W3)
    ensures Extends(KEY2_W1, KEY2_W2, KEY2_W3)
  {
  }

  lemma Key2Rounds32()
    ensures Follows(24, KEY2_3, KEY2_4, KEY2_W4)
    ensures Extends(KEY2_W2, KEY2_W3, KEY2_W4)
  {
  }

  lemma Key2Rounds40()
    ensures Follows(32, KEY2_4, KEY2_5, KEY2_W5)
    ensures Extends(KEY2_W3, KEY2_W4, KEY2_W5)
  {
  }

  lemma Key2Rounds48()
    ensures Follows(40, KEY2_5, KEY2_6, KEY2_W6)
    ensures Extends(KEY2_W4, KEY2_W5, KEY2_W6)
  {
  }

  lemma Key2Rounds56()
    ensures Follows(48, KEY2_6, KEY2_7, KEY2_W7)
    ensures Extends(KEY2_W5, KEY2_W6, KEY2_W7)
  {
  }

  lemma Key2Rounds64()
    ensures Follows(56, KEY2_7, KEY2_8, KEY2_W8)
    ensures Extends(KEY2_W6, KEY2_W7, KEY2_W8)
  {
  }

  lemma Key2Rounds72()
    ensures Follows(64, KEY2_8, KEY2_9, KEY2_W9)
    ensures Extends(KEY2_W7, KEY2_W8, KEY2_W9)
  {
  }

  lemma Key2Rounds80()
    ensures Follows(72, KEY2_9, KEY2_10, KEY2_W10)
    ensures Extends(KEY2_W8, KEY2_W9, KEY2_W10)
  {
  }

  lemma Key2Ends()
    ensures Last(KEY2_0) == Hash(0x5bcf7727, 0x7327416a, 0xbe7bfbf9, 0x5a781878, 0x5e46a4e2)
    ensures Sum(Hash(0x5bcf7727, 0x7327416a, 0xbe7bfbf9, 0x5a781878, 0x5e46a4e2), Last(KEY2_10)) ==
            Hash(0xb37a4f2c, 0xc0624f16, 0x90f64606, 0xcf385945, 0xb2bec4ea)
  {
  }

  lemma Key2Compressed()
    ensures Compress(Hash(0x5bcf7727, 0x7327416a, 0xbe7bfbf9, 0x5a781878, 0x5e46a4e2), BlockOf(KEY2_W1, KEY2_W2)) ==
            Hash(0xb37a4f2c, 0xc0624f16, 0x90f64606, 0xcf385945, 0xb2bec4ea)
  {
    hide *;
    var h, block := Hash(0x5bcf7727, 0x7327416a, 0xbe7bfbf9, 0x5a781878, 0x5e46a4e2), BlockOf(KEY2_W1, KEY2_W2);
    BlockWords(KEY2_W1, KEY2_W2);
    Key2Ends();
    StartLine(h, block, KEY2_0);
    Key2Rounds8();
    EightRounds(h, block, 0, KEY2_0, KEY2_1, KEY2_W1);
    Key2Rounds16();
    EightRounds(h, block, 8, KEY2_1, KEY2_2, KEY2_W2);
    Key2Rounds24();
    MoreWords(block, 0, KEY2_W1, KEY2_W2, KEY2_W3);
    EightRounds(h, block, 16, KEY2_2, KEY2_3, KEY2_W3);
    Key2Rounds32();
    MoreWords(block, 8, KEY2_W2, KEY2_W3, KEY2_W4);
    EightRounds(h, block, 24, KEY2_3, KEY2_4, KEY2_W4);
    Key2Rounds40();
    MoreWords(block, 16, KEY2_W3, KEY2_W4, KEY2_W5);
    EightRounds(h, block, 32, KEY2_4, KEY2_5, KEY2_W5);
    Key2Rounds48();
    MoreWords(block, 24, KEY2_W4, KEY2_W5, KEY2_W6);
    EightRounds(h, block, 40, KEY2_5, KEY2_6, KEY2_W6);
    Key2Rounds56();
    MoreWords(block, 32, KEY2_W5, KEY2_W6, KEY2_W7);
    EightRounds(h, block, 48, KEY2_6, KEY2_7, KEY2_W7);
    Key2Rounds64();
    MoreWords(block, 40, KEY2_W6, KEY2_W7, KEY2_W8);
    EightRounds(h, block, 56, KEY2_7, KEY2_8, KEY2_W8);
    Key2Rounds72();
    MoreWords(block, 48, KEY2_W7, KEY2_W8, KEY2_W9);
    EightRounds(h, block, 64, KEY2_8, KEY2_9, KEY2_W9);
    Key2Rounds80();
    MoreWords(block, 56, KEY2_W8, KEY2_W9, KEY2_W10);
    EightRounds(h, block, 72, KEY2_9, KEY2_10, KEY2_W10);
    Finished(h, block, KEY2_10);
  }

  // ----- The digests

  lemma {:induction false} ManyZeros(m: nat, n: nat)
    ensures Zeros(m) + Zeros(n) == Zeros(m + n)
  {
  }

  lemma ZeroWord()
    ensures WordOctets(0) == Zeros(4)
    ensures FourWords(0, 0, 0, 0) == Zeros(16)
  {
    assert WordOctets(0) == [0, 0, 0, 0];
    ManyZeros(4, 4);
    ManyZeros(8, 4);
    ManyZeros(12, 4);
  }

  /** The length in bits at the end of a block. */
  lemma LengthOctets(bits: nat, w: bv32)
    requires bits < 0x1_0000_0000 && WordOctets(w) == Octets(Big(bits, 4))
    ensures Octets(Big(bits, 8)) == Zeros(4) + WordOctets(w)
  {
    hide Big, WordOctets;
    BigSplit(bits, 4, 4);
    HighFour(bits);
    BigFour(0);
  }

  lemma AbcOctets()
    ensures LineOctets(ABC_W1) == [0x61, 0x62, 0x63] + [0x80] + Zeros(28)
    ensures LineOctets(ABC_W2) == Zeros(28) + WordOctets(0x18)
    ensures WordOctets(0x18) == Octets(Big(24, 4))
  {
    BigFour(24);
    ZeroWord();
    assert WordOctets(0x61626380) == [0x61, 0x62, 0x63] + [0x80];
    assert WordOctets(0x18) == [0, 0, 0, 0x18];
    hide WordOctets, Big;
    ManyZeros(4, 4);
    ManyZeros(8, 4);
    ManyZeros(12, 16);
    ManyZeros(16, 12);
  }

  lemma AbcPadded()
    ensures [0x61, 0x62, 0x63] + Padding(3, 24) == BlockOf(ABC_W1, ABC_W2)
  {
    hide LineOctets, WordOctets, Big, Octets;
    AbcOctets();
    LengthOctets(24, 0x18);
    assert ZeroCount(3) == 52;
    ManyZeros(28, 28);
    ManyZeros(52, 4);
  }

  /** The digest of "abc", as the examples to FIPS 180-4 give it. */
  lemma AbcDigest()
    ensures Digest([0x61, 0x62, 0x63]) ==
            [0xa9, 0x99, 0x3e, 0x36, 0x47, 0x06, 0x81, 0x6a, 0xba, 0x3e,
             0x25, 0x71, 0x78, 0x50, 0xc2, 0x6c, 0x9c, 0xd0, 0xd8, 0x9d]
  {
    AbcHashOctets();
    hide *;
    var block := BlockOf(ABC_W1, ABC_W2);
    AbcPadded();
    AbcCompressed();
    EmptyHash();
    HashBlocksStep([], block);
    assert [] + block == block;
    assert |[0x61 as Octet, 0x62, 0x63]| == 3;
    DigestIs([0x61, 0x62, 0x63], block);
  }

  lemma AbcHashOctets()
    ensures INITIAL == Hash(0x67452301, 0xefcdab89, 0x98badcfe, 0x10325476, 0xc3d2e1f0)
    ensures HashOctets(Hash(0xa9993e36, 0x4706816a, 0xba3e2571, 0x7850c26c, 0x9cd0d89d)) ==
            [0xa9, 0x99, 0x3e, 0x36, 0x47, 0x06, 0x81, 0x6a, 0xba, 0x3e,
             0x25, 0x71, 0x78, 0x50, 0xc2, 0x6c, 0x9c, 0xd0, 0xd8, 0x9d]
  {
  }

  lemma DigestIs(message: seq<Octet>, padded: seq<Octet>)
    requires |padded| % 64 == 0 && message + Padding(|message|, 8 * |message|) == padded
    ensures Digest(message) == HashOctets(HashBlocks(padded))
  {
  }

  /** The sample key and the GUID, in words. */
  function KeyMessage(): (m: seq<Octet>)
    ensures |m| == 60
  {
    LineOctets(KEY1_W1) + FourWords(0x2d453931, 0x342d3437, 0x44412d39, 0x3543412d)
    + (WordOctets(0x43354142) + WordOctets(0x30444338) + WordOctets(0x35423131))
  }

  lemma KeyOctets()
    ensures LineOctets(KEY1_W2) == FourWords(0x2d453931, 0x342d3437, 0x44412d39, 0x3543412d)
            + (WordOctets(0x43354142) + WordOctets(0x30444338) + WordOctets(0x35423131) + ([0x80] + Zeros(3)))
    ensures LineOctets(KEY2_W1) == Zeros(32)
    ensures LineOctets(KEY2_W2) == Zeros(28) + WordOctets(0x1e0)
    ensures WordOctets(0x1e0) == Octets(Big(480, 4))
  {
    BigFour(480);
    ZeroWord();
    assert WordOctets(0x80000000) == [0x80] + Zeros(3);
    assert WordOctets(0x1e0) == [0, 0, 0x01, 0xe0];
    hide WordOctets, Big;
    ManyZeros(16, 16);
    ManyZeros(4, 4);
    ManyZeros(8, 4);
    ManyZeros(16, 12);
  }

  lemma KeyPadded()
    ensures KeyMessage() + Padding(60, 480) == BlockOf(KEY1_W1, KEY1_W2) + BlockOf(KEY2_W1, KEY2_W2)
  {
    hide LineOctets, FourWords, WordOctets, Big, Octets;
    KeyOctets();
    LengthOctets(480, 0x1e0);
    assert ZeroCount(60) == 59;
    ManyZeros(32, 28);
    ManyZeros(3, 60);
    ManyZeros(59, 4);
  }

  lemma KeyDigest()
    ensures Digest(KeyMessage()) ==
            [0xb3, 0x7a, 0x4f, 0x2c, 0xc0, 0x62, 0x4f, 0x16, 0x90, 0xf6,
             0x46, 0x06, 0xcf, 0x38, 0x59, 0x45, 0xb2, 0xbe, 0xc4, 0xea]
  {
    KeyHashOctets();
    AbcHashOctets();
    hide *;
    var first, second := BlockOf(KEY1_W1, KEY1_W2), BlockOf(KEY2_W1, KEY2_W2);
    KeyPadded();
    Key1Compressed();
    Key2Compressed();
    EmptyHash();
    HashBlocksStep([], first);
    HashBlocksStep(first, second);
    assert [] + first == first;
    DigestIs(KeyMessage(), first + second);
  }

  lemma KeyHashOctets()
    ensures HashOctets(Hash(0xb37a4f2c, 0xc0624f16, 0x90f64606, 0xcf385945, 0xb2bec4ea)) ==
            [0xb3, 0x7a, 0x4f, 0x2c, 0xc0, 0x62, 0x4f, 0x16, 0x90, 0xf6,
             0x46, 0x06, 0xcf, 0x38, 0x59, 0x45, 0xb2, 0xbe, 0xc4, 0xea]
  {
  }
}

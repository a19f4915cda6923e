/** SHA-1 as FIPS 180-4 defines it, and the streaming implementation of src/webby/webby.c. */
module Sha1 {
  import opened Words
  import opened Bytes

  type Octet = bv8

  // ----- FIPS 180-4

  datatype Hash = Hash(a: bv32, b: bv32, c: bv32, d: bv32, e: bv32)

  /** Section 5.3.1. */
  const INITIAL := Hash(0x67452301, 0xefcdab89, 0x98badcfe, 0x10325476, 0xc3d2e1f0)

  /** The functions of section 4.1.1. */
  function Ch(x: bv32, y: bv32, z: bv32): bv32 {
    (x & y) ^ (!x & z)
  }

  function Parity(x: bv32, y: bv32, z: bv32): bv32 {
    x ^ y ^ z
  }

  function Maj(x: bv32, y: bv32, z: bv32): bv32 {
    (x & y) ^ (x & z) ^ (y & z)
  }

  function F(t: nat, x: bv32, y: bv32, z: bv32): bv32 {
    if t < 20 then Ch(x, y, z) else if t < 40 then Parity(x, y, z) else if t < 60 then Maj(x, y, z) else Parity(x, y, z)
  }

  /** The constants of section 4.2.1. */
  function K(t: nat): bv32 {
    if t < 20 then 0x5a827999 else if t < 40 then 0x6ed9eba1 else if t < 60 then 0x8f1bbcdc else 0xca62c1d6
  }

  /** ROTL of section 3.2. */
  function Rotate(x: bv32, n: nat): bv32
    requires n <= 32
  {
    x.RotateLeft(n)
  }

  function WordAt(block: seq<Octet>, t: nat): bv32
    requires |block| == 64 && t < 16
  {
    ((block[4 * t] as bv32) << 24) | ((block[4 * t + 1] as bv32) << 16) |
    ((block[4 * t + 2] as bv32) << 8) | (block[4 * t + 3] as bv32)
  }

  /** The message schedule of section 6.1.2, step 1. */
  function W(block: seq<Octet>, t: nat): bv32
    requires |block| == 64
  {
    if t < 16 then WordAt(block, t)
    else Rotate(W(block, t - 3) ^ W(block, t - 8) ^ W(block, t - 14) ^ W(block, t - 16), 1)
  }

  function Sum5(x: bv32, f: bv32, e: bv32, k: bv32, w: bv32): bv32 {
    x + f + e + k + w
  }

  function Round(t: nat, h: Hash, w: bv32): Hash {
    Hash(Sum5(Rotate(h.a, 5), F(t, h.b, h.c, h.d), h.e, K(t), w), h.a, Rotate(h.b, 30), h.c, h.d)
  }

  /** Step 3, the first t rounds. */
  function Rounds(h: Hash, block: seq<Octet>, t: nat): Hash
    requires |block| == 64
  {
    if t == 0 then h else Round(t - 1, Rounds(h, block, t - 1), W(block, t - 1))
  }

  /** Addition modulo 2^32. */
  function Plus(x: bv32, y: bv32): bv32 {
    x + y
  }

  function Sum(g: Hash, h: Hash): Hash {
    Hash(Plus(g.a, h.a), Plus(g.b, h.b), Plus(g.c, h.c), Plus(g.d, h.d), Plus(g.e, h.e))
  }

  function Compress(h: Hash, block: seq<Octet>): Hash
    requires |block| == 64
  {
    Sum(h, Rounds(h, block, 80))
  }

  /** The hash after all blocks. */
  function HashBlocks(data: seq<Octet>): Hash
    requires |data| % 64 == 0
  {
    if data == [] then INITIAL else Compress(HashBlocks(data[..|data| - 64]), data[|data| - 64..])
  }

  function ToOctet(b: byte): Octet {
    b as bv8
  }

  function Octets(b: seq<byte>): (o: seq<Octet>)
    ensures |o| == |b|
  {
    seq(|b|, i requires 0 <= i < |b| => ToOctet(b[i]))
  }

  function Zeros(n: nat): (z: seq<Octet>)
    ensures |z| == n
  {
    seq(n, _ => 0)
  }

  /** The number of zero bytes of section 5.1.1 for a message of this length. */
  function ZeroCount(length: nat): (k: nat)
    ensures k < 64 && (length + 1 + k) % 64 == 56
  {
    (119 - length % 64) % 64
  }

  /** The padding behind a message of this length when the bit count is written as given. */
  function Padding(length: nat, bits: nat): (p: seq<Octet>)
    ensures (length + |p|) % 64 == 0
  {
    [0x80] + Zeros(ZeroCount(length)) + Octets(Big(bits, 8))
  }

  function WordOctets(w: bv32): (o: seq<Octet>)
    ensures |o| == 4
  {
    [(w >> 24) as bv8, ((w >> 16) & 0xff) as bv8, ((w >> 8) & 0xff) as bv8, (w & 0xff) as bv8]
  }

  function HashOctets(h: Hash): (o: seq<Octet>)
    ensures |o| == 20
  {
    WordOctets(h.a) + WordOctets(h.b) + WordOctets(h.c) + WordOctets(h.d) + WordOctets(h.e)
  }

  /** The digest of a message shorter than 2^64 bits. */
  function Digest(message: seq<Octet>): (d: seq<Octet>)
    ensures |d| == 20
  {
    HashOctets(HashBlocks(message + Padding(|message|, 8 * |message|)))
  }

  // ----- The implementation

  /** `sha1_rol`. */
  function Rol(value: bv32, bits: bv6): bv32
    requires 0 < bits < 32
  {
    (value << bits) | (value >> (32 - bits))
  }

  lemma RolRotates(v: bv32)
    ensures Rol(v, 1) == Rotate(v, 1) && Rol(v, 5) == Rotate(v, 5) && Rol(v, 30) == Rotate(v, 30)
  {
  }

  function HashIn(state: seq<bv32>): Hash
    requires |state| == 5
  {
    Hash(state[0], state[1], state[2], state[3], state[4])
  }

  lemma ScheduleWord(block: seq<Octet>, t: nat)
    requires |block| == 64
    ensures t < 16 ==> W(block, t) == WordAt(block, t)
    ensures t >= 16 ==>
      W(block, t) == Rol(W(block, t - 3) ^ W(block, t - 8) ^ W(block, t - 14) ^ W(block, t - 16), 1)
  {
    hide Rol, Rotate, WordAt;
    if t >= 16 {
      RolRotates(W(block, t - 3) ^ W(block, t - 8) ^ W(block, t - 14) ^ W(block, t - 16));
    }
  }

  method LoadWord(block: array<Octet>, i: nat) returns (word: bv32)
    requires block.Length == 64 && i < 16
    ensures word == WordAt(block[..], i)
  {
    word := ((block[i * 4] as bv32) << 24) | ((block[i * 4 + 1] as bv32) << 16) |
            ((block[i * 4 + 2] as bv32) << 8) | (block[i * 4 + 3] as bv32);
  }

  method Schedule(block: array<Octet>) returns (w: array<bv32>)
    requires block.Length == 64
    ensures fresh(w) && w.Length == 80
    ensures forall t | 0 <= t < 80 :: w[t] == W(block[..], t)
  {
    hide W, WordAt, Rol;
    w := new bv32[80];
    for i := 0 to 16
      invariant forall t | 0 <= t < i :: w[t] == W(block[..], t)
    {
      ScheduleWord(block[..], i);
      w[i] := LoadWord(block, i);
    }
    for i := 16 to 80
      invariant forall t | 0 <= t < i :: w[t] == W(block[..], t)
    {
      ScheduleWord(block[..], i);
      w[i] := Rol(w[i - 3] ^ w[i - 8] ^ w[i - 14] ^ w[i - 16], 1);
    }
  }

  /** `SHA1_LOOP`: the rounds of one span, with its function and its constant. */
  method Loop(start: nat, end: nat, func: (bv32, bv32, bv32) -> bv32, constant: bv32, w: array<bv32>, v: Hash,
              ghost h: Hash, ghost block: seq<Octet>) returns (r: Hash)
    requires start <= end <= 80 == w.Length && |block| == 64
    requires forall t | 0 <= t < 80 :: w[t] == W(block, t)
    requires forall t, x, y, z | start <= t < end :: F(t, x, y, z) == func(x, y, z)
    requires forall t | start <= t < end :: K(t) == constant
    requires v == Rounds(h, block, start)
    ensures r == Rounds(h, block, end)
  {
    hide W, F, K, Rol, Rotate, Sum5;
    var a, b, c, d, e := v.a, v.b, v.c, v.d, v.e;
    for i := start to end
      invariant Hash(a, b, c, d, e) == Rounds(h, block, i)
    {
      RolRotates(a);
      RolRotates(b);
      assert F(i, b, c, d) == func(b, c, d);
      var t := Sum5(Rol(a, 5), func(b, c, d), e, constant, w[i]);
      a, b, c, d, e := t, a, Rol(b, 30), c, d;
    }
    r := Hash(a, b, c, d, e);
  }

  /** `sha1_hash_block`. */
  method HashBlock(state: array<bv32>, block: array<Octet>)
    requires state.Length == 5 && block.Length == 64
    modifies state
    ensures HashIn(state[..]) == Compress(old(HashIn(state[..])), block[..])
  {
    hide W, Rounds, WordAt, Ch, Parity, Maj, Sum;
    var w := Schedule(block);
    ghost var h, data := HashIn(state[..]), block[..];
    var v := Hash(state[0], state[1], state[2], state[3], state[4]);
    RoundsNone(h, data);
    v := Loop(0, 20, Ch, 0x5a827999, w, v, h, data);
    v := Loop(20, 40, Parity, 0x6ed9eba1, w, v, h, data);
    v := Loop(40, 60, Maj, 0x8f1bbcdc, w, v, h, data);
    v := Loop(60, 80, Parity, 0xca62c1d6, w, v, h, data);
    AddTo(state, v);
  }

  method AddTo(state: array<bv32>, v: Hash)
    requires state.Length == 5
    modifies state
    ensures HashIn(state[..]) == Sum(old(HashIn(state[..])), v)
  {
    hide Plus;
    state[0] := Plus(state[0], v.a);
    state[1] := Plus(state[1], v.b);
    state[2] := Plus(state[2], v.c);
    state[3] := Plus(state[3], v.d);
    state[4] := Plus(state[4], v.e);
  }

  lemma RoundsNone(h: Hash, block: seq<Octet>)
    requires |block| == 64
    ensures Rounds(h, block, 0) == h
  {
  }

  // ----- Whole blocks and the rest

  lemma EmptyHash()
    ensures HashBlocks([]) == INITIAL
  {
  }

  lemma HashBlocksStep(data: seq<Octet>, block: seq<Octet>)
    requires |data| % 64 == 0 && |block| == 64
    ensures HashBlocks(data + block) == Compress(HashBlocks(data), block)
  {
    hide Compress;
    assert (data + block)[..|data|] == data && (data + block)[|data|..] == block;
  }

  /** `word >> (k * 8)`, cut to a byte. */
  function ByteOf(word: nat, k: nat): byte
    requires k < 4
  {
    (if k == 0 then word else if k == 1 then word / 0x100 else if k == 2 then word / 0x1_0000 else word / 0x100_0000)
    % 0x100
  }

  lemma CountOctets(high: uint32, low: uint32, i: nat)
    requires i < 8
    ensures Big(high * WORD + low, 8)[i] == ByteOf(if i < 4 then high else low, 3 - i % 4)
  {
    hide Big, ByteOf;
    var n := high * WORD + low;
    BigSplit(n, 4, 4);
    HighFour(n);
    BigBytes(high, i % 4);
    BigBytes(n, i % 4);
    LowBytes(high, low, 3 - i % 4);
  }

  lemma BigBytes(n: nat, i: nat)
    requires i < 4
    ensures Big(n, 4)[i] == ByteOf(n, 3 - i)
  {
    BigFour(n);
  }

  lemma LowBytes(high: nat, low: uint32, k: nat)
    requires k < 4
    ensures ByteOf(high * WORD + low, k) == ByteOf(low, k)
  {
    if k == 0 {
      AddMultiple(low, 0x100, high * 0x100_0000);
    } else if k == 1 {
      AddMultiple(low / 0x100, 0x100, high * 0x1_0000);
    } else if k == 2 {
      AddMultiple(low / 0x1_0000, 0x100, high * 0x100);
    } else {
      AddMultiple(low / 0x100_0000, 0x100, high);
    }
  }

  /** How a chunk joins the bytes behind the last whole block. */
  lemma ChunkJoins(absorbed: seq<Octet>, chunk: seq<Octet>)
    requires 0 < |chunk| <= 64 - |absorbed| % 64
    ensures var used := |absorbed| % 64;
      var whole, rest, all := absorbed[..|absorbed| - used], absorbed[|absorbed| - used..] + chunk, absorbed + chunk;
      && |whole| % 64 == 0 && all == whole + rest
      && |all| % 64 == (if |rest| == 64 then 0 else |rest|)
      && (|rest| < 64 ==> all[..|all| - |rest|] == whole && all[|all| - |rest|..] == rest)
      && all[..|all| - 0] == all && all[|all|..] == []
  {
    var used := |absorbed| % 64;
    var whole, tail := absorbed[..|absorbed| - used], absorbed[|absorbed| - used..];
    assert absorbed == whole + tail;
    assert absorbed + chunk == whole + (tail + chunk);
    JoinedSlices(whole, tail + chunk);
  }

  lemma JoinedSlices(whole: seq<Octet>, rest: seq<Octet>)
    ensures var all := whole + rest;
      all[..|all| - |rest|] == whole && all[|all| - |rest|..] == rest && all[..|all|] == all && all[|all|..] == []
  {
  }

  // ----- The streaming object

  class Context {
    const state: array<bv32>
    const msgSize: array<uint32>
    var bufUsed: nat
    const buffer: array<Octet>
    /** Everything passed to Update. */
    ghost var absorbed: seq<Octet>

    ghost predicate Valid()
      reads this, state, msgSize, buffer
    {
      && state.Length == 5 && msgSize.Length == 2 && buffer.Length == 64
      && bufUsed == |absorbed| % 64
      && buffer[..bufUsed] == absorbed[|absorbed| - bufUsed..]
      && HashIn(state[..]) == HashBlocks(absorbed[..|absorbed| - bufUsed])
    }

    /** The bit count in its two words, the high one first. */
    function Count(): (n: nat)
      reads msgSize
      requires msgSize.Length == 2
      ensures n < DOUBLE_WORD
    {
      msgSize[0] * WORD + msgSize[1]
    }

    constructor ()
      ensures Valid() && absorbed == [] && Count() == 0
      ensures fresh(state) && fresh(msgSize) && fresh(buffer)
    {
      state := new bv32[5] [0x67452301, 0xefcdab89, 0x98badcfe, 0x10325476, 0xc3d2e1f0];
      msgSize := new uint32[2] [0, 0];
      bufUsed := 0;
      buffer := new bv8[64];
      absorbed := [];
      new;
      EmptyHash();
      assert HashIn(state[..]) == INITIAL;
    }

    /** One turn of the update loop: a chunk that the buffer has room for. */
    method Absorb(chunk: seq<Octet>)
      requires Valid() && 0 < |chunk| <= 64 - bufUsed
      modifies this, state, buffer
      ensures Valid() && absorbed == old(absorbed) + chunk
    {
      hide HashBlocks, Compress, WordAt, HashIn;
      ghost var whole := absorbed[..|absorbed| - bufUsed];
      ghost var rest := absorbed[|absorbed| - bufUsed..] + chunk;
      ChunkJoins(absorbed, chunk);
      CopyInto(buffer, bufUsed, chunk);
      bufUsed := bufUsed + |chunk|;
      absorbed := absorbed + chunk;
      if bufUsed == 64 {
        assert buffer[..] == buffer[..64];
        HashBlocksStep(whole, rest);
        HashBlock(state, buffer);
        bufUsed := 0;
        assert buffer[..0] == [];
      }
    }

    /** The loop of `sha1_update`. */
    method AbsorbAll(data: seq<Octet>)
      requires Valid()
      modifies this, state, buffer
      ensures Valid() && absorbed == old(absorbed) + data
    {
      hide HashBlocks, Compress, Context.Valid;
      var done := 0;
      while done < |data|
        invariant 0 <= done <= |data| && Valid() && absorbed == old(absorbed) + data[..done]
      {
        BufferUse();
        var space := 64 - bufUsed;
        var copy := if |data| - done < space then |data| - done else space;
        assert data[..done] + data[done..done + copy] == data[..done + copy];
        Absorb(data[done..done + copy]);
        done := done + copy;
      }
      assert data[..done] == data;
    }

    /** `sha1_update`. The size in bits is cut to one word before it is added to the count. */
    method Update(data: seq<Octet>)
      requires Valid()
      modifies this, state, msgSize, buffer
      ensures Valid() && absorbed == old(absorbed) + data
      ensures Count() == (old(Count()) + 8 * |data| % WORD) % DOUBLE_WORD
    {
      hide HashBlocks, Compress;
      AbsorbAll(data);
      AddToCount(8 * |data| % WORD);
    }

    /** Adds to the low word and carries into the high one when it wraps. */
    method AddToCount(bits: uint32)
      requires msgSize.Length == 2
      modifies msgSize
      ensures Count() == (old(Count()) + bits) % DOUBLE_WORD
    {
      var sizeLo := (msgSize[1] + bits) % WORD;
      if sizeLo < msgSize[1] {
        msgSize[0] := (msgSize[0] + 1) % WORD;
      }
      msgSize[1] := sizeLo;
    }

    /** The eight bytes of the count, most significant first. */
    method CountData() returns (data: array<Octet>)
      requires msgSize.Length == 2
      ensures fresh(data) && data[..] == Octets(Big(Count(), 8))
    {
      hide Big, ByteOf, ToOctet;
      data := new bv8[8];
      ghost var big := Octets(Big(Count(), 8));
      for i := 0 to 8
        invariant data[..i] == big[..i]
        modifies data
      {
        CountOctets(msgSize[0], msgSize[1], i);
        data[i] := ToOctet(ByteOf(msgSize[i / 4], 3 - i % 4));
      }
      assert data[..8] == data[..] && big[..8] == big;
    }

    lemma Sizes()
      requires Valid()
      ensures state.Length == 5 && msgSize.Length == 2
    {
    }

    lemma WholeBlocks()
      requires Valid() && |absorbed| % 64 == 0
      ensures bufUsed == 0 && state.Length == 5 && HashIn(state[..]) == HashBlocks(absorbed)
    {
      assert absorbed[..|absorbed|] == absorbed;
    }

    lemma BufferUse()
      requires Valid()
      ensures bufUsed == |absorbed| % 64
    {
    }

    /** Zeros until 56 bytes of the buffer are used; there are fewer than 64 of them. */
    method FillUp(ghost count: nat)
      requires Valid() && count < 64 && (|absorbed| + count) % 64 == 56
      modifies this, state, msgSize, buffer
      ensures Valid() && absorbed == old(absorbed) + Zeros(count)
    {
      hide HashBlocks, Context.Valid;
      ghost var n := 0;
      BufferUse();
      ZerosLeft(|absorbed|, count, 0);
      while bufUsed != 56
        invariant bufUsed == 56 <==> n == count
        invariant (120 - bufUsed) % 64 == count - n
        invariant Valid() && n <= count && absorbed == old(absorbed) + Zeros(n)
        decreases (120 - bufUsed) % 64
      {
        ZerosSnoc(n);
        Update([0]);
        BufferUse();
        n := n + 1;
        ZerosLeft(old(|absorbed|), count, n);
      }
    }

    /** `sha1_final`: pads and writes the digest. */
    method Final(digest: array<Octet>)
      requires Valid() && digest.Length == 20 && digest != buffer
      modifies this, state, msgSize, buffer, digest
      ensures digest[..] == HashOctets(HashBlocks(old(absorbed + Padding(|absorbed|, Count()))))
    {
      hide HashBlocks, Padding, ZeroCount, HashOctets, Big, Octets, Context.Valid;
      Sizes();
      ghost var message, bits := absorbed, Count();
      var countData := CountData();
      PaddingParts(|message|, bits);
      Update([0x80]);
      FillUp(ZeroCount(|message|));
      Update(countData[..]);
      PaddingJoins(message, Zeros(ZeroCount(|message|)), countData[..]);
      WholeBlocks();
      assert 0 == bufUsed;
      WriteDigest(digest, state);
    }
  }

  lemma PaddingParts(length: nat, bits: nat)
    ensures Padding(length, bits) == [0x80] + Zeros(ZeroCount(length)) + Octets(Big(bits, 8))
    ensures (length + 1 + ZeroCount(length)) % 64 == 56 && ZeroCount(length) < 64
  {
  }

  lemma PaddingJoins(message: seq<Octet>, zeros: seq<Octet>, count: seq<Octet>)
    ensures message + [0x80] + zeros + count == message + ([0x80] + zeros + count)
  {
  }

  /** The measure of the padding loop counts the zeros still to come. */
  lemma ZerosLeft(length: nat, count: nat, n: nat)
    requires n <= count < 64 && (length + count) % 64 == 56
    ensures var used := (length + n) % 64;
      (120 - used) % 64 == count - n && (used == 56 <==> n == count)
  {
  }

  lemma ZerosSnoc(n: nat)
    ensures Zeros(n) + [0] == Zeros(n + 1)
  {
  }

  method WriteDigest(digest: array<Octet>, state: array<bv32>)
    requires digest.Length == 20 && state.Length == 5
    modifies digest
    ensures digest[..] == HashOctets(HashIn(state[..]))
  {
    hide HashOctets, HashIn, OctetOf;
    ghost var octets := HashOctets(HashIn(state[..]));
    for i := 0 to 20
      invariant digest[..i] == octets[..i]
    {
      HashOctetsAt(state[..], i);
      digest[i] := OctetOf(state[i / 4], 3 - i % 4);
    }
    assert digest[..20] == digest[..] && octets[..20] == octets;
  }

  /** `(word >> (k * 8)) & 0xff`. */
  function OctetOf(word: bv32, k: nat): Octet
    requires k < 4
  {
    (if k == 0 then word & 0xff else if k == 1 then (word >> 8) & 0xff
     else if k == 2 then (word >> 16) & 0xff else (word >> 24) & 0xff) as bv8
  }

  lemma HashOctetsAt(state: seq<bv32>, i: nat)
    requires |state| == 5 && i < 20
    ensures HashOctets(HashIn(state))[i] == OctetOf(state[i / 4], 3 - i % 4)
  {
    hide WordOctets, OctetOf;
    WordOctetsAt(state[i / 4], i % 4);
  }

  lemma WordOctetsAt(word: bv32, i: nat)
    requires i < 4
    ensures WordOctets(word)[i] == OctetOf(word, 3 - i)
  {
  }

  function BitCount(length: nat): nat {
    8 * length % DOUBLE_WORD
  }

  lemma BitCountSum(length: nat, size: nat)
    requires size < 0x2000_0000
    ensures (BitCount(length) + 8 * size % WORD) % DOUBLE_WORD == BitCount(length + size)
  {
    Remainder(8 * (length + size), DOUBLE_WORD, 8 * length / DOUBLE_WORD + (BitCount(length) + 8 * size) / DOUBLE_WORD,
              (BitCount(length) + 8 * size) % DOUBLE_WORD);
  }

  lemma ShortBitCount(length: nat)
    requires 8 * length < DOUBLE_WORD
    ensures BitCount(length) == 8 * length
  {
  }

  method UpdateAll(s: Context, parts: seq<seq<Octet>>)
    requires s.Valid() && forall i | 0 <= i < |parts| :: |parts[i]| < 0x2000_0000
    requires s.msgSize.Length == 2 && s.Count() == BitCount(|s.absorbed|)
    modifies s, s.state, s.msgSize, s.buffer
    ensures s.Valid() && s.absorbed == old(s.absorbed) + Concat(parts)
    ensures s.Count() == BitCount(|s.absorbed|)
  {
    hide HashBlocks, Concat, Context.Valid, BitCount;
    NoParts<Octet>();
    for i := 0 to |parts|
      invariant s.Valid() && s.absorbed == old(s.absorbed) + Concat(parts[..i])
      invariant s.Count() == BitCount(|s.absorbed|)
    {
      BitCountSum(|s.absorbed|, |parts[i]|);
      ConcatSnoc(parts[..i], parts[i]);
      assert parts[..i] + [parts[i]] == parts[..i + 1];
      s.Update(parts[i]);
    }
    assert parts[..|parts|] == parts;
  }

  lemma NoParts<T>()
    ensures Concat<T>([]) == []
  {
  }

  /** The digest does not depend on how the message was split into updates: each part below 2^29 bytes,
      the whole below 2^64 bits, gives the digest of the concatenation. */
  method DigestOfParts(parts: seq<seq<Octet>>) returns (digest: array<Octet>)
    requires forall i | 0 <= i < |parts| :: |parts[i]| < 0x2000_0000
    requires 8 * |Concat(parts)| < DOUBLE_WORD
    ensures digest[..] == Digest(Concat(parts))
  {
    hide HashBlocks, Padding, HashOctets, Concat, Context.Count, BitCount;
    var s := new Context();
    ShortBitCount(0);
    UpdateAll(s, parts);
    ShortBitCount(|Concat(parts)|);
    digest := new bv8[20];
    assert [] + Concat(parts) == Concat(parts);
    s.Final(digest);
  }

  /** Updates keep the count equal to the message length in bits, modulo 2^64, exactly when the part of
      the size that no 32-bit word can hold is a multiple of 2^64 bits; in particular below 2^29 bytes. */
  lemma CountExactIff(count: nat, size: nat)
    ensures (count + 8 * size % WORD) % DOUBLE_WORD == (count + 8 * size) % DOUBLE_WORD
            <==> size / 0x2000_0000 % WORD == 0
    ensures size < 0x2000_0000 ==> size / 0x2000_0000 % WORD == 0
  {
    var q, r := size / 0x2000_0000, 8 * size % WORD;
    assert 8 * size == q * WORD + r;
    var c := count + r;
    if q % WORD == 0 {
      AddMultiple(c, DOUBLE_WORD, q / WORD);
    }
    if (c + q * WORD) % DOUBLE_WORD == c % DOUBLE_WORD {
      var n := (c + q * WORD) / DOUBLE_WORD - c / DOUBLE_WORD;
      assert q * WORD == n * DOUBLE_WORD;
      assert q == n * WORD;
      ProductDivides(WORD, n);
    }
  }

  /** The first size whose count is lost altogether: 2^29 bytes count as none. */
  lemma CountLost(count: nat)
    requires count < DOUBLE_WORD
    ensures (count + 8 * 0x2000_0000 % WORD) % DOUBLE_WORD == count
  {
  }
}

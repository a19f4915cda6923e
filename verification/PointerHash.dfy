/** The mixing of pointers into string handles (src/PointerHash.h): both mixers are permutations of their
    words. */
module PointerHash {
  import opened Words
  import opened BitXors

  // ----- The steps, in arithmetic modulo the word

  function Times(key: nat, factor: nat, word: nat): (r: nat)
    requires word > 0
    ensures r < word
  {
    key * factor % word
  }

  /** `key + (key << s)`, given the power of two. */
  function PlusShifted(key: nat, power: nat, word: nat): (r: nat)
    requires word > 0
    ensures r < word
  {
    (key + Times(key, power, word)) % word
  }

  /** `~key + (key << s)`. */
  function ComplementPlusShifted(key: nat, power: nat, word: nat): (r: nat)
    requires key < word
    ensures r < word
  {
    (word - 1 - key + Times(key, power, word)) % word
  }

  function Next(key: nat, word: nat): (r: nat)
    requires word > 0
    ensures r < word
  {
    (key + 1) % word
  }

  /** A factor with an inverse modulo the word can be undone. */
  lemma TimesInverse(key: nat, factor: nat, inverse: nat, word: nat)
    requires key < word && factor * inverse % word == 1
    ensures Times(Times(key, factor, word), inverse, word) == key
  {
    var q, r := key * factor / word, Times(key, factor, word);
    var e := factor * inverse / word;
    calc {
      r * inverse;
      (key * factor - q * word) * inverse;
      key * (factor * inverse) - q * inverse * word;
      key * (1 + e * word) - q * inverse * word;
      key + (key * e - q * inverse) * word;
    }
    Remainder(r * inverse, word, key * e - q * inverse, key);
  }

  lemma PlusShiftedIsTimes(key: nat, power: nat, word: nat)
    requires key < word
    ensures PlusShifted(key, power, word) == Times(key, power + 1, word)
  {
    var q := key * power / word;
    assert key * (power + 1) == key + Times(key, power, word) + q * word;
    AddMultiple(key + Times(key, power, word), word, q);
  }

  /** The complement makes the step a product less one. */
  lemma ComplementIsTimes(key: nat, power: nat, word: nat)
    requires key < word && power > 0
    ensures Next(ComplementPlusShifted(key, power, word), word) == Times(key, power - 1, word)
  {
    var t, q := Times(key, power, word), key * power / word;
    var c := word - 1 - key + t;
    assert key * (power - 1) == t - key + q * word;
    AddMultiple(t - key, word, q);
    AddMultiple(t - key, word, 1);
    AddMultiple(c + 1, word, -(c / word));
    assert c % word + 1 == (c + 1) + -(c / word) * word;
  }

  lemma NextInjective(x: nat, y: nat, word: nat)
    requires x < word && y < word && Next(x, word) == Next(y, word)
    ensures x == y
  {
    CloseAndCongruent(x + 1, y + 1, word);
  }

  // ----- 32-bit pointers

  function Mix32(key: uint32): (hash: uint32) {
    WordSizes();
    var k1 := ComplementPlusShifted(key, 0x8000, WORD);
    var k2 := Fold(k1, 12, 32);
    var k3 := PlusShifted(k2, 4, WORD);
    var k4 := Fold(k3, 4, 32);
    var k5 := Times(k4, 2057, WORD);
    Fold(k5, 16, 32)
  }

  lemma WordSizes()
    ensures Pow2(32) == WORD && Pow2(64) == DOUBLE_WORD
  {
    Pow2Of32(32);
    PowSplit(32, 32);
  }

  /** The six steps undone, last one first. */
  function Unmix32(hash: uint32): (key: uint32) {
    WordSizes();
    var k5 := Unfold(hash, 16, 32);
    var k4 := Times(k5, 0xc8de0639, WORD);
    var k3 := Unfold(k4, 4, 32);
    var k2 := Times(k3, 0xcccccccd, WORD);
    var k1 := Unfold(k2, 12, 32);
    Times(Next(k1, WORD), 0xbfff7fff, WORD)
  }

  lemma UnmixMix32(key: uint32)
    ensures Unmix32(Mix32(key)) == key
  {
    hide Fold, Unfold, Times, PlusShifted, ComplementPlusShifted, Next;
    WordSizes();
    var k1 := ComplementPlusShifted(key, 0x8000, WORD);
    var k2 := Fold(k1, 12, 32);
    var k3 := PlusShifted(k2, 4, WORD);
    var k4 := Fold(k3, 4, 32);
    var k5 := Times(k4, 2057, WORD);
    UnfoldFold(k5, 16, 32);
    TimesInverse(k4, 2057, 0xc8de0639, WORD);
    UnfoldFold(k3, 4, 32);
    PlusShiftedIsTimes(k2, 4, WORD);
    TimesInverse(k2, 5, 0xcccccccd, WORD);
    UnfoldFold(k1, 12, 32);
    ComplementIsTimes(key, 0x8000, WORD);
    TimesInverse(key, 0x7fff, 0xbfff7fff, WORD);
  }

  lemma MixUnmix32(hash: uint32)
    ensures Mix32(Unmix32(hash)) == hash
  {
    hide Fold, Unfold, Times, PlusShifted, ComplementPlusShifted, Next;
    WordSizes();
    var k5 := Unfold(hash, 16, 32);
    var k4 := Times(k5, 0xc8de0639, WORD);
    var k3 := Unfold(k4, 4, 32);
    var k2 := Times(k3, 0xcccccccd, WORD);
    var k1 := Unfold(k2, 12, 32);
    var key := Times(Next(k1, WORD), 0xbfff7fff, WORD);
    ComplementIsTimes(key, 0x8000, WORD);
    TimesInverse(Next(k1, WORD), 0xbfff7fff, 0x7fff, WORD);
    NextInjective(ComplementPlusShifted(key, 0x8000, WORD), k1, WORD);
    FoldUnfold(k2, 12, 32);
    PlusShiftedIsTimes(k2, 4, WORD);
    TimesInverse(k3, 0xcccccccd, 5, WORD);
    FoldUnfold(k4, 4, 32);
    TimesInverse(k5, 0xc8de0639, 2057, WORD);
    FoldUnfold(hash, 16, 32);
  }

  /** The 32-bit mixer is a permutation: no two pointers share a handle, and every handle has a pointer. */
  lemma Mix32IsPermutation(p: uint32, q: uint32)
    ensures Mix32(p) == Mix32(q) <==> p == q
    ensures Mix32(p) == q <==> p == Unmix32(q)
  {
    hide Mix32, Unmix32;
    UnmixMix32(p);
    UnmixMix32(q);
    MixUnmix32(q);
  }

  // ----- 64-bit pointers

  function Mix64(key: uint64): (hash: uint64) {
    WordSizes();
    var k1 := ComplementPlusShifted(key, 0x4_0000, DOUBLE_WORD);
    var k2 := Fold(k1, 31, 64);
    var k3 := Times(k2, 21, DOUBLE_WORD);
    var k4 := Fold(k3, 11, 64);
    var k5 := PlusShifted(k4, 64, DOUBLE_WORD);
    Fold(k5, 22, 64)
  }

  function Unmix64(hash: uint64): (key: uint64) {
    WordSizes();
    var k5 := Unfold(hash, 22, 64);
    var k4 := Times(k5, 0xfc0fc0fc0fc0fc1, DOUBLE_WORD);
    var k3 := Unfold(k4, 11, 64);
    var k2 := Times(k3, 0xcf3cf3cf3cf3cf3d, DOUBLE_WORD);
    var k1 := Unfold(k2, 31, 64);
    Times(Next(k1, DOUBLE_WORD), 0xffbfffeffffbffff, DOUBLE_WORD)
  }

  lemma UnmixMix64(key: uint64)
    ensures Unmix64(Mix64(key)) == key
  {
    hide Fold, Unfold, Times, PlusShifted, ComplementPlusShifted, Next;
    WordSizes();
    var k1 := ComplementPlusShifted(key, 0x4_0000, DOUBLE_WORD);
    var k2 := Fold(k1, 31, 64);
    var k3 := Times(k2, 21, DOUBLE_WORD);
    var k4 := Fold(k3, 11, 64);
    var k5 := PlusShifted(k4, 64, DOUBLE_WORD);
    UnfoldFold(k5, 22, 64);
    PlusShiftedIsTimes(k4, 64, DOUBLE_WORD);
    TimesInverse(k4, 65, 0xfc0fc0fc0fc0fc1, DOUBLE_WORD);
    UnfoldFold(k3, 11, 64);
    TimesInverse(k2, 21, 0xcf3cf3cf3cf3cf3d, DOUBLE_WORD);
    UnfoldFold(k1, 31, 64);
    ComplementIsTimes(key, 0x4_0000, DOUBLE_WORD);
    TimesInverse(key, 0x3_ffff, 0xffbfffeffffbffff, DOUBLE_WORD);
  }

  lemma MixUnmix64(hash: uint64)
    ensures Mix64(Unmix64(hash)) == hash
  {
    hide Fold, Unfold, Times, PlusShifted, ComplementPlusShifted, Next;
    WordSizes();
    var k5 := Unfold(hash, 22, 64);
    var k4 := Times(k5, 0xfc0fc0fc0fc0fc1, DOUBLE_WORD);
    var k3 := Unfold(k4, 11, 64);
    var k2 := Times(k3, 0xcf3cf3cf3cf3cf3d, DOUBLE_WORD);
    var k1 := Unfold(k2, 31, 64);
    var key := Times(Next(k1, DOUBLE_WORD), 0xffbfffeffffbffff, DOUBLE_WORD);
    ComplementIsTimes(key, 0x4_0000, DOUBLE_WORD);
    TimesInverse(Next(k1, DOUBLE_WORD), 0xffbfffeffffbffff, 0x3_ffff, DOUBLE_WORD);
    NextInjective(ComplementPlusShifted(key, 0x4_0000, DOUBLE_WORD), k1, DOUBLE_WORD);
    FoldUnfold(k2, 31, 64);
    TimesInverse(k3, 0xcf3cf3cf3cf3cf3d, 21, DOUBLE_WORD);
    FoldUnfold(k4, 11, 64);
    PlusShiftedIsTimes(k4, 64, DOUBLE_WORD);
    TimesInverse(k5, 0xfc0fc0fc0fc0fc1, 65, DOUBLE_WORD);
    FoldUnfold(hash, 22, 64);
  }

  /** The handle of a 64-bit pointer: the low word of the mixed pointer. */
  function Hash64(key: uint64): (handle: uint32) {
    Mix64(key) % WORD
  }

  /** The mixer is a permutation before the cut, so exactly those pointers share a handle whose mixed forms
      differ in the high word alone: one for each high word. */
  lemma PointersOfHandle(key: uint64, handle: uint32, high: uint32)
    ensures Hash64(key) == handle && Mix64(key) / WORD == high <==> key == Unmix64(high * WORD + handle)
  {
    hide Mix64, Unmix64;
    UnmixMix64(key);
    MixUnmix64(high * WORD + handle);
  }

  /** So on 64-bit systems every handle belongs to different pointers. */
  lemma HandlesCollide64(handle: uint32) returns (p: uint64, q: uint64)
    ensures p != q && Hash64(p) == Hash64(q) == handle
  {
    p, q := Unmix64(handle), Unmix64(WORD + handle);
    PointersOfHandle(p, handle, 0);
    PointersOfHandle(q, handle, 1);
  }

  // ----- Two hashes in full

  lemma Powers()
    ensures Pow2(4) == 0x10 && Pow2(11) == 0x800 && Pow2(12) == 0x1000 && Pow2(16) == 0x1_0000
    ensures Pow2(22) == 0x40_0000 && Pow2(31) == 0x8000_0000
  {
    assert Pow2(11) == 0x800 && Pow2(5) == 0x20;
    PowSplit(11, 11);
    PowSplit(11, 5);
    PowSplit(16, 16);
  }

  lemma Known32First()
    ensures Fold(0x7ffe, 12, 32) == 0x7ff9
  {
    hide BitXor, Down, Pow2;
    Powers();
    DownDivides(0x7ffe, 12);
    FourBits(0x7ffe, 0x7, 28);
    PowMonotone(11, 28);
    BitXorZero(0x7ff, 28);
  }

  lemma Known32Second()
    ensures Fold(0x27fdd, 4, 32) == 0x25820
  {
    hide BitXor, Down, Pow2;
    Powers();
    DownDivides(0x27fdd, 4);
    FourBits(0x27fdd, 0x27fd, 28);
    FourBits(0x27fd, 0x27f, 24);
    FourBits(0x27f, 0x27, 20);
    FourBits(0x27, 0x2, 16);
    PowMonotone(4, 16);
    BitXorZero(0x2, 16);
  }

  lemma Known32Third()
    ensures Fold(0x12d61920, 16, 32) == 0x12d60bf6
  {
    hide BitXor, Down, Pow2;
    Powers();
    DownDivides(0x12d61920, 16);
    FourBits(0x12d61920, 0x12d6, 28);
    FourBits(0x12d6192, 0x12d, 24);
    FourBits(0x12d619, 0x12, 20);
    FourBits(0x12d61, 0x1, 16);
    PowMonotone(16, 16);
    BitXorZero(0x12d6, 16);
  }

  lemma Known64First()
    ensures Fold(0x3fffe, 31, 64) == 0x3fffe
  {
    hide BitXor, Down, Pow2;
    Powers();
    DownDivides(0x3fffe, 31);
    PowMonotone(22, 64);
    BitXorZero(0x3fffe, 64);
  }

  lemma Known64Second()
    ensures Fold(0x53ffd6, 11, 64) == 0x53f5a9
  {
    hide BitXor, Down, Pow2;
    Powers();
    DownDivides(0x53ffd6, 11);
    FourBits(0x53ffd6, 0xa7f, 60);
    FourBits(0x53ffd, 0xa7, 56);
    FourBits(0x53ff, 0xa, 52);
    PowMonotone(11, 52);
    BitXorZero(0x53f, 52);
  }

  lemma Known64Third()
    ensures Fold(0x15515fe9, 22, 64) == 0x15515fbc
  {
    hide BitXor, Down, Pow2;
    Powers();
    DownDivides(0x15515fe9, 22);
    FourBits(0x15515fe9, 0x55, 60);
    FourBits(0x15515fe, 0x5, 56);
    PowMonotone(22, 56);
    BitXorZero(0x15515f, 56);
  }

  /** What the source computes for the pointer 1 with either word. */
  lemma KnownHashes()
    ensures Mix32(1) == 0x12d60bf6 && Hash64(1) == 0x15515fbc
  {
    hide Fold;
    Known32First();
    Known32Second();
    Known32Third();
    Known64First();
    Known64Second();
    Known64Third();
  }
}

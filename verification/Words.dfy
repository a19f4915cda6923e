/** Machine integers shared by the models: 32-bit words as bounded integers, the signed reading of
    a word, and the masking idiom `x & (size - 1)` of the ring buffers. */
module Words {

  /** 2^32, the modulus of `std::uint32_t`. */
  const WORD := 0x1_0000_0000
  /** 2^31, the first word that reads as a negative `std::int32_t`. */
  const SIGN := 0x8000_0000

  /** 2^64. */
  const DOUBLE_WORD := 0x1_0000_0000_0000_0000

  type byte = b: int | 0 <= b < 256
  type uint32 = w: int | 0 <= w < WORD
  type uint64 = w: int | 0 <= w < 0x1_0000_0000_0000_0000

  function Min(a: nat, b: nat): nat {
    if a < b then a else b
  }

  /** Conversion of an unsigned word to `std::int32_t` (two's complement). */
  function Signed(w: int): int
    requires 0 <= w < WORD
  {
    if w < SIGN then w else w - WORD
  }

  function Pow2(k: nat): (p: nat)
    ensures p >= 1
  {
    if k == 0 then 1 else 2 * Pow2(k - 1)
  }

  /** Bitwise conjunction of two natural numbers. */
  function BitAnd(a: nat, b: nat): (r: nat)
    decreases a
  {
    if a == 0 || b == 0 then 0
    else 2 * BitAnd(a / 2, b / 2) + (a % 2) * (b % 2)
  }

  /** Masking with 2^k - 1 is the remainder modulo 2^k. */
  lemma {:induction false} MaskIsRemainder(x: nat, k: nat)
    ensures BitAnd(x, Pow2(k) - 1) == x % Pow2(k)
  {
    if x == 0 || k == 0 {
      BitAndZero(x);
    } else {
      var half := Pow2(k - 1);
      MaskIsRemainder(x / 2, k - 1);
      assert (Pow2(k) - 1) / 2 == half - 1 && (Pow2(k) - 1) % 2 == 1;
      RemainderByHalves(x, half);
      if half == 1 { BitAndZero(x / 2); }
    }
  }

  lemma BitAndZero(x: nat)
    ensures BitAnd(x, 0) == 0
  {
  }

  lemma RemainderByHalves(x: nat, half: nat)
    requires half > 0
    ensures x % (2 * half) == 2 * ((x / 2) % half) + x % 2
  {
    var q, r := x / 2 / half, x / 2 % half;
    assert x == q * (2 * half) + (2 * r + x % 2);
    Remainder(x, 2 * half, q, 2 * r + x % 2);
  }

  /** The quotient and the remainder are the only pair with these bounds. */
  lemma Remainder(x: int, m: int, q: int, r: int)
    requires m > 0 && x == q * m + r && 0 <= r < m
    ensures x / m == q && x % m == r
  {
    var d := x / m - q;
    assert d * m == r - x % m;
    assert d >= 1 ==> d * m >= m;
    assert d <= -1 ==> d * m <= -m;
  }

  /** Adding a multiple of the modulus leaves the remainder alone. */
  lemma AddMultiple(x: int, m: int, k: int)
    requires m > 0
    ensures (x + k * m) % m == x % m
  {
    Remainder(x + k * m, m, x / m + k, x % m);
  }

  /** Two numbers closer than the modulus with the same remainder are equal. */
  lemma CloseAndCongruent(x: int, y: int, m: int)
    requires m > 0 && x % m == y % m && -m < x - y < m
    ensures x == y
  {
    var d := x / m - y / m;
    assert x - y == d * m;
    assert d >= 1 ==> d * m >= m;
    assert d <= -1 ==> d * m <= -m;
  }

  /** A size that divides the word modulus: wrapping at 2^32 keeps the slot. */
  lemma WrapKeepsSlot(t: int, size: int)
    requires size > 0 && WORD % size == 0
    ensures t % WORD % size == t % size
  {
    var c := WORD / size;
    var q := t / WORD;
    assert t == t % WORD + q * (c * size) == t % WORD + (q * c) * size;
    AddMultiple(t % WORD, size, q * c);
  }

  /** Every power of two up to 2^32 divides 2^32. */
  lemma {:induction false} PowerDividesWord(k: nat)
    requires k <= 32
    ensures WORD % Pow2(k) == 0
  {
    PowSplit(k, 32 - k);
    Pow2Of32(k + (32 - k));
    ProductDivides(Pow2(k), Pow2(32 - k));
  }

  lemma ProductDivides(a: nat, b: nat)
    requires a > 0
    ensures a * b % a == 0
  {
    Remainder(a * b, a, b, 0);
  }

  lemma Pow2Of32(k: nat)
    requires k == 32
    ensures Pow2(k) == WORD
  {
    assert Pow2(4) == 16;
    PowSplit(4, 4);
    PowSplit(8, 8);
    PowSplit(16, 16);
  }

  lemma {:induction false} PowMonotone(k: nat, n: nat)
    requires k <= n
    ensures Pow2(k) <= Pow2(n)
  {
    if k < n {
      PowMonotone(k, n - 1);
    }
  }

  /** Ring sizes that a `std::uint32_t` can hold. */
  lemma PowerFits(k: nat, n: nat)
    requires k <= n == 31
    ensures Pow2(k) <= SIGN
  {
    PowMonotone(k, n);
    Pow2Of32(n + 1);
  }

  lemma {:induction false} PowSplit(a: nat, b: nat)
    ensures Pow2(a + b) == Pow2(a) * Pow2(b)
  {
    if a > 0 {
      PowSplit(a - 1, b);
    }
  }
}

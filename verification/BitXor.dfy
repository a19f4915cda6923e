/** Exclusive disjunction and right shifts of machine words, for any width. */
module BitXors {
  import opened Words

  /** Bitwise exclusive disjunction of the low `width` bits. */
  function BitXor(a: nat, b: nat, width: nat): (r: nat)
    ensures r < Pow2(width)
  {
    if width == 0 then 0 else 2 * BitXor(a / 2, b / 2, width - 1) + if a % 2 == b % 2 then 0 else 1
  }

  // ----- Bit by bit

  /** The bit of weight 2^i. */
  predicate Bit(x: nat, i: nat) {
    x / Pow2(i) % 2 == 1
  }

  lemma HalfFirst(x: nat, p: nat)
    requires p > 0
    ensures x / (2 * p) == x / 2 / p
  {
    var q, r := x / 2 / p, x / 2 % p;
    assert x / 2 == q * p + r;
    assert x == q * (2 * p) + (2 * r + x % 2);
    Remainder(x, 2 * p, q, 2 * r + x % 2);
  }

  lemma BitOfHalf(x: nat, i: nat)
    ensures Bit(x, 0) <==> x % 2 == 1
    ensures Bit(x, i + 1) <==> Bit(x / 2, i)
  {
    HalfFirst(x, Pow2(i));
  }

  /** Each bit of the result is set exactly if just one of the two bits is. */
  lemma {:induction false} BitXorBits(a: nat, b: nat, width: nat, i: nat)
    requires i < width
    ensures Bit(BitXor(a, b, width), i) <==> Bit(a, i) != Bit(b, i)
  {
    var r := BitXor(a, b, width);
    Halves(a, b, width);
    if i == 0 {
      BitOfHalf(a, 0);
      BitOfHalf(b, 0);
      BitOfHalf(r, 0);
    } else {
      BitXorBits(a / 2, b / 2, width - 1, i - 1);
      BitOfHalf(a, i - 1);
      BitOfHalf(b, i - 1);
      BitOfHalf(r, i - 1);
    }
  }

  /** Each bit of a conjunction is set exactly if both bits are. */
  lemma {:induction false} BitAndBits(a: nat, b: nat, i: nat)
    ensures Bit(BitAnd(a, b), i) <==> Bit(a, i) && Bit(b, i)
    decreases i
  {
    var r := BitAnd(a, b);
    BitOfHalf(a, 0);
    BitOfHalf(b, 0);
    BitOfHalf(r, 0);
    if i > 0 {
      BitOfHalf(a, i - 1);
      BitOfHalf(b, i - 1);
      BitOfHalf(r, i - 1);
      BitAndBits(a / 2, b / 2, i - 1);
    }
    AndHalves(a, b);
  }

  lemma AndHalves(a: nat, b: nat)
    ensures BitAnd(a, b) / 2 == BitAnd(a / 2, b / 2)
    ensures BitAnd(a, b) % 2 == if a % 2 == 1 && b % 2 == 1 then 1 else 0
  {
    var half, bit := BitAnd(a / 2, b / 2), if a % 2 == 1 && b % 2 == 1 then 1 else 0;
    if a == 0 || b == 0 {
      assert half == 0 && bit == 0;
    } else {
      assert (a % 2) * (b % 2) == bit by {
        if a % 2 == 0 { assert 0 * (b % 2) == 0; }
      }
      assert BitAnd(a, b) == 2 * half + bit;
    }
  }

  /** A word is known by its bits. */
  lemma {:induction false} SameBitsSameWord(a: nat, b: nat, width: nat)
    requires a < Pow2(width) && b < Pow2(width)
    requires forall i | 0 <= i < width :: Bit(a, i) <==> Bit(b, i)
    ensures a == b
  {
    if width > 0 {
      BitOfHalf(a, 0);
      BitOfHalf(b, 0);
      assert Bit(a, 0) <==> Bit(b, 0);
      forall i | 0 <= i < width - 1
        ensures Bit(a / 2, i) <==> Bit(b / 2, i)
      {
        BitOfHalf(a, i);
        BitOfHalf(b, i);
        assert Bit(a, i + 1) <==> Bit(b, i + 1);
      }
      SameBitsSameWord(a / 2, b / 2, width - 1);
    }
  }

  lemma {:induction false} BitXorTwice(a: nat, b: nat, width: nat)
    requires a < Pow2(width)
    ensures BitXor(BitXor(a, b, width), b, width) == a
  {
    if width > 0 {
      var half, bit := BitXor(a / 2, b / 2, width - 1), if a % 2 == b % 2 then 0 else 1;
      BitXorTwice(a / 2, b / 2, width - 1);
      assert (2 * half + bit) / 2 == half && (2 * half + bit) % 2 == bit;
    }
  }

  lemma {:induction false} BitXorZero(a: nat, width: nat)
    requires a < Pow2(width)
    ensures BitXor(a, 0, width) == a && BitXor(a, a, width) == 0
  {
    if width > 0 {
      BitXorZero(a / 2, width - 1);
    }
  }

  lemma {:induction false} BitXorSwap(a: nat, b: nat, c: nat, d: nat, width: nat)
    ensures BitXor(BitXor(a, b, width), BitXor(c, d, width), width) ==
            BitXor(BitXor(a, c, width), BitXor(b, d, width), width)
  {
    if width > 0 {
      BitXorSwap(a / 2, b / 2, c / 2, d / 2, width - 1);
      Halves(a, b, width);
      Halves(c, d, width);
      Halves(a, c, width);
      Halves(b, d, width);
    }
  }

  /** The upper bits and the lowest bit of an exclusive disjunction. */
  lemma Halves(a: nat, b: nat, width: nat)
    requires width > 0
    ensures BitXor(a, b, width) / 2 == BitXor(a / 2, b / 2, width - 1)
    ensures BitXor(a, b, width) % 2 == if a % 2 == b % 2 then 0 else 1
  {
  }

  lemma {:induction false} Narrower(a: nat, b: nat, width: nat)
    requires width > 0 && a < Pow2(width - 1) && b < Pow2(width - 1)
    ensures BitXor(a, b, width) == BitXor(a, b, width - 1)
  {
    if width > 1 {
      Narrower(a / 2, b / 2, width - 1);
    }
  }

  function LowBit(a: nat, b: nat): nat {
    if a % 2 == b % 2 then 0 else 1
  }

  lemma TwoBits(a: nat, b: nat, width: nat)
    ensures BitXor(a, b, width + 2) == 4 * BitXor(a / 4, b / 4, width) + 2 * LowBit(a / 2, b / 2) + LowBit(a, b)
  {
    assert a / 2 / 2 == a / 4 && b / 2 / 2 == b / 4;
    assert BitXor(a / 2, b / 2, width + 1) == 2 * BitXor(a / 4, b / 4, width) + LowBit(a / 2, b / 2);
  }

  /** Four bits at a time. */
  lemma FourBits(a: nat, b: nat, width: nat)
    ensures BitXor(a, b, width + 4) ==
            16 * BitXor(a / 16, b / 16, width) + 8 * LowBit(a / 8, b / 8) + 4 * LowBit(a / 4, b / 4)
            + 2 * LowBit(a / 2, b / 2) + LowBit(a, b)
  {
    hide BitXor, LowBit;
    TwoBits(a, b, width + 2);
    TwoBits(a / 4, b / 4, width);
    assert a / 4 / 4 == a / 16 && b / 4 / 4 == b / 16 && a / 4 / 2 == a / 8 && b / 4 / 2 == b / 8;
  }

  // ----- Right shifts

  /** `x >> n`. */
  function Down(x: nat, n: nat): (r: nat)
    ensures r <= x
  {
    if n == 0 then x else Down(x / 2, n - 1)
  }

  lemma {:induction false} DownDivides(x: nat, n: nat)
    ensures Down(x, n) == x / Pow2(n)
  {
    if n > 0 {
      DownDivides(x / 2, n - 1);
      HalfFirst(x, Pow2(n - 1));
    }
  }

  lemma {:induction false} DownDown(x: nat, n: nat, m: nat)
    ensures Down(Down(x, n), m) == Down(x, n + m)
  {
    if n > 0 {
      DownDown(x / 2, n - 1, m);
    }
  }

  lemma {:induction false} DownAll(x: nat, n: nat, width: nat)
    requires x < Pow2(width) && width <= n
    ensures Down(x, n) == 0
  {
    if n > 0 {
      if width == 0 {
        DownAll(x / 2, n - 1, 0);
      } else {
        DownAll(x / 2, n - 1, width - 1);
      }
    }
  }

  lemma {:induction false} DownXor(a: nat, b: nat, n: nat, width: nat)
    requires a < Pow2(width) && b < Pow2(width)
    ensures Down(BitXor(a, b, width), n) == BitXor(Down(a, n), Down(b, n), width)
  {
    if n > 0 {
      if width == 0 {
        DownAll(0, n, 0);
      } else {
        Halves(a, b, width);
        Narrower(a / 2, b / 2, width);
        DownXor(a / 2, b / 2, n - 1, width);
      }
    }
  }

  // ----- The step `x ^ (x >> n)` and its inverse

  function Fold(x: nat, n: nat, width: nat): (r: nat)
    ensures r < Pow2(width)
  {
    BitXor(x, Down(x, n), width)
  }

  /** Folding with twice the distance, again and again, until nothing moves any more. */
  function Unfold(y: nat, n: nat, width: nat): (r: nat)
    requires n > 0 && y < Pow2(width)
    ensures r < Pow2(width)
    decreases width - n
  {
    if n >= width then y else Unfold(Fold(y, n, width), 2 * n, width)
  }

  lemma FoldTwice(x: nat, n: nat, width: nat)
    requires x < Pow2(width)
    ensures Fold(Fold(x, n, width), n, width) == Fold(x, 2 * n, width)
  {
    hide BitXor, Down;
    var d := Down(x, n);
    DownXor(x, d, n, width);
    DownDown(x, n, n);
    var dd := Down(x, 2 * n);
    BitXorSwap(x, d, dd, d, width);
    BitXorZero(d, width);
    BitXorZero(BitXor(x, dd, width), width);
    BitXorComm(d, dd, width);
  }

  lemma {:induction false} BitXorComm(a: nat, b: nat, width: nat)
    ensures BitXor(a, b, width) == BitXor(b, a, width)
  {
    if width > 0 {
      BitXorComm(a / 2, b / 2, width - 1);
    }
  }

  lemma FoldCommutes(x: nat, n: nat, m: nat, width: nat)
    requires x < Pow2(width)
    ensures Fold(Fold(x, n, width), m, width) == Fold(Fold(x, m, width), n, width)
  {
    var dn, dm := Down(x, n), Down(x, m);
    DownXor(x, dn, m, width);
    DownXor(x, dm, n, width);
    DownDown(x, n, m);
    DownDown(x, m, n);
    BitXorSwap(x, dn, dm, Down(x, n + m), width);
  }

  lemma FoldFar(x: nat, n: nat, width: nat)
    requires x < Pow2(width) && n >= width
    ensures Fold(x, n, width) == x
  {
    DownAll(x, n, width);
    BitXorZero(x, width);
  }

  lemma {:induction false} UnfoldFold(x: nat, n: nat, width: nat)
    requires n > 0 && x < Pow2(width)
    ensures Unfold(Fold(x, n, width), n, width) == x
    decreases width - n
  {
    hide Fold;
    if n >= width {
      FoldFar(x, n, width);
    } else {
      FoldTwice(x, n, width);
      UnfoldFold(x, 2 * n, width);
    }
  }

  lemma {:induction false} UnfoldCommutes(y: nat, n: nat, m: nat, width: nat)
    requires n > 0 && y < Pow2(width)
    ensures Fold(Unfold(y, n, width), m, width) == Unfold(Fold(y, m, width), n, width)
    decreases width - n
  {
    hide Fold;
    if n < width {
      FoldCommutes(y, n, m, width);
      UnfoldCommutes(Fold(y, n, width), 2 * n, m, width);
    }
  }

  lemma FoldUnfold(y: nat, n: nat, width: nat)
    requires n > 0 && y < Pow2(width)
    ensures Fold(Unfold(y, n, width), n, width) == y
  {
    hide Fold, Unfold;
    UnfoldCommutes(y, n, n, width);
    UnfoldFold(y, n, width);
  }
}

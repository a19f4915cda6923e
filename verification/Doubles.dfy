/** Whole numbers as double-precision numbers: which there are, and which is the nearest. */
module Doubles {
  import opened Words

  /** 2^53: up to here every integer is a double. */
  const EXACT := 0x20_0000_0000_0000

  /** The distance between neighbouring doubles at n. */
  function Spacing(n: nat): (u: nat)
    ensures u >= 1
    ensures n < EXACT ==> u == 1
  {
    if n < EXACT then 1 else 2 * Spacing(n / 2)
  }

  /** The double nearest to n, ties to even. */
  function ToDouble(n: nat): nat {
    Rounded(n, Spacing(n))
  }

  function Rounded(n: nat, u: nat): nat
    requires u >= 1
  {
    var q, r := n / u, n % u;
    if 2 * r < u || (2 * r == u && q % 2 == 0) then q * u else (q + 1) * u
  }

  function Scaled(m: nat, e: nat): nat {
    m * Pow2(e)
  }

  /** A whole number with a significand of 53 bits; the exponent of a double reaches far beyond 64 bits. */
  ghost predicate IsDouble(x: nat) {
    exists m: nat, e: nat :: m < EXACT && x == Scaled(m, e)
  }

  function Distance(a: nat, b: nat): nat {
    if a < b then b - a else a - b
  }

  lemma NearestMultiple(n: nat, u: nat)
    requires u >= 1
    ensures n == n / u * u + n % u
    ensures n / u * u == n <==> n % u == 0
    ensures n % u != 0 ==> n / u * u < n < (n / u + 1) * u
  {
    assert n == n / u * u + n % u;
    assert (n / u + 1) * u == n / u * u + u;
  }

  /** The spacing is a power of two, with 53 bits above it. */
  lemma {:induction false} SpacingIsPower(n: nat) returns (e: nat)
    ensures Spacing(n) == Pow2(e)
    ensures n < EXACT ==> e == 0
    ensures n >= EXACT ==> e > 0 && Scaled(EXACT / 2, e) <= n
    ensures n < Scaled(EXACT, e)
  {
    if n < EXACT {
      e := 0;
    } else {
      var half := SpacingIsPower(n / 2);
      e := half + 1;
    }
  }

  /** A double in the range of n and above is a multiple of the spacing at n. */
  lemma DoublesAreMultiples(n: nat, e: nat, m: nat, f: nat) returns (c: nat)
    requires n >= EXACT && e > 0 && m < EXACT && Scaled(EXACT / 2, e) <= Scaled(m, f)
    ensures Scaled(m, f) == c * Pow2(e)
  {
    if f < e { SmallExponent(m, f, e); }
    PowSplit(f - e, e);
    c := m * Pow2(f - e);
    Regroup(m, Pow2(f - e), Pow2(e));
  }

  lemma SmallExponent(m: nat, f: nat, e: nat)
    requires f < e && m < EXACT
    ensures Scaled(m, f) < Scaled(EXACT / 2, e)
  {
    PowMonotone(f, e - 1);
    SmallerSum(m, EXACT, Pow2(f), Pow2(e - 1));
    assert Pow2(e) == 2 * Pow2(e - 1);
  }

  lemma SmallerSum(m: nat, n: nat, x: nat, y: nat)
    requires m < n && 0 < x <= y
    ensures m * x < n * y
  {
  }

  lemma Regroup(m: nat, x: nat, y: nat)
    ensures m * (x * y) == m * x * y
  {
  }

  /** No multiple of the spacing is nearer than the one that rounding gives. */
  lemma NearestOfMultiples(n: nat, u: nat, c: nat)
    requires u >= 1
    ensures Distance(Rounded(n, u), n) <= Distance(c * u, n) && 2 * Distance(Rounded(n, u), n) <= u
  {
    var q, r := n / u, n % u;
    NearestMultiple(n, u);
    NextMultiple(q, u);
    Multiples(c, q, u);
    Multiples(q + 1, c, u);
    NearestNeighbour(n, q * u, (q + 1) * u, c * u, r, u);
  }

  lemma NextMultiple(q: nat, u: nat)
    ensures (q + 1) * u == q * u + u
  {
  }

  lemma NearestNeighbour(n: nat, below: nat, above: nat, y: nat, r: nat, u: nat)
    requires n == below + r && r < u && above == below + u && (y <= below || y >= above)
    ensures Distance(below, n) == r && Distance(above, n) == u - r
    ensures Distance(y, n) >= r || Distance(y, n) >= u - r
    ensures 2 * r <= u ==> r <= Distance(y, n)
    ensures 2 * r >= u ==> u - r <= Distance(y, n)
  {
  }

  lemma ToDoubleIsClose(n: nat)
    ensures 2 * Distance(ToDouble(n), n) <= Spacing(n)
  {
    NearestOfMultiples(n, Spacing(n), 0);
  }

  lemma ToDoubleIsDouble(n: nat)
    ensures IsDouble(ToDouble(n))
  {
    var e := SpacingIsPower(n);
    QuotientBelow(n, Pow2(e), EXACT);
    MultipleIsDouble(n / Pow2(e), e);
    MultipleIsDouble(n / Pow2(e) + 1, e);
  }

  lemma MultipleIsDouble(c: nat, e: nat)
    requires c <= EXACT
    ensures IsDouble(c * Pow2(e))
  {
    if c < EXACT {
      assert Scaled(c, e) == c * Pow2(e);
    } else {
      assert Pow2(e + 1) == 2 * Pow2(e);
      assert Scaled(EXACT / 2, e + 1) == c * Pow2(e);
    }
  }

  lemma QuotientBelow(n: nat, u: nat, limit: nat)
    requires u >= 1 && n < limit * u
    ensures n / u < limit
  {
    NearestMultiple(n, u);
    Multiples(limit, n / u, u);
    assert n == n / u * u + n % u;
  }

  lemma Multiples(a: nat, b: nat, u: nat)
    ensures a <= b ==> a * u <= b * u
  {
  }

  /** No double is nearer to n than the one that rounding gives. */
  lemma ToDoubleIsNearest(n: nat, y: nat)
    requires IsDouble(y)
    ensures Distance(ToDouble(n), n) <= Distance(y, n)
  {
    var e := SpacingIsPower(n);
    var u := Spacing(n);
    if n < EXACT {
      NearestOfMultiples(n, 1, n);
    } else if y >= Scaled(EXACT / 2, e) {
      var m: nat, f: nat :| m < EXACT && y == Scaled(m, f);
      var c := DoublesAreMultiples(n, e, m, f);
      NearestOfMultiples(n, u, c);
    } else {
      NearestOfMultiples(n, u, EXACT / 2);
    }
  }

  /** Rounding keeps the order. */
  lemma ToDoubleMonotone(a: nat, b: nat)
    requires a <= b
    ensures ToDouble(a) <= ToDouble(b)
  {
    hide ToDouble;
    ToDoubleIsDouble(a);
    ToDoubleIsDouble(b);
    ToDoubleIsNearest(a, ToDouble(b));
    ToDoubleIsNearest(b, ToDouble(a));
  }
}

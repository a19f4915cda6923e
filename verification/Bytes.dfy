/** Integers as byte sequences, least significant byte first (memory images on the wire) and most
    significant byte first (network order). */
module Bytes {
  import opened Words

  function Little(n: nat, width: nat): (b: seq<byte>)
    ensures |b| == width
  {
    if width == 0 then [] else [n % 256] + Little(n / 256, width - 1)
  }

  function FromLittle(b: seq<byte>): (n: nat)
  {
    if b == [] then 0 else b[0] + 256 * FromLittle(b[1..])
  }

  function Big(n: nat, width: nat): (b: seq<byte>)
    ensures |b| == width
  {
    if width == 0 then [] else Big(n / 256, width - 1) + [n % 256]
  }

  function FromBig(b: seq<byte>): (n: nat)
  {
    if b == [] then 0 else 256 * FromBig(b[..|b| - 1]) + b[|b| - 1]
  }

  /** 256^width. */
  function Range(width: nat): (r: nat)
    ensures r >= 1
  {
    if width == 0 then 1 else 256 * Range(width - 1)
  }

  lemma {:induction false} LittleRoundTrip(n: nat, width: nat)
    requires n < Range(width)
    ensures FromLittle(Little(n, width)) == n
  {
    if width > 0 {
      LittleRoundTrip(n / 256, width - 1);
      assert Little(n, width)[1..] == Little(n / 256, width - 1);
    }
  }

  lemma {:induction false} BigRoundTrip(n: nat, width: nat)
    requires n < Range(width)
    ensures FromBig(Big(n, width)) == n
  {
    if width > 0 {
      BigRoundTrip(n / 256, width - 1);
      assert Big(n, width)[..width - 1] == Big(n / 256, width - 1);
    }
  }

  lemma Ranges()
    ensures Range(1) == 0x100 && Range(2) == 0x1_0000 && Range(4) == WORD
    ensures Range(8) == 0x1_0000_0000_0000_0000
  {
    assert Range(4) == 256 * (256 * (256 * (256 * Range(0))));
    assert Range(8) == 256 * (256 * (256 * (256 * Range(4))));
  }

  lemma BigTwo(n: nat)
    ensures Big(n, 2) == [n / 0x100 % 0x100, n % 0x100]
  {
    assert Big(n / 256, 1) == Big(n / 256 / 256, 0) + [n / 256 % 256];
  }

  lemma BigFour(n: nat)
    ensures Big(n, 4) == [n / 0x100_0000 % 0x100, n / 0x1_0000 % 0x100, n / 0x100 % 0x100, n % 0x100]
  {
    BigTwo(n / 0x1_0000);
    assert Big(n / 256, 3) == Big(n / 256 / 256, 2) + [n / 256 % 256];
    assert n / 256 / 256 == n / 0x1_0000 && n / 0x1_0000 / 0x100 == n / 0x100_0000;
  }

  lemma LittleFour(n: nat)
    ensures Little(n, 4) == [n % 0x100, n / 0x100 % 0x100, n / 0x1_0000 % 0x100, n / 0x100_0000 % 0x100]
  {
    assert Little(n / 0x100, 3) == [n / 0x100 % 0x100] + Little(n / 0x1_0000, 2);
    assert Little(n / 0x1_0000, 2) == [n / 0x1_0000 % 0x100] + Little(n / 0x100_0000, 1);
    assert Little(n / 0x100_0000, 1) == [n / 0x100_0000 % 0x100] + Little(n / WORD, 0);
  }

  lemma LittleEight(n: nat)
    ensures Little(n, 8) == Little(n, 4) + Little(n / WORD, 4)
  {
    assert Little(n / 0x100, 7) == [n / 0x100 % 0x100] + Little(n / 0x1_0000, 6);
    assert Little(n / 0x1_0000, 6) == [n / 0x1_0000 % 0x100] + Little(n / 0x100_0000, 5);
    assert Little(n / 0x100_0000, 5) == [n / 0x100_0000 % 0x100] + Little(n / WORD, 4);
    LittleFour(n);
  }

  /** What is left of a number without its low bytes. */
  function High(n: nat, width: nat): nat {
    if width == 0 then n else High(n / 256, width - 1)
  }

  /** The high and the low bytes of a number, one behind the other. */
  lemma {:induction false} BigSplit(n: nat, width: nat, lowWidth: nat)
    ensures Big(n, width + lowWidth) == Big(High(n, lowWidth), width) + Big(n, lowWidth)
  {
    if lowWidth > 0 {
      BigSplit(n / 256, width, lowWidth - 1);
    }
  }

  lemma HighFour(n: nat)
    ensures High(n, 4) == n / WORD
  {
    assert High(n / 256 / 256 / 256, 1) == High(n / 256 / 256 / 256 / 256, 0);
    assert High(n / 256 / 256, 2) == High(n / 256 / 256 / 256, 1);
    assert High(n / 256, 3) == High(n / 256 / 256, 2);
  }

  function Concat<T>(parts: seq<seq<T>>): seq<T> {
    if parts == [] then [] else parts[0] + Concat(parts[1..])
  }

  lemma {:induction false} ConcatAppend<T>(a: seq<seq<T>>, b: seq<seq<T>>)
    ensures Concat(a + b) == Concat(a) + Concat(b)
  {
    if a == [] {
      assert a + b == b;
    } else {
      ConcatAppend(a[1..], b);
      assert (a + b)[1..] == a[1..] + b && (a + b)[0] == a[0];
      var head, x, y := a[0], Concat(a[1..]), Concat(b);
      assert head + (x + y) == head + x + y;
    }
  }

  lemma ConcatSnoc<T>(a: seq<seq<T>>, x: seq<T>)
    ensures Concat(a + [x]) == Concat(a) + x
  {
    ConcatAppend(a, [x]);
    assert Concat([x]) == x + Concat([]);
  }

  /** memcpy: elements one behind the other from a position on. */
  method CopyInto<T>(dest: array<T>, at: nat, data: seq<T>)
    requires at + |data| <= dest.Length
    modifies dest
    ensures dest[..at + |data|] == old(dest[..at]) + data
    ensures dest[at + |data|..] == old(dest[at + |data|..])
  {
    for i := 0 to |data|
      invariant dest[..at + i] == old(dest[..at]) + data[..i]
      invariant dest[at + i..] == old(dest[at + i..])
    {
      dest[at + i] := data[i];
    }
    assert data[..|data|] == data;
  }
}

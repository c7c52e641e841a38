/** Strings of bits, most significant bit first, as values and as bytes. */
module BitString {
  import opened ProbabilityTable
  import opened ByteStream
  import opened CoefficientModel

  type Bits = seq<bit>

  /** The low n bits of v. */
  function BitsOf(v: int, n: nat): (s: Bits)
    ensures |s| == n
    decreases n
  {
    if n == 0 then [] else BitsOf(v / 2, n - 1) + [v % 2]
  }

  /** The first bits are those of the shifted value. */
  lemma {:induction false} FirstBits(v: int, n: nat, d: nat)
    ensures BitsOf(v, n + d)[..n] == BitsOf(Shr(v, d), n)
    decreases d
  {
    if d > 0 {
      FirstBits(v / 2, n, d - 1);
      ShrHalf(v, d - 1);
      assert BitsOf(v, n + d)[..n] == BitsOf(v / 2, n + d - 1)[..n];
    } else {
      assert BitsOf(v, n)[..n] == BitsOf(v, n);
    }
  }

  lemma {:induction false} Append(v: int, n: nat, w: int, m: nat)
    requires 0 <= w < Shl(1, m)
    ensures BitsOf(Shl(v, m) + w, n + m) == BitsOf(v, n) + BitsOf(w, m)
  {
    if m > 0 {
      var x := Shl(v, m) + w;
      assert x == 2 * (Shl(v, m - 1) + w / 2) + w % 2;
      Append(v, n, w / 2, m - 1);
      assert x / 2 == Shl(v, m - 1) + w / 2 && x % 2 == w % 2;
      assert BitsOf(v, n) + BitsOf(w, m) == BitsOf(v, n) + BitsOf(w / 2, m - 1) + [w % 2];
    } else {
      assert BitsOf(v, n) + [] == BitsOf(v, n);
    }
  }

  lemma {:induction false} Injective(v: int, w: int, n: nat)
    requires 0 <= v < Shl(1, n) && 0 <= w < Shl(1, n) && BitsOf(v, n) == BitsOf(w, n)
    ensures v == w
  {
    if n > 0 {
      var a, b := BitsOf(v / 2, n - 1), BitsOf(w / 2, n - 1);
      assert a == BitsOf(v, n)[..n - 1] && b == BitsOf(w, n)[..n - 1];
      assert v % 2 == BitsOf(v, n)[n - 1] && w % 2 == BitsOf(w, n)[n - 1];
      Injective(v / 2, w / 2, n - 1);
    }
  }

  lemma {:induction false} ShlPositive(n: nat)
    ensures Shl(1, n) >= 1
  {
    if n > 0 {
      ShlPositive(n - 1);
    }
  }

  /** Shifting back and forth. */
  lemma {:induction false} ShrAtLeast(v: int, x: int, d: nat)
    requires Shl(x, d) <= v
    ensures Shr(v, d) >= x
    decreases d
  {
    if d > 0 {
      ShrHalf(v, d - 1);
      ShrAtLeast(v / 2, x, d - 1);
    }
  }

  lemma {:induction false} ShrBelow(v: int, n: nat, d: nat)
    requires 0 <= v < Shl(1, n + d)
    ensures 0 <= Shr(v, d) < Shl(1, n)
  {
    if d > 0 {
      ShrHalf(v, d - 1);
      ShrBelow(v / 2, n, d - 1);
    }
  }

  function Ones(n: nat): (s: Bits)
    ensures |s| == n
  {
    if n == 0 then [] else Ones(n - 1) + [1]
  }

  /** n bits that are all ones have the greatest value. */
  lemma {:induction false} AllOnesValue(v: int, n: nat)
    requires 0 <= v < Shl(1, n) && BitsOf(v, n) == Ones(n)
    ensures v == Shl(1, n) - 1
  {
    if n > 0 {
      assert BitsOf(v, n)[..n - 1] == BitsOf(v / 2, n - 1) && Ones(n)[..n - 1] == Ones(n - 1);
      assert BitsOf(v, n)[n - 1] == v % 2 && Ones(n)[n - 1] == 1;
      AllOnesValue(v / 2, n - 1);
    }
  }

  /** The bits of bytes. */
  function BitsOfBytes(s: seq<byte>): Bits {
    if s == [] then [] else BitsOfBytes(s[..|s| - 1]) + BitsOf(s[|s| - 1], 8)
  }

  lemma {:induction false} BitsOfSnoc(s: seq<byte>, b: byte)
    ensures BitsOfBytes(s + [b]) == BitsOfBytes(s) + BitsOf(b, 8)
  {
    assert (s + [b])[..|s|] == s;
  }
}

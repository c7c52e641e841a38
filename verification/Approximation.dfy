/** What a decoder shows of a block while its scans come in: each coefficient down to some bit position. */
module Approximation {
  import opened ProbabilityTable
  import opened ByteStream
  import opened CodingInterval
  import opened CoefficientModel

  predicate IsBlock(b: Block) {
    forall i :: 0 <= i < 64 ==> IsJcoef(b[i])
  }

  /** The coefficient at zigzag position k without the bits below al: the DC coefficient is shifted arithmetically, the
      magnitude of an AC coefficient is truncated. */
  function Level(x: int, k: nat, al: nat): int {
    if k == 0 then Shl(Shr(x, al), al) else Shl(PointTransform(x, al), al)
  }

  /** Positions lo..hi of the block at base show b down to bit al, or nothing if al is negative. */
  predicate Shows(mem: seq<int>, base: nat, order: seq<nat>, b: Block, lo: nat, hi: nat, al: int)
    requires GoodOrder(order) && hi < |order| && base + 64 <= |mem|
  {
    forall k :: lo <= k <= hi ==> mem[base + order[k]] == if al < 0 then 0 else Level(b[order[k]], k, al)
  }

  /** Without its low bits a coefficient still fits a JCOEF. */
  lemma {:induction false} LevelFits(x: int, k: nat, al: nat)
    requires IsJcoef(x) && al <= 15
    ensures IsJcoef(Level(x, k, al))
  {
    Truncates(x, al);
    if k == 0 {
      PowersInUse();
      var m := Shl(1, 15 - al);
      ShlShl(1, 15 - al, al);
      ShlNegative(m, al);
      if Shr(x, al) < -m {
        ShlMonotonic(Shr(x, al) + 1, -m, al);
      }
      ShlMonotonic(-m, Shr(x, al), al);
    } else {
      Truncates(-x, al);
      ShrSign(x, al);
      ShrSign(-x, al);
      ShlNegative(Shr(-x, al), al);
      ShlMonotonic(0, Abs(PointTransform(x, al)), al);
    }
  }

  lemma {:induction false} ShrRange(x: int, n: nat)
    requires IsJcoef(x)
    ensures IsJcoef(Shr(x, n))
  {
    if n > 0 {
      ShrRange(x, n - 1);
    }
  }

  /** At bit 0 nothing is missing. */
  lemma {:induction false} NothingMissing(x: int, k: nat)
    ensures Level(x, k, 0) == x
  {
  }

  /** The bit that a DC refinement scan adds. */
  function OrBit(v: int, al: nat): int {
    if Shr(v, al) % 2 == 0 then v + Shl(1, al) else v
  }

  lemma {:induction false} NextDcBit(x: int, al: nat)
    ensures var v := Level(x, 0, al + 1);
            Level(x, 0, al) == if Shr(x, al) % 2 == 1 then OrBit(v, al) else v
  {
    var y := Shr(x, al);
    ShlShl(y / 2, 1, al);
    assert Shl(y / 2, 1) == 2 * Shl(y / 2, 0);
    ShrShl(2 * (y / 2), al);
    ShlAdd(2 * (y / 2), y % 2, al);
    ShlZero(al);
  }

  /** Between two scans the point transforms differ by one bit. */
  lemma {:induction false} HalfTransform(x: int, al: nat)
    ensures Half(PointTransform(x, al)) == PointTransform(x, al + 1)
  {
    ShrSign(x, al);
    ShrSign(-x, al);
  }

  /** What a level shows: a multiple of 2^al that a DC coefficient exceeds by less than 2^al, and that falls short of
      the magnitude of an AC coefficient by less than 2^al, with the same sign or zero. */
  lemma {:induction false} LevelMeans(x: int, k: nat, al: nat) returns (q: int)
    ensures Level(x, k, al) == Shl(q, al) && Shl(1, al) >= 1
    ensures k == 0 ==> Level(x, k, al) <= x < Level(x, k, al) + Shl(1, al)
    ensures k > 0 && x >= 0 ==> 0 <= Level(x, k, al) <= x < Level(x, k, al) + Shl(1, al)
    ensures k > 0 && x <= 0 ==> Level(x, k, al) - Shl(1, al) < x <= Level(x, k, al) <= 0
  {
    q := if k == 0 then Shr(x, al) else PointTransform(x, al);
    var m := if k == 0 || x >= 0 then x else -x;
    ShlOfNat(1, al);
    Truncates(m, al);
    ShlAdd(Shr(m, al), 1, al);
    ShrSign(m, al);
    ShlNegative(Shr(m, al), al);
    if Shr(m, al) >= 0 {
      ShlOfNat(Shr(m, al), al);
    }
  }
}

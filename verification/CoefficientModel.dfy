/** The decisions that stand for DCT coefficients in arithmetic coding: ITU-T T.81, sections F.1.4 and G.1.3. */
module CoefficientModel {
  import opened ProbabilityTable
  import opened ByteStream
  import opened CodingInterval

  // Statistics areas: 16 DC tables of 64 bins, 16 AC tables of 256 bins, the fixed bin

  const DC_STAT_BINS := 64
  const AC_STAT_BINS := 256
  const NUM_ARITH_TBLS := 16
  const FIXED_BIN := 5120
  const NUM_BINS := 5121

  function DcStats(tbl: nat): nat {
    DC_STAT_BINS * tbl
  }

  function AcStats(tbl: nat): nat {
    1024 + AC_STAT_BINS * tbl
  }

  // Binary digits of magnitudes

  function Shr(v: int, n: nat): int {
    if n == 0 then v else Shr(v, n - 1) / 2
  }

  /** The number of the highest bit set. */
  function Log(v: int): nat
    decreases v
  {
    if v < 2 then 0 else 1 + Log(v / 2)
  }

  function Abs(v: int): nat {
    if v < 0 then -v else v
  }

  function Sign(v: int): bit {
    if v < 0 then 1 else 0
  }

  // Each procedure is given by the decisions it codes before the rest of the decisions.

  function Code(bin: nat, b: bit, rest: Decisions): Decisions {
    Then(Decision(bin, b), rest)
  }

  /** Figure F.8, from the second decision on: one decision per binary digit. */
  function Category(st: nat, v: int, rest: Decisions): (ds: Decisions)
    ensures ds.Then? && ds.first.bin == st
    decreases v
  {
    if v < 2 then Code(st, 0, rest) else Code(st, 1, Category(st + 1, v / 2, rest))
  }

  /** Figure F.9: the n bits below the highest one. */
  function Pattern(st: nat, n: nat, v: int, rest: Decisions): Decisions {
    if n == 0 then rest else Code(st, Shr(v, n - 1) % 2, Pattern(st, n - 1, v, rest))
  }

  /** The magnitude of a nonzero DC difference, less one; X1 = 20. */
  function DcMagnitude(stats: nat, st: nat, v: nat, rest: Decisions): (ds: Decisions)
    ensures ds.Then? && ds.first.bin == st
  {
    if v == 0 then Code(st, 0, rest)
    else Code(st, 1, Category(stats + 20, v, Pattern(stats + 34 + Log(v), Log(v), v, rest)))
  }

  /** Figure F.4. */
  function DcDecisions(stats: nat, context: nat, diff: int, rest: Decisions): (ds: Decisions)
    ensures ds.Then? && ds.first.bin == stats + context
  {
    var st := stats + context;
    if diff == 0 then Code(st, 0, rest)
    else Code(st, 1, Code(st + 1, Sign(diff), DcMagnitude(stats, st + 2 + Sign(diff), Abs(diff) - 1, rest)))
  }

  /** Section F.1.4.4.1.2: the conditioning category for the next difference. */
  function DcContext(diff: int, low: nat, high: nat): nat {
    var v := Abs(diff) - 1;
    var m := if v <= 0 then 0 else Shl(1, Log(v));
    if diff == 0 || m < Shl(1, low) / 2 then 0
    else (if m > Shl(1, high) / 2 then 12 else 4) + 4 * Sign(diff)
  }

  /** The magnitude of a nonzero AC coefficient at position k, less one; X2 and X3 depend on the position. */
  function AcMagnitude(stats: nat, kx: nat, k: nat, st: nat, v: nat, rest: Decisions): (ds: Decisions)
    ensures ds.Then? && ds.first.bin == st
  {
    if v == 0 then Code(st, 0, rest)
    else if v == 1 then Code(st, 1, Code(st, 0, rest))
    else
      var x := stats + if k <= kx then 189 else 217;
      Code(st, 1, Code(st, 1, Category(x, v / 2, Pattern(x + 14 + Log(v / 2), Log(v), v, rest))))
  }

  predicate Zeros(zz: seq<int>, lo: nat, hi: nat)
    requires hi < |zz|
  {
    forall i :: lo <= i <= hi ==> zz[i] == 0
  }

  /** Figure F.5, behind the coefficient at position k: end of block, or the run to the next nonzero coefficient. */
  function AcDecisions(stats: nat, kx: nat, zz: seq<int>, k: nat, se: nat, rest: Decisions): Decisions
    requires k <= se < |zz|
    decreases se - k, 0
  {
    if k == se then rest
    else if Zeros(zz, k + 1, se) then Code(stats + 3 * k, 1, rest)
    else Code(stats + 3 * k, 0, AcRun(stats, kx, zz, k + 1, se, rest))
  }

  function AcRun(stats: nat, kx: nat, zz: seq<int>, k: nat, se: nat, rest: Decisions): (ds: Decisions)
    requires 1 <= k <= se < |zz| && !Zeros(zz, k, se)
    ensures ds.Then? && ds.first.bin == stats + 3 * k - 2
    decreases se - k, 1
  {
    var st := stats + 3 * k - 3;
    if zz[k] == 0 then Code(st + 1, 0, AcRun(stats, kx, zz, k + 1, se, rest))
    else
      Code(st + 1, 1, Code(FIXED_BIN, Sign(zz[k]),
        AcMagnitude(stats, kx, k, st + 2, Abs(zz[k]) - 1, AcDecisions(stats, kx, zz, k, se, rest))))
  }

  /** No coefficient that was nonzero before the refinement: a magnitude, up to the bit now sent, of at most one. */
  predicate NoneOld(zz: seq<int>, lo: nat, hi: nat)
    requires hi < |zz|
  {
    forall i :: lo <= i <= hi ==> Abs(zz[i]) <= 1
  }

  /** Figure G.10: refinement of coefficients, given up to the bit now sent. While old coefficients follow there is no
      end-of-block decision. */
  function RefineDecisions(stats: nat, zz: seq<int>, k: nat, se: nat, rest: Decisions): Decisions
    requires k <= se < |zz|
    decreases se - k, 0
  {
    if k == se then rest
    else if Zeros(zz, k + 1, se) then Code(stats + 3 * k, 1, rest)
    else
      var run := RefineRun(stats, zz, k + 1, se, rest);
      if NoneOld(zz, k + 1, se) then Code(stats + 3 * k, 0, run) else run
  }

  function RefineRun(stats: nat, zz: seq<int>, k: nat, se: nat, rest: Decisions): (ds: Decisions)
    requires 1 <= k <= se < |zz| && !Zeros(zz, k, se)
    ensures ds.Then? && ds.first.bin == stats + 3 * k - if Abs(zz[k]) > 1 then 1 else 2
    decreases se - k, 1
  {
    var st := stats + 3 * k - 3;
    if zz[k] == 0 then Code(st + 1, 0, RefineRun(stats, zz, k + 1, se, rest))
    else
      var more := RefineDecisions(stats, zz, k, se, rest);
      if Abs(zz[k]) > 1 then Code(st + 2, Abs(zz[k]) % 2, more)
      else Code(st + 1, 1, Code(FIXED_BIN, Sign(zz[k]), more))
  }

  // Blocks and the point transform

  type Block = b: seq<int> | |b| == 64 witness seq(64, i => 0)

  type Mcu = seq<Block>

  /** The tables that a component of a scan uses. */
  datatype Component = Component(dcTbl: nat, acTbl: nat)

  /** The zigzag order in use: distinct positions of a block, the DC coefficient first. */
  predicate GoodOrder(order: seq<nat>) {
    && 1 <= |order| <= 64 && order[0] == 0
    && (forall i :: 0 <= i < |order| ==> order[i] < 64)
    && (forall i, j :: 0 <= i < j < |order| ==> order[i] != order[j])
  }

  /** AC coefficients are divided by 2^al with rounding towards zero. */
  function PointTransform(x: int, al: nat): int {
    if x >= 0 then Shr(x, al) else -Shr(-x, al)
  }

  /** The AC coefficients of a block in zigzag order, after the point transform. */
  function Transformed(block: Block, order: seq<nat>, al: nat): (zz: seq<int>)
    requires GoodOrder(order)
    ensures |zz| == |order|
    ensures forall i :: 0 <= i < |zz| ==> zz[i] == PointTransform(block[order[i]], al)
  {
    seq(|order|, i requires 0 <= i < |order| => PointTransform(block[order[i]], al))
  }

  /** The conversion to JCOEF, a 16-bit integer. */
  function Jcoef(x: int): int {
    (x + 0x8000) % 0x10000 - 0x8000
  }

  predicate IsJcoef(x: int) {
    -0x8000 <= x < 0x8000
  }

  lemma {:induction false} JcoefOfJcoef(x: int)
    requires IsJcoef(x)
    ensures Jcoef(x) == x
  {
  }

  /** An index of the coefficient memory that belongs to coefficients lo..hi of the block at base. */
  predicate InBand(i: int, base: nat, order: seq<nat>, lo: nat, hi: nat) {
    exists k :: lo <= k <= hi && k < |order| && i == base + order[k]
  }

  /** The value of a coefficient before the refinement that sends its lowest bit. */
  function Half(z: int): int {
    if z >= 0 then z / 2 else -(-z / 2)
  }

  // Arithmetic

  lemma {:induction false} ShlNegative(x: int, n: nat)
    ensures Shl(-x, n) == -Shl(x, n)
  {
    if n > 0 {
      ShlNegative(x, n - 1);
    }
  }

  /** Adding the next bit to the magnitude of an old coefficient. */
  lemma {:induction false} NextBit(z: int, al: nat)
    ensures var before, p := Shl(Half(z), al + 1), Shl(1, al);
            && Shl(z, al) == (if Abs(z) % 2 == 0 then before else if z < 0 then before - p else before + p)
            && (before < 0 <==> z < -1) && (before == 0 <==> Abs(z) <= 1)
  {
    var h, b := Half(z), if z < 0 then -(Abs(z) % 2) else Abs(z) % 2;
    assert z == 2 * h + b;
    ShlAdd(2 * h, b, al);
    ShlShl(h, 1, al);
    assert Shl(h, 1) == 2 * Shl(h, 0);
    ShlNegative(1, al);
    ShlZero(al);
    ShlZero(al + 1);
    if h >= 1 {
      ShlOfNat(h, al + 1);
    } else if h <= -1 {
      ShlOfNat(-h, al + 1);
      ShlNegative(h, al + 1);
    }
  }

  lemma {:induction false} ShrHalf(v: int, n: nat)
    ensures Shr(v / 2, n) == Shr(v, n + 1)
  {
    if n > 0 {
      ShrHalf(v, n - 1);
    }
  }

  /** The highest bit is what is left when the Log(v) bits below it are dropped. */
  lemma {:induction false} HighestBit(v: int)
    requires v >= 1
    ensures Shr(v, Log(v)) == 1
    decreases v
  {
    if v >= 2 {
      HighestBit(v / 2);
      ShrHalf(v, Log(v / 2));
    }
  }

  lemma {:induction false} LogBound(v: int, n: nat)
    requires v >= 1
    ensures v < Shl(1, n) <==> Log(v) < n
    decreases v
  {
    if n == 0 {
    } else if v >= 2 {
      LogBound(v / 2, n - 1);
    } else {
      ShlOfNat(1, n - 1);
    }
  }

  /** Testing a bit with a mask. */
  lemma {:induction false} MaskedBit(v: nat, n: nat)
    ensures Shl(1, n) >= 1 && v / Shl(1, n) == Shr(v, n) >= 0
  {
    if n > 0 {
      MaskedBit(v, n - 1);
      QuotientHalves(v, Shl(1, n - 1), Shr(v, n - 1));
    }
  }

  lemma {:induction false} QuotientHalves(v: nat, h: int, w: int)
    requires h > 0 && v / h == w
    ensures v / (2 * h) == w / 2
  {
    var q, b := w / 2, w % 2;
    assert w == 2 * q + b;
    assert v == h * w + v % h;
    HalfQuotient(v, h, q, b, v % h);
  }

  lemma {:induction false} HalfQuotient(v: nat, h: int, q: int, b: int, r: int)
    requires 0 <= r < h && 0 <= b < 2 && v == h * (2 * q + b) + r
    ensures v / (2 * h) == q
  {
    assert v == q * (2 * h) + (h * b + r);
    assert 0 <= h * b <= h;
    Digits(q, h * b + r, 2 * h);
  }

  lemma {:induction false} ShrSmaller(v: nat, n: nat)
    ensures 0 <= Shr(v, n) <= v
  {
    if n > 0 {
      ShrSmaller(v, n - 1);
    }
  }

  lemma {:induction false} ShrShl(x: int, n: nat)
    ensures Shr(Shl(x, n), n) == x
  {
    if n > 0 {
      ShrShl(x, n - 1);
      ShrHalf(Shl(x, n), n - 1);
    }
  }

  /** The bits above the lowest n. */
  lemma {:induction false} Truncates(x: int, n: nat)
    ensures Shl(Shr(x, n), n) <= x < Shl(Shr(x, n) + 1, n)
  {
    if n > 0 {
      var y := Shr(x, n - 1);
      Truncates(x, n - 1);
      ShlShl(y / 2, 1, n - 1);
      ShlShl(y / 2 + 1, 1, n - 1);
      assert Shl(y / 2, 1) == 2 * Shl(y / 2, 0) && Shl(y / 2 + 1, 1) == 2 * Shl(y / 2 + 1, 0);
      ShlMonotonic(2 * (y / 2), y, n - 1);
      ShlMonotonic(y + 1, 2 * (y / 2 + 1), n - 1);
    }
  }

  lemma {:induction false} ShrSign(x: int, n: nat)
    ensures x >= 0 ==> Shr(x, n) >= 0
  {
    if n > 0 {
      ShrSign(x, n - 1);
    }
  }

  /** v | m, for a mask of one bit. */
  function SetBit(v: nat, m: nat): nat
    requires m > 0
  {
    if v / m % 2 == 0 then v + m else v
  }

  lemma {:induction false} ShiftedPair(q: nat, n: nat)
    requires n > 0
    ensures Shl(1, n - 1) >= 1 && Shl(q, n) >= 0 && Shl(2 * q, n - 1) == Shl(q, n)
    ensures Shl(q, n) / Shl(1, n - 1) == 2 * q
  {
    ShlOfNat(q, n);
    MaskedBit(Shl(q, n), n - 1);
    ShlShl(q, 1, n - 1);
    assert Shl(q, 1) == 2 * Shl(q, 0);
    ShrShl(2 * q, n - 1);
  }

  lemma {:induction false} SetClearBit(v: nat, m: nat, q: int)
    requires m > 0 && v / m == 2 * q
    ensures SetBit(v, m) == v + m
  {
  }

  /** Setting or not setting the next lower bit of a number whose lower bits are clear. */
  lemma {:induction false} NextLowerBit(q: nat, n: nat, b: bit)
    requires n > 0
    ensures Shl(1, n - 1) >= 1 && Shl(q, n) >= 0
    ensures (if b == 1 then SetBit(Shl(q, n), Shl(1, n - 1)) else Shl(q, n)) == Shl(2 * q + b, n - 1) >= 0
  {
    ShiftedPair(q, n);
    SetClearBit(Shl(q, n), Shl(1, n - 1), q);
    hide SetBit;
    ShlAdd(2 * q, b, n - 1);
    ShlZero(n - 1);
  }

  lemma {:induction false} ShlGrows(m: nat, j: nat, k: nat)
    requires j <= k
    ensures Shl(m, j) <= Shl(m, k)
  {
    if j < k {
      ShlGrows(m, j, k - 1);
      ShlOfNat(m, k - 1);
    }
  }

  /** A category below 0x8000 has a next one that is at most 0x8000. */
  lemma {:induction false} CategoryLimit(m0: nat, j: nat)
    requires 1 <= m0 <= 2 && Shl(m0, j) < 0x8000
    ensures j + m0 <= 15 && 2 * Shl(m0, j) <= 0x8000
  {
    PowersInUse();
    ShlShl(1, m0 - 1, j);
    assert Shl(1, 1) == 2 * Shl(1, 0);
    assert Shl(1, m0 - 1) == m0;
    if j + m0 - 1 >= 15 {
      ShlGrows(1, 15, j + m0 - 1);
    } else {
      ShlGrows(1, j + m0, 15);
    }
  }
}

/** Encoding the coefficients of an MCU (jcarith.c, the encode_mcu routines). */
module McuEncoder {
  import opened ProbabilityTable
  import opened ByteStream
  import opened CodingInterval
  import opened ArithEncoder
  import opened CoefficientModel

  // The ghost argument rest stands for the decisions that follow; see Encoder.Coded.

  /** Figure F.8 from the second decision on; m0 is the category already reached. */
  method EncodeCategory(e: Encoder, st0: nat, v: int, m0: int, ghost rest: Decisions) returns (st: nat, m: int)
    requires e.Valid() && v >= 1 && st0 + Log(v) < e.bins.Length
    modifies e, e.bins
    ensures e.Coded(Category(st0, v, rest), rest) && st == st0 + Log(v) && m == Shl(m0, Log(v))
  {
    hide Encoder.Valid;
    st, m := st0, m0;
    var v2 := v;
    while v2 / 2 != 0
      invariant v2 >= 1 && st0 <= st && st + Log(v2) == st0 + Log(v)
      invariant m == Shl(m0, st - st0)
      invariant e.Coded(Category(st0, v, rest), Category(st, v2, rest))
      decreases v2
    {
      v2 := v2 / 2;
      e.ArithEncode(st, 1, Category(st + 1, v2, rest));
      m := m * 2;
      st := st + 1;
    }
    e.ArithEncode(st, 0, rest);
  }

  /** Figure F.9: the bits below the highest one, m. */
  method EncodePattern(e: Encoder, st: nat, m0: int, v: nat, ghost n: nat, ghost rest: Decisions)
    requires e.Valid() && m0 == Shl(1, n) && st < e.bins.Length
    modifies e, e.bins
    ensures e.Coded(Pattern(st, n, v, rest), rest)
  {
    hide Encoder.Valid;
    var m := m0;
    ghost var i := n;
    MaskedBit(v, i);
    while m / 2 != 0
      invariant 0 <= i <= n && m == Shl(1, i)
      invariant e.Coded(Pattern(st, n, v, rest), Pattern(st, i, v, rest))
      decreases i
    {
      m := m / 2;
      i := i - 1;
      MaskedBit(v, i);
      e.ArithEncode(st, v / m % 2, Pattern(st, i, v, rest));  // m & v
      MaskedBit(v, i);
    }
    MaskedBit(v, if i > 0 then i - 1 else 0);
  }

  method EncodeDcMagnitude(e: Encoder, stats: nat, st0: nat, v: nat, ghost rest: Decisions) returns (m: int)
    requires e.Valid() && stats + 64 <= e.bins.Length && st0 < e.bins.Length && v < 0x10000
    modifies e, e.bins
    ensures e.Coded(DcMagnitude(stats, st0, v, rest), rest) && m == if v == 0 then 0 else Shl(1, Log(v))
  {
    hide Encoder.Valid;
    var st := st0;
    m := 0;
    if v != 0 {
      LogBound(v, 16);
      PowersInUse();
      ghost var pattern := Pattern(stats + 34 + Log(v), Log(v), v, rest);
      e.ArithEncode(st, 1, Category(stats + 20, v, pattern));
      st, m := EncodeCategory(e, stats + 20, v, 1, pattern);
      EncodePattern(e, st + 14, m, v, Log(v), rest);
    } else {
      e.ArithEncode(st, 0, rest);
    }
  }

  /** Figures F.4 and F.6 to F.9; returns the conditioning category for the next difference. */
  method EncodeDcDiff(e: Encoder, stats: nat, context: nat, diff: int, low: nat, high: nat, ghost rest: Decisions)
      returns (next: nat)
    requires e.Valid() && stats + 64 <= e.bins.Length && context <= 16 && Abs(diff) <= 0x10000
    modifies e, e.bins
    ensures e.Coded(DcDecisions(stats, context, diff, rest), rest) && next == DcContext(diff, low, high)
  {
    hide Encoder.Valid;
    var st := stats + context;
    if diff == 0 {
      e.ArithEncode(st, 0, rest);
      next := 0;
    } else {
      ghost var magnitude := DcMagnitude(stats, st + 2 + Sign(diff), Abs(diff) - 1, rest);
      e.ArithEncode(st, 1, Code(st + 1, Sign(diff), magnitude));
      var v := diff;
      if v > 0 {
        e.ArithEncode(st + 1, 0, magnitude);
        st := st + 2;
        next := 4;
      } else {
        v := -v;
        e.ArithEncode(st + 1, 1, magnitude);
        st := st + 3;
        next := 8;
      }
      v := v - 1;
      var m := EncodeDcMagnitude(e, stats, st, v, rest);
      if m < Shl(1, low) / 2 {
        next := 0;
      } else if m > Shl(1, high) / 2 {
        next := next + 8;
      }
    }
  }

  method EncodeAcMagnitude(e: Encoder, stats: nat, kx: nat, k: nat, st0: nat, v: nat, ghost rest: Decisions)
    requires e.Valid() && stats + 256 <= e.bins.Length && st0 < e.bins.Length && v < 0x10000
    modifies e, e.bins
    ensures e.Coded(AcMagnitude(stats, kx, k, st0, v, rest), rest)
  {
    hide Encoder.Valid;
    if v / 2 == 0 {
      ghost var last := Code(st0, 0, rest);
      if v != 0 {
        e.ArithEncode(st0, 1, last);
      }
      e.ArithEncode(st0, 0, rest);
    } else {
      LogBound(v / 2, 15);
      PowersInUse();
      var x := stats + if k <= kx then 189 else 217;
      ghost var pattern := Pattern(x + 14 + Log(v / 2), Log(v), v, rest);
      ghost var category := Category(x, v / 2, pattern);
      e.ArithEncode(st0, 1, Code(st0, 1, category));
      e.ArithEncode(st0, 1, category);
      var st, m := EncodeCategory(e, x, v / 2, 2, pattern);
      ShlShl(1, 1, Log(v / 2));
      assert Shl(1, 1) == 2 * Shl(1, 0);
      EncodePattern(e, st + 14, m, v, Log(v), rest);
    }
  }

  /** The index of the last coefficient that the point transform leaves nonzero, or 0. */
  method EndOfBlock(block: Block, order: seq<nat>, se: nat, al: nat) returns (ke: nat)
    requires GoodOrder(order) && se < |order|
    ensures var zz := Transformed(block, order, al);
            ke <= se && Zeros(zz, ke + 1, se) && (ke > 0 ==> zz[ke] != 0)
  {
    ke := se;
    while ke > 0 && Shr(Abs(block[order[ke]]), al) == 0
      invariant ke <= se && Zeros(Transformed(block, order, al), ke + 1, se)
    {
      ke := ke - 1;
    }
  }

  // The decisions at a position, given the end-of-block index

  lemma {:induction false} AcAt(stats: nat, kx: nat, zz: seq<int>, k: nat, ke: nat, se: nat, rest: Decisions)
    requires k <= se < |zz| && ke <= se && Zeros(zz, ke + 1, se) && (ke > 0 ==> zz[ke] != 0)
    ensures k < ke ==> !Zeros(zz, k + 1, se)
                       && AcDecisions(stats, kx, zz, k, se, rest)
                       == Code(stats + 3 * k, 0, AcRun(stats, kx, zz, k + 1, se, rest))
    ensures k >= ke ==> AcDecisions(stats, kx, zz, k, se, rest) == if k < se then Code(stats + 3 * k, 1, rest) else rest
  {
    if k < ke {
      assert zz[ke] != 0;
    }
  }

  lemma {:induction false} AcZero(stats: nat, kx: nat, zz: seq<int>, k: nat, ke: nat, se: nat, rest: Decisions)
    requires 1 <= k < ke <= se < |zz| && zz[ke] != 0 && zz[k] == 0
    ensures AcRun(stats, kx, zz, k, se, rest) == Code(stats + 3 * k - 2, 0, AcRun(stats, kx, zz, k + 1, se, rest))
  {
  }

  lemma {:induction false} AcNonzero(stats: nat, kx: nat, zz: seq<int>, k: nat, se: nat, rest: Decisions)
    requires 1 <= k <= se < |zz| && zz[k] != 0
    ensures AcRun(stats, kx, zz, k, se, rest)
         == Code(stats + 3 * k - 2, 1, Code(FIXED_BIN, Sign(zz[k]),
              AcMagnitude(stats, kx, k, stats + 3 * k - 1, Abs(zz[k]) - 1, AcDecisions(stats, kx, zz, k, se, rest))))
  {
  }

  /** The run of zeros from position k0 to the next nonzero coefficient, and that coefficient. */
  method EncodeRun(e: Encoder, stats: nat, kx: nat, block: Block, order: seq<nat>, k0: nat, ghost ke: nat,
                   ghost se: nat, al: nat, ghost rest: Decisions) returns (k: nat)
    requires e.Valid() && stats + 256 <= e.bins.Length && FIXED_BIN < e.bins.Length
    requires GoodOrder(order) && 1 <= k0 <= ke <= se < |order| && Transformed(block, order, al)[ke] != 0
    requires forall i :: 0 <= i < 64 ==> Abs(block[i]) <= 0x8000
    modifies e, e.bins
    ensures k0 <= k <= ke
    ensures var zz := Transformed(block, order, al);
            e.Coded(AcRun(stats, kx, zz, k0, se, rest), AcDecisions(stats, kx, zz, k, se, rest))
  {
    hide Encoder.Valid, AcRun, AcDecisions;
    ghost var zz := Transformed(block, order, al);
    k := k0;
    var st := stats + 3 * k - 3;
    while Shr(Abs(block[order[k]]), al) == 0
      invariant k0 <= k <= ke && st == stats + 3 * k - 3
      invariant e.Coded(AcRun(stats, kx, zz, k0, se, rest), AcRun(stats, kx, zz, k, se, rest))
      decreases ke - k
    {
      AcZero(stats, kx, zz, k, ke, se, rest);
      e.ArithEncode(st + 1, 0, AcRun(stats, kx, zz, k + 1, se, rest));
      st := st + 3;
      k := k + 1;
    }
    AcNonzero(stats, kx, zz, k, se, rest);
    EncodeNonzero(e, stats, kx, k, zz[k], block[order[k]], al, AcDecisions(stats, kx, zz, k, se, rest));
  }

  /** Figure F.5: the coefficients ss..se of a block after the point transform by al. */
  method EncodeAc(e: Encoder, stats: nat, kx: nat, block: Block, order: seq<nat>, ss: nat, se: nat, al: nat,
                  ghost rest: Decisions)
    requires e.Valid() && stats + 256 <= e.bins.Length && FIXED_BIN < e.bins.Length
    requires GoodOrder(order) && 1 <= ss <= se < |order|
    requires forall i :: 0 <= i < 64 ==> Abs(block[i]) <= 0x8000
    modifies e, e.bins
    ensures e.Coded(AcDecisions(stats, kx, Transformed(block, order, al), ss - 1, se, rest), rest)
  {
    hide Encoder.Valid, AcRun, AcDecisions;
    ghost var zz := Transformed(block, order, al);
    ghost var all := AcDecisions(stats, kx, zz, ss - 1, se, rest);
    var ke := EndOfBlock(block, order, se, al);
    var k := ss - 1;
    while k < ke
      invariant 0 <= k <= se && (k > ke ==> k == ss - 1)
      invariant e.Coded(all, AcDecisions(stats, kx, zz, k, se, rest))
    {
      AcAt(stats, kx, zz, k, ke, se, rest);
      e.ArithEncode(stats + 3 * k, 0, AcRun(stats, kx, zz, k + 1, se, rest));  // not the end of the block
      k := EncodeRun(e, stats, kx, block, order, k + 1, ke, se, al, rest);
    }
    AcAt(stats, kx, zz, k, ke, se, rest);
    if k < se {
      e.ArithEncode(stats + 3 * k, 1, rest);
    }
  }

  /** A nonzero coefficient: its sign and magnitude behind the decision that ends the run. */
  method EncodeNonzero(e: Encoder, stats: nat, kx: nat, k: nat, ghost z: int, coef: int, al: nat, ghost rest: Decisions)
    requires e.Valid() && 1 <= k < 64 && stats + 256 <= e.bins.Length && FIXED_BIN < e.bins.Length
    requires z == PointTransform(coef, al) != 0 && Abs(coef) <= 0x8000
    modifies e, e.bins
    ensures e.Coded(Code(stats + 3 * k - 2, 1, Code(FIXED_BIN, Sign(z),
                      AcMagnitude(stats, kx, k, stats + 3 * k - 1, Abs(z) - 1, rest))), rest)
  {
    hide Encoder.Valid;
    ShrSmaller(Abs(coef), al);
    var st := stats + 3 * k - 3;
    var v := coef;
    ghost var magnitude := AcMagnitude(stats, kx, k, st + 2, Abs(z) - 1, rest);
    e.ArithEncode(st + 1, 1, Code(FIXED_BIN, Sign(z), magnitude));
    if v >= 0 {
      v := Shr(v, al);
      e.ArithEncode(FIXED_BIN, 0, magnitude);
    } else {
      v := Shr(-v, al);
      e.ArithEncode(FIXED_BIN, 1, magnitude);
    }
    EncodeAcMagnitude(e, stats, kx, k, st + 2, v - 1, rest);
  }

  /** EOBx: the index of the last coefficient that was nonzero in the previous stage, or 0. */
  method PreviousEndOfBlock(block: Block, order: seq<nat>, ke: nat, ghost se: nat, al: nat, ah: nat) returns (kex: nat)
    requires GoodOrder(order) && ke <= se < |order| && ah == al + 1
    requires Zeros(Transformed(block, order, al), ke + 1, se)
    ensures var zz := Transformed(block, order, al);
            kex <= ke && NoneOld(zz, kex + 1, se) && (kex > 0 ==> Abs(zz[kex]) > 1)
  {
    kex := ke;
    while kex > 0 && Shr(Abs(block[order[kex]]), ah) == 0
      invariant kex <= ke && NoneOld(Transformed(block, order, al), kex + 1, se)
    {
      ShrSmaller(Abs(block[order[kex]]), al);
      kex := kex - 1;
    }
    ShrSmaller(Abs(block[order[kex]]), al);
  }

  /** The coefficients from position k0 to the next one that is nonzero after the refinement. */
  method EncodeRefineRun(e: Encoder, stats: nat, block: Block, order: seq<nat>, k0: nat, ghost ke: nat, ghost se: nat,
                         al: nat, ghost rest: Decisions) returns (k: nat)
    requires e.Valid() && stats + 256 <= e.bins.Length && FIXED_BIN < e.bins.Length
    requires GoodOrder(order) && 1 <= k0 <= ke <= se < |order| && Transformed(block, order, al)[ke] != 0
    modifies e, e.bins
    ensures k0 <= k <= ke
    ensures var zz := Transformed(block, order, al);
            e.Coded(RefineRun(stats, zz, k0, se, rest), RefineDecisions(stats, zz, k, se, rest))
  {
    hide Encoder.Valid, RefineRun, RefineDecisions;
    ghost var zz := Transformed(block, order, al);
    k := k0;
    var st := stats + 3 * k - 3;
    while Shr(Abs(block[order[k]]), al) == 0
      invariant k0 <= k <= ke && st == stats + 3 * k - 3
      invariant e.Coded(RefineRun(stats, zz, k0, se, rest), RefineRun(stats, zz, k, se, rest))
      decreases ke - k
    {
      RefineZero(stats, zz, k, ke, se, rest);
      e.ArithEncode(st + 1, 0, RefineRun(stats, zz, k + 1, se, rest));
      st := st + 3;
      k := k + 1;
    }
    RefineNonzero(stats, zz, k, se, rest);
    EncodeRefined(e, st, zz[k], block[order[k]], al, RefineDecisions(stats, zz, k, se, rest));
  }

  // The decisions at a position, given the two end-of-block indices

  lemma {:induction false} RefineAt(stats: nat, zz: seq<int>, k: nat, kex: nat, ke: nat, se: nat, rest: Decisions)
    requires k <= se < |zz| && kex <= ke <= se && Zeros(zz, ke + 1, se) && NoneOld(zz, kex + 1, se)
    requires (ke > 0 ==> zz[ke] != 0) && (kex > 0 ==> Abs(zz[kex]) > 1)
    ensures k < ke ==> !Zeros(zz, k + 1, se)
                       && RefineDecisions(stats, zz, k, se, rest)
                       == if k >= kex then Code(stats + 3 * k, 0, RefineRun(stats, zz, k + 1, se, rest))
                          else RefineRun(stats, zz, k + 1, se, rest)
    ensures k >= ke ==> RefineDecisions(stats, zz, k, se, rest) == if k < se then Code(stats + 3 * k, 1, rest) else rest
  {
    if k < ke {
      assert zz[ke] != 0;
      if k < kex {
        assert Abs(zz[kex]) > 1;
      }
    }
  }

  lemma {:induction false} RefineZero(stats: nat, zz: seq<int>, k: nat, ke: nat, se: nat, rest: Decisions)
    requires 1 <= k < ke <= se < |zz| && zz[ke] != 0 && zz[k] == 0
    ensures RefineRun(stats, zz, k, se, rest) == Code(stats + 3 * k - 2, 0, RefineRun(stats, zz, k + 1, se, rest))
  {
  }

  lemma {:induction false} RefineNonzero(stats: nat, zz: seq<int>, k: nat, se: nat, rest: Decisions)
    requires 1 <= k <= se < |zz| && zz[k] != 0
    ensures var more := RefineDecisions(stats, zz, k, se, rest);
            RefineRun(stats, zz, k, se, rest)
            == if Abs(zz[k]) > 1 then Code(stats + 3 * k - 1, Abs(zz[k]) % 2, more)
               else Code(stats + 3 * k - 2, 1, Code(FIXED_BIN, Sign(zz[k]), more))
  {
  }

  method EncodeRefined(e: Encoder, st: nat, ghost z: int, coef: int, al: nat, ghost rest: Decisions)
    requires e.Valid() && st + 2 < e.bins.Length && FIXED_BIN < e.bins.Length
    requires z == PointTransform(coef, al) != 0
    modifies e, e.bins
    ensures e.Coded(if Abs(z) > 1 then Code(st + 2, Abs(z) % 2, rest)
                    else Code(st + 1, 1, Code(FIXED_BIN, Sign(z), rest)), rest)
  {
    hide Encoder.Valid;
    ShrSmaller(Abs(coef), al);
    var v := Shr(Abs(coef), al);
    if v / 2 != 0 {
      e.ArithEncode(st + 2, v % 2, rest);  // previously nonzero coefficient
    } else {
      e.ArithEncode(st + 1, 1, Code(FIXED_BIN, Sign(z), rest));  // newly nonzero coefficient
      e.ArithEncode(FIXED_BIN, if coef >= 0 then 0 else 1, rest);
    }
  }

  /** Figure G.10: the next bit of the coefficients ss..se of a block. */
  method EncodeAcRefine(e: Encoder, stats: nat, block: Block, order: seq<nat>, ss: nat, se: nat, ah: nat, al: nat,
                        ghost rest: Decisions)
    requires e.Valid() && stats + 256 <= e.bins.Length && FIXED_BIN < e.bins.Length
    requires GoodOrder(order) && 1 <= ss <= se < |order| && ah == al + 1
    modifies e, e.bins
    ensures e.Coded(RefineDecisions(stats, Transformed(block, order, al), ss - 1, se, rest), rest)
  {
    hide Encoder.Valid, RefineRun, RefineDecisions;
    ghost var zz := Transformed(block, order, al);
    ghost var all := RefineDecisions(stats, zz, ss - 1, se, rest);
    var ke := EndOfBlock(block, order, se, al);
    var kex := PreviousEndOfBlock(block, order, ke, se, al, ah);
    var k := ss - 1;
    while k < ke
      invariant 0 <= k <= se && (k > ke ==> k == ss - 1)
      invariant e.Coded(all, RefineDecisions(stats, zz, k, se, rest))
    {
      RefineAt(stats, zz, k, kex, ke, se, rest);
      if k >= kex {
        e.ArithEncode(stats + 3 * k, 0, RefineRun(stats, zz, k + 1, se, rest));  // not the end of the block
      }
      k := EncodeRefineRun(e, stats, block, order, k + 1, ke, se, al, rest);
    }
    RefineAt(stats, zz, k, kex, ke, se, rest);
    if k < se {
      e.ArithEncode(stats + 3 * k, 1, rest);
    }
  }
}

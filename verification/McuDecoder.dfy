/** Decoding the coefficients of an MCU (jdarith.c, the decode_mcu routines). */
module McuDecoder {
  import opened ProbabilityTable
  import opened ByteStream
  import opened CodingInterval
  import opened ArithDecoder
  import opened CoefficientModel

  // Every routine accepts any input. The ghost arguments name what an encoder may have coded, the decisions that
  // follow it and the bins they leave behind: if the input stands for those, then that is what is decoded.
  // A routine that runs into an impossible code leaves ct at -1 and returns false.

  /** Of the bins, at most those from lo up to hi are changed, and the fixed bin if it is not what it should be. */
  predicate Touched(was: seq<Bin>, bins: seq<Bin>, lo: nat, hi: nat) {
    |bins| == |was| && forall i :: 0 <= i < |bins| ==> bins[i] == was[i] || lo <= i < hi || Loose(was, i)
  }

  /** The fixed bin, not at the entry of the table where it would stay. */
  predicate Loose(was: seq<Bin>, i: nat)
    requires i < |was|
  {
    i == FIXED_BIN && was[i].index != FIXED_ENTRY
  }

  lemma {:induction false} WithinMore(was: seq<Bin>, mid: seq<Bin>, bins: seq<Bin>, lo: nat, hi: nat, bin: nat)
    requires Within(was, mid, lo, hi) && Within(mid, bins, bin, bin + 1) && lo <= bin < hi
    ensures Within(was, bins, lo, hi)
  {
  }

  lemma {:induction false} TouchedMore(was: seq<Bin>, mid: seq<Bin>, bins: seq<Bin>, lo: nat, hi: nat, lo2: nat,
                                       hi2: nat)
    requires Touched(was, mid, lo, hi) && Touched(mid, bins, lo2, hi2) && lo <= lo2 && hi2 <= hi
    ensures Touched(was, bins, lo, hi)
  {
  }

  lemma {:induction false} NoneTouched(bins: seq<Bin>, lo: nat, hi: nat)
    ensures Within(bins, bins, lo, hi) && Touched(bins, bins, lo, hi)
  {
  }

  /** Figure F.23 from the second decision on; m0 is the category already reached. */
  method DecodeCategory(d: Decoder, st0: nat, m0: nat, ghost v: int, ghost rest: Decisions, ghost final: seq<Bin>)
      returns (st: nat, m: nat, ghost j: nat, ok: bool)
    requires d.Valid() && 1 <= m0 <= 2 && st0 + 15 - m0 < d.bins.Length && v >= 1
    modifies d, d.bins
    ensures d.Ahead() == old(d.Ahead()) && Within(old(d.bins[..]), d.bins[..], st0, st0 + 16 - m0)
    ensures if ok then d.Valid() else d.ct == -1
    ensures ok ==> st == st0 + j && m == Shl(m0, j) < 0x8000 && j + m0 <= 15
    ensures old(d.Tracks(Category(st0, v, rest), final)) ==>
              && (ok <==> Shl(m0, Log(v)) < 0x8000)
              && (ok ==> j == Log(v) && d.Tracks(rest, final))
  {
    hide Decoder.Ahead, Decoder.Tracks, Decoder.Valid, Decoder.R, Zoom, Enter, Within, Category, Log, Shl;
    ghost var was := d.bins[..];
    NoneTouched(was, st0, st0 + 16 - m0);
    CategoryLimits(m0, 0);
    st, m, j, ok := st0, m0, 0, true;
    ghost var on, w := d.Tracks(Category(st0, v, rest), final), v;
    Digit(st, w, rest);
    var more := d.ArithDecode(st, Category(st, w, rest), final);
    WithinMore(was, was, d.bins[..], st0, st0 + 16 - m0, st);
    while more == 1
      invariant Within(was, d.bins[..], st0, st0 + 16 - m0)
      invariant d.Valid() && d.Ahead() == old(d.Ahead())
      invariant st == st0 + j && m == Shl(m0, j) < 0x8000 && j + m0 <= 15
      invariant on ==> w >= 1 && Log(v) == j + Log(w) && more == (if w < 2 then 0 else 1)
      invariant on ==> d.Tracks(if w < 2 then rest else Category(st + 1, w / 2, rest), final)
      decreases 0x8000 - m
    {
      CategoryLimits(m0, j);
      Digit(st, w, rest);
      m := m * 2;
      if m == 0x8000 {
        ShlGrows(m0, j + 1, j + 1 + Log(w / 2));
        d.ct := -1;  // magnitude overflow
        ok := false;
        return;
      }
      st, j, w := st + 1, j + 1, w / 2;
      CategoryLimits(m0, j);
      Digit(st, w, rest);
      ghost var mid := d.bins[..];
      more := d.ArithDecode(st, Category(st, w, rest), final);
      WithinMore(was, mid, d.bins[..], st0, st0 + 16 - m0, st);
    }
    Digit(st, w, rest);
  }

  lemma {:induction false} CategoryLimits(m0: nat, j: nat)
    requires 1 <= m0 <= 2
    ensures Shl(m0, 0) == m0 && Shl(m0, j + 1) == 2 * Shl(m0, j)
    ensures Shl(m0, j) < 0x8000 ==> j + m0 <= 15 && 2 * Shl(m0, j) <= 0x8000
  {
    if Shl(m0, j) < 0x8000 {
      CategoryLimit(m0, j);
    }
  }

  /** The next digit of a category. */
  lemma {:induction false} Digit(st: nat, v: int, rest: Decisions)
    ensures Category(st, v, rest) == if v < 2 then Code(st, 0, rest) else Code(st, 1, Category(st + 1, v / 2, rest))
    ensures Log(v) == if v < 2 then 0 else 1 + Log(v / 2)
  {
  }

  /** Figure F.24: the bits below the highest one, m0. */
  method DecodePattern(d: Decoder, st: nat, m0: nat, ghost n: nat, ghost v: int, ghost rest: Decisions,
                       ghost final: seq<Bin>) returns (r: nat)
    requires d.Valid() && m0 == Shl(1, n) && st < d.bins.Length
    modifies d, d.bins
    ensures d.Ahead() == old(d.Ahead()) && Within(old(d.bins[..]), d.bins[..], st, st + 1)
    ensures d.Valid()
    ensures old(d.Tracks(Pattern(st, n, v, rest), final)) && Shr(v, n) == 1 ==> r == v && d.Tracks(rest, final)
  {
    hide Decoder.Ahead, Decoder.Tracks, Decoder.Valid, Decoder.R, Zoom, Enter;
    ghost var on := d.Tracks(Pattern(st, n, v, rest), final) && Shr(v, n) == 1;
    r := m0;
    var m := m0;
    ghost var i, q := n, 1;
    MaskedBit(0, i);
    while m / 2 != 0
      invariant 0 <= i <= n && m == Shl(1, i) && q >= 1 && r == Shl(q, i)
      invariant Within(old(d.bins[..]), d.bins[..], st, st + 1)
      invariant d.Valid() && d.Ahead() == old(d.Ahead())
      invariant on ==> q == Shr(v, i) && d.Tracks(Pattern(st, i, v, rest), final)
      decreases i
    {
      m := m / 2;
      MaskedBit(0, i - 1);
      var b: int := d.ArithDecode(st, Pattern(st, i, v, rest), final);
      NextLowerBit(q, i, b);
      if b == 1 {
        r := SetBit(r, m);  // v |= m
      }
      i, q := i - 1, 2 * q + b;
    }
    MaskedBit(0, if i > 0 then i - 1 else 0);
  }

  method DecodeDcMagnitude(d: Decoder, stats: nat, st0: nat, ghost v: nat, ghost rest: Decisions,
                           ghost final: seq<Bin>) returns (m: nat, r: nat, ok: bool)
    requires d.Valid() && stats <= st0 < stats + 20 && stats + 49 <= d.bins.Length
    modifies d, d.bins
    ensures d.Ahead() == old(d.Ahead()) && Within(old(d.bins[..]), d.bins[..], stats, stats + 49)
    ensures if ok then d.Valid() else d.ct == -1
    ensures old(d.Tracks(DcMagnitude(stats, st0, v, rest), final)) ==>
              && (ok <==> v < 0x8000)
              && (ok ==> r == v && m == (if v == 0 then 0 else Shl(1, Log(v))) && d.Tracks(rest, final))
  {
    hide Decoder.Ahead, Decoder.Tracks, Decoder.Valid, Decoder.R, Zoom, Enter;
    m, r, ok := 0, 0, true;
    var b := d.ArithDecode(st0, DcMagnitude(stats, st0, v, rest), final);
    if b != 0 {
      var st: nat;
      ghost var w, j := if v == 0 then 1 else v, 0;
      ghost var pattern := Pattern(stats + 34 + Log(w), Log(w), w, rest);
      st, m, j, ok := DecodeCategory(d, stats + 20, 1, w, pattern, final);
      LogBound(w, 15);
      PowersInUse();
      HighestBit(w);
      CategoryExact(1, Log(w));
      if ok {
        r := DecodePattern(d, st + 14, m, j, w, rest, final);
      }
    }
  }

  /** A category is below 0x8000 exactly if its exponent is. */
  lemma {:induction false} CategoryExact(m0: nat, j: nat)
    requires 1 <= m0 <= 2
    ensures Shl(m0, j) < 0x8000 <==> j + m0 <= 15
  {
    PowersInUse();
    ShlShl(1, m0 - 1, j);
    assert Shl(1, 1) == 2 * Shl(1, 0);
    if j + m0 <= 15 {
      ShlGrows(1, j + m0, 15);
      ShlOfNat(1, j + m0 - 1);
    } else {
      ShlGrows(1, 15, j + m0 - 1);
    }
  }

  /** Figures F.19 and F.21 to F.24; returns the difference and the conditioning category for the next one. */
  method DecodeDcDiff(d: Decoder, stats: nat, context: nat, low: nat, high: nat, ghost diff: int, ghost rest: Decisions,
                      ghost final: seq<Bin>) returns (r: int, next: nat, ok: bool)
    requires d.Valid() && stats + 49 <= d.bins.Length && context <= 16
    modifies d, d.bins
    ensures d.Ahead() == old(d.Ahead()) && Within(old(d.bins[..]), d.bins[..], stats, stats + 49)
    ensures if ok then d.Valid() else d.ct == -1
    ensures next <= 16
    ensures old(d.Tracks(DcDecisions(stats, context, diff, rest), final)) ==>
              && (ok <==> Abs(diff) <= 0x8000)
              && (ok ==> r == diff && next == DcContext(diff, low, high) && d.Tracks(rest, final))
  {
    hide Decoder.Ahead, Decoder.Tracks, Decoder.Valid, Decoder.R, Zoom, Enter;
    r, next, ok := 0, 0, true;
    var st := stats + context;
    var b := d.ArithDecode(st, DcDecisions(stats, context, diff, rest), final);
    if b != 0 {
      ghost var w: nat := if diff == 0 then 0 else Abs(diff) - 1;
      ghost var magnitude := DcMagnitude(stats, st + 2 + Sign(diff), w, rest);
      var sign: int := d.ArithDecode(st + 1, Code(st + 1, Sign(diff), magnitude), final);
      st := st + 2 + sign;
      var m, v: nat;
      m, v, ok := DecodeDcMagnitude(d, stats, st, w, rest, final);
      if ok {
        if m < Shl(1, low) / 2 {
          next := 0;
        } else if m > Shl(1, high) / 2 {
          next := 12 + sign * 4;
        } else {
          next := 4 + sign * 4;
        }
        r := if sign == 1 then -(v + 1) else v + 1;
      }
    }
  }

  method DecodeAcMagnitude(d: Decoder, stats: nat, kx: nat, k: nat, st0: nat, ghost v: nat, ghost rest: Decisions,
                           ghost final: seq<Bin>) returns (r: nat, ok: bool)
    requires d.Valid() && stats <= st0 < stats + 245 <= d.bins.Length
    modifies d, d.bins
    ensures d.Ahead() == old(d.Ahead()) && Within(old(d.bins[..]), d.bins[..], stats, stats + 245)
    ensures if ok then d.Valid() else d.ct == -1
    ensures old(d.Tracks(AcMagnitude(stats, kx, k, st0, v, rest), final)) ==>
              && (ok <==> v < 0x8000) && (ok ==> r == v && d.Tracks(rest, final))
  {
    hide Decoder.Ahead, Decoder.Tracks, Decoder.Valid, Decoder.R, Zoom, Enter;
    ok := true;
    r := d.ArithDecode(st0, AcMagnitude(stats, kx, k, st0, v, rest), final);
    if r != 0 {
      ghost var w, j := if v <= 1 then 2 else v, 0;
      var x := stats + if k <= kx then 189 else 217;
      ghost var pattern := Pattern(x + 14 + Log(w / 2), Log(w), w, rest);
      ghost var category := Category(x, w / 2, pattern);
      var more := d.ArithDecode(st0, if v == 1 then Code(st0, 0, rest) else Code(st0, 1, category), final);
      if more != 0 {
        var st, m: nat;
        st, m, j, ok := DecodeCategory(d, x, 2, w / 2, pattern, final);
        LogBound(w, 15);
        HighestBit(w);
        PowersInUse();
        CategoryExact(2, Log(w / 2));
        ShlDoubleOne(j);
        if ok {
          r := DecodePattern(d, st + 14, m, j + 1, w, rest, final);
        }
      }
    }
  }

  lemma {:induction false} ShlDoubleOne(j: nat)
    ensures Shl(2, j) == Shl(1, j + 1)
  {
    ShlShl(1, 1, j);
    assert Shl(1, 1) == 2 * Shl(1, 0);
  }

  /** From position k0 to the next nonzero coefficient, and its value. */
  method DecodeRun(d: Decoder, stats: nat, kx: nat, k0: nat, se: nat, ghost zz: seq<int>, ghost rest: Decisions,
                   ghost final: seq<Bin>) returns (k: nat, v: int, ok: bool)
    requires d.Valid() && stats + 245 <= FIXED_BIN < d.bins.Length && 1 <= k0 <= se < |zz| <= 64
    modifies d, d.bins
    ensures d.Ahead() == old(d.Ahead()) && Touched(old(d.bins[..]), d.bins[..], stats, stats + 245)
    ensures (if ok then d.Valid() && v != 0 else d.ct == -1) && k0 <= k <= se
    ensures !Zeros(zz, k0, se) && old(d.Tracks(AcRun(stats, kx, zz, k0, se, rest), final)) ==>
              && Zeros(zz, k0, k - 1) && zz[k] != 0 && (ok <==> Abs(zz[k]) <= 0x8000)
              && (ok ==> v == zz[k] && d.Tracks(AcDecisions(stats, kx, zz, k, se, rest), final))
  {
    hide Decoder.Ahead, Decoder.Tracks, Decoder.Valid, Decoder.R, Zoom, Enter;
    ghost var on := !Zeros(zz, k0, se) && d.Tracks(AcRun(stats, kx, zz, k0, se, rest), final);
    k, v, ok := k0, 0, true;
    var st := stats + 3 * k - 3;
    var nonzero := d.ArithDecode(st + 1, if on then AcRun(stats, kx, zz, k, se, rest) else Done, final);
    while nonzero == 0
      invariant Touched(old(d.bins[..]), d.bins[..], stats, stats + 245)
      invariant d.Valid() && d.Ahead() == old(d.Ahead()) && k0 <= k <= se && st == stats + 3 * k - 3
      invariant on ==> Zeros(zz, k0, k - 1) && !Zeros(zz, k, se) && nonzero == (if zz[k] == 0 then 0 else 1)
                       && d.Tracks(AcRun(stats, kx, zz, k, se, rest).rest, final)
      decreases se - k
    {
      st := st + 3;
      if k >= se {
        d.ct := -1;  // spectral overflow
        ok := false;
        return;
      }
      k := k + 1;
      nonzero := d.ArithDecode(st + 1, if on then AcRun(stats, kx, zz, k, se, rest) else Done, final);
    }
    v, ok := DecodeSigned(d, stats, kx, k, zz[k], if on then AcDecisions(stats, kx, zz, k, se, rest) else Done, final);
  }

  /** The sign and the magnitude of a nonzero coefficient. */
  method DecodeSigned(d: Decoder, stats: nat, kx: nat, k: nat, ghost z: int, ghost rest: Decisions,
                      ghost final: seq<Bin>) returns (v: int, ok: bool)
    requires d.Valid() && stats + 245 <= FIXED_BIN < d.bins.Length && 1 <= k < 64
    modifies d, d.bins
    ensures d.Ahead() == old(d.Ahead()) && Touched(old(d.bins[..]), d.bins[..], stats, stats + 245)
    ensures if ok then d.Valid() && v != 0 else d.ct == -1
    ensures z != 0 && old(d.Tracks(Code(FIXED_BIN, Sign(z),
                            AcMagnitude(stats, kx, k, stats + 3 * k - 1, Abs(z) - 1, rest)), final))
            ==> (ok <==> Abs(z) <= 0x8000) && (ok ==> v == z && d.Tracks(rest, final))
  {
    hide Decoder.Ahead, Decoder.Tracks, Decoder.Valid, Decoder.R, Zoom, Enter;
    ghost var u: nat := if z == 0 then 0 else Abs(z) - 1;
    ghost var magnitude := AcMagnitude(stats, kx, k, stats + 3 * k - 1, u, rest);
    var sign := d.ArithDecode(FIXED_BIN, Code(FIXED_BIN, Sign(z), magnitude), final);
    v, ok := DecodeAcMagnitude(d, stats, kx, k, stats + 3 * k - 1, u, rest, final);
    v := v + 1;
    if sign == 1 {
      v := -v;
    }
  }

  /** Figure F.20: the coefficients ss..se of the block at base, scaled by al. Whatever the input, only these are
      written. */
  method DecodeAc(d: Decoder, stats: nat, kx: nat, mem: array<int>, base: nat, order: seq<nat>, ss: nat, se: nat,
                  al: nat, ghost zz: seq<int>, ghost rest: Decisions, ghost final: seq<Bin>) returns (ok: bool)
    requires d.Valid() && stats + 245 <= FIXED_BIN < d.bins.Length
    requires GoodOrder(order) && 1 <= ss <= se < |order| == |zz| && base + 64 <= mem.Length
    modifies d, d.bins, mem
    ensures d.Ahead() == old(d.Ahead()) && Touched(old(d.bins[..]), d.bins[..], stats, stats + 245)
    ensures if ok then d.Valid() else d.ct == -1
    ensures forall i :: 0 <= i < mem.Length && !InBand(i, base, order, ss, se) ==> mem[i] == old(mem[i])
    ensures old(d.Tracks(AcDecisions(stats, kx, zz, ss - 1, se, rest), final)) ==>
              && (ok <==> forall i :: ss <= i <= se ==> Abs(zz[i]) <= 0x8000)
              && (ok ==> d.Tracks(rest, final) && forall i :: ss <= i <= se ==>
                    mem[base + order[i]] == if zz[i] == 0 then old(mem[base + order[i]]) else Jcoef(Shl(zz[i], al)))
  {
    hide Decoder.Ahead, Decoder.Tracks, Decoder.Valid, Decoder.R, Zoom, Enter;
    hide AcDecisions, AcRun, Jcoef;
    ghost var on := d.Tracks(AcDecisions(stats, kx, zz, ss - 1, se, rest), final);
    ok := true;
    var k := ss - 1;
    while k < se
      invariant Touched(old(d.bins[..]), d.bins[..], stats, stats + 245)
      invariant d.Valid() && d.Ahead() == old(d.Ahead()) && ss - 1 <= k <= se
      invariant forall i :: 0 <= i < mem.Length && !InBand(i, base, order, ss, k) ==> mem[i] == old(mem[i])
      invariant forall i :: k < i <= se ==> mem[base + order[i]] == old(mem[base + order[i]])
      invariant on ==> d.Tracks(AcDecisions(stats, kx, zz, k, se, rest), final)
      invariant on ==> forall i :: ss <= i <= k ==> Abs(zz[i]) <= 0x8000
      invariant on ==> forall i :: ss <= i <= k ==>
                  mem[base + order[i]] == if zz[i] == 0 then old(mem[base + order[i]]) else Jcoef(Shl(zz[i], al))
    {
      AcNext(stats, kx, zz, k, se, rest);
      var eob := d.ArithDecode(stats + 3 * k, AcDecisions(stats, kx, zz, k, se, rest), final);
      if eob == 1 {
        return;
      }
      var v: int;
      k, v, ok := DecodeRun(d, stats, kx, k + 1, se, zz, rest, final);
      if !ok {
        return;
      }
      mem[base + order[k]] := Jcoef(Shl(v, al));
    }
    AcEnd(stats, kx, zz, se, rest);
  }

  lemma {:induction false} AcNext(stats: nat, kx: nat, zz: seq<int>, k: nat, se: nat, rest: Decisions)
    requires k < se < |zz|
    ensures var ds := AcDecisions(stats, kx, zz, k, se, rest);
            if Zeros(zz, k + 1, se) then ds == Code(stats + 3 * k, 1, rest)
            else ds == Code(stats + 3 * k, 0, AcRun(stats, kx, zz, k + 1, se, rest))
  {
  }

  lemma {:induction false} AcEnd(stats: nat, kx: nat, zz: seq<int>, se: nat, rest: Decisions)
    requires se < |zz|
    ensures AcDecisions(stats, kx, zz, se, se, rest) == rest
  {
  }

  /** The block holds the coefficients as they were before this refinement. */
  predicate Coarse(mem: seq<int>, base: nat, order: seq<nat>, zz: seq<int>, lo: nat, hi: nat, al: nat)
    requires GoodOrder(order) && hi < |order| == |zz| && base + 64 <= |mem|
  {
    forall i :: lo <= i <= hi ==> mem[base + order[i]] == Shl(Half(zz[i]), al + 1) && IsJcoef(Shl(zz[i], al))
  }

  /** EOBx: the index of the last nonzero coefficient in the block, or 0. */
  method LastNonzero(mem: array<int>, base: nat, order: seq<nat>, se: nat) returns (kex: nat)
    requires GoodOrder(order) && se < |order| && base + 64 <= mem.Length
    ensures kex <= se && (forall i :: kex < i <= se ==> mem[base + order[i]] == 0)
    ensures kex > 0 ==> mem[base + order[kex]] != 0
  {
    kex := se;
    while kex > 0 && mem[base + order[kex]] == 0
      invariant kex <= se && forall i :: kex < i <= se ==> mem[base + order[i]] == 0
    {
      kex := kex - 1;
    }
  }

  lemma {:induction false} ZerosMore(zz: seq<int>, k0: nat, k: nat)
    requires 1 <= k0 <= k < |zz|
    ensures Zeros(zz, k0, k0 - 1)
    ensures Zeros(zz, k0, k - 1) && zz[k] == 0 ==> Zeros(zz, k0, k)
  {
  }

  lemma {:induction false} InBlock(order: seq<nat>, k: nat)
    requires GoodOrder(order) && k < |order|
    ensures order[k] < 64 && |order| <= 64
  {
  }

  /** From position k0 to the next coefficient that is nonzero after the refinement, which is updated. */
  method DecodeRefineRun(d: Decoder, stats: nat, mem: array<int>, base: nat, order: seq<nat>, k0: nat, se: nat, al: nat,
                         ghost zz: seq<int>, ghost rest: Decisions, ghost final: seq<Bin>) returns (k: nat, ok: bool)
    requires d.Valid() && stats + 245 <= FIXED_BIN < d.bins.Length
    requires GoodOrder(order) && 1 <= k0 <= se < |order| == |zz| && base + 64 <= mem.Length
    modifies d, d.bins, mem
    ensures d.Ahead() == old(d.Ahead()) && Touched(old(d.bins[..]), d.bins[..], stats, stats + 245)
    ensures (if ok then d.Valid() else d.ct == -1) && k0 <= k <= se
    ensures ok ==> mem[..] == old(mem[..])[base + order[k] := mem[base + order[k]]]
    ensures !ok ==> mem[..] == old(mem[..])
    ensures !Zeros(zz, k0, se) && old(d.Tracks(RefineRun(stats, zz, k0, se, rest), final))
            && old(Coarse(mem[..], base, order, zz, k0, se, al)) ==>
              && ok && Zeros(zz, k0, k - 1) && mem[base + order[k]] == Shl(zz[k], al)
              && d.Tracks(RefineDecisions(stats, zz, k, se, rest), final)
  {
    hide Decoder.Ahead, Decoder.Tracks, Decoder.Valid, Decoder.R, Zoom, Enter;
    hide RefineRun, RefineDecisions, Shl, Jcoef, Coarse, Touched, Zeros, GoodOrder;
    ghost var was, m0 := d.bins[..], mem[..];
    ghost var on := !Zeros(zz, k0, se) && d.Tracks(RefineRun(stats, zz, k0, se, rest), final)
                    && Coarse(m0, base, order, zz, k0, se, al);
    NoneTouched(was, stats, stats + 245);
    ZerosMore(zz, k0, k0);
    InBlock(order, k0);
    k, ok := k0, true;
    var st := stats + 3 * k - 3;
    var done := false;
    while !done
      invariant d.Valid() && d.Ahead() == old(d.Ahead()) && Touched(was, d.bins[..], stats, stats + 245)
      invariant k0 <= k <= se && st == stats + 3 * k - 3 && base + order[k] < mem.Length
      invariant mem[..] == if done then m0[base + order[k] := mem[base + order[k]]] else m0
      invariant on ==> Zeros(zz, k0, k - 1) && !Zeros(zz, k, se)
      invariant on && done ==>
                mem[base + order[k]] == Shl(zz[k], al)
                && d.Tracks(RefineDecisions(stats, zz, k, se, rest), final)
      invariant on && !done ==> d.Tracks(RefineRun(stats, zz, k, se, rest), final)
      decreases se - k, !done
    {
      if on {
        CoarseAt(m0, base, order, zz, k0, k, se, al);
        ZerosMore(zz, k0, k);
      }
      ghost var mid := d.bins[..];
      done := DecodeRefineAt(d, stats, st, mem, base + order[k], k, se, al, zz, rest, final);
      TouchedMore(was, mid, d.bins[..], stats, stats + 245, st, st + 3);
      if !done {
        st := st + 3;
        if k >= se {
          NoZerosBehind(zz, k, se);
          d.ct := -1;  // spectral overflow
          ok := false;
          return;
        }
        k := k + 1;
        InBlock(order, k);
      }
    }
  }

  lemma {:induction false} NoZerosBehind(zz: seq<int>, k: nat, se: nat)
    requires k >= se && se < |zz|
    ensures Zeros(zz, k + 1, se)
  {
  }

  /** The coefficient at position k, whether or not it ends the run. */
  method DecodeRefineAt(d: Decoder, ghost stats: nat, st: nat, mem: array<int>, p: nat, ghost k: nat, ghost se: nat,
                        al: nat, ghost zz: seq<int>, ghost rest: Decisions, ghost final: seq<Bin>) returns (done: bool)
    requires d.Valid() && st + 2 < FIXED_BIN < d.bins.Length && p < mem.Length
    requires 1 <= k <= se < |zz| && st == stats + 3 * k - 3
    modifies d, d.bins, mem
    ensures d.Ahead() == old(d.Ahead()) && Touched(old(d.bins[..]), d.bins[..], st, st + 3)
    ensures d.Valid() && mem[..] == if done then old(mem[..])[p := mem[p]] else old(mem[..])
    ensures !Zeros(zz, k, se) && old(d.Tracks(RefineRun(stats, zz, k, se, rest), final))
            && old(mem[p]) == Shl(Half(zz[k]), al + 1) && IsJcoef(Shl(zz[k], al)) ==>
              && done == (zz[k] != 0)
              && if done then mem[p] == Shl(zz[k], al) && d.Tracks(RefineDecisions(stats, zz, k, se, rest), final)
                 else !Zeros(zz, k + 1, se) && d.Tracks(RefineRun(stats, zz, k + 1, se, rest), final)
  {
    hide Decoder.Ahead, Decoder.Tracks, Decoder.Valid, Decoder.R, Zoom, Enter;
    hide RefineRun, RefineDecisions, Shl;
    ghost var all, more := Done, Done;
    if !Zeros(zz, k, se) {
      RefineRunAt(stats, zz, k, se, rest);
      all := RefineRun(stats, zz, k, se, rest);
      more := if zz[k] == 0 then Done else RefineDecisions(stats, zz, k, se, rest);
    }
    done := DecodeRefined(d, st, mem, p, al, zz[k], all, more, final);
  }

  lemma {:induction false} CoarseAt(mem: seq<int>, base: nat, order: seq<nat>, zz: seq<int>, k0: nat, k: nat, se: nat,
                                    al: nat)
    requires GoodOrder(order) && k0 <= k <= se < |order| == |zz| && base + 64 <= |mem|
    requires Coarse(mem, base, order, zz, k0, se, al)
    ensures mem[base + order[k]] == Shl(Half(zz[k]), al + 1) && IsJcoef(Shl(zz[k], al))
  {
  }

  lemma {:induction false} RefineRunAt(stats: nat, zz: seq<int>, k: nat, se: nat, rest: Decisions)
    requires 1 <= k <= se < |zz| && !Zeros(zz, k, se)
    ensures var run, st := RefineRun(stats, zz, k, se, rest), stats + 3 * k - 3;
            if zz[k] == 0 then !Zeros(zz, k + 1, se) && run == Code(st + 1, 0, RefineRun(stats, zz, k + 1, se, rest))
            else var more := RefineDecisions(stats, zz, k, se, rest);
                 run == if Abs(zz[k]) > 1 then Code(st + 2, Abs(zz[k]) % 2, more)
                        else Code(st + 1, 1, Code(FIXED_BIN, Sign(zz[k]), more))
  {
  }

  /** One coefficient of a refinement scan: a correction bit for an old one, or whether it becomes nonzero. */
  method DecodeRefined(d: Decoder, st: nat, mem: array<int>, p: nat, al: nat, ghost z: int, ghost all: Decisions,
                       ghost rest: Decisions, ghost final: seq<Bin>) returns (done: bool)
    requires d.Valid() && st + 2 < FIXED_BIN < d.bins.Length && p < mem.Length
    requires z != 0 && all != Done ==> all == if Abs(z) > 1 then Code(st + 2, Abs(z) % 2, rest)
                                              else Code(st + 1, 1, Code(FIXED_BIN, Sign(z), rest))
    requires z == 0 && all != Done ==> all.first == Decision(st + 1, 0)
    modifies d, d.bins, mem
    ensures d.Ahead() == old(d.Ahead()) && Touched(old(d.bins[..]), d.bins[..], st, st + 3)
    ensures d.Valid() && mem[..] == if done then old(mem[..])[p := mem[p]] else old(mem[..])
    ensures all != Done && old(d.Tracks(all, final)) && old(mem[p]) == Shl(Half(z), al + 1) && IsJcoef(Shl(z, al)) ==>
              && done == (z != 0)
              && (if z == 0 then d.Tracks(all.rest, final) else d.Tracks(rest, final) && mem[p] == Shl(z, al))
  {
    hide Decoder.Ahead, Decoder.Tracks, Decoder.Valid, Decoder.R, Zoom, Enter;
    hide Jcoef;
    NextBit(z, al);
    if IsJcoef(Shl(z, al)) {
      JcoefOfJcoef(Shl(z, al));
    }
    var p1 := Shl(1, al);
    if mem[p] != 0 {
      // previously nonzero coefficient
      var b := d.ArithDecode(st + 2, all, final);
      if b == 1 {
        mem[p] := Jcoef(if mem[p] < 0 then mem[p] - p1 else mem[p] + p1);
      }
      done := true;
    } else {
      var b := d.ArithDecode(st + 1, all, final);
      if b == 1 {
        // newly nonzero coefficient
        var sign := d.ArithDecode(FIXED_BIN, if all == Done then Done else all.rest, final);
        mem[p] := Jcoef(if sign == 1 then -p1 else p1);
      }
      done := b == 1;
    }
  }

  /** Only the coefficients ss..se of the block differ. */
  predicate BandOnly(was: seq<int>, mem: seq<int>, base: nat, order: seq<nat>, ss: nat, se: nat)
    requires se < |order|
  {
    |was| == |mem| && forall i :: 0 <= i < |mem| && !InBand(i, base, order, ss, se) ==> mem[i] == was[i]
  }

  lemma {:induction false} OneInBand(was: seq<int>, mid: seq<int>, base: nat, order: seq<nat>, ss: nat, k0: nat, k: nat,
                                     x: int)
    requires 1 <= ss <= k0 + 1 <= k < |order| && BandOnly(was, mid, base, order, ss, k0) && base + order[k] < |mid|
    ensures BandOnly(was, mid[base + order[k] := x], base, order, ss, k)
  {
  }

  lemma {:induction false} WiderBand(was: seq<int>, mem: seq<int>, base: nat, order: seq<nat>, ss: nat, k: nat, se: nat)
    requires k <= se < |order| && BandOnly(was, mem, base, order, ss, k)
    ensures BandOnly(was, mem, base, order, ss, se)
  {
  }

  /** Decode the end-of-block decision behind position k, where one is coded. */
  method DecodeEob(d: Decoder, stats: nat, k: nat, ghost se: nat, ghost zz: seq<int>, ghost rest: Decisions,
                   ghost final: seq<Bin>) returns (eob: bool)
    requires d.Valid() && stats + 245 <= FIXED_BIN < d.bins.Length && k < se < |zz| <= 64
    modifies d, d.bins
    ensures d.Valid() && d.Ahead() == old(d.Ahead()) && Touched(old(d.bins[..]), d.bins[..], stats, stats + 245)
    ensures old(d.Tracks(RefineDecisions(stats, zz, k, se, rest), final)) && NoneOld(zz, k + 1, se) ==>
              && eob == Zeros(zz, k + 1, se)
              && if eob then d.Tracks(rest, final) else d.Tracks(RefineRun(stats, zz, k + 1, se, rest), final)
  {
    hide Decoder.Ahead, Decoder.Tracks, Decoder.Valid, Decoder.R, Zoom, Enter, RefineDecisions, RefineRun;
    RefineNext(stats, zz, k, se, rest);
    var bit := d.ArithDecode(stats + 3 * k, RefineDecisions(stats, zz, k, se, rest), final);
    eob := bit == 1;
  }

  /** Where an end-of-block decision is coded: behind the last coefficient that was nonzero before the refinement. */
  lemma {:induction false} EobFrom(mem: seq<int>, base: nat, order: seq<nat>, zz: seq<int>, ss: nat, k: nat, se: nat,
                                   al: nat, kex: nat)
    requires GoodOrder(order) && 1 <= ss <= k + 1 <= se < |order| == |zz| && base + 64 <= |mem|
    requires Coarse(mem, base, order, zz, ss, se, al)
    requires kex <= se && (forall i :: kex < i <= se ==> mem[base + order[i]] == 0)
    requires kex > 0 ==> mem[base + order[kex]] != 0
    ensures k >= kex <==> NoneOld(zz, k + 1, se)
  {
    HalfZero(mem, base, order, zz, ss, se, al);
  }

  /** Figure G.10 read backwards: the next bit of the coefficients ss..se of the block at base. Whatever the input, only
      these are written. */
  method DecodeAcRefine(d: Decoder, stats: nat, mem: array<int>, base: nat, order: seq<nat>, ss: nat, se: nat, al: nat,
                        ghost zz: seq<int>, ghost rest: Decisions, ghost final: seq<Bin>) returns (ok: bool)
    requires d.Valid() && stats + 245 <= FIXED_BIN < d.bins.Length
    requires GoodOrder(order) && 1 <= ss <= se < |order| == |zz| && base + 64 <= mem.Length
    modifies d, d.bins, mem
    ensures d.Ahead() == old(d.Ahead()) && Touched(old(d.bins[..]), d.bins[..], stats, stats + 245)
    ensures (if ok then d.Valid() else d.ct == -1) && BandOnly(old(mem[..]), mem[..], base, order, ss, se)
    ensures old(d.Tracks(RefineDecisions(stats, zz, ss - 1, se, rest), final))
            && old(Coarse(mem[..], base, order, zz, ss, se, al)) ==>
              ok && d.Tracks(rest, final) && Fine(mem[..], base, order, zz, ss, se, al)
  {
    hide Decoder.Ahead, Decoder.Tracks, Decoder.Valid, Decoder.R, Zoom, Enter;
    hide RefineDecisions, RefineRun, Jcoef, Coarse, Fine, Shl, Touched, BandOnly, NoneOld;
    ghost var was, m0 := d.bins[..], mem[..];
    ghost var on := d.Tracks(RefineDecisions(stats, zz, ss - 1, se, rest), final)
      && Coarse(m0, base, order, zz, ss, se, al);
    NoneTouched(was, stats, stats + 245);
    FineNone(m0, base, order, zz, ss, al);
    NothingInBand(m0, base, order, ss);
    var kex := LastNonzero(mem, base, order, se);
    ok := true;
    var k := ss - 1;
    while k < se
      invariant d.Valid() && d.Ahead() == old(d.Ahead()) && Touched(was, d.bins[..], stats, stats + 245)
      invariant ss - 1 <= k <= se && BandOnly(m0, mem[..], base, order, ss, k)
      invariant on ==> d.Tracks(RefineDecisions(stats, zz, k, se, rest), final)
      invariant on ==> Fine(mem[..], base, order, zz, ss, k, al) && Coarse(mem[..], base, order, zz, k + 1, se, al)
    {
      ghost var mid := mem[..];
      WiderBand(m0, mid, base, order, ss, k, se);
      if on {
        EobFrom(m0, base, order, zz, ss, k, se, al, kex);
        RefineNext(stats, zz, k, se, rest);
      }
      if k >= kex {
        ghost var bins := d.bins[..];
        var eob := DecodeEob(d, stats, k, se, zz, rest, final);
        TouchedMore(was, bins, d.bins[..], stats, stats + 245, stats, stats + 245);
        if eob {
          if on {
            RefineStops(mid, base, order, zz, ss, k, se, al);
          }
          return;
        }
      }
      ghost var k0, bins := k, d.bins[..];
      k, ok := DecodeRefineRun(d, stats, mem, base, order, k + 1, se, al, zz, rest, final);
      TouchedMore(was, bins, d.bins[..], stats, stats + 245, stats, stats + 245);
      if !ok {
        return;
      }
      OneInBand(m0, mid, base, order, ss, k0, k, mem[base + order[k]]);
      if on {
        RefineSteps(mid, mem[..], base, order, zz, ss, k0, k, se, al);
      }
    }
    RefineNext(stats, zz, k, se, rest);
  }

  lemma {:induction false} NothingInBand(mem: seq<int>, base: nat, order: seq<nat>, ss: nat)
    requires 1 <= ss <= |order|
    ensures BandOnly(mem, mem, base, order, ss, ss - 1)
  {
  }

  /** The block holds the coefficients as they are after this refinement. */
  predicate Fine(mem: seq<int>, base: nat, order: seq<nat>, zz: seq<int>, lo: nat, hi: nat, al: nat)
    requires GoodOrder(order) && hi < |order| == |zz| && base + 64 <= |mem|
  {
    forall i :: lo <= i <= hi ==> mem[base + order[i]] == Shl(zz[i], al)
  }

  lemma {:induction false} FineNone(mem: seq<int>, base: nat, order: seq<nat>, zz: seq<int>, ss: nat, al: nat)
    requires GoodOrder(order) && 1 <= ss < |order| == |zz| && base + 64 <= |mem|
    ensures Fine(mem, base, order, zz, ss, ss - 1, al)
  {
  }

  lemma {:induction false} RefineSteps(m0: seq<int>, m: seq<int>, base: nat, order: seq<nat>, zz: seq<int>, ss: nat,
                                       k0: nat, k: nat, se: nat, al: nat)
    requires GoodOrder(order) && 1 <= ss <= k0 + 1 <= k <= se < |order| == |zz| && base + 64 <= |m0|
    requires Fine(m0, base, order, zz, ss, k0, al) && Coarse(m0, base, order, zz, k0 + 1, se, al)
    requires Zeros(zz, k0 + 1, k - 1) && m == m0[base + order[k] := Shl(zz[k], al)]
    ensures Fine(m, base, order, zz, ss, k, al) && Coarse(m, base, order, zz, k + 1, se, al)
  {
    ShlZero(al);
    ShlZero(al + 1);
  }

  lemma {:induction false} RefineStops(m: seq<int>, base: nat, order: seq<nat>, zz: seq<int>, ss: nat, k: nat, se: nat,
                                       al: nat)
    requires GoodOrder(order) && 1 <= ss <= k + 1 <= se < |order| == |zz| && base + 64 <= |m|
    requires Fine(m, base, order, zz, ss, k, al) && Coarse(m, base, order, zz, k + 1, se, al) && Zeros(zz, k + 1, se)
    ensures Fine(m, base, order, zz, ss, se, al)
  {
    ShlZero(al);
    ShlZero(al + 1);
  }

  lemma {:induction false} HalfZero(mem: seq<int>, base: nat, order: seq<nat>, zz: seq<int>, ss: nat, se: nat, al: nat)
    requires GoodOrder(order) && 1 <= ss <= se < |order| == |zz| && base + 64 <= |mem|
    requires Coarse(mem, base, order, zz, ss, se, al)
    ensures forall i :: ss <= i <= se ==> (mem[base + order[i]] == 0 <==> Abs(zz[i]) <= 1)
  {
    forall i | ss <= i <= se ensures mem[base + order[i]] == 0 <==> Abs(zz[i]) <= 1 {
      NextBit(zz[i], al);
    }
  }

  lemma {:induction false} RefineNext(stats: nat, zz: seq<int>, k: nat, se: nat, rest: Decisions)
    requires k <= se < |zz|
    ensures var ds := RefineDecisions(stats, zz, k, se, rest);
            if k == se then ds == rest
            else if Zeros(zz, k + 1, se) then ds == Code(stats + 3 * k, 1, rest) && NoneOld(zz, k + 1, se)
            else if NoneOld(zz, k + 1, se) then ds == Code(stats + 3 * k, 0, RefineRun(stats, zz, k + 1, se, rest))
            else ds == RefineRun(stats, zz, k + 1, se, rest)
  {
  }
}

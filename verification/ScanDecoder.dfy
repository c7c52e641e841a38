/** Decoding the MCUs of a scan (jdarith.c): the entropy decoder around the arithmetic decoder's registers. */
module ScanDecoder {
  import opened ProbabilityTable
  import opened ByteStream
  import opened CodingInterval
  import opened ArithDecoder
  import opened CoefficientModel
  import opened Approximation
  import opened McuDecoder
  import opened MarkerReader
  import opened ScanModel

  /** The bit position down to which the coefficients of a scan are known before it; none before the first scan. */
  function Prior(p: Scan): int {
    if p.ah == 0 then -1 else p.ah
  }

  // How a block shows its coefficients, in the decoder's terms

  lemma {:induction false} CoarseFromShows(mem: seq<int>, base: nat, order: seq<nat>, b: Block, ss: nat, se: nat,
                                           al: nat)
    requires GoodOrder(order) && 1 <= ss <= se < |order| && base + 64 <= |mem| && IsBlock(b) && al <= 14
    requires Shows(mem, base, order, b, ss, se, al + 1)
    ensures Coarse(mem, base, order, Transformed(b, order, al), ss, se, al)
  {
    var zz := Transformed(b, order, al);
    forall i | ss <= i <= se ensures mem[base + order[i]] == Shl(Half(zz[i]), al + 1) && IsJcoef(Shl(zz[i], al)) {
      HalfTransform(b[order[i]], al);
      LevelFits(b[order[i]], i, al);
    }
  }

  lemma {:induction false} ShowsFromFine(mem: seq<int>, base: nat, order: seq<nat>, b: Block, ss: nat, se: nat, al: nat)
    requires GoodOrder(order) && 1 <= ss <= se < |order| && base + 64 <= |mem|
    requires Fine(mem, base, order, Transformed(b, order, al), ss, se, al)
    ensures Shows(mem, base, order, b, ss, se, al)
  {
  }

  /** What an initial AC scan leaves in a block that was clear. */
  lemma {:induction false} ShowsFromAc(was: seq<int>, mem: seq<int>, base: nat, order: seq<nat>, b: Block, ss: nat,
                                       se: nat, al: nat)
    requires GoodOrder(order) && 1 <= ss <= se < |order| && base + 64 <= |mem| == |was| && IsBlock(b) && al <= 15
    requires Shows(was, base, order, b, ss, se, -1)
    requires var zz := Transformed(b, order, al);
             forall i :: ss <= i <= se ==>
               mem[base + order[i]] == if zz[i] == 0 then was[base + order[i]] else Jcoef(Shl(zz[i], al))
    ensures Shows(mem, base, order, b, ss, se, al)
  {
    ShlZero(al);
    forall i | ss <= i <= se ensures mem[base + order[i]] == Level(b[order[i]], i, al) {
      LevelFits(b[order[i]], i, al);
      JcoefOfJcoef(Level(b[order[i]], i, al));
    }
  }

  /** A coefficient of a 16-bit block, after the point transform, is always small enough to be decoded. */
  lemma {:induction false} TransformedSmall(b: Block, order: seq<nat>, al: nat)
    requires GoodOrder(order) && IsBlock(b)
    ensures forall i :: 0 <= i < |order| ==> Abs(Transformed(b, order, al)[i]) <= 0x8000
  {
    forall i | 0 <= i < |order| ensures Abs(Transformed(b, order, al)[i]) <= 0x8000 {
      ShrSmaller(Abs(b[order[i]]), al);
    }
  }

  lemma {:induction false} InBandFirst(base: nat, order: seq<nat>, se: nat)
    requires GoodOrder(order)
    ensures InBand(base, base, order, 0, se) && !InBand(base, base, order, 1, se)
    ensures forall i :: InBand(i, base, order, 1, se) ==> InBand(i, base, order, 0, se)
  {
    assert base == base + order[0];
  }

  /** The DC coefficient is written first, then the others. */
  lemma {:induction false} BlockShows(was: seq<int>, mid: seq<int>, mem: seq<int>, base: nat, order: seq<nat>, b: Block,
                                      se: nat)
    requires GoodOrder(order) && |order| == se + 1 && base + 64 <= |was| == |mid| == |mem|
    requires forall i :: 0 <= i < |was| && i != base ==> mid[i] == was[i]
    requires mem[base] == mid[base] == Level(b[0], 0, 0)
    requires if se == 0 then mem == mid
             else Shows(mid, base, order, b, 1, se, -1) ==> Shows(mem, base, order, b, 1, se, 0)
    ensures Shows(was, base, order, b, 0, se, -1) ==> Shows(mem, base, order, b, 0, se, 0)
  {
  }

  // The blocks of an MCU lie at different places of the coefficient memory

  predicate Places(where: seq<nat>, size: nat) {
    && (forall i :: 0 <= i < |where| ==> 64 * where[i] + 64 <= size)
    && (forall i, j :: 0 <= i < j < |where| ==> where[i] != where[j])
  }

  /** An index of the coefficient memory that a scan does not touch in the first n blocks. */
  predicate Outside(p: Scan, x: int, where: seq<nat>, n: nat)
    requires n <= |where|
  {
    forall i :: 0 <= i < n ==> !InBand(x, 64 * where[i], p.order, p.ss, p.se)
  }

  predicate Untouched(p: Scan, was: seq<int>, mem: seq<int>, where: seq<nat>, n: nat)
    requires n <= |where| && |was| == |mem|
  {
    forall x :: 0 <= x < |mem| && Outside(p, x, where, n) ==> mem[x] == was[x]
  }

  /** Before the first block of an MCU. */
  lemma {:induction false} NothingYet(p: Scan, mem: seq<int>, where: seq<nat>, bs: seq<Block>)
    requires p.Valid() && Places(where, |mem|)
    ensures Untouched(p, mem, mem, where, 0)
    ensures |where| == |bs| ==> AllAdvanced(p, mem, mem, where, bs, 0)
  {
  }

  /** After an error. */
  lemma {:induction false} RestUntouchedToo(p: Scan, was: seq<int>, mem: seq<int>, where: seq<nat>, n: nat)
    requires n <= |where| && |was| == |mem| && Untouched(p, was, mem, where, n)
    ensures Untouched(p, was, mem, where, |where|)
  {
  }

  lemma {:induction false} NothingTouched(p: Scan, mem: seq<int>, where: seq<nat>)
    ensures Untouched(p, mem, mem, where, |where|)
  {
  }

  /** A block that showed its coefficients down to the prior bit position now shows them down to that of the scan. */
  predicate Advanced(p: Scan, was: seq<int>, mem: seq<int>, base: nat, b: Block)
    requires p.Valid() && base + 64 <= |was| == |mem|
  {
    Shows(was, base, p.order, b, p.ss, p.se, Prior(p)) ==> Shows(mem, base, p.order, b, p.ss, p.se, p.al)
  }

  predicate AllAdvanced(p: Scan, was: seq<int>, mem: seq<int>, where: seq<nat>, bs: seq<Block>, n: nat)
    requires p.Valid() && |was| == |mem| && Places(where, |mem|) && n <= |where| == |bs|
  {
    forall i :: 0 <= i < n ==> Advanced(p, was, mem, 64 * where[i], bs[i])
  }

  /** What the refinement of AC coefficients relies on: the coefficients are there, except for their lowest bits. */
  predicate AllShown(p: Scan, mem: seq<int>, where: seq<nat>, bs: seq<Block>)
    requires p.Valid() && Places(where, |mem|) && |where| == |bs|
  {
    forall i :: 0 <= i < |where| ==> Shows(mem, 64 * where[i], p.order, bs[i], p.ss, p.se, Prior(p))
  }

  lemma {:induction false} OtherBlocks(p: Scan, x: int, where: seq<nat>, n: nat, i: nat, size: nat)
    requires p.Valid() && Places(where, size) && n <= i < |where| && 64 * where[i] <= x < 64 * where[i] + 64
    ensures Outside(p, x, where, n)
  {
    forall q | 0 <= q < n ensures !InBand(x, 64 * where[q], p.order, p.ss, p.se) {
      assert where[q] != where[i];
    }
  }

  /** The block to be decoded next is as it was before the MCU. */
  lemma {:induction false} NextBlockUntouched(p: Scan, was: seq<int>, mid: seq<int>, where: seq<nat>, bs: seq<Block>,
                                              n: nat)
    requires p.Valid() && |was| == |mid| && Places(where, |mid|) && n < |where|
    requires Untouched(p, was, mid, where, n)
    ensures forall x :: 64 * where[n] <= x < 64 * where[n] + 64 ==> mid[x] == was[x]
    ensures |bs| == |where| && AllShown(p, was, where, bs)
            ==> Shows(mid, 64 * where[n], p.order, bs[n], p.ss, p.se, Prior(p))
  {
    forall x | 64 * where[n] <= x < 64 * where[n] + 64 ensures mid[x] == was[x] {
      OtherBlocks(p, x, where, n, n, |mid|);
    }
    if |bs| == |where| && AllShown(p, was, where, bs) {
      assert Shows(was, 64 * where[n], p.order, bs[n], p.ss, p.se, Prior(p));
    }
  }

  /** One more block has been decoded. */
  lemma {:induction false} OneMoreBlock(p: Scan, was: seq<int>, mid: seq<int>, mem: seq<int>, where: seq<nat>, n: nat)
    requires p.Valid() && |was| == |mid| == |mem| && Places(where, |mem|) && n < |where|
    requires Untouched(p, was, mid, where, n)
    requires forall x :: 0 <= x < |mem| && !InBand(x, 64 * where[n], p.order, p.ss, p.se) ==> mem[x] == mid[x]
    ensures Untouched(p, was, mem, where, n + 1)
    ensures forall i, x :: 0 <= i < n && 64 * where[i] <= x < 64 * where[i] + 64 ==> mem[x] == mid[x]
  {
    forall i, x | 0 <= i < n && 64 * where[i] <= x < 64 * where[i] + 64 ensures mem[x] == mid[x] {
      assert where[i] != where[n];
    }
  }

  lemma {:induction false} OneMoreAdvanced(p: Scan, was: seq<int>, mid: seq<int>, mem: seq<int>, where: seq<nat>,
                                           bs: seq<Block>, n: nat)
    requires p.Valid() && |was| == |mid| == |mem| && Places(where, |mem|) && n < |where| == |bs|
    requires AllAdvanced(p, was, mid, where, bs, n) && Advanced(p, mid, mem, 64 * where[n], bs[n])
    requires forall x :: 64 * where[n] <= x < 64 * where[n] + 64 ==> mid[x] == was[x]
    requires forall i, x :: 0 <= i < n && 64 * where[i] <= x < 64 * where[i] + 64 ==> mem[x] == mid[x]
    ensures AllAdvanced(p, was, mem, where, bs, n + 1)
  {
    forall i | 0 <= i < n + 1 ensures Advanced(p, was, mem, 64 * where[i], bs[i]) {
      if i < n {
        assert Advanced(p, was, mid, 64 * where[i], bs[i]);
      }
    }
  }

  // The statistics bins that decoding uses, whatever the input

  /** A bin of an area of the scan: 49 bins for DC differences, 245 for AC coefficients. */
  predicate CodedBin(p: Scan, i: int) {
    exists k :: 0 <= k < |p.comps| && InComponent(p, p.comps[k], i)
  }

  predicate InComponent(p: Scan, c: Component, i: int) {
    || (p.CodesDc() && DcStats(c.dcTbl) <= i < DcStats(c.dcTbl) + 49)
    || (p.se != 0 && AcStats(c.acTbl) <= i < AcStats(c.acTbl) + 245)
  }

  /** At most the bins that the scan is to use are changed, and the fixed bin if it is not what it should be. */
  predicate Used(p: Scan, was: seq<Bin>, bins: seq<Bin>) {
    |bins| == |was| && forall i :: 0 <= i < |bins| ==> bins[i] == was[i] || CodedBin(p, i) || Loose(was, i)
  }

  lemma {:induction false} NoneUsed(p: Scan, bins: seq<Bin>)
    ensures Used(p, bins, bins)
  {
  }

  lemma {:induction false} UsedMore(p: Scan, was: seq<Bin>, mid: seq<Bin>, bins: seq<Bin>)
    requires Used(p, was, mid) && Used(p, mid, bins)
    ensures Used(p, was, bins)
  {
    hide CodedBin;
  }

  lemma {:induction false} UsesDc(p: Scan, ci: nat, was: seq<Bin>, bins: seq<Bin>)
    requires p.CodesDc() && ci < |p.comps|
    requires Within(was, bins, DcStats(p.comps[ci].dcTbl), DcStats(p.comps[ci].dcTbl) + 49)
    ensures Used(p, was, bins)
  {
    forall i | 0 <= i < |bins| && DcStats(p.comps[ci].dcTbl) <= i < DcStats(p.comps[ci].dcTbl) + 49
      ensures CodedBin(p, i)
    {
      assert InComponent(p, p.comps[ci], i);
    }
  }

  lemma {:induction false} UsesAc(p: Scan, ci: nat, was: seq<Bin>, bins: seq<Bin>)
    requires p.se != 0 && ci < |p.comps|
    requires Touched(was, bins, AcStats(p.comps[ci].acTbl), AcStats(p.comps[ci].acTbl) + 245)
    ensures Used(p, was, bins)
  {
    forall i | 0 <= i < |bins| && AcStats(p.comps[ci].acTbl) <= i < AcStats(p.comps[ci].acTbl) + 245
      ensures CodedBin(p, i)
    {
      assert InComponent(p, p.comps[ci], i);
    }
  }

  /** What a restart resets: whole areas, of which the bins that are used are a part. */
  predicate InArea(p: Scan, n: nat, i: int)
    requires n <= |p.comps|
  {
    exists k :: 0 <= k < n && ComponentArea(p, p.comps[k], i)
  }

  predicate ComponentArea(p: Scan, c: Component, i: int) {
    || (p.CodesDc() && DcStats(c.dcTbl) <= i < DcStats(c.dcTbl) + DC_STAT_BINS)
    || (p.se != 0 && AcStats(c.acTbl) <= i < AcStats(c.acTbl) + AC_STAT_BINS)
  }

  lemma {:induction false} ResetAt(p: Scan, bins: seq<Bin>, n: nat, i: nat)
    requires p.Valid() && n <= |p.comps| && i < |bins|
    ensures ResetBins(p, bins, n)[i] == if InArea(p, n, i) then Bin(0, 0) else bins[i]
  {
    hide Scan.Valid;
    if n > 0 {
      ResetAt(p, bins, n - 1, i);
      assert InArea(p, n, i) <==> InArea(p, n - 1, i) || ComponentArea(p, p.comps[n - 1], i) by {
        if InArea(p, n, i) {
          var k :| 0 <= k < n && ComponentArea(p, p.comps[k], i);
          assert k < n - 1 || k == n - 1;
        }
      }
    }
  }

  /** A restart in the middle of a scan is as the reset at its start. */
  lemma {:induction false} ResetAgain(p: Scan, was: seq<Bin>, mid: seq<Bin>)
    requires p.Valid() && Used(p, ResetBins(p, was, |p.comps|), mid)
    ensures Used(p, ResetBins(p, was, |p.comps|), ResetBins(p, mid, |p.comps|))
  {
    var n, r, bins := |p.comps|, ResetBins(p, was, |p.comps|), ResetBins(p, mid, |p.comps|);
    hide InArea, CodedBin, ResetBins, Scan.Valid;
    forall i | 0 <= i < |bins|
      ensures bins[i] == r[i] || CodedBin(p, i) || Loose(r, i)
    {
      ResetAt(p, was, n, i);
      ResetAt(p, mid, n, i);
    }
  }

  class EntropyDecoder {
    const d: Decoder
    var p: Scan                // the parameters of the current scan
    var last: seq<int>         // last DC coefficient for each component
    var context: seq<nat>      // context index for DC conditioning
    var restartsToGo: nat      // MCUs left in this restart interval
    var nextRestartNum: nat    // next restart number expected

    /** jinit_arith_decoder */
    constructor (t: AriTable, input: seq<byte>)
      ensures fresh(d) && fresh(d.bins) && d.t == t && d.bins.Length == NUM_BINS && d.input == input
              && d.unreadMarker == 0
      ensures d.bins[FIXED_BIN] == Bin(0, FIXED_ENTRY)
    {
      d := new Decoder(t, NUM_BINS, input);
      new;
      d.bins[FIXED_BIN] := Bin(0, FIXED_ENTRY);
    }

    function Pr(): Prediction
      reads `p, `last, `context
    {
      if p.CodesDc() then Prediction(last, context) else NoPrediction(|p.comps|)
    }

    /** Whatever the input was. */
    predicate Ready()
      reads `p, `last, `context
    {
      && p.Valid() && |Pr().last| == |Pr().context| == |p.comps|
      && forall i :: 0 <= i < |p.comps| ==> Pr().context[i] <= 16
    }

    /** Decode the DC difference of a block of component ci and write the coefficient. */
    method DecodeDc(mem: array<int>, base: nat, ci: nat, ghost b: Block, ghost rest: Decisions, ghost final: seq<Bin>)
        returns (ok: bool)
      requires Ready() && p.CodesDc() && d.Valid() && d.bins.Length == NUM_BINS && ci < |p.comps| && base < mem.Length
      modifies `last, `context, d, d.bins, mem
      ensures (if ok then d.Valid() else d.ct == -1) && Ready() && d.Ahead() == old(d.Ahead())
      ensures Within(old(d.bins[..]), d.bins[..], DcStats(p.comps[ci].dcTbl), DcStats(p.comps[ci].dcTbl) + 49)
      ensures forall i :: 0 <= i < mem.Length && i != base ==> mem[i] == old(mem[i])
      ensures old(Pr().Fits(p)) && IsBlock(b)
              && old(d.Tracks(DcDecisions(DcStats(p.comps[ci].dcTbl), context[ci], DcDiff(p, Pr(), ci, b), rest),
                final)) ==>
                && (ok <==> Abs(DcDiff(p, old(Pr()), ci, b)) <= 0x8000)
                && (ok ==> Pr() == NextPrediction(p, old(Pr()), ci, b) && mem[base] == Level(b[0], 0, p.al)
                           && d.Tracks(rest, final))
    {
      hide Within, Touched, Decoder.Ahead, Decoder.Tracks, Decoder.Valid, DcDecisions;
      var tbl := p.comps[ci].dcTbl;
      var v: int, next: nat;
      v, next, ok := DecodeDcDiff(d, DcStats(tbl), context[ci], p.dcL[tbl], p.dcU[tbl], DcDiff(p, Pr(), ci, b), rest,
        final);
      if !ok {
        return;
      }
      context := context[ci := next];
      last := last[ci := last[ci] + v];
      mem[base] := Jcoef(Shl(last[ci], p.al));
      if IsBlock(b) {
        LevelFits(b[0], 0, p.al);
        JcoefOfJcoef(Level(b[0], 0, p.al));
      }
    }

    /** An initial scan of the AC coefficients ss..se. */
    method DecodeAcFirst(mem: array<int>, base: nat, ci: nat, ss: nat, se: nat, al: nat, ghost b: Block,
                         ghost rest: Decisions, ghost final: seq<Bin>) returns (ok: bool)
      requires Ready() && d.Valid() && d.bins.Length == NUM_BINS && ci < |p.comps| && base + 64 <= mem.Length
      requires 1 <= ss <= se < |p.order| && al <= 13
      modifies d, d.bins, mem
      ensures (if ok then d.Valid() else d.ct == -1) && d.Ahead() == old(d.Ahead())
      ensures Touched(old(d.bins[..]), d.bins[..], AcStats(p.comps[ci].acTbl), AcStats(p.comps[ci].acTbl) + 245)
      ensures forall i :: 0 <= i < mem.Length && !InBand(i, base, p.order, ss, se) ==> mem[i] == old(mem[i])
      ensures var c := p.comps[ci];
              IsBlock(b) && old(d.Tracks(AcDecisions(AcStats(c.acTbl), p.acK[c.acTbl], Transformed(b, p.order, al),
                                                     ss - 1, se, rest), final)) ==>
                && ok && d.Tracks(rest, final)
                && (old(Shows(mem[..], base, p.order, b, ss, se, -1)) ==> Shows(mem[..], base, p.order, b, ss, se, al))
    {
      hide Within, Touched, Decoder.Ahead, Decoder.Tracks, Decoder.Valid, AcDecisions, Shows, IsBlock;
      var tbl := p.comps[ci].acTbl;
      ghost var zz := Transformed(b, p.order, al);
      if IsBlock(b) {
        TransformedSmall(b, p.order, al);
      }
      ok := DecodeAc(d, AcStats(tbl), p.acK[tbl], mem, base, p.order, ss, se, al, zz, rest, final);
      if IsBlock(b) && old(d.Tracks(AcDecisions(AcStats(tbl), p.acK[tbl], zz, ss - 1, se, rest), final))
         && old(Shows(mem[..], base, p.order, b, ss, se, -1)) {
        ShowsFromAc(old(mem[..]), mem[..], base, p.order, b, ss, se, al);
      }
    }

    /** A refinement scan of the AC coefficients. */
    method RefineAc(mem: array<int>, base: nat, ci: nat, ghost b: Block, ghost rest: Decisions,
                        ghost final: seq<Bin>) returns (ok: bool)
      requires Ready() && d.Valid() && d.bins.Length == NUM_BINS && ci < |p.comps| && base + 64 <= mem.Length
      requires p.progressive && p.ss > 0 && p.ah > 0
      modifies d, d.bins, mem
      ensures (if ok then d.Valid() else d.ct == -1) && d.Ahead() == old(d.Ahead())
      ensures Touched(old(d.bins[..]), d.bins[..], AcStats(p.comps[ci].acTbl), AcStats(p.comps[ci].acTbl) + 245)
      ensures forall i :: 0 <= i < mem.Length && !InBand(i, base, p.order, p.ss, p.se) ==> mem[i] == old(mem[i])
      ensures IsBlock(b) && old(Shows(mem[..], base, p.order, b, p.ss, p.se, p.ah))
              && old(d.Tracks(RefineDecisions(AcStats(p.comps[ci].acTbl), Transformed(b, p.order, p.al), p.ss - 1, p.se,
                                              rest), final)) ==>
                ok && d.Tracks(rest, final) && Shows(mem[..], base, p.order, b, p.ss, p.se, p.al)
    {
      hide Within, Touched, Decoder.Ahead, Decoder.Tracks, Decoder.Valid, RefineDecisions, Shows, IsBlock, Coarse, Fine;
      ghost var zz := Transformed(b, p.order, p.al);
      if IsBlock(b) && Shows(mem[..], base, p.order, b, p.ss, p.se, p.ah) {
        CoarseFromShows(mem[..], base, p.order, b, p.ss, p.se, p.al);
      }
      ok := DecodeAcRefine(d, AcStats(p.comps[ci].acTbl), mem, base, p.order, p.ss, p.se, p.al, zz, rest, final);
      if Fine(mem[..], base, p.order, zz, p.ss, p.se, p.al) {
        ShowsFromFine(mem[..], base, p.order, b, p.ss, p.se, p.al);
      }
    }

    /** The next bit of a DC coefficient, in two's complement. */
    method RefineDc(mem: array<int>, base: nat, ghost b: Block, ghost rest: Decisions, ghost final: seq<Bin>)
      requires Ready() && d.Valid() && d.bins.Length == NUM_BINS && base < mem.Length
      modifies d, d.bins, mem
      ensures d.Valid() && d.Ahead() == old(d.Ahead()) && Used(p, old(d.bins[..]), d.bins[..])
      ensures forall i :: 0 <= i < mem.Length && i != base ==> mem[i] == old(mem[i])
      ensures old(d.Tracks(Code(FIXED_BIN, Dc(p, b) % 2, rest), final)) ==>
                && d.Tracks(rest, final)
                && (old(mem[base]) == Level(b[0], 0, p.al + 1) ==> mem[base] == Level(b[0], 0, p.al))
    {
      hide Decoder.Ahead, Decoder.Tracks, Decoder.Valid;
      var bit := d.ArithDecode(FIXED_BIN, Code(FIXED_BIN, Dc(p, b) % 2, rest), final);
      if bit == 1 {
        mem[base] := OrBit(mem[base], p.al);
      }
      NextDcBit(b[0], p.al);
    }

    /** A block of a sequential scan: the DC coefficient, then the others. */
    method DecodeSequential(mem: array<int>, base: nat, ci: nat, ghost b: Block, ghost rest: Decisions,
                            ghost final: seq<Bin>) returns (ok: bool)
      requires Ready() && d.Valid() && d.bins.Length == NUM_BINS && ci < |p.comps| && base + 64 <= mem.Length
      requires !p.progressive
      modifies `last, `context, d, d.bins, mem
      ensures (if ok then d.Valid() else d.ct == -1) && Ready() && d.Ahead() == old(d.Ahead())
      ensures Used(p, old(d.bins[..]), d.bins[..])
      ensures forall i :: 0 <= i < mem.Length && !InBand(i, base, p.order, 0, p.limSe) ==> mem[i] == old(mem[i])
      ensures IsBlock(b) && old(Pr().Fits(p)) && old(d.Tracks(BlockDecisions(p, Pr(), ci, b, rest), final)) ==>
                && (ok <==> Abs(DcDiff(p, old(Pr()), ci, b)) <= 0x8000)
                && (ok ==> Pr() == NextPrediction(p, old(Pr()), ci, b) && d.Tracks(rest, final)
                           && (old(Shows(mem[..], base, p.order, b, 0, p.limSe, -1))
                               ==> Shows(mem[..], base, p.order, b, 0, p.limSe, 0)))
    {
      hide Within, Touched, Used, Decoder.Ahead, Decoder.Tracks, Decoder.Valid, DcDecisions, AcDecisions, Shows,
           IsBlock, NextPrediction;
      var c := p.comps[ci];
      ghost var ac := if p.limSe == 0 then rest
                      else AcDecisions(AcStats(c.acTbl), p.acK[c.acTbl], Transformed(b, p.order, 0), 0, p.limSe, rest);
      ok := DecodeDc(mem, base, ci, b, ac, final);
      UsesDc(p, ci, old(d.bins[..]), d.bins[..]);
      ghost var mid := d.bins[..];
      NoneUsed(p, mid);
      InBandFirst(base, p.order, p.limSe);
      ghost var m := mem[..];
      if ok && p.limSe != 0 {
        ok := DecodeAcFirst(mem, base, ci, 1, p.limSe, 0, b, rest, final);
        UsesAc(p, ci, mid, d.bins[..]);
      }
      UsedMore(p, old(d.bins[..]), mid, d.bins[..]);
      if ok && m[base] == Level(b[0], 0, 0)
         && (p.limSe != 0 && Shows(m, base, p.order, b, 1, p.limSe, -1)
           ==> Shows(mem[..], base, p.order, b, 1, p.limSe, 0)) {
        BlockShows(old(mem[..]), m, mem[..], base, p.order, b, p.limSe);
      }
    }

    /** Decode one block of component ci, as the routine does that is selected for the kind of scan. */
    method DecodeBlock(mem: array<int>, base: nat, ci: nat, ghost b: Block, ghost rest: Decisions,
                       ghost final: seq<Bin>)
        returns (ok: bool)
      requires Ready() && d.Valid() && d.bins.Length == NUM_BINS && ci < |p.comps| && base + 64 <= mem.Length
      modifies `last, `context, d, d.bins, mem
      ensures (if ok then d.Valid() else d.ct == -1) && Ready() && d.Ahead() == old(d.Ahead())
      ensures Used(p, old(d.bins[..]), d.bins[..])
      ensures p.RefinesDc() ==> ok
      ensures forall i :: 0 <= i < mem.Length && !InBand(i, base, p.order, p.ss, p.se) ==> mem[i] == old(mem[i])
      ensures IsBlock(b) && old(Pr().Fits(p)) && old(d.Tracks(BlockDecisions(p, Pr(), ci, b, rest), final))
              && (p.RefinesAc() ==> old(Shows(mem[..], base, p.order, b, p.ss, p.se, p.ah))) ==>
                && (ok <==> (p.CodesDc() ==> Abs(DcDiff(p, old(Pr()), ci, b)) <= 0x8000))
                && (ok ==> Pr() == NextPrediction(p, old(Pr()), ci, b) && d.Tracks(rest, final)
                           && (old(Shows(mem[..], base, p.order, b, p.ss, p.se, Prior(p)))
                               ==> Shows(mem[..], base, p.order, b, p.ss, p.se, p.al)))
    {
      hide Within, Touched, Used, Decoder.Ahead, Decoder.Tracks, Decoder.Valid, DcDecisions, AcDecisions,
           RefineDecisions, IsBlock;
      if !p.progressive {
        ok := DecodeSequential(mem, base, ci, b, rest, final);
      } else if p.ss == 0 {
        InBandFirst(base, p.order, 0);
        if p.ah == 0 {
          ok := DecodeDc(mem, base, ci, b, rest, final);
          UsesDc(p, ci, old(d.bins[..]), d.bins[..]);
        } else {
          RefineDc(mem, base, b, rest, final);
          ok := true;
        }
      } else if p.ah == 0 {
        ok := DecodeAcFirst(mem, base, ci, p.ss, p.se, p.al, b, rest, final);
        UsesAc(p, ci, old(d.bins[..]), d.bins[..]);
      } else {
        ok := RefineAc(mem, base, ci, b, rest, final);
        UsesAc(p, ci, old(d.bins[..]), d.bins[..]);
      }
    }

    /** One block of an MCU. */
    method DecodeNext(mem: array<int>, where: seq<nat>, i: nat, ghost m: Mcu, ghost on: bool, ghost rest: Decisions,
                      ghost final: seq<Bin>, ghost was: seq<int>, ghost before: seq<Bin>) returns (ok: bool)
      requires Ready() && d.Valid() && d.bins.Length == NUM_BINS && i < |where| == |p.membership|
      requires Places(where, mem.Length) && |was| == mem.Length && Untouched(p, was, mem[..], where, i)
      requires Used(p, before, d.bins[..])
      requires on ==>
                 && |m| == |where| && AreBlocks(m) && Pr().Fits(p)
                 && d.Tracks(McuDecisions(p, Pr(), m, i, rest), final)
                 && (p.RefinesAc() ==> AllShown(p, was, where, m)) && AllAdvanced(p, was, mem[..], where, m, i)
      modifies `last, `context, d, d.bins, mem
      ensures (if ok then d.Valid() else d.ct == -1) && Ready() && d.Ahead() == old(d.Ahead())
      ensures Used(p, before, d.bins[..]) && Untouched(p, was, mem[..], where, i + 1)
      ensures p.RefinesDc() ==> ok
      ensures on && !ok ==> !McuDecodable(p, old(Pr()), m, i)
      ensures on && ok ==>
                && Pr().Fits(p) && d.Tracks(McuDecisions(p, Pr(), m, i + 1, rest), final)
                && (McuDecodable(p, Pr(), m, i + 1) <==> McuDecodable(p, old(Pr()), m, i))
                && McuPrediction(p, Pr(), m, i + 1) == McuPrediction(p, old(Pr()), m, i)
                && AllAdvanced(p, was, mem[..], where, m, i + 1)
    {
      hide Used, Decoder.Ahead, Decoder.Tracks, Decoder.Valid, BlockDecisions, IsBlock, Shows, NextPrediction,
           GoodOrder, Untouched, AllAdvanced, AllShown;
      ghost var mid, bins := mem[..], d.bins[..];
      NextBlockUntouched(p, was, mid, where, m, i);
      ghost var b: Block := if on then m[i] else seq(64, x => 0);
      ghost var next := if on then McuDecisions(p, NextPrediction(p, Pr(), p.membership[i], b), m, i + 1, rest)
        else Done;
      ok := DecodeBlock(mem, 64 * where[i], p.membership[i], b, next, final);
      UsedMore(p, before, bins, d.bins[..]);
      OneMoreBlock(p, was, mid, mem[..], where, i);
      if on && ok {
        OneMoreAdvanced(p, was, mid, mem[..], where, m, i);
      }
    }

    /** The blocks of an MCU. */
    method DecodeBlocks(mem: array<int>, where: seq<nat>, ghost m: Mcu, ghost rest: Decisions, ghost final: seq<Bin>)
        returns (ok: bool)
      requires Ready() && d.Valid() && d.bins.Length == NUM_BINS && |where| == |p.membership|
               && Places(where, mem.Length)
      modifies `last, `context, d, d.bins, mem
      ensures (if ok then d.Valid() else d.ct == -1) && Ready() && d.Ahead() == old(d.Ahead())
      ensures Used(p, old(d.bins[..]), d.bins[..])
      ensures p.RefinesDc() ==> ok
      ensures Untouched(p, old(mem[..]), mem[..], where, |where|)
      ensures |m| == |where| && AreBlocks(m) && old(Pr().Fits(p))
              && old(d.Tracks(McuDecisions(p, Pr(), m, 0, rest), final))
              && (p.RefinesAc() ==> old(AllShown(p, mem[..], where, m))) ==>
                && (ok <==> McuDecodable(p, old(Pr()), m, 0))
                && (ok ==> Pr() == McuPrediction(p, old(Pr()), m, 0) && d.Tracks(rest, final)
                           && AllAdvanced(p, old(mem[..]), mem[..], where, m, |where|))
    {
      hide Used, Decoder.Ahead, Decoder.Tracks, Decoder.Valid, BlockDecisions, IsBlock, Shows, NextPrediction,
           GoodOrder, Untouched, AllAdvanced, AllShown;
      ghost var on := |m| == |where| && AreBlocks(m) && Pr().Fits(p)
        && d.Tracks(McuDecisions(p, Pr(), m, 0, rest), final)
                      && (p.RefinesAc() ==> AllShown(p, mem[..], where, m));
      NoneUsed(p, d.bins[..]);
      NothingYet(p, mem[..], where, m);
      ok := true;
      for i := 0 to |where|
        invariant d.Valid() && Ready() && d.Ahead() == old(d.Ahead()) && ok
        invariant Used(p, old(d.bins[..]), d.bins[..])
        invariant Untouched(p, old(mem[..]), mem[..], where, i)
        invariant on ==> Pr().Fits(p) && d.Tracks(McuDecisions(p, Pr(), m, i, rest), final)
        invariant on ==> (McuDecodable(p, Pr(), m, i) <==> McuDecodable(p, old(Pr()), m, 0))
        invariant on ==> McuPrediction(p, Pr(), m, i) == McuPrediction(p, old(Pr()), m, 0)
        invariant on ==> AllAdvanced(p, old(mem[..]), mem[..], where, m, i)
      {
        ok := DecodeNext(mem, where, i, m, on, rest, final, old(mem[..]), old(d.bins[..]));
        if !ok {
          RestUntouchedToo(p, old(mem[..]), mem[..], where, i + 1);
          return;
        }
      }
    }

    predicate Valid()
      reads this, d, d.bins
    {
      && Ready() && d.bins.Length == NUM_BINS && nextRestartNum < 8
      && if d.ct == -1 then !p.RefinesDc() else d.Valid()
    }

    /** The input stands for the MCUs from j on of the g-th segment, followed by the other segments. */
    ghost predicate OnTrack(plan: seq<Mcu>, segs: seq<Segment>, g: nat, j: nat, tail: Upcoming)
      reads `p, `last, `context, `nextRestartNum, d, d.bins
    {
      && Ready() && d.bins.Length == NUM_BINS && Pr().Fits(p) && AreMcus(p, plan) && Linked(d.t, p, plan, segs)
      && g < |segs| && segs[g].from <= j <= segs[g].to <= |plan|
      && d.Tracks(RunDecisions(p, Pr(), plan, j, segs[g].to), FinalBins(d.t, p, plan, segs[g]))
      && d.Ahead() == BehindSegment(segs, g, tail) && tail.marker != 0 && tail.marker != 0xFF
      && (p.restartInterval > 0 ==> nextRestartNum == g % 8)
    }

    lemma {:induction false} SegmentOpens(plan: seq<Mcu>, segs: seq<Segment>, g: nat, tail: Upcoming)
      requires Ready() && d.bins.Length == NUM_BINS && AreMcus(p, plan) && Linked(d.t, p, plan, segs) && g < |segs|
      requires Pr() == NoPrediction(|p.comps|) && tail.marker != 0 && tail.marker != 0xFF
      requires d.c == 0 && d.a == 0 && d.ct == -16 && d.unreadMarker == 0 && d.bins[..] == segs[g].before
      requires d.input == BytesFrom(segs, g) + [0xFF, tail.marker] + tail.rest
      requires p.restartInterval > 0 ==> nextRestartNum == g % 8
      ensures OnTrack(plan, segs, g, segs[g].from, tail)
    {
      var s := segs[g];
      SegmentInput(segs, g, tail);
      NoPredictionFits(p);
      SegmentDecodes(d.t, s.before, SegmentDecisions(p, plan, s.from, s.to), s.data);
      assert d.R().Seen() == Opening(s.data, s.before);
    }

    /** MEMZERO of a statistics area. */
    method Clear(lo: nat, n: nat)
      requires lo + n <= d.bins.Length
      modifies d.bins
      ensures d.bins[..] == Zeroed(old(d.bins[..]), lo, n)
    {
      for i := 0 to n
        invariant d.bins[..] == Zeroed(old(d.bins[..]), lo, i)
      {
        d.bins[lo + i] := Bin(0, 0);
      }
    }

    /** Reset the statistics, the predictions and the decoding variables for a new segment. */
    method ResetCoder()
      requires p.Valid() && d.bins.Length == NUM_BINS
      requires p.CodesDc() ==> |last| == |context| == |p.comps|
      modifies `last, `context, `restartsToGo, d`c, d`a, d`ct, d.bins
      ensures d.bins[..] == ResetBins(p, old(d.bins[..]), |p.comps|)
      ensures Pr() == NoPrediction(|p.comps|) && Ready()
      ensures d.c == 0 && d.a == 0 && d.ct == -16 && restartsToGo == p.restartInterval
    {
      for ci := 0 to |p.comps|
        invariant d.bins[..] == ResetBins(p, old(d.bins[..]), ci)
        invariant p.CodesDc() ==> |last| == |context| == |p.comps|
        invariant p.CodesDc() ==> forall i :: 0 <= i < ci ==> last[i] == context[i] == 0
      {
        if !p.progressive || (p.ss == 0 && p.ah == 0) {
          Clear(DcStats(p.comps[ci].dcTbl), DC_STAT_BINS);
          last := last[ci := 0];
          context := context[ci := 0];
        }
        if (!p.progressive && p.limSe != 0) || (p.progressive && p.ss != 0) {
          Clear(AcStats(p.comps[ci].acTbl), AC_STAT_BINS);
        }
      }
      d.c, d.a, d.ct := 0, 0, -16;  // force reading 2 initial bytes to fill C
      restartsToGo := p.restartInterval;
    }

    /** What holds at the end of a segment that is not the last one. */
    ghost predicate AtRestart(plan: seq<Mcu>, segs: seq<Segment>, g: nat, tail: Upcoming)
      reads this, d, d.bins
    {
      && p.Valid() && d.bins.Length == NUM_BINS && AreMcus(p, plan) && Linked(d.t, p, plan, segs) && g + 1 < |segs|
      && segs[g + 1].from == segs[g].to && segs[g + 1].before == ResetBins(p, d.bins[..], |p.comps|)
      && d.Ahead() == BehindSegment(segs, g, tail) && tail.marker != 0 && tail.marker != 0xFF
      && p.restartInterval > 0 && nextRestartNum == g % 8
    }

    lemma {:induction false} ReachesRestart(plan: seq<Mcu>, segs: seq<Segment>, g: nat, tail: Upcoming)
      requires g + 1 < |segs| && OnTrack(plan, segs, g, segs[g].to, tail)
      ensures AtRestart(plan, segs, g, tail)
    {
      assert Follows(d.t, p, plan, segs[g], segs[g + 1]);
    }

    /** Check for a restart marker and resynchronize. */
    method ProcessRestart(ghost plan: seq<Mcu>, ghost segs: seq<Segment>, ghost g: nat, ghost tail: Upcoming)
      requires Ready() && d.bins.Length == NUM_BINS && nextRestartNum < 8
      modifies this, d, d.bins
      ensures Ready() && d.Valid() && nextRestartNum < 8 && p == old(p) && restartsToGo == p.restartInterval
      ensures d.bins[..] == ResetBins(p, old(d.bins[..]), |p.comps|)
      ensures old(AtRestart(plan, segs, g, tail)) ==>
                OnTrack(plan, segs, g + 1, segs[g].to, tail) && Pr() == NoPrediction(|p.comps|)
    {
      hide Decoder.Tracks, Decoder.Ahead, RunDecisions, Linked, AreMcus, FinalBins, ResetBins, BytesFrom, OnTrack,
           Scan.Valid;
      ghost var on := AtRestart(plan, segs, g, tail);
      ReadRestartMarker(d, nextRestartNum);
      nextRestartNum := (nextRestartNum + 1) % 8;
      ResetCoder();
      if on {
        SegmentOpens(plan, segs, g + 1, tail);
      }
    }

    predicate Counted(segs: seq<Segment>, g: nat, j: nat)
      reads `p, `restartsToGo
      requires g < |segs|
    {
      p.restartInterval > 0 ==> restartsToGo + j == segs[g].from + p.restartInterval
    }

    /** The DC differences from MCU j on, and those of the segments behind this one, can be decoded. */
    predicate Decodable(plan: seq<Mcu>, j: nat, to: nat)
      reads `p, `last, `context
      requires p.Valid() && Pr().Fits(p) && AreMcus(p, plan) && j <= to <= |plan|
    {
      RunDecodable(p, Pr(), plan, j, to) && ScanDecodable(p, plan, to)
    }

    lemma {:induction false} Between(plan: seq<Mcu>, segs: seq<Segment>, g: nat, j: nat, tail: Upcoming)
      requires OnTrack(plan, segs, g, j, tail) && j < |plan|
      ensures j <= segs[g].to <= |plan|
      ensures p.Valid() && Pr().Fits(p) && AreMcus(p, plan)
      ensures j == segs[g].to ==>
              g + 1 < |segs| && AtRestart(plan, segs, g, tail)
              && segs[g + 1].from == j < segs[g + 1].to
      ensures j == segs[g].to && Counted(segs, g, j) ==> restartsToGo == 0
      ensures j < segs[g].to && Counted(segs, g, j) && p.restartInterval > 0 ==> restartsToGo > 0
    {
      if j == segs[g].to {
        assert g != |segs| - 1;
        ReachesRestart(plan, segs, g, tail);
        assert Sized(p, plan, segs[g + 1]);
      }
      assert Sized(p, plan, segs[g]);
    }

    /** At the start of a segment. */
    lemma {:induction false} Opened(plan: seq<Mcu>, segs: seq<Segment>, g: nat, j: nat, tail: Upcoming)
      requires OnTrack(plan, segs, g, j, tail) && segs[g].from == j < |plan| && Pr() == NoPrediction(|p.comps|)
      ensures p.Valid() && Pr().Fits(p) && AreMcus(p, plan) && j < segs[g].to <= |plan|
      ensures Decodable(plan, j, segs[g].to) <==> ScanDecodable(p, plan, j)
    {
      assert Sized(p, plan, segs[g]);
    }

    /** At the end of a segment. */
    lemma {:induction false} Closed(plan: seq<Mcu>, segs: seq<Segment>, g: nat, tail: Upcoming)
      requires g < |segs| && OnTrack(plan, segs, g, segs[g].to, tail)
      ensures p.Valid() && Pr().Fits(p) && AreMcus(p, plan) && segs[g].to <= |plan|
      ensures Decodable(plan, segs[g].to, segs[g].to) <==> ScanDecodable(p, plan, segs[g].to)
    {
    }

    /** At the end of the scan. */
    lemma {:induction false} Ends(plan: seq<Mcu>, segs: seq<Segment>, g: nat, tail: Upcoming)
      requires g < |segs| && OnTrack(plan, segs, g, |plan|, tail)
      ensures p.Valid() && Pr().Fits(p) && AreMcus(p, plan) && segs[g].to == |plan| && Decodable(plan, |plan|, |plan|)
      ensures IsSegment(d.t, p, plan, segs[|segs| - 1])
      ensures d.Ahead() == tail && d.bins[..] == FinalBins(d.t, p, plan, segs[|segs| - 1])
    {
      if g + 1 < |segs| {
        SegmentsGrow(d.t, p, plan, segs, g, |segs| - 1);
      }
    }

    /** A restart marker is to be processed before the next MCU. */
    predicate RestartDue()
      reads `p, `restartsToGo
    {
      p.restartInterval != 0 && restartsToGo == 0
    }

    /** Process restart marker if needed. */
    method CountMcu(ghost plan: seq<Mcu>, ghost segs: seq<Segment>, ghost g: nat, ghost j: nat, ghost tail: Upcoming)
        returns (ghost g2: nat)
      requires Valid()
      modifies this, d, d.bins
      ensures Valid() && p == old(p)
      ensures d.bins[..] == if old(RestartDue()) then ResetBins(p, old(d.bins[..]), |p.comps|) else old(d.bins[..])
      ensures g < |segs| && old(OnTrack(plan, segs, g, j, tail)) && old(Counted(segs, g, j)) && j < |plan| ==>
                && g2 < |segs| && OnTrack(plan, segs, g2, j, tail) && j < segs[g2].to && Counted(segs, g2, j + 1)
                && (Decodable(plan, j, segs[g2].to) <==> old(Decodable(plan, j, segs[g].to)))
    {
      hide Decoder.Tracks, Decoder.Ahead, RunDecisions, Linked, FinalBins, ResetBins, Scan.Valid, OnTrack, AtRestart,
           Decodable;
      g2 := g;
      ghost var on := g < |segs| && OnTrack(plan, segs, g, j, tail) && Counted(segs, g, j) && j < |plan|;
      if on {
        Between(plan, segs, g, j, tail);
        if j == segs[g].to {
          Closed(plan, segs, g, tail);
        }
      }
      if p.restartInterval != 0 {
        if restartsToGo == 0 {
          ProcessRestart(plan, segs, g, tail);
          g2 := g + 1;
          if on {
            Opened(plan, segs, g2, j, tail);
          }
        }
        restartsToGo := restartsToGo - 1;
      }
    }

    /** What is coded next, from an MCU inside a segment on. */
    lemma {:induction false} NextMcu(plan: seq<Mcu>, segs: seq<Segment>, g: nat, j: nat, tail: Upcoming)
      requires g < |segs| && OnTrack(plan, segs, g, j, tail) && j < segs[g].to
      ensures p.Valid() && Pr().Fits(p) && AreMcus(p, plan) && segs[g].to <= |plan|
      ensures IsSegment(d.t, p, plan, segs[g]) && McuPrediction(p, Pr(), plan[j], 0).Fits(p) && d.ct != -1
      ensures d.Tracks(McuDecisions(p, Pr(), plan[j], 0,
                         RunDecisions(p, McuPrediction(p, Pr(), plan[j], 0), plan, j + 1, segs[g].to)),
                       FinalBins(d.t, p, plan, segs[g]))
      ensures Decodable(plan, j, segs[g].to) <==>
                && McuDecodable(p, Pr(), plan[j], 0)
                && RunDecodable(p, McuPrediction(p, Pr(), plan[j], 0), plan, j + 1, segs[g].to)
                && ScanDecodable(p, plan, segs[g].to)
    {
    }

    /** Decode one MCU's worth of arithmetic-compressed coefficients. */
    method DecodeMcu(mem: array<int>, where: seq<nat>, ghost plan: seq<Mcu>, ghost segs: seq<Segment>, ghost g: nat,
                     ghost j: nat, ghost tail: Upcoming) returns (ghost g2: nat)
      requires Valid() && |where| == |p.membership| && Places(where, mem.Length)
      modifies this, d, d.bins, mem
      ensures Valid() && p == old(p) && Untouched(p, old(mem[..]), mem[..], where, |where|)
      ensures Used(p, if old(RestartDue()) then ResetBins(p, old(d.bins[..]), |p.comps|) else old(d.bins[..]),
                   d.bins[..])
      ensures g < |segs| && old(OnTrack(plan, segs, g, j, tail)) && old(Counted(segs, g, j)) && j < |plan|
              && (p.RefinesAc() ==> old(AllShown(p, mem[..], where, plan[j]))) ==>
                if d.ct == -1 then !old(Decodable(plan, j, segs[g].to))
                else
                  && g2 < |segs| && OnTrack(plan, segs, g2, j + 1, tail) && Counted(segs, g2, j + 1)
                  && AllAdvanced(p, old(mem[..]), mem[..], where, plan[j], |where|)
                  && (Decodable(plan, j + 1, segs[g2].to) <==> old(Decodable(plan, j, segs[g].to)))
    {
      hide Used, ResetBins, Decoder.Tracks, Decoder.Ahead, RunDecisions, McuDecisions, Linked, FinalBins, Scan.Valid,
           AtRestart;
      hide AllAdvanced, AllShown, Untouched, McuDecodable, RunDecodable, ScanDecodable;
      ghost var on := g < |segs| && OnTrack(plan, segs, g, j, tail) && Counted(segs, g, j) && j < |plan|
                      && (p.RefinesAc() ==> AllShown(p, mem[..], where, plan[j]));
      g2 := CountMcu(plan, segs, g, j, tail);
      NoneUsed(p, d.bins[..]);
      ghost var m: Mcu, rest, final := [], Done, [];
      if on {
        NextMcu(plan, segs, g2, j, tail);
        m, final := plan[j], FinalBins(d.t, p, plan, segs[g2]);
        rest := RunDecisions(p, McuPrediction(p, Pr(), m, 0), plan, j + 1, segs[g2].to);
      }
      if d.ct == -1 && !p.RefinesDc() {
        NothingTouched(p, mem[..], where);
        return;  // if error do nothing
      }
      var ok := DecodeBlocks(mem, where, m, rest, final);
    }

    /** Initialize for an arithmetic-compressed scan whose data start here. */
    method StartPass(p: Scan, ghost plan: seq<Mcu>, ghost segs: seq<Segment>, ghost tail: Upcoming)
      requires d.bins.Length == NUM_BINS && d.unreadMarker == 0 && p.Valid()
      modifies this, d`c, d`a, d`ct, d.bins
      ensures Valid() && this.p == p && d.bins[..] == ResetBins(p, old(d.bins[..]), |p.comps|)
      ensures AreMcus(p, plan) && IsScan(d.t, p, plan, ResetBins(p, old(d.bins[..]), |p.comps|), segs)
              && d.input == BytesFrom(segs, 0) + [0xFF, tail.marker] + tail.rest && tail.marker != 0
                && tail.marker != 0xFF
              ==> && OnTrack(plan, segs, 0, 0, tail) && Counted(segs, 0, 0)
                  && (Decodable(plan, 0, segs[0].to) <==> ScanDecodable(p, plan, 0))
    {
      hide Decoder.Tracks, Decoder.Ahead, Linked, ResetBins, BytesFrom, Chain, IsSegment, Scan.Valid, AreMcus,
           Decodable, OnTrack;
      this.p := p;
      if p.CodesDc() {
        last, context := seq(|p.comps|, i => 0), seq(|p.comps|, i => 0);
      }
      nextRestartNum := 0;
      ResetCoder();
      if AreMcus(p, plan) && IsScan(d.t, p, plan, d.bins[..], segs) && tail.marker != 0 && tail.marker != 0xFF
         && |segs| > 0 && d.input == BytesFrom(segs, 0) + [0xFF, tail.marker] + tail.rest {
        ScanLinked(d.t, p, plan, d.bins[..], segs);
        SegmentOpens(plan, segs, 0, tail);
        FirstOpened(plan, segs, tail);
      }
    }

    lemma {:induction false} FirstOpened(plan: seq<Mcu>, segs: seq<Segment>, tail: Upcoming)
      requires segs != [] && segs[0].from == 0 && OnTrack(plan, segs, 0, 0, tail) && Pr() == NoPrediction(|p.comps|)
      ensures p.Valid() && Pr().Fits(p) && AreMcus(p, plan) && segs[0].to <= |plan|
      ensures Decodable(plan, 0, segs[0].to) <==> ScanDecodable(p, plan, 0)
    {
      if |plan| > 0 {
        Opened(plan, segs, 0, 0, tail);
      }
    }
  }
}

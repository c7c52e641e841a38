/** What an arithmetic-coded scan transmits: the decisions for its MCUs, cut into segments at restart markers. */
module ScanModel {
  import opened ProbabilityTable
  import opened ByteStream
  import opened CodingInterval
  import opened CoefficientModel
  import opened Approximation

  /** The parameters that a scan and the arithmetic conditioning tables give to the entropy coder. */
  datatype Scan = Scan(progressive: bool, comps: seq<Component>, membership: seq<nat>,
                       ss: nat, se: nat, ah: nat, al: nat, limSe: nat, order: seq<nat>,
                       dcL: seq<nat>, dcU: seq<nat>, acK: seq<nat>, restartInterval: nat) {

    predicate Valid() {
      && 1 <= |comps| <= 4
      && (forall c :: c in comps ==> c.dcTbl < NUM_ARITH_TBLS && c.acTbl < NUM_ARITH_TBLS)
      && (forall i :: 0 <= i < |membership| ==> membership[i] < |comps|)
      && |dcL| == |dcU| == |acK| == NUM_ARITH_TBLS
      && GoodOrder(order) && |order| == limSe + 1
      && (if progressive then
            && (if ss == 0 then se == 0 else ss <= se <= limSe && |membership| == 1)
            && (ah == 0 || ah == al + 1) && al <= 13
          else ss == 0 && se == limSe && ah == 0 && al == 0)
    }

    predicate RefinesDc() {
      progressive && ss == 0 && ah > 0
    }

    predicate RefinesAc() {
      ss > 0 && ah > 0
    }

    /** The scan codes DC differences (rather than DC bits, or no DC coefficients). */
    predicate CodesDc() {
      ss == 0 && ah == 0
    }
  }

  /** The DC predictions and conditioning categories, per component of the scan. */
  datatype Prediction = Prediction(last: seq<int>, context: seq<nat>) {
    predicate Fits(p: Scan) {
      && |last| == |context| == |p.comps|
      && (forall i :: 0 <= i < |last| ==> IsJcoef(last[i]))
      && forall i :: 0 <= i < |context| ==> context[i] <= 16
    }
  }

  function NoPrediction(n: nat): Prediction {
    Prediction(seq(n, i => 0), seq(n, i => 0))
  }

  predicate AreBlocks(bs: seq<Block>) {
    forall i :: 0 <= i < |bs| ==> IsBlock(bs[i])
  }

  /** The DC coefficient after the point transform, an arithmetic shift. */
  function Dc(p: Scan, b: Block): int {
    Shr(b[0], p.al)
  }

  function DcDiff(p: Scan, pr: Prediction, ci: nat, b: Block): int
    requires ci < |pr.last|
  {
    Dc(p, b) - pr.last[ci]
  }

  function NextPrediction(p: Scan, pr: Prediction, ci: nat, b: Block): (r: Prediction)
    requires p.Valid() && pr.Fits(p) && ci < |p.comps| && IsBlock(b)
    ensures r.Fits(p)
  {
    if !p.CodesDc() then pr
    else
      var tbl := p.comps[ci].dcTbl;
      ShrRange(b[0], p.al);
      Prediction(pr.last[ci := Dc(p, b)],
                 pr.context[ci := DcContext(DcDiff(p, pr, ci, b), p.dcL[tbl], p.dcU[tbl])])
  }

  /** What the five encode_mcu routines code for one block of component ci of the scan. */
  function BlockDecisions(p: Scan, pr: Prediction, ci: nat, b: Block, rest: Decisions): Decisions
    requires p.Valid() && pr.Fits(p) && ci < |p.comps|
  {
    var c := p.comps[ci];
    if !p.progressive then
      DcDecisions(DcStats(c.dcTbl), pr.context[ci], DcDiff(p, pr, ci, b),
        if p.limSe == 0 then rest
        else AcDecisions(AcStats(c.acTbl), p.acK[c.acTbl], Transformed(b, p.order, 0), 0, p.limSe, rest))
    else if p.ss == 0 then
      if p.ah == 0 then DcDecisions(DcStats(c.dcTbl), pr.context[ci], DcDiff(p, pr, ci, b), rest)
      else Code(FIXED_BIN, Dc(p, b) % 2, rest)
    else
      var zz := Transformed(b, p.order, p.al);
      if p.ah == 0 then AcDecisions(AcStats(c.acTbl), p.acK[c.acTbl], zz, p.ss - 1, p.se, rest)
      else RefineDecisions(AcStats(c.acTbl), zz, p.ss - 1, p.se, rest)
  }

  /** The blocks of an MCU from the i-th one on. */
  function McuDecisions(p: Scan, pr: Prediction, bs: seq<Block>, i: nat, rest: Decisions): Decisions
    requires p.Valid() && pr.Fits(p) && AreBlocks(bs) && i <= |bs| == |p.membership|
    decreases |bs| - i
  {
    if i == |bs| then rest
    else BlockDecisions(p, pr, p.membership[i], bs[i],
           McuDecisions(p, NextPrediction(p, pr, p.membership[i], bs[i]), bs, i + 1, rest))
  }

  function McuPrediction(p: Scan, pr: Prediction, bs: seq<Block>, i: nat): (r: Prediction)
    requires p.Valid() && pr.Fits(p) && AreBlocks(bs) && i <= |bs| == |p.membership|
    ensures r.Fits(p)
    decreases |bs| - i
  {
    if i == |bs| then pr
    else McuPrediction(p, NextPrediction(p, pr, p.membership[i], bs[i]), bs, i + 1)
  }

  /** The DC differences of an MCU are small enough to be decoded: at most 2^15 in magnitude. */
  predicate McuDecodable(p: Scan, pr: Prediction, bs: seq<Block>, i: nat)
    requires p.Valid() && pr.Fits(p) && AreBlocks(bs) && i <= |bs| == |p.membership|
    decreases |bs| - i
  {
    i == |bs| || (
      && (p.CodesDc() ==> Abs(DcDiff(p, pr, p.membership[i], bs[i])) <= 0x8000)
      && McuDecodable(p, NextPrediction(p, pr, p.membership[i], bs[i]), bs, i + 1))
  }

  predicate AreMcus(p: Scan, ms: seq<Mcu>) {
    forall j :: 0 <= j < |ms| ==> |ms[j]| == |p.membership| && AreBlocks(ms[j])
  }

  /** The MCUs j..n of a scan, coded one after the other. */
  function RunDecisions(p: Scan, pr: Prediction, ms: seq<Mcu>, j: nat, n: nat): Decisions
    requires p.Valid() && pr.Fits(p) && AreMcus(p, ms) && j <= n <= |ms|
    decreases n - j
  {
    if j == n then Done
    else McuDecisions(p, pr, ms[j], 0, RunDecisions(p, McuPrediction(p, pr, ms[j], 0), ms, j + 1, n))
  }

  /** The MCUs j..n can be decoded, given the prediction at j. */
  predicate RunDecodable(p: Scan, pr: Prediction, ms: seq<Mcu>, j: nat, n: nat)
    requires p.Valid() && pr.Fits(p) && AreMcus(p, ms) && j <= n <= |ms|
    decreases n - j
  {
    j == n || (McuDecodable(p, pr, ms[j], 0) && RunDecodable(p, McuPrediction(p, pr, ms[j], 0), ms, j + 1, n))
  }

  /** All DC differences from the given restart on are at most 2^15 in magnitude. */
  predicate ScanDecodable(p: Scan, ms: seq<Mcu>, from: nat)
    requires p.Valid() && AreMcus(p, ms)
    decreases |ms| - from
  {
    NoPredictionFits(p);
    from >= |ms| || (
      && RunDecodable(p, NoPrediction(|p.comps|), ms, from, SegmentEnd(p, from, |ms|))
      && ScanDecodable(p, ms, SegmentEnd(p, from, |ms|)))
  }

  // The decoder is narrower than the encoder

  function FlatBlock(dc: int): Block {
    seq(64, i => if i == 0 then dc else 0)
  }

  /** A sequential scan of one component, DC coefficients only. */
  function DcScan(): Scan {
    Scan(false, [Component(0, 0)], [0], 0, 0, 0, 0, 0, [0], seq(16, i => 0), seq(16, i => 1), seq(16, i => 5), 0)
  }

  /** From the largest DC coefficient to the smallest the difference is -65535; such a scan is encoded, but not
      decoded. */
  lemma {:induction false} WideStep()
    ensures var p, ms := DcScan(), [[FlatBlock(32767)], [FlatBlock(-32768)]];
            p.Valid() && AreMcus(p, ms) && !ScanDecodable(p, ms, 0)
  {
    hide DcContext;
    var p, first, second := DcScan(), FlatBlock(32767), FlatBlock(-32768);
    var ms := [[first], [second]];
    var pr := NoPrediction(1);
    NoPredictionFits(p);
    assert IsBlock(first) && IsBlock(second);
    var next := NextPrediction(p, pr, 0, first);
    assert Dc(p, first) == 32767 && Dc(p, second) == -32768;
    assert next.last[0] == 32767;
    assert McuPrediction(p, pr, ms[0], 0) == McuPrediction(p, next, ms[0], 1) == next;
    assert !McuDecodable(p, next, ms[1], 0);
    assert !RunDecodable(p, next, ms, 1, 2);
    assert !RunDecodable(p, pr, ms, 0, 2);
  }

  // Statistics areas

  /** MEMZERO on n bins from lo on. */
  function Zeroed(bins: seq<Bin>, lo: nat, n: nat): (r: seq<Bin>)
    ensures |r| == |bins|
  {
    seq(|bins|, i requires 0 <= i < |bins| => if lo <= i < lo + n then Bin(0, 0) else bins[i])
  }

  /** The areas that the scan uses for the components before the n-th one are reset. */
  function ResetBins(p: Scan, bins: seq<Bin>, n: nat): (r: seq<Bin>)
    requires p.Valid() && n <= |p.comps|
    ensures |r| == |bins|
  {
    if n == 0 then bins
    else
      var c, r := p.comps[n - 1], ResetBins(p, bins, n - 1);
      var dc := if p.CodesDc() then Zeroed(r, DcStats(c.dcTbl), DC_STAT_BINS) else r;
      if p.se != 0 then Zeroed(dc, AcStats(c.acTbl), AC_STAT_BINS) else dc
  }

  /** A bin of an area that the scan uses for one of its first n components. */
  predicate InArea(p: Scan, n: nat, i: int)
    requires n <= |p.comps|
  {
    exists j :: 0 <= j < n && (
      || (p.CodesDc() && DcStats(p.comps[j].dcTbl) <= i < DcStats(p.comps[j].dcTbl) + 64)
      || (p.se != 0 && AcStats(p.comps[j].acTbl) <= i < AcStats(p.comps[j].acTbl) + 256))
  }

  /** Resetting makes these bins what they are at first, and leaves all others. */
  lemma {:induction false} ResetMeans(p: Scan, bins: seq<Bin>, n: nat, i: nat)
    requires p.Valid() && n <= |p.comps| && i < |bins|
    ensures ResetBins(p, bins, n)[i] == if InArea(p, n, i) then Bin(0, 0) else bins[i]
  {
    if n > 0 {
      ResetMeans(p, bins, n - 1, i);
    }
  }

  predicate IsLastBlock(p: Scan, k: nat, ci: nat)
    requires k < |p.membership|
  {
    p.membership[k] == ci && forall h :: k < h < |p.membership| ==> p.membership[h] != ci
  }

  /** The prediction behind the blocks i.. of an MCU: of each component, the last block among them, or as before. */
  lemma {:induction false} PredictionOfMcu(p: Scan, pr: Prediction, bs: seq<Block>, i: nat, ci: nat)
    requires p.Valid() && pr.Fits(p) && AreBlocks(bs) && i <= |bs| == |p.membership| && ci < |p.comps| && p.CodesDc()
    ensures var r := McuPrediction(p, pr, bs, i).last[ci];
            && ((forall k :: i <= k < |bs| ==> p.membership[k] != ci) ==> r == pr.last[ci])
            && forall k :: i <= k < |bs| && IsLastBlock(p, k, ci) ==> r == Shr(bs[k][0], p.al)
    decreases |bs| - i
  {
    if i < |bs| {
      PredictionOfMcu(p, NextPrediction(p, pr, p.membership[i], bs[i]), bs, i + 1, ci);
    }
  }

  // Restart intervals

  /** The MCUs from..to of a scan, coded in one segment, and the bins before it. */
  datatype Segment = Segment(from: nat, to: nat, before: seq<Bin>, data: seq<byte>)

  function SegmentDecisions(p: Scan, plan: seq<Mcu>, from: nat, to: nat): Decisions
    requires p.Valid() && AreMcus(p, plan) && from <= to <= |plan|
  {
    NoPredictionFits(p);
    RunDecisions(p, NoPrediction(|p.comps|), plan, from, to)
  }

  lemma {:induction false} NoPredictionFits(p: Scan)
    ensures NoPrediction(|p.comps|).Fits(p)
  {
  }

  ghost predicate IsSegment(t: AriTable, p: Scan, plan: seq<Mcu>, s: Segment)
    requires p.Valid() && AreMcus(p, plan)
  {
    && s.from <= s.to <= |plan| && |s.before| == NUM_BINS
    && SegmentFor(t, s.before, After([], SegmentDecisions(p, plan, s.from, s.to)), s.data)
  }

  ghost function FinalBins(t: AriTable, p: Scan, plan: seq<Mcu>, s: Segment): (r: seq<Bin>)
    requires p.Valid() && AreMcus(p, plan) && IsSegment(t, p, plan, s)
    ensures |r| == NUM_BINS
  {
    Run(t, Start(s.before), After([], SegmentDecisions(p, plan, s.from, s.to))).bins
  }

  /** The MCU at which a segment ends that starts at the given one. */
  function SegmentEnd(p: Scan, from: nat, n: nat): nat {
    if p.restartInterval == 0 || from + p.restartInterval > n then n else from + p.restartInterval
  }

  /** Segments of one restart interval each, from the start of the scan up to the given MCU, and the bins there. */
  ghost predicate Chain(t: AriTable, p: Scan, plan: seq<Mcu>, initial: seq<Bin>, segs: seq<Segment>, from: nat,
                        before: seq<Bin>)
    requires p.Valid() && AreMcus(p, plan)
  {
    if segs == [] then from == 0 && before == initial
    else
      var n := |segs| - 1;
      var s := segs[n];
      && IsSegment(t, p, plan, s) && p.restartInterval > 0 && s.to == from == s.from + p.restartInterval
      && before == ResetBins(p, FinalBins(t, p, plan, s), |p.comps|)
      && Chain(t, p, plan, initial, segs[..n], s.from, s.before)
  }

  /** Finished segments as they are written, each with a restart marker behind it. */
  function Finished(segs: seq<Segment>): seq<byte> {
    var n := |segs| - 1;
    if segs == [] then [] else Finished(segs[..n]) + Stuff(segs[n].data) + [0xFF, 0xD0 + n % 8]
  }

  lemma {:induction false} OneMoreSegment(t: AriTable, p: Scan, plan: seq<Mcu>, initial: seq<Bin>, segs: seq<Segment>,
                                          s: Segment)
    requires p.Valid() && AreMcus(p, plan) && Chain(t, p, plan, initial, segs, s.from, s.before)
    requires IsSegment(t, p, plan, s) && p.restartInterval > 0 && s.to == s.from + p.restartInterval
    ensures Chain(t, p, plan, initial, segs + [s], s.to, ResetBins(p, FinalBins(t, p, plan, s), |p.comps|))
    ensures Finished(segs + [s]) == Finished(segs) + Stuff(s.data) + [0xFF, 0xD0 + |segs| % 8]
  {
    hide IsSegment, FinalBins, ResetBins, Stuff, AreMcus, Scan.Valid;
    var more := segs + [s];
    assert more[..|segs|] == segs && more[|segs|] == s;
  }

  /** The segments of a scan as they are read, from the g-th one on. */
  function BytesFrom(segs: seq<Segment>, g: nat): seq<byte>
    requires g < |segs|
    decreases |segs| - g
  {
    if g + 1 == |segs| then Stuff(segs[g].data)
    else Stuff(segs[g].data) + [0xFF, 0xD0 + g % 8] + BytesFrom(segs, g + 1)
  }

  lemma {:induction false} FinishedThenLast(segs: seq<Segment>, g: nat)
    requires g < |segs|
    ensures Finished(segs[..g]) + BytesFrom(segs, g) == Finished(segs[..|segs| - 1]) + Stuff(segs[|segs| - 1].data)
    decreases |segs| - g
  {
    if g + 1 < |segs| {
      FinishedThenLast(segs, g + 1);
      assert segs[..g + 1][..g] == segs[..g];
    }
  }

  /** The entropy-coded data of a scan: one segment per restart interval, the last one possibly shorter. */
  ghost predicate IsScan(t: AriTable, p: Scan, plan: seq<Mcu>, initial: seq<Bin>, segs: seq<Segment>)
    requires p.Valid() && AreMcus(p, plan)
  {
    segs != []
    && var n := |segs| - 1;
       && IsSegment(t, p, plan, segs[n]) && segs[n].to == |plan| == SegmentEnd(p, segs[n].from, |plan|)
       && (segs[n].from < |plan| || n == 0)
       && Chain(t, p, plan, initial, segs[..n], segs[n].from, segs[n].before)
  }

  /** What a decoder relies on: every segment follows from the one before it. */
  ghost predicate Linked(t: AriTable, p: Scan, plan: seq<Mcu>, segs: seq<Segment>)
    requires p.Valid() && AreMcus(p, plan)
  {
    && segs != [] && segs[0].from == 0 && segs[|segs| - 1].to == |plan|
      && (segs[|segs| - 1].from < |plan| || |segs| == 1)
    && (forall g :: 0 <= g < |segs| ==> IsSegment(t, p, plan, segs[g]) && Sized(p, plan, segs[g]))
    && forall g :: 0 <= g < |segs| - 1 ==> Follows(t, p, plan, segs[g], segs[g + 1])
  }

  predicate Sized(p: Scan, plan: seq<Mcu>, s: Segment) {
    s.to == SegmentEnd(p, s.from, |plan|)
  }

  ghost predicate Follows(t: AriTable, p: Scan, plan: seq<Mcu>, s: Segment, next: Segment)
    requires p.Valid() && AreMcus(p, plan) && IsSegment(t, p, plan, s)
  {
    && p.restartInterval > 0 && s.to == next.from == s.from + p.restartInterval
    && next.before == ResetBins(p, FinalBins(t, p, plan, s), |p.comps|)
  }

  lemma {:induction false} SegmentsGrow(t: AriTable, p: Scan, plan: seq<Mcu>, segs: seq<Segment>, g: nat, h: nat)
    requires p.Valid() && AreMcus(p, plan) && Linked(t, p, plan, segs) && g < h < |segs|
    ensures segs[g].to <= segs[h].from
    decreases h
  {
    assert Follows(t, p, plan, segs[h - 1], segs[h]);
    if g < h - 1 {
      SegmentsGrow(t, p, plan, segs, g, h - 1);
    }
  }

  lemma {:induction false} ChainLinked(t: AriTable, p: Scan, plan: seq<Mcu>, initial: seq<Bin>, segs: seq<Segment>,
                                       n: nat)
    requires p.Valid() && AreMcus(p, plan) && n < |segs| && IsSegment(t, p, plan, segs[n])
    requires Chain(t, p, plan, initial, segs[..n], segs[n].from, segs[n].before)
    ensures segs[0].from == 0 && segs[0].before == initial
    ensures forall g :: 0 <= g < n ==> IsSegment(t, p, plan, segs[g]) && Sized(p, plan, segs[g])
    ensures forall g :: 0 <= g < n ==> Follows(t, p, plan, segs[g], segs[g + 1])
  {
    hide SegmentFor, ResetBins, FinalBins, AreMcus, Scan.Valid, SegmentDecisions;
    if n > 0 {
      assert segs[..n][..n - 1] == segs[..n - 1];
      ChainLinked(t, p, plan, initial, segs, n - 1);
    }
  }

  lemma {:induction false} ScanLinked(t: AriTable, p: Scan, plan: seq<Mcu>, initial: seq<Bin>, segs: seq<Segment>)
    requires p.Valid() && AreMcus(p, plan) && IsScan(t, p, plan, initial, segs)
    ensures Linked(t, p, plan, segs) && segs[0].before == initial
  {
    ChainLinked(t, p, plan, initial, segs, |segs| - 1);
  }

  /** The marker behind the g-th segment and the input behind the marker, if the scan is followed by the given
      marker. */
  function BehindSegment(segs: seq<Segment>, g: nat, tail: Upcoming): Upcoming
    requires g < |segs|
  {
    if g + 1 == |segs| then tail
    else Upcoming(0xD0 + g % 8, BytesFrom(segs, g + 1) + [0xFF, tail.marker] + tail.rest)
  }

  lemma {:induction false} SegmentInput(segs: seq<Segment>, g: nat, tail: Upcoming)
    requires g < |segs| && tail.marker != 0 && tail.marker != 0xFF
    ensures var input := BytesFrom(segs, g) + [0xFF, tail.marker] + tail.rest;
            Data(input) == segs[g].data && NextMarker(input) == BehindSegment(segs, g, tail)
  {
    var u := BehindSegment(segs, g, tail);
    DataOfStuffed(segs[g].data, u.marker, u.rest);
    MarkerBehindStuffed(segs[g].data, u.marker, u.rest);
    if g + 1 < |segs| {
      var more := BytesFrom(segs, g + 1);
      assert BytesFrom(segs, g) + [0xFF, tail.marker] + tail.rest
          == Stuff(segs[g].data) + [0xFF, u.marker] + (more + [0xFF, tail.marker] + tail.rest);
    }
  }

  // Where things are in the bytes of a scan

  /** The first byte of a segment: behind those before it and their markers. */
  function Offset(segs: seq<Segment>, g: nat): nat
    requires g <= |segs|
  {
    if g == 0 then 0 else Offset(segs, g - 1) + |Stuff(segs[g - 1].data)| + 2
  }

  lemma {:induction false} BytesAt(segs: seq<Segment>, g: nat)
    requires g < |segs|
    ensures Offset(segs, g) <= |BytesFrom(segs, 0)| && BytesFrom(segs, 0)[Offset(segs, g)..] == BytesFrom(segs, g)
  {
    hide Stuff;
    if g > 0 {
      BytesAt(segs, g - 1);
      var head := Stuff(segs[g - 1].data) + [0xFF, 0xD0 + (g - 1) % 8];
      assert BytesFrom(segs, g - 1) == head + BytesFrom(segs, g);
      assert BytesFrom(segs, 0)[Offset(segs, g - 1)..][|head|..] == BytesFrom(segs, 0)[Offset(segs, g)..];
    }
  }

  /** In the bytes of a scan, segment g stands behind g others; two bytes follow it, 0xFF and the restart marker with
      the number g modulo 8, unless it is the last one. */
  lemma {:induction false} SegmentPlaced(segs: seq<Segment>, g: nat)
    requires g < |segs|
    ensures var all, o, n := BytesFrom(segs, 0), Offset(segs, g), |Stuff(segs[g].data)|;
            && o + n <= |all| && all[o..o + n] == Stuff(segs[g].data)
            && if g + 1 == |segs| then o + n == |all|
               else o + n + 2 <= |all| && all[o + n] == 0xFF && all[o + n + 1] == 0xD0 + g % 8
  {
    hide Stuff;
    BytesAt(segs, g);
    var all, o, n := BytesFrom(segs, 0), Offset(segs, g), |Stuff(segs[g].data)|;
    assert all[o..][..n] == all[o..o + n];
    if g + 1 < |segs| {
      assert all[o..][n] == all[o + n] && all[o..][n + 1] == all[o + n + 1];
    }
  }

  /** Segment g of a scan has the MCUs of the restart interval number g, the last one those that are left over. */
  lemma {:induction false} IntervalOf(t: AriTable, p: Scan, plan: seq<Mcu>, initial: seq<Bin>, segs: seq<Segment>,
                                      g: nat)
    requires p.Valid() && AreMcus(p, plan) && IsScan(t, p, plan, initial, segs) && g < |segs|
    ensures segs[g].from == g * p.restartInterval
    ensures segs[g].to == if g + 1 == |segs| then |plan| else (g + 1) * p.restartInterval
    ensures g + 1 == |segs| && p.restartInterval > 0 ==> |plan| <= (g + 1) * p.restartInterval
  {
    hide IsSegment, ResetBins, FinalBins, AreMcus, Scan.Valid;
    ScanLinked(t, p, plan, initial, segs);
    assert Sized(p, plan, segs[g]);
    if g > 0 {
      IntervalOf(t, p, plan, initial, segs, g - 1);
      assert Follows(t, p, plan, segs[g - 1], segs[g]);
    }
    if g + 1 < |segs| {
      assert Follows(t, p, plan, segs[g], segs[g + 1]);
    }
  }
}

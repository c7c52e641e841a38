/** Encoding the MCUs of a scan (jcarith.c): the entropy encoder around the arithmetic coder's registers. */
module ScanEncoder {
  import opened ProbabilityTable
  import opened ByteStream
  import opened CodingInterval
  import opened ArithEncoder
  import opened CoefficientModel
  import opened Approximation
  import opened McuEncoder
  import opened ScanModel

  class EntropyEncoder {
    const e: Encoder
    var p: Scan                // the parameters of the current scan
    var last: seq<int>         // last DC coefficient for each component
    var context: seq<nat>      // context index for DC conditioning
    var restartsToGo: nat      // MCUs left in this restart interval
    var nextRestartNum: nat    // next restart number to write

    ghost var plan: seq<Mcu>       // the MCUs of this scan
    ghost var j: nat               // how many of them have been coded
    ghost var from: nat            // the one that the current segment starts with
    ghost var segs: seq<Segment>   // the segments finished in this scan
    ghost var start: seq<byte>     // the output before this scan
    ghost var initial: seq<Bin>    // the bins at the start of this scan

    /** jinit_arith_encoder */
    constructor (t: AriTable)
      ensures fresh(e) && fresh(e.bins) && e.t == t && e.bins.Length == NUM_BINS && e.out == []
      ensures e.bins[FIXED_BIN] == Bin(0, FIXED_ENTRY)
    {
      e := new Encoder(t, NUM_BINS);
      new;
      e.bins[FIXED_BIN] := Bin(0, FIXED_ENTRY);
    }

    function Pr(): Prediction
      reads this
    {
      if p.CodesDc() then Prediction(last, context) else NoPrediction(|p.comps|)
    }

    ghost predicate Ready()
      reads this
    {
      p.Valid() && Pr().Fits(p) && AreMcus(p, plan)
    }

    ghost predicate Counted()
      reads this
      requires Ready()
    {
      && from <= j <= SegmentEnd(p, from, |plan|) <= |plan| && (from < |plan| || segs == [])
      && if p.restartInterval == 0 then segs == []
         else restartsToGo + j == from + p.restartInterval && nextRestartNum == |segs| % 8
    }

    /** The rest of this segment, behind what has been coded, is what is planned. */
    ghost predicate OnPlan()
      reads this, e
      requires Ready() && Counted()
    {
      var to := SegmentEnd(p, from, |plan|);
      After(e.log, RunDecisions(p, Pr(), plan, j, to)) == After([], SegmentDecisions(p, plan, from, to))
    }

    ghost predicate Valid()
      reads this, e, e.bins
    {
      && e.bins.Length == NUM_BINS && e.Valid() && Ready() && Counted() && OnPlan()
      && Chain(e.t, p, plan, initial, segs, from, e.first) && e.head == start + Finished(segs)
    }

    /** MEMZERO of a statistics area. */
    method Clear(lo: nat, n: nat)
      requires lo + n <= e.bins.Length
      modifies e.bins
      ensures e.bins[..] == Zeroed(old(e.bins[..]), lo, n)
    {
      for i := 0 to n
        invariant e.bins[..] == Zeroed(old(e.bins[..]), lo, i)
      {
        e.bins[lo + i] := Bin(0, 0);
      }
    }

    /** Re-initialize the statistics areas of the scan and the DC predictions. */
    method ResetStatistics()
      requires p.Valid() && e.bins.Length == NUM_BINS
      requires p.CodesDc() ==> |last| == |context| == |p.comps|
      modifies `last, `context, e.bins
      ensures e.bins[..] == ResetBins(p, old(e.bins[..]), |p.comps|)
      ensures Pr() == NoPrediction(|p.comps|)
    {
      for ci := 0 to |p.comps|
        invariant e.bins[..] == ResetBins(p, old(e.bins[..]), ci)
        invariant p.CodesDc() ==> |last| == |context| == |p.comps|
        invariant p.CodesDc() ==> forall i :: 0 <= i < ci ==> last[i] == context[i] == 0
      {
        // DC needs no table for refinement scan
        if p.ss == 0 && p.ah == 0 {
          Clear(DcStats(p.comps[ci].dcTbl), DC_STAT_BINS);
          last := last[ci := 0];
          context := context[ci := 0];
        }
        // AC needs no table when not present
        if p.se != 0 {
          Clear(AcStats(p.comps[ci].acTbl), AC_STAT_BINS);
        }
      }
    }

    /** Encode the DC coefficient of a block and advance the prediction. */
    method EncodeDc(b: Block, ci: nat, ghost rest: Decisions)
      requires Ready() && p.CodesDc() && e.Valid() && e.bins.Length == NUM_BINS && ci < |p.comps| && IsBlock(b)
      modifies `last, `context, e, e.bins
      ensures e.Coded(DcDecisions(DcStats(p.comps[ci].dcTbl), old(context[ci]), DcDiff(p, old(Pr()), ci, b), rest),
              rest)
      ensures Pr() == NextPrediction(p, old(Pr()), ci, b)
    {
      hide Encoder.Valid, DcDecisions;
      var tbl := p.comps[ci].dcTbl;
      ShrRange(b[0], p.al);
      var m := Shr(b[0], p.al);
      var v := m - last[ci];
      if v != 0 {
        last := last[ci := m];
      }
      var next := EncodeDcDiff(e, DcStats(tbl), context[ci], v, p.dcL[tbl], p.dcU[tbl], rest);
      context := context[ci := next];
    }

    /** Encode one block of component ci, as the routine does that is selected for the kind of scan. */
    method EncodeBlock(b: Block, ci: nat, ghost rest: Decisions)
      requires Ready() && e.Valid() && e.bins.Length == NUM_BINS && ci < |p.comps| && IsBlock(b)
      modifies `last, `context, e, e.bins
      ensures e.Coded(BlockDecisions(p, old(Pr()), ci, b, rest), rest)
      ensures Pr() == NextPrediction(p, old(Pr()), ci, b)
    {
      hide Encoder.Valid, DcDecisions, AcDecisions, RefineDecisions;
      var acTbl := p.comps[ci].acTbl;
      var stats := AcStats(acTbl);
      if !p.progressive {
        ghost var ac := if p.limSe == 0 then rest
                        else AcDecisions(stats, p.acK[acTbl], Transformed(b, p.order, 0), 0, p.limSe, rest);
        EncodeDc(b, ci, ac);
        if p.limSe != 0 {
          EncodeAc(e, stats, p.acK[acTbl], b, p.order, 1, p.limSe, 0, rest);
        }
      } else if p.ss == 0 {
        if p.ah == 0 {
          EncodeDc(b, ci, rest);
        } else {
          // We simply emit the Al'th bit of the DC coefficient value.
          e.ArithEncode(FIXED_BIN, Shr(b[0], p.al) % 2, rest);
        }
      } else if p.ah == 0 {
        EncodeAc(e, stats, p.acK[acTbl], b, p.order, p.ss, p.se, p.al, rest);
      } else {
        EncodeAcRefine(e, stats, b, p.order, p.ss, p.se, p.ah, p.al, rest);
      }
    }

    /** The blocks of an MCU. */
    method EncodeBlocks(m: Mcu, ghost rest: Decisions)
      requires Ready() && e.Valid() && e.bins.Length == NUM_BINS && |m| == |p.membership| && AreBlocks(m)
      modifies `last, `context, e, e.bins
      ensures e.Coded(McuDecisions(p, old(Pr()), m, 0, rest), rest)
      ensures Pr() == McuPrediction(p, old(Pr()), m, 0)
    {
      hide Encoder.Valid, BlockDecisions, NextPrediction;
      for i := 0 to |p.membership|
        invariant Ready()
        invariant McuPrediction(p, Pr(), m, i) == McuPrediction(p, old(Pr()), m, 0)
        invariant e.Coded(McuDecisions(p, old(Pr()), m, 0, rest), McuDecisions(p, Pr(), m, i, rest))
      {
        ghost var next := NextPrediction(p, Pr(), p.membership[i], m[i]);
        EncodeBlock(m[i], p.membership[i], McuDecisions(p, next, m, i + 1, rest));
      }
    }

    /** Finish the current segment, which is complete. */
    method FinishSegment() returns (ghost s: Segment)
      requires Valid() && j == SegmentEnd(p, from, |plan|)
      modifies e
      ensures s == Segment(from, j, old(e.first), e.data) && IsSegment(e.t, p, plan, s)
      ensures e.bins[..] == FinalBins(e.t, p, plan, s)
      ensures e.out == start + Finished(segs) + Stuff(s.data)
    {
      e.FinishPass();
      s := Segment(from, j, e.first, e.data);
    }

    /** Reset the statistics, the predictions and the coding variables for a new segment. */
    method ResetCoder()
      requires p.Valid() && e.bins.Length == NUM_BINS
      requires p.CodesDc() ==> |last| == |context| == |p.comps|
      modifies `last, `context, e, e.bins
      ensures e.Valid() && e.log == [] && e.out == old(e.out) == e.head
      ensures e.first == e.bins[..] == ResetBins(p, old(e.bins[..]), |p.comps|)
      ensures Pr() == NoPrediction(|p.comps|)
    {
      hide Encoder.Valid;
      ResetStatistics();
      e.StartSegment();
    }

    /** Emit a restart marker and resynchronize predictions. */
    method EmitRestart()
      requires Valid() && p.restartInterval > 0 && restartsToGo == 0
      modifies this, e, e.bins
      ensures Pr() == NoPrediction(|p.comps|) && p == old(p) && plan == old(plan) && j == old(j) == from
      ensures start == old(start) && initial == old(initial) && nextRestartNum == old(nextRestartNum)
      ensures e.bins.Length == NUM_BINS && e.Valid() && e.log == [] && e.head == start + Finished(segs)
      ensures Ready() && |segs| == |old(segs)| + 1 && Chain(e.t, p, plan, initial, segs, from, e.first)
    {
      hide Encoder.Valid, IsSegment, FinalBins, Stuff, ResetBins, RunDecisions, SegmentDecisions, Start, Chain,
           Finished;
      ghost var s := FinishSegment();
      OneMoreSegment(e.t, p, plan, initial, segs, s);
      e.EmitByte(0xFF);
      e.EmitByte(0xD0 + nextRestartNum);
      ResetCoder();
      segs := segs + [s];
      from := j;
    }

    /** Emit restart marker if needed. */
    method CountMcu()
      requires Valid() && j < |plan|
      modifies this, e, e.bins
      ensures e.bins.Length == NUM_BINS && e.Valid() && Ready() && p == old(p) && plan == old(plan) && j == old(j)
      ensures start == old(start) && initial == old(initial)
      ensures from <= j < SegmentEnd(p, from, |plan|)
      ensures if p.restartInterval == 0 then segs == []
              else restartsToGo + j + 1 == from + p.restartInterval && nextRestartNum == |segs| % 8
      ensures var to := SegmentEnd(p, from, |plan|);
              After(e.log, RunDecisions(p, Pr(), plan, j, to)) == After([], SegmentDecisions(p, plan, from, to))
      ensures Chain(e.t, p, plan, initial, segs, from, e.first) && e.head == start + Finished(segs)
    {
      hide Encoder.Valid, IsSegment, FinalBins, Stuff, ResetBins, Chain, Finished, Start;
      if p.restartInterval != 0 {
        if restartsToGo == 0 {
          EmitRestart();
          restartsToGo := p.restartInterval;
          nextRestartNum := (nextRestartNum + 1) % 8;
        }
        restartsToGo := restartsToGo - 1;
      }
    }

    /** Encode and output one MCU's worth of arithmetic-compressed coefficients. */
    method EncodeMcu(m: Mcu)
      requires Valid() && j < |plan| && m == plan[j]
      modifies this, e, e.bins
      ensures Valid() && j == old(j) + 1
      ensures p == old(p) && plan == old(plan) && start == old(start) && initial == old(initial)
    {
      hide Encoder.Valid, IsSegment, FinalBins, Stuff, ResetBins, SegmentDecisions, Chain, Finished, McuDecisions,
           Start, McuPrediction;
      hide Scan.Valid, Prediction.Fits, AreBlocks;
      CountMcu();
      ghost var to := SegmentEnd(p, from, |plan|);
      EncodeBlocks(m, RunDecisions(p, McuPrediction(p, Pr(), m, 0), plan, j + 1, to));
      j := j + 1;
    }

    /** At the start of a scan nothing is finished, and everything is still to be coded. */
    lemma {:induction false} Opened()
      requires p.Valid() && AreMcus(p, plan) && e.bins.Length == NUM_BINS && e.Valid() && e.log == []
      requires j == from == 0 && segs == [] && start == e.head && initial == e.first
      requires restartsToGo == p.restartInterval && nextRestartNum == 0 && Pr() == NoPrediction(|p.comps|)
      ensures Valid()
    {
      hide Encoder.Valid, IsSegment, FinalBins, Stuff, ResetBins, RunDecisions, Start, AreMcus, Scan.Valid;
      NoPredictionFits(p);
    }

    /** Initialize for an arithmetic-compressed scan, which is going to consist of the given MCUs. */
    method StartPass(p: Scan, ghost plan: seq<Mcu>)
      requires e.bins.Length == NUM_BINS && p.Valid() && AreMcus(p, plan)
      modifies this, e, e.bins
      ensures Valid() && j == 0 && this.p == p && this.plan == plan && start == old(e.out)
      ensures initial == ResetBins(p, old(e.bins[..]), |p.comps|)
    {
      hide Encoder.Valid, ResetBins, AreMcus, Scan.Valid, Prediction.Fits, Valid, OnPlan, Counted, Ready;
      this.p := p;
      if p.CodesDc() {
        last, context := seq(|p.comps|, i => 0), seq(|p.comps|, i => 0);
      }
      ResetCoder();
      restartsToGo, nextRestartNum := p.restartInterval, 0;
      this.plan, j, from, segs, start, initial := plan, 0, 0, [], e.out, e.bins[..];
      Opened();
    }

    /** Finish up at the end of the scan. */
    method FinishPass() returns (ghost scan: seq<Segment>)
      requires Valid() && j == |plan|
      modifies e
      ensures scan != [] && IsScan(e.t, p, plan, initial, scan) && e.out == start + BytesFrom(scan, 0)
      ensures e.bins[..] == FinalBins(e.t, p, plan, scan[|scan| - 1])
    {
      hide Encoder.Valid, IsSegment, FinalBins, Stuff, ResetBins, RunDecisions, SegmentDecisions, Chain, BytesFrom,
           Start;
      ghost var s := FinishSegment();
      scan := segs + [s];
      assert scan[..|segs|] == segs;
      FinishedThenLast(scan, 0);
      assert scan[..0] == [] && [] + BytesFrom(scan, 0) == BytesFrom(scan, 0);
      assert start + Finished(segs) + Stuff(s.data) == start + (Finished(segs) + Stuff(s.data));
    }
  }

  /** The entropy encoder's part in writing a scan, MCU by MCU. */
  method EncodeScan(enc: EntropyEncoder, p: Scan, ms: seq<Mcu>) returns (ghost scan: seq<Segment>)
    requires enc.e.bins.Length == NUM_BINS && p.Valid() && AreMcus(p, ms)
    modifies enc, enc.e, enc.e.bins
    ensures IsScan(enc.e.t, p, ms, ResetBins(p, old(enc.e.bins[..]), |p.comps|), scan)
    ensures scan != [] && enc.e.out == old(enc.e.out) + BytesFrom(scan, 0)
    ensures enc.e.bins[..] == FinalBins(enc.e.t, p, ms, scan[|scan| - 1])
  {
    hide EntropyEncoder.Valid, Encoder.Valid, IsSegment, IsScan, FinalBins, ResetBins, BytesFrom, Scan.Valid, AreMcus;
    enc.StartPass(p, ms);
    for i := 0 to |ms|
      invariant enc.Valid() && enc.j == i && enc.p == p && enc.plan == ms && enc.start == old(enc.e.out)
      invariant enc.initial == ResetBins(p, old(enc.e.bins[..]), |p.comps|)
    {
      enc.EncodeMcu(ms[i]);
    }
    scan := enc.FinishPass();
  }
}

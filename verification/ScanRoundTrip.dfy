/** Scans through the encoder and the decoder, whole. */
module ScanRoundTrip {
  import opened ProbabilityTable
  import opened ByteStream
  import opened CodingInterval
  import opened ArithEncoder
  import opened ArithDecoder
  import opened CoefficientModel
  import opened Approximation
  import opened ScanModel
  import opened ScanEncoder
  import opened ScanDecoder

  // The MCUs of a scan lie at different places of the coefficient memory

  predicate AllPlaces(p: Scan, where: seq<seq<nat>>, size: nat) {
    && (forall j :: 0 <= j < |where| ==> |where[j]| == |p.membership| && Places(where[j], size))
    && (forall i, j :: 0 <= i < j < |where| ==> Apart(where[i], where[j]))
  }

  predicate Apart(v: seq<nat>, w: seq<nat>) {
    forall i, j :: 0 <= i < |v| && 0 <= j < |w| ==> v[i] != w[j]
  }

  /** An index of the coefficient memory that a scan does not touch in the first n MCUs. */
  predicate Beside(p: Scan, x: int, where: seq<seq<nat>>, n: nat)
    requires n <= |where|
  {
    forall j :: 0 <= j < n ==> Outside(p, x, where[j], |where[j]|)
  }

  predicate RestUntouched(p: Scan, was: seq<int>, mem: seq<int>, where: seq<seq<nat>>, n: nat)
    requires n <= |where| && |was| == |mem|
  {
    forall x :: 0 <= x < |mem| && Beside(p, x, where, n) ==> mem[x] == was[x]
  }

  /** In the first n MCUs, every block that showed its coefficients down to the prior bit position now shows them
      down to that of the scan. */
  predicate ScanAdvanced(p: Scan, was: seq<int>, mem: seq<int>, where: seq<seq<nat>>, ms: seq<Mcu>, n: nat)
    requires p.Valid() && |was| == |mem| && AllPlaces(p, where, |mem|) && AreMcus(p, ms) && n <= |where| == |ms|
  {
    forall j :: 0 <= j < n ==> AllAdvanced(p, was, mem, where[j], ms[j], |where[j]|)
  }

  /** What a refinement scan of AC coefficients relies on. */
  predicate ScanShown(p: Scan, mem: seq<int>, where: seq<seq<nat>>, ms: seq<Mcu>)
    requires p.Valid() && AllPlaces(p, where, |mem|) && AreMcus(p, ms) && |where| == |ms|
  {
    forall j :: 0 <= j < |where| ==> AllShown(p, mem, where[j], ms[j])
  }

  lemma {:induction false} OtherMcus(p: Scan, x: int, where: seq<seq<nat>>, n: nat, j: nat, i: nat, size: nat)
    requires p.Valid() && AllPlaces(p, where, size) && n <= j < |where| && i < |where[j]|
    requires 64 * where[j][i] <= x < 64 * where[j][i] + 64
    ensures Beside(p, x, where, n)
  {
    forall m | 0 <= m < n ensures Outside(p, x, where[m], |where[m]|) {
      assert Apart(where[m], where[j]);
      forall q | 0 <= q < |where[m]| ensures !InBand(x, 64 * where[m][q], p.order, p.ss, p.se) {
        assert where[m][q] != where[j][i];
      }
    }
  }

  lemma {:induction false} NextMcuUntouched(p: Scan, was: seq<int>, mid: seq<int>, where: seq<seq<nat>>, n: nat)
    requires p.Valid() && |was| == |mid| && AllPlaces(p, where, |mid|) && n < |where|
    requires RestUntouched(p, was, mid, where, n)
    ensures forall i, x :: 0 <= i < |where[n]| && 64 * where[n][i] <= x < 64 * where[n][i] + 64 ==> mid[x] == was[x]
  {
    forall i, x | 0 <= i < |where[n]| && 64 * where[n][i] <= x < 64 * where[n][i] + 64 ensures mid[x] == was[x] {
      OtherMcus(p, x, where, n, n, i, |mid|);
    }
  }

  lemma {:induction false} StillShown(p: Scan, was: seq<int>, mid: seq<int>, where: seq<nat>, m: Mcu)
    requires p.Valid() && |was| == |mid| && Places(where, |mid|) && |where| == |m| && AllShown(p, was, where, m)
    requires forall i, x :: 0 <= i < |where| && 64 * where[i] <= x < 64 * where[i] + 64 ==> mid[x] == was[x]
    ensures AllShown(p, mid, where, m)
  {
    forall i | 0 <= i < |where| ensures Shows(mid, 64 * where[i], p.order, m[i], p.ss, p.se, Prior(p)) {
      assert Shows(was, 64 * where[i], p.order, m[i], p.ss, p.se, Prior(p));
    }
  }

  lemma {:induction false} OneMoreMcu(p: Scan, was: seq<int>, mid: seq<int>, mem: seq<int>, where: seq<seq<nat>>,
                                      n: nat)
    requires p.Valid() && |was| == |mid| == |mem| && AllPlaces(p, where, |mem|) && n < |where|
    requires RestUntouched(p, was, mid, where, n) && Untouched(p, mid, mem, where[n], |where[n]|)
    ensures RestUntouched(p, was, mem, where, n + 1)
  {
  }

  /** Decoding an MCU leaves the others as they are. */
  lemma {:induction false} OtherMcuUntouched(p: Scan, mid: seq<int>, mem: seq<int>, where: seq<seq<nat>>, j: nat,
                                             n: nat)
    requires p.Valid() && |mid| == |mem| && AllPlaces(p, where, |mem|) && j < n < |where|
    requires Untouched(p, mid, mem, where[n], |where[n]|)
    ensures forall i, x :: 0 <= i < |where[j]| && 64 * where[j][i] <= x < 64 * where[j][i] + 64 ==> mem[x] == mid[x]
  {
    forall i, x | 0 <= i < |where[j]| && 64 * where[j][i] <= x < 64 * where[j][i] + 64 ensures mem[x] == mid[x] {
      assert Apart(where[j], where[n]);
      forall q | 0 <= q < |where[n]| ensures !InBand(x, 64 * where[n][q], p.order, p.ss, p.se) {
        assert where[j][i] != where[n][q];
      }
    }
  }

  /** Changes elsewhere do not matter to a block that has advanced. */
  lemma {:induction false} AdvancedElsewhere(p: Scan, was: seq<int>, was2: seq<int>, mem: seq<int>, mem2: seq<int>,
                                             where: seq<nat>, m: Mcu)
    requires p.Valid() && |was| == |was2| == |mem| == |mem2| && Places(where, |mem|) && |where| == |m|
    requires AllAdvanced(p, was, mem, where, m, |where|)
    requires forall i, x :: 0 <= i < |where| && 64 * where[i] <= x < 64 * where[i] + 64
                            ==> was[x] == was2[x] && mem[x] == mem2[x]
    ensures AllAdvanced(p, was2, mem2, where, m, |where|)
  {
    forall i | 0 <= i < |where| ensures Advanced(p, was2, mem2, 64 * where[i], m[i]) {
      assert Advanced(p, was, mem, 64 * where[i], m[i]);
    }
  }

  lemma {:induction false} OneMoreMcuAdvanced(p: Scan, was: seq<int>, mid: seq<int>, mem: seq<int>,
                                              where: seq<seq<nat>>, ms: seq<Mcu>, n: nat)
    requires p.Valid() && |was| == |mid| == |mem| && AllPlaces(p, where, |mem|) && AreMcus(p, ms) && n < |where| == |ms|
    requires RestUntouched(p, was, mid, where, n) && Untouched(p, mid, mem, where[n], |where[n]|)
    requires ScanAdvanced(p, was, mid, where, ms, n) && AllAdvanced(p, mid, mem, where[n], ms[n], |where[n]|)
    ensures ScanAdvanced(p, was, mem, where, ms, n + 1)
  {
    hide AllAdvanced, RestUntouched, Untouched, Places, AreBlocks, Scan.Valid, Apart;
    forall j | 0 <= j < n + 1 ensures AllAdvanced(p, was, mem, where[j], ms[j], |where[j]|) {
      if j < n {
        OtherMcuUntouched(p, mid, mem, where, j, n);
        AdvancedElsewhere(p, was, was, mid, mem, where[j], ms[j]);
      } else {
        NextMcuUntouched(p, was, mid, where, n);
        AdvancedElsewhere(p, mid, was, mem, mem, where[n], ms[n]);
      }
    }
  }

  /** The input is the data of this scan, coded from the bins that the decoder has, and a marker. */
  ghost predicate Holds(input: seq<byte>, t: AriTable, p: Scan, plan: seq<Mcu>, bins: seq<Bin>, segs: seq<Segment>,
                        tail: Upcoming)
    requires p.Valid() && AreMcus(p, plan)
  {
    && IsScan(t, p, plan, ResetBins(p, bins, |p.comps|), segs)
    && input == BytesFrom(segs, 0) + [0xFF, tail.marker] + tail.rest && tail.marker != 0 && tail.marker != 0xFF
  }

  /** The entropy decoder's part in reading a scan, MCU by MCU; clean tells whether no warning was issued. Whatever
      the input, only coefficients of the scan's band are written, and of the statistics only those of the scan's
      tables. If the input holds a scan, then it is decoded without a warning exactly if its DC differences are at
      most 2^15 in magnitude, and then the coefficients have been recovered down to the bit position of the scan and
      the bins are the encoder's. */
  method DecodeScan(dec: EntropyDecoder, p: Scan, mem: array<int>, where: seq<seq<nat>>, ghost plan: seq<Mcu>,
                    ghost segs: seq<Segment>, ghost tail: Upcoming) returns (clean: bool)
    requires dec.d.bins.Length == NUM_BINS && dec.d.unreadMarker == 0 && p.Valid() && AllPlaces(p, where, mem.Length)
    modifies dec, dec.d, dec.d.bins, mem
    ensures RestUntouched(p, old(mem[..]), mem[..], where, |where|)
    ensures Used(p, ResetBins(p, old(dec.d.bins[..]), |p.comps|), dec.d.bins[..])
    ensures AreMcus(p, plan) && |plan| == |where|
            && Holds(old(dec.d.input), dec.d.t, p, plan, old(dec.d.bins[..]), segs, tail)
            && (p.RefinesAc() ==> ScanShown(p, old(mem[..]), where, plan)) ==>
              && (clean <==> ScanDecodable(p, plan, 0))
              && (clean ==>
                    && ScanAdvanced(p, old(mem[..]), mem[..], where, plan, |where|)
                    && dec.d.bins[..] == FinalBins(dec.d.t, p, plan, segs[|segs| - 1]) && dec.d.Ahead() == tail)
  {
    hide Chain, IsSegment, BytesFrom, ResetBins, FinalBins, AreBlocks, Scan.Valid, ScanDecodable, AllAdvanced, AllShown;
    hide Used, Untouched, Linked, Decoder.Tracks, Decoder.Ahead, RunDecisions, EntropyDecoder.Counted,
         EntropyDecoder.Decodable;
    ghost var on := AreMcus(p, plan) && |plan| == |where|
                    && Holds(dec.d.input, dec.d.t, p, plan, dec.d.bins[..], segs, tail)
                    && (p.RefinesAc() ==> ScanShown(p, mem[..], where, plan));
    dec.StartPass(p, plan, segs, tail);
    ghost var reset := dec.d.bins[..];
    NoneUsed(p, reset);
    clean := true;
    ghost var g: nat := 0;
    for j := 0 to |where|
      invariant dec.Valid() && dec.p == p && RestUntouched(p, old(mem[..]), mem[..], where, j)
      invariant Used(p, reset, dec.d.bins[..])
      invariant on && clean ==> && g < |segs| && dec.OnTrack(plan, segs, g, j, tail) && dec.Counted(segs, g, j)
                                && (dec.Decodable(plan, j, segs[g].to) <==> ScanDecodable(p, plan, 0))
                                && ScanAdvanced(p, old(mem[..]), mem[..], where, plan, j)
      invariant on && !clean ==> !ScanDecodable(p, plan, 0)
    {
      ghost var mid, bins := mem[..], dec.d.bins[..];
      ResetAgain(p, old(dec.d.bins[..]), bins);
      if on && p.RefinesAc() {
        NextMcuUntouched(p, old(mem[..]), mid, where, j);
        StillShown(p, old(mem[..]), mid, where[j], plan[j]);
      }
      ghost var due := dec.RestartDue();
      g := dec.DecodeMcu(mem, where[j], plan, segs, g, j, tail);
      UsedMore(p, reset, if due then ResetBins(p, bins, |p.comps|) else bins, dec.d.bins[..]);
      OneMoreMcu(p, old(mem[..]), mid, mem[..], where, j);
      clean := clean && dec.d.ct != -1;
      if on && clean {
        OneMoreMcuAdvanced(p, old(mem[..]), mid, mem[..], where, plan, j);
      }
    }
    if on && clean {
      dec.Ends(plan, segs, g, tail);
    }
  }
}

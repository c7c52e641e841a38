/** A whole script: every coefficient of the image through its scans. */
module MultiScan {
  import opened ProbabilityTable
  import opened ByteStream
  import opened CodingInterval
  import opened ArithEncoder
  import opened ArithDecoder
  import opened CoefficientModel
  import opened Approximation
  import opened ScanModel
  import opened ScanEncoder
  import opened ScanDecoder
  import opened ScanRoundTrip
  import opened ScanScript
  import opened SimpleProgression

  /** The quantized coefficients of all blocks, the component of each block, and the blocks that belong to the image;
      the others are dummy blocks, which complete the MCUs of interleaved scans. */
  datatype Image = Image(blocks: seq<Block>, comp: seq<nat>, inside: set<nat>, order: seq<nat>, limSe: nat) {
    predicate Valid() {
      && |comp| == |blocks| && AreBlocks(blocks) && GoodOrder(order) && |order| == limSe + 1
      && forall n :: n in inside ==> n < |blocks|
    }

    function Size(): nat {
      64 * |blocks|
    }
  }

  /** A scan with the MCUs that it transmits, each given by the numbers of its blocks. */
  datatype Pass = Pass(p: Scan, where: seq<seq<nat>>)

  predicate Listed(where: seq<seq<nat>>, n: nat) {
    exists j, b :: 0 <= j < |where| && 0 <= b < |where[j]| && where[j][b] == n
  }

  /** The blocks of the components in the scan, each once. Scans of AC coefficients, which are not interleaved, have no
      dummy blocks. */
  predicate Transmits(img: Image, s: ScanInfo, pass: Pass) {
    var p := pass.p;
    && p.Valid() && p.ss == s.ss && p.se == s.se && p.ah == s.ah && p.al == s.al
    && p.order == img.order && p.limSe == img.limSe && |p.comps| == |s.comps|
    && AllPlaces(p, pass.where, img.Size())
    && (forall j, b :: 0 <= j < |pass.where| && 0 <= b < |pass.where[j]| ==> InScan(img, s, pass, j, b))
    && (forall n :: n in img.inside && n < |img.comp| && img.comp[n] in s.comps ==> Listed(pass.where, n))
  }

  predicate InScan(img: Image, s: ScanInfo, pass: Pass, j: nat, b: nat)
    requires j < |pass.where| && b < |pass.where[j]|
  {
    var n := pass.where[j][b];
    && n < |img.comp| && b < |pass.p.membership| && pass.p.membership[b] < |s.comps|
    && img.comp[n] == s.comps[pass.p.membership[b]]
    && (s.ss > 0 ==> n in img.inside)
  }

  function McuOf(img: Image, places: seq<nat>): (m: Mcu)
    requires img.Valid() && Places(places, img.Size())
    ensures |m| == |places| && AreBlocks(m) && forall b :: 0 <= b < |m| ==> m[b] == img.blocks[places[b]]
  {
    seq(|places|, b requires 0 <= b < |places| => img.blocks[places[b]])
  }

  function McusOf(img: Image, p: Scan, where: seq<seq<nat>>): (ms: seq<Mcu>)
    requires img.Valid() && AllPlaces(p, where, img.Size())
    ensures |ms| == |where| && AreMcus(p, ms) && forall j :: 0 <= j < |ms| ==> ms[j] == McuOf(img, where[j])
  {
    seq(|where|, j requires 0 <= j < |where| => McuOf(img, where[j]))
  }

  /** Before each scan, the coefficients in it have been sent down to the bit above those that it sends. */
  ghost predicate Consistent(scans: seq<ScanInfo>) {
    forall i, c, k :: 0 <= i < |scans| && Covers(scans[i], c, k) ==> LastBit(scans, i, c, k) == Before(scans[i])
  }

  function Before(s: ScanInfo): int {
    if s.ah == 0 then -1 else s.ah
  }

  lemma {:induction false} ProgressiveConsistent(scans: seq<ScanInfo>, n: nat)
    requires LegalUpTo(scans, |scans|, n, true)
    ensures Consistent(scans)
  {
    forall i | 0 <= i < |scans|
      ensures forall c, k :: Covers(scans[i], c, k) ==> LastBit(scans, i, c, k) == Before(scans[i]) {
      NoMixture(scans, i, n);
    }
  }

  lemma {:induction false} SequentialWhole(scans: seq<ScanInfo>, i: nat, n: nat, c: int, k: int)
    requires i <= |scans| && LegalUpTo(scans, i, n, false) && 0 <= k < DCTSIZE2
    ensures LastBit(scans, i, c, k) == LastBit(scans, i, c, 0) && -1 <= LastBit(scans, i, c, k) <= 0
  {
    if i > 0 {
      assert LegalScan(scans, i - 1, n, false);
      SequentialWhole(scans, i - 1, n, c, k);
    }
  }

  lemma {:induction false} SequentialConsistent(scans: seq<ScanInfo>, n: nat)
    requires LegalUpTo(scans, |scans|, n, false)
    ensures Consistent(scans)
  {
    forall i, c, k | 0 <= i < |scans| && Covers(scans[i], c, k) ensures LastBit(scans, i, c, k) == Before(scans[i]) {
      assert LegalScan(scans, i, n, false);
      SequentialWhole(scans, i, n, c, k);
    }
  }

  /** What the first i scans have sent of coefficient k of block n. */
  function Sent(img: Image, scans: seq<ScanInfo>, i: nat, n: nat, k: nat): int
    requires img.Valid() && i <= |scans| && n < |img.blocks| && k <= img.limSe
  {
    var bit := LastBit(scans, i, img.comp[n], k);
    if bit < 0 then 0 else Level(img.blocks[n][img.order[k]], k, bit)
  }

  predicate Recovered(img: Image, scans: seq<ScanInfo>, i: nat, mem: seq<int>)
    requires img.Valid() && i <= |scans| && |mem| == img.Size()
  {
    forall n, k :: n in img.inside && 0 <= k <= img.limSe ==> mem[64 * n + img.order[k]] == Sent(img, scans, i, n, k)
  }

  lemma {:induction false} ShownBefore(img: Image, scans: seq<ScanInfo>, i: nat, mem: seq<int>, n: nat)
    requires img.Valid() && i < |scans| && |mem| == img.Size() && Recovered(img, scans, i, mem) && Consistent(scans)
    requires 0 <= scans[i].ss <= scans[i].se <= img.limSe && n in img.inside && img.comp[n] in scans[i].comps
    ensures Shows(mem, 64 * n, img.order, img.blocks[n], scans[i].ss, scans[i].se, Before(scans[i]))
  {
    var s := scans[i];
    forall k | s.ss <= k <= s.se
      ensures mem[64 * n + img.order[k]]
           == if Before(s) < 0 then 0 else Level(img.blocks[n][img.order[k]], k, Before(s))
    {
      assert Covers(s, img.comp[n], k);
      assert mem[64 * n + img.order[k]] == Sent(img, scans, i, n, k);
    }
  }

  /** What refinement relies on holds for every MCU of an AC scan. */
  lemma {:induction false} ScanShownBefore(img: Image, scans: seq<ScanInfo>, i: nat, pass: Pass, mem: seq<int>)
    requires img.Valid() && i < |scans| && |mem| == img.Size() && Recovered(img, scans, i, mem) && Consistent(scans)
    requires Transmits(img, scans[i], pass) && pass.p.RefinesAc()
    ensures ScanShown(pass.p, mem, pass.where, McusOf(img, pass.p, pass.where))
  {
    var p, where := pass.p, pass.where;
    var ms := McusOf(img, p, where);
    forall j | 0 <= j < |where| ensures AllShown(p, mem, where[j], ms[j]) {
      forall b | 0 <= b < |where[j]| ensures Shows(mem, 64 * where[j][b], p.order, ms[j][b], p.ss, p.se, Prior(p)) {
        assert InScan(img, scans[i], pass, j, b);
        ShownBefore(img, scans, i, mem, where[j][b]);
      }
    }
  }

  /** A block that the scan transmits. */
  lemma {:induction false} BlockAfter(img: Image, scans: seq<ScanInfo>, i: nat, pass: Pass, was: seq<int>,
                                      mem: seq<int>, n: nat)
    requires img.Valid() && i < |scans| && |was| == |mem| == img.Size()
    requires Recovered(img, scans, i, was) && Consistent(scans) && Transmits(img, scans[i], pass)
    requires ScanAdvanced(pass.p, was, mem, pass.where, McusOf(img, pass.p, pass.where), |pass.where|)
    requires n in img.inside && img.comp[n] in scans[i].comps
    ensures Shows(mem, 64 * n, img.order, img.blocks[n], pass.p.ss, pass.p.se, pass.p.al)
  {
    var p, where := pass.p, pass.where;
    var ms := McusOf(img, p, where);
    ShownBefore(img, scans, i, was, n);
    assert Listed(where, n);
    var j, b :| 0 <= j < |where| && 0 <= b < |where[j]| && where[j][b] == n;
    assert AllAdvanced(p, was, mem, where[j], ms[j], |where[j]|);
    assert Advanced(p, was, mem, 64 * where[j][b], ms[j][b]);
  }

  /** A coefficient that the scan does not transmit. */
  lemma {:induction false} OutsideScan(img: Image, s: ScanInfo, pass: Pass, was: seq<int>, mem: seq<int>, n: nat,
                                       k: nat)
    requires img.Valid() && |was| == |mem| == img.Size() && Transmits(img, s, pass)
    requires RestUntouched(pass.p, was, mem, pass.where, |pass.where|)
    requires n in img.inside && k <= img.limSe && !Covers(s, img.comp[n], k)
    ensures mem[64 * n + img.order[k]] == was[64 * n + img.order[k]]
  {
    var p, where := pass.p, pass.where;
    var x := 64 * n + img.order[k];
    forall j | 0 <= j < |where| ensures Outside(p, x, where[j], |where[j]|) {
      forall b | 0 <= b < |where[j]| ensures !InBand(x, 64 * where[j][b], p.order, p.ss, p.se) {
        assert InScan(img, s, pass, j, b);
      }
    }
  }

  /** Every scan brings the image to the next bit positions. */
  lemma {:induction false} AfterScan(img: Image, scans: seq<ScanInfo>, i: nat, pass: Pass, was: seq<int>, mem: seq<int>)
    requires img.Valid() && i < |scans| && |was| == |mem| == img.Size()
    requires Recovered(img, scans, i, was) && Consistent(scans) && Transmits(img, scans[i], pass)
    requires ScanAdvanced(pass.p, was, mem, pass.where, McusOf(img, pass.p, pass.where), |pass.where|)
    requires RestUntouched(pass.p, was, mem, pass.where, |pass.where|)
    ensures Recovered(img, scans, i + 1, mem)
  {
    hide Shows, ScanAdvanced, RestUntouched, Consistent, Transmits, Level;
    forall n, k | n in img.inside && 0 <= k <= img.limSe
      ensures mem[64 * n + img.order[k]] == Sent(img, scans, i + 1, n, k)
    {
      assert was[64 * n + img.order[k]] == Sent(img, scans, i, n, k);
      if Covers(scans[i], img.comp[n], k) {
        BlockAfter(img, scans, i, pass, was, mem, n);
        CoveredAfter(img, scans[i], pass, mem, n, k);
      } else {
        OutsideScan(img, scans[i], pass, was, mem, n, k);
      }
    }
  }

  lemma {:induction false} CoveredAfter(img: Image, s: ScanInfo, pass: Pass, mem: seq<int>, n: nat, k: nat)
    requires img.Valid() && |mem| == img.Size() && Transmits(img, s, pass) && n in img.inside && k <= img.limSe
    requires Covers(s, img.comp[n], k) && Shows(mem, 64 * n, img.order, img.blocks[n], pass.p.ss, pass.p.se, pass.p.al)
    ensures s.al >= 0 && mem[64 * n + img.order[k]] == Level(img.blocks[n][img.order[k]], k, s.al)
  {
  }

  /** Differences of DC coefficients that have lost a bit are always small enough. */
  lemma {:induction false} DcBits(x: int, n: nat)
    requires IsJcoef(x)
    ensures n >= 1 ==> -0x4000 <= Shr(x, n) < 0x4000
  {
    if n > 1 {
      DcBits(x, n - 1);
    }
  }

  predicate SmallPrediction(pr: Prediction) {
    forall i :: 0 <= i < |pr.last| ==> -0x4000 <= pr.last[i] < 0x4000
  }

  lemma {:induction false} McuSmall(p: Scan, pr: Prediction, bs: seq<Block>, i: nat)
    requires p.Valid() && pr.Fits(p) && AreBlocks(bs) && i <= |bs| == |p.membership|
    requires p.CodesDc() ==> p.al >= 1 && SmallPrediction(pr)
    ensures McuDecodable(p, pr, bs, i)
    ensures p.CodesDc() ==> SmallPrediction(McuPrediction(p, pr, bs, i))
    decreases |bs| - i
  {
    if i < |bs| {
      DcBits(bs[i][0], p.al);
      McuSmall(p, NextPrediction(p, pr, p.membership[i], bs[i]), bs, i + 1);
    }
  }

  lemma {:induction false} RunSmall(p: Scan, pr: Prediction, ms: seq<Mcu>, j: nat, n: nat)
    requires p.Valid() && pr.Fits(p) && AreMcus(p, ms) && j <= n <= |ms|
    requires p.CodesDc() ==> p.al >= 1 && SmallPrediction(pr)
    ensures RunDecodable(p, pr, ms, j, n)
    decreases n - j
  {
    if j < n {
      McuSmall(p, pr, ms[j], 0);
      RunSmall(p, McuPrediction(p, pr, ms[j], 0), ms, j + 1, n);
    }
  }

  lemma {:induction false} ScanSmall(p: Scan, ms: seq<Mcu>, from: nat)
    requires p.Valid() && AreMcus(p, ms) && (p.CodesDc() ==> p.al >= 1)
    ensures ScanDecodable(p, ms, from)
    decreases |ms| - from
  {
    if from < |ms| {
      NoPredictionFits(p);
      RunSmall(p, NoPrediction(|p.comps|), ms, from, SegmentEnd(p, from, |ms|));
      ScanSmall(p, ms, SegmentEnd(p, from, |ms|));
    }
  }

  /** The passes of a script. */
  predicate PassesFor(img: Image, scans: seq<ScanInfo>, passes: seq<Pass>)
    requires img.Valid()
  {
    |passes| == |scans| && forall i :: 0 <= i < |scans| ==> Transmits(img, scans[i], passes[i])
  }

  predicate PassDecodable(img: Image, pass: Pass)
    requires img.Valid() && pass.p.Valid() && AllPlaces(pass.p, pass.where, img.Size())
  {
    ScanDecodable(pass.p, McusOf(img, pass.p, pass.where), 0)
  }

  /** Encode a scan and decode what has been written, up to the marker that follows. */
  method SendScan(enc: EntropyEncoder, dec: EntropyDecoder, img: Image, pass: Pass, mem: array<int>, marker: byte,
                  behind: seq<byte>) returns (clean: bool)
    requires enc.e.bins.Length == dec.d.bins.Length == NUM_BINS && enc.e.t == dec.d.t
    requires {enc, enc.e, enc.e.bins} !! {dec, dec.d, dec.d.bins} && marker != 0 && marker != 0xFF
    requires img.Valid() && pass.p.Valid() && AllPlaces(pass.p, pass.where, img.Size()) && mem.Length == img.Size()
    requires enc.e.bins[..] == dec.d.bins[..]
    requires pass.p.RefinesAc() ==> ScanShown(pass.p, mem[..], pass.where, McusOf(img, pass.p, pass.where))
    modifies enc, enc.e, enc.e.bins, dec, dec.d, dec.d.bins, mem
    ensures clean <==> PassDecodable(img, pass)
    ensures RestUntouched(pass.p, old(mem[..]), mem[..], pass.where, |pass.where|)
    ensures clean ==>
              && ScanAdvanced(pass.p, old(mem[..]), mem[..], pass.where, McusOf(img, pass.p, pass.where), |pass.where|)
              && enc.e.bins[..] == dec.d.bins[..]
  {
    hide AllPlaces, ScanShown, ScanAdvanced, RestUntouched, ScanDecodable, IsScan, BytesFrom, FinalBins, ResetBins,
         Scan.Valid;
    hide AreMcus, McusOf, Image.Valid;
    ghost var ms := McusOf(img, pass.p, pass.where);
    var start := |enc.e.out|;
    ghost var bins := enc.e.bins[..];
    ghost var segs := EncodeScan(enc, pass.p, McusOf(img, pass.p, pass.where));
    dec.d.input := enc.e.out[start..] + [0xFF, marker] + behind;
    dec.d.unreadMarker := 0;
    assert enc.e.out[start..] == BytesFrom(segs, 0);
    assert Holds(dec.d.input, dec.d.t, pass.p, ms, bins, segs, Upcoming(marker, behind));
    clean := DecodeScan(dec, pass.p, mem, pass.where, ms, segs, Upcoming(marker, behind));
  }

  lemma {:induction false} StartsEmpty(img: Image, scans: seq<ScanInfo>, mem: seq<int>)
    requires img.Valid() && |mem| == img.Size() && forall i :: 0 <= i < |mem| ==> mem[i] == 0
    ensures Recovered(img, scans, 0, mem)
  {
  }

  /** A whole script. No warning is issued exactly if the DC differences of every scan are small enough; then every
      coefficient of the image has been recovered down to the last bit position at which the script sends it. */
  method SendScript(enc: EntropyEncoder, dec: EntropyDecoder, img: Image, scans: seq<ScanInfo>, passes: seq<Pass>,
                    mem: array<int>, marker: byte, behind: seq<byte>) returns (clean: bool)
    requires enc.e.bins.Length == dec.d.bins.Length == NUM_BINS && enc.e.t == dec.d.t
    requires {enc, enc.e, enc.e.bins} !! {dec, dec.d, dec.d.bins} && marker != 0 && marker != 0xFF
    requires img.Valid() && Consistent(scans) && PassesFor(img, scans, passes) && mem.Length == img.Size()
    requires enc.e.bins[..] == dec.d.bins[..] && forall i :: 0 <= i < mem.Length ==> mem[i] == 0
    modifies enc, enc.e, enc.e.bins, dec, dec.d, dec.d.bins, mem
    ensures clean <==> forall i :: 0 <= i < |passes| ==> PassDecodable(img, passes[i])
    ensures clean ==> Recovered(img, scans, |scans|, mem[..])
  {
    hide AllPlaces, ScanShown, ScanAdvanced, RestUntouched, PassDecodable, Recovered, Consistent, Scan.Valid, McusOf;
    StartsEmpty(img, scans, mem[..]);
    clean := true;
    var i := 0;
    while i < |scans| && clean
      invariant 0 <= i <= |scans|
      invariant clean ==> enc.e.bins[..] == dec.d.bins[..] && Recovered(img, scans, i, mem[..])
      invariant if clean then forall q :: 0 <= q < i ==> PassDecodable(img, passes[q])
                else i > 0 && !PassDecodable(img, passes[i - 1])
    {
      ghost var was := mem[..];
      assert Transmits(img, scans[i], passes[i]);
      if passes[i].p.RefinesAc() {
        ScanShownBefore(img, scans, i, passes[i], was);
      }
      clean := SendScan(enc, dec, img, passes[i], mem, marker, behind);
      if clean {
        AfterScan(img, scans, i, passes[i], was, mem[..]);
      }
      i := i + 1;
    }
  }

  /** A script that ends at bit 0 for every coefficient is lossless. */
  lemma {:induction false} Lossless(img: Image, scans: seq<ScanInfo>, mem: seq<int>)
    requires img.Valid() && |mem| == img.Size() && Recovered(img, scans, |scans|, mem)
    requires forall n, k :: n in img.inside && 0 <= k <= img.limSe ==> FinalBit(scans, img.comp[n], k) == 0
    ensures forall n, k :: n in img.inside && 0 <= k <= img.limSe ==>
              mem[64 * n + img.order[k]] == img.blocks[n][img.order[k]]
  {
    forall n, k | n in img.inside && 0 <= k <= img.limSe
      ensures mem[64 * n + img.order[k]] == img.blocks[n][img.order[k]]
    {
      assert FinalBit(scans, img.comp[n], k) == 0;
      assert mem[64 * n + img.order[k]] == Sent(img, scans, |scans|, n, k);
      NothingMissing(img.blocks[n][img.order[k]], k);
    }
  }

  /** No first DC scan sends bit 0. */
  predicate LeavesDcBit(scans: seq<ScanInfo>) {
    forall i :: 0 <= i < |scans| && scans[i].ss == 0 && scans[i].ah == 0 ==> scans[i].al >= 1
  }

  lemma {:induction false} ReducedLeaves(scans: seq<ScanInfo>, limSe: nat)
    requires LeavesDcBit(scans)
    ensures LeavesDcBit(Reduced(scans, limSe))
  {
    if scans != [] {
      ReducedLeaves(scans[..|scans| - 1], limSe);
    }
  }

  lemma {:induction false} SimpleLeaves(n: nat, ycc: bool)
    ensures LeavesDcBit(SimpleScript(n, ycc))
  {
    assert forall m :: LeavesDcBit(DcScans(m, 0, 1)) && LeavesDcBit(DcScans(m, 1, 0));
  }

  /** With the recommended progression, every image of 16-bit coefficients survives unchanged, without a warning. */
  method SendRecommended(enc: EntropyEncoder, dec: EntropyDecoder, img: Image, n: nat, ycc: bool, passes: seq<Pass>,
                         mem: array<int>, marker: byte, behind: seq<byte>) returns (clean: bool)
    requires enc.e.bins.Length == dec.d.bins.Length == NUM_BINS && enc.e.t == dec.d.t
    requires {enc, enc.e, enc.e.bins} !! {dec, dec.d, dec.d.bins} && marker != 0 && marker != 0xFF
    requires img.Valid() && mem.Length == img.Size() && forall q :: 0 <= q < |img.comp| ==> img.comp[q] < n
    requires n > 0 && PassesFor(img, Reduced(SimpleScript(n, ycc), img.limSe), passes)
    requires enc.e.bins[..] == dec.d.bins[..] && forall i :: 0 <= i < mem.Length ==> mem[i] == 0
    modifies enc, enc.e, enc.e.bins, dec, dec.d, dec.d.bins, mem
    ensures clean
    ensures forall q, k :: q in img.inside && 0 <= k <= img.limSe ==>
              mem[64 * q + img.order[k]] == img.blocks[q][img.order[k]]
  {
    hide SimpleScript, Reduced, Legal, LegalUpTo;
    var scans := Reduced(SimpleScript(n, ycc), img.limSe);
    RecommendedScans(n, ycc, img.limSe);
    SimpleLeaves(n, ycc);
    ReducedLeaves(SimpleScript(n, ycc), img.limSe);
    forall i | 0 <= i < |passes| ensures PassDecodable(img, passes[i]) {
      assert Transmits(img, scans[i], passes[i]);
      ScanSmall(passes[i].p, McusOf(img, passes[i].p, passes[i].where), 0);
    }
    clean := SendScript(enc, dec, img, scans, passes, mem, marker, behind);
    Lossless(img, scans, mem[..]);
  }

  lemma {:induction false} RecommendedScans(n: nat, ycc: bool, limSe: nat)
    requires n > 0 && limSe < 64
    ensures var r := Reduced(SimpleScript(n, ycc), limSe);
            Consistent(r) && forall c, k :: 0 <= c < n && 0 <= k <= limSe ==> FinalBit(r, c, k) == 0
  {
    var r := Reduced(SimpleScript(n, ycc), limSe);
    SimpleLegal(n, ycc);
    ReducedLegal(SimpleScript(n, ycc), n, limSe);
    ProgressiveConsistent(r, n);
  }
}

/** The recommended progressive script (jcparam.c). */
module SimpleProgression {
  import opened ScanScript

  function OneScan(c: int, ss: int, se: int, ah: int, al: int): ScanInfo {
    ScanInfo([c], ss, se, ah, al)
  }

  /** One scan for each of the first m components. */
  function Each(m: nat, ss: int, se: int, ah: int, al: int): (r: seq<ScanInfo>)
    ensures |r| == m && forall c :: 0 <= c < m ==> r[c] == OneScan(c, ss, se, ah, al)
  {
    seq(m, c => OneScan(c, ss, se, ah, al))
  }

  function Iota(n: nat): (r: seq<int>)
    ensures |r| == n && forall i :: 0 <= i < n ==> r[i] == i
  {
    seq(n, i => i)
  }

  /** An interleaved DC scan if possible. */
  function DcScans(n: nat, ah: int, al: int): seq<ScanInfo> {
    if n <= MAX_COMPS_IN_SCAN then [ScanInfo(Iota(n), 0, 0, ah, al)] else Each(n, 0, 0, ah, al)
  }

  function YccScript(): seq<ScanInfo> {
    DcScans(3, 0, 1)
    + [OneScan(0, 1, 5, 0, 2), OneScan(2, 1, 63, 0, 1), OneScan(1, 1, 63, 0, 1), OneScan(0, 6, 63, 0, 2),
       OneScan(0, 1, 63, 2, 1)]
    + DcScans(3, 1, 0)
    + [OneScan(2, 1, 63, 1, 0), OneScan(1, 1, 63, 1, 0), OneScan(0, 1, 63, 1, 0)]
  }

  function GeneralScript(n: nat): seq<ScanInfo> {
    DcScans(n, 0, 1) + Each(n, 1, 5, 0, 2) + Each(n, 6, 63, 0, 2) + Each(n, 1, 63, 2, 1) + DcScans(n, 1, 0)
    + Each(n, 1, 63, 1, 0)
  }

  function SimpleScript(n: nat, ycc: bool): seq<ScanInfo> {
    if n == 3 && ycc then YccScript() else GeneralScript(n)
  }

  method FillAScan(space: array<ScanInfo>, at: nat, ci: int, ss: int, se: int, ah: int, al: int) returns (next: nat)
    requires at < space.Length
    modifies space
    ensures next == at + 1 && space[..next] == old(space[..at]) + [OneScan(ci, ss, se, ah, al)]
  {
    space[at] := ScanInfo([ci], ss, se, ah, al);
    next := at + 1;
  }

  method FillScans(space: array<ScanInfo>, at: nat, ncomps: nat, ss: int, se: int, ah: int, al: int) returns (next: nat)
    requires at + ncomps <= space.Length
    modifies space
    ensures next == at + ncomps && space[..next] == old(space[..at]) + Each(ncomps, ss, se, ah, al)
  {
    next := at;
    for ci := 0 to ncomps
      invariant next == at + ci && space[..next] == old(space[..at]) + Each(ci, ss, se, ah, al)
    {
      next := FillAScan(space, next, ci, ss, se, ah, al);
      assert Each(ci + 1, ss, se, ah, al) == Each(ci, ss, se, ah, al) + [OneScan(ci, ss, se, ah, al)];
    }
  }

  method FillDcScans(space: array<ScanInfo>, at: nat, ncomps: nat, ah: int, al: int) returns (next: nat)
    requires at + |DcScans(ncomps, ah, al)| <= space.Length
    modifies space
    ensures next == at + |DcScans(ncomps, ah, al)| && space[..next] == old(space[..at]) + DcScans(ncomps, ah, al)
  {
    if ncomps <= MAX_COMPS_IN_SCAN {
      // Single interleaved DC scan
      var comps := [];
      for ci := 0 to ncomps
        invariant comps == Iota(ci)
      {
        comps := comps + [ci];
      }
      space[at] := ScanInfo(comps, 0, 0, ah, al);
      next := at + 1;
    } else {
      // Noninterleaved DC scan for each component
      next := FillScans(space, at, ncomps, 0, 0, ah, al);
    }
  }

  /** Custom script for YCC color images. */
  method FillYcc(space: array<ScanInfo>) returns (next: nat)
    requires 10 <= space.Length
    modifies space
    ensures next == 10 == |YccScript()| && space[..10] == YccScript()
  {
    assert |DcScans(3, 0, 1)| == |DcScans(3, 1, 0)| == 1;
    hide DcScans;
    next := FillDcScans(space, 0, 3, 0, 1);
    next := FillAScan(space, next, 0, 1, 5, 0, 2);
    next := FillAScan(space, next, 2, 1, 63, 0, 1);
    next := FillAScan(space, next, 1, 1, 63, 0, 1);
    next := FillAScan(space, next, 0, 6, 63, 0, 2);
    next := FillAScan(space, next, 0, 1, 63, 2, 1);
    next := FillDcScans(space, next, 3, 1, 0);
    next := FillAScan(space, next, 2, 1, 63, 1, 0);
    next := FillAScan(space, next, 1, 1, 63, 1, 0);
    next := FillAScan(space, next, 0, 1, 63, 1, 0);
  }

  /** All-purpose script for other color spaces. */
  method FillGeneral(space: array<ScanInfo>, ncomps: nat) returns (next: nat)
    requires |GeneralScript(ncomps)| <= space.Length
    modifies space
    ensures next == |GeneralScript(ncomps)| && space[..next] == GeneralScript(ncomps)
  {
    hide DcScans, Each;
    next := FillDcScans(space, 0, ncomps, 0, 1);
    next := FillScans(space, next, ncomps, 1, 5, 0, 2);
    next := FillScans(space, next, ncomps, 6, 63, 0, 2);
    next := FillScans(space, next, ncomps, 1, 63, 2, 1);
    next := FillDcScans(space, next, ncomps, 1, 0);
    next := FillScans(space, next, ncomps, 1, 63, 1, 0);
  }

  /** Create a recommended progressive-JPEG script: exactly as many entries are filled as space was figured for. The
      space of an earlier script is used again if it suffices. */
  method Simple(ncomps: nat, ycc: bool, space: array?<ScanInfo>) returns (script: array<ScanInfo>, nscans: nat)
    modifies space
    ensures nscans <= script.Length && script[..nscans] == SimpleScript(ncomps, ycc)
    ensures script == space || fresh(script)
  {
    if ncomps == 3 && ycc {
      nscans := 10;
    } else if ncomps > MAX_COMPS_IN_SCAN {
      nscans := 6 * ncomps;  // 2 DC + 4 AC scans per component
    } else {
      nscans := 2 + 4 * ncomps;  // 2 DC scans; 4 AC scans per component
    }
    if space == null || space.Length < nscans {
      script := new ScanInfo[if nscans > 10 then nscans else 10](i => ScanInfo([], 0, 0, 0, 0));
    } else {
      script := space;
    }
    var next: nat;
    if ncomps == 3 && ycc {
      next := FillYcc(script);
    } else {
      next := FillGeneral(script, ncomps);
    }
    assert next == nscans;
  }

  // The script is legal and sends every coefficient whole

  /** A scan of these coefficients may follow for each of the n components. */
  ghost predicate Prepared(scans: seq<ScanInfo>, n: nat, ss: int, se: int, ah: int, al: int) {
    && LegalUpTo(scans, |scans|, n, true)
    && 0 <= ss <= se < 64 && (ss == 0 ==> se == 0) && 0 <= ah <= 10 && 0 <= al <= 10
    && (forall c, k :: 0 <= c < n && ss <= k <= se ==>
          if ah == 0 then FinalBit(scans, c, k) < 0 else FinalBit(scans, c, k) == ah == al + 1)
    && (ss != 0 ==> forall c :: 0 <= c < n ==> FinalBit(scans, c, 0) >= 0)
  }

  /** Scans of one kind are appended for the first m components. */
  lemma {:induction false} AddEach(scans: seq<ScanInfo>, n: nat, m: nat, ss: int, se: int, ah: int, al: int)
    requires Prepared(scans, n, ss, se, ah, al) && m <= n
    ensures var r := scans + Each(m, ss, se, ah, al);
            && LegalUpTo(r, |r|, n, true)
            && forall c, k :: FinalBit(r, c, k) == if 0 <= c < m && ss <= k <= se then al else FinalBit(scans, c, k)
  {
    if m == 0 {
      assert scans + Each(0, ss, se, ah, al) == scans;
    } else {
      var r, s := scans + Each(m - 1, ss, se, ah, al), OneScan(m - 1, ss, se, ah, al);
      assert scans + Each(m, ss, se, ah, al) == r + [s];
      hide LegalUpTo, FinalBit, Each;
      AddEach(scans, n, m - 1, ss, se, ah, al);
      assert MayFollow(r, s, n);
      AddOne(r, s, n);
    }
  }

  lemma {:induction false} AddOne(scans: seq<ScanInfo>, s: ScanInfo, n: nat)
    requires LegalUpTo(scans, |scans|, n, true) && MayFollow(scans, s, n)
    ensures var r := scans + [s];
            && LegalUpTo(r, |r|, n, true)
            && forall c, k :: FinalBit(r, c, k) == if Covers(s, c, k) then s.al else FinalBit(scans, c, k)
  {
    AddScan(scans, s, n);
    forall c, k ensures FinalBit(scans + [s], c, k)
                     == if Covers(s, c, k) then s.al else FinalBit(scans, c, k) {
      LastBitAdded(scans, s, c, k);
    }
  }

  lemma {:induction false} AddDc(scans: seq<ScanInfo>, n: nat, ah: int, al: int)
    requires LegalUpTo(scans, |scans|, n, true) && 1 <= n && 0 <= ah <= 10 && 0 <= al <= 10
    requires forall c :: 0 <= c < n ==>
               if ah == 0 then FinalBit(scans, c, 0) < 0 else FinalBit(scans, c, 0) == ah == al + 1
    ensures var r := scans + DcScans(n, ah, al);
            && LegalUpTo(r, |r|, n, true)
            && forall c, k :: FinalBit(r, c, k) == if 0 <= c < n && k == 0 then al else FinalBit(scans, c, k)
  {
    if n <= MAX_COMPS_IN_SCAN {
      forall c | 0 <= c < n ensures c in Iota(n) {
        assert Iota(n)[c] == c;
      }
      AddOne(scans, ScanInfo(Iota(n), 0, 0, ah, al), n);
    } else {
      var k := 0;
      assert Prepared(scans, n, k, k, ah, al);
      AddEach(scans, n, n, k, k, ah, al);
    }
  }

  /** The script is accepted for any number of components, and sends each coefficient down to bit 0. */
  lemma {:induction false} GeneralLegal(n: nat)
    requires 1 <= n
    ensures Legal(GeneralScript(n), n) && IsProgressive(GeneralScript(n))
    ensures var r := GeneralScript(n); forall c, k :: 0 <= c < n && 0 <= k < 64 ==> FinalBit(r, c, k) == 0
  {
    hide Each, DcScans, LegalUpTo;
    AddDcFirst(n);
    var a := DcScans(n, 0, 1);
    AddEach(a, n, n, 1, 5, 0, 2);
    a := a + Each(n, 1, 5, 0, 2);
    AddEach(a, n, n, 6, 63, 0, 2);
    a := a + Each(n, 6, 63, 0, 2);
    AddEach(a, n, n, 1, 63, 2, 1);
    a := a + Each(n, 1, 63, 2, 1);
    AddDc(a, n, 1, 0);
    a := a + DcScans(n, 1, 0);
    AddEach(a, n, n, 1, 63, 1, 0);
    FirstProgressive(n);
  }

  lemma {:induction false} AddDcFirst(n: nat)
    requires 1 <= n
    ensures var r := DcScans(n, 0, 1);
            LegalUpTo(r, |r|, n, true) && forall c, k :: FinalBit(r, c, k) == if 0 <= c < n && k == 0 then 1 else -1
  {
    AddDc([], n, 0, 1);
    assert [] + DcScans(n, 0, 1) == DcScans(n, 0, 1);
  }

  lemma {:induction false} FirstProgressive(n: nat)
    requires 1 <= n
    ensures GeneralScript(n) != [] && IsProgressive(GeneralScript(n))
    ensures YccScript() != [] && IsProgressive(YccScript())
  {
  }

  // The custom script: bit positions of the DC coefficients, of the luma coefficients 1..5 and 6..63, of the chroma
  // ones

  function Bit(dc: int, low: int, high: int, cb: int, cr: int, c: int, k: int): int {
    if k == 0 then dc else if c == 1 then cb else if c == 2 then cr else if k <= 5 then low else high
  }

  predicate Stage(scans: seq<ScanInfo>, dc: int, low: int, high: int, cb: int, cr: int) {
    && LegalUpTo(scans, |scans|, 3, true)
    && forall c, k :: 0 <= c < 3 && 0 <= k < 64 ==> FinalBit(scans, c, k) == Bit(dc, low, high, cb, cr, c, k)
  }

  predicate Next(bit: int, ah: int, al: int) {
    0 <= ah <= 10 && 0 <= al <= 10 && if ah == 0 then bit < 0 else bit == ah == al + 1
  }

  lemma {:induction false} LumaMayFollow(scans: seq<ScanInfo>, dc: int, low: int, high: int, cb: int, cr: int, ss: int,
                                         se: int, ah: int, al: int)
    requires Stage(scans, dc, low, high, cb, cr) && dc >= 0 && (ss == 1 || ss == 6) && (se == 5 || se == 63) && ss <= se
    requires (ss == 1 ==> Next(low, ah, al)) && (se == 63 ==> Next(high, ah, al))
    ensures MayFollow(scans, OneScan(0, ss, se, ah, al), 3)
  {
    hide LegalUpTo, FinalBit;
  }

  lemma {:induction false} Luma(scans: seq<ScanInfo>, dc: int, low: int, high: int, cb: int, cr: int, ss: int, se: int,
                                ah: int, al: int)
    requires Stage(scans, dc, low, high, cb, cr) && dc >= 0 && (ss == 1 || ss == 6) && (se == 5 || se == 63) && ss <= se
    requires (ss == 1 ==> Next(low, ah, al)) && (se == 63 ==> Next(high, ah, al))
    ensures Stage(scans + [OneScan(0, ss, se, ah, al)], dc,
                  if ss == 1 then al else low, if se == 63 then al else high, cb, cr)
  {
    hide LegalUpTo, FinalBit;
    LumaMayFollow(scans, dc, low, high, cb, cr, ss, se, ah, al);
    AddOne(scans, OneScan(0, ss, se, ah, al), 3);
  }

  lemma {:induction false} Chroma(scans: seq<ScanInfo>, dc: int, low: int, high: int, cb: int, cr: int, c: int, ah: int,
                                  al: int)
    requires Stage(scans, dc, low, high, cb, cr) && dc >= 0 && 1 <= c <= 2 && Next(if c == 1 then cb else cr, ah, al)
    ensures Stage(scans + [OneScan(c, 1, 63, ah, al)], dc, low, high,
                  if c == 1 then al else cb, if c == 2 then al else cr)
  {
    AddOne(scans, OneScan(c, 1, 63, ah, al), 3);
  }

  lemma {:induction false} AllDc(scans: seq<ScanInfo>, dc: int, low: int, high: int, cb: int, cr: int, ah: int, al: int)
    requires Stage(scans, dc, low, high, cb, cr) && Next(dc, ah, al)
    ensures Stage(scans + DcScans(3, ah, al), al, low, high, cb, cr)
  {
    AddDc(scans, 3, ah, al);
  }

  /** The custom script for YCC images is accepted, too, and sends each coefficient down to bit 0. */
  lemma {:induction false} YccLegal()
    ensures Legal(YccScript(), 3)
    ensures var r := YccScript(); forall c, k :: 0 <= c < 3 && 0 <= k < 64 ==> FinalBit(r, c, k) == 0
  {
    var dc, more := DcScans(3, 0, 1), DcScans(3, 1, 0);
    hide DcScans, LegalUpTo, LastBit;
    AddDcFirst(3);
    var a := dc;
    Luma(a, 1, -1, -1, -1, -1, 1, 5, 0, 2);
    a := a + [OneScan(0, 1, 5, 0, 2)];
    Chroma(a, 1, 2, -1, -1, -1, 2, 0, 1);
    a := a + [OneScan(2, 1, 63, 0, 1)];
    Chroma(a, 1, 2, -1, -1, 1, 1, 0, 1);
    a := a + [OneScan(1, 1, 63, 0, 1)];
    Luma(a, 1, 2, -1, 1, 1, 6, 63, 0, 2);
    a := a + [OneScan(0, 6, 63, 0, 2)];
    Luma(a, 1, 2, 2, 1, 1, 1, 63, 2, 1);
    a := a + [OneScan(0, 1, 63, 2, 1)];
    AllDc(a, 1, 1, 1, 1, 1, 1, 0);
    a := a + more;
    Chroma(a, 0, 1, 1, 1, 1, 2, 1, 0);
    a := a + [OneScan(2, 1, 63, 1, 0)];
    Chroma(a, 0, 1, 1, 1, 0, 1, 1, 0);
    a := a + [OneScan(1, 1, 63, 1, 0)];
    Luma(a, 0, 1, 1, 0, 0, 1, 63, 1, 0);
    a := a + [OneScan(0, 1, 63, 1, 0)];
    assert a == YccScript();
    FirstProgressive(3);
  }

  /** The recommended script is legal and leaves no bit out, for every number of components. */
  lemma {:induction false} SimpleLegal(n: nat, ycc: bool)
    requires 1 <= n
    ensures Legal(SimpleScript(n, ycc), n) && IsProgressive(SimpleScript(n, ycc))
    ensures var r := SimpleScript(n, ycc); forall c, k :: 0 <= c < n && 0 <= k < 64 ==> FinalBit(r, c, k) == 0
  {
    if n == 3 && ycc {
      YccLegal();
      FirstProgressive(3);
    } else {
      GeneralLegal(n);
    }
  }

  /** The recommended scripts, scan by scan: for YCbCr images, where luma comes first and its lowest bits last; and for
      gray images. */
  lemma {:induction false} ScriptsListed()
    ensures SimpleScript(3, true) == [
      ScanInfo([0, 1, 2], 0, 0, 0, 1), ScanInfo([0], 1, 5, 0, 2), ScanInfo([2], 1, 63, 0, 1),
        ScanInfo([1], 1, 63, 0, 1),
      ScanInfo([0], 6, 63, 0, 2), ScanInfo([0], 1, 63, 2, 1), ScanInfo([0, 1, 2], 0, 0, 1, 0),
      ScanInfo([2], 1, 63, 1, 0), ScanInfo([1], 1, 63, 1, 0), ScanInfo([0], 1, 63, 1, 0)]
    ensures SimpleScript(1, false) == [
      ScanInfo([0], 0, 0, 0, 1), ScanInfo([0], 1, 5, 0, 2), ScanInfo([0], 6, 63, 0, 2), ScanInfo([0], 1, 63, 2, 1),
      ScanInfo([0], 0, 0, 1, 0), ScanInfo([0], 1, 63, 1, 0)]
  {
    assert Iota(3) == [0, 1, 2] && Iota(1) == [0];
    assert Each(1, 1, 5, 0, 2) == [OneScan(0, 1, 5, 0, 2)] && Each(1, 6, 63, 0, 2) == [OneScan(0, 6, 63, 0, 2)];
    assert Each(1, 1, 63, 2, 1) == [OneScan(0, 1, 63, 2, 1)] && Each(1, 1, 63, 1, 0) == [OneScan(0, 1, 63, 1, 0)];
  }
}

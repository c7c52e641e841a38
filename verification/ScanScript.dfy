/** Multi-scan scripts: validation and reduction (jcmaster.c), the recommended progression (jcparam.c) and the
    decoder's check of the progression (jdarith.c). */
module ScanScript {

  const DCTSIZE2 := 64
  const MAX_COMPS_IN_SCAN := 4
  const MAX_AH_AL := 10

  /** One entry of a script. */
  datatype ScanInfo = ScanInfo(comps: seq<int>, ss: int, se: int, ah: int, al: int)

  /** The scan transmits coefficient k, in zigzag order, of component c. */
  predicate Covers(s: ScanInfo, c: int, k: int) {
    c in s.comps && s.ss <= k <= s.se
  }

  /** The bit position down to which a coefficient has been sent by the first i scans; -1 if it has not been sent. */
  function LastBit(scans: seq<ScanInfo>, i: nat, c: int, k: int): int
    requires i <= |scans|
  {
    if i == 0 then -1
    else if Covers(scans[i - 1], c, k) then scans[i - 1].al
    else LastBit(scans, i - 1, c, k)
  }

  /** After the whole script. */
  function FinalBit(scans: seq<ScanInfo>, c: int, k: int): int {
    LastBit(scans, |scans|, c, k)
  }

  /** Components in SOF order. */
  predicate GoodComps(s: ScanInfo, n: nat) {
    && 1 <= |s.comps| <= MAX_COMPS_IN_SCAN
    && (forall j :: 0 <= j < |s.comps| ==> 0 <= s.comps[j] < n)
    && (forall j :: 0 < j < |s.comps| ==> s.comps[j - 1] < s.comps[j])
  }

  predicate GoodBand(s: ScanInfo) {
    && 0 <= s.ss <= s.se < DCTSIZE2 && 0 <= s.ah <= MAX_AH_AL && 0 <= s.al <= MAX_AH_AL
    && (if s.ss == 0 then s.se == 0 else |s.comps| == 1)
  }

  /** The scan may send these bits of a coefficient: the first ones, or the one below those that have been sent. */
  predicate Sends(s: ScanInfo, last: int) {
    if last < 0 then s.ah == 0 else s.ah == last && s.al == s.ah - 1
  }

  predicate MaySend(scans: seq<ScanInfo>, i: nat, c: int, k: int)
    requires i < |scans|
  {
    Sends(scans[i], LastBit(scans, i, c, k))
  }

  predicate ProgressiveScan(scans: seq<ScanInfo>, i: nat, n: nat)
    requires i < |scans|
  {
    var s := scans[i];
    && GoodComps(s, n) && GoodBand(s)
    && (forall c :: c in s.comps && s.ss != 0 ==> LastBit(scans, i, c, 0) >= 0)
    && (forall c, k :: c in s.comps && s.ss <= k <= s.se ==> MaySend(scans, i, c, k))
  }

  /** Every component is sent at most once, whole. */
  predicate SequentialScan(scans: seq<ScanInfo>, i: nat, n: nat)
    requires i < |scans|
  {
    var s := scans[i];
    && GoodComps(s, n) && s.ss == 0 && s.se == DCTSIZE2 - 1 && s.ah == 0 && s.al == 0
    && (forall c :: c in s.comps ==> LastBit(scans, i, c, 0) < 0)
  }

  predicate LegalScan(scans: seq<ScanInfo>, i: nat, n: nat, progressive: bool)
    requires i < |scans|
  {
    if progressive then ProgressiveScan(scans, i, n) else SequentialScan(scans, i, n)
  }

  predicate LegalUpTo(scans: seq<ScanInfo>, i: nat, n: nat, progressive: bool)
    requires i <= |scans|
  {
    forall j :: 0 <= j < i ==> LegalScan(scans, j, n, progressive)
  }

  predicate IsProgressive(scans: seq<ScanInfo>)
    requires scans != []
  {
    scans[0].ss != 0 || scans[0].se != DCTSIZE2 - 1
  }

  /** A script for n components that can be used for compression. */
  predicate Legal(scans: seq<ScanInfo>, n: nat) {
    && scans != [] && LegalUpTo(scans, |scans|, n, IsProgressive(scans))
    && forall c :: 0 <= c < n ==> FinalBit(scans, c, 0) >= 0
  }

  datatype Verdict = Accepted(progressive: bool) | BadScanScript(scan: nat) | BadProgScript(scan: nat)
                   | ComponentCount(count: nat) | MissingData

  /** Validate component indexes. */
  method ValidateComps(s: ScanInfo, n: nat, scanno: nat) returns (v: Verdict)
    ensures v.Accepted? <==> GoodComps(s, n)
  {
    var ncomps := |s.comps|;
    if ncomps <= 0 || ncomps > MAX_COMPS_IN_SCAN {
      return ComponentCount(ncomps);
    }
    for ci := 0 to ncomps
      invariant forall j :: 0 <= j < ci ==> 0 <= s.comps[j] < n
      invariant forall j :: 0 < j < ci ==> s.comps[j - 1] < s.comps[j]
    {
      var thisi := s.comps[ci];
      if thisi < 0 || thisi >= n {
        return BadScanScript(scanno);
      }
      // Components must appear in SOF order within each scan
      if ci > 0 && thisi <= s.comps[ci - 1] {
        return BadScanScript(scanno);
      }
    }
    v := Accepted(false);
  }

  /** The table of the bit positions sent last tells what LastBit does. */
  predicate Table(lastBitpos: array2<int>, scans: seq<ScanInfo>, i: nat, n: nat)
    reads lastBitpos
    requires i <= |scans|
  {
    && lastBitpos.Length0 == n && lastBitpos.Length1 == DCTSIZE2
    && forall c, k :: 0 <= c < n && 0 <= k < DCTSIZE2 ==> lastBitpos[c, k] == LastBit(scans, i, c, k)
  }

  /** While scan i is checked, the components before the j-th one have been entered, and of that one the coefficients
      before k. */
  predicate PartTable(lastBitpos: array2<int>, scans: seq<ScanInfo>, i: nat, n: nat, j: nat, k: int)
    reads lastBitpos
    requires i < |scans| && j <= |scans[i].comps|
  {
    var s := scans[i];
    && lastBitpos.Length0 == n && lastBitpos.Length1 == DCTSIZE2
    && forall c, q :: 0 <= c < n && 0 <= q < DCTSIZE2 ==>
         lastBitpos[c, q] == if s.ss <= q <= s.se && (c in s.comps[..j] || (j < |s.comps| && c == s.comps[j] && q < k))
                             then s.al else LastBit(scans, i, c, q)
  }

  lemma {:induction false} Ascending(s: ScanInfo, n: nat, i: nat, j: nat)
    requires GoodComps(s, n) && i < j < |s.comps|
    ensures s.comps[i] < s.comps[j]
  {
    if i + 1 < j {
      Ascending(s, n, i, j - 1);
    }
  }

  lemma {:induction false} NotEarlier(s: ScanInfo, n: nat, j: nat)
    requires GoodComps(s, n) && j < |s.comps|
    ensures s.comps[j] !in s.comps[..j]
  {
    forall i | 0 <= i < j ensures s.comps[i] != s.comps[j] {
      Ascending(s, n, i, j);
    }
  }

  /** The coefficients of one component of scan i, and their new bit positions. */
  method EnterComponent(lastBitpos: array2<int>, scans: seq<ScanInfo>, i: nat, n: nat, j: nat) returns (ok: bool)
    requires i < |scans| && j < |scans[i].comps| && GoodComps(scans[i], n) && GoodBand(scans[i])
    requires PartTable(lastBitpos, scans, i, n, j, scans[i].ss)
    modifies lastBitpos
    ensures var s := scans[i];
            ok <==> (s.ss != 0 ==> LastBit(scans, i, s.comps[j], 0) >= 0)
                    && forall k :: s.ss <= k <= s.se ==> MaySend(scans, i, s.comps[j], k)
    ensures ok ==> PartTable(lastBitpos, scans, i, n, j + 1, scans[i].ss)
  {
    var s := scans[i];
    var c := s.comps[j];
    NotEarlier(s, n, j);
    if s.ss != 0 && lastBitpos[c, 0] < 0 {  // AC without prior DC scan
      return false;
    }
    for k := s.ss to s.se + 1
      invariant PartTable(lastBitpos, scans, i, n, j, k)
      invariant forall q :: s.ss <= q < k ==> MaySend(scans, i, c, q)
    {
      assert MaySend(scans, i, c, k) == Sends(s, lastBitpos[c, k]);
      if lastBitpos[c, k] < 0 {
        // first scan of this coefficient
        if s.ah != 0 {
          return false;
        }
      } else {
        // not first scan
        if s.ah != lastBitpos[c, k] || s.al != s.ah - 1 {
          return false;
        }
      }
      lastBitpos[c, k] := s.al;
    }
    ok := true;
  }

  method ValidateProgression(lastBitpos: array2<int>, scans: seq<ScanInfo>, i: nat, n: nat) returns (ok: bool)
    requires i < |scans| && GoodComps(scans[i], n) && Table(lastBitpos, scans, i, n)
    modifies lastBitpos
    ensures ok <==> ProgressiveScan(scans, i, n)
    ensures ok ==> Table(lastBitpos, scans, i + 1, n)
  {
    var s := scans[i];
    if s.ss < 0 || s.ss >= DCTSIZE2 || s.se < s.ss || s.se >= DCTSIZE2 || s.ah < 0 || s.ah > MAX_AH_AL
       || s.al < 0 || s.al > MAX_AH_AL {
      return false;
    }
    if s.ss == 0 {
      if s.se != 0 {  // DC and AC together not OK
        return false;
      }
    } else if |s.comps| != 1 {  // AC scans must be for only one component
      return false;
    }
    for j := 0 to |s.comps|
      invariant PartTable(lastBitpos, scans, i, n, j, s.ss)
      invariant forall q :: 0 <= q < j ==> (s.ss != 0 ==> LastBit(scans, i, s.comps[q], 0) >= 0)
      invariant forall q, k :: 0 <= q < j && s.ss <= k <= s.se ==> MaySend(scans, i, s.comps[q], k)
    {
      ok := EnterComponent(lastBitpos, scans, i, n, j);
      if !ok {
        return;
      }
    }
    assert s.comps[..|s.comps|] == s.comps;
    ok := true;
  }

  /** Sequential scans: no component is sent twice. */
  method ValidateSequential(sent: array<bool>, scans: seq<ScanInfo>, i: nat, n: nat) returns (v: Verdict)
    requires i < |scans| && GoodComps(scans[i], n) && sent.Length == n
    requires forall c :: 0 <= c < n ==> sent[c] == (LastBit(scans, i, c, 0) >= 0)
    modifies sent
    ensures v.Accepted? <==> SequentialScan(scans, i, n)
    ensures v.Accepted? ==> forall c :: 0 <= c < n ==> sent[c] == (LastBit(scans, i + 1, c, 0) >= 0)
  {
    var s := scans[i];
    if s.ss != 0 || s.se != DCTSIZE2 - 1 || s.ah != 0 || s.al != 0 {
      return BadProgScript(i + 1);
    }
    for j := 0 to |s.comps|
      invariant forall c :: 0 <= c < n ==> sent[c] == (c in s.comps[..j] || LastBit(scans, i, c, 0) >= 0)
      invariant forall q :: 0 <= q < j ==> LastBit(scans, i, s.comps[q], 0) < 0
    {
      var thisi := s.comps[j];
      NotEarlier(s, n, j);
      if sent[thisi] {
        return BadScanScript(i + 1);
      }
      sent[thisi] := true;
    }
    assert s.comps[..|s.comps|] == s.comps;
    v := Accepted(false);
  }

  /** Verify that a script is valid, and determine whether it uses progressive JPEG. */
  method ValidateScript(scans: seq<ScanInfo>, n: nat) returns (v: Verdict)
    ensures v.Accepted? <==> Legal(scans, n)
    ensures v.Accepted? ==> v.progressive == IsProgressive(scans)
  {
    if scans == [] {
      return BadScanScript(0);
    }
    var progressive := scans[0].ss != 0 || scans[0].se != DCTSIZE2 - 1;
    var lastBitpos := new int[n, DCTSIZE2]((c, k) => -1);
    var sent := new bool[n](c => false);
    for i := 0 to |scans|
      invariant LegalUpTo(scans, i, n, progressive)
      invariant progressive ==> Table(lastBitpos, scans, i, n)
      invariant !progressive ==> forall c :: 0 <= c < n ==> sent[c] == (LastBit(scans, i, c, 0) >= 0)
    {
      v := ValidateComps(scans[i], n, i + 1);
      if !v.Accepted? {
        assert !LegalScan(scans, i, n, progressive);
        return;
      }
      if progressive {
        var ok := ValidateProgression(lastBitpos, scans, i, n);
        if !ok {
          assert !LegalScan(scans, i, n, progressive);
          return BadProgScript(i + 1);
        }
      } else {
        v := ValidateSequential(sent, scans, i, n);
        if !v.Accepted? {
          assert !LegalScan(scans, i, n, progressive);
          return;
        }
      }
    }
    // Now verify that everything got sent.
    for ci := 0 to n
      invariant forall c :: 0 <= c < ci ==> FinalBit(scans, c, 0) >= 0
    {
      assert FinalBit(scans, ci, 0) == LastBit(scans, |scans|, ci, 0);
      if progressive && lastBitpos[ci, 0] < 0 {
        return MissingData;
      }
      if !progressive && !sent[ci] {
        return MissingData;
      }
    }
    v := Accepted(progressive);
  }

  // What a legal script does with a coefficient

  /** The scans that transmit coefficient k of component c. */
  function History(scans: seq<ScanInfo>, i: nat, c: int, k: int): seq<ScanInfo>
    requires i <= |scans|
  {
    if i == 0 then []
    else if Covers(scans[i - 1], c, k) then History(scans, i - 1, c, k) + [scans[i - 1]]
    else History(scans, i - 1, c, k)
  }

  /** Every coefficient starts at Ah = 0, and each further scan for it sends exactly the next lower bit. */
  lemma {:induction false} Ladder(scans: seq<ScanInfo>, i: nat, n: nat, c: int, k: int)
    requires i <= |scans| && LegalUpTo(scans, i, n, true)
    ensures var h, last := History(scans, i, c, k), LastBit(scans, i, c, k);
            if h == [] then last == -1
            else
              && h[0].ah == 0 && last == h[|h| - 1].al == h[0].al - |h| + 1 >= 0
              && forall m :: 0 < m < |h| ==> h[m].ah == h[m - 1].al && h[m].al == h[m].ah - 1
  {
    if i > 0 {
      assert LegalScan(scans, i - 1, n, true);
      Ladder(scans, i - 1, n, c, k);
      if Covers(scans[i - 1], c, k) {
        assert MaySend(scans, i - 1, c, k);
      }
    }
  }

  /** No scan mixes coefficients sent for the first time with refined ones. */
  lemma {:induction false} NoMixture(scans: seq<ScanInfo>, i: nat, n: nat)
    requires i < |scans| && LegalUpTo(scans, |scans|, n, true)
    ensures forall c, k :: Covers(scans[i], c, k) ==>
              LastBit(scans, i, c, k) == if scans[i].ah == 0 then -1 else scans[i].ah
  {
    forall c, k | Covers(scans[i], c, k)
      ensures LastBit(scans, i, c, k) == if scans[i].ah == 0 then -1 else scans[i].ah
    {
      assert LegalScan(scans, i, n, true) && MaySend(scans, i, c, k);
      Ladder(scans, i, n, c, k);
    }
  }

  lemma {:induction false} LastBitPrefix(a: seq<ScanInfo>, b: seq<ScanInfo>, i: nat, c: int, k: int)
    requires i <= |a|
    ensures LastBit(a + b, i, c, k) == LastBit(a, i, c, k)
  {
    if i > 0 {
      LastBitPrefix(a, b, i - 1, c, k);
    }
  }

  predicate MayFollow(scans: seq<ScanInfo>, s: ScanInfo, n: nat) {
    && GoodComps(s, n) && GoodBand(s)
    && (forall c :: c in s.comps && s.ss != 0 ==> FinalBit(scans, c, 0) >= 0)
    && (forall c, k :: c in s.comps && s.ss <= k <= s.se ==> Sends(s, FinalBit(scans, c, k)))
  }

  lemma {:induction false} EarlierScan(scans: seq<ScanInfo>, s: ScanInfo, i: nat, n: nat)
    requires i < |scans|
    ensures ProgressiveScan(scans + [s], i, n) <==> ProgressiveScan(scans, i, n)
  {
    hide LastBit, GoodComps, GoodBand;
    forall c, k ensures MaySend(scans + [s], i, c, k) <==> MaySend(scans, i, c, k) {
      LastBitPrefix(scans, [s], i, c, k);
    }
    forall c ensures LastBit(scans + [s], i, c, 0) == LastBit(scans, i, c, 0) {
      LastBitPrefix(scans, [s], i, c, 0);
    }
  }

  lemma {:induction false} LatestScan(scans: seq<ScanInfo>, s: ScanInfo, n: nat)
    ensures ProgressiveScan(scans + [s], |scans|, n) <==> MayFollow(scans, s, n)
  {
    hide LastBit, GoodComps, GoodBand;
    forall c, k ensures MaySend(scans + [s], |scans|, c, k) <==> Sends(s, FinalBit(scans, c, k)) {
      LastBitPrefix(scans, [s], |scans|, c, k);
    }
    forall c ensures LastBit(scans + [s], |scans|, c, 0) == FinalBit(scans, c, 0) {
      LastBitPrefix(scans, [s], |scans|, c, 0);
    }
  }

  /** A scan is appended to a script. */
  lemma {:induction false} AddScan(scans: seq<ScanInfo>, s: ScanInfo, n: nat)
    requires LegalUpTo(scans, |scans|, n, true)
    ensures LegalUpTo(scans + [s], |scans| + 1, n, true) <==> MayFollow(scans, s, n)
  {
    hide ProgressiveScan, MayFollow;
    forall i | 0 <= i < |scans| ensures LegalScan(scans + [s], i, n, true) {
      assert LegalScan(scans, i, n, true);
      EarlierScan(scans, s, i, n);
    }
    LatestScan(scans, s, n);
    assert LegalScan(scans + [s], |scans|, n, true) <==> ProgressiveScan(scans + [s], |scans|, n);
  }

  lemma {:induction false} LastBitAdded(scans: seq<ScanInfo>, s: ScanInfo, c: int, k: int)
    ensures FinalBit(scans + [s], c, k) == if Covers(s, c, k) then s.al else FinalBit(scans, c, k)
  {
    LastBitPrefix(scans, [s], |scans|, c, k);
  }

  // Reduction to blocks that end at lim_Se

  function Clipped(s: ScanInfo, limSe: int): ScanInfo {
    if s.se > limSe then s.(se := limSe) else s
  }

  /** Scans out of range are dropped, the others end at lim_Se. */
  function Reduced(scans: seq<ScanInfo>, limSe: int): seq<ScanInfo> {
    if scans == [] then []
    else
      var n := |scans| - 1;
      var r := Reduced(scans[..n], limSe);
      if scans[n].ss > limSe then r else r + [Clipped(scans[n], limSe)]
  }

  lemma {:induction false} ReducedSnoc(scans: seq<ScanInfo>, i: nat, limSe: int)
    requires i < |scans|
    ensures var r := Reduced(scans[..i], limSe);
            Reduced(scans[..i + 1], limSe) == if scans[i].ss > limSe then r else r + [Clipped(scans[i], limSe)]
  {
    assert scans[..i + 1][..i] == scans[..i];
  }

  /** Adapt a script for use with reduced block size, in place. */
  method ReduceScript(a: array<ScanInfo>, numScans: nat, limSe: int) returns (m: nat)
    requires numScans <= a.Length
    modifies a
    ensures m <= numScans && a[..m] == Reduced(old(a[..numScans]), limSe)
    ensures forall i :: numScans <= i < a.Length ==> a[i] == old(a[i])
  {
    hide Reduced;
    m := 0;
    ghost var was := a[..numScans];
    assert Reduced(was[..0], limSe) == [] by {
      ReducedNone(was, limSe);
    }
    for i := 0 to numScans
      invariant m <= i && a[..m] == Reduced(was[..i], limSe)
      invariant forall q :: i <= q < a.Length ==> a[q] == old(a[q])
    {
      ReducedSnoc(was, i, limSe);
      if i != m {
        a[m] := a[i];
      }
      if a[m].ss > limSe {
        continue;  // entire scan out of range
      }
      if a[m].se > limSe {
        a[m] := a[m].(se := limSe);
      }
      assert a[..m + 1] == a[..m] + [a[m]];
      m := m + 1;
    }
    assert was[..numScans] == was;
  }

  lemma {:induction false} ReducedNone(scans: seq<ScanInfo>, limSe: int)
    ensures Reduced(scans[..0], limSe) == []
  {
  }

  /** Reduction does not touch the coefficients that remain, nor the legality of the script. */
  lemma {:induction false} ReducedKeeps(scans: seq<ScanInfo>, n: nat, limSe: nat)
    requires LegalUpTo(scans, |scans|, n, true)
    ensures var r := Reduced(scans, limSe);
            && LegalUpTo(r, |r|, n, true) && (forall i :: 0 <= i < |r| ==> r[i].se <= limSe)
            && forall c, k :: k <= limSe ==> FinalBit(r, c, k) == FinalBit(scans, c, k)
  {
    if scans != [] {
      var m := |scans| - 1;
      var before, s := scans[..m], scans[m];
      var r := Reduced(before, limSe);
      assert scans == before + [s];
      LegalPrefix(before, s, n);
      ReducedKeeps(before, n, limSe);
      AddScan(before, s, n);
      forall c, k | k <= limSe
        ensures var w := Reduced(scans, limSe); FinalBit(w, c, k) == FinalBit(scans, c, k)
      {
        LastBitAdded(before, s, c, k);
        LastBitAdded(r, Clipped(s, limSe), c, k);
      }
      if s.ss <= limSe {
        AddScan(r, Clipped(s, limSe), n);
      }
    }
  }

  lemma {:induction false} LegalPrefix(scans: seq<ScanInfo>, s: ScanInfo, n: nat)
    requires LegalUpTo(scans + [s], |scans| + 1, n, true)
    ensures LegalUpTo(scans, |scans|, n, true)
  {
    hide ProgressiveScan;
    forall i | 0 <= i < |scans| ensures LegalScan(scans, i, n, true) {
      assert LegalScan(scans + [s], i, n, true);
      EarlierScan(scans, s, i, n);
    }
  }

  /** A progressive script stays one, with the same bits for the coefficients that remain. */
  lemma {:induction false} ReducedLegal(scans: seq<ScanInfo>, n: nat, limSe: nat)
    requires n > 0 && Legal(scans, n) && IsProgressive(scans)
    ensures var r := Reduced(scans, limSe);
            Legal(r, n) && IsProgressive(r) && forall c, k :: k <= limSe ==> FinalBit(r, c, k) == FinalBit(scans, c, k)
  {
    var r := Reduced(scans, limSe);
    ReducedKeeps(scans, n, limSe);
    assert FinalBit(r, 0, 0) == FinalBit(scans, 0, 0) >= 0;
    assert r != [];
    assert LegalScan(r, 0, n, true);
  }

  // The decoder's side

  datatype Progress = BadProgression | Checked(warnings: nat)

  /** The bit position that the decoder expects as Ah. */
  function Expected(bit: int): int {
    if bit < 0 then 0 else bit
  }

  /** Validate progressive scan parameters and update the progression status. */
  method CheckProgression(coefBits: array2<int>, s: ScanInfo, limSe: int) returns (r: Progress)
    requires coefBits.Length1 == DCTSIZE2 && 0 <= s.ss && 0 <= s.se && 0 <= limSe < DCTSIZE2 && 0 <= s.al
    requires forall j :: 0 <= j < |s.comps| ==> 0 <= s.comps[j] < coefBits.Length0
    requires forall i, j :: 0 <= i < j < |s.comps| ==> s.comps[i] != s.comps[j]
    modifies coefBits
    ensures r.BadProgression? <==>
              || (if s.ss == 0 then s.se != 0 else s.se < s.ss || s.se > limSe || |s.comps| != 1)
              || (s.ah != 0 && s.ah - 1 != s.al) || s.al > 13
    ensures r.Checked? ==>
              && (forall c, k :: 0 <= c < coefBits.Length0 && 0 <= k < DCTSIZE2 ==>
                    coefBits[c, k] == if Covers(s, c, k) then s.al else old(coefBits[c, k]))
              && (r.warnings == 0 <==>
                    forall j :: 0 <= j < |s.comps| ==>
                      && (s.ss != 0 ==> old(coefBits[s.comps[j], 0]) >= 0)
                      && forall k :: s.ss <= k <= s.se ==> s.ah == Expected(old(coefBits[s.comps[j], k])))
  {
    if s.ss == 0 {
      if s.se != 0 {
        return BadProgression;
      }
    } else if s.se < s.ss || s.se > limSe || |s.comps| != 1 {
      return BadProgression;
    }
    if s.ah != 0 && s.ah - 1 != s.al {
      return BadProgression;
    }
    if s.al > 13 {
      return BadProgression;
    }
    var warnings := 0;
    for j := 0 to |s.comps|
      invariant forall c, k :: 0 <= c < coefBits.Length0 && 0 <= k < DCTSIZE2 ==>
                  coefBits[c, k] == if c in s.comps[..j] && s.ss <= k <= s.se then s.al else old(coefBits[c, k])
      invariant warnings == 0 <==>
                  forall i :: 0 <= i < j ==>
                    && (s.ss != 0 ==> old(coefBits[s.comps[i], 0]) >= 0)
                    && forall k :: s.ss <= k <= s.se ==> s.ah == Expected(old(coefBits[s.comps[i], k]))
    {
      var w := CheckComponent(coefBits, s, s.comps[j]);
      warnings := warnings + w;
    }
    assert s.comps[..|s.comps|] == s.comps;
    r := Checked(warnings);
  }

  method CheckComponent(coefBits: array2<int>, s: ScanInfo, c: int) returns (warnings: nat)
    requires coefBits.Length1 == DCTSIZE2 && 0 <= s.ss <= s.se < DCTSIZE2 && 0 <= c < coefBits.Length0
    modifies coefBits
    ensures forall d, k :: 0 <= d < coefBits.Length0 && 0 <= k < DCTSIZE2 ==>
              coefBits[d, k] == if d == c && s.ss <= k <= s.se then s.al else old(coefBits[d, k])
    ensures warnings == 0 <==> (s.ss != 0 ==> old(coefBits[c, 0]) >= 0)
                               && forall k :: s.ss <= k <= s.se ==> s.ah == Expected(old(coefBits[c, k]))
  {
    warnings := if s.ss != 0 && coefBits[c, 0] < 0 then 1 else 0;  // AC without prior DC scan
    for k := s.ss to s.se + 1
      invariant forall d, q :: 0 <= d < coefBits.Length0 && 0 <= q < DCTSIZE2 ==>
                  coefBits[d, q] == if d == c && s.ss <= q < k then s.al else old(coefBits[d, q])
      invariant warnings == 0 <==> (s.ss != 0 ==> old(coefBits[c, 0]) >= 0)
                                   && forall q :: s.ss <= q < k ==> s.ah == Expected(old(coefBits[c, q]))
    {
      var expected := if coefBits[c, k] < 0 then 0 else coefBits[c, k];
      assert expected == Expected(old(coefBits[c, k]));
      if s.ah != expected {
        warnings := warnings + 1;
      }
      coefBits[c, k] := s.al;
    }
  }

  /** The checks of the decoder on a whole script. A legal one, within the range of the block, passes without a
      warning. */
  method CheckScript(scans: seq<ScanInfo>, n: nat, limSe: nat) returns (r: Progress)
    requires limSe < DCTSIZE2
    requires LegalUpTo(scans, |scans|, n, true) && forall i :: 0 <= i < |scans| ==> scans[i].se <= limSe
    ensures r == Checked(0)
  {
    var coefBits := new int[n, DCTSIZE2]((c, k) => -1);
    r := Checked(0);
    for i := 0 to |scans|
      invariant r == Checked(0) && Table(coefBits, scans, i, n)
    {
      assert LegalScan(scans, i, n, true);
      forall p, q | 0 <= p < q < |scans[i].comps| ensures scans[i].comps[p] != scans[i].comps[q] {
        Ascending(scans[i], n, p, q);
      }
      SendsExpected(scans, i, n);
      r := CheckProgression(coefBits, scans[i], limSe);
    }
  }

  lemma {:induction false} SendsExpected(scans: seq<ScanInfo>, i: nat, n: nat)
    requires i < |scans| && ProgressiveScan(scans, i, n)
    ensures forall c, k :: c in scans[i].comps && scans[i].ss <= k <= scans[i].se
              ==> scans[i].ah == Expected(LastBit(scans, i, c, k))
    ensures scans[i].ah != 0 ==> scans[i].ah - 1 == scans[i].al
  {
    var s := scans[i];
    forall c, k | c in s.comps && s.ss <= k <= s.se ensures s.ah == Expected(LastBit(scans, i, c, k)) {
      assert MaySend(scans, i, c, k);
    }
    assert MaySend(scans, i, s.comps[0], s.ss);
  }

  /** Script validation allows bit positions up to 10. */
  lemma {:induction false} BitLimit()
    ensures Legal([ScanInfo([0], 0, 0, 0, 10)], 1) && !Legal([ScanInfo([0], 0, 0, 0, 11)], 1)
  {
    hide Legal;
    LegalAlone(ScanInfo([0], 0, 0, 0, 10), 1);
    LegalNeeds(ScanInfo([0], 0, 0, 0, 11), 1);
  }

  /** It allows up to four components in a scan, and misses those that are not sent. */
  lemma {:induction false} ComponentLimit()
    ensures Legal([ScanInfo([0, 1, 2, 3], 0, 0, 0, 0)], 4) && !Legal([ScanInfo([0, 1, 2, 3, 4], 0, 0, 0, 0)], 5)
    ensures Legal([ScanInfo([0], 0, 63, 0, 0)], 1) && !Legal([ScanInfo([0], 0, 63, 0, 0)], 2)
  {
    hide Legal;
    LegalAlone(ScanInfo([0, 1, 2, 3], 0, 0, 0, 0), 4);
    LegalNeeds(ScanInfo([0, 1, 2, 3, 4], 0, 0, 0, 0), 5);
    LegalAlone(ScanInfo([0], 0, 63, 0, 0), 1);
    LegalNeeds(ScanInfo([0], 0, 63, 0, 0), 2);
    assert !Covers(ScanInfo([0], 0, 63, 0, 0), 1, 0);
  }

  /** What a script of one scan must be. */
  lemma {:induction false} LegalNeeds(s: ScanInfo, n: nat)
    ensures Legal([s], n) ==>
              && GoodComps(s, n) && (s.ss != 0 || s.se != DCTSIZE2 - 1 ==> GoodBand(s))
              && forall c :: 0 <= c < n ==> Covers(s, c, 0)
  {
    if Legal([s], n) {
      assert LegalScan([s], 0, n, IsProgressive([s]));
      forall c | 0 <= c < n ensures Covers(s, c, 0) {
        assert FinalBit([s], c, 0) >= 0;
        assert LastBit([s], 0, c, 0) == -1;
      }
    }
  }

  lemma {:induction false} LegalAlone(s: ScanInfo, n: nat)
    requires GoodComps(s, n) && s.ss == 0 && s.ah == 0 && s.al >= 0 && forall c :: 0 <= c < n ==> c in s.comps
    requires if s.se != DCTSIZE2 - 1 then GoodBand(s) else s.al == 0
    ensures Legal([s], n)
  {
    forall c, k ensures LastBit([s], 0, c, k) == -1 {
    }
    forall c | 0 <= c < n ensures FinalBit([s], c, 0) >= 0 {
      assert Covers(s, c, 0);
    }
    forall c, k | c in s.comps && s.ss <= k <= s.se ensures MaySend([s], 0, c, k) {
    }
    assert LegalScan([s], 0, n, IsProgressive([s]));
  }
}

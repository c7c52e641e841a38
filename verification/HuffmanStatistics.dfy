/** The statistics pass of Huffman optimization (jchuff.c): it counts what the output pass will emit. */
module HuffmanStatistics {
  import opened ProbabilityTable
  import opened CoefficientModel
  import opened HuffmanCost
  import opened HuffmanBlock
  import opened HuffmanScan

  /** How often a symbol of a table occurs. */
  function Uses(items: Items, dc: bool, tbl: nat, s: nat): nat {
    match items
    case Nil => 0
    case Then(i, rest) =>
      (if i.Symbol? && i.dc == dc && i.tbl == tbl && i.s == s then 1 else 0) + Uses(rest, dc, tbl, s)
  }

  /** The counts of the symbols for all tables. */
  class Counters {
    const dc: array2<nat>
    const ac: array2<nat>

    constructor (n: nat)
      ensures fresh(dc) && fresh(ac) && Sized(n)
      ensures forall t, s :: 0 <= t < n && 0 <= s < SYMBOLS ==> dc[t, s] == ac[t, s] == 0
    {
      dc := new nat[n, SYMBOLS]((t, s) => 0);
      ac := new nat[n, SYMBOLS]((t, s) => 0);
    }

    predicate Sized(n: nat) {
      dc.Length0 == ac.Length0 == n && dc.Length1 == ac.Length1 == SYMBOLS && dc != ac
    }

    /** From the counts so far to those of all items, the rest is missing. */
    twostate predicate Counts(n: nat, all: Items, rest: Items)
      reads dc, ac
    {
      Sized(n)
      && (forall t, s :: 0 <= t < n && 0 <= s < SYMBOLS ==>
            dc[t, s] + Uses(rest, true, t, s) == old(dc[t, s]) + Uses(all, true, t, s))
      && forall t, s :: 0 <= t < n && 0 <= s < SYMBOLS ==>
           ac[t, s] + Uses(rest, false, t, s) == old(ac[t, s]) + Uses(all, false, t, s)
    }

    method Count(isDC: bool, tbl: nat, s: byte, ghost n: nat, ghost rest: Items)
      requires Sized(n) && tbl < n
      modifies dc, ac
      ensures Counts(n, Then(Symbol(isDC, tbl, s), rest), rest)
    {
      if isDC {
        dc[tbl, s] := dc[tbl, s] + 1;
      } else {
        ac[tbl, s] := ac[tbl, s] + 1;
      }
    }
  }

  /** The DC coefficient difference of a block. */
  method TestDc(c: Counters, tbl: nat, diff: int, ghost n: nat, ghost rest: Items) returns (ok: bool)
    requires c.Sized(n) && tbl < n
    modifies c.dc, c.ac
    ensures ok <==> DcInRange(diff)
    ensures ok ==> c.Counts(n, DcItems(tbl, diff, rest), rest)
  {
    var temp := diff;
    if temp < 0 {
      temp := -temp;
    }
    var nbits := CountBits(temp);
    if nbits > MAX_COEF_BITS + 1 {
      return false;
    }
    c.Count(true, tbl, nbits, n, if nbits > 0 then Then(Raw(Extra(diff), nbits), rest) else rest);
    ok := true;
  }

  /** Count the codes for runs of 16 zeros; returns what is left of the run. */
  method TestLongRuns(c: Counters, tbl: nat, r0: nat, ghost n: nat, ghost rest: Items) returns (run: nat)
    requires c.Sized(n) && tbl < n
    modifies c.dc, c.ac
    ensures run == r0 % 16 && c.Counts(n, LongRuns(tbl, r0, rest), rest)
  {
    run := r0;
    while run > 15
      invariant run % 16 == r0 % 16 && c.Counts(n, LongRuns(tbl, r0, rest), LongRuns(tbl, run, rest))
    {
      c.Count(false, tbl, 0xF0, n, LongRuns(tbl, run - 16, rest));
      run := run - 16;
    }
  }

  /** A nonzero AC coefficient behind r0 zeros. */
  method TestCoefficient(c: Counters, tbl: nat, r0: nat, z: int, ghost n: nat, ghost rest: Items) returns (ok: bool)
    requires c.Sized(n) && tbl < n && z != 0
    modifies c.dc, c.ac
    ensures ok <==> NBits(Abs(z)) <= MAX_COEF_BITS
    ensures ok ==> c.Counts(n, LongRuns(tbl, r0, Coefficient(tbl, r0 % 16, z, rest)), rest)
  {
    ghost var small := NBits(Abs(z)) <= MAX_COEF_BITS;
    var run := TestLongRuns(c, tbl, r0, n, if small then Coefficient(tbl, r0 % 16, z, rest) else Nil);
    var temp := z;
    if temp < 0 {
      temp := -temp;
    }
    var nbits := CountBits(temp);
    if nbits > MAX_COEF_BITS {
      return false;
    }
    c.Count(false, tbl, 16 * run + nbits, n, Then(Raw(Extra(z), nbits), rest));
    ok := true;
  }

  /** The AC coefficients of a block. */
  method TestAcs(c: Counters, tbl: nat, block: Block, order: seq<nat>, ghost n: nat, ghost rest: Items)
      returns (ok: bool)
    requires c.Sized(n) && tbl < n && GoodOrder(order)
    modifies c.dc, c.ac
    ensures ok <==> AcInRange(Zigzag(block, order))
    ensures ok ==> c.Counts(n, AcItems(tbl, Zigzag(block, order), 1, 0, rest), rest)
  {
    hide AcItems, Uses, LongRuns;
    ghost var zz := Zigzag(block, order);
    ghost var on := AcInRange(zz);
    var run := 0;
    for k := 1 to |order|
      invariant 0 <= run < k && forall i :: 1 <= i < k ==> NBits(Abs(zz[i])) <= MAX_COEF_BITS
      invariant on ==> c.Counts(n, AcItems(tbl, zz, 1, 0, rest), AcItems(tbl, zz, k, run, rest))
    {
      if on {
        AcNext(tbl, zz, k, run, rest);
      }
      if block[order[k]] == 0 {
        run := run + 1;
      } else {
        ok := TestCoefficient(c, tbl, run, block[order[k]], n, if on then AcItems(tbl, zz, k + 1, 0, rest) else Nil);
        if !ok {
          return;
        }
        run := 0;
      }
    }
    AcLast(tbl, zz, run, rest);
    if run > 0 {
      c.Count(false, tbl, 0, n, rest);
    }
    ok := true;
  }

  /** Process a single block's worth of coefficients. */
  method TestOneBlock(c: Counters, dcTbl: nat, acTbl: nat, block: Block, order: seq<nat>, last: int, ghost n: nat,
                      ghost rest: Items) returns (ok: bool)
    requires c.Sized(n) && dcTbl < n && acTbl < n && GoodOrder(order)
    modifies c.dc, c.ac
    ensures ok <==> InRange(Zigzag(block, order), last)
    ensures ok ==> c.Counts(n, BlockItems(dcTbl, acTbl, Zigzag(block, order), last, rest), rest)
  {
    hide AcItems, DcItems, Uses;
    ghost var zz := Zigzag(block, order);
    ok := TestDc(c, dcTbl, block[0] - last, n, if AcInRange(zz) then AcItems(acTbl, zz, 1, 0, rest) else Nil);
    if ok {
      ok := TestAcs(c, acTbl, block, order, n, rest);
    }
  }

  predicate Tested(p: SequentialScan, n: nat) {
    && GoodOrder(p.order) && (forall c :: c in p.comps ==> c.dcTbl < n && c.acTbl < n)
    && forall i :: 0 <= i < |p.membership| ==> p.membership[i] < |p.comps|
  }

  /** The DC predictions and the restart counter after an MCU, as the output pass has them, too. */
  function Prediction(p: SequentialScan, last: seq<int>, togo: nat): seq<int> {
    if p.restartInterval != 0 && togo == 0 then ZeroDc(|p.comps|) else last
  }

  function CountDown(p: SequentialScan, togo: nat): nat {
    if p.restartInterval == 0 then togo else if togo == 0 then p.restartInterval - 1 else togo - 1
  }

  predicate AllInRange(p: SequentialScan, n: nat, last: seq<int>, togo: nat, ms: seq<Mcu>, j: nat)
    requires Tested(p, n) && |last| == |p.comps| && FullMcus(p, ms) && j <= |ms|
    decreases |ms| - j
  {
    j == |ms| || (
      var pr := Prediction(p, last, togo);
      McuInRange(p, pr, ms[j], 0) && AllInRange(p, n, McuLast(p, pr, ms[j], 0), CountDown(p, togo), ms, j + 1))
  }

  /** What all MCUs of a scan are coded by, across restarts. */
  function AllItems(p: SequentialScan, n: nat, last: seq<int>, togo: nat, ms: seq<Mcu>, j: nat): Items
    requires Tested(p, n) && |last| == |p.comps| && FullMcus(p, ms) && j <= |ms| && AllInRange(p, n, last, togo, ms, j)
    decreases |ms| - j
  {
    if j == |ms| then Nil
    else
      var pr := Prediction(p, last, togo);
      McuItems(p, pr, ms[j], 0, AllItems(p, n, McuLast(p, pr, ms[j], 0), CountDown(p, togo), ms, j + 1))
  }

  /** The entropy encoder while statistics are gathered. */
  class Gatherer {
    const p: SequentialScan
    const c: Counters
    const n: nat
    var last: seq<int>
    var restartsToGo: nat

    /** Initialize for a scan: allocate and zero the statistics tables. */
    constructor (p: SequentialScan, n: nat)
      requires Tested(p, n)
      ensures this.p == p && this.n == n && fresh(c) && fresh(c.dc) && fresh(c.ac) && Valid()
      ensures last == ZeroDc(|p.comps|) && restartsToGo == p.restartInterval
      ensures forall t, s :: 0 <= t < n && 0 <= s < SYMBOLS ==> c.dc[t, s] == c.ac[t, s] == 0
    {
      this.p, this.n := p, n;
      c := new Counters(n);
      last, restartsToGo := ZeroDc(|p.comps|), p.restartInterval;
    }

    predicate Valid()
      reads this
    {
      Tested(p, n) && c.Sized(n) && |last| == |p.comps|
    }

    /** The blocks of an MCU. */
    method TestBlocks(m: Mcu, ghost rest: Items) returns (ok: bool)
      requires Valid() && |m| == |p.membership|
      modifies `last, c.dc, c.ac
      ensures Valid() && (ok <==> old(McuInRange(p, last, m, 0)))
      ensures ok ==> last == old(McuLast(p, last, m, 0)) && c.Counts(n, McuItems(p, old(last), m, 0, rest), rest)
    {
      hide BlockItems, Uses, InRange;
      ghost var on := McuInRange(p, last, m, 0);
      for i := 0 to |p.membership|
        invariant Valid() && (McuInRange(p, last, m, i) <==> on)
        invariant McuLast(p, last, m, i) == McuLast(p, old(last), m, 0)
        invariant on ==> c.Counts(n, McuItems(p, old(last), m, 0, rest), McuItems(p, last, m, i, rest))
      {
        var ci := p.membership[i];
        ghost var after := last[ci := m[i][0]];
        ghost var more := if on then McuItems(p, after, m, i + 1, rest) else Nil;
        ok := TestOneBlock(c, p.comps[ci].dcTbl, p.comps[ci].acTbl, m[i], p.order, last[ci], n, more);
        if !ok {
          return;
        }
        last := last[ci := m[i][0]];
      }
      ok := true;
    }

    /** Trial-encode one MCU's worth of Huffman-compressed coefficients. No data is actually output. */
    method GatherMcu(m: Mcu, ghost rest: Items) returns (ok: bool)
      requires Valid() && |m| == |p.membership|
      modifies this, c.dc, c.ac
      ensures Valid() && (ok <==> old(McuInRange(p, Prediction(p, last, restartsToGo), m, 0)))
      ensures ok ==> && last == old(McuLast(p, Prediction(p, last, restartsToGo), m, 0))
                     && restartsToGo == CountDown(p, old(restartsToGo))
                     && c.Counts(n, McuItems(p, old(Prediction(p, last, restartsToGo)), m, 0, rest), rest)
    {
      // Take care of restart intervals if needed
      if p.restartInterval != 0 {
        if restartsToGo == 0 {
          last := ZeroDc(|p.comps|);
          restartsToGo := p.restartInterval;
        }
        restartsToGo := restartsToGo - 1;
      }
      ok := TestBlocks(m, rest);
    }
  }

  /** A statistics pass over a scan: every symbol that an output pass would emit is counted, as often as it would be. */
  method GatherScan(p: SequentialScan, n: nat, ms: seq<Mcu>) returns (c: Counters, ok: bool)
    requires Tested(p, n) && FullMcus(p, ms)
    ensures fresh(c) && fresh(c.dc) && fresh(c.ac) && c.Sized(n)
    ensures ok <==> AllInRange(p, n, ZeroDc(|p.comps|), p.restartInterval, ms, 0)
    ensures ok ==> var all := AllItems(p, n, ZeroDc(|p.comps|), p.restartInterval, ms, 0);
              forall t, s :: 0 <= t < n && 0 <= s < SYMBOLS ==>
                c.dc[t, s] == Uses(all, true, t, s) && c.ac[t, s] == Uses(all, false, t, s)
  {
    hide McuItems, McuInRange, McuLast;
    var g := new Gatherer(p, n);
    c := g.c;
    ghost var on := AllInRange(p, n, g.last, g.restartsToGo, ms, 0);
    ghost var all := if on then AllItems(p, n, g.last, g.restartsToGo, ms, 0) else Nil;
    for j := 0 to |ms|
      invariant g.Valid() && g.p == p && g.n == n && g.c == c && fresh(g) && fresh(c) && fresh(c.dc) && fresh(c.ac)
      invariant AllInRange(p, n, g.last, g.restartsToGo, ms, j) <==> on
      invariant on ==> forall t, s :: 0 <= t < n && 0 <= s < SYMBOLS ==>
                  && c.dc[t, s] + Uses(AllItems(p, n, g.last, g.restartsToGo, ms, j), true, t, s)
                    == Uses(all, true, t, s)
                  && c.ac[t, s] + Uses(AllItems(p, n, g.last, g.restartsToGo, ms, j), false, t, s)
                    == Uses(all, false, t, s)
    {
      ghost var pr := Prediction(p, g.last, g.restartsToGo);
      ghost var rest := if on then AllItems(p, n, McuLast(p, pr, ms[j], 0), CountDown(p, g.restartsToGo), ms, j + 1)
        else Nil;
      ok := g.GatherMcu(ms[j], rest);
      if !ok {
        return;
      }
    }
    ok := true;
  }
}

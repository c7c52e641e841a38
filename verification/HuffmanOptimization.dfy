/** Huffman tables made from the counts of a statistics pass (jchuff.c, finish_pass_gather), and the output pass that
    uses them: it never lacks a code. */
module HuffmanOptimization {
  import opened ProbabilityTable
  import opened CoefficientModel
  import opened HuffmanCost
  import opened CodeLengths
  import opened BitWriter
  import opened DerivedTable
  import opened HuffmanBlock
  import opened HuffmanScan
  import opened HuffmanSegments
  import HuffmanTable
  import opened HuffmanStatistics

  // Tables made from the counts

  /** The counts of a table, with the pseudo-symbol. */
  ghost function Row(counts: array2<nat>, tbl: nat): (f: Counts)
    requires tbl < counts.Length0 && counts.Length1 == SYMBOLS
    reads counts
    ensures f[256] == 1 && forall s :: 0 <= s < 256 ==> f[s] == counts[tbl, s]
  {
    seq(SYMBOLS, s requires 0 <= s < SYMBOLS reads counts => if s == 256 then 1 else counts[tbl, s])
  }

  /** Some symbols have been counted, but not more than jpeg_gen_optimal_table can deal with. */
  ghost predicate Countable(counts: array2<nat>, tbl: nat, isDC: bool)
    requires tbl < counts.Length0 && counts.Length1 == SYMBOLS
    reads counts
  {
    && 1 <= Used(Row(counts, tbl), 256) <= 254 && Total(Row(counts, tbl), SYMBOLS) <= HuffmanTable.LIMIT
    && (isDC ==> forall s :: 16 <= s < 256 ==> counts[tbl, s] == 0)
  }

  lemma {:induction false} SameUsed(f: Counts, g: Counts, n: nat)
    requires n <= SYMBOLS && forall s :: 0 <= s < n ==> f[s] == g[s]
    ensures Used(f, n) == Used(g, n)
  {
    if n > 0 {
      SameUsed(f, g, n - 1);
    }
  }

  /** The codes are as short as Huffman's algorithm makes them, unless that is longer than 16 bits. */
  ghost predicate Shortest(f: Counts, d: Derived, size: Counts)
    requires d.Sized()
  {
    && HuffmanTable.BestSizes(f, size)
    && ((forall s :: 0 <= s < SYMBOLS ==> size[s] <= 16) ==> forall s: byte :: f[s] > 0 ==> d.ehufsi[s] == size[s])
  }

  /** Exactly the counted symbols have codes, the shortest ones possible. */
  ghost predicate HasCodes(counts: array2<nat>, tbl: nat, d: Derived)
    requires tbl < counts.Length0 && counts.Length1 == SYMBOLS && d.Sized()
    reads counts
  {
    && (forall s: byte :: d.Coded(s) <==> counts[tbl, s] > 0)
    && exists size: Counts :: Shortest(Row(counts, tbl), d, size)
  }

  lemma {:induction false} CountedHas(counts: array2<nat>, tbl: nat, d: Derived, s: byte)
    requires tbl < counts.Length0 && counts.Length1 == SYMBOLS && d.Sized() && HasCodes(counts, tbl, d)
    ensures d.Coded(s) <==> counts[tbl, s] > 0
  {
    hide Shortest, Row;
  }

  lemma {:induction false} HasAll(counts: array2<nat>, tbl: nat, d: Derived, size: Counts)
    requires tbl < counts.Length0 && counts.Length1 == SYMBOLS && d.Sized()
    requires (forall s: byte :: d.Coded(s) <==> counts[tbl, s] > 0) && Shortest(Row(counts, tbl), d, size)
    ensures HasCodes(counts, tbl, d)
  {
    hide Shortest, Row;
  }

  /** The best table for the counts, and what the output pass derives from it. */
  method GenerateTable(counts: array2<nat>, tbl: nat, isDC: bool) returns (d: Derived, ok: bool)
    requires tbl < counts.Length0 && counts.Length1 == SYMBOLS && Countable(counts, tbl, isDC)
    ensures ok ==> d.Good() && d.Sized() && HasCodes(counts, tbl, d)
    ensures !ok ==> Total(Row(counts, tbl), SYMBOLS) >= HuffmanTable.OVERFLOW_TOTAL
  {
    hide HasCodes, Shortest;
    d := Derived([], []);
    var freq := new nat[SYMBOLS](s => 0);
    for s := 0 to SYMBOLS
      invariant forall q :: 0 <= q < s ==> freq[q] == counts[tbl, q]
    {
      freq[s] := counts[tbl, s];
    }
    ghost var f := Row(counts, tbl);
    assert freq[..][256 := 1] == f;
    SameUsed(freq[..], f, 256);
    var r;
    ghost var size;
    r, size := HuffmanTable.GenOptimalTable(freq);
    if r.ClenOverflow? {
      return d, false;
    }
    GeneratedAccepted(f, r.table, isDC);
    var m := MakeDerived(r.table, isDC);
    d, ok := m.tbl, true;
    Shortens(f, r.table, d, size);
    HasAll(counts, tbl, d, size);
  }

  lemma {:induction false} Shortens(f: Counts, t: HuffmanTable.Table, d: Derived, size: Counts)
    requires HuffmanTable.GoodTable(f, t) && d.Sized() && HuffmanTable.BestSizes(f, size)
    requires |t.bits| == 17 && Words(t.bits, 16) == |t.huffval| && LengthsPlaced(d, t.bits, t.huffval, |t.huffval|)
    requires (forall s :: 0 <= s < SYMBOLS ==> size[s] <= 16) ==> HuffmanTable.GivesLengths(t, size)
    ensures Shortest(f, d, size)
  {
    hide HuffmanTable.BestSizes, LengthsPlaced, HuffmanTable.GivesLengths;
    if forall s :: 0 <= s < SYMBOLS ==> size[s] <= 16 {
      forall s: byte | f[s] > 0 ensures d.ehufsi[s] == size[s] {
        BestLengths(t, size, d, s);
      }
    }
  }

  /** A table without codes. */
  function NoCodes(): (d: Derived)
    ensures d.Good()
  {
    Derived(seq(256, i => 0), seq(256, i => 0))
  }

  /** The tables in use have codes for the counted symbols. */
  ghost predicate Covers(p: SequentialScan, c: Counters, n: nat, t: Tables, ncomps: nat)
    requires Tested(p, n) && c.Sized(n) && ncomps <= |p.comps|
    reads c.dc, c.ac
  {
    && t.Good() && |t.dc| == |t.ac| == n
    && forall i :: 0 <= i < ncomps ==>
         && HasCodes(c.dc, p.comps[i].dcTbl, t.dc[p.comps[i].dcTbl])
         && (HasAc(p) ==> HasCodes(c.ac, p.comps[i].acTbl, t.ac[p.comps[i].acTbl]))
  }

  /** There are AC coefficients. */
  predicate HasAc(p: SequentialScan) {
    |p.order| > 1
  }

  /** The counts are those of the symbols of a scan. */
  ghost predicate CountsOf(c: Counters, n: nat, all: Items)
    reads c.dc, c.ac
  {
    c.Sized(n) && forall t, s :: 0 <= t < n && 0 <= s < SYMBOLS ==>
      c.dc[t, s] == Uses(all, true, t, s) && c.ac[t, s] == Uses(all, false, t, s)
  }

  /** Too many symbols for code words of at most 32 bits may have been counted for some table. */
  ghost predicate ManyCounted(p: SequentialScan, all: Items) {
    exists k :: k in p.comps && (Symbols(all, true, k.dcTbl) >= HuffmanTable.OVERFLOW_TOTAL - 1
                                 || Symbols(all, false, k.acTbl) >= HuffmanTable.OVERFLOW_TOTAL - 1)
  }

  predicate AllGood(ds: seq<Derived>) {
    forall k :: 0 <= k < |ds| ==> ds[k].Good()
  }

  /** The tables in the set have been made from their counts. */
  ghost predicate Made(counts: array2<nat>, ds: seq<Derived>, did: set<nat>)
    reads counts
  {
    AllGood(ds) && forall k :: k in did ==>
      k < |ds| == counts.Length0 && counts.Length1 == SYMBOLS && ds[k].Sized()
      && HasCodes(counts, k, ds[k])
  }

  lemma {:induction false} CountsSized(c: Counters, n: nat, all: Items)
    requires CountsOf(c, n, all)
    ensures c.Sized(n)
  {
  }

  lemma {:induction false} NoneMade(counts: array2<nat>, ds: seq<Derived>)
    requires forall k :: 0 <= k < |ds| ==> ds[k] == NoCodes()
    ensures Made(counts, ds, {})
  {
  }

  lemma {:induction false} OneMoreMade(counts: array2<nat>, ds: seq<Derived>, did: set<nat>, k: nat, d: Derived)
    requires k < |ds| == counts.Length0 && counts.Length1 == SYMBOLS && d.Good()
    requires Made(counts, ds, did) && d.Sized() && HasCodes(counts, k, d)
    ensures Made(counts, ds[k := d], did + {k})
  {
    hide Derived.Good, HasCodes;
    forall i | i in did ensures i < |ds| && ds[i].Sized() && HasCodes(counts, i, ds[i]) {
    }
  }

  /** Make a table unless it has been made: generating it clobbers the counts in the source. */
  method MakeOnce(counts: array2<nat>, ds: seq<Derived>, did: set<nat>, tbl: nat, isDC: bool)
      returns (r: seq<Derived>, did2: set<nat>, ok: bool)
    requires tbl < |ds| == counts.Length0 && counts.Length1 == SYMBOLS && Countable(counts, tbl, isDC)
    requires Made(counts, ds, did)
    ensures |r| == |ds| && did2 == did + {tbl}
    ensures ok ==> Made(counts, r, did2)
    ensures !ok ==> Total(Row(counts, tbl), SYMBOLS) >= HuffmanTable.OVERFLOW_TOTAL
  {
    hide Countable, Made, HasCodes;
    r, did2, ok := ds, did + {tbl}, true;
    if tbl !in did {
      var d;
      d, ok := GenerateTable(counts, tbl, isDC);
      if ok {
        OneMoreMade(counts, ds, did, tbl, d);
        r := ds[tbl := d];
      }
    } else {
      assert did2 == did;
    }
  }

  /** Finish up a statistics-gathering pass and create the new Huffman tables, each only once. */
  method FinishGather(p: SequentialScan, c: Counters, n: nat, ghost all: Items) returns (t: Tables, ok: bool)
    requires Tested(p, n) && CountsOf(c, n, all) && OfScan(p, all) && InUse(p, all) && Few(p, all)
    ensures ok ==> Covers(p, c, n, t, |p.comps|)
    ensures !ok ==> ManyCounted(p, all)
  {
    hide Countable, OfScan, InUse, Few, CountsOf, HasCodes, Made, Covers, ManyCounted, NoCodes;
    CountsSized(c, n, all);
    var dcs, acs := seq(n, i => NoCodes()), seq(n, i => NoCodes());
    var didDc, didAc: set<nat> := {}, {};
    NoneMade(c.dc, dcs);
    NoneMade(c.ac, acs);
    for ci := 0 to |p.comps|
      invariant |dcs| == |acs| == n && Made(c.dc, dcs, didDc) && Made(c.ac, acs, didAc)
      invariant forall i :: 0 <= i < ci ==> p.comps[i].dcTbl in didDc && (HasAc(p) ==> p.comps[i].acTbl in didAc)
    {
      var k := p.comps[ci];
      TableCountable(p, c, n, all, k);
      dcs, didDc, ok := MakeOnce(c.dc, dcs, didDc, k.dcTbl, true);
      if !ok {
        return Tables(dcs, acs), false;
      }
      if |p.order| > 1 {
        acs, didAc, ok := MakeOnce(c.ac, acs, didAc, k.acTbl, false);
        if !ok {
          return Tables(dcs, acs), false;
        }
      }
    }
    t, ok := Tables(dcs, acs), true;
    AllDone(p, c, n, t, didDc, didAc);
  }

  lemma {:induction false} AllDone(p: SequentialScan, c: Counters, n: nat, t: Tables, didDc: set<nat>, didAc: set<nat>)
    requires Tested(p, n) && c.Sized(n) && |t.dc| == |t.ac| == n
    requires Made(c.dc, t.dc, didDc) && Made(c.ac, t.ac, didAc)
    requires forall i :: 0 <= i < |p.comps| ==> p.comps[i].dcTbl in didDc && (HasAc(p) ==> p.comps[i].acTbl in didAc)
    ensures Covers(p, c, n, t, |p.comps|)
  {
    hide HasCodes, Derived.Good;
  }

  // What can be counted

  function Symbols(items: Items, dc: bool, tbl: nat): nat {
    match items
    case Nil => 0
    case Then(i, rest) => Symbols(rest, dc, tbl) + if i.Symbol? && i.dc == dc && i.tbl == tbl then 1 else 0
  }

  /** Sizes of DC differences; runs of zeros with sizes of AC coefficients, the end of a block, or 16 zeros. */
  predicate LegalSymbol(dc: bool, s: byte) {
    if dc then s <= MAX_COEF_BITS + 1 else s == 0 || s == 0xF0 || 1 <= s % 16 <= MAX_COEF_BITS
  }

  /** Legal symbols of the tables that the components of the scan use. */
  ghost predicate OfScan(p: SequentialScan, items: Items) {
    items.Then? ==>
      && (items.first.Symbol? ==>
            && LegalSymbol(items.first.dc, items.first.s) && (items.first.dc || HasAc(p))
            && exists c :: c in p.comps && items.first.tbl == if items.first.dc then c.dcTbl else c.acTbl)
      && OfScan(p, items.rest)
  }

  /** Every table that is to be made has a symbol. */
  ghost predicate InUse(p: SequentialScan, all: Items) {
    forall k :: k in p.comps ==> Symbols(all, true, k.dcTbl) >= 1 && (HasAc(p) ==> Symbols(all, false, k.acTbl) >= 1)
  }

  /** No table has more symbols than jpeg_gen_optimal_table can deal with. */
  ghost predicate Few(p: SequentialScan, all: Items) {
    forall k :: k in p.comps ==>
      Symbols(all, true, k.dcTbl) < HuffmanTable.LIMIT && Symbols(all, false, k.acTbl) < HuffmanTable.LIMIT
  }

  lemma {:induction false} IllegalUnused(p: SequentialScan, items: Items, dc: bool, tbl: nat, s: byte)
    requires OfScan(p, items) && !LegalSymbol(dc, s)
    ensures Uses(items, dc, tbl, s) == 0
  {
    if items.Then? {
      IllegalUnused(p, items.rest, dc, tbl, s);
    }
  }

  function UsesRow(items: Items, dc: bool, tbl: nat): (f: Counts)
    ensures f[256] == 1 && forall s :: 0 <= s < 256 ==> f[s] == Uses(items, dc, tbl, s)
  {
    seq(SYMBOLS, s requires 0 <= s < SYMBOLS => if s == 256 then 1 else Uses(items, dc, tbl, s))
  }

  lemma {:induction false} NoUses(f: Counts, n: nat)
    requires n <= SYMBOLS && forall s :: 0 <= s < n ==> f[s] == 0
    ensures Total(f, n) == 0 && Used(f, n) == 0
  {
    if n > 0 {
      NoUses(f, n - 1);
    }
  }

  /** The counts of a table add up to the number of its symbols, and one for the pseudo-symbol. */
  lemma {:induction false} RowTotal(items: Items, dc: bool, tbl: nat)
    ensures Total(UsesRow(items, dc, tbl), SYMBOLS) == Symbols(items, dc, tbl) + 1
  {
    var f := UsesRow(items, dc, tbl);
    match items
    case Nil =>
      NoUses(f, 256);
    case Then(i, rest) =>
      RowTotal(rest, dc, tbl);
      var g := UsesRow(rest, dc, tbl);
      if i.Symbol? && i.dc == dc && i.tbl == tbl {
        TotalUpdate(g, i.s, g[i.s] + 1, SYMBOLS);
        assert f == g[i.s := g[i.s] + 1];
      } else {
        assert f == g;
      }
  }

  lemma {:induction false} UsedHoles(f: Counts, a: nat, b: nat, n: nat)
    requires a < b < 256 && n <= 256 && f[a] == 0 && f[b] == 0
    ensures Used(f, n) <= n - (if a < n then 1 else 0) - (if b < n then 1 else 0)
  {
    if n > 0 {
      UsedHoles(f, a, b, n - 1);
    }
  }

  lemma {:induction false} RowCountable(p: SequentialScan, all: Items, counts: array2<nat>, dc: bool, tbl: nat)
    requires tbl < counts.Length0 && counts.Length1 == SYMBOLS && OfScan(p, all)
    requires forall s :: 0 <= s < SYMBOLS ==> counts[tbl, s] == Uses(all, dc, tbl, s)
    requires 1 <= Symbols(all, dc, tbl) < HuffmanTable.LIMIT
    ensures Countable(counts, tbl, dc) && Total(Row(counts, tbl), SYMBOLS) == Symbols(all, dc, tbl) + 1
  {
    var f := Row(counts, tbl);
    assert f == UsesRow(all, dc, tbl);
    RowTotal(all, dc, tbl);
    if Used(f, 256) == 0 {
      NoneUsedZero(f, 256);
      NoUses(f, 256);
    }
    var a, b := 0xE0, 0xFF;
    IllegalUnused(p, all, dc, tbl, a);
    IllegalUnused(p, all, dc, tbl, b);
    UsedHoles(f, a, b, 256);
    forall s | dc && 16 <= s < 256 ensures counts[tbl, s] == 0 {
      IllegalUnused(p, all, dc, tbl, s);
    }
  }

  lemma {:induction false} NoneUsedZero(f: Counts, n: nat)
    requires n <= SYMBOLS && Used(f, n) == 0
    ensures forall s :: 0 <= s < n ==> f[s] == 0
  {
    if n > 0 {
      NoneUsedZero(f, n - 1);
    }
  }

  /** What jpeg_gen_optimal_table asks for follows from where the counts come from. */
  lemma {:induction false} TableCountable(p: SequentialScan, c: Counters, n: nat, all: Items, k: Component)
    requires Tested(p, n) && CountsOf(c, n, all) && OfScan(p, all) && InUse(p, all) && Few(p, all) && k in p.comps
    ensures c.Sized(n) && k.dcTbl < n && k.acTbl < n
    ensures Countable(c.dc, k.dcTbl, true)
    ensures Total(Row(c.dc, k.dcTbl), SYMBOLS) >= HuffmanTable.OVERFLOW_TOTAL ==> ManyCounted(p, all)
    ensures HasAc(p) ==>
              && Countable(c.ac, k.acTbl, false)
              && (Total(Row(c.ac, k.acTbl), SYMBOLS) >= HuffmanTable.OVERFLOW_TOTAL ==> ManyCounted(p, all))
  {
    hide OfScan, Countable;
    RowCountable(p, all, c.dc, true, k.dcTbl);
    if HasAc(p) {
      RowCountable(p, all, c.ac, false, k.acTbl);
    }
  }

  // The output pass finds a code for every symbol

  lemma {:induction false} RunsOfScan(p: SequentialScan, c: Component, r: nat, rest: Items)
    requires c in p.comps && OfScan(p, rest) && HasAc(p)
    ensures OfScan(p, LongRuns(c.acTbl, r, rest))
  {
    if r > 15 {
      RunsOfScan(p, c, r - 16, rest);
    }
  }

  lemma {:induction false} CoefficientLegal(r: nat, z: int)
    requires r < 16 && z != 0 && NBits(Abs(z)) <= MAX_COEF_BITS
    ensures LegalSymbol(false, 16 * r + NBits(Abs(z)))
  {
  }

  lemma {:induction false} AcsOfScan(p: SequentialScan, c: Component, zz: seq<int>, k: nat, r: nat, rest: Items)
    requires r < k <= |zz| == |p.order| <= 64 && AcInRange(zz) && c in p.comps && OfScan(p, rest)
    ensures OfScan(p, AcItems(c.acTbl, zz, k, r, rest))
    decreases |zz| - k
  {
    if k == |zz| {
    } else if zz[k] == 0 {
      AcsOfScan(p, c, zz, k + 1, r + 1, rest);
    } else {
      AcsOfScan(p, c, zz, k + 1, 0, rest);
      CoefficientLegal(r % 16, zz[k]);
      RunsOfScan(p, c, r, Coefficient(c.acTbl, r % 16, zz[k], AcItems(c.acTbl, zz, k + 1, 0, rest)));
    }
  }

  lemma {:induction false} McuOfScan(p: SequentialScan, n: nat, last: seq<int>, m: Mcu, i: nat, rest: Items)
    requires Tested(p, n) && |last| == |p.comps| && i <= |m| == |p.membership| && McuInRange(p, last, m, i)
             && OfScan(p, rest)
    ensures OfScan(p, McuItems(p, last, m, i, rest))
    decreases |m| - i
  {
    if i < |m| {
      var ci := p.membership[i];
      var after := last[ci := m[i][0]];
      McuOfScan(p, n, after, m, i + 1, rest);
      AcsOfScan(p, p.comps[ci], Zigzag(m[i], p.order), 1, 0, McuItems(p, after, m, i + 1, rest));
    }
  }

  lemma {:induction false} AllOfScan(p: SequentialScan, n: nat, last: seq<int>, togo: nat, ms: seq<Mcu>, j: nat)
    requires Tested(p, n) && |last| == |p.comps| && FullMcus(p, ms) && j <= |ms| && AllInRange(p, n, last, togo, ms, j)
    ensures OfScan(p, AllItems(p, n, last, togo, ms, j))
    decreases |ms| - j
  {
    if j < |ms| {
      var pr := Prediction(p, last, togo);
      var after := McuLast(p, pr, ms[j], 0);
      AllOfScan(p, n, after, CountDown(p, togo), ms, j + 1);
      McuOfScan(p, n, pr, ms[j], 0, AllItems(p, n, after, CountDown(p, togo), ms, j + 1));
    }
  }

  /** If everything that occurs has been counted, everything has a code. */
  lemma {:induction false} CountedCoded(p: SequentialScan, c: Counters, n: nat, t: Tables, items: Items)
    requires Tested(p, n) && c.Sized(n) && Covers(p, c, n, t, |p.comps|) && OfScan(p, items)
    requires forall tbl, s :: 0 <= tbl < n && 0 <= s < SYMBOLS ==>
               c.dc[tbl, s] >= Uses(items, true, tbl, s) && c.ac[tbl, s] >= Uses(items, false, tbl, s)
    ensures AllCoded(t, items)
  {
    hide HasCodes;
    if items.Then? {
      CountedCoded(p, c, n, t, items.rest);
      if items.first.Symbol? {
        var k :| k in p.comps && items.first.tbl == if items.first.dc then k.dcTbl else k.acTbl;
        var i :| 0 <= i < |p.comps| && p.comps[i] == k;
        var s := items.first.s;
        assert Uses(items, items.first.dc, items.first.tbl, s) > 0;
        if items.first.dc {
          CountedHas(c.dc, k.dcTbl, t.dc[k.dcTbl], s);
        } else {
          CountedHas(c.ac, k.acTbl, t.ac[k.acTbl], s);
        }
      }
    }
  }

  lemma {:induction false} AppendCoded(t: Tables, items: Items, more: Items)
    requires t.Good()
    ensures AllCoded(t, Append(items, more)) <==> AllCoded(t, items) && AllCoded(t, more)
  {
    if items.Then? {
      AppendCoded(t, items.rest, more);
    }
  }

  lemma {:induction false} CodedEncodes(o: State, p: SequentialScan, n: nat, t: Tables, ms: seq<Mcu>, j: nat)
    requires Tested(p, n) && p.Valid(t) && o.Fits(p) && FullMcus(p, ms) && j <= |ms|
    requires AllInRange(p, n, o.last, o.togo, ms, j) && AllCoded(t, AllItems(p, n, o.last, o.togo, ms, j))
    ensures EncodesFrom(o, p, t, ms, j)
    decreases |ms| - j
  {
    hide AllCoded, McuItems, McuInRange, McuLast, State.Behind, Tables.Good, Append;
    if j < |ms| {
      var pr := Prediction(p, o.last, o.togo);
      var rest := AllItems(p, n, McuLast(p, pr, ms[j], 0), CountDown(p, o.togo), ms, j + 1);
      McuAppend(p, t, pr, ms[j], 0, Nil, rest);
      assert Append(Nil, rest) == rest by {
        AppendNil(rest);
      }
      AppendCoded(t, McuItems(p, pr, ms[j], 0, Nil), rest);
      StepCounts(o, p, t, ms[j]);
      CodedEncodes(o.Step(p, t, ms[j]), p, n, t, ms, j + 1);
    }
  }

  lemma {:induction false} AppendNil(rest: Items)
    ensures Append(Nil, rest) == rest
  {
  }

  lemma {:induction false} StepCounts(o: State, p: SequentialScan, t: Tables, m: Mcu)
    requires p.Valid(t) && o.Fits(p) && |m| == |p.membership| && McuInRange(p, o.Prediction(p), m, 0)
    ensures o.Prediction(p) == Prediction(p, o.last, o.togo)
    ensures o.Step(p, t, m).last == McuLast(p, o.Prediction(p), m, 0) && o.Step(p, t, m).togo == CountDown(p, o.togo)
  {
  }

  /** After a statistics pass over a scan, an output pass over it never lacks a code: it can only be suspended. */
  lemma {:induction false} NeverMissing(start: seq<byte>, p: SequentialScan, c: Counters, n: nat, t: Tables,
                                        ms: seq<Mcu>)
    requires Tested(p, n) && p.Valid(t) && FullMcus(p, ms)
    requires AllInRange(p, n, ZeroDc(|p.comps|), p.restartInterval, ms, 0)
    requires CountsOf(c, n, AllItems(p, n, ZeroDc(|p.comps|), p.restartInterval, ms, 0))
    requires Covers(p, c, n, t, |p.comps|)
    ensures EncodesFrom(Fresh(p, start), p, t, ms, 0)
  {
    var none := ZeroDc(|p.comps|);
    AllOfScan(p, n, none, p.restartInterval, ms, 0);
    CountedCoded(p, c, n, t, AllItems(p, n, none, p.restartInterval, ms, 0));
    CodedEncodes(Fresh(p, start), p, n, t, ms, 0);
  }

  /** The encoder at the start of a scan. */
  function Fresh(p: SequentialScan, out: seq<byte>): (o: State)
    ensures o.Fits(p)
  {
    State(out, [], ZeroDc(|p.comps|), p.restartInterval, 0)
  }

  // Every table that is made has symbols in it

  lemma {:induction false} RunsSymbols(tbl: nat, r: nat, rest: Items, dc: bool, u: nat)
    ensures Symbols(LongRuns(tbl, r, rest), dc, u) >= Symbols(rest, dc, u)
  {
    if r > 15 {
      RunsSymbols(tbl, r - 16, rest, dc, u);
    }
  }

  /** Coefficients behind some zeros, or at least one more position, need a symbol. */
  lemma {:induction false} AcsSymbols(tbl: nat, zz: seq<int>, k: nat, r: nat, rest: Items, dc: bool, u: nat)
    requires r < k <= |zz| <= 64 && AcInRange(zz)
    ensures Symbols(AcItems(tbl, zz, k, r, rest), dc, u) >= Symbols(rest, dc, u) +
            if !dc && u == tbl && (r > 0 || k < |zz|) then 1 else 0
    decreases |zz| - k
  {
    if k < |zz| {
      if zz[k] == 0 {
        AcsSymbols(tbl, zz, k + 1, r + 1, rest, dc, u);
      } else {
        AcsSymbols(tbl, zz, k + 1, 0, rest, dc, u);
        RunsSymbols(tbl, r, Coefficient(tbl, r % 16, zz[k], AcItems(tbl, zz, k + 1, 0, rest)), dc, u);
      }
    }
  }

  lemma {:induction false} McuSymbols(p: SequentialScan, n: nat, last: seq<int>, m: Mcu, i: nat, rest: Items, ci: nat,
                                      dc: bool, u: nat)
    requires Tested(p, n) && |last| == |p.comps| && i <= |m| == |p.membership| && McuInRange(p, last, m, i)
             && ci < |p.comps|
    requires u == (if dc then p.comps[ci].dcTbl else p.comps[ci].acTbl) && (dc || HasAc(p))
    ensures Symbols(McuItems(p, last, m, i, rest), dc, u) >= Symbols(rest, dc, u)
    ensures ci in p.membership[i..] ==> Symbols(McuItems(p, last, m, i, rest), dc, u) >= 1
    decreases |m| - i
  {
    if i < |m| {
      var c := p.membership[i];
      var after := last[c := m[i][0]];
      var more := McuItems(p, after, m, i + 1, rest);
      McuSymbols(p, n, after, m, i + 1, rest, ci, dc, u);
      AcsSymbols(p.comps[c].acTbl, Zigzag(m[i], p.order), 1, 0, more, dc, u);
      assert p.membership[i..] == [p.membership[i]] + p.membership[i + 1..];
    }
  }

  /** MCU_membership names every component of the scan. */
  predicate AllMembers(p: SequentialScan) {
    forall ci :: 0 <= ci < |p.comps| ==> ci in p.membership
  }

  lemma {:induction false} ScanInUse(p: SequentialScan, n: nat, last: seq<int>, togo: nat, ms: seq<Mcu>)
    requires Tested(p, n) && |last| == |p.comps| && FullMcus(p, ms) && ms != [] && AllInRange(p, n, last, togo, ms, 0)
    requires AllMembers(p)
    ensures InUse(p, AllItems(p, n, last, togo, ms, 0))
  {
    var pr := Prediction(p, last, togo);
    var rest := AllItems(p, n, McuLast(p, pr, ms[0], 0), CountDown(p, togo), ms, 1);
    hide McuItems, McuInRange, McuLast, AllItems, Symbols;
    assert AllItems(p, n, last, togo, ms, 0) == McuItems(p, pr, ms[0], 0, rest) by {
      AllNext(p, n, last, togo, ms);
    }
    forall k | k in p.comps
      ensures Symbols(McuItems(p, pr, ms[0], 0, rest), true, k.dcTbl) >= 1
      ensures HasAc(p) ==> Symbols(McuItems(p, pr, ms[0], 0, rest), false, k.acTbl) >= 1
    {
      var ci :| 0 <= ci < |p.comps| && p.comps[ci] == k;
      assert p.membership[0..] == p.membership;
      McuSymbols(p, n, pr, ms[0], 0, rest, ci, true, k.dcTbl);
      if HasAc(p) {
        McuSymbols(p, n, pr, ms[0], 0, rest, ci, false, k.acTbl);
      }
    }
  }

  lemma {:induction false} AllNext(p: SequentialScan, n: nat, last: seq<int>, togo: nat, ms: seq<Mcu>)
    requires Tested(p, n) && |last| == |p.comps| && FullMcus(p, ms) && ms != [] && AllInRange(p, n, last, togo, ms, 0)
    ensures var pr := Prediction(p, last, togo);
            && McuInRange(p, pr, ms[0], 0)
            && AllInRange(p, n, McuLast(p, pr, ms[0], 0), CountDown(p, togo), ms, 1)
            && AllItems(p, n, last, togo, ms, 0) ==
               McuItems(p, pr, ms[0], 0, AllItems(p, n, McuLast(p, pr, ms[0], 0), CountDown(p, togo), ms, 1))
  {
  }

  // Both passes

  datatype Finished = Ended(outcome: Outcome, written: State) | ClenOverflow

  /** The symbols of a scan, if its coefficients can be coded at all. */
  ghost function ScanItems(p: SequentialScan, n: nat, ms: seq<Mcu>): Items
    requires Tested(p, n) && FullMcus(p, ms)
  {
    if AllInRange(p, n, ZeroDc(|p.comps|), p.restartInterval, ms, 0)
    then AllItems(p, n, ZeroDc(|p.comps|), p.restartInterval, ms, 0) else Nil
  }

  /** A scan with optimized tables: a statistics pass, the tables made from it, an output pass. Unless a coefficient
      is too large or there are millions of symbols, the scan is written, with a code for every symbol, or the
      destination stops taking data. */
  method EncodeOptimized(p: SequentialScan, n: nat, ms: seq<Mcu>, suspends: bool, size: nat, out: seq<byte>, free: nat,
                         rooms: seq<nat>)
      returns (f: Finished, t: Tables)
    requires Tested(p, n) && AllMembers(p) && FullMcus(p, ms) && ms != [] && Few(p, ScanItems(p, n, ms))
    requires size > 0 && free > 0 && forall k :: 0 <= k < |rooms| ==> rooms[k] > 0
    ensures f == Ended(BadCoefficient, Fresh(p, out))
            <==> !AllInRange(p, n, ZeroDc(|p.comps|), p.restartInterval, ms, 0)
    ensures f.ClenOverflow? ==> ManyCounted(p, ScanItems(p, n, ms))
    ensures f.Ended? ==> f.outcome == BadCoefficient || f.outcome == Done || (f.outcome == Suspended && suspends)
    ensures f.Ended? && f.outcome == Done ==>
              && p.Valid(t) && EncodesFrom(Fresh(p, out), p, t, ms, 0)
              && f.written == RunFrom(Fresh(p, out), p, t, ms, 0)
  {
    hide AllItems, AllInRange, OfScan, InUse, Few, ManyCounted, CountsOf, Covers, EncodesFrom, RunFrom;
    t := Tables([], []);
    var c, ok := GatherScan(p, n, ms);
    if !ok {
      return Ended(BadCoefficient, Fresh(p, out)), t;
    }
    ghost var all := ScanItems(p, n, ms);
    Gathered(p, c, n, ms);
    t, ok := FinishGather(p, c, n, all);
    if !ok {
      return ClenOverflow, t;
    }
    Usable(p, c, n, t);
    var enc := new Encoder(p, t, suspends, size, out, free);
    NeverMissing(out, p, c, n, t, ms);
    var r;
    ghost var suspensions;
    r, suspensions := EncodeAll(enc, ms, rooms);
    f := Ended(r, enc.Observed());
  }

  /** What a statistics pass leaves is what the tables are made from. */
  lemma {:induction false} Gathered(p: SequentialScan, c: Counters, n: nat, ms: seq<Mcu>)
    requires Tested(p, n) && AllMembers(p) && FullMcus(p, ms) && ms != [] && c.Sized(n)
    requires AllInRange(p, n, ZeroDc(|p.comps|), p.restartInterval, ms, 0)
    requires forall t, s :: 0 <= t < n && 0 <= s < SYMBOLS ==>
               c.dc[t, s] == Uses(ScanItems(p, n, ms), true, t, s)
                 && c.ac[t, s] == Uses(ScanItems(p, n, ms), false, t, s)
    ensures var all := ScanItems(p, n, ms);
            && all == AllItems(p, n, ZeroDc(|p.comps|), p.restartInterval, ms, 0)
            && CountsOf(c, n, all) && OfScan(p, all) && InUse(p, all)
  {
    hide AllItems, AllInRange, OfScan, InUse, Uses;
    AllOfScan(p, n, ZeroDc(|p.comps|), p.restartInterval, ms, 0);
    ScanInUse(p, n, ZeroDc(|p.comps|), p.restartInterval, ms);
  }

  lemma {:induction false} Usable(p: SequentialScan, c: Counters, n: nat, t: Tables)
    requires Tested(p, n) && c.Sized(n) && Covers(p, c, n, t, |p.comps|)
    ensures p.Valid(t)
  {
  }

}

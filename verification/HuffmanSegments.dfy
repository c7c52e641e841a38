/** Whole Huffman-coded scans: what a decoder finds in them, and what a statistics pass counts. */
module HuffmanSegments {
  import opened ProbabilityTable
  import opened ByteStream
  import opened CoefficientModel
  import opened BitString
  import opened BitWriter
  import opened DerivedTable
  import opened HuffmanBlock
  import opened HuffmanDecoding
  import opened HuffmanScan
  import ScanModel

  // Items in front of others

  function Append(items: Items, more: Items): Items {
    match items
    case Nil => more
    case Then(i, rest) => Then(i, Append(rest, more))
  }

  lemma {:induction false} AppendBits(t: Tables, items: Items, more: Items)
    requires t.Good() && AllCoded(t, items)
    ensures ItemsBits(t, Append(items, more)) == ItemsBits(t, items) + ItemsBits(t, more)
    ensures AllCoded(t, Append(items, more)) <==> AllCoded(t, more)
  {
    match items
    case Nil =>
    case Then(i, rest) =>
      AppendBits(t, rest, more);
      assert ItemBits(t, i) + (ItemsBits(t, rest) + ItemsBits(t, more))
          == ItemBits(t, i) + ItemsBits(t, rest) + ItemsBits(t, more);
  }

  lemma {:induction false} LongRunsAppend(tbl: nat, r: nat, rest: Items, more: Items)
    ensures LongRuns(tbl, r, Append(rest, more)) == Append(LongRuns(tbl, r, rest), more)
  {
    if r > 15 {
      LongRunsAppend(tbl, r - 16, rest, more);
    }
  }

  lemma {:induction false} AcAppend(tbl: nat, zz: seq<int>, k: nat, r: nat, rest: Items, more: Items)
    requires r < k <= |zz| <= 64 && AcInRange(zz)
    ensures AcItems(tbl, zz, k, r, Append(rest, more)) == Append(AcItems(tbl, zz, k, r, rest), more)
    decreases |zz| - k
  {
    if k == |zz| {
    } else if zz[k] == 0 {
      AcAppend(tbl, zz, k + 1, r + 1, rest, more);
    } else {
      AcAppend(tbl, zz, k + 1, 0, rest, more);
      LongRunsAppend(tbl, r, Coefficient(tbl, r % 16, zz[k], AcItems(tbl, zz, k + 1, 0, rest)), more);
    }
  }

  lemma {:induction false} BlockAppend(dcTbl: nat, acTbl: nat, zz: seq<int>, last: int, rest: Items, more: Items)
    requires 1 <= |zz| <= 64 && InRange(zz, last)
    ensures BlockItems(dcTbl, acTbl, zz, last, Append(rest, more))
            == Append(BlockItems(dcTbl, acTbl, zz, last, rest), more)
  {
    AcAppend(acTbl, zz, 1, 0, rest, more);
  }

  lemma {:induction false} McuAppend(p: SequentialScan, t: Tables, last: seq<int>, m: Mcu, i: nat, rest: Items,
                                     more: Items)
    requires p.Valid(t) && |last| == |p.comps| && i <= |m| == |p.membership| && McuInRange(p, last, m, i)
    ensures McuItems(p, last, m, i, Append(rest, more)) == Append(McuItems(p, last, m, i, rest), more)
    decreases |m| - i
  {
    if i < |m| {
      var ci := p.membership[i];
      var after := last[ci := m[i][0]];
      McuAppend(p, t, after, m, i + 1, rest, more);
      BlockAppend(p.comps[ci].dcTbl, p.comps[ci].acTbl, Zigzag(m[i], p.order), last[ci],
                  McuItems(p, after, m, i + 1, rest), more);
    }
  }

  // The MCUs of a segment

  predicate RunInRange(p: SequentialScan, t: Tables, last: seq<int>, ms: seq<Mcu>, j: nat, n: nat)
    requires p.Valid(t) && |last| == |p.comps| && FullMcus(p, ms) && j <= n <= |ms|
    decreases n - j
  {
    j == n || (McuInRange(p, last, ms[j], 0) && RunInRange(p, t, McuLast(p, last, ms[j], 0), ms, j + 1, n))
  }

  /** The MCUs j..n without a restart between them. */
  function RunItems(p: SequentialScan, t: Tables, last: seq<int>, ms: seq<Mcu>, j: nat, n: nat, rest: Items): Items
    requires p.Valid(t) && |last| == |p.comps| && FullMcus(p, ms) && j <= n <= |ms| && RunInRange(p, t, last, ms, j, n)
    decreases n - j
  {
    if j == n then rest
    else McuItems(p, last, ms[j], 0, RunItems(p, t, McuLast(p, last, ms[j], 0), ms, j + 1, n, rest))
  }

  // A decoder for them

  function DecodeMcu(p: SequentialScan, t: Tables, last: seq<int>, i: nat, bits: Bits): Option<(seq<seq<int>>, Bits)>
    requires p.Valid(t) && |last| == |p.comps| && i <= |p.membership|
    decreases |p.membership| - i
  {
    if i == |p.membership| then Some(([], bits))
    else
      var ci := p.membership[i];
      match DecodeBlock(t, p.comps[ci].dcTbl, p.comps[ci].acTbl, |p.order| - 1, last[ci], bits)
      case None => None
      case Some((zz, more)) =>
        if zz == [] then None
        else
          match DecodeMcu(p, t, last[ci := zz[0]], i + 1, more)
          case None => None
          case Some((blocks, rest)) => Some(([zz] + blocks, rest))
  }

  /** The DC predictions behind an MCU that has been decoded. */
  function LastOf(p: SequentialScan, t: Tables, last: seq<int>, blocks: seq<seq<int>>, i: nat): (r: seq<int>)
    requires p.Valid(t) && |last| == |p.comps| && i + |blocks| <= |p.membership|
    ensures |r| == |p.comps|
    decreases |blocks|
  {
    if blocks == [] then last
    else
      LastOf(p, t, if blocks[0] == [] then last else last[p.membership[i] := blocks[0][0]], blocks[1..], i + 1)
  }

  function DecodeRun(p: SequentialScan, t: Tables, last: seq<int>, n: nat,
                     bits: Bits): Option<(seq<seq<seq<int>>>, Bits)>
    requires p.Valid(t) && |last| == |p.comps|
    decreases n
  {
    if n == 0 then Some(([], bits))
    else
      match DecodeMcu(p, t, last, 0, bits)
      case None => None
      case Some((blocks, more)) =>
        if |blocks| != |p.membership| then None
        else
          match DecodeRun(p, t, LastOf(p, t, last, blocks, 0), n - 1, more)
          case None => None
          case Some((mcus, rest)) => Some(([blocks] + mcus, rest))
  }

  /** The coefficients of an MCU, in zigzag order. */
  function Coefficients(p: SequentialScan, m: Mcu, i: nat): (s: seq<seq<int>>)
    requires GoodOrder(p.order) && i <= |m|
    ensures |s| == |m| - i
    decreases |m| - i
  {
    if i == |m| then [] else [Zigzag(m[i], p.order)] + Coefficients(p, m, i + 1)
  }

  function AllCoefficients(p: SequentialScan, ms: seq<Mcu>, j: nat, n: nat): seq<seq<seq<int>>>
    requires GoodOrder(p.order) && j <= n <= |ms|
    decreases n - j
  {
    if j == n then [] else [Coefficients(p, ms[j], 0)] + AllCoefficients(p, ms, j + 1, n)
  }

  lemma {:induction false} McuDecodes(p: SequentialScan, t: Tables, last: seq<int>, m: Mcu, i: nat, rest: Items)
    requires p.Valid(t) && |last| == |p.comps| && i <= |m| == |p.membership| && McuInRange(p, last, m, i)
    requires AllCoded(t, McuItems(p, last, m, i, rest))
    ensures AllCoded(t, rest)
    ensures DecodeMcu(p, t, last, i, ItemsBits(t, McuItems(p, last, m, i, rest)))
         == Some((Coefficients(p, m, i), ItemsBits(t, rest)))
    ensures LastOf(p, t, last, Coefficients(p, m, i), i) == McuLast(p, last, m, i)
    decreases |m| - i
  {
    hide DecodeBlock, BlockItems, ItemsBits, AllCoded, Tables.Good;
    if i < |m| {
      var ci := p.membership[i];
      var zz := Zigzag(m[i], p.order);
      var after := last[ci := m[i][0]];
      assert zz[0] == m[i][0];
      BlockDecodes(t, p.comps[ci].dcTbl, p.comps[ci].acTbl, zz, last[ci], McuItems(p, after, m, i + 1, rest));
      McuDecodes(p, t, after, m, i + 1, rest);
      assert Coefficients(p, m, i)[0] == zz && Coefficients(p, m, i)[1..] == Coefficients(p, m, i + 1);
    }
  }

  /** Round trip: decoding the code bits of a run of MCUs yields these MCUs and what follows. */
  lemma {:induction false} RunDecodes(p: SequentialScan, t: Tables, last: seq<int>, ms: seq<Mcu>, j: nat, n: nat,
                                      rest: Items)
    requires p.Valid(t) && |last| == |p.comps| && FullMcus(p, ms) && j <= n <= |ms| && RunInRange(p, t, last, ms, j, n)
    requires AllCoded(t, RunItems(p, t, last, ms, j, n, rest))
    ensures AllCoded(t, rest)
    ensures DecodeRun(p, t, last, n - j, ItemsBits(t, RunItems(p, t, last, ms, j, n, rest)))
         == Some((AllCoefficients(p, ms, j, n), ItemsBits(t, rest)))
    decreases n - j
  {
    hide DecodeMcu, McuItems, ItemsBits, AllCoded, Tables.Good;
    if j < n {
      var after := McuLast(p, last, ms[j], 0);
      McuDecodes(p, t, last, ms[j], 0, RunItems(p, t, after, ms, j + 1, n, rest));
      RunDecodes(p, t, after, ms, j + 1, n, rest);
    }
  }

  function RunLast(p: SequentialScan, t: Tables, last: seq<int>, ms: seq<Mcu>, j: nat, n: nat): (r: seq<int>)
    requires p.Valid(t) && |last| == |p.comps| && FullMcus(p, ms) && j <= n <= |ms|
    ensures |r| == |p.comps|
    decreases n - j
  {
    if j == n then last else RunLast(p, t, McuLast(p, last, ms[j], 0), ms, j + 1, n)
  }

  /** One more MCU at the end of a run. */
  lemma {:induction false} RunOneMore(p: SequentialScan, t: Tables, last: seq<int>, ms: seq<Mcu>, j: nat, n: nat)
    requires p.Valid(t) && |last| == |p.comps| && FullMcus(p, ms) && j <= n < |ms| && RunInRange(p, t, last, ms, j, n)
    requires McuInRange(p, RunLast(p, t, last, ms, j, n), ms[n], 0)
    ensures RunInRange(p, t, last, ms, j, n + 1)
    ensures RunItems(p, t, last, ms, j, n + 1, Nil)
         == Append(RunItems(p, t, last, ms, j, n, Nil), McuItems(p, RunLast(p, t, last, ms, j, n), ms[n], 0, Nil))
    ensures RunLast(p, t, last, ms, j, n + 1) == McuLast(p, RunLast(p, t, last, ms, j, n), ms[n], 0)
    decreases n - j
  {
    if j < n {
      var after := McuLast(p, last, ms[j], 0);
      RunOneMore(p, t, after, ms, j + 1, n);
      McuAppend(p, t, last, ms[j], 0, RunItems(p, t, after, ms, j + 1, n, Nil),
                McuItems(p, RunLast(p, t, last, ms, j, n), ms[n], 0, Nil));
    }
  }

  lemma {:induction false} RunAppend(p: SequentialScan, t: Tables, last: seq<int>, ms: seq<Mcu>, j: nat, n: nat,
                                     more: Items)
    requires p.Valid(t) && |last| == |p.comps| && FullMcus(p, ms) && j <= n <= |ms| && RunInRange(p, t, last, ms, j, n)
    ensures RunItems(p, t, last, ms, j, n, more) == Append(RunItems(p, t, last, ms, j, n, Nil), more)
    decreases n - j
  {
    if j < n {
      var after := McuLast(p, last, ms[j], 0);
      RunAppend(p, t, after, ms, j + 1, n, more);
      McuAppend(p, t, last, ms[j], 0, RunItems(p, t, after, ms, j + 1, n, Nil), more);
    }
  }

  /** The MCUs from..to have been coded in one segment so far, without an error. */
  predicate InSegment(p: SequentialScan, t: Tables, ms: seq<Mcu>, from: nat, to: nat)
    requires p.Valid(t) && FullMcus(p, ms)
  {
    && from <= to <= |ms| && RunInRange(p, t, ZeroDc(|p.comps|), ms, from, to)
    && AllCoded(t, RunItems(p, t, ZeroDc(|p.comps|), ms, from, to, Nil))
  }

  function SegmentBits(p: SequentialScan, t: Tables, ms: seq<Mcu>, from: nat, to: nat): Bits
    requires p.Valid(t) && FullMcus(p, ms) && InSegment(p, t, ms, from, to)
  {
    ItemsBits(t, RunItems(p, t, ZeroDc(|p.comps|), ms, from, to, Nil))
  }

  /** A finished segment: its bits, filled up with ones. */
  predicate IsSegment(p: SequentialScan, t: Tables, ms: seq<Mcu>, s: ScanModel.Segment)
    requires p.Valid(t) && FullMcus(p, ms)
  {
    InSegment(p, t, ms, s.from, s.to) && s.data == Octets(SegmentBits(p, t, ms, s.from, s.to) + Ones(7))
  }

  predicate Chain(p: SequentialScan, t: Tables, ms: seq<Mcu>, segs: seq<ScanModel.Segment>, from: nat)
    requires p.Valid(t) && FullMcus(p, ms)
  {
    if segs == [] then from == 0
    else
      var n := |segs| - 1;
      && IsSegment(p, t, ms, segs[n]) && p.restartInterval > 0 && segs[n].to == from == segs[n].from + p.restartInterval
      && Chain(p, t, ms, segs[..n], segs[n].from)
  }

  /** What the encoder has written when j MCUs have been coded. */
  ghost predicate Consists(start: seq<byte>, o: State, p: SequentialScan, t: Tables, ms: seq<Mcu>, j: nat,
                           segs: seq<ScanModel.Segment>, from: nat)
    requires p.Valid(t) && FullMcus(p, ms)
  {
    && o.Fits(p) && InSegment(p, t, ms, from, j) && Chain(p, t, ms, segs, from)
    && o.out == start + ScanModel.Finished(segs) + Stuff(Octets(SegmentBits(p, t, ms, from, j)))
    && o.pending == Left(SegmentBits(p, t, ms, from, j))
    && o.last == RunLast(p, t, ZeroDc(|p.comps|), ms, from, j)
    && if p.restartInterval == 0 then segs == [] else o.togo + j == from + p.restartInterval && o.num == |segs| % 8
  }

  lemma {:induction false} WritesMore(head: seq<byte>, b: Bits, bits: Bits)
    ensures var w := Written(head + Stuff(Octets(b)), 0, Left(b));
            After(w, bits, false) == At(Written(head + Stuff(Octets(b + bits)), 0, Left(b + bits)))
  {
    hide Octets, Left, Stuff;
    WriteMore(b, bits);
    StuffAppend(Octets(b), Octets(Left(b) + bits));
    assert head + Stuff(Octets(b)) + Stuff(Octets(Left(b) + bits)) == head + Stuff(Octets(b + bits));
  }

  /** One more MCU in the segment. */
  lemma {:induction false} OneMoreInSegment(p: SequentialScan, t: Tables, ms: seq<Mcu>, from: nat, j: nat)
    requires p.Valid(t) && FullMcus(p, ms) && InSegment(p, t, ms, from, j) && j < |ms|
    requires var last := RunLast(p, t, ZeroDc(|p.comps|), ms, from, j);
             McuInRange(p, last, ms[j], 0) && AllCoded(t, McuItems(p, last, ms[j], 0, Nil))
    ensures var last := RunLast(p, t, ZeroDc(|p.comps|), ms, from, j);
            && InSegment(p, t, ms, from, j + 1)
            && SegmentBits(p, t, ms, from, j + 1)
               == SegmentBits(p, t, ms, from, j) + ItemsBits(t, McuItems(p, last, ms[j], 0, Nil))
            && RunLast(p, t, ZeroDc(|p.comps|), ms, from, j + 1) == McuLast(p, last, ms[j], 0)
  {
    hide ItemsBits, AllCoded, McuItems, McuInRange, RunItems, RunInRange, Tables.Good;
    var none := ZeroDc(|p.comps|);
    RunOneMore(p, t, none, ms, from, j);
    AppendBits(t, RunItems(p, t, none, ms, from, j, Nil), McuItems(p, RunLast(p, t, none, ms, from, j), ms[j], 0, Nil));
  }

  /** Nothing has been coded yet in a segment. */
  lemma {:induction false} EmptySegment(p: SequentialScan, t: Tables, ms: seq<Mcu>, j: nat)
    requires p.Valid(t) && FullMcus(p, ms) && j <= |ms|
    ensures InSegment(p, t, ms, j, j) && SegmentBits(p, t, ms, j, j) == []
    ensures Stuff(Octets([])) == [] && Left([]) == []
  {
  }

  /** The next MCU, inside a segment. */
  lemma {:induction false} StepInside(start: seq<byte>, o: State, p: SequentialScan, t: Tables, ms: seq<Mcu>, j: nat,
                                      segs: seq<ScanModel.Segment>, from: nat)
    requires p.Valid(t) && FullMcus(p, ms) && Consists(start, o, p, t, ms, j, segs, from) && j < |ms|
    requires !o.RestartsNow(p) && o.Encodes(p, t, ms[j])
    ensures Consists(start, o.Step(p, t, ms[j]), p, t, ms, j + 1, segs, from)
  {
    hide ItemsBits, AllCoded, McuItems, McuInRange, RunItems, RunInRange, Tables.Good, Octets, Left, Stuff, After,
         Chain;
    OneMoreInSegment(p, t, ms, from, j);
    WritesMore(start + ScanModel.Finished(segs), SegmentBits(p, t, ms, from, j),
               ItemsBits(t, McuItems(p, o.last, ms[j], 0, Nil)));
  }

  function Closed(p: SequentialScan, t: Tables, ms: seq<Mcu>, from: nat, j: nat): ScanModel.Segment
    requires p.Valid(t) && FullMcus(p, ms) && InSegment(p, t, ms, from, j)
  {
    ScanModel.Segment(from, j, [], Octets(SegmentBits(p, t, ms, from, j) + Ones(7)))
  }

  /** A restart marker closes the segment. */
  lemma {:induction false} Restarts(start: seq<byte>, o: State, p: SequentialScan, t: Tables, ms: seq<Mcu>, j: nat,
                                    segs: seq<ScanModel.Segment>, from: nat)
    requires p.Valid(t) && FullMcus(p, ms) && Consists(start, o, p, t, ms, j, segs, from) && o.RestartsNow(p)
    ensures var more := segs + [Closed(p, t, ms, from, j)];
            && Chain(p, t, ms, more, j)
            && Restarted(Written(o.out, 0, o.pending), o.num, false)
               == At(Written(start + ScanModel.Finished(more), 0, []))
  {
    hide RunInRange, RunItems, ItemsBits, AllCoded, Octets, Left, Stuff, After, Ones, InSegment, SegmentBits;
    var s := Closed(p, t, ms, from, j);
    var more := segs + [s];
    assert more[..|segs|] == segs && more[|segs|] == s;
    var head := start + ScanModel.Finished(segs);
    WritesMore(head, SegmentBits(p, t, ms, from, j), Ones(7));
    assert head + Stuff(s.data) + [0xFF, 0xD0 + |segs| % 8]
        == start + (ScanModel.Finished(segs) + Stuff(s.data) + [0xFF, 0xD0 + |segs| % 8]);
  }

  /** The next MCU, behind a restart marker. */
  lemma {:induction false} StepRestarts(start: seq<byte>, o: State, p: SequentialScan, t: Tables, ms: seq<Mcu>, j: nat,
                                        segs: seq<ScanModel.Segment>, from: nat) returns (more: seq<ScanModel.Segment>)
    requires p.Valid(t) && FullMcus(p, ms) && Consists(start, o, p, t, ms, j, segs, from) && j < |ms|
    requires o.RestartsNow(p) && o.Encodes(p, t, ms[j])
    ensures Consists(start, o.Step(p, t, ms[j]), p, t, ms, j + 1, more, j)
  {
    hide ItemsBits, AllCoded, McuItems, McuInRange, RunItems, RunInRange, Tables.Good, Octets, Left, Stuff, After,
         Chain,
         Restarted;
    Restarts(start, o, p, t, ms, j, segs, from);
    EmptySegment(p, t, ms, j);
    OneMoreInSegment(p, t, ms, j, j);
    more := segs + [Closed(p, t, ms, from, j)];
    var head := start + ScanModel.Finished(more);
    WritesMore(head, [], ItemsBits(t, McuItems(p, ZeroDc(|p.comps|), ms[j], 0, Nil)));
    assert head + [] == head;
  }

  /** A whole run of the encoder. */
  lemma {:induction false} RunConsists(start: seq<byte>, o: State, p: SequentialScan, t: Tables, ms: seq<Mcu>, j: nat,
                                       segs: seq<ScanModel.Segment>, from: nat)
      returns (segs2: seq<ScanModel.Segment>, from2: nat)
    requires p.Valid(t) && FullMcus(p, ms) && o.Fits(p) && Consists(start, o, p, t, ms, j, segs, from) && j <= |ms|
    requires EncodesFrom(o, p, t, ms, j)
    ensures Consists(start, RunFrom(o, p, t, ms, j), p, t, ms, |ms|, segs2, from2)
    decreases |ms| - j
  {
    hide Consists, State.Step, AllCoded;
    if j == |ms| {
      segs2, from2 := segs, from;
    } else if o.RestartsNow(p) {
      var more := StepRestarts(start, o, p, t, ms, j, segs, from);
      segs2, from2 := RunConsists(start, o.Step(p, t, ms[j]), p, t, ms, j + 1, more, j);
    } else {
      StepInside(start, o, p, t, ms, j, segs, from);
      segs2, from2 := RunConsists(start, o.Step(p, t, ms[j]), p, t, ms, j + 1, segs, from);
    }
  }

  /** The segments of a complete scan. */
  predicate IsScan(p: SequentialScan, t: Tables, ms: seq<Mcu>, segs: seq<ScanModel.Segment>)
    requires p.Valid(t) && FullMcus(p, ms)
  {
    segs != []
    && var n := |segs| - 1;
       IsSegment(p, t, ms, segs[n]) && segs[n].to == |ms| && Chain(p, t, ms, segs[..n], segs[n].from)
  }

  /** The bytes of a scan, up to the last one, filled up with ones: its segments with restart markers between them. */
  lemma {:induction false} ScanBytes(start: seq<byte>, p: SequentialScan, t: Tables, ms: seq<Mcu>)
      returns (segs: seq<ScanModel.Segment>)
    requires p.Valid(t) && FullMcus(p, ms)
    requires EncodesFrom(State(start, [], ZeroDc(|p.comps|), p.restartInterval, 0), p, t, ms, 0)
    ensures IsScan(p, t, ms, segs)
    ensures var o := RunFrom(State(start, [], ZeroDc(|p.comps|), p.restartInterval, 0), p, t, ms, 0);
            o.out + Stuff(Octets(o.pending + Ones(7))) == start + ScanModel.BytesFrom(segs, 0)
  {
    var o0 := State(start, [], ZeroDc(|p.comps|), p.restartInterval, 0);
    Starts(start, p, t, ms);
    var more, from := RunConsists(start, o0, p, t, ms, 0, [], 0);
    var o := RunFrom(o0, p, t, ms, 0);
    segs := more + [Closed(p, t, ms, from, |ms|)];
    assert segs[..|more|] == more;
    Finishes(start, o, p, t, ms, more, from);
  }

  lemma {:induction false} Starts(start: seq<byte>, p: SequentialScan, t: Tables, ms: seq<Mcu>)
    requires p.Valid(t) && FullMcus(p, ms)
    ensures Consists(start, State(start, [], ZeroDc(|p.comps|), p.restartInterval, 0), p, t, ms, 0, [], 0)
  {
    EmptySegment(p, t, ms, 0);
    assert start + [] + [] == start;
  }

  lemma {:induction false} Finishes(start: seq<byte>, o: State, p: SequentialScan, t: Tables, ms: seq<Mcu>,
                                    more: seq<ScanModel.Segment>, from: nat)
    requires p.Valid(t) && FullMcus(p, ms) && Consists(start, o, p, t, ms, |ms|, more, from)
    ensures o.out + Stuff(Octets(o.pending + Ones(7)))
         == start + ScanModel.BytesFrom(more + [Closed(p, t, ms, from, |ms|)], 0)
  {
    hide Octets, Left, Stuff, Ones, Chain, InSegment, SegmentBits;
    var b := SegmentBits(p, t, ms, from, |ms|);
    var s := Closed(p, t, ms, from, |ms|);
    var segs := more + [s];
    assert segs[..|more|] == more && segs[|more|] == s && segs[..0] == [];
    ScanModel.FinishedThenLast(segs, 0);
    assert [] + ScanModel.BytesFrom(segs, 0) == ScanModel.BytesFrom(segs, 0);
    WriteMore(b, Ones(7));
    StuffAppend(Octets(b), Octets(Left(b) + Ones(7)));
    var head := start + ScanModel.Finished(more);
    assert head + Stuff(Octets(b)) + Stuff(Octets(Left(b) + Ones(7)))
           == start + (ScanModel.Finished(more) + Stuff(s.data));
  }

  lemma {:induction false} OnesOfMinusOne(n: nat)
    ensures BitsOf(-1, n) == Ones(n)
  {
    if n > 0 {
      OnesOfMinusOne(n - 1);
    }
  }

  lemma {:induction false} FirstOnes(m: nat, n: nat)
    requires m <= n
    ensures Ones(n)[..m] == Ones(m)
  {
    if m < n {
      FirstOnes(m, n - 1);
      assert Ones(n)[..m] == Ones(n - 1)[..m];
    }
  }

  /** The bytes of a segment hold its bits and less than eight ones. */
  lemma {:induction false} FilledUp(b: Bits) returns (k: nat)
    ensures k < 8 && BitsOfBytes(Octets(b + Ones(7))) == b + Ones(k)
  {
    var all := b + Ones(7);
    var data, left := BitsOfBytes(Octets(all)), Left(all);
    NothingLost(all);
    k := 7 - |left|;
    assert data == all[..|data|];
    FirstOnes(k, 7);
    assert all[..|b| + k] == b + Ones(7)[..k];
  }

  /** Round trip of a segment: its data bytes decode to the MCUs that were coded; less than eight ones are left. */
  lemma {:induction false} SegmentDecodes(p: SequentialScan, t: Tables, ms: seq<Mcu>, s: ScanModel.Segment)
      returns (k: nat)
    requires p.Valid(t) && FullMcus(p, ms) && IsSegment(p, t, ms, s)
    ensures k < 8
    ensures DecodeRun(p, t, ZeroDc(|p.comps|), s.to - s.from, BitsOfBytes(s.data))
         == Some((AllCoefficients(p, ms, s.from, s.to), Ones(k)))
  {
    hide ItemsBits, AllCoded, RunItems, RunInRange, DecodeRun, AllCoefficients, Octets, BitsOfBytes, Ones;
    var b := SegmentBits(p, t, ms, s.from, s.to);
    k := FilledUp(b);
    var none, pad := ZeroDc(|p.comps|), Then(Raw(-1, k), Nil);
    PadBits(t, k);
    RunAppend(p, t, none, ms, s.from, s.to, pad);
    AppendBits(t, RunItems(p, t, none, ms, s.from, s.to, Nil), pad);
    RunDecodes(p, t, none, ms, s.from, s.to, pad);
  }

  lemma {:induction false} PadBits(t: Tables, k: nat)
    requires t.Good()
    ensures ItemsBits(t, Then(Raw(-1, k), Nil)) == Ones(k) && AllCoded(t, Then(Raw(-1, k), Nil))
  {
    OnesOfMinusOne(k);
    assert Ones(k) + [] == Ones(k);
    assert AllCoded(t, Nil) && ItemsBits(t, Nil) == [];
  }

  /** A decoder that meets a segment in its input finds its data bytes and the marker behind it, and decodes its
      MCUs. */
  lemma {:induction false} InputDecodes(p: SequentialScan, t: Tables, ms: seq<Mcu>, segs: seq<ScanModel.Segment>,
                                        g: nat, tail: Upcoming)
    requires p.Valid(t) && FullMcus(p, ms) && g < |segs| && IsSegment(p, t, ms, segs[g])
    requires tail.marker != 0 && tail.marker != 0xFF
    ensures var input := ScanModel.BytesFrom(segs, g) + [0xFF, tail.marker] + tail.rest;
            && NextMarker(input) == ScanModel.BehindSegment(segs, g, tail)
            && exists k :: 0 <= k < 8
                 && DecodeRun(p, t, ZeroDc(|p.comps|), segs[g].to - segs[g].from, BitsOfBytes(Data(input)))
                    == Some((AllCoefficients(p, ms, segs[g].from, segs[g].to), Ones(k)))
  {
    hide DecodeRun, AllCoefficients, BitsOfBytes, Data, NextMarker, SegmentBits, ScanModel.BytesFrom,
         ScanModel.BehindSegment;
    ScanModel.SegmentInput(segs, g, tail);
    var k := SegmentDecodes(p, t, ms, segs[g]);
  }

  /** The segments of a scan cover its MCUs, one restart interval after the other. */
  lemma {:induction false} ScanCovers(p: SequentialScan, t: Tables, ms: seq<Mcu>, segs: seq<ScanModel.Segment>, g: nat)
    requires p.Valid(t) && FullMcus(p, ms) && IsScan(p, t, ms, segs) && g < |segs|
    ensures IsSegment(p, t, ms, segs[g]) && (g == 0 ==> segs[g].from == 0)
    ensures if g + 1 < |segs| then segs[g + 1].from == segs[g].to == segs[g].from + p.restartInterval
            else segs[g].to == |ms|
  {
    hide Chain, SegmentBits, InSegment;
    ChainAt(p, t, ms, segs, |segs| - 1, g);
  }

  lemma {:induction false} ChainAt(p: SequentialScan, t: Tables, ms: seq<Mcu>, segs: seq<ScanModel.Segment>, n: nat,
                                   g: nat)
    requires p.Valid(t) && FullMcus(p, ms) && g <= n < |segs| && IsSegment(p, t, ms, segs[n])
    requires Chain(p, t, ms, segs[..n], segs[n].from)
    ensures IsSegment(p, t, ms, segs[g]) && (g == 0 ==> segs[g].from == 0)
    ensures g < n ==> segs[g + 1].from == segs[g].to == segs[g].from + p.restartInterval
  {
    hide IsSegment;
    if n > 0 {
      assert segs[..n][..n - 1] == segs[..n - 1];
      if g < n {
        ChainAt(p, t, ms, segs, n - 1, g);
      }
    }
  }
}

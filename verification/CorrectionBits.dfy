/** Huffman coding of AC refinement scans (jchuff.c, section G.1.2.3 of ITU-T T.81): correction bits wait in a buffer
    until the symbol that they belong to has been emitted. */
module CorrectionBits {
  import opened ProbabilityTable
  import opened ByteStream
  import opened CodingInterval
  import opened CoefficientModel
  import opened Approximation
  import opened RefinementDecoding

  const DCTSIZE2 := 64
  const MAX_CORR_BITS := 1000
  const MAX_EOBRUN := 0x7FFF

  /** The Huffman symbol of an event, if it has one. */
  function SymbolOf(e: Emission): nat {
    match e
    case EobRun(n) => 16 * Log(n)
    case Zrl => 0xF0
    case NewCoef(run, _) => 16 * run + 1
    case Correction(_) => 0
  }

  /** The symbol is in the table that section G.1.2 provides. */
  predicate Encodable(e: Emission) {
    match e
    case EobRun(n) => 1 <= n <= MAX_EOBRUN
    case Zrl => true
    case NewCoef(run, _) => run <= 15
    case Correction(_) => true
  }

  predicate AllEncodable(es: seq<Emission>) {
    forall i :: 0 <= i < |es| ==> Encodable(es[i])
  }

  /** Runs of ended blocks have at most 14 extra bits, from which they are recovered. */
  lemma {:induction false} EobRunSymbol(n: nat)
    requires 1 <= n <= MAX_EOBRUN
    ensures Log(n) <= 14 && SymbolOf(EobRun(n)) <= 0xE0
    ensures Shr(n, Log(n)) == 1
  {
    PowersInUse();
    LogBound(n, 15);
    HighestBit(n);
  }

  /** The band ss..se of a block, without the bits below al. */
  function Band(block: Block, order: seq<nat>, ss: nat, se: nat, al: nat): (w: seq<int>)
    requires GoodOrder(order) && ss <= se < |order|
    ensures |w| == se - ss + 1
    ensures forall k :: ss <= k <= se ==> w[k - ss] == PointTransform(block[order[k]], al)
  {
    Transformed(block, order, al)[ss..se + 1]
  }

  lemma {:induction false} SignKept(x: int, al: nat)
    ensures PointTransform(x, al) != 0 ==> (x < 0 <==> PointTransform(x, al) < 0)
  {
    ShrSign(x, al);
    ShrSign(-x, al);
  }

  class Refiner {
    const order: seq<nat>
    const ss: nat
    const se: nat
    const al: nat
    const bitBuffer: array<bit>      // buffer for correction bits
    var eobrun: nat                  // run length of EOBs
    var be: nat                      // number of buffered correction bits before MCU
    var events: seq<Emission>           // what has been emitted
    ghost var bands: seq<seq<int>>   // the bands of the blocks so far
    ghost var from: nat              // where the pending run begins in its first block

    constructor (order: seq<nat>, ss: nat, se: nat, al: nat)
      requires GoodOrder(order) && 1 <= ss <= se < |order|
      ensures fresh(bitBuffer) && bitBuffer.Length == 1000 && Valid() && bands == [] && events == []
      ensures this.order == order && this.ss == ss && this.se == se && this.al == al
    {
      this.order, this.ss, this.se, this.al := order, ss, se, al;
      bitBuffer := new bit[MAX_CORR_BITS](i => 0);
      eobrun, be, events, bands, from := 0, 0, [], [], 0;
    }

    ghost function Len(): nat
      requires ss <= se
    {
      se - ss + 1
    }

    ghost predicate Fine()
      reads this
    {
      && GoodOrder(order) && 1 <= ss <= se < |order| && bitBuffer.Length == MAX_CORR_BITS
      && eobrun <= MAX_EOBRUN && be <= MAX_CORR_BITS && AllEncodable(events) && Bands(bands, Len())
    }

    /** The decoder, given all events, awaits a symbol at coefficient m of block c. */
    ghost predicate Awaits(c: nat, m: nat)
      reads this
      requires Fine() && c <= |bands| && m <= Len() && (c == |bands| ==> m == 0)
    {
      Decode(PreviousBands(bands), Len(), events, START) == Reached(bands, Len(), c, m)
    }

    /** It does so there, or where the pending run of ended blocks begins; the buffer then holds the bits of that
        run. */
    ghost predicate Pending(c: nat, m: nat)
      reads this, bitBuffer
      requires Fine() && c <= |bands| && m <= Len() && (c == |bands| ==> m == 0)
    {
      if eobrun == 0 then be == 0 && Awaits(c, m)
      else
        && m == 0 && from < Len() && eobrun <= c && Awaits(c - eobrun, from)
        && RunQuiet(bands, Len(), c - eobrun, from, c)
        && bitBuffer[..be] == RunBits(bands, Len(), c - eobrun, from, c)
    }

    /** Between MCUs there is room for the bits of another block. */
    ghost predicate Valid()
      reads this, bitBuffer
    {
      Fine() && eobrun < MAX_EOBRUN && be <= MAX_CORR_BITS - DCTSIZE2 + 1 && Pending(|bands|, 0)
    }

    method Emit(e: Emission)
      requires Encodable(e) && AllEncodable(events)
      modifies `events
      ensures events == old(events) + [e] && AllEncodable(events)
    {
      events := events + [e];
    }

    /** Emit bits from the correction bit buffer. */
    method EmitBufferedBits(start: nat, nbits: nat)
      requires start + nbits <= bitBuffer.Length && AllEncodable(events)
      modifies `events
      ensures events == old(events) + AsEvents(bitBuffer[start..start + nbits]) && AllEncodable(events)
    {
      var i := 0;
      while i < nbits
        invariant 0 <= i <= nbits && AllEncodable(events)
        invariant events == old(events) + AsEvents(bitBuffer[start..start + i])
      {
        Emit(Correction(bitBuffer[start + i]));
        i := i + 1;
      }
    }

    /** Emit any pending EOBRUN symbol, and the correction bits buffered for it. */
    method EmitEobrun(ghost c: nat, ghost m: nat)
      requires Fine() && c <= |bands| && m <= Len() && (c == |bands| ==> m == 0) && Pending(c, m)
      modifies `events, `eobrun, `be
      ensures eobrun == 0 && be == 0 && Fine() && Awaits(c, m)
    {
      hide Decode, RunBits, RunQuiet, PreviousBands;
      if eobrun > 0 {
        var e := EobRun(eobrun);
        FlushedRun(bands, Len(), events, c - eobrun, from, c);
        Emit(e);
        eobrun := 0;
        EmitBufferedBits(0, be);
        assert events == old(events) + ([e] + AsEvents(bitBuffer[..be]));
        be := 0;
      }
    }

    /** Emit what is pending, then a symbol, then the correction bits that belong to it. */
    method EmitBehindPending(e: Emission, br: nat, ghost c: nat, ghost m: nat)
      requires Fine() && c < |bands| && m <= Len() && Pending(c, m) && be + br <= MAX_CORR_BITS && Encodable(e)
      modifies `events, `eobrun, `be
      ensures eobrun == 0 && be == 0 && Fine()
      ensures Decode(PreviousBands(bands), Len(), events, START)
           == Decode(PreviousBands(bands), Len(), [e] + AsEvents(old(bitBuffer[be..be + br])),
             Reached(bands, Len(), c, m))
    {
      hide Encodable, Decode, PreviousBands, Reached;
      var start := be;
      EmitEobrun(c, m);
      ghost var before := events;
      Emit(e);
      EmitBufferedBits(start, br);
      ghost var bits := AsEvents(bitBuffer[start..start + br]);
      assert events == before + ([e] + bits);
      Composed(PreviousBands(bands), Len(), before, [e] + bits, START);
    }

    /** A pre-pass to determine the transformed coefficients' absolute values and the position of the last newly nonzero
        coefficient. */
    method AbsoluteValues(block: Block) returns (absvalues: array<nat>, eob: nat)
      requires GoodOrder(order) && 1 <= ss <= se < |order|
      ensures fresh(absvalues) && absvalues.Length == DCTSIZE2
      ensures forall k :: ss <= k <= se ==> absvalues[k] == Abs(PointTransform(block[order[k]], al))
      ensures eob == 0 || (ss <= eob <= se && absvalues[eob] == 1)
      ensures forall k :: ss <= k <= se && k > eob ==> absvalues[k] != 1
    {
      absvalues := new nat[DCTSIZE2](i => 0);
      eob := 0;
      for k := ss to se + 1
        invariant forall q :: ss <= q < k ==> absvalues[q] == Abs(PointTransform(block[order[q]], al))
        invariant eob == 0 || (ss <= eob < k && absvalues[eob] == 1)
        invariant forall q :: ss <= q < k && q > eob ==> absvalues[q] != 1
      {
        var temp: int := block[order[k]];
        if temp < 0 {
          temp := -temp;
        }
        ShrSmaller(temp, al);
        temp := Shr(temp, al);
        absvalues[k] := temp;
        if temp == 1 {
          eob := k;  // EOB = index of last newly-nonzero coef
        }
      }
    }

    /** In the middle of the last block: the decoder needs a symbol at coefficient m; what has been gathered since
        then is r zeros and the br bits that have been appended to the buffer. */
    ghost predicate Midway(k: nat, eob: nat, m: nat, r: nat, br: nat)
      reads this, bitBuffer
    {
      && Fine() && eobrun < MAX_EOBRUN && be <= MAX_CORR_BITS - DCTSIZE2 + 1
      && |bands| > 0 && ss <= k <= se + 1 && m <= k - ss && br <= k - ss
      && Pending(|bands| - 1, m)
      && Gathered(bands[|bands| - 1], m, k - ss, eob - ss, r, bitBuffer[be..be + br])
    }

    /** Emit any required ZRLs, but not if they can be folded into EOB. */
    method EmitZrls(k: nat, eob: nat, ghost m0: nat, r0: nat, br0: nat) returns (ghost m: nat, r: nat, br: nat)
      requires Midway(k, eob, m0, r0, br0) && k <= se
      modifies `events, `eobrun, `be
      ensures Midway(k, eob, m, r, br) && (r > 15 ==> k > eob)
    {
      hide Decode, Reached, RunBits, RunQuiet, PreviousBands, Gathered, AsEvents;
      m, r, br := m0, r0, br0;
      while r > 15 && k <= eob
        invariant Midway(k, eob, m, r, br)
        decreases r
      {
        ghost var c := |bands| - 1;
        ghost var next := FollowsZrl(bands, Len(), c, m, k - ss, eob - ss, r, bitBuffer[be..be + br]);
        EmitBehindPending(Zrl, br, c, m);
        m := next;
        r := r - 16;
        br := 0;
      }
    }

    /** The correction bit is the next bit of the absolute value. */
    method AppendBit(k: nat, eob: nat, absvalue: nat, ghost m: nat, r: nat, br0: nat) returns (br: nat)
      requires Midway(k, eob, m, r, br0) && k <= se && (r > 15 ==> k > eob)
      requires absvalue == Abs(bands[|bands| - 1][k - ss]) && absvalue > 1
      modifies bitBuffer
      ensures Midway(k + 1, eob, m, r, br)
    {
      hide Decode, Reached, RunBits, RunQuiet, PreviousBands, Gathered, AsEvents;
      br := br0;
      ghost var before, pending := bitBuffer[be..be + br], bitBuffer[..be];
      GatheredOne(bands[|bands| - 1], m, k - ss, eob - ss, r, before);
      bitBuffer[be + br] := absvalue % 2;
      br := br + 1;
      assert bitBuffer[be..be + br] == before + [absvalue % 2] && bitBuffer[..be] == pending;
    }

    method EmitNewCoef(k: nat, eob: nat, negative: bool, ghost m: nat, r: nat, br: nat)
      requires Midway(k, eob, m, r, br) && k <= se && r <= 15
      requires var v := bands[|bands| - 1][k - ss];
               Abs(v) == 1 && negative == (v < 0)
      modifies `events, `eobrun, `be
      ensures Midway(k + 1, eob, k - ss + 1, 0, 0)
    {
      hide Decode, Reached, RunBits, RunQuiet, PreviousBands, Gathered, AsEvents;
      ghost var c := |bands| - 1;
      ghost var bits := bitBuffer[be..be + br];
      FollowsNewCoef(bands, Len(), c, m, k - ss, eob - ss, r, bits);
      EmitBehindPending(NewCoef(r, if negative then 0 else 1), br, c, m);
      GatheredNone(bands[c], k - ss + 1, eob - ss);
    }

    /** One coefficient: a zero, a correction bit, or a newly nonzero coefficient. */
    method RefineOne(k: nat, eob: nat, absvalue: nat, negative: bool, ghost m0: nat, r0: nat, br0: nat)
        returns (ghost m: nat, r: nat, br: nat)
      requires Midway(k, eob, m0, r0, br0) && k <= se
      requires var v := bands[|bands| - 1][k - ss];
               absvalue == Abs(v) && (v != 0 ==> negative == (v < 0)) && (absvalue == 1 ==> k <= eob)
      modifies this`events, this`eobrun, this`be, bitBuffer
      ensures Midway(k + 1, eob, m, r, br)
    {
      hide Pending, Gathered, AllEncodable;
      m, r, br := m0, r0, br0;
      if absvalue == 0 {
        GatheredOne(bands[|bands| - 1], m, k - ss, eob - ss, r, bitBuffer[be..be + br]);
        r := r + 1;
        return;
      }
      m, r, br := EmitZrls(k, eob, m, r, br);
      if absvalue > 1 {
        br := AppendBit(k, eob, absvalue, m, r, br);
      } else {
        EmitNewCoef(k, eob, negative, m, r, br);
        m := k - ss + 1;
        br := 0;
        r := 0;
      }
    }

    /** The main pass over the coefficients of a block. */
    method RefineAll(block: Block, absvalues: array<nat>, eob: nat) returns (ghost m: nat, r: nat, br: nat)
      requires Midway(ss, eob, 0, 0, 0) && absvalues.Length == DCTSIZE2
      requires bands[|bands| - 1] == Band(block, order, ss, se, al)
      requires forall k :: ss <= k <= se ==> absvalues[k] == Abs(PointTransform(block[order[k]], al))
      requires forall k :: ss <= k <= se && k > eob ==> absvalues[k] != 1
      modifies this`events, this`eobrun, this`be, bitBuffer
      ensures Midway(se + 1, eob, m, r, br)
    {
      hide Pending, Gathered, AllEncodable;
      m, r, br := 0, 0, 0;
      for k := ss to se + 1
        invariant Midway(k, eob, m, r, br)
        invariant absvalues[..] == old(absvalues[..])
      {
        SignKept(block[order[k]], al);
        m, r, br := RefineOne(k, eob, absvalues[k], block[order[k]] < 0, m, r, br);
      }
    }

    /** Count an EOB, and concatenate its correction bits to older ones. */
    method CountEob(ghost eob: nat, ghost m: nat, ghost r: nat, br: nat)
      requires Midway(se + 1, eob, m, r, br) && (r > 0 || br > 0)
      modifies `eobrun, `be, `from
      ensures Fine() && eobrun == old(eobrun) + 1 && be == old(be) + br && Pending(|bands|, 0)
    {
      hide Decode, PreviousBands, Gathered, RunBits, RunQuiet;
      ghost var c := |bands| - 1;
      ghost var bits := bitBuffer[be..be + br];
      GatheredLength(bands[c], m, Len(), eob - ss, r, bits);
      if eobrun == 0 {
        from := m;
        EmptyRun(bands, Len(), c, m);
      }
      JoinsRun(bands, Len(), c - eobrun, from, c, m, eob - ss, r, bitBuffer[..be], bits);
      assert bitBuffer[..be + br] == bitBuffer[..be] + bits;
      eobrun := eobrun + 1;
      be := be + br;
    }

    /** The end of a block. */
    method FinishBlock(ghost eob: nat, ghost m: nat, r: nat, br: nat)
      requires Midway(se + 1, eob, m, r, br)
      modifies `events, `eobrun, `be, `from
      ensures Valid()
      ensures r > 0 || br > 0 ==>
                if old(eobrun) + 1 == 0x7FFF || old(be) + br > 937 then eobrun == 0 && be == 0
                else eobrun == old(eobrun) + 1 && be == old(be) + br && events == old(events)
      ensures r == 0 && br == 0 ==> eobrun == old(eobrun) && be == old(be) && events == old(events)
    {
      hide Decode, PreviousBands, Gathered, RunBits, RunQuiet;
      if r > 0 || br > 0 {  // If there are trailing zeroes,
        CountEob(eob, m, r, br);
        // Force out the EOB if the counter or, during the next MCU, the buffer might overflow.
        if eobrun == MAX_EOBRUN || be > MAX_CORR_BITS - DCTSIZE2 + 1 {
          EmitEobrun(|bands|, 0);
        }
      } else {
        GatheredLength(bands[|bands| - 1], m, Len(), eob - ss, r, bitBuffer[be..be + br]);
      }
    }

    /** Encode the next bits of the coefficients ss..se of a block. The buffer is never overrun and every event has a
        symbol; when the pending run is emitted, the decoder has the block. */
    method EncodeMcu(block: Block)
      requires Valid()
      modifies this`events, this`eobrun, this`be, this`bands, this`from, bitBuffer
      ensures Valid() && bands == old(bands) + [Band(block, order, ss, se, al)]
    {
      hide Decode, PreviousBands, RunBits, RunQuiet, AsEvents, Reached, Gathered, Transformed;
      var absvalues, eob := AbsoluteValues(block);
      ghost var w := Band(block, order, ss, se, al);
      AnotherBlock(bands, w, Len(), events, |bands| - eobrun, if eobrun == 0 then 0 else from);
      if eobrun > 0 {
        SameRun(bands, w, Len(), |bands| - eobrun, from, |bands|);
        StillQuiet(bands, w, Len(), |bands| - eobrun, from, |bands|);
      }
      GatheredNone(w, 0, eob - ss);
      bands := bands + [w];
      assert bitBuffer[be..be + 0] == [];
      ghost var m: nat;
      var r, br;
      m, r, br := RefineAll(block, absvalues, eob);
      FinishBlock(eob, m, r, br);
    }

    /** Flush out any buffered data. */
    method FinishPass()
      requires Valid()
      modifies `events, `eobrun, `be
      ensures eobrun == 0 && be == 0 && Fine()
      ensures Decode(PreviousBands(bands), Len(), events, START) == Received(bands, [], Symbol)
    {
      hide Decode, PreviousBands;
      EmitEobrun(|bands|, 0);
      assert bands[..|bands|] == bands;
    }
  }

  /** The bands of a scan. */
  function ScanBands(blocks: seq<Block>, order: seq<nat>, ss: nat, se: nat, al: nat): (ws: seq<seq<int>>)
    requires GoodOrder(order) && ss <= se < |order|
    ensures Bands(ws, se - ss + 1) && |ws| == |blocks|
  {
    seq(|blocks|, i requires 0 <= i < |blocks| => Band(blocks[i], order, ss, se, al))
  }

  lemma {:induction false} PreviousOfScan(blocks: seq<Block>, order: seq<nat>, ss: nat, se: nat, al: nat)
    requires GoodOrder(order) && ss <= se < |order|
    ensures PreviousBands(ScanBands(blocks, order, ss, se, al)) == ScanBands(blocks, order, ss, se, al + 1)
  {
    var ws, was := ScanBands(blocks, order, ss, se, al), ScanBands(blocks, order, ss, se, al + 1);
    forall i, j | 0 <= i < |blocks| && 0 <= j < se - ss + 1 ensures was[i][j] == Half(ws[i][j]) {
      HalfTransform(blocks[i][order[ss + j]], al);
    }
    forall i | 0 <= i < |blocks| ensures PreviousBands(ws)[i] == was[i] {
    }
  }

  /** A whole refinement scan: a decoder that has the blocks down to bit al + 1, as the scan before left them,
      recovers all of them down to bit al, from events that all have a symbol. */
  method EncodeScan(blocks: seq<Block>, order: seq<nat>, ss: nat, se: nat, al: nat) returns (events: seq<Emission>)
    requires GoodOrder(order) && 1 <= ss <= se < |order|
    ensures AllEncodable(events)
    ensures Decode(ScanBands(blocks, order, ss, se, al + 1), se - ss + 1, events, START)
         == Received(ScanBands(blocks, order, ss, se, al), [], Symbol)
  {
    hide Decode, Band, PreviousBands, Refiner.Valid;
    var refiner := new Refiner(order, ss, se, al);
    for i := 0 to |blocks|
      invariant fresh(refiner) && fresh(refiner.bitBuffer) && refiner.Valid()
      invariant refiner.order == order && refiner.ss == ss && refiner.se == se && refiner.al == al
      invariant refiner.bands == ScanBands(blocks[..i], order, ss, se, al)
    {
      refiner.EncodeMcu(blocks[i]);
    }
    assert blocks[..|blocks|] == blocks;
    PreviousOfScan(blocks, order, ss, se, al);
    refiner.FinishPass();
    events := refiner.events;
  }
}

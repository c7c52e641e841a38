/** Sequential Huffman encoding of MCUs (jchuff.c): restart markers, and suspension with rollback. */
module HuffmanScan {
  import opened ProbabilityTable
  import opened ByteStream
  import opened CoefficientModel
  import opened BitString
  import opened BitWriter
  import opened DerivedTable
  import opened HuffmanBlock

  datatype SequentialScan = SequentialScan(comps: seq<Component>, membership: seq<nat>, order: seq<nat>,
                                           restartInterval: nat) {
    predicate Valid(t: Tables) {
      && GoodOrder(order) && t.Good()
      && (forall c :: c in comps ==> c.dcTbl < |t.dc| && c.acTbl < |t.ac|)
      && forall i :: 0 <= i < |membership| ==> membership[i] < |comps|
    }
  }

  /** The blocks of an MCU from the i-th one on, given the DC predictions, can be coded at all. */
  predicate McuInRange(p: SequentialScan, last: seq<int>, m: Mcu, i: nat)
    requires GoodOrder(p.order) && i <= |m| == |p.membership|
    requires |last| == |p.comps| && forall q :: 0 <= q < |p.membership| ==> p.membership[q] < |p.comps|
    decreases |m| - i
  {
    i == |m| || (
      var ci := p.membership[i];
      InRange(Zigzag(m[i], p.order), last[ci]) && McuInRange(p, last[ci := m[i][0]], m, i + 1))
  }

  function McuItems(p: SequentialScan, last: seq<int>, m: Mcu, i: nat, rest: Items): Items
    requires GoodOrder(p.order) && i <= |m| == |p.membership|
    requires |last| == |p.comps| && forall q :: 0 <= q < |p.membership| ==> p.membership[q] < |p.comps|
    requires McuInRange(p, last, m, i)
    decreases |m| - i
  {
    if i == |m| then rest
    else
      var ci := p.membership[i];
      BlockItems(p.comps[ci].dcTbl, p.comps[ci].acTbl, Zigzag(m[i], p.order), last[ci],
        McuItems(p, last[ci := m[i][0]], m, i + 1, rest))
  }

  function McuLast(p: SequentialScan, last: seq<int>, m: Mcu, i: nat): (r: seq<int>)
    requires i <= |m| == |p.membership|
    requires |last| == |p.comps| && forall q :: 0 <= q < |p.membership| ==> p.membership[q] < |p.comps|
    ensures |r| == |p.comps|
    decreases |m| - i
  {
    if i == |m| then last else McuLast(p, last[p.membership[i] := m[i][0]], m, i + 1)
  }

  function ZeroDc(n: nat): (s: seq<int>)
    ensures |s| == n && forall i :: 0 <= i < n ==> s[i] == 0
  {
    seq(n, i => 0)
  }

  /** A restart marker behind the bits, which are filled up with ones. */
  function Restarted(w: Written, num: nat, suspends: bool): Progress
    requires num < 8
  {
    match After(w, Ones(7), suspends)
    case Full => Full
    case At(v) =>
      if suspends && v.room <= 2 then Full
      else At(Written(v.out + [0xFF, 0xD0 + num], if suspends then v.room - 2 else v.room, []))
  }

  /** Emit a restart marker and resynchronize predictions. */
  method EmitRestart(st: WorkingState, num: nat) returns (r: Outcome)
    requires st.Valid() && num < 8
    modifies st
    ensures r == if Restarted(old(st.W()), num, st.suspends) == Full then Suspended else Done
    ensures r == Done ==> st.Valid() && At(st.W()) == Restarted(old(st.W()), num, st.suspends)
  {
    r := st.FlushBits();
    if r != Done {
      return;
    }
    var ok := st.EmitByte(0xFF);
    if ok {
      ok := st.EmitByte(0xD0 + num);
    }
    if !ok {
      r := Suspended;
    }
  }

  /** Encode the blocks of an MCU; returns the new DC predictions. */
  method EncodeBlocks(st: WorkingState, p: SequentialScan, t: Tables, last: seq<int>, m: Mcu)
      returns (r: Outcome, next: seq<int>)
    requires st.Valid() && p.Valid(t) && |last| == |p.comps| && |m| == |p.membership|
    modifies st
    ensures r == Suspended ==> st.suspends
    ensures r == BadCoefficient ==> !McuInRange(p, last, m, 0)
    ensures r == Done ==> McuInRange(p, last, m, 0) && next == McuLast(p, last, m, 0) && st.Valid()
    ensures McuInRange(p, last, m, 0) ==>
              Emits(t, old(st.W()), McuItems(p, last, m, 0, Nil), r, st.W(), Nil, st.suspends)
  {
    hide WorkingState.Valid, WorkingState.W, After, ItemsBits, AllCoded, Tables.Good, BlockItems, InRange;
    ghost var on := McuInRange(p, last, m, 0);
    ghost var w, all := st.W(), if on then McuItems(p, last, m, 0, Nil) else Nil;
    next := last;
    r := Done;
    for i := 0 to |p.membership|
      invariant r == Done && st.Valid() && |next| == |p.comps| && McuLast(p, next, m, i) == McuLast(p, last, m, 0)
      invariant McuInRange(p, next, m, i) <==> on
      invariant on ==> Emits(t, w, all, Done, st.W(), McuItems(p, next, m, i, Nil), st.suspends)
    {
      var ci := p.membership[i];
      ghost var after := next[ci := m[i][0]];
      ghost var rest := if on then McuItems(p, after, m, i + 1, Nil) else Nil;
      ghost var here := if on || !InRange(Zigzag(m[i], p.order), next[ci]) then (w, all)
                        else (st.W(), BlockItems(p.comps[ci].dcTbl, p.comps[ci].acTbl, Zigzag(m[i], p.order), next[ci],
                          rest));
      r := EncodeOneBlock(st, t, p.comps[ci].dcTbl, p.comps[ci].acTbl, m[i], p.order, next[ci], here.0, here.1, rest);
      if r != Done {
        return;
      }
      next := next[ci := m[i][0]];
    }
  }

  lemma {:induction false} NothingMore(w: Written, suspends: bool)
    requires |w.pending| < 8 && (suspends ==> w.room > 0)
    ensures After(w, [], suspends) == At(w)
  {
    assert w.pending + [] == w.pending;
    StuffNone();
    assert w.out + [] == w.out;
  }

  /** What can be observed of the encoder between MCUs, apart from the room in the buffer. */
  datatype State = State(out: seq<byte>, pending: Bits, last: seq<int>, togo: nat, num: nat) {
    predicate Fits(p: SequentialScan) {
      |last| == |p.comps| && |pending| < 8 && num < 8
    }

    predicate RestartsNow(p: SequentialScan) {
      p.restartInterval != 0 && togo == 0
    }

    /** The predictions for the next MCU. */
    function Prediction(p: SequentialScan): seq<int> {
      if RestartsNow(p) then ZeroDc(|p.comps|) else last
    }

    /** The output in front of the next MCU. */
    function Ahead(p: SequentialScan, room: nat, suspends: bool): Progress
      requires Fits(p)
    {
      var w := Written(out, room, pending);
      if RestartsNow(p) then Restarted(w, num, suspends) else At(w)
    }

    predicate Encodes(p: SequentialScan, t: Tables, m: Mcu)
      requires p.Valid(t) && Fits(p) && |m| == |p.membership|
    {
      && McuInRange(p, Prediction(p), m, 0)
      && AllCoded(t, McuItems(p, Prediction(p), m, 0, Nil))
    }

    /** The output behind the next MCU. */
    function Behind(p: SequentialScan, t: Tables, m: Mcu, room: nat, suspends: bool): Progress
      requires p.Valid(t) && Fits(p) && |m| == |p.membership| && McuInRange(p, Prediction(p), m, 0)
    {
      match Ahead(p, room, suspends)
      case Full => Full
      case At(v) => After(v, ItemsBits(t, McuItems(p, Prediction(p), m, 0, Nil)), suspends)
    }

    function Count(p: SequentialScan): (nat, nat) {
      if p.restartInterval == 0 then (togo, num)
      else if togo == 0 then (p.restartInterval - 1, (num + 1) % 8)
      else (togo - 1, num)
    }

    /** After the next MCU. */
    function Step(p: SequentialScan, t: Tables, m: Mcu): (r: State)
      requires p.Valid(t) && Fits(p) && |m| == |p.membership| && McuInRange(p, Prediction(p), m, 0)
      ensures r.Fits(p)
    {
      match Behind(p, t, m, 0, false)
      case Full => this
      case At(w) => State(w.out, w.pending, McuLast(p, Prediction(p), m, 0), Count(p).0, Count(p).1)
    }
  }

  /** The bytes written do not depend on the room in the buffer. */
  lemma {:induction false} RoomDoesNotMatter(w: Written, bits: Bits, room: nat, suspends: bool)
    requires After(w, bits, suspends).At?
    ensures var v, u := After(w, bits, suspends).w, After(w.(room := room), bits, false);
            u == At(v.(room := room))
  {
  }

  lemma {:induction false} RestartRoomDoesNotMatter(w: Written, num: nat, room: nat, suspends: bool)
    requires num < 8 && Restarted(w, num, suspends).At?
    ensures var v, u := Restarted(w, num, suspends).w, Restarted(w.(room := room), num, false);
            u == At(v.(room := room))
  {
    RoomDoesNotMatter(w, Ones(7), room, suspends);
  }

  lemma {:induction false} StepRoom(o: State, p: SequentialScan, t: Tables, m: Mcu, room: nat, suspends: bool)
    requires p.Valid(t) && o.Fits(p) && |m| == |p.membership| && McuInRange(p, o.Prediction(p), m, 0)
    requires o.Behind(p, t, m, room, suspends).At?
    ensures var v := o.Behind(p, t, m, room, suspends).w;
            o.Step(p, t, m) == State(v.out, v.pending, McuLast(p, o.Prediction(p), m, 0), o.Count(p).0, o.Count(p).1)
  {
    hide After, Restarted;
    var bits := ItemsBits(t, McuItems(p, o.Prediction(p), m, 0, Nil));
    if o.RestartsNow(p) {
      RestartRoomDoesNotMatter(Written(o.out, room, o.pending), o.num, 0, suspends);
    }
    RoomDoesNotMatter(o.Ahead(p, room, suspends).w, bits, 0, suspends);
  }

  lemma {:induction false} OnlyIfSuspending(o: State, p: SequentialScan, room: nat, suspends: bool)
    requires o.Fits(p) && o.Ahead(p, room, suspends) == Full
    ensures suspends
  {
  }

  lemma {:induction false} NothingToCode(t: Tables)
    requires t.Good()
    ensures ItemsBits(t, Nil) == [] && AllCoded(t, Nil)
  {
  }

  /** The entropy encoder with its destination. */
  class Encoder {
    const p: SequentialScan
    const t: Tables            // the derived tables
    const suspends: bool       // the destination refuses to be emptied
    const size: nat            // room in an empty buffer
    var out: seq<byte>         // what the destination has received and what is in its buffer
    var free: nat              // byte spaces remaining in buffer
    var putBuffer: int         // saved: bit buffer at start of MCU
    var putBits: nat
    var last: seq<int>         // saved: DC predictions
    var restartsToGo: nat
    var nextRestartNum: nat

    predicate Valid()
      reads this
    {
      && p.Valid(t) && |last| == |p.comps| && nextRestartNum < 8 && free > 0 && size > 0
      && putBits <= 7 && Justified(putBuffer % TOP, Shr(putBuffer % TOP, 24 - putBits), putBits)
    }

    function Observed(): State
      reads this
      requires Valid()
    {
      State(out, BitsOf(Shr(putBuffer % TOP, 24 - putBits), putBits), last, restartsToGo, nextRestartNum)
    }

    /** Initialize for a Huffman-compressed scan. */
    constructor (p: SequentialScan, t: Tables, suspends: bool, size: nat, out: seq<byte>, free: nat)
      requires p.Valid(t) && free > 0 && size > 0
      ensures this.p == p && this.t == t && this.suspends == suspends && Valid() && this.free == free
      ensures Observed() == State(out, [], ZeroDc(|p.comps|), p.restartInterval, 0)
    {
      this.p, this.t, this.suspends, this.size, this.out, this.free := p, t, suspends, size, out, free;
      putBuffer, putBits, last := 0, 0, ZeroDc(|p.comps|);
      restartsToGo, nextRestartNum := p.restartInterval, 0;
      new;
      EmptyBuffer();
    }

    /** The room that matters. */
    function Room(): nat
      reads this
    {
      if suspends then free else 0
    }

    /** Load up working state, and emit restart marker if needed. */
    method StartMcu() returns (st: WorkingState, r: Outcome, cur: seq<int>)
      requires Valid()
      ensures fresh(st) && st.suspends == suspends
      ensures r == if Observed().Ahead(p, Room(), suspends) == Full then Suspended else Done
      ensures r == Done ==> st.Valid() && At(st.W()) == Observed().Ahead(p, Room(), suspends)
      ensures cur == Observed().Prediction(p)
    {
      st := new WorkingState(suspends, size, out, free, putBuffer, putBits);
      cur := last;
      r := Done;
      if p.restartInterval != 0 && restartsToGo == 0 {
        r := EmitRestart(st, nextRestartNum);
        cur := ZeroDc(|p.comps|);
      }
    }

    /** Completed MCU, so update state. */
    method FinishMcu(st: WorkingState, cur: seq<int>)
      requires Valid() && st.Valid() && st.suspends == suspends && |cur| == |p.comps|
      modifies this
      ensures Valid()
      ensures Observed() == State(st.out, st.W().pending, cur, old(Observed()).Count(p).0, old(Observed()).Count(p).1)
    {
      hide Justified, Shr, BitsOf;
      out, free, putBuffer, putBits, last := st.out, st.free, st.putBuffer, st.putBits, cur;
      if p.restartInterval != 0 {
        if restartsToGo == 0 {
          restartsToGo := p.restartInterval;
          nextRestartNum := (nextRestartNum + 1) % 8;
        }
        restartsToGo := restartsToGo - 1;
      }
    }

    /** Encode and output one MCU's worth of Huffman-compressed coefficients. If the output must be suspended, or an
        error occurs, nothing has changed; the MCU will be presented again. */
    method EncodeMcu(m: Mcu) returns (r: Outcome)
      requires Valid() && |m| == |p.membership|
      modifies this
      ensures Valid()
      ensures r == Done ==> old(Observed()).Encodes(p, t, m) && Observed() == old(Observed()).Step(p, t, m)
      ensures r != Done ==> Observed() == old(Observed()) && free == old(free)
      ensures old(Observed()).Encodes(p, t, m) ==>
                r == if old(Observed()).Behind(p, t, m, old(Room()), suspends) == Full then Suspended else Done
      ensures r == Suspended ==> suspends
    {
      hide After, Restarted, ItemsBits, AllCoded, McuItems, McuInRange, McuLast;
      ghost var o, room := Observed(), Room();
      var st, cur;
      st, r, cur := StartMcu();
      if r != Done {
        OnlyIfSuspending(o, p, room, suspends);
        return;
      }
      r, cur := EncodeBlocks(st, p, t, cur, m);
      if r != Done {
        return;
      }
      FinishMcu(st, cur);
      NothingMore(st.W(), suspends);
      NothingToCode(t);
      StepRoom(o, p, t, m, room, suspends);
    }

    /** Finish up at the end of a Huffman-compressed scan; the output can not be suspended any more. */
    method FinishPass() returns (r: Outcome)
      requires Valid()
      modifies this
      ensures r == if After(Written(old(out), old(Room()), old(Observed()).pending), Ones(7), suspends) == Full
                   then Suspended else Done
      ensures r == Done ==> out == old(out) + Stuff(Octets(old(Observed()).pending + Ones(7)))
    {
      hide Justified, Shr, BitsOf, Octets, Left, Stuff, Ones;
      var st := new WorkingState(suspends, size, out, free, putBuffer, putBits);
      r := st.FlushBits();
      if r == Done {
        out, free, putBuffer, putBits := st.out, st.free, st.putBuffer, st.putBits;
      }
    }
  }

  predicate FullMcus(p: SequentialScan, ms: seq<Mcu>) {
    forall j :: 0 <= j < |ms| ==> |ms[j]| == |p.membership|
  }

  /** The MCUs from the j-th one on can be coded. */
  predicate EncodesFrom(o: State, p: SequentialScan, t: Tables, ms: seq<Mcu>, j: nat)
    requires p.Valid(t) && o.Fits(p) && FullMcus(p, ms) && j <= |ms|
    decreases |ms| - j
  {
    j == |ms| || (o.Encodes(p, t, ms[j]) && EncodesFrom(o.Step(p, t, ms[j]), p, t, ms, j + 1))
  }

  /** The encoder after all MCUs. */
  function RunFrom(o: State, p: SequentialScan, t: Tables, ms: seq<Mcu>, j: nat): (r: State)
    requires p.Valid(t) && o.Fits(p) && FullMcus(p, ms) && j <= |ms| && EncodesFrom(o, p, t, ms, j)
    ensures r.Fits(p)
    decreases |ms| - j
  {
    if j == |ms| then o else RunFrom(o.Step(p, t, ms[j]), p, t, ms, j + 1)
  }

  /** An application with a destination that is emptied only between calls: after a suspension the MCU is presented
      again, with some other room in the buffer. However often this happens, each MCU is coded once, in order, and
      the bytes are those of an uninterrupted run. */
  method EncodeAll(enc: Encoder, ms: seq<Mcu>, rooms: seq<nat>) returns (r: Outcome, ghost suspensions: nat)
    requires enc.Valid() && FullMcus(enc.p, ms) && forall k :: 0 <= k < |rooms| ==> rooms[k] > 0
    modifies enc
    ensures enc.Valid() && suspensions <= |rooms|
    ensures r == Done ==> EncodesFrom(old(enc.Observed()), enc.p, enc.t, ms, 0)
                          && enc.Observed() == RunFrom(old(enc.Observed()), enc.p, enc.t, ms, 0)
    ensures r == Suspended ==> enc.suspends && suspensions == |rooms|
    ensures EncodesFrom(old(enc.Observed()), enc.p, enc.t, ms, 0) ==> r == Done || r == Suspended
  {
    hide State.Encodes, State.Step, State.Behind, Justified, SequentialScan.Valid;
    ghost var o := enc.Observed();
    ghost var on := EncodesFrom(o, enc.p, enc.t, ms, 0);
    r := Done;
    suspensions := 0;
    var i, k := 0, 0;
    while i < |ms|
      invariant 0 <= i <= |ms| && 0 <= k <= |rooms| && suspensions == k && enc.Valid() && enc.Observed().Fits(enc.p)
      invariant on <==> EncodesFrom(enc.Observed(), enc.p, enc.t, ms, i)
      invariant on ==> RunFrom(enc.Observed(), enc.p, enc.t, ms, i) == RunFrom(o, enc.p, enc.t, ms, 0)
      invariant r == Done
      decreases |ms| - i, |rooms| - k
    {
      r := enc.EncodeMcu(ms[i]);
      if r == Done {
        i := i + 1;
      } else if r == Suspended && k < |rooms| {
        EmptyDestination(enc, rooms[k]);
        r := Done;
        k := k + 1;
        suspensions := k;
      } else {
        return;
      }
    }
  }

  /** The application takes the bytes out of the buffer, or provides another one. */
  method EmptyDestination(enc: Encoder, room: nat)
    requires enc.Valid() && room > 0
    modifies enc`free
    ensures enc.Valid() && enc.Observed() == old(enc.Observed())
  {
    enc.free := room;
  }
}

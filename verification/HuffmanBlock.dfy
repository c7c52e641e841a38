/** Huffman coding of one block (jchuff.c; section F.1.2 of ITU-T T.81). */
module HuffmanBlock {
  import opened ProbabilityTable
  import opened ByteStream
  import opened CoefficientModel
  import opened BitString
  import opened BitWriter
  import opened DerivedTable

  const MAX_COEF_BITS := 10

  /** What is coded: a symbol of a DC or of an AC table, or the low bits of a value. */
  datatype Item = Symbol(dc: bool, tbl: nat, s: byte) | Raw(value: int, n: nat)

  datatype Items = Nil | Then(first: Item, rest: Items)

  /** The number of bits needed for a magnitude. */
  function NBits(v: nat): nat {
    if v == 0 then 0 else 1 + NBits(v / 2)
  }

  /** The value itself if positive, the complement of its magnitude if negative. */
  function Extra(v: int): int {
    if v < 0 then v - 1 else v
  }

  // Like the decisions of arithmetic coding, items are given in front of the rest of the items

  /** Section F.1.2.1: a DC difference. */
  function DcItems(tbl: nat, diff: int, rest: Items): Items
    requires DcInRange(diff)
  {
    var n := NBits(Abs(diff));
    Then(Symbol(true, tbl, n), if n > 0 then Then(Raw(Extra(diff), n), rest) else rest)
  }

  /** Special codes for runs of 16 zeros. */
  function LongRuns(tbl: nat, r: nat, rest: Items): Items {
    if r > 15 then Then(Symbol(false, tbl, 0xF0), LongRuns(tbl, r - 16, rest)) else rest
  }

  /** A run of less than 16 zeros and a nonzero coefficient. */
  function Coefficient(tbl: nat, r: nat, z: int, rest: Items): Items
    requires r < 16 && NBits(Abs(z)) <= MAX_COEF_BITS
  {
    var n := NBits(Abs(z));
    Then(Symbol(false, tbl, 16 * r + n), Then(Raw(Extra(z), n), rest))
  }

  /** Section F.1.2.2: the coefficients from position k on, behind r zeros. */
  function AcItems(tbl: nat, zz: seq<int>, k: nat, r: nat, rest: Items): Items
    requires r < k <= |zz| <= 64 && AcInRange(zz)
    decreases |zz| - k
  {
    if k == |zz| then if r > 0 then Then(Symbol(false, tbl, 0), rest) else rest
    else if zz[k] == 0 then AcItems(tbl, zz, k + 1, r + 1, rest)
    else LongRuns(tbl, r, Coefficient(tbl, r % 16, zz[k], AcItems(tbl, zz, k + 1, 0, rest)))
  }

  /** The encoder rejects larger coefficients. */
  predicate AcInRange(zz: seq<int>) {
    forall i :: 1 <= i < |zz| ==> NBits(Abs(zz[i])) <= MAX_COEF_BITS
  }

  predicate DcInRange(diff: int) {
    NBits(Abs(diff)) <= MAX_COEF_BITS + 1
  }

  predicate InRange(zz: seq<int>, last: int)
    requires zz != []
  {
    DcInRange(zz[0] - last) && AcInRange(zz)
  }

  function BlockItems(dcTbl: nat, acTbl: nat, zz: seq<int>, last: int, rest: Items): Items
    requires 1 <= |zz| <= 64 && InRange(zz, last)
  {
    DcItems(dcTbl, zz[0] - last, AcItems(acTbl, zz, 1, 0, rest))
  }

  // Their code bits

  datatype Tables = Tables(dc: seq<Derived>, ac: seq<Derived>) {
    predicate Good() {
      (forall i :: 0 <= i < |dc| ==> dc[i].Good()) && (forall i :: 0 <= i < |ac| ==> ac[i].Good())
    }

    predicate Has(i: Item) {
      i.Symbol? ==> i.tbl < if i.dc then |dc| else |ac|
    }

    function Table(i: Item): Derived
      requires i.Symbol? && Has(i)
    {
      if i.dc then dc[i.tbl] else ac[i.tbl]
    }
  }

  predicate AllHave(t: Tables, items: Items) {
    items.Then? ==> t.Has(items.first) && AllHave(t, items.rest)
  }

  /** Every symbol has a code. */
  predicate AllCoded(t: Tables, items: Items)
    requires t.Good()
  {
    items.Then? ==>
      && t.Has(items.first) && (items.first.Symbol? ==> t.Table(items.first).Coded(items.first.s))
      && AllCoded(t, items.rest)
  }

  function ItemBits(t: Tables, i: Item): Bits
    requires t.Good() && t.Has(i)
  {
    match i
    case Symbol(_, _, s) => t.Table(i).Word(s)
    case Raw(v, n) => BitsOf(v, n)
  }

  function ItemsBits(t: Tables, items: Items): Bits
    requires t.Good()
  {
    if items.Nil? || !t.Has(items.first) then [] else ItemBits(t, items.first) + ItemsBits(t, items.rest)
  }

  /** What has been written when these bits have been, or nothing if that does not fit. */
  datatype Progress = Full | At(w: Written)

  function After(w: Written, bits: Bits, suspends: bool): Progress {
    if Fits(w, bits, suspends) then At(Write(w, bits, suspends)) else Full
  }

  /** Emitting an item brings the output nearer to what it is after all of them. */
  lemma {:induction false} Emitted(t: Tables, w: Written, items: Items, suspends: bool)
    requires t.Good() && items.Then? && t.Has(items.first)
    ensures After(w, ItemsBits(t, items), suspends)
         == match After(w, ItemBits(t, items.first), suspends)
            case Full => Full
            case At(v) => After(v, ItemsBits(t, items.rest), suspends)
  {
    WriteTwice(w, ItemBits(t, items.first), ItemsBits(t, items.rest), suspends);
  }

  /** Of all items, those before the rest have been emitted; or else there is a reason why not. */
  ghost predicate Emits(t: Tables, w: Written, all: Items, r: Outcome, now: Written, rest: Items, suspends: bool)
    requires t.Good()
  {
    match r
    case Done =>
      && After(now, ItemsBits(t, rest), suspends) == After(w, ItemsBits(t, all), suspends)
      && (AllCoded(t, rest) <==> AllCoded(t, all))
    case Suspended => After(w, ItemsBits(t, all), suspends) == Full
    case MissingCode => !AllCoded(t, all)
    case BadCoefficient => false
  }

  // In the following methods, w is the output and all are the items at the start of an MCU

  method EmitSymbol(st: WorkingState, t: Tables, dc: bool, tbl: nat, s: byte, ghost w: Written, ghost all: Items,
                    ghost rest: Items) returns (r: Outcome)
    requires st.Valid() && t.Good() && t.Has(Symbol(dc, tbl, s))
    requires Emits(t, w, all, Done, st.W(), Then(Symbol(dc, tbl, s), rest), st.suspends)
    modifies st
    ensures r == Suspended ==> st.suspends
    ensures Emits(t, w, all, r, st.W(), rest, st.suspends) && (r == Done ==> st.Valid())
  {
    var d := if dc then t.dc[tbl] else t.ac[tbl];
    assert d.Coded(s) ==> d.ehufsi[s] <= 16;
    Emitted(t, st.W(), Then(Symbol(dc, tbl, s), rest), st.suspends);
    r := st.EmitBits(d.ehufco[s], d.ehufsi[s]);
  }

  method EmitRaw(st: WorkingState, ghost t: Tables, v: int, n: nat, ghost w: Written, ghost all: Items,
                 ghost rest: Items)
      returns (r: Outcome)
    requires st.Valid() && t.Good() && 1 <= n <= 16
             && Emits(t, w, all, Done, st.W(), Then(Raw(v, n), rest), st.suspends)
    modifies st
    ensures r == Suspended ==> st.suspends
    ensures Emits(t, w, all, r, st.W(), rest, st.suspends) && (r == Done ==> st.Valid())
  {
    Emitted(t, st.W(), Then(Raw(v, n), rest), st.suspends);
    r := st.EmitBits(v, n);
  }

  /** Find the number of bits needed for the magnitude of the coefficient. */
  method CountBits(v: nat) returns (nbits: nat)
    ensures nbits == NBits(v)
  {
    nbits := 0;
    var temp := v;
    while temp != 0
      invariant nbits + NBits(temp) == NBits(v)
    {
      nbits := nbits + 1;
      temp := temp / 2;
    }
  }

  /** Encode the DC coefficient difference per section F.1.2.1. */
  method EncodeDc(st: WorkingState, t: Tables, tbl: nat, diff: int, ghost w: Written, ghost all: Items,
                  ghost rest: Items)
      returns (r: Outcome)
    requires st.Valid() && t.Good() && tbl < |t.dc|
    requires DcInRange(diff) ==> Emits(t, w, all, Done, st.W(), DcItems(tbl, diff, rest), st.suspends)
    modifies st
    ensures r == Suspended ==> st.suspends
    ensures r == BadCoefficient <==> !DcInRange(diff)
    ensures r != BadCoefficient ==> Emits(t, w, all, r, st.W(), rest, st.suspends)
    ensures r == Done ==> st.Valid()
  {
    hide WorkingState.Valid, WorkingState.W, After, ItemsBits, AllCoded, Tables.Good;
    var temp, temp2 := diff, diff;
    if temp < 0 {
      temp := -temp;
      temp2 := temp2 - 1;
    }
    var nbits := CountBits(temp);
    if nbits > MAX_COEF_BITS + 1 {
      return BadCoefficient;
    }
    r := EmitSymbol(st, t, true, tbl, nbits, w, all, if nbits > 0 then Then(Raw(temp2, nbits), rest) else rest);
    if r == Done && nbits != 0 {
      r := EmitRaw(st, t, temp2, nbits, w, all, rest);
    }
  }

  /** The code for 16 zeros, whether or not the coefficient behind it will be accepted. */
  method EmitLongRun(st: WorkingState, t: Tables, tbl: nat, ghost on: bool, ghost w: Written, ghost all: Items,
                     ghost rest: Items) returns (r: Outcome)
    requires st.Valid() && t.Good() && tbl < |t.ac|
    requires on ==> Emits(t, w, all, Done, st.W(), Then(Symbol(false, tbl, 0xF0), rest), st.suspends)
    modifies st
    ensures r == Suspended ==> st.suspends
    ensures on ==> Emits(t, w, all, r, st.W(), rest, st.suspends)
    ensures r != BadCoefficient && (r == Done ==> st.Valid())
  {
    ghost var here := Then(Symbol(false, tbl, 0xF0), rest);
    r := EmitSymbol(st, t, false, tbl, 0xF0, if on then w else st.W(), if on then all else here, rest);
  }

  /** If the run length is over 15, emit special run-length-16 codes (0xF0); returns what is left of the run. */
  method EmitLongRuns(st: WorkingState, t: Tables, tbl: nat, r0: nat, ghost on: bool, ghost w: Written,
                      ghost all: Items, ghost rest: Items) returns (r: Outcome, run: nat)
    requires st.Valid() && t.Good() && tbl < |t.ac|
    requires on ==> Emits(t, w, all, Done, st.W(), LongRuns(tbl, r0, rest), st.suspends)
    modifies st
    ensures r == Suspended ==> st.suspends
    ensures on ==> Emits(t, w, all, r, st.W(), rest, st.suspends)
    ensures r != BadCoefficient && (r == Done ==> st.Valid() && run == r0 % 16)
  {
    hide WorkingState.Valid, WorkingState.W, After, ItemsBits, AllCoded, Tables.Good;
    run := r0;
    r := Done;
    while run > 15
      invariant run % 16 == r0 % 16 && st.Valid() && r == Done
      invariant on ==> Emits(t, w, all, Done, st.W(), LongRuns(tbl, run, rest), st.suspends)
    {
      r := EmitLongRun(st, t, tbl, on, w, all, LongRuns(tbl, run - 16, rest));
      if r != Done {
        return;
      }
      run := run - 16;
    }
  }

  /** A nonzero AC coefficient behind r0 zeros. */
  method EncodeCoefficient(st: WorkingState, t: Tables, tbl: nat, r0: nat, z: int, ghost w: Written, ghost all: Items,
                           ghost rest: Items) returns (r: Outcome)
    requires st.Valid() && t.Good() && tbl < |t.ac| && z != 0
    requires NBits(Abs(z)) <= MAX_COEF_BITS
             ==> Emits(t, w, all, Done, st.W(), LongRuns(tbl, r0, Coefficient(tbl, r0 % 16, z, rest)), st.suspends)
    modifies st
    ensures r == Suspended ==> st.suspends
    ensures r == BadCoefficient ==> NBits(Abs(z)) > MAX_COEF_BITS
    ensures r == Done ==> NBits(Abs(z)) <= MAX_COEF_BITS && st.Valid()
    ensures NBits(Abs(z)) <= MAX_COEF_BITS ==> Emits(t, w, all, r, st.W(), rest, st.suspends)
  {
    hide WorkingState.Valid, WorkingState.W, After, ItemsBits, AllCoded, Tables.Good, LongRuns;
    ghost var small := NBits(Abs(z)) <= MAX_COEF_BITS;
    var run: nat;
    r, run := EmitLongRuns(st, t, tbl, r0, small, w, all, if small then Coefficient(tbl, r0 % 16, z, rest) else Nil);
    if r != Done {
      return;
    }
    var temp, temp2 := z, z;
    if temp < 0 {
      temp := -temp;
      temp2 := temp2 - 1;
    }
    var nbits := CountBits(temp);
    if nbits > MAX_COEF_BITS {
      return BadCoefficient;
    }
    r := EmitSymbol(st, t, false, tbl, 16 * run + nbits, w, all, Then(Raw(temp2, nbits), rest));
    if r == Done {
      r := EmitRaw(st, t, temp2, nbits, w, all, rest);
    }
  }

  /** The coefficients of a block in zigzag order. */
  function Zigzag(block: Block, order: seq<nat>): (zz: seq<int>)
    requires GoodOrder(order)
    ensures |zz| == |order| && forall i :: 0 <= i < |zz| ==> zz[i] == block[order[i]]
  {
    seq(|order|, i requires 0 <= i < |order| => block[order[i]])
  }

  lemma {:induction false} AcNext(tbl: nat, zz: seq<int>, k: nat, r: nat, rest: Items)
    requires r < k < |zz| <= 64 && AcInRange(zz)
    ensures AcItems(tbl, zz, k, r, rest)
         == if zz[k] == 0 then AcItems(tbl, zz, k + 1, r + 1, rest)
            else LongRuns(tbl, r, Coefficient(tbl, r % 16, zz[k], AcItems(tbl, zz, k + 1, 0, rest)))
  {
  }

  lemma {:induction false} AcLast(tbl: nat, zz: seq<int>, r: nat, rest: Items)
    requires r < |zz| <= 64 && AcInRange(zz)
    ensures AcItems(tbl, zz, |zz|, r, rest) == if r > 0 then Then(Symbol(false, tbl, 0), rest) else rest
  {
  }

  /** Encode the AC coefficients per section F.1.2.2. */
  method EncodeAcs(st: WorkingState, t: Tables, tbl: nat, block: Block, order: seq<nat>, ghost w: Written,
                   ghost all: Items, ghost rest: Items) returns (r: Outcome)
    requires st.Valid() && t.Good() && tbl < |t.ac| && GoodOrder(order)
    requires var zz := Zigzag(block, order);
             AcInRange(zz) ==> Emits(t, w, all, Done, st.W(), AcItems(tbl, zz, 1, 0, rest), st.suspends)
    modifies st
    ensures r == Suspended ==> st.suspends
    ensures r == BadCoefficient ==> !AcInRange(Zigzag(block, order))
    ensures r == Done ==> AcInRange(Zigzag(block, order)) && st.Valid()
    ensures AcInRange(Zigzag(block, order)) ==> Emits(t, w, all, r, st.W(), rest, st.suspends)
  {
    hide WorkingState.Valid, WorkingState.W, After, ItemsBits, AllCoded, Tables.Good, AcItems;
    ghost var zz := Zigzag(block, order);
    ghost var on := AcInRange(zz);
    var run := 0;
    r := Done;
    for k := 1 to |order|
      invariant 0 <= run < k && st.Valid() && r == Done && forall i :: 1 <= i < k ==> NBits(Abs(zz[i])) <= MAX_COEF_BITS
      invariant on ==> Emits(t, w, all, Done, st.W(), AcItems(tbl, zz, k, run, rest), st.suspends)
    {
      if on {
        AcNext(tbl, zz, k, run, rest);
      }
      if block[order[k]] == 0 {
        run := run + 1;
      } else {
        ghost var next := if on then AcItems(tbl, zz, k + 1, 0, rest) else Nil;
        ghost var here := FollowedFrom(on, w, all, st.W(), tbl, run, zz[k], next);
        r := EncodeCoefficient(st, t, tbl, run, block[order[k]], here.0, here.1, next);
        if r != Done {
          return;
        }
        run := 0;
      }
    }
    if on {
      AcLast(tbl, zz, run, rest);
    }
    // If the last coef(s) were zero, emit an end-of-block code
    if run > 0 {
      r := EmitSymbol(st, t, false, tbl, 0, w, all, rest);
    }
  }

  /** What is known before a coefficient: a block with a bad coefficient is not followed from its start. */
  ghost function FollowedFrom(on: bool, w: Written, all: Items, now: Written, tbl: nat, run: nat, z: int, next: Items)
      : (Written, Items)
  {
    if on then (w, all)
    else (now, if NBits(Abs(z)) <= MAX_COEF_BITS then LongRuns(tbl, run, Coefficient(tbl, run % 16, z, next)) else Nil)
  }

  /** Encode a single block's worth of coefficients. */
  method EncodeOneBlock(st: WorkingState, t: Tables, dcTbl: nat, acTbl: nat, block: Block, order: seq<nat>, last: int,
                        ghost w: Written, ghost all: Items, ghost rest: Items) returns (r: Outcome)
    requires st.Valid() && t.Good() && dcTbl < |t.dc| && acTbl < |t.ac| && GoodOrder(order)
    requires var zz := Zigzag(block, order);
             InRange(zz, last) ==> Emits(t, w, all, Done, st.W(), BlockItems(dcTbl, acTbl, zz, last, rest), st.suspends)
    modifies st
    ensures r == Suspended ==> st.suspends
    ensures r == BadCoefficient ==> !InRange(Zigzag(block, order), last)
    ensures r == Done ==> InRange(Zigzag(block, order), last) && st.Valid()
    ensures InRange(Zigzag(block, order), last) ==> Emits(t, w, all, r, st.W(), rest, st.suspends)
  {
    hide WorkingState.Valid, WorkingState.W, After, ItemsBits, AllCoded, Tables.Good, AcItems, DcItems;
    ghost var zz := Zigzag(block, order);
    ghost var acs := if AcInRange(zz) then AcItems(acTbl, zz, 1, 0, rest) else Nil;
    ghost var on, diff := InRange(zz, last), block[0] - last;
    ghost var w1 := if on then w else st.W();
    ghost var all1 := if on || !DcInRange(diff) then all else DcItems(dcTbl, diff, acs);
    r := EncodeDc(st, t, dcTbl, block[0] - last, w1, all1, acs);
    if r == Done {
      r := EncodeAcs(st, t, acTbl, block, order, w1, all1, rest);
    }
  }
}

/** Decoding of Huffman-coded blocks as ITU-T T.81, section F.2.2, prescribes it, and that it recovers what was
    coded. */
module HuffmanDecoding {
  import opened ProbabilityTable
  import opened ByteStream
  import opened CoefficientModel
  import opened BitString
  import opened BitWriter
  import opened DerivedTable
  import opened HuffmanBlock

  datatype Option<T> = None | Some(value: T)

  /** A symbol with this code word. */
  function FindSymbol(d: Derived, w: Bits, k: nat): (s: int)
    requires d.Sized() && k <= 256
    ensures -1 <= s < k
    ensures s >= 0 ==> d.Coded(s) && d.Word(s) == w
    ensures s < 0 ==> forall t: byte :: t < k ==> !(d.Coded(t) && d.Word(t) == w)
  {
    if k == 0 then -1
    else if d.Coded(k - 1) && d.Word(k - 1) == w then k - 1
    else FindSymbol(d, w, k - 1)
  }

  /** Section F.2.2.3: the code is extended bit by bit until it is a code word. */
  function DecodeSymbol(d: Derived, bits: Bits, n: nat): Option<(byte, Bits)>
    requires d.Sized()
    decreases 17 - n
  {
    if n > 16 || n > |bits| then None
    else
      var s := FindSymbol(d, bits[..n], 256);
      if s >= 0 then Some((s as byte, bits[n..])) else DecodeSymbol(d, bits, n + 1)
  }

  lemma {:induction false} SymbolDecodes(d: Derived, s: byte, rest: Bits, n: nat)
    requires d.Good() && d.Coded(s) && 1 <= n <= d.ehufsi[s]
    ensures DecodeSymbol(d, d.Word(s) + rest, n) == Some((s, rest))
    decreases 17 - n
  {
    var w := d.Word(s);
    var bits := w + rest;
    assert bits[..n] == w[..n];
    var t := FindSymbol(d, bits[..n], 256);
    if n < d.ehufsi[s] {
      assert w[..n] <= w;
      SymbolDecodes(d, s, rest, n + 1);
    } else {
      assert bits[..n] == w && bits[n..] == rest;
    }
  }

  /** Section F.2.2.1: the next n bits, as an unsigned number. */
  function Receive(bits: Bits, n: nat): Option<(nat, Bits)> {
    if n > |bits| then None else Some((ValueOf(bits[..n]), bits[n..]))
  }

  /** The procedure EXTEND: the value of a coefficient of category n. */
  function Extend(v: int, n: nat): int {
    if n > 0 && v < Shl(1, n - 1) then v - Shl(1, n) + 1 else v
  }

  lemma {:induction false} NBitsBound(v: nat)
    ensures v < Shl(1, NBits(v)) && (v > 0 ==> NBits(v) > 0 && Shl(1, NBits(v) - 1) <= v)
  {
    if v > 0 {
      NBitsBound(v / 2);
    }
  }

  lemma {:induction false} NBitsAtMost(v: nat, n: nat)
    ensures NBits(v) <= n <==> v < Shl(1, n)
    decreases n
  {
    if n > 0 {
      NBitsAtMost(v / 2, n - 1);
    }
  }

  /** Which coefficients can be coded: AC coefficients of at most 1023 in magnitude, DC differences of at most 2047. */
  lemma {:induction false} RangeMeans(zz: seq<int>, last: int)
    requires zz != []
    ensures InRange(zz, last) <==>
              Abs(zz[0] - last) <= 2047 && forall i :: 1 <= i < |zz| ==> Abs(zz[i]) <= 1023
  {
    assert Shl(1, 5) == 32;
    assert Shl(1, 10) == 1024 by { ShlShl(1, 5, 5); assert Shl(32, 5) == 1024; }
    NBitsAtMost(Abs(zz[0] - last), 11);
    forall i | 1 <= i < |zz| ensures NBits(Abs(zz[i])) <= MAX_COEF_BITS <==> Abs(zz[i]) <= 1023 {
      NBitsAtMost(Abs(zz[i]), 10);
    }
  }

  lemma {:induction false} MaskedNegative(v: int, n: nat)
    requires -Shl(1, n) <= v < 0
    ensures Masked(v, n) == v + Shl(1, n)
    decreases n
  {
    if n > 0 {
      if v / 2 < 0 {
        MaskedNegative(v / 2, n - 1);
      }
    }
  }

  /** A value is recovered from its category and its low bits. */
  lemma {:induction false} ValueRecovered(v: int)
    requires v != 0
    ensures var n := NBits(Abs(v)); n > 0 && Extend(ValueOf(BitsOf(Extra(v), n)), n) == v
  {
    var n := NBits(Abs(v));
    NBitsBound(Abs(v));
    if v > 0 {
      ValueOfBits(v, n);
    } else {
      MaskedNegative(v - 1, n);
      ValueOfBits(Masked(v - 1, n), n);
    }
  }

  lemma {:induction false} Received(v: int, n: nat, rest: Bits)
    ensures Receive(BitsOf(v, n) + rest, n) == Some((ValueOf(BitsOf(v, n)), rest))
  {
    assert (BitsOf(v, n) + rest)[..n] == BitsOf(v, n) && (BitsOf(v, n) + rest)[n..] == rest;
  }

  /** Section F.2.2.1: a DC difference. */
  function DecodeDc(d: Derived, bits: Bits): Option<(int, Bits)>
    requires d.Sized()
  {
    match DecodeSymbol(d, bits, 1)
    case None => None
    case Some((n, more)) =>
      match Receive(more, n)
      case None => None
      case Some((v, rest)) => Some((Extend(v, n), rest))
  }

  function ZeroRun(n: nat): (s: seq<int>)
    ensures |s| == n && forall i :: 0 <= i < n ==> s[i] == 0
  {
    seq(n, i => 0)
  }

  /** Section F.2.2.2: the last n coefficients of a block. */
  function DecodeAcs(d: Derived, n: nat, bits: Bits): Option<(seq<int>, Bits)>
    requires d.Sized()
    decreases n, 1
  {
    if n == 0 then Some(([], bits))
    else
      match DecodeSymbol(d, bits, 1)
      case None => None
      case Some((rs, more)) => DecodeRun(d, n, rs, more)
  }

  /** A run of zeros, and the coefficient behind it. */
  function DecodeRun(d: Derived, n: nat, rs: byte, more: Bits): Option<(seq<int>, Bits)>
    requires d.Sized() && n > 0
    decreases n, 0
  {
    var r, s := rs / 16, rs % 16;
    if s == 0 then
      if r < 15 then Some((ZeroRun(n), more))  // end of block
      else if n < 16 then None
      else Behind(ZeroRun(16), DecodeAcs(d, n - 16, more))
    else if r >= n then None
    else
      match Receive(more, s)
      case None => None
      case Some((v, rest)) => Behind(ZeroRun(r) + [Extend(v, s)], DecodeAcs(d, n - r - 1, rest))
  }

  function Behind(zz: seq<int>, more: Option<(seq<int>, Bits)>): Option<(seq<int>, Bits)> {
    match more
    case None => None
    case Some((s, rest)) => Some((zz + s, rest))
  }

  function DecodeBlock(t: Tables, dcTbl: nat, acTbl: nat, limSe: nat, last: int, bits: Bits): Option<(seq<int>, Bits)>
    requires t.Good() && dcTbl < |t.dc| && acTbl < |t.ac|
  {
    match DecodeDc(t.dc[dcTbl], bits)
    case None => None
    case Some((diff, more)) => Behind([last + diff], DecodeAcs(t.ac[acTbl], limSe, more))
  }

  lemma {:induction false} DcDecodes(t: Tables, tbl: nat, diff: int, rest: Items)
    requires t.Good() && tbl < |t.dc| && DcInRange(diff) && AllCoded(t, DcItems(tbl, diff, rest))
    ensures DecodeDc(t.dc[tbl], ItemsBits(t, DcItems(tbl, diff, rest))) == Some((diff, ItemsBits(t, rest)))
    ensures AllCoded(t, rest)
  {
    var n := NBits(Abs(diff));
    var more := if n > 0 then Then(Raw(Extra(diff), n), rest) else rest;
    SymbolDecodes(t.dc[tbl], n, ItemsBits(t, more), 1);
    if diff != 0 {
      ValueRecovered(diff);
      Received(Extra(diff), n, ItemsBits(t, rest));
    } else {
      assert ItemsBits(t, rest)[..0] == [] && ItemsBits(t, rest)[0..] == ItemsBits(t, rest);
    }
  }

  /** The decoder reads a symbol of the AC table. */
  lemma {:induction false} AcSymbol(t: Tables, tbl: nat, s: byte, rest: Items, n: nat)
    requires t.Good() && tbl < |t.ac| && n > 0 && AllCoded(t, Then(Symbol(false, tbl, s), rest))
    ensures AllCoded(t, rest)
    ensures DecodeAcs(t.ac[tbl], n, ItemsBits(t, Then(Symbol(false, tbl, s), rest)))
         == DecodeRun(t.ac[tbl], n, s, ItemsBits(t, rest))
  {
    hide DecodeSymbol, DecodeRun;
    SymbolDecodes(t.ac[tbl], s, ItemsBits(t, rest), 1);
  }

  lemma {:induction false} RawBits(t: Tables, v: int, n: nat, rest: Items)
    requires t.Good()
    ensures ItemsBits(t, Then(Raw(v, n), rest)) == BitsOf(v, n) + ItemsBits(t, rest)
    ensures AllCoded(t, Then(Raw(v, n), rest)) <==> AllCoded(t, rest)
  {
  }

  lemma {:induction false} CoefficientDecodes(t: Tables, tbl: nat, r: nat, z: int, rest: Items, n: nat)
    requires t.Good() && tbl < |t.ac| && r < 16 && r < n && z != 0 && NBits(Abs(z)) <= MAX_COEF_BITS
    requires AllCoded(t, Coefficient(tbl, r, z, rest))
    ensures AllCoded(t, rest)
    ensures DecodeAcs(t.ac[tbl], n, ItemsBits(t, Coefficient(tbl, r, z, rest)))
         == Behind(ZeroRun(r) + [z], DecodeAcs(t.ac[tbl], n - r - 1, ItemsBits(t, rest)))
  {
    hide DecodeAcs, ItemsBits, AllCoded, Extend, BitsOf, ValueOf;
    var s := NBits(Abs(z));
    ValueRecovered(z);
    AcSymbol(t, tbl, 16 * r + s, Then(Raw(Extra(z), s), rest), n);
    RawBits(t, Extra(z), s, rest);
    Received(Extra(z), s, ItemsBits(t, rest));
    RunSize(r, s);
  }

  lemma {:induction false} RunSize(r: nat, s: nat)
    requires r < 16 && s < 16
    ensures (16 * r + s) / 16 == r && (16 * r + s) % 16 == s
  {
  }

  lemma {:induction false} BehindTwice(a: seq<int>, b: seq<int>, more: Option<(seq<int>, Bits)>)
    ensures Behind(a, Behind(b, more)) == Behind(a + b, more)
  {
    if more.Some? {
      assert a + (b + more.value.0) == a + b + more.value.0;
    }
  }

  lemma {:induction false} BehindNothing(more: Option<(seq<int>, Bits)>)
    ensures Behind(ZeroRun(0), more) == more
  {
    if more.Some? {
      assert ZeroRun(0) + more.value.0 == more.value.0;
    }
  }

  lemma {:induction false} LongRunsDecode(t: Tables, tbl: nat, r: nat, last: Items, n: nat)
    requires t.Good() && tbl < |t.ac| && r < n && AllCoded(t, LongRuns(tbl, r, last))
    ensures AllCoded(t, last)
    ensures DecodeAcs(t.ac[tbl], n, ItemsBits(t, LongRuns(tbl, r, last)))
         == Behind(ZeroRun(r - r % 16), DecodeAcs(t.ac[tbl], n - (r - r % 16), ItemsBits(t, last)))
  {
    hide DecodeAcs, ItemsBits, AllCoded, Behind;
    var d := t.ac[tbl];
    if r > 15 {
      var more := LongRuns(tbl, r - 16, last);
      AcSymbol(t, tbl, 0xF0, more, n);
      LongRunsDecode(t, tbl, r - 16, last, n - 16);
      var m := r - 16 - (r - 16) % 16;
      BehindTwice(ZeroRun(16), ZeroRun(m), DecodeAcs(d, n - 16 - m, ItemsBits(t, last)));
      assert ZeroRun(16) + ZeroRun(m) == ZeroRun(r - r % 16);
    } else {
      BehindNothing(DecodeAcs(d, n, ItemsBits(t, last)));
    }
  }

  /** The coefficients behind r zeros are recovered together with these zeros. */
  lemma {:induction false} AcsDecode(t: Tables, tbl: nat, zz: seq<int>, k: nat, r: nat, rest: Items)
    requires t.Good() && tbl < |t.ac| && r < k <= |zz| <= 64 && AcInRange(zz)
             && AllCoded(t, AcItems(tbl, zz, k, r, rest))
    ensures AllCoded(t, rest)
    ensures DecodeAcs(t.ac[tbl], |zz| - k + r, ItemsBits(t, AcItems(tbl, zz, k, r, rest)))
         == Some((ZeroRun(r) + zz[k..], ItemsBits(t, rest)))
    decreases |zz| - k
  {
    hide ItemsBits, AllCoded;
    var d, n := t.ac[tbl], |zz| - k + r;
    if k == |zz| {
      if r > 0 {
        AcSymbol(t, tbl, 0, rest, n);
      }
      assert ZeroRun(r) + zz[k..] == ZeroRun(r);
    } else if zz[k] == 0 {
      AcsDecode(t, tbl, zz, k + 1, r + 1, rest);
      assert ZeroRun(r + 1) + zz[k + 1..] == ZeroRun(r) + zz[k..];
    } else {
      NonzeroDecodes(t, tbl, zz, k, r, rest);
    }
  }

  lemma {:induction false} NonzeroDecodes(t: Tables, tbl: nat, zz: seq<int>, k: nat, r: nat, rest: Items)
    requires t.Good() && tbl < |t.ac| && r < k < |zz| <= 64 && AcInRange(zz)
             && AllCoded(t, AcItems(tbl, zz, k, r, rest))
    requires zz[k] != 0
    ensures AllCoded(t, rest)
    ensures DecodeAcs(t.ac[tbl], |zz| - k + r, ItemsBits(t, AcItems(tbl, zz, k, r, rest)))
         == Some((ZeroRun(r) + zz[k..], ItemsBits(t, rest)))
    decreases |zz| - k, 0
  {
    hide DecodeAcs, ItemsBits, AllCoded;
    var d, n := t.ac[tbl], |zz| - k + r;
    var more := AcItems(tbl, zz, k + 1, 0, rest);
    var last := Coefficient(tbl, r % 16, zz[k], more);
    LongRunsDecode(t, tbl, r, last, n);
    var m := r - r % 16;
    CoefficientDecodes(t, tbl, r % 16, zz[k], more, n - m);
    AcsDecode(t, tbl, zz, k + 1, 0, rest);
    BehindTwice(ZeroRun(m), ZeroRun(r % 16) + [zz[k]], DecodeAcs(d, n - r - 1, ItemsBits(t, more)));
    assert ZeroRun(m) + (ZeroRun(r % 16) + [zz[k]]) + (ZeroRun(0) + zz[k + 1..]) == ZeroRun(r) + zz[k..];
  }

  /** A block is recovered from its code, and what follows is left. */
  lemma {:induction false} BlockDecodes(t: Tables, dcTbl: nat, acTbl: nat, zz: seq<int>, last: int, rest: Items)
    requires t.Good() && dcTbl < |t.dc| && acTbl < |t.ac| && 1 <= |zz| <= 64 && InRange(zz, last)
    requires AllCoded(t, BlockItems(dcTbl, acTbl, zz, last, rest))
    ensures AllCoded(t, rest)
    ensures DecodeBlock(t, dcTbl, acTbl, |zz| - 1, last, ItemsBits(t, BlockItems(dcTbl, acTbl, zz, last, rest)))
         == Some((zz, ItemsBits(t, rest)))
  {
    hide ItemsBits, AllCoded, DecodeDc, DecodeAcs, DcItems, AcItems;
    DcDecodes(t, dcTbl, zz[0] - last, AcItems(acTbl, zz, 1, 0, rest));
    AcsDecode(t, acTbl, zz, 1, 0, rest);
    assert [zz[0]] + (ZeroRun(0) + zz[1..]) == zz;
  }
}

/** The arithmetic encoder's registers and byte output (jcarith.c). */
module ArithEncoder {
  import opened ProbabilityTable
  import opened ByteStream
  import opened CodingInterval

  // Arithmetic of the C register

  lemma {:induction false} ShlDouble(x: int, n: nat)
    ensures Shl(2 * x, n) == Shl(x, n + 1)
  {
    ShlShl(x, 1, n);
    assert Shl(x, 1) == 2 * Shl(x, 0);
  }

  lemma {:induction false} ShlTimes(k: int, x: int, n: nat)
    ensures Shl(k * x, n) == k * Shl(x, n)
  {
    if n > 0 {
      ShlTimes(k, x, n - 1);
    }
  }

  lemma {:induction false} ShlConstants(x: int)
    ensures Shl(x, 11) == 0x800 * x && Shl(x, 16) == 0x10000 * x && Shl(x, 19) == 0x80000 * x
  {
    EightBits(x, 0.0);
    EightBits(Shl(x, 8), 0.0);
    ShlShl(x, 8, 3);
    ShlShl(x, 8, 8);
    ShlShl(x, 16, 3);
    ThreeBits(Shl(x, 8));
    ThreeBits(Shl(x, 16));
  }

  lemma {:induction false} ThreeBits(x: int)
    ensures Shl(x, 3) == 8 * x
  {
    assert Shl(x, 3) == 4 * Shl(x, 1) == 8 * Shl(x, 0);
  }

  lemma {:induction false} TwentySevenBits()
    ensures Shl(1, 27) == 0x8000000
  {
    ShlConstants(1);
    ShlShl(1, 16, 11);
    ShlConstants(0x10000);
  }

  /** Moving the top bits of C behind the bytes already produced keeps the value of the whole. */
  lemma {:induction false} BytesMove(v: int, temp: int, c: int)
    ensures Shl(v, 27) + c == Shl(256 * v + temp, 19) + (c - 0x80000 * temp)
  {
    EightBits(v, 0.0);
    ShlShl(v, 8, 19);
    ShlAdd(256 * v, temp, 19);
    ShlConstants(temp);
  }

  lemma {:induction false} FinalValueShift(k: int, low: int, a: int)
    ensures FinalValue(0x10000 * k + low, a) == 0x10000 * k + FinalValue(low, a)
  {
    var top := a - 1 + low;
    assert top == top / 0x10000 * 0x10000 + top % 0x10000;
    Digits(k + top / 0x10000, top % 0x10000, 0x10000);
  }

  lemma {:induction false} ShlInjective(x: int, y: int, n: nat)
    requires Shl(x, n) == Shl(y, n)
    ensures x == y
  {
    if n > 0 {
      ShlInjective(x, y, n - 1);
    }
  }

  /** The bytes and the carry that leave C at the end of a segment. */
  lemma {:induction false} LastBytes(c: int, b1: byte, b2: byte)
    requires 0 <= c < 0x10000000 && c % 0x800 == 0
    requires b1 == c / 0x80000 % 0x100 && b2 == c / 0x800 % 0x100
    ensures c / 0x800 == (if c >= 0x8000000 then 0x10000 else 0) + 0x100 * b1 + b2
    ensures c / 0x800 % 0x10000 == 0 <==> b1 == 0 && b2 == 0
  {
    var q := c / 0x800;
    assert q == q / 0x100 * 0x100 + q % 0x100;
    assert c / 0x80000 == q / 0x100;
    assert q / 0x100 == q / 0x10000 * 0x100 + q / 0x100 % 0x100;
  }

  function TwoMore(s: seq<byte>, b1: byte, b2: byte): (r: seq<byte>)
    ensures |r| == |s| + 2 && Value(r) == 0x10000 * Value(s) + 0x100 * b1 + b2
  {
    ValueSnoc(s, b1);
    ValueSnoc(s + [b1], b2);
    s + [b1] + [b2]
  }

  lemma {:induction false} ValueSnoc(s: seq<byte>, b: byte)
    ensures Value(s + [b]) == 256 * Value(s) + b
  {
    assert (s + [b])[..|s|] == s;
  }

  /** The bins and registers of the encoder together with the data bytes it has already written (without stuffing). */
  datatype Regs = Regs(bins: seq<Bin>, c: int, a: int, sc: nat, zc: nat, ct: int, buffer: int, data: seq<byte>) {

    ghost predicate Held() {
      -1 <= buffer < 0xFF && (buffer == -1 ==> data == [] && zc == 0) && Trimmed(data)
    }

    /** All data bytes produced so far, whether written or held back. */
    ghost function Pending(): seq<byte>
      requires -1 <= buffer < 0xFF
    {
      data + Fill(0, zc) + (if buffer >= 0 then [buffer] else []) + Fill(0xFF, sc)
    }

    /** The lower end of the coding interval: the bytes produced, then the C register. */
    ghost function Low(): int
      requires Held() && ct <= 27
    {
      Shl(Value(Pending()), 27 - ct) + c
    }

    ghost function Shifts(): nat
      requires Held() && ct <= 11
    {
      8 * |Pending()| + 11 - ct
    }

    /** The three spacer bits of C are enough: at most one carry can leave it per byte. */
    ghost predicate Ok() {
      && Held()
      && 0 <= ct <= 11 && 0 <= c && 1 <= a <= 0x10000
      && Shl(c + a, ct) <= 0x8FFFF00
      && Low() + a <= Shl(1, 16 + Shifts())
    }

    ghost function Interval(): Coder
      requires Ok()
    {
      Coder(Low(), a, Shifts(), bins)
    }

    /** Until a byte other than 0xFF has been produced there is nothing a carry could be propagated into, and none
        arises. */
    lemma {:induction false} CarryFindsBuffer()
      requires Ok() && ct == 0 && c >= 0x8000000
      ensures buffer >= 0
    {
      if buffer < 0 {
        assert Pending() == Fill(0xFF, sc);
        AllOnes(sc);
        ShlAdd(Value(Pending()), 1, 27);
        ShlShl(1, 8 * sc, 27);
        TwentySevenBits();
      }
    }

    lemma {:induction false} BufferLast()
      requires 0 <= buffer < 0xFF && sc == 0
      ensures |Pending()| == |data + Fill(0, zc)| + 1
      ensures Value(Pending()) == 256 * Value(data + Fill(0, zc)) + buffer
    {
      assert Pending() == data + Fill(0, zc) + [buffer];
      ValueSnoc(data + Fill(0, zc), buffer);
    }

    lemma {:induction false} StackOne(r: Regs)
      requires -1 <= buffer < 0xFF && r == this.(sc := sc + 1)
      ensures |r.Pending()| == |Pending()| + 1
      ensures Value(r.Pending()) == 256 * Value(Pending()) + 0xFF
    {
      assert r.Pending() == Pending() + [0xFF];
      ValueSnoc(Pending(), 0xFF);
    }

    /** A byte moves from C to the bytes produced. */
    lemma {:induction false} ByteMoves(r: Regs)
      requires Ok() && ct == 0 && r.Held() && r.ct == 8 && r.a == a && r.c == c % 0x80000
      requires |r.Pending()| == |Pending()| + 1 && Value(r.Pending()) == 256 * Value(Pending()) + c / 0x80000
      ensures r.Ok() && r.Low() == Low() && r.Shifts() == Shifts()
    {
      BytesMove(Value(Pending()), c / 0x80000, c);
      EightBits(r.c + a, 0.0);
    }

    /** One shift of the interval. */
    lemma {:induction false} Doubles()
      requires Ok() && 1 <= ct && a < 0x8000
      ensures var r := this.(a := 2 * a, c := 2 * c, ct := ct - 1);
              r.Ok() && r.Low() == 2 * Low() && r.Shifts() == Shifts() + 1
    {
      var r := this.(a := 2 * a, c := 2 * c, ct := ct - 1);
      assert r.Pending() == Pending();
      ShlDouble(c + a, ct - 1);
      assert Shl(1, 16 + r.Shifts()) == 2 * Shl(1, 16 + Shifts());
    }

    /** The final value, in the C register and in the exact interval. */
    lemma {:induction false} FinalLow()
      requires Ok() && 1 <= ct
      ensures FinalValue(Low(), a) == Shl(Value(Pending()), 27 - ct) + FinalValue(c, a)
    {
      var v := Shl(Value(Pending()), 11 - ct);
      ShlShl(Value(Pending()), 11 - ct, 16);
      ShlConstants(v);
      FinalValueShift(v, c, a);
    }

    /** Shifting the final value to the byte boundary keeps the registers in bounds. */
    lemma {:induction false} Boundary(r: Regs)
      requires Ok() && 1 <= ct && 0x8000 <= a
      requires r == this.(c := Shl(FinalValue(c, a), ct), a := 1, ct := 0)
      ensures r.Ok() && r.c % 0x800 == 0 && r.Low() == Shl(FinalValue(Low(), a), ct)
    {
      var v, f := Value(Pending()), FinalValue(c, a);
      FinalValueInside(c, a);
      ShlMonotonic(f, c + a, ct);
      FinalInUnits(f, ct);
      FinalLow();
      assert r.Pending() == Pending();
      ShlAdd(Shl(v, 27 - ct), f, ct);
      ShlShl(v, 27 - ct, ct);
      ShlMonotonic(FinalValue(Low(), a), Shl(1, 16 + Shifts()), ct);
      ShlShl(1, 16 + Shifts(), ct);
    }

    /** Two more bytes after those produced complete the final value. */
    lemma {:induction false} Terminates(bytes: seq<byte>)
      requires Ok() && 1 <= ct && 0x8000 <= a
      requires |bytes| == |Pending()| + 2
      requires Value(bytes) == 0x10000 * Value(Pending()) + Shl(FinalValue(c, a), ct) / 0x800
      ensures Scale(Fraction(bytes), 16 + Shifts()) == FinalValue(Low(), a) as real
    {
      var v := Value(Pending());
      var r := this.(c := Shl(FinalValue(c, a), ct), a := 1, ct := 0);
      Boundary(r);
      assert r.Pending() == Pending();
      ShlConstants(Value(bytes));
      ShlShl(v, 16, 11);
      ShlConstants(v);
      ShlConstants(0x10000 * v);
      FinalFraction(bytes, r.Low(), FinalValue(Low(), a));
    }

    lemma {:induction false} FinalInUnits(f: int, n: nat)
      requires f == FinalValue(c, a) && 0x8000 <= a && 1 <= n
      ensures Shl(f, n) % 0x800 == 0
    {
      var p := (a - 1 + c) / 0x10000;
      var k := if 0x10000 * p < c then 2 * p + 1 else 2 * p;
      assert f == 0x8000 * k;
      ShlTimes(0x8000, k, n);
      Digits(16 * Shl(k, n), 0, 0x800);
    }

    lemma {:induction false} FinalFraction(bytes: seq<byte>, low: int, f: int)
      requires Ok() && 1 <= ct && low == Shl(f, ct) && |bytes| == |Pending()| + 2
      requires Shl(Value(bytes), 11) == low
      ensures Scale(Fraction(bytes), 16 + Shifts()) == f as real
    {
      FractionIsValue(bytes);
      ScaleScale(Fraction(bytes), 8 * |bytes|, 11 - ct);
      ScaleOfInt(Value(bytes), 11 - ct);
      ShlShl(Value(bytes), 11 - ct, ct);
      ShlInjective(Shl(Value(bytes), 11 - ct), f, ct);
    }

    /** One decision narrows the interval. */
    lemma {:induction false} Narrows(r: Regs, t: AriTable, d: Decision)
      requires Ok() && 0x8000 <= a && d.bin < |bins|
      requires var p := Subdivide(t, bins[d.bin], a, d.bit);
               r == this.(bins := bins[d.bin := p.next], a := p.size, c := c + p.offset)
      ensures r.Ok() && r.Interval() == Narrow(t, Interval(), d)
    {
      assert r.Pending() == Pending();
      ShlMonotonic(r.c + r.a, c + a, ct);
    }
  }

  /** Two more bytes, less the zeros at the end, complete the segment. */
  lemma {:induction false} Completes(r: Regs, t: AriTable, first: seq<Bin>, log: seq<Decision>, all: seq<byte>,
                                     data: seq<byte>)
    requires r.Ok() && 1 <= r.ct && 0x8000 <= r.a
    requires InBins(log, |first|) && Run(t, Start(first), log) == r.Interval()
    requires |all| == |r.Pending()| + 2
    requires Value(all) == 0x10000 * Value(r.Pending()) + Shl(FinalValue(r.c, r.a), r.ct) / 0x800
    requires Trimmed(data) && |data| <= |all| && all == data + Fill(0, |all| - |data|)
    ensures SegmentFor(t, first, log, data)
  {
    r.Terminates(all);
    FractionZeros(data, |all| - |data|);
  }

  /** The registers at the start of a segment. */
  ghost predicate Fresh(r: Regs) {
    r.c == 0 && r.a == 0x10000 && r.sc == 0 && r.zc == 0 && r.ct == 11 && r.buffer == -1 && r.data == []
  }

  lemma {:induction false} OpeningShifts(x: int, y: int, v: int)
    requires x == 0x10000 && y == 1 && v == 0
    ensures Shl(x, 11) == 0x8000000 && Shl(y, 16) == 0x10000 && Shl(v, 16) == 0
  {
    ShlConstants(x);
    ShlConstants(y);
    ShlConstants(v);
  }

  lemma {:induction false} Opens(r: Regs)
    requires Fresh(r)
    ensures r.Ok() && r.Interval() == Start(r.bins)
  {
    var p := r.Pending();
    assert |p| == 0;
    OpeningShifts(r.c + r.a, 1, Value(p));
  }

  class Encoder {
    const t: AriTable
    const bins: array<Bin>     // the statistics areas and the fixed bin
    var c: int                 // base of the coding interval
    var a: int                 // normalized size of the coding interval
    var sc: nat                // stacked 0xFF values which might overflow
    var zc: nat                // pending 0x00 output values which might be discarded at the end
    var ct: int                // bit shift counter
    var buffer: int            // most recent output byte other than 0xFF, or -1
    var out: seq<byte>         // what the destination has received

    ghost var head: seq<byte>      // the output before this segment
    ghost var data: seq<byte>      // data bytes of this segment already written, without stuffing
    ghost var first: seq<Bin>      // the bins at the start of this segment
    ghost var log: seq<Decision>   // the decisions of this segment

    constructor (t: AriTable, n: nat)
      ensures this.t == t && fresh(bins) && bins.Length == n && out == []
    {
      this.t, out := t, [];
      bins := new Bin[n](i => Bin(0, 0));
    }

    ghost function R(): Regs
      reads this, bins
    {
      Regs(bins[..], c, a, sc, zc, ct, buffer, data)
    }

    ghost predicate Written()
      reads this
    {
      out == head + Stuff(data)
    }

    ghost predicate Valid()
      reads this, bins
    {
      && R().Ok() && Written() && 1 <= ct && 0x8000 <= a
      && |first| == bins.Length && InBins(log, |first|)
      && Run(t, Start(first), log) == R().Interval()
    }

    /** Of the decisions ds, those up to the rest have been encoded, and nothing else. */
    twostate predicate Coded(ds: Decisions, rest: Decisions)
      reads this, bins
    {
      Valid() && After(log, rest) == After(old(log), ds) && head == old(head) && first == old(first)
    }

    method EmitByte(val: byte)
      modifies `out
      ensures out == old(out) + [val]
    {
      out := out + [val];
    }

    /** Write a data byte, with a stuffed zero behind 0xFF. */
    method EmitData(val: byte)
      requires Written()
      modifies `out, `data
      ensures Written() && data == old(data) + [val]
    {
      EmitByte(val);
      if val == 0xFF {
        EmitByte(0x00);
      }
      data := data + [val];
      StuffAppend(old(data), [val]);
      StuffOne(val);
    }

    method FlushZeros()
      requires Written()
      modifies `out, `data, `zc
      ensures Written() && zc == 0 && data == old(data) + Fill(0, old(zc))
    {
      while zc > 0
        invariant Written() && zc <= old(zc) && data == old(data) + Fill(0, old(zc) - zc)
      {
        EmitData(0x00);
        zc := zc - 1;
      }
    }

    /** Stacked 0xFF bytes will not overflow any more. */
    method FlushOnes()
      requires Written()
      modifies `out, `data, `sc
      ensures Written() && sc == 0 && data == old(data) + Fill(0xFF, old(sc))
    {
      while sc > 0
        invariant Written() && sc <= old(sc) && data == old(data) + Fill(0xFF, old(sc) - sc)
      {
        EmitData(0xFF);
        sc := sc - 1;
      }
    }

    /** A carry reaches the buffered byte; stacked 0xFF bytes become pending zeros. */
    method PropagateCarry()
      requires Written() && R().Held() && buffer >= 0
      modifies `out, `data, `zc, `sc
      ensures Trimmed(data) && Written() && sc == 0 && data != []
      ensures |data + Fill(0, zc)| == |old(R().Pending())|
      ensures Value(data + Fill(0, zc)) == Value(old(R().Pending())) + 1
    {
      FlushZeros();
      EmitData(buffer + 1);
      zc := zc + sc;
      sc := 0;
      Carry(old(data) + Fill(0, old(zc)), buffer, zc);
    }

    /** Nothing can carry into the bytes held back any more. */
    method FlushPending()
      requires Written() && R().Held()
      modifies `out, `data, `zc, `sc
      ensures Trimmed(data) && Written() && sc == 0
      ensures data + Fill(0, zc) == old(R().Pending())
    {
      if buffer == 0 {
        zc := zc + 1;
      } else if buffer >= 0 {
        FlushZeros();
        EmitData(buffer);
      }
      assert data + Fill(0, zc) + Fill(0xFF, sc) == old(R().Pending());
      if sc > 0 {
        FlushZeros();
        FlushOnes();
      }
    }

    /** Append a byte, or a byte and a carry, to the bytes held back. */
    method PushByte(temp: int)
      requires Written() && R().Held() && 0 <= temp <= 0x11F && (temp > 0xFF ==> buffer >= 0)
      modifies `sc, `zc, `buffer, `out, `data
      ensures Written() && R().Held() && |R().Pending()| == |old(R().Pending())| + 1
      ensures Value(R().Pending()) == 256 * Value(old(R().Pending())) + temp
    {
      if temp > 0xFF {
        PropagateCarry();
        buffer := temp - 0x100;  // the low byte of temp: at most 0x1F, thanks to the spacer bits
        R().BufferLast();
      } else if temp == 0xFF {
        sc := sc + 1;
        old(R()).StackOne(R());
      } else {
        FlushPending();
        buffer := temp;
        R().BufferLast();
      }
    }

    /** Another byte is ready for output. */
    method ByteOut()
      requires Written() && R().Ok() && ct == 0
      modifies `c, `sc, `zc, `ct, `buffer, `out, `data
      ensures Written() && R().Ok() && ct == 8
      ensures R().Low() == old(R().Low()) && R().Shifts() == old(R().Shifts())
    {
      var temp := c / 0x80000;
      if temp > 0xFF {
        R().CarryFindsBuffer();
      }
      PushByte(temp);
      c := c % 0x80000;
      ct := ct + 8;
      old(R()).ByteMoves(R());
    }

    /** One shift of the interval; every eighth one completes a byte. */
    method Shift()
      requires Written() && R().Ok() && 1 <= ct && a < 0x8000
      modifies `a, `c, `sc, `zc, `ct, `buffer, `out, `data
      ensures Written() && R().Ok() && 1 <= ct && a == 2 * old(a)
      ensures var s := old(R().Interval());
              R().Interval() == Coder(2 * s.low, 2 * s.a, s.shifts + 1, s.bins)
    {
      R().Doubles();
      a := a * 2;
      c := c * 2;
      ct := ct - 1;
      if ct == 0 {
        ByteOut();
      }
    }

    /** Renormalization and data output (section D.1.6). */
    method Renorm()
      requires Written() && R().Ok() && 1 <= ct
      modifies `a, `c, `sc, `zc, `ct, `buffer, `out, `data
      ensures Written() && R().Ok() && 1 <= ct
      ensures R().Interval() == old(Renormalize(R().Interval()))
    {
      ghost var goal := Renormalize(R().Interval());
      while a < 0x8000
        invariant Written() && R().Ok() && 1 <= ct
        invariant Renormalize(R().Interval()) == goal
        decreases 0x10000 - a
      {
        Shift();
      }
    }

    /** Encoding and estimation (sections D.1.4 and D.1.5). */
    method Estimate(bin: nat, val: bit)
      requires 0x8000 <= a <= 0x10000 && bin < bins.Length
      modifies `c, `a, bins
      ensures var p := Subdivide(t, old(bins[bin]), old(a), val);
              c == old(c) + p.offset && a == p.size && bins[..] == old(bins[..])[bin := p.next]
    {
      var sv := bins[bin];
      var qe := Qe(t, sv);
      a := a - qe;
      if val != sv.mps {
        // Encode the less probable symbol.
        if a >= qe {
          c := c + a;
          a := qe;
        }
        bins[bin] := AfterLps(t, sv);
      } else {
        // Encode the more probable symbol.
        if a >= 0x8000 {
          return;
        }
        if a < qe {
          c := c + a;
          a := qe;
        }
        bins[bin] := AfterMps(t, sv);
      }
    }

    /** Encode one binary decision in the context of a statistics bin. */
    method ArithEncode(bin: nat, val: bit, ghost rest: Decisions)
      requires Valid() && bin < bins.Length
      modifies this, bins
      ensures Coded(Then(Decision(bin, val), rest), rest) && log == old(log) + [Decision(bin, val)]
    {
      ghost var d, r := Decision(bin, val), R();
      RunOneMore(t, Start(first), log, d);
      hide Run, InBins, Written, Subdivide, Renormalize, Regs.Ok, Regs.Interval;
      Estimate(bin, val);
      r.Narrows(R(), t, d);
      Renorm();
      log := log + [d];
    }

    /** Reset the coding variables; the decisions encoded from now on form a new segment. */
    method StartSegment()
      modifies this
      ensures Valid() && log == [] && out == old(out) == head && first == bins[..]
    {
      c, a, sc, zc, ct, buffer := 0, 0x10000, 0, 0, 11, -1;
      head, data, first, log := out, [], bins[..], [];
      Opens(R());
    }

    /** Send the bytes held back, with the carry that the final value may bring. */
    method FlushFinal()
      requires Written() && R().(a := 1, ct := 0).Ok()
      modifies `sc, `zc, `out, `data
      ensures Trimmed(data) && Written() && |data + Fill(0, zc)| == |old(R().Pending())|
      ensures Value(data + Fill(0, zc)) == Value(old(R().Pending())) + if c >= 0x8000000 then 1 else 0
    {
      ghost var r := R().(a := 1, ct := 0);
      assert r.Pending() == R().Pending();
      if c >= 0x8000000 {
        // One final overflow has to be handled.
        r.CarryFindsBuffer();
        PropagateCarry();
      } else {
        FlushPending();
      }
    }

    /** Output final bytes only if they are not 0x00. */
    method EmitTail(b1: byte, b2: byte)
      requires Written() && Trimmed(data)
      requires b1 == c / 0x80000 % 0x100 && b2 == c / 0x800 % 0x100
      requires c / 0x800 % 0x10000 == 0 <==> b1 == 0 && b2 == 0
      modifies `zc, `out, `data
      ensures Written() && Trimmed(data)
      ensures var all := old(data + Fill(0, zc)) + [b1] + [b2];
              |data| <= |all| && all == data + Fill(0, |all| - |data|)
    {
      if c / 0x800 % 0x10000 != 0 {
        FlushZeros();
        EmitData(c / 0x80000 % 0x100);
        if c / 0x800 % 0x100 != 0 {
          EmitData(c / 0x800 % 0x100);
        }
      }
    }

    /** Find the value in the coding interval with the largest number of trailing zero bits. */
    method ChooseFinal()
      requires R().Ok() && 1 <= ct && 0x8000 <= a
      modifies `c
      ensures c == Shl(FinalValue(old(c), a), ct) && c % 0x800 == 0 && R().(a := 1, ct := 0).Ok()
    {
      var temp := (a - 1 + c) / 0x10000 * 0x10000;
      if temp < c {
        c := temp + 0x8000;
      } else {
        c := temp;
      }
      c := Shl(c, ct);
      old(R()).Boundary(R().(a := 1, ct := 0));
    }

    /** Send remaining bytes to output. */
    method SendFinal() returns (ghost all: seq<byte>)
      requires Written() && c % 0x800 == 0 && R().(a := 1, ct := 0).Ok()
      modifies `sc, `zc, `out, `data
      ensures Written() && Trimmed(data)
      ensures |all| == |old(R().Pending())| + 2 && Value(all) == 0x10000 * Value(old(R().Pending())) + c / 0x800
      ensures |data| <= |all| && all == data + Fill(0, |all| - |data|)
    {
      assert Shl(c + 1, 0) == c + 1;
      FlushFinal();
      var b1: byte, b2: byte := c / 0x80000 % 0x100, c / 0x800 % 0x100;
      LastBytes(c, b1, b2);
      all := TwoMore(data + Fill(0, zc), b1, b2);
      EmitTail(b1, b2);
    }

    /** Termination of encoding (section D.1.8). The segment is the shortest one for these decisions. */
    method FinishPass()
      requires Valid()
      modifies `c, `sc, `zc, `out, `data
      ensures Written() && SegmentFor(t, first, log, data)
    {
      ChooseFinal();
      assert R().Pending() == old(R().Pending());
      ghost var all := SendFinal();
      Completes(old(R()), t, first, log, all, data);
    }
  }
}

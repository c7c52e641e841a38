/** The arithmetic decoder's registers and byte input (jdarith.c, jdatasrc.c). */
module ArithDecoder {
  import opened ProbabilityTable
  import opened ByteStream
  import opened CodingInterval

  /** x / 2^n. */
  function Halve(x: real, n: nat): real {
    if n == 0 then x else Halve(x, n - 1) / 2.0
  }

  lemma {:induction false} ScaleHalve(x: real, n: nat)
    ensures Scale(Halve(x, n), n) == x
  {
    if n > 0 {
      ScaleHalve(x, n - 1);
      ScaleTwice(Halve(x, n), n - 1);
    }
  }

  lemma {:induction false} ScaleTwice(x: real, n: nat)
    ensures Scale(2.0 * x, n) == 2.0 * Scale(x, n)
  {
    if n > 0 {
      ScaleTwice(x, n - 1);
    }
  }

  lemma {:induction false} HalveMinus(x: real, k: int, n: nat)
    ensures Halve(x - Shl(k, n) as real, n) == Halve(x, n) - k as real
  {
    ScaleHalve(x, n);
    ScaleHalve(x - Shl(k, n) as real, n);
    ScaleOfInt(k, n);
    ScaleAdd(Halve(x - Shl(k, n) as real, n), k as real, n);
    ScaleInjective(Halve(x - Shl(k, n) as real, n) + k as real, Halve(x, n), n);
  }

  lemma {:induction false} ScaleMonotonic(x: real, y: real, n: nat)
    ensures x < y <==> Scale(x, n) < Scale(y, n)
  {
    if n > 0 {
      ScaleMonotonic(x, y, n - 1);
    }
  }

  /** The comparison made by the decoder on its integer registers is the exact one. */
  lemma {:induction false} CompareExact(c: int, f: real, k: int, n: nat)
    requires 0.0 <= f < 1.0
    ensures Halve(c as real + f, n) < k as real <==> c < Shl(k, n)
  {
    ScaleHalve(c as real + f, n);
    ScaleOfInt(k, n);
    ScaleMonotonic(Halve(c as real + f, n), k as real, n);
  }

  lemma {:induction false} SevenHalves(x: real)
    ensures Halve(256.0 * x, 7) == 2.0 * x
  {
    var y := 256.0 * x;
    assert Halve(y, 7) == Halve(y, 5) / 4.0;
    assert Halve(y, 5) == Halve(y, 3) / 4.0;
    assert Halve(y, 3) == Halve(y, 1) / 4.0;
    assert Halve(y, 1) == y / 2.0;
  }

  /** The decoder's registers and the data bytes still to come from its input. */
  datatype Regs = Regs(bins: seq<Bin>, c: int, a: int, ct: int, rest: seq<byte>) {

    /** While the first two bytes are being fetched, a is zero and ct negative. */
    predicate Starting() {
      a == 0 && ((ct == -16 && c == 0) || (ct == -8 && 0 <= c < 0x100))
    }

    predicate Running() {
      0 <= ct <= 7 && 1 <= a <= 0x10000 && 0 <= c < Shl(a, ct)
    }

    /** The distance of the code value from the lower end of the interval. */
    ghost function Seen(): (v: View)
      requires Starting() || Running()
      ensures 1 <= v.a <= 0x10000
    {
      var y := c as real + Fraction(rest);
      if ct < 0 then View(Scale(y, -ct), 0x10000, bins) else View(Halve(y, ct), a, bins)
    }

    lemma {:induction false} Inside()
      requires Starting() || Running()
      ensures Seen().Inside()
    {
      FractionRange(rest);
      if ct == -16 {
        ScaleMonotonic(Fraction(rest), 1.0, 16);
        ScaleMonotonic(Fraction(rest), 0.0, 16);
        ScaleOfInt(1, 16);
        ScaleOfInt(0, 16);
        PowersInUse();
        ShlZero(16);
      } else if ct == -8 {
        EightBits(0, c as real + Fraction(rest));
      } else {
        CompareExact(c, Fraction(rest), a, ct);
        CompareExact(c, Fraction(rest), 0, ct);
        ShlZero(ct);
      }
    }

    /** One decision narrows the interval. */
    lemma {:induction false} Enters(r: Regs, t: AriTable, d: Decision)
      requires Running() && 0x8000 <= a && d.bin < |bins|
      requires var p := Subdivide(t, bins[d.bin], a, d.bit);
               && r == this.(bins := bins[d.bin := p.next], a := p.size, c := c - Shl(p.offset, ct))
               && (p.offset == 0 ==> r.c < Shl(p.size, ct))
               && (p.offset != 0 ==> 0 <= r.c && p.offset + p.size == a)
      ensures r.Running() && r.Seen() == Enter(t, Seen(), d)
    {
      var p := Subdivide(t, bins[d.bin], a, d.bit);
      ShlZero(ct);
      ShlAdd(p.offset, p.size, ct);
      HalveMinus(c as real + Fraction(rest), p.offset, ct);
      assert r.c as real + Fraction(rest) == c as real + Fraction(rest) - Shl(p.offset, ct) as real;
    }
  }

  /** What is left of the data when the next byte has been taken; zeros follow its end. */
  predicate NextByte(before: seq<byte>, data: byte, after: seq<byte>) {
    if before == [] then data == 0 && after == [] else data == before[0] && after == before[1..]
  }

  lemma {:induction false} NextByteFraction(before: seq<byte>, data: byte, after: seq<byte>)
    requires NextByte(before, data, after)
    ensures 256.0 * Fraction(before) == data as real + Fraction(after)
  {
  }

  /** A shift inside the bit buffer part of C. */
  lemma {:induction false} Shifts(r: Regs)
    requires r.Running() && r.a < 0x8000 && 1 <= r.ct
    ensures var s := r.(a := 2 * r.a, ct := r.ct - 1);
            s.Running() && Zoom(s.Seen()) == Zoom(r.Seen())
  {
    ShlShl(r.a, 1, r.ct - 1);
    assert Shl(r.a, 1) == 2 * Shl(r.a, 0);
  }

  /** A shift that needs a new byte. */
  lemma {:induction false} ShiftsIn(r: Regs, data: byte, more: seq<byte>)
    requires r.Running() && r.a < 0x8000 && r.ct == 0 && NextByte(r.rest, data, more)
    ensures var s := r.(c := 256 * r.c + data, a := 2 * r.a, ct := 7, rest := more);
            s.Running() && Zoom(s.Seen()) == Zoom(r.Seen())
  {
    NextByteFraction(r.rest, data, more);
    SevenHalves(r.c as real + Fraction(r.rest));
    ShlShl(r.a, 1, 7);
    EightBits(r.a, 0.0);
    assert Shl(r.a, 1) == 2 * Shl(r.a, 0);
    assert (256 * r.c + data) as real == 256.0 * r.c as real + data as real;
  }

  lemma {:induction false} StartsUp(r: Regs, data: byte, more: seq<byte>)
    requires r.Starting() && NextByte(r.rest, data, more)
    ensures var s := r.(c := 256 * r.c + data, a := if r.ct == -16 then 0 else 0x10000, ct := r.ct + 8, rest := more);
            (s.Starting() || s.Running()) && s.Seen() == r.Seen()
  {
    var y := r.c as real + Fraction(r.rest);
    NextByteFraction(r.rest, data, more);
    assert (256 * r.c + data) as real == 256.0 * r.c as real + data as real;
    EightBits(0, y);
    ScaleScale(y, 8, 8);
    assert Shl(0x10000, 0) == 0x10000;
  }

  predicate AllFF(s: seq<byte>) {
    forall i :: 0 <= i < |s| ==> s[i] == 0xFF
  }

  lemma {:induction false} AllFFTail(s: seq<byte>)
    requires s != []
    ensures AllFF(s) <==> s[0] == 0xFF && AllFF(s[1..])
  {
    if s[0] == 0xFF && AllFF(s[1..]) {
      forall i | 0 <= i < |s| ensures s[i] == 0xFF {
        assert i > 0 ==> s[i] == s[1..][i - 1];
      }
    }
  }

  /** The sense that fits a code value is the one whose part contains it. */
  lemma {:induction false} Decided(t: AriTable, v: View, next: Decisions, final: seq<Bin>, r: bit)
    requires v.Normal() && Codes(t, v, next, final) && next.Then?
    requires Enter(t, v, Decision(next.first.bin, r)).Inside()
    ensures r == next.first.bit
  {
    CodesInside(t, Take(t, v, next.first), next.rest, final);
    PartsPartition(t, v.bins[next.first.bin], v.a);
  }

  /** Of the bins, at most those from lo up to hi are changed. */
  predicate Within(was: seq<Bin>, bins: seq<Bin>, lo: nat, hi: nat) {
    |bins| == |was| && forall i :: 0 <= i < |bins| ==> bins[i] == was[i] || lo <= i < hi
  }

  class Decoder {
    const t: AriTable
    const bins: array<Bin>     // the statistics areas and the fixed bin
    var c: int                 // base of the coding interval + input bit buffer
    var a: int                 // normalized size of the coding interval
    var ct: int                // bits left in the bit buffer part of C; -16 initially, -1 after an error
    var input: seq<byte>       // what the source has not delivered yet
    var unreadMarker: byte     // a marker that ended the data, or 0

    constructor (t: AriTable, n: nat, input: seq<byte>)
      ensures this.t == t && fresh(bins) && bins.Length == n && this.input == input && unreadMarker == 0
    {
      this.t, this.input, unreadMarker := t, input, 0;
      bins := new Bin[n](i => Bin(0, 0));
    }

    /** The data bytes still to come: none behind a marker. */
    function Rest(): seq<byte>
      reads `input, `unreadMarker
    {
      if unreadMarker != 0 then [] else Data(input)
    }

    /** The marker that ends this segment and the input behind it: decoding does not read beyond it. */
    function Ahead(): Upcoming
      reads `input, `unreadMarker
    {
      if unreadMarker != 0 then Upcoming(unreadMarker, input) else NextMarker(input)
    }

    function R(): Regs
      reads this, bins
    {
      Regs(bins[..], c, a, ct, Rest())
    }

    predicate Valid()
      reads this, bins
    {
      R().Starting() || R().Running()
    }

    /** The input stands for these decisions, which leave the bins in the given state. */
    ghost predicate Tracks(next: Decisions, final: seq<Bin>)
      reads this, bins
    {
      Valid() && Codes(t, Zoom(R().Seen()), next, final)
    }

    /** Read next input byte; a source that runs dry delivers a fake EOI marker. */
    method GetByte() returns (data: byte)
      modifies `input
      ensures var s := if old(input) == [] then [0xFF, 0xD9] else old(input);
              data == s[0] && input == s[1..]
    {
      if input == [] {
        input := [0xFF, 0xD9];
      }
      data := input[0];
      input := input[1..];
    }

    /** The byte behind an 0xFF is a stuffed zero or a marker code. */
    method SkipFF() returns (data: byte)
      modifies `input
      ensures data != 0xFF && (data == 0 ==> |input| < |old(input)|)
      ensures DataAfterFF(old(input)) == if data == 0 then [0xFF] + Data(input) else []
      ensures MarkerAfterFF(old(input)) == if data == 0 then NextMarker(input) else Upcoming(data, input)
    {
      data := GetByte();
      while data == 0xFF
        invariant |input| < |old(input)| || [data] + input == [0xFF, 0xD9] || data == 0xD9
        invariant DataAfterFF([data] + input) == DataAfterFF(old(input))
        invariant MarkerAfterFF([data] + input) == MarkerAfterFF(old(input))
        decreases if data != 0xFF then 0 else if AllFF(input) then |input| + 2 else |input|
      {
        assert ([data] + input)[1..] == input;
        AllFFTail(if input == [] then [0xFF, 0xD9] else input);
        AllFFTail([0xD9]);
        data := GetByte();
      }
      assert ([data] + input)[1..] == input;
    }

    /** The next data byte; zeros are supplied behind the end of the data. */
    method FetchByte() returns (data: byte)
      modifies `input, `unreadMarker
      ensures NextByte(old(Rest()), data, Rest()) && Ahead() == old(Ahead())
    {
      if unreadMarker != 0 {
        data := 0;
      } else {
        data := GetByte();
        if data == 0xFF {
          data := SkipFF();
          if data == 0 {
            data := 0xFF;
          } else {
            unreadMarker := data;
            data := 0;
          }
        }
      }
    }

    /** One shift, with a new byte when the bit buffer is used up. */
    method Shift()
      requires Valid() && a < 0x8000
      modifies `c, `a, `ct, `input, `unreadMarker
      ensures Valid() && Zoom(R().Seen()) == old(Zoom(R().Seen())) && Ahead() == old(Ahead())
      ensures if old(a) == 0 then (a == 0 && ct > old(ct)) || a == 0x10000 else a == 2 * old(a)
    {
      hide NextByte, Data, NextMarker, Zoom, Regs.Seen;
      ct := ct - 1;
      if ct < 0 {
        var data := FetchByte();
        c := c * 256 + data;
        ct := ct + 8;
        if ct < 0 {
          ct := ct + 1;
          if ct == 0 {
            a := 0x8000;
          }
        }
        if old(a) == 0 {
          StartsUp(old(R()), data, Rest());
        } else {
          ShiftsIn(old(R()), data, Rest());
        }
      } else {
        Shifts(old(R()));
      }
      a := a * 2;
    }

    /** Renormalization and data input (section D.2.6). */
    method Renorm()
      requires Valid()
      modifies `c, `a, `ct, `input, `unreadMarker
      ensures R().Running() && R().Seen() == old(Zoom(R().Seen())) && Ahead() == old(Ahead())
    {
      ghost var goal := Zoom(R().Seen());
      while a < 0x8000
        invariant Valid() && Zoom(R().Seen()) == goal && Ahead() == old(Ahead())
        decreases if a == 0 then -ct else 0, 0x10000 - a
      {
        Shift();
      }
    }

    /** Decoding and estimation (sections D.2.4 and D.2.5). */
    method Estimate(bin: nat) returns (r: bit)
      requires 0x8000 <= a <= 0x10000 && 0 <= ct && bin < bins.Length
      modifies `c, `a, bins
      ensures var p := Subdivide(t, old(bins[bin]), old(a), r);
              && a == p.size && bins[..] == old(bins[..])[bin := p.next]
              && c == old(c) - Shl(p.offset, ct)
              && (p.offset == 0 ==> c < Shl(p.size, ct))
              && (p.offset != 0 ==> 0 <= c)
    {
      ShlZero(ct);
      var sv := bins[bin];
      var qe := Qe(t, sv);
      a := a - qe;
      var temp := Shl(a, ct);
      r := sv.mps;
      if c >= temp {
        c := c - temp;
        // Conditional LPS (less probable symbol) exchange
        if a < qe {
          bins[bin] := AfterMps(t, sv);
        } else {
          bins[bin] := AfterLps(t, sv);
          r := 1 - sv.mps;
        }
        a := qe;
      } else if a < 0x8000 {
        // Conditional MPS (more probable symbol) exchange
        if a < qe {
          bins[bin] := AfterLps(t, sv);
          r := 1 - sv.mps;
        } else {
          bins[bin] := AfterMps(t, sv);
        }
      }
    }

    /** Decode one binary decision in the context of a statistics bin. If the input stands for a decision in this
        context, followed by others, then that decision is returned and the input stands for the others. */
    method ArithDecode(bin: nat, ghost next: Decisions, ghost final: seq<Bin>) returns (r: bit)
      requires Valid() && bin < bins.Length
      modifies this, bins
      ensures Valid() && R().Running() && Ahead() == old(Ahead())
      ensures R().Seen() == Enter(t, old(Zoom(R().Seen())), Decision(bin, r)) && R().Seen().Inside()
      ensures Within(old(bins[..]), bins[..], bin, bin + 1)
      ensures old(bins[bin]).index == FIXED_ENTRY ==> bins[bin] == old(bins[bin])
      ensures next.Then? && next.first.bin == bin && old(Tracks(next, final))
              ==> r == next.first.bit && Tracks(next.rest, final)
    {
      Renorm();
      ghost var s := R();
      r := Estimate(bin);
      s.Enters(R(), t, Decision(bin, r));
      R().Inside();
      if next.Then? && next.first.bin == bin && old(Tracks(next, final)) {
        Decided(t, s.Seen(), next, final, r);
      }
    }
  }
}

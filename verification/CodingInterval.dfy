/** The coding interval of ITU-T T.81, Annex D, in exact arithmetic. Encoding narrows an interval whose lower end is
    an unbounded integer; decoding asks where a code value, a real number, lies inside it. */
module CodingInterval {
  import opened ProbabilityTable
  import opened ByteStream

  /** A binary decision in the context of a statistics bin. */
  datatype Decision = Decision(bin: nat, bit: bit)

  /** Decisions still to be coded. */
  datatype Decisions = Done | Then(first: Decision, rest: Decisions)

  /** The decisions coded so far, once these have been coded as well. */
  function After(log: seq<Decision>, ds: Decisions): seq<Decision>
    decreases ds
  {
    match ds
    case Done => log
    case Then(d, rest) => After(log + [d], rest)
  }

  /** The part of an interval that stands for one decision: where it starts, its size, and the bin afterwards. */
  datatype Part = Part(offset: nat, size: nat, next: Bin)

  /** Sections D.1.4 and D.1.5: the lower part has size a - Qe and the upper part size Qe. The more probable
      symbol owns the larger one. A bin is re-estimated whenever the part needs renormalization. */
  function Subdivide(t: AriTable, sv: Bin, a: int, b: bit): (p: Part)
    requires 0x8000 <= a <= 0x10000
    ensures p.size >= 1 && p.offset + p.size <= a
  {
    var q := Qe(t, sv);
    var lps := b != sv.mps;
    var next := if lps then AfterLps(t, sv) else if a - q < 0x8000 then AfterMps(t, sv) else sv;
    if lps == (a - q >= q) then Part(a - q, q, next) else Part(0, a - q, next)
  }

  /** The two parts of an interval are disjoint and fill it. */
  lemma {:induction false} PartsPartition(t: AriTable, sv: Bin, a: int)
    requires 0x8000 <= a <= 0x10000
    ensures var p, q := Subdivide(t, sv, a, 0), Subdivide(t, sv, a, 1);
            p.size + q.size == a && ((p.offset == 0 && q.offset == p.size) || (q.offset == 0 && p.offset == q.size))
  {
  }

  /** What the entry of the table for a bin makes of an interval: the upper part is as large as the entry says, the more
      probable symbol owns the larger part, and the bin stays, or moves on to one of the successors of the entry. */
  lemma {:induction false} PartsOfEntry(t: AriTable, sv: Bin, a: int, b: bit)
    requires 0x8000 <= a <= 0x10000
    ensures var e, p, larger := t[sv.index], Subdivide(t, sv, a, b), a - t[sv.index].qe >= t[sv.index].qe;
            && (p.offset, p.size) == (if (b == sv.mps) == larger then (0, a - e.qe) else (a - e.qe, e.qe))
            && (if b == sv.mps then p.size >= e.qe && p.size >= a - e.qe else p.size <= e.qe && p.size <= a - e.qe)
    ensures var e, p := t[sv.index], Subdivide(t, sv, a, b);
            && (b == sv.mps && a - e.qe >= 0x8000 ==> p.next == sv)
            && (b == sv.mps && a - e.qe < 0x8000 ==> p.next == Bin(sv.mps, e.nextMps))
            && (b != sv.mps ==>
                  p.next.index == e.nextLps && (p.next.mps == sv.mps <==> e.switchMps == 0))
  {
  }

  /** The encoder's view: lower end and size of the interval, the bits they have been shifted by, the bins. */
  datatype Coder = Coder(low: int, a: int, shifts: nat, bins: seq<Bin>) {
    predicate Normal() {
      0x8000 <= a <= 0x10000
    }
  }

  function Renormalize(s: Coder): (r: Coder)
    requires 1 <= s.a <= 0x10000
    ensures r.Normal() && r.bins == s.bins
    decreases 0x10000 - s.a
  {
    if s.a >= 0x8000 then s else Renormalize(Coder(2 * s.low, 2 * s.a, s.shifts + 1, s.bins))
  }

  function Narrow(t: AriTable, s: Coder, d: Decision): (r: Coder)
    requires s.Normal() && d.bin < |s.bins|
    ensures 1 <= r.a <= 0x10000 && |r.bins| == |s.bins|
  {
    var p := Subdivide(t, s.bins[d.bin], s.a, d.bit);
    Coder(s.low + p.offset, p.size, s.shifts, s.bins[d.bin := p.next])
  }

  function Step(t: AriTable, s: Coder, d: Decision): (r: Coder)
    requires s.Normal() && d.bin < |s.bins|
    ensures r.Normal() && |r.bins| == |s.bins|
  {
    Renormalize(Narrow(t, s, d))
  }

  predicate InBins(ds: seq<Decision>, n: nat) {
    forall i :: 0 <= i < |ds| ==> ds[i].bin < n
  }

  function Run(t: AriTable, s: Coder, log: seq<Decision>): (r: Coder)
    requires s.Normal() && InBins(log, |s.bins|)
    ensures r.Normal() && |r.bins| == |s.bins|
  {
    var n := |log| - 1;
    if log == [] then s else Step(t, Run(t, s, log[..n]), log[n])
  }

  lemma {:induction false} RunOneMore(t: AriTable, s: Coder, log: seq<Decision>, d: Decision)
    requires s.Normal() && InBins(log, |s.bins|) && d.bin < |s.bins|
    ensures InBins(log + [d], |s.bins|)
    ensures Run(t, s, log + [d]) == Step(t, Run(t, s, log), d)
  {
    assert (log + [d])[..|log|] == log;
  }

  lemma {:induction false} InBinsBefore(log: seq<Decision>, ds: Decisions, n: nat)
    requires InBins(After(log, ds), n)
    ensures InBins(log, n)
    ensures ds.Then? ==> ds.first.bin < n
    decreases ds
  {
    match ds
    case Done =>
    case Then(d, rest) =>
      InBinsBefore(log + [d], rest, n);
      assert (log + [d])[|log|] == d;
      assert forall i :: 0 <= i < |log| ==> log[i] == (log + [d])[i];
  }

  /** The decoder's view: x is the distance of the code value from the lower end, in units of the current interval. */
  datatype View = View(x: real, a: int, bins: seq<Bin>) {
    predicate Normal() {
      0x8000 <= a <= 0x10000
    }

    predicate Inside() {
      0.0 <= x < a as real
    }
  }

  function Zoom(v: View): (r: View)
    requires 1 <= v.a <= 0x10000
    ensures r.Normal() && r.bins == v.bins
    ensures v.Inside() <==> r.Inside()
    decreases 0x10000 - v.a
  {
    if v.a >= 0x8000 then v else Zoom(View(2.0 * v.x, 2 * v.a, v.bins))
  }

  function Enter(t: AriTable, v: View, d: Decision): (r: View)
    requires v.Normal() && d.bin < |v.bins|
    ensures 1 <= r.a <= 0x10000 && |r.bins| == |v.bins|
    ensures r.Inside() ==> v.Inside()
  {
    var p := Subdivide(t, v.bins[d.bin], v.a, d.bit);
    View(v.x - p.offset as real, p.size, v.bins[d.bin := p.next])
  }

  function Take(t: AriTable, v: View, d: Decision): (r: View)
    requires v.Normal() && d.bin < |v.bins|
    ensures r.Normal() && |r.bins| == |v.bins|
    ensures r.Inside() ==> v.Inside()
  {
    Zoom(Enter(t, v, d))
  }

  /** A code value stands for these decisions, and taking them leaves the bins in the given state. */
  ghost predicate Codes(t: AriTable, v: View, ds: Decisions, final: seq<Bin>)
    requires v.Normal()
    decreases ds
  {
    match ds
    case Done => v.Inside() && v.bins == final
    case Then(d, rest) => d.bin < |v.bins| && Codes(t, Take(t, v, d), rest, final)
  }

  /** The code value lies inside the interval at every step. */
  lemma {:induction false} CodesInside(t: AriTable, v: View, ds: Decisions, final: seq<Bin>)
    requires v.Normal() && Codes(t, v, ds, final)
    ensures v.Inside()
    decreases ds
  {
    match ds
    case Done =>
    case Then(d, rest) => CodesInside(t, Take(t, v, d), rest, final);
  }

  /** Where a code value, given in units of the first interval, lies inside the encoder's interval. */
  function ViewFrom(s: Coder, x: real): View {
    View(Scale(x, s.shifts) - s.low as real, s.a, s.bins)
  }

  lemma {:induction false} RenormalizeZooms(s: Coder, x: real)
    requires 1 <= s.a <= 0x10000
    ensures Zoom(ViewFrom(s, x)) == ViewFrom(Renormalize(s), x)
    decreases 0x10000 - s.a
  {
    if s.a < 0x8000 {
      RenormalizeZooms(Coder(2 * s.low, 2 * s.a, s.shifts + 1, s.bins), x);
    }
  }

  /** One step on both sides keeps the distance of a code value from the lower end. */
  lemma {:induction false} StepTakes(t: AriTable, s: Coder, x: real, d: Decision)
    requires s.Normal() && d.bin < |s.bins|
    ensures Take(t, ViewFrom(s, x), d) == ViewFrom(Step(t, s, d), x)
  {
    assert Enter(t, ViewFrom(s, x), d) == ViewFrom(Narrow(t, s, d), x);
    RenormalizeZooms(Narrow(t, s, d), x);
  }

  /** The code values that stand for a run of decisions are exactly those of the encoder's final interval. */
  lemma {:induction false} IntervalOfRun(t: AriTable, s: Coder, x: real, log: seq<Decision>, ds: Decisions)
    requires s.Normal() && InBins(log, |s.bins|) && InBins(After(log, ds), |s.bins|)
    ensures var r := Run(t, s, After(log, ds));
            Codes(t, ViewFrom(Run(t, s, log), x), ds, r.bins) <==> ViewFrom(r, x).Inside()
    decreases ds
  {
    match ds
    case Done =>
    case Then(d, rest) =>
      InBinsBefore(log, ds, |s.bins|);
      StepTakes(t, Run(t, s, log), x, d);
      RunOneMore(t, s, log, d);
      IntervalOfRun(t, s, x, log + [d], rest);
  }

  /** The parts for the two senses of a decision are disjoint, so a code value fits only one of them. */
  lemma {:induction false} CodesDeterministic(t: AriTable, v: View, ds: Decisions, es: Decisions, f: seq<Bin>,
                                              g: seq<Bin>)
    requires v.Normal() && ds.Then? && es.Then? && ds.first.bin == es.first.bin
    requires Codes(t, v, ds, f) && Codes(t, v, es, g)
    ensures ds.first == es.first
  {
    CodesInside(t, Take(t, v, ds.first), ds.rest, f);
    CodesInside(t, Take(t, v, es.first), es.rest, g);
    PartsPartition(t, v.bins[ds.first.bin], v.a);
  }

  // Termination (section D.1.8)

  /** The value sent for an interval: the multiple of 0x10000 in it, or else the multiple of 0x8000. */
  function FinalValue(low: int, a: int): int {
    var v := (a - 1 + low) / 0x10000 * 0x10000;
    if v < low then v + 0x8000 else v
  }

  predicate TrailingZeros(v: int, k: nat)
    decreases k
  {
    k == 0 || (v % 2 == 0 && TrailingZeros(v / 2, k - 1))
  }

  lemma {:induction false} FewerTrailingZeros(v: int, k: nat, j: nat)
    requires TrailingZeros(v, k) && j <= k
    ensures TrailingZeros(v, j)
    decreases k
  {
    if j > 0 {
      FewerTrailingZeros(v / 2, k - 1, j - 1);
    }
  }

  lemma {:induction false} TrailingZerosOfMultiples(v: int, k: nat, m: int)
    requires m == Shl(1, k)
    ensures m > 0 && (TrailingZeros(v, k) <==> v % m == 0)
    decreases k
  {
    if k > 0 {
      var h := Shl(1, k - 1);
      TrailingZerosOfMultiples(v / 2, k - 1, h);
      assert v / 2 == h * (v / 2 / h) + v / 2 % h;
      assert v == 2 * (v / 2) + v % 2;
      DoubleModulus(v, v / 2 / h, v / 2 % h, v % 2, h);
    }
  }

  lemma {:induction false} DoubleModulus(v: int, q: int, r: int, b: int, h: int)
    requires 0 <= r < h && 0 <= b < 2 && v == 2 * (h * q + r) + b
    ensures v % (2 * h) == 2 * r + b
  {
    assert v == q * (2 * h) + (2 * r + b);
    Digits(q, 2 * r + b, 2 * h);
  }

  lemma {:induction false} PowersInUse()
    ensures Shl(1, 15) == 0x8000 && Shl(1, 16) == 0x10000
  {
    EightBits(1, 0.0);
    EightBits(256, 0.0);
    ShlShl(1, 8, 8);
    assert Shl(1, 16) == 2 * Shl(1, 15);
  }

  lemma {:induction false} FinalValueInside(low: int, a: int)
    requires 0x8000 <= a <= 0x10000
    ensures low <= FinalValue(low, a) < low + a
  {
  }

  lemma {:induction false} FinalValueAlone(low: int, a: int, v: int)
    requires 0x8000 <= a <= 0x10000 && low <= v < low + a && v != FinalValue(low, a)
    ensures var f := FinalValue(low, a);
            (f % 0x10000 == 0 && v % 0x10000 != 0) || (f % 0x8000 == 0 && v % 0x8000 != 0)
  {
    var p := (a - 1 + low) / 0x10000;
    if 0x10000 * p < low {
      OneMultiple(0x8000, 2 * p + 1, low, a, v);
      Digits(2 * p + 1, 0, 0x8000);
    } else {
      OneMultiple(0x10000, p, low, a, v);
      Digits(p, 0, 0x10000);
    }
  }

  /** No second multiple of m fits between the neighbours of m * k. */
  lemma {:induction false} OneMultiple(m: int, k: int, low: int, a: int, v: int)
    requires m == 0x8000 || m == 0x10000
    requires m * (k - 1) < low <= v < low + a <= m * (k + 1) && v != m * k
    ensures v % m != 0
  {
    var j := v / m;
    assert v == m * j + v % m;
    if v % m == 0 {
      AtLeastOneMultiple(m, j - k);
    }
  }

  /** The value sent lies in the interval and has more trailing zero bits than any other value there. */
  lemma {:induction false} FinalValueIsBest(low: int, a: int, v: int, k: nat)
    requires 0x8000 <= a <= 0x10000
    ensures low <= FinalValue(low, a) < low + a
    ensures low <= v < low + a && v != FinalValue(low, a) && TrailingZeros(v, k)
            ==> TrailingZeros(FinalValue(low, a), k + 1)
  {
    var f := FinalValue(low, a);
    FinalValueInside(low, a);
    if low <= v < low + a && v != f && TrailingZeros(v, k) {
      FinalValueAlone(low, a, v);
      PowersInUse();
      var (n, m) := if f % 0x10000 == 0 && v % 0x10000 != 0 then (16, 0x10000) else (15, 0x8000);
      TrailingZerosOfMultiples(v, n, m);
      TrailingZerosOfMultiples(f, n, m);
      if k >= n {
        FewerTrailingZeros(v, k, n);
      }
      FewerTrailingZeros(f, n, k + 1);
    }
  }

  /** The interval before the first decision of a segment. */
  function Start(bins: seq<Bin>): (s: Coder)
    ensures s.Normal()
  {
    Coder(0, 0x10000, 0, bins)
  }

  /** The data bytes of the segment for these decisions: the shortest string for the final value. */
  ghost predicate SegmentFor(t: AriTable, bins: seq<Bin>, log: seq<Decision>, data: seq<byte>) {
    && InBins(log, |bins|)
    && Trimmed(data)
    && var r := Run(t, Start(bins), log);
       Scale(Fraction(data), 16 + r.shifts) == FinalValue(r.low, r.a) as real
  }

  lemma {:induction false} ScaleInjective(x: real, y: real, n: nat)
    requires Scale(x, n) == Scale(y, n)
    ensures x == y
  {
    if n > 0 {
      ScaleInjective(x, y, n - 1);
    }
  }

  lemma {:induction false} SegmentUnique(t: AriTable, bins: seq<Bin>, log: seq<Decision>, d: seq<byte>, e: seq<byte>)
    requires SegmentFor(t, bins, log, d) && SegmentFor(t, bins, log, e)
    ensures d == e
  {
    ScaleInjective(Fraction(d), Fraction(e), 16 + Run(t, Start(bins), log).shifts);
    TrimmedUnique(d, e);
  }

  /** What a decoder sees at the start of a segment with these data bytes. */
  function Opening(data: seq<byte>, bins: seq<Bin>): (v: View)
    ensures v.Normal()
  {
    View(Scale(Fraction(data), 16), 0x10000, bins)
  }

  /** Round trip of the arithmetic codec: the segment written for any decisions stands for exactly those decisions,
      and taking them from it leaves every bin as it was left by the encoder. */
  lemma {:induction false} SegmentDecodes(t: AriTable, bins: seq<Bin>, ds: Decisions, data: seq<byte>)
    requires SegmentFor(t, bins, After([], ds), data)
    ensures Codes(t, Opening(data, bins), ds, Run(t, Start(bins), After([], ds)).bins)
  {
    var r := Run(t, Start(bins), After([], ds));
    var x := Scale(Fraction(data), 16);
    ScaleScale(Fraction(data), 16, r.shifts);
    FinalValueInside(r.low, r.a);
    assert ViewFrom(Start(bins), x) == Opening(data, bins);
    IntervalOfRun(t, Start(bins), x, [], ds);
  }
}

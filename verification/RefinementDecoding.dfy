/** A decoder for the Huffman symbols and bits of an AC refinement scan (sections G.1.2.3 and G.2 of ITU-T T.81). It
    knows what the scan before gave of each block, and recovers the band of coefficients that the scan refines. */
module RefinementDecoding {
  import opened ProbabilityTable
  import opened ByteStream
  import opened CodingInterval
  import opened CoefficientModel

  /** What is emitted: the symbol for a run of blocks that end here, for 16 zeros, for a run of zeros and a newly
      nonzero coefficient with its sign; or a correction bit. */
  datatype Emission = EobRun(n: nat) | Zrl | NewCoef(run: nat, positive: bit) | Correction(b: bit)

  function AsEvents(bits: seq<bit>): seq<Emission> {
    seq(|bits|, i requires 0 <= i < |bits| => Correction(bits[i]))
  }

  // The coefficients of a band

  predicate Bands(ws: seq<seq<int>>, len: nat) {
    len > 0 && forall i :: 0 <= i < |ws| ==> |ws[i]| == len
  }

  /** What the scan before gave: all coefficients without their lowest bits. */
  function PreviousBands(ws: seq<seq<int>>): (r: seq<seq<int>>)
    ensures |r| == |ws|
    ensures forall i :: 0 <= i < |ws| ==>
              |r[i]| == |ws[i]| && forall j :: 0 <= j < |ws[i]| ==> r[i][j] == Half(ws[i][j])
  {
    seq(|ws|, i requires 0 <= i < |ws| => seq(|ws[i]|, j requires 0 <= j < |ws[i]| => Half(ws[i][j])))
  }

  /** A coefficient that was nonzero, with the bit that corrects it. */
  function Refined(v: int, b: bit): int {
    if v < 0 then 2 * v - b else 2 * v + b
  }

  // The decoder

  /** The decoder awaits a symbol; or passes zeros up to one that becomes v; or passes the rest of a run of blocks;
      or has met something that it does not expect. */
  datatype Mode = Symbol | Skip(zeros: nat, v: int) | Ending(blocks: nat) | Stuck

  /** The blocks done, and the coefficients of the current one. */
  datatype Received = Received(done: seq<seq<int>>, cur: seq<int>, mode: Mode)

  const START := Received([], [], Symbol)

  function BlockDone(s: Received): Received {
    Received(s.done + [s.cur], [], match s.mode
                                case Skip(_, _) => Stuck
                                case Ending(n) => if n <= 1 then Symbol else Ending(n - 1)
                                case _ => s.mode)
  }

  /** Pass a coefficient that was zero. */
  function PassZero(s: Received): Received {
    match s.mode
    case Skip(r, v) => if r == 0
      then Received(s.done, s.cur + [v], Symbol) else Received(s.done, s.cur + [0], Skip(r - 1, v))
    case _ => s.(cur := s.cur + [0])
  }

  function Receive(s: Received, was: int, e: Emission): Received {
    match (s.mode, e)
    case (Symbol, EobRun(n)) => s.(mode := if n == 0 then Stuck else Ending(n))
    case (Symbol, Zrl) => s.(mode := Skip(15, 0))
    case (Symbol, NewCoef(run, positive)) => s.(mode := Skip(run, if positive == 1 then 1 else -1))
    case (Skip(_, _), Correction(b)) => s.(cur := s.cur + [Refined(was, b)])
    case (Ending(_), Correction(b)) => s.(cur := s.cur + [Refined(was, b)])
    case _ => s.(mode := Stuck)
  }

  /** The decoder behind the events, given the blocks as the scan before left them. */
  function Decode(was: seq<seq<int>>, len: nat, es: seq<Emission>, s: Received): Received
    requires Bands(was, len)
    decreases |was| - |s.done|, len - |s.cur|, |es|
  {
    if s.mode.Stuck? then s
    else if |s.done| >= |was| then if es == [] then s else s.(mode := Stuck)
    else if |s.cur| >= len then Decode(was, len, es, BlockDone(s))
    else
      var v := was[|s.done|][|s.cur|];
      if !s.mode.Symbol? && v == 0 then Decode(was, len, es, PassZero(s))
      else if es == [] then s
      else Decode(was, len, es[1..], Receive(s, v, es[0]))
  }

  lemma {:induction false} Composed(was: seq<seq<int>>, len: nat, a: seq<Emission>, b: seq<Emission>, s: Received)
    requires Bands(was, len)
    ensures Decode(was, len, a + b, s) == Decode(was, len, b, Decode(was, len, a, s))
    decreases |was| - |s.done|, len - |s.cur|, |a|
  {
    if a == [] {
      assert a + b == b;
    }
    if !s.mode.Stuck? && |s.done| < |was| {
      if |s.cur| >= len {
        Composed(was, len, a, b, BlockDone(s));
      } else if !s.mode.Symbol? && was[|s.done|][|s.cur|] == 0 {
        Composed(was, len, a, b, PassZero(s));
      } else if a != [] {
        assert (a + b)[1..] == a[1..] + b;
        Composed(was, len, a[1..], b, Receive(s, was[|s.done|][|s.cur|], a[0]));
      }
    }
  }

  /** Blocks that the decoder has not reached do not matter. */
  lemma {:induction false} MoreBlocks(was: seq<seq<int>>, more: seq<int>, len: nat, es: seq<Emission>, s: Received)
    requires Bands(was, len) && |more| == len && (|s.done| >= |was| ==> |s.cur| == 0)
    requires Decode(was, len, es, s).mode.Symbol?
    ensures Decode(was + [more], len, es, s) == Decode(was, len, es, s)
    decreases |was| - |s.done|, len - |s.cur|, |es|
  {
    if |s.done| < |was| {
      if |s.cur| >= len {
        MoreBlocks(was, more, len, es, BlockDone(s));
      } else if !s.mode.Symbol? && was[|s.done|][|s.cur|] == 0 {
        MoreBlocks(was, more, len, es, PassZero(s));
      } else if es != [] {
        MoreBlocks(was, more, len, es[1..], Receive(s, was[|s.done|][|s.cur|], es[0]));
      }
    }
  }

  // What an encoder must send for the coefficients m..p of a band

  /** The correction bits. */
  function Bits(w: seq<int>, m: nat, p: nat): seq<bit>
    requires m <= p <= |w|
    decreases p - m
  {
    if m == p then []
    else (if Abs(w[m]) > 1 then [Abs(w[m]) % 2] else []) + Bits(w, m + 1, p)
  }

  function ZeroCount(w: seq<int>, m: nat, p: nat): nat
    requires m <= p <= |w|
    decreases p - m
  {
    if m == p then 0 else (if w[m] == 0 then 1 else 0) + ZeroCount(w, m + 1, p)
  }

  /** No coefficient becomes nonzero. */
  predicate Quiet(w: seq<int>, m: nat, p: nat)
    requires p <= |w|
  {
    forall q :: m <= q < p ==> Abs(w[q]) != 1
  }

  lemma {:induction false} OneFurther(w: seq<int>, m: nat, p: nat)
    requires m <= p < |w|
    ensures Bits(w, m, p + 1) == Bits(w, m, p) + if Abs(w[p]) > 1 then [Abs(w[p]) % 2] else []
    ensures ZeroCount(w, m, p + 1) == ZeroCount(w, m, p) + if w[p] == 0 then 1 else 0
    decreases p - m
  {
    if m < p {
      OneFurther(w, m + 1, p);
      var first: seq<bit> := if Abs(w[m]) > 1 then [Abs(w[m]) % 2] else [];
      var last: seq<bit> := if Abs(w[p]) > 1 then [Abs(w[p]) % 2] else [];
      assert first + (Bits(w, m + 1, p) + last) == first + Bits(w, m + 1, p) + last;
    } else {
      assert Bits(w, p + 1, p + 1) == [];
    }
  }

  // Three ways in which the decoder follows

  /** The decoder awaits a symbol at coefficient m of block c. */
  function Reached(ws: seq<seq<int>>, len: nat, c: nat, m: nat): Received
    requires Bands(ws, len) && c <= |ws| && m <= len && (c == |ws| ==> m == 0)
  {
    if m == len then Received(ws[..c + 1], [], Symbol) else Received(ws[..c], if m == 0 then [] else ws[c][..m], Symbol)
  }

  /** Coefficient m of block c, passed or corrected. */
  lemma {:induction false} FollowsOne(ws: seq<seq<int>>, len: nat, c: nat, m: nat, mode: Mode, rest: seq<bit>)
    requires Bands(ws, len) && c < |ws| && m < len && Abs(ws[c][m]) != 1 && (mode.Skip? || mode.Ending?)
    requires mode.Skip? && mode.zeros == 0 ==> ws[c][m] != 0
    ensures var s := Received(ws[..c], ws[c][..m], mode);
            var next := if mode.Skip? && ws[c][m] == 0 then mode.(zeros := mode.zeros - 1) else mode;
            Decode(PreviousBands(ws), len, AsEvents((if Abs(ws[c][m]) > 1 then [Abs(ws[c][m]) % 2] else []) + rest), s)
            == Decode(PreviousBands(ws), len, AsEvents(rest), Received(ws[..c], ws[c][..m + 1], next))
  {
    var w := ws[c];
    assert w[..m + 1] == w[..m] + [w[m]];
    if Abs(w[m]) > 1 {
      var b: bit := Abs(w[m]) % 2;
      assert AsEvents([b] + rest) == [Correction(b)] + AsEvents(rest);
      assert Refined(Half(w[m]), b) == w[m];
    } else {
      assert [] + rest == rest;
    }
  }

  /** A run of zeros up to a newly nonzero coefficient. */
  lemma {:induction false} FollowsRun(ws: seq<seq<int>>, len: nat, c: nat, m: nat, p: nat)
    requires Bands(ws, len) && c < |ws| && m <= p < len && Quiet(ws[c], m, p) && Abs(ws[c][p]) == 1
    ensures Decode(PreviousBands(ws), len, AsEvents(Bits(ws[c], m, p)),
                   Received(ws[..c], ws[c][..m], Skip(ZeroCount(ws[c], m, p), ws[c][p]))) == Reached(ws, len, c, p + 1)
    decreases p - m
  {
    var w := ws[c];
    if m == p {
      assert w[..m + 1] == w[..m] + [w[m]];
      var s := Received(ws[..c], w[..m + 1], Symbol);
      assert Decode(PreviousBands(ws), len, [], s) == Reached(ws, len, c, p + 1) by {
        if p + 1 == len {
          assert w[..p + 1] == w && ws[..c + 1] == ws[..c] + [w];
          assert Decode(PreviousBands(ws), len, [], BlockDone(s)) == BlockDone(s);
        }
      }
      assert AsEvents(Bits(w, m, p)) == [];
      assert PassZero(Received(ws[..c], w[..m], Skip(0, w[p]))) == s;
    } else {
      hide Decode;
      FollowsOne(ws, len, c, m, Skip(ZeroCount(w, m, p), w[p]), Bits(w, m + 1, p));
      FollowsRun(ws, len, c, m + 1, p);
    }
  }

  /** The last zero of a run without a newly nonzero coefficient. */
  lemma {:induction false} FollowsLastZero(ws: seq<seq<int>>, len: nat, c: nat, m: nat)
    requires Bands(ws, len) && c < |ws| && m + 1 < len && ws[c][m] == 0
    ensures Decode(PreviousBands(ws), len, AsEvents([]), Received(ws[..c], ws[c][..m], Skip(0, 0)))
         == Reached(ws, len, c, m + 1)
  {
    assert ws[c][..m + 1] == ws[c][..m] + [0];
  }

  /** A run of zeros that is too long for a symbol: the decoder stops behind the zero number n, and nothing but zeros
      lies between there and p, as long as the correction bits of m..p belong to coefficients before that zero. */
  lemma {:induction false} FollowsZeros(ws: seq<seq<int>>, len: nat, c: nat, m: nat, p: nat, n: nat) returns (at: nat)
    requires Bands(ws, len) && c < |ws| && m <= p < len && Quiet(ws[c], m, p) && n < ZeroCount(ws[c], m, p)
    requires forall q :: m <= q < p && ws[c][q] != 0 ==> ZeroCount(ws[c], m, q) <= n
    ensures m < at <= p && ZeroCount(ws[c], at, p) == ZeroCount(ws[c], m, p) - n - 1
    ensures Bits(ws[c], at, p) == [] && forall q :: at <= q < p ==> ws[c][q] == 0
    ensures Decode(PreviousBands(ws), len, AsEvents(Bits(ws[c], m, p)), Received(ws[..c], ws[c][..m], Skip(n, 0)))
         == Reached(ws, len, c, at)
    decreases p - m
  {
    var w := ws[c];
    if w[m] == 0 && n == 0 {
      at := m + 1;
      forall q | at <= q < p ensures w[q] == 0 {
        ZerosGrow(w, m, at, q);
      }
      NoBits(w, at, p);
      FollowsLastZero(ws, len, c, m);
    } else {
      hide Decode;
      forall q | m + 1 <= q < p && w[q] != 0
        ensures ZeroCount(w, m + 1, q) <= if w[m] == 0 then n - 1 else n
      {
        assert ZeroCount(w, m, q) <= n;
      }
      FollowsOne(ws, len, c, m, Skip(n, 0), Bits(w, m + 1, p));
      at := FollowsZeros(ws, len, c, m + 1, p, if w[m] == 0 then n - 1 else n);
    }
  }

  lemma {:induction false} ZerosGrow(w: seq<int>, m: nat, p: nat, q: nat)
    requires m <= p <= q <= |w|
    ensures ZeroCount(w, m, p) <= ZeroCount(w, m, q)
    decreases p - m
  {
    if m < p {
      ZerosGrow(w, m + 1, p, q);
    }
  }

  lemma {:induction false} NoBits(w: seq<int>, m: nat, p: nat)
    requires m <= p <= |w| && forall q :: m <= q < p ==> w[q] == 0
    ensures Bits(w, m, p) == []
    decreases p - m
  {
    if m < p {
      NoBits(w, m + 1, p);
    }
  }

  // Runs of blocks that end

  /** The correction bits from coefficient j of block i up to block c. */
  function RunBits(ws: seq<seq<int>>, len: nat, i: nat, j: nat, c: nat): seq<bit>
    requires Bands(ws, len) && i <= c <= |ws| && j <= len
    decreases c - i
  {
    if i == c then [] else Bits(ws[i], j, len) + RunBits(ws, len, i + 1, 0, c)
  }

  predicate RunQuiet(ws: seq<seq<int>>, len: nat, i: nat, j: nat, c: nat)
    requires Bands(ws, len) && c <= |ws|
  {
    forall b :: i <= b < c ==> Quiet(ws[b], if b == i then j else 0, len)
  }

  lemma {:induction false} RunGrows(ws: seq<seq<int>>, len: nat, i: nat, j: nat, c: nat)
    requires Bands(ws, len) && i <= c < |ws| && j <= len && (i == c ==> j == 0)
    ensures RunBits(ws, len, i, j, c + 1) == RunBits(ws, len, i, j, c) + Bits(ws[c], 0, len)
    decreases c - i
  {
    if i < c {
      RunGrows(ws, len, i + 1, 0, c);
      var a, b, d := Bits(ws[i], j, len), RunBits(ws, len, i + 1, 0, c), Bits(ws[c], 0, len);
      assert a + (b + d) == a + b + d;
    } else {
      assert RunBits(ws, len, c + 1, 0, c + 1) == [];
    }
  }

  lemma {:induction false} SameRun(ws: seq<seq<int>>, more: seq<int>, len: nat, i: nat, j: nat, c: nat)
    requires Bands(ws, len) && |more| == len && i <= c <= |ws| && j <= len
    ensures RunBits(ws + [more], len, i, j, c) == RunBits(ws, len, i, j, c)
    decreases c - i
  {
    if i < c {
      SameRun(ws, more, len, i + 1, 0, c);
    }
  }

  lemma {:induction false} StillQuiet(ws: seq<seq<int>>, more: seq<int>, len: nat, i: nat, j: nat, c: nat)
    requires Bands(ws, len) && |more| == len && c <= |ws| && RunQuiet(ws, len, i, j, c)
    ensures RunQuiet(ws + [more], len, i, j, c)
  {
    forall b | i <= b < c ensures Quiet((ws + [more])[b], if b == i then j else 0, len) {
      assert (ws + [more])[b] == ws[b];
    }
  }

  lemma {:induction false} EndsBlock(ws: seq<seq<int>>, len: nat, i: nat, c: nat, es: seq<Emission>)
    requires Bands(ws, len) && i < c <= |ws|
    ensures Decode(PreviousBands(ws), len, es, Received(ws[..i], ws[i][..len], Ending(c - i)))
         == Decode(PreviousBands(ws), len, es, Received(ws[..i + 1], [], if i + 1 == c
           then Symbol else Ending(c - i - 1)))
  {
    assert ws[i][..len] == ws[i] && ws[..i + 1] == ws[..i] + [ws[i]];
  }

  lemma {:induction false} FollowsEnd(ws: seq<seq<int>>, len: nat, i: nat, j: nat, c: nat, rest: seq<bit>)
    requires Bands(ws, len) && i < c <= |ws| && j <= len && Quiet(ws[i], j, len)
    ensures Decode(PreviousBands(ws), len, AsEvents(Bits(ws[i], j, len) + rest),
            Received(ws[..i], ws[i][..j], Ending(c - i)))
         == Decode(PreviousBands(ws), len, AsEvents(rest),
                   Received(ws[..i + 1], [], if i + 1 == c then Symbol else Ending(c - i - 1)))
    decreases len - j
  {
    var w := ws[i];
    if j == len {
      assert Bits(w, j, len) + rest == rest;
      EndsBlock(ws, len, i, c, AsEvents(rest));
    } else {
      hide Decode;
      var one: seq<bit> := if Abs(w[j]) > 1 then [Abs(w[j]) % 2] else [];
      FollowsOne(ws, len, i, j, Ending(c - i), Bits(w, j + 1, len) + rest);
      assert one + (Bits(w, j + 1, len) + rest) == Bits(w, j, len) + rest;
      FollowsEnd(ws, len, i, j + 1, c, rest);
    }
  }

  lemma {:induction false} FollowsRunOfBlocks(ws: seq<seq<int>>, len: nat, i: nat, j: nat, c: nat)
    requires Bands(ws, len) && i < c <= |ws| && j <= len && RunQuiet(ws, len, i, j, c)
    ensures Decode(PreviousBands(ws), len, AsEvents(RunBits(ws, len, i, j, c)),
            Received(ws[..i], ws[i][..j], Ending(c - i)))
         == Received(ws[..c], [], Symbol)
    decreases c - i
  {
    FollowsEnd(ws, len, i, j, c, RunBits(ws, len, i + 1, 0, c));
    if i + 1 < c {
      FollowsRunOfBlocks(ws, len, i + 1, 0, c);
    }
  }

  lemma {:induction false} FollowsSymbol(ws: seq<seq<int>>, len: nat, c: nat, m: nat, e: Emission, bits: seq<bit>)
    requires Bands(ws, len) && c < |ws| && m < len
    ensures Decode(PreviousBands(ws), len, [e] + AsEvents(bits), Reached(ws, len, c, m))
         == Decode(PreviousBands(ws), len, AsEvents(bits), Receive(Received(ws[..c], ws[c][..m], Symbol), 0, e))
  {
    assert ws[c][..0] == [];
    assert ([e] + AsEvents(bits))[1..] == AsEvents(bits);
  }

  /** The symbol for a run of ended blocks, with the correction bits of the run, brings the decoder to the next
      block. */
  lemma {:induction false} FlushedRun(ws: seq<seq<int>>, len: nat, es: seq<Emission>, i: nat, j: nat, c: nat)
    requires Bands(ws, len) && i < c <= |ws| && j < len && RunQuiet(ws, len, i, j, c)
    requires Decode(PreviousBands(ws), len, es, START) == Reached(ws, len, i, j)
    ensures var bits := RunBits(ws, len, i, j, c);
            Decode(PreviousBands(ws), len, es + ([EobRun(c - i)] + AsEvents(bits)), START)
              == Received(ws[..c], [], Symbol)
  {
    hide Decode, RunBits, RunQuiet, AsEvents, PreviousBands;
    var bits := RunBits(ws, len, i, j, c);
    Composed(PreviousBands(ws), len, es, [EobRun(c - i)] + AsEvents(bits), START);
    FollowsSymbol(ws, len, i, j, EobRun(c - i), bits);
    FollowsRunOfBlocks(ws, len, i, j, c);
  }

  /** Where nothing becomes nonzero, every coefficient is a zero or has a correction bit. */
  lemma {:induction false} ZeroOrBit(w: seq<int>, m: nat, p: nat)
    requires m <= p <= |w| && Quiet(w, m, p)
    ensures ZeroCount(w, m, p) + |Bits(w, m, p)| == p - m
    decreases p - m
  {
    if m < p {
      ZeroOrBit(w, m + 1, p);
    }
  }

  /** Nothing changes when another block comes. */
  lemma {:induction false} AnotherBlock(ws: seq<seq<int>>, w: seq<int>, len: nat, es: seq<Emission>, i: nat, j: nat)
    requires Bands(ws, len) && |w| == len && i <= |ws| && j <= len && (i == |ws| ==> j == 0)
    requires Decode(PreviousBands(ws), len, es, START) == Reached(ws, len, i, j)
    ensures Decode(PreviousBands(ws + [w]), len, es, START) == Reached(ws + [w], len, i, j)
  {
    var was := PreviousBands(ws + [w])[|ws|];
    assert PreviousBands(ws + [w]) == PreviousBands(ws) + [was];
    MoreBlocks(PreviousBands(ws), was, len, es, START);
    assert (ws + [w])[..i] == ws[..i] && (j == len ==> (ws + [w])[..i + 1] == ws[..i + 1]);
  }

  // What the encoder has gathered of a block since the last symbol

  /** Of the coefficients m..p of a band: r zeros, and correction bits. Up to the last newly nonzero coefficient, a
      correction bit lies behind at most 15 of the zeros. */
  ghost predicate Gathered(w: seq<int>, m: nat, p: nat, last: int, r: nat, bits: seq<bit>) {
    && m <= p <= |w| && Quiet(w, m, p) && r == ZeroCount(w, m, p) && bits == Bits(w, m, p)
    && forall q :: m <= q < p && q <= last && w[q] != 0 ==> ZeroCount(w, m, q) <= 15
  }

  lemma {:induction false} GatheredNone(w: seq<int>, m: nat, last: int)
    requires m <= |w|
    ensures Gathered(w, m, m, last, 0, [])
  {
  }

  lemma {:induction false} GatheredOne(w: seq<int>, m: nat, p: nat, last: int, r: nat, bits: seq<bit>)
    requires Gathered(w, m, p, last, r, bits) && p < |w| && Abs(w[p]) != 1
    requires w[p] != 0 && p <= last ==> r <= 15
    ensures w[p] == 0 ==> Gathered(w, m, p + 1, last, r + 1, bits)
    ensures w[p] != 0 ==> Gathered(w, m, p + 1, last, r, bits + [Abs(w[p]) % 2])
  {
    OneFurther(w, m, p);
  }

  /** Where there is nothing, there are no coefficients. */
  lemma {:induction false} GatheredLength(w: seq<int>, m: nat, p: nat, last: int, r: nat, bits: seq<bit>)
    requires Gathered(w, m, p, last, r, bits)
    ensures r + |bits| == p - m
  {
    ZeroOrBit(w, m, p);
  }

  lemma {:induction false} FollowsZrl(ws: seq<seq<int>>, len: nat, c: nat, m: nat, p: nat, last: int, r: nat,
                                      bits: seq<bit>)
      returns (next: nat)
    requires Bands(ws, len) && c < |ws| && p < len && p <= last && r > 15 && Gathered(ws[c], m, p, last, r, bits)
    ensures m < next && Gathered(ws[c], next, p, last, r - 16, [])
    ensures Decode(PreviousBands(ws), len, [Zrl] + AsEvents(bits), Reached(ws, len, c, m)) == Reached(ws, len, c, next)
  {
    next := FollowsZeros(ws, len, c, m, p, 15);
    FollowsSymbol(ws, len, c, m, Zrl, bits);
  }

  lemma {:induction false} FollowsNewCoef(ws: seq<seq<int>>, len: nat, c: nat, m: nat, p: nat, last: int, r: nat,
                                          bits: seq<bit>)
    requires Bands(ws, len) && c < |ws| && p < len && Gathered(ws[c], m, p, last, r, bits) && Abs(ws[c][p]) == 1
    ensures Decode(PreviousBands(ws), len, [NewCoef(r, if ws[c][p] < 0 then 0 else 1)] + AsEvents(bits),
                   Reached(ws, len, c, m)) == Reached(ws, len, c, p + 1)
  {
    FollowsRun(ws, len, c, m, p);
    FollowsSymbol(ws, len, c, m, NewCoef(r, if ws[c][p] < 0 then 0 else 1), bits);
  }

  lemma {:induction false} EmptyRun(ws: seq<seq<int>>, len: nat, c: nat, j: nat)
    requires Bands(ws, len) && c <= |ws| && j <= len
    ensures RunQuiet(ws, len, c, j, c) && RunBits(ws, len, c, j, c) == []
  {
  }

  /** At its end the block joins the run of ended blocks, or begins one. */
  lemma {:induction false} JoinsRun(ws: seq<seq<int>>, len: nat, i: nat, j: nat, c: nat, m: nat, last: int, r: nat,
                                    pending: seq<bit>, bits: seq<bit>)
    requires Bands(ws, len) && i <= c < |ws| && j < len && Gathered(ws[c], m, len, last, r, bits)
    requires RunQuiet(ws, len, i, j, c) && pending == RunBits(ws, len, i, j, c)
    requires if i < c then m == 0 else j == m
    ensures RunQuiet(ws, len, i, j, c + 1) && pending + bits == RunBits(ws, len, i, j, c + 1)
  {
    if i < c {
      hide RunQuiet, RunBits, Bits, ZeroCount;
      RunGrows(ws, len, i, j, c);
    } else {
      assert RunBits(ws, len, c + 1, 0, c + 1) == [];
    }
  }
}

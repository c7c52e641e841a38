/** The decisions for coefficients, written out: which bins they use (tables F.4 and F.5 of ITU-T T.81) and what the
    conditioning categories mean. */
module DecisionTables {
  import opened ProbabilityTable
  import opened ByteStream
  import opened CodingInterval
  import opened CoefficientModel
  import opened Approximation
  import opened ScanModel

  /** n is the number of binary digits of v below the highest one. */
  predicate HasDigits(v: int, n: nat) {
    Shl(1, n) <= v < Shl(1, n + 1)
  }

  lemma {:induction false} DigitsLog(v: int, n: nat)
    requires v >= 1 && HasDigits(v, n)
    ensures Log(v) == n
  {
    LogBound(v, n);
    LogBound(v, n + 1);
  }

  /** n decisions 1 in consecutive bins, and a decision 0 in the next one. */
  function Ones(bin: nat, n: nat): seq<Decision> {
    seq(n, i requires 0 <= i < n => Decision(bin + i, 1)) + [Decision(bin + n, 0)]
  }

  /** The n binary digits of v below the highest one, from high to low, in one bin. */
  function Digits(bin: nat, v: int, n: nat): seq<Decision> {
    seq(n, i requires 0 <= i < n => Decision(bin, Shr(v, n - 1 - i) % 2))
  }

  lemma {:induction false} CategoryIs(log: seq<Decision>, st: nat, v: int, n: nat, rest: Decisions)
    requires v >= 1 && HasDigits(v, n)
    ensures After(log, Category(st, v, rest)) == After(log + Ones(st, n), rest)
    decreases n
  {
    if n == 0 {
      assert Shl(1, 1) == 2;
      assert log + Ones(st, 0) == log + [Decision(st, 0)];
    } else {
      ShlOfNat(1, n - 1);
      CategoryIs(log + [Decision(st, 1)], st + 1, v / 2, n - 1, rest);
      assert log + [Decision(st, 1)] + Ones(st + 1, n - 1) == log + Ones(st, n);
    }
  }

  lemma {:induction false} PatternIs(log: seq<Decision>, st: nat, n: nat, v: int, rest: Decisions)
    ensures After(log, Pattern(st, n, v, rest)) == After(log + Digits(st, v, n), rest)
    decreases n
  {
    if n == 0 {
      assert log + Digits(st, v, 0) == log;
    } else {
      var d := Decision(st, Shr(v, n - 1) % 2);
      PatternIs(log + [d], st, n - 1, v, rest);
      assert log + [d] + Digits(st, v, n - 1) == log + Digits(st, v, n);
    }
  }

  /** Table F.4: S0, SS, SP and SN behind it, X1 = 20 and the bins behind it, and 14 bins further those for the digits.
      n tells how many digits follow the highest one of the magnitude less one. */
  function DcTable(stats: nat, context: nat, diff: int, n: nat): seq<Decision> {
    var s0 := stats + context;
    if diff == 0 then [Decision(s0, 0)]
    else if diff == 1 then [Decision(s0, 1), Decision(s0 + 1, 0), Decision(s0 + 2, 0)]
    else if diff == -1 then [Decision(s0, 1), Decision(s0 + 1, 1), Decision(s0 + 3, 0)]
    else
      [Decision(s0, 1), Decision(s0 + 1, if diff < 0 then 1 else 0), Decision(s0 + if diff < 0 then 3 else 2, 1)]
      + Ones(stats + 20, n) + Digits(stats + 34 + n, Abs(diff) - 1, n)
  }

  /** The decisions for a DC difference are those of the table. */
  lemma {:induction false} DcDecisionsAre(log: seq<Decision>, stats: nat, context: nat, diff: int, n: nat,
                                          rest: Decisions)
    requires Abs(diff) > 1 ==> HasDigits(Abs(diff) - 1, n)
    ensures After(log, DcDecisions(stats, context, diff, rest)) == After(log + DcTable(stats, context, diff, n), rest)
  {
    var s0, v, sign := stats + context, Abs(diff) - 1, Sign(diff);
    if diff == 0 {
      return;
    }
    hide Category, Pattern, Ones, Digits, Log;
    var start := [Decision(s0, 1), Decision(s0 + 1, sign), Decision(s0 + 2 + sign, if v == 0 then 0 else 1)];
    if v == 0 {
      ThreeMore(log, start[0], start[1], start[2], rest);
      assert start == DcTable(stats, context, diff, n);
    } else {
      DigitsLog(v, n);
      var pattern := Pattern(stats + 34 + n, n, v, rest);
      ThreeMore(log, start[0], start[1], start[2], Category(stats + 20, v, pattern));
      CategoryIs(log + start, stats + 20, v, n, pattern);
      PatternIs(log + start + Ones(stats + 20, n), stats + 34 + n, n, v, rest);
      var digits := Digits(stats + 34 + n, v, n);
      assert log + start + Ones(stats + 20, n) + digits == log + (start + Ones(stats + 20, n) + digits);
    }
  }

  lemma {:induction false} ThreeMore(log: seq<Decision>, a: Decision, b: Decision, c: Decision, rest: Decisions)
    ensures After(log, Then(a, Then(b, Then(c, rest)))) == After(log + [a, b, c], rest)
  {
    assert After(log, Then(a, Then(b, Then(c, rest)))) == After(log + [a], Then(b, Then(c, rest)));
    assert After(log + [a], Then(b, Then(c, rest))) == After(log + [a] + [b], Then(c, rest));
    assert log + [a] + [b] + [c] == log + [a, b, c];
  }

  /** Section F.1.4.4.1.2 in terms of the difference itself: it is small in the sense of the lower bound L, large in the
      sense of the upper bound U, or in between; and its sign. */
  lemma {:induction false} DcContextMeans(diff: int, low: nat, high: nat)
    ensures var c, zero := DcContext(diff, low, high), diff == 0 || Abs(diff) <= Shl(1, low) / 2;
            && (c == 0 <==> zero)
            && (!zero ==> c == (if Abs(diff) > Shl(1, high) then 12 else 4) + if diff < 0 then 4 else 0)
  {
    var v := Abs(diff) - 1;
    HalfPower(low);
    HalfPower(high);
    if v >= 1 {
      LowerBound(v, low);
      PowerAbove(v, high);
      LogBound(v, high);
    }
  }

  lemma {:induction false} LowerBound(v: int, low: nat)
    requires v >= 1
    ensures Shl(1, Log(v)) < Shl(1, low) / 2 <==> v < Shl(1, low) / 2
  {
    HalfPower(low);
    if low > 0 {
      PowerBelow(v, low - 1);
      LogBound(v, low - 1);
    } else {
      ShlOfNat(1, Log(v));
    }
  }

  lemma {:induction false} HalfPower(n: nat)
    ensures Shl(1, n) >= 1 && Shl(1, n) / 2 == if n == 0 then 0 else Shl(1, n - 1)
    ensures n > 0 ==> Shl(1, n - 1) >= 1
  {
    ShlOfNat(1, n);
    if n > 0 {
      ShlOfNat(1, n - 1);
    }
  }

  /** The highest power of two in v against 2^n. */
  lemma {:induction false} PowerBelow(v: int, n: nat)
    requires v >= 1
    ensures Shl(1, Log(v)) >= 1 && (Shl(1, Log(v)) < Shl(1, n) <==> Log(v) < n)
  {
    ShlOfNat(1, Log(v));
    if Log(v) < n {
      ShlGrows(1, Log(v) + 1, n);
    } else {
      ShlGrows(1, n, Log(v));
    }
  }

  lemma {:induction false} PowerAbove(v: int, n: nat)
    requires v >= 1
    ensures Shl(1, Log(v)) > Shl(1, n) / 2 <==> Log(v) >= n
  {
    HalfPower(n);
    PowerBelow(v, n);
    if Log(v) < n {
      ShlGrows(1, Log(v), n - 1);
    }
  }

  /** Table F.5: the magnitude of coefficient k, from SN, SP on, which are one bin; X1 is the same bin again, and
      where X2 and the bins behind it are depends on the position. */
  function AcMagnitudeTable(stats: nat, kx: nat, k: nat, v: nat): seq<Decision>
    requires k >= 1
  {
    var s, x := stats + 3 * (k - 1) + 2, stats + if k <= kx then 189 else 217;
    if v == 0 then [Decision(s, 0)]
    else if v == 1 then [Decision(s, 1), Decision(s, 0)]
    else [Decision(s, 1), Decision(s, 1)] + Ones(x, Log(v) - 1) + Digits(x + 13 + Log(v), v, Log(v))
  }

  lemma {:induction false} AcMagnitudeIs(log: seq<Decision>, stats: nat, kx: nat, k: nat, v: nat, rest: Decisions)
    requires k >= 1
    ensures After(log, AcMagnitude(stats, kx, k, stats + 3 * k - 1, v, rest))
         == After(log + AcMagnitudeTable(stats, kx, k, v), rest)
  {
    var s, x := stats + 3 * (k - 1) + 2, stats + if k <= kx then 189 else 217;
    if v == 1 {
      TwoMore(log, Decision(s, 1), Decision(s, 0), rest);
    } else if v > 1 {
      hide Category, Pattern, Ones, Digits, HasDigits;
      LogDigits(v / 2);
      var n := Log(v / 2);
      assert Log(v) == n + 1;
      var pattern := Pattern(x + 14 + n, Log(v), v, rest);
      var head, digits := [Decision(s, 1), Decision(s, 1)], Digits(x + 14 + n, v, Log(v));
      TwoMore(log, head[0], head[1], Category(x, v / 2, pattern));
      CategoryIs(log + head, x, v / 2, n, pattern);
      PatternIs(log + head + Ones(x, n), x + 14 + n, Log(v), v, rest);
      Associate(log, head, Ones(x, n));
      Associate(log, head + Ones(x, n), digits);
    }
  }

  lemma {:induction false} TwoMore(log: seq<Decision>, a: Decision, b: Decision, rest: Decisions)
    ensures After(log, Then(a, Then(b, rest))) == After(log + [a, b], rest)
  {
    assert After(log, Then(a, Then(b, rest))) == After(log + [a], Then(b, rest));
    assert log + [a] + [b] == log + [a, b];
  }

  lemma {:induction false} LogDigits(v: int)
    requires v >= 1
    ensures HasDigits(v, Log(v))
  {
    LogBound(v, Log(v));
    LogBound(v, Log(v) + 1);
  }

  /** One coefficient: where a run of zeros may end the block, that it does not; zero or not; sign and magnitude. */
  function AcCoefficient(stats: nat, kx: nat, zz: seq<int>, k: nat, mayEnd: bool): seq<Decision>
    requires 1 <= k < |zz|
  {
    var s0 := stats + 3 * (k - 1);
    (if mayEnd then [Decision(s0, 0)] else [])
    + if zz[k] == 0 then [Decision(s0 + 1, 0)]
      else [Decision(s0 + 1, 1), Decision(FIXED_BIN, if zz[k] < 0 then 1 else 0)]
           + AcMagnitudeTable(stats, kx, k, Abs(zz[k]) - 1)
  }

  /** The coefficients from k up to the last that is not zero. The block may end at its start and behind every nonzero
      coefficient. */
  function AcTable(stats: nat, kx: nat, zz: seq<int>, k: nat, last: nat, mayEnd: bool): seq<Decision>
    requires 1 <= k && last < |zz|
    decreases last + 1 - k
  {
    if k > last then [] else AcCoefficient(stats, kx, zz, k, mayEnd) + AcTable(stats, kx, zz, k + 1, last, zz[k] != 0)
  }

  predicate IsLast(zz: seq<int>, k: nat, last: nat, se: nat)
    requires se < |zz|
  {
    k <= last <= se && (last > k ==> zz[last] != 0) && Zeros(zz, last + 1, se)
  }

  function EndOfBlock(stats: nat, last: nat, se: nat): seq<Decision> {
    if last < se then [Decision(stats + 3 * last, 1)] else []
  }

  /** The decisions for the coefficients behind k are those of the table, and the end of the block if it is not full. */
  lemma {:induction false} AcDecisionsAre(log: seq<Decision>, stats: nat, kx: nat, zz: seq<int>, k: nat, last: nat,
                                          se: nat, rest: Decisions)
    requires k <= se < |zz| && IsLast(zz, k, last, se)
    ensures After(log, AcDecisions(stats, kx, zz, k, se, rest))
         == After(log + AcTable(stats, kx, zz, k + 1, last, true) + EndOfBlock(stats, last, se), rest)
    decreases se - k, 0
  {
    hide AcCoefficient, AcRun, AcTable, AcDecisions, Zeros;
    if last == k {
      AcEnds(log, stats, kx, zz, k, se, rest);
    } else {
      var d := [Decision(stats + 3 * k, 0)];
      AcOpens(log, stats, kx, zz, k, last, se, rest);
      AcRunIs(log + d, stats, kx, zz, k + 1, last, se, rest);
      WithFirst(stats, kx, zz, k + 1, last);
      Associate(log, d, AcTable(stats, kx, zz, k + 1, last, false));
    }
  }

  lemma {:induction false} AcEnds(log: seq<Decision>, stats: nat, kx: nat, zz: seq<int>, k: nat, se: nat,
                                  rest: Decisions)
    requires k <= se < |zz| && Zeros(zz, k + 1, se)
    ensures After(log, AcDecisions(stats, kx, zz, k, se, rest))
         == After(log + AcTable(stats, kx, zz, k + 1, k, true) + EndOfBlock(stats, k, se), rest)
  {
    hide AcCoefficient, AcRun;
    assert log + [] == log;
  }

  lemma {:induction false} AcOpens(log: seq<Decision>, stats: nat, kx: nat, zz: seq<int>, k: nat, last: nat, se: nat,
                                   rest: Decisions)
    requires k < last <= se < |zz| && IsLast(zz, k, last, se)
    ensures !Zeros(zz, k + 1, se) && zz[last] != 0 && Zeros(zz, last + 1, se)
    ensures After(log, AcDecisions(stats, kx, zz, k, se, rest))
         == After(log + [Decision(stats + 3 * k, 0)], AcRun(stats, kx, zz, k + 1, se, rest))
  {
    hide AcRun;
    assert zz[last] != 0;
  }

  lemma {:induction false} WithFirst(stats: nat, kx: nat, zz: seq<int>, k: nat, last: nat)
    requires 1 <= k <= last < |zz|
    ensures AcTable(stats, kx, zz, k, last, true)
         == [Decision(stats + 3 * (k - 1), 0)] + AcTable(stats, kx, zz, k, last, false)
  {
    hide AcMagnitudeTable;
    var a, b := [Decision(stats + 3 * (k - 1), 0)], AcCoefficient(stats, kx, zz, k, false);
    var c := AcTable(stats, kx, zz, k + 1, last, zz[k] != 0);
    assert AcCoefficient(stats, kx, zz, k, true) == a + b;
    assert a + b + c == a + (b + c);
  }

  lemma {:induction false} AcRunIs(log: seq<Decision>, stats: nat, kx: nat, zz: seq<int>, k: nat, last: nat, se: nat,
                                   rest: Decisions)
    requires 1 <= k <= last <= se < |zz| && zz[last] != 0 && Zeros(zz, last + 1, se) && !Zeros(zz, k, se)
    ensures After(log, AcRun(stats, kx, zz, k, se, rest))
         == After(log + AcTable(stats, kx, zz, k, last, false) + EndOfBlock(stats, last, se), rest)
    decreases se - k, 1
  {
    hide AcMagnitudeTable, AcMagnitude, AcTable;
    var t, e := AcTable(stats, kx, zz, k + 1, last, zz[k] != 0), EndOfBlock(stats, last, se);
    var coefficient := AcCoefficient(stats, kx, zz, k, false);
    AcTableNext(stats, kx, zz, k, last);
    Associate(log, coefficient, t);
    if zz[k] == 0 {
      assert coefficient == [Decision(stats + 3 * k - 2, 0)];
      AcRunIs(log + coefficient, stats, kx, zz, k + 1, last, se, rest);
    } else {
      AcNonzeroIs(log, stats, kx, zz, k, se, rest);
      AcDecisionsAre(log + coefficient, stats, kx, zz, k, last, se, rest);
    }
  }

  lemma {:induction false} AcTableNext(stats: nat, kx: nat, zz: seq<int>, k: nat, last: nat)
    requires 1 <= k <= last < |zz|
    ensures AcTable(stats, kx, zz, k, last, false)
         == AcCoefficient(stats, kx, zz, k, false) + AcTable(stats, kx, zz, k + 1, last, zz[k] != 0)
  {
    hide AcCoefficient;
  }

  lemma {:induction false} AcNonzeroIs(log: seq<Decision>, stats: nat, kx: nat, zz: seq<int>, k: nat, se: nat,
                                       rest: Decisions)
    requires 1 <= k <= se < |zz| && zz[k] != 0
    ensures After(log, AcRun(stats, kx, zz, k, se, rest))
         == After(log + AcCoefficient(stats, kx, zz, k, false), AcDecisions(stats, kx, zz, k, se, rest))
  {
    hide AcMagnitudeTable, AcMagnitude;
    var st, v, more := stats + 3 * k - 3, Abs(zz[k]) - 1, AcDecisions(stats, kx, zz, k, se, rest);
    var head := [Decision(st + 1, 1), Decision(FIXED_BIN, Sign(zz[k]))];
    var mag := AcMagnitude(stats, kx, k, st + 2, v, more);
    assert AcRun(stats, kx, zz, k, se, rest) == Then(head[0], Then(head[1], mag));
    assert AcCoefficient(stats, kx, zz, k, false) == head + AcMagnitudeTable(stats, kx, k, v);
    TwoMore(log, head[0], head[1], mag);
    AcMagnitudeIs(log + head, stats, kx, k, v, more);
    Associate(log, head, AcMagnitudeTable(stats, kx, k, v));
  }

  /** Figure G.10, one coefficient: whether the block ends here is not asked while an old coefficient follows; an old
      coefficient has its bin and gives its next bit. */
  function RefineCoefficient(stats: nat, zz: seq<int>, k: nat, mayEnd: bool): seq<Decision>
    requires 1 <= k < |zz|
  {
    var s0 := stats + 3 * (k - 1);
    (if mayEnd then [Decision(s0, 0)] else [])
    + if zz[k] == 0 then [Decision(s0 + 1, 0)]
      else if Abs(zz[k]) > 1 then [Decision(s0 + 2, Abs(zz[k]) % 2)]
      else [Decision(s0 + 1, 1), Decision(FIXED_BIN, if zz[k] < 0 then 1 else 0)]
  }

  /** The coefficients from k up to the last that is not zero, the last old one being at kex. */
  function RefineTable(stats: nat, zz: seq<int>, k: nat, last: nat, kex: nat, behind: bool): seq<Decision>
    requires 1 <= k && last < |zz|
    decreases last + 1 - k
  {
    if k > last then []
    else RefineCoefficient(stats, zz, k, behind && k > kex) + RefineTable(stats, zz, k + 1, last, kex, zz[k] != 0)
  }

  predicate IsLastOld(zz: seq<int>, kex: nat, se: nat)
    requires se < |zz|
  {
    kex <= se && (kex > 0 ==> Abs(zz[kex]) > 1) && NoneOld(zz, kex + 1, se)
  }

  lemma {:induction false} RefineDecisionsAre(log: seq<Decision>, stats: nat, zz: seq<int>, k: nat, last: nat, kex: nat,
                                              se: nat, rest: Decisions)
    requires k <= se < |zz| && IsLast(zz, k, last, se) && IsLastOld(zz, kex, se)
    ensures After(log, RefineDecisions(stats, zz, k, se, rest))
         == After(log + RefineTable(stats, zz, k + 1, last, kex, true) + EndOfBlock(stats, last, se), rest)
    decreases se - k, 0
  {
    hide RefineRun, RefineCoefficient, RefineTable, RefineDecisions, Zeros, NoneOld;
    if last == k {
      RefineEnds(log, stats, zz, k, kex, se, rest);
    } else {
      var t, e := RefineTable(stats, zz, k + 1, last, kex, false), EndOfBlock(stats, last, se);
      var d := RefineOpens(log, stats, zz, k, last, kex, se, rest);
      RefineRunIs(log + d, stats, zz, k + 1, last, kex, se, rest);
      RefineWithFirst(stats, zz, k + 1, last, kex);
      Associate(log, d, t);
    }
  }

  lemma {:induction false} Associate(a: seq<Decision>, b: seq<Decision>, c: seq<Decision>)
    ensures a + b + c == a + (b + c)
  {
  }

  lemma {:induction false} RefineEnds(log: seq<Decision>, stats: nat, zz: seq<int>, k: nat, kex: nat, se: nat,
                                      rest: Decisions)
    requires k <= se < |zz| && Zeros(zz, k + 1, se)
    ensures After(log, RefineDecisions(stats, zz, k, se, rest))
         == After(log + RefineTable(stats, zz, k + 1, k, kex, true) + EndOfBlock(stats, k, se), rest)
  {
    hide RefineRun, RefineCoefficient;
    assert log + [] == log;
  }

  lemma {:induction false} RefineOpens(log: seq<Decision>, stats: nat, zz: seq<int>, k: nat, last: nat, kex: nat,
                                       se: nat, rest: Decisions) returns (d: seq<Decision>)
    requires k < last <= se < |zz| && IsLast(zz, k, last, se) && IsLastOld(zz, kex, se)
    ensures d == (if k + 1 > kex then [Decision(stats + 3 * k, 0)] else [])
    ensures !Zeros(zz, k + 1, se) && zz[last] != 0 && Zeros(zz, last + 1, se)
    ensures After(log, RefineDecisions(stats, zz, k, se, rest)) == After(log + d, RefineRun(stats, zz, k + 1, se, rest))
  {
    hide RefineRun;
    d := if k + 1 > kex then [Decision(stats + 3 * k, 0)] else [];
    assert zz[last] != 0;
    assert NoneOld(zz, k + 1, se) <==> k + 1 > kex;
    assert log + [] == log;
  }

  lemma {:induction false} RefineWithFirst(stats: nat, zz: seq<int>, k: nat, last: nat, kex: nat)
    requires 1 <= k <= last < |zz|
    ensures RefineTable(stats, zz, k, last, kex, true)
         == (if k > kex then [Decision(stats + 3 * (k - 1), 0)] else []) + RefineTable(stats, zz, k, last, kex, false)
  {
    hide RefineDecisions;
    var a := if k > kex then [Decision(stats + 3 * (k - 1), 0)] else [];
    var b := RefineCoefficient(stats, zz, k, false);
    var c := RefineTable(stats, zz, k + 1, last, kex, zz[k] != 0);
    assert RefineCoefficient(stats, zz, k, k > kex) == a + b;
    assert a + b + c == a + (b + c);
  }

  lemma {:induction false} RefineRunIs(log: seq<Decision>, stats: nat, zz: seq<int>, k: nat, last: nat, kex: nat,
                                       se: nat, rest: Decisions)
    requires 1 <= k <= last <= se < |zz| && zz[last] != 0 && Zeros(zz, last + 1, se) && !Zeros(zz, k, se)
    requires IsLastOld(zz, kex, se)
    ensures After(log, RefineRun(stats, zz, k, se, rest))
         == After(log + RefineTable(stats, zz, k, last, kex, false) + EndOfBlock(stats, last, se), rest)
    decreases se - k, 1
  {
    var st := stats + 3 * k - 3;
    var t, e := RefineTable(stats, zz, k + 1, last, kex, zz[k] != 0), EndOfBlock(stats, last, se);
    var coefficient := RefineCoefficient(stats, zz, k, false);
    assert log + coefficient + t + e == log + (coefficient + t) + e;
    if zz[k] == 0 {
      assert coefficient == [Decision(st + 1, 0)];
      RefineRunIs(log + coefficient, stats, zz, k + 1, last, kex, se, rest);
    } else {
      var more := RefineDecisions(stats, zz, k, se, rest);
      if Abs(zz[k]) > 1 {
        assert coefficient == [Decision(st + 2, Abs(zz[k]) % 2)];
      } else {
        TwoMore(log, Decision(st + 1, 1), Decision(FIXED_BIN, Sign(zz[k])), more);
        assert coefficient == [Decision(st + 1, 1), Decision(FIXED_BIN, Sign(zz[k]))];
      }
      RefineDecisionsAre(log + coefficient, stats, zz, k, last, kex, se, rest);
    }
  }

  /** The statistics areas of all tables are apart from each other, and from the fixed bin. */
  lemma {:induction false} AreasApart(a: nat, b: nat)
    requires a < NUM_ARITH_TBLS && b < NUM_ARITH_TBLS
    ensures a < b ==> DcStats(a) + DC_STAT_BINS <= DcStats(b) && AcStats(a) + AC_STAT_BINS <= AcStats(b)
    ensures DcStats(a) + DC_STAT_BINS <= AcStats(b) && AcStats(a) + AC_STAT_BINS <= FIXED_BIN < NUM_BINS
    ensures DC_STAT_BINS == 64 && AC_STAT_BINS == 256
  {
  }

  // Whole blocks

  /** The DC part of a block of component ci, against the DC value of that component's block before. */
  function DcPart(p: Scan, pr: Prediction, ci: nat, b: Block, n: nat): seq<Decision>
    requires p.Valid() && pr.Fits(p) && ci < |p.comps|
  {
    DcTable(64 * p.comps[ci].dcTbl, pr.context[ci], Shr(b[0], p.al) - pr.last[ci], n)
  }

  /** The AC part: coefficients in zigzag order, divided by 2^al, up to the last nonzero one. */
  function AcPart(p: Scan, ci: nat, b: Block, from: nat, last: nat): seq<Decision>
    requires p.Valid() && ci < |p.comps| && last < |p.order| && from >= 1
  {
    var tbl := p.comps[ci].acTbl;
    AcTable(1024 + 256 * tbl, p.acK[tbl], Transformed(b, p.order, p.al), from, last, true)
    + EndOfBlock(1024 + 256 * tbl, last, p.se)
  }

  /** What is coded of a block in a sequential scan. */
  lemma {:induction false} SequentialBlock(log: seq<Decision>, p: Scan, pr: Prediction, ci: nat, b: Block, n: nat,
                                           last: nat, rest: Decisions)
    requires p.Valid() && pr.Fits(p) && ci < |p.comps| && !p.progressive
    requires Abs(b[0] - pr.last[ci]) > 1 ==> HasDigits(Abs(b[0] - pr.last[ci]) - 1, n)
    requires IsLast(Transformed(b, p.order, 0), 0, last, p.limSe)
    ensures After(log, BlockDecisions(p, pr, ci, b, rest))
         == After(log + DcPart(p, pr, ci, b, n) + AcPart(p, ci, b, 1, last), rest)
  {
    hide AcDecisions, DcDecisions, After, DcTable, AcTable;
    var c, zz := p.comps[ci], Transformed(b, p.order, 0);
    var dc, ac := DcPart(p, pr, ci, b, n), AcTable(AcStats(c.acTbl), p.acK[c.acTbl], zz, 1, last, true);
    var more := if p.limSe == 0 then rest else AcDecisions(AcStats(c.acTbl), p.acK[c.acTbl], zz, 0, p.limSe, rest);
    DcDecisionsAre(log, DcStats(c.dcTbl), pr.context[ci], DcDiff(p, pr, ci, b), n, more);
    if p.limSe == 0 {
      NoAc(AcStats(c.acTbl), p.acK[c.acTbl], zz);
      assert log + dc + [] == log + dc;
    } else {
      AcDecisionsAre(log + dc, AcStats(c.acTbl), p.acK[c.acTbl], zz, 0, last, p.limSe, rest);
      Associate(log + dc, ac, EndOfBlock(AcStats(c.acTbl), last, p.se));
    }
  }

  lemma {:induction false} NoAc(stats: nat, kx: nat, zz: seq<int>)
    requires zz != []
    ensures AcTable(stats, kx, zz, 1, 0, true) + EndOfBlock(stats, 0, 0) == []
  {
  }

  /** What is coded of a block in a progressive scan: a DC difference, a DC bit, AC coefficients, or their next bits. */
  lemma {:induction false} ProgressiveBlock(log: seq<Decision>, p: Scan, pr: Prediction, ci: nat, b: Block, n: nat,
                                            last: nat, kex: nat, rest: Decisions)
    requires p.Valid() && pr.Fits(p) && ci < |p.comps| && p.progressive
    requires var diff := Shr(b[0], p.al) - pr.last[ci]; Abs(diff) > 1 ==> HasDigits(Abs(diff) - 1, n)
    requires p.ss > 0 ==> var zz := Transformed(b, p.order, p.al);
                          IsLast(zz, p.ss - 1, last, p.se) && IsLastOld(zz, kex, p.se)
    ensures After(log, BlockDecisions(p, pr, ci, b, rest)) == After(log + (
              if p.ss == 0 && p.ah == 0 then DcPart(p, pr, ci, b, n)
              else if p.ss == 0 then [Decision(5120, Shr(b[0], p.al) % 2)]
              else if p.ah == 0 then AcPart(p, ci, b, p.ss, last)
              else RefineTable(1024 + 256 * p.comps[ci].acTbl, Transformed(b, p.order, p.al), p.ss, last, kex, true)
                   + EndOfBlock(1024 + 256 * p.comps[ci].acTbl, last, p.se)), rest)
  {
    hide AcDecisions, DcDecisions, RefineDecisions, DcTable, AcTable, RefineTable;
    var c, zz := p.comps[ci], Transformed(b, p.order, p.al);
    var stats := AcStats(c.acTbl);
    if p.ss == 0 {
      if p.ah == 0 {
        DcDecisionsAre(log, DcStats(c.dcTbl), pr.context[ci], DcDiff(p, pr, ci, b), n, rest);
      }
    } else if p.ah == 0 {
      AcDecisionsAre(log, stats, p.acK[c.acTbl], zz, p.ss - 1, last, p.se, rest);
      Associate(log, AcTable(stats, p.acK[c.acTbl], zz, p.ss, last, true), EndOfBlock(stats, last, p.se));
    } else {
      RefineDecisionsAre(log, stats, zz, p.ss - 1, last, kex, p.se, rest);
      Associate(log, RefineTable(stats, zz, p.ss, last, kex, true), EndOfBlock(stats, last, p.se));
    }
  }
}

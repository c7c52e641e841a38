/** Minimum-redundancy codes: what Huffman's algorithm (jchuff.c) achieves, and that no prefix code does better. */
module HuffmanCost {
  import opened ProbabilityTable
  import opened ByteStream

  const SYMBOLS := 257

  /** Counts of the symbols, or of the branches of a code tree, each at the place of its first symbol; 0 if unused. */
  type Counts = f: seq<nat> | |f| == SYMBOLS witness seq(SYMBOLS, i => 0)

  function Used(f: Counts, n: nat): nat
    requires n <= SYMBOLS
  {
    if n == 0 then 0 else Used(f, n - 1) + if f[n - 1] > 0 then 1 else 0
  }

  function Total(f: Counts, n: nat): nat
    requires n <= SYMBOLS
  {
    if n == 0 then 0 else Total(f, n - 1) + f[n - 1]
  }

  /** The number of code bits for all symbols. */
  function Cost(f: Counts, len: Counts, n: nat): nat
    requires n <= SYMBOLS
  {
    if n == 0 then 0 else Cost(f, len, n - 1) + f[n - 1] * len[n - 1]
  }

  /** The sum of 2^(m - length) over the used symbols. */
  function Kraft(f: Counts, len: Counts, m: nat, n: nat): nat
    requires n <= SYMBOLS
  {
    if n == 0 then 0
    else Kraft(f, len, m, n - 1) + if f[n - 1] > 0 then Power(m - len[n - 1]) else 0
  }

  /** 2^n. */
  function Power(n: int): nat {
    if n < 0 then 0
    else
      ShlOfNat(1, n);
      Shl(1, n)
  }

  /** Kraft's inequality: such lengths are those of a prefix code. */
  predicate Feasible(f: Counts, len: Counts, m: nat) {
    && (forall i :: 0 <= i < SYMBOLS && f[i] > 0 ==> len[i] <= m)
    && Kraft(f, len, m, SYMBOLS) <= Power(m)
  }

  // The two smallest counts; ties are broken in favour of the larger symbol number

  predicate Smallest(f: Counts, c: nat, except: int) {
    && c < SYMBOLS && c != except && f[c] > 0
    && forall i :: 0 <= i < SYMBOLS && i != except && f[i] > 0 ==> f[c] < f[i] || (f[c] == f[i] && i <= c)
  }

  /** Merge two branches. */
  function Merge(f: Counts, c1: nat, c2: nat): Counts
    requires c1 < SYMBOLS && c2 < SYMBOLS && c1 != c2
  {
    f[c1 := f[c1] + f[c2]][c2 := 0]
  }

  lemma {:induction false} UsedUpdate(f: Counts, i: nat, v: nat, n: nat)
    requires n <= SYMBOLS && i < SYMBOLS
    ensures Used(f[i := v], n) == Used(f, n)
            + if i >= n then 0 else (if v > 0 then 1 else 0) - (if f[i] > 0 then 1 else 0)
  {
    if n > 0 {
      UsedUpdate(f, i, v, n - 1);
    }
  }

  lemma {:induction false} TotalUpdate(f: Counts, i: nat, v: nat, n: nat)
    requires n <= SYMBOLS && i < SYMBOLS
    ensures Total(f[i := v], n) == Total(f, n) + if i >= n then 0 else v - f[i]
  {
    if n > 0 {
      TotalUpdate(f, i, v, n - 1);
    }
  }

  lemma {:induction false} CostUpdate(f: Counts, len: Counts, i: nat, v: nat, l: nat, n: nat)
    requires n <= SYMBOLS && i < SYMBOLS
    ensures Cost(f[i := v], len[i := l], n) == Cost(f, len, n) + if i >= n then 0 else v * l - f[i] * len[i]
  {
    if n > 0 {
      CostUpdate(f, len, i, v, l, n - 1);
    }
  }

  lemma {:induction false} KraftUpdate(f: Counts, len: Counts, m: nat, i: nat, v: nat, l: nat, n: nat)
    requires n <= SYMBOLS && i < SYMBOLS
    ensures Kraft(f[i := v], len[i := l], m, n) == Kraft(f, len, m, n)
              + if i >= n then 0 else (if v > 0 then Power(m - l) else 0) - (if f[i] > 0 then Power(m - len[i]) else 0)
  {
    if n > 0 {
      KraftUpdate(f, len, m, i, v, l, n - 1);
    }
  }

  lemma {:induction false} SomeUsed(f: Counts, n: nat)
    requires n <= SYMBOLS && Used(f, n) > 0
    ensures exists i :: 0 <= i < n && f[i] > 0
  {
    if f[n - 1] == 0 {
      SomeUsed(f, n - 1);
    }
  }

  lemma {:induction false} UsedOne(f: Counts, i: nat, n: nat)
    requires i < n <= SYMBOLS && f[i] > 0
    ensures Used(f, n) >= 1
  {
    if i < n - 1 {
      UsedOne(f, i, n - 1);
    }
  }

  /** With two branches left there are two to merge, and then one less. */
  lemma {:induction false} MergeUsed(f: Counts, c1: nat, c2: nat)
    requires c1 < SYMBOLS && c2 < SYMBOLS && c1 != c2 && f[c1] > 0 && f[c2] > 0
    ensures Used(Merge(f, c1, c2), SYMBOLS) == Used(f, SYMBOLS) - 1
    ensures Used(Merge(f, c1, c2), SYMBOLS) >= 1
    ensures Total(Merge(f, c1, c2), SYMBOLS) == Total(f, SYMBOLS)
  {
    var g := f[c1 := f[c1] + f[c2]];
    UsedUpdate(f, c1, f[c1] + f[c2], SYMBOLS);
    UsedUpdate(g, c2, 0, SYMBOLS);
    TotalUpdate(f, c1, f[c1] + f[c2], SYMBOLS);
    TotalUpdate(g, c2, 0, SYMBOLS);
    UsedOne(Merge(f, c1, c2), c1, SYMBOLS);
  }

  // Huffman's algorithm

  function FindSmallest(f: Counts, except: int, n: nat): (c: int)
    requires n <= SYMBOLS
    ensures -1 <= c < n
    ensures c < 0 ==> forall i :: 0 <= i < n && i != except ==> f[i] == 0
    ensures c >= 0 ==> c != except && f[c] > 0
    ensures c >= 0 ==> forall i :: 0 <= i < n && i != except && f[i] > 0 ==> f[c] < f[i] || (f[c] == f[i] && i <= c)
  {
    if n == 0 then -1
    else
      var c := FindSmallest(f, except, n - 1);
      if f[n - 1] > 0 && n - 1 != except && (c < 0 || f[n - 1] <= f[c]) then n - 1 else c
  }

  /** The sum of the counts of all branches that the algorithm makes. */
  function LeastCost(f: Counts): nat
    decreases Used(f, SYMBOLS)
  {
    var c1 := FindSmallest(f, -1, SYMBOLS);
    var c2 := FindSmallest(f, c1, SYMBOLS);
    if c1 < 0 || c2 < 0 then 0
    else
      MergeUsed(f, c1, c2);
      f[c1] + f[c2] + LeastCost(Merge(f, c1, c2))
  }

  // No lengths that satisfy Kraft's inequality cost less

  /** The number of symbols of length m. */
  function Deep(f: Counts, len: Counts, m: nat, n: nat): nat
    requires n <= SYMBOLS
  {
    if n == 0 then 0 else Deep(f, len, m, n - 1) + if f[n - 1] > 0 && len[n - 1] == m then 1 else 0
  }

  lemma {:induction false} KraftParity(f: Counts, len: Counts, m: nat, n: nat)
    requires n <= SYMBOLS && forall i :: 0 <= i < n && f[i] > 0 ==> len[i] <= m
    ensures Kraft(f, len, m, n) % 2 == Deep(f, len, m, n) % 2
  {
    if n > 0 {
      KraftParity(f, len, m, n - 1);
      if f[n - 1] > 0 {
        PowerPositive(m - len[n - 1]);
        SumParity(Kraft(f, len, m, n - 1), Deep(f, len, m, n - 1), Power(m - len[n - 1]), len[n - 1] == m);
      }
    }
  }

  lemma {:induction false} SumParity(a: nat, d: nat, p: nat, deep: bool)
    requires a % 2 == d % 2 && if deep then p == 1 else p % 2 == 0
    ensures (a + p) % 2 == (d + if deep then 1 else 0) % 2
  {
  }

  lemma {:induction false} KraftAtLeastUsed(f: Counts, len: Counts, m: nat, n: nat)
    requires n <= SYMBOLS && forall i :: 0 <= i < n && f[i] > 0 ==> len[i] <= m
    ensures Kraft(f, len, m, n) >= Used(f, n)
  {
    if n > 0 {
      KraftAtLeastUsed(f, len, m, n - 1);
      if f[n - 1] > 0 {
        PowerPositive(m - len[n - 1]);
      }
    }
  }

  lemma {:induction false} PowerPositive(n: nat)
    ensures Power(n) >= 1 && (n > 0 ==> Power(n) % 2 == 0)
  {
    if n > 0 {
      PowerPositive(n - 1);
      var h := Power(n - 1);
      assert Power(n) == 2 * h;
      TwiceIsEven(h);
    }
  }

  lemma {:induction false} TwiceIsEven(h: nat)
    ensures 2 * h % 2 == 0
  {
  }

  lemma {:induction false} NoneDeep(f: Counts, len: Counts, m: nat, n: nat)
    requires n <= SYMBOLS && Deep(f, len, m, n) == 0
    ensures forall i :: 0 <= i < n && f[i] > 0 ==> len[i] != m
  {
    if n > 0 {
      NoneDeep(f, len, m, n - 1);
    }
  }

  lemma {:induction false} SomeDeep(f: Counts, len: Counts, m: nat, n: nat) returns (x: nat)
    requires n <= SYMBOLS && Deep(f, len, m, n) > 0
    ensures x < n && f[x] > 0 && len[x] == m && Deep(f, len, m, x) == Deep(f, len, m, n) - 1
  {
    if f[n - 1] > 0 && len[n - 1] == m {
      x := n - 1;
    } else {
      x := SomeDeep(f, len, m, n - 1);
    }
  }

  /** If no symbol has length m, then m can be lowered. */
  lemma {:induction false} Shallower(f: Counts, len: Counts, m: nat, n: nat)
    requires n <= SYMBOLS && m > 0 && forall i :: 0 <= i < n && f[i] > 0 ==> len[i] < m
    ensures Kraft(f, len, m, n) == 2 * Kraft(f, len, m - 1, n)
  {
    if n > 0 {
      Shallower(f, len, m, n - 1);
    }
  }

  lemma {:induction false} TwoUsed(f: Counts, c1: nat, c2: nat)
    requires c1 < SYMBOLS && c2 < SYMBOLS && c1 != c2 && f[c1] > 0 && f[c2] > 0
    ensures Used(f, SYMBOLS) >= 2
  {
    MergeUsed(f, c1, c2);
  }

  /** Shortening the only symbol of length m. */
  lemma {:induction false} DeepUpdate(f: Counts, len: Counts, m: nat, i: nat, n: nat)
    requires n <= SYMBOLS && i < SYMBOLS && f[i] > 0 && len[i] == m > 0
    ensures Deep(f, len[i := m - 1], m, n) == Deep(f, len, m, n) - if i < n then 1 else 0
  {
    if n > 0 {
      DeepUpdate(f, len, m, i, n - 1);
    }
  }

  lemma {:induction false} Shortened(f: Counts, len: Counts, m: nat, x: nat)
    requires Feasible(f, len, m) && m > 0 && Deep(f, len, m, SYMBOLS) == 1
    requires x < SYMBOLS && f[x] > 0 && len[x] == m
    ensures Feasible(f, len[x := m - 1], m - 1)
    ensures Cost(f, len[x := m - 1], SYMBOLS) <= Cost(f, len, SYMBOLS)
  {
    var l := len[x := m - 1];
    KraftParity(f, len, m, SYMBOLS);
    PowerPositive(m);
    assert f[x := f[x]] == f;
    KraftUpdate(f, len, m, x, f[x], m - 1, SYMBOLS);
    CostUpdate(f, len, x, f[x], m - 1, SYMBOLS);
    LessTimes(f[x], m - 1, m);
    DeepUpdate(f, len, m, x, SYMBOLS);
    NoneDeep(f, l, m, SYMBOLS);
    Shallower(f, l, m, SYMBOLS);
  }

  lemma {:induction false} LessTimes(k: nat, a: nat, b: nat)
    requires a <= b
    ensures k * a <= k * b
  {
  }

  /** Giving the smaller count the greater length does not cost more. */
  lemma {:induction false} Swapped(f: Counts, len: Counts, m: nat, a: nat, b: nat)
    requires Feasible(f, len, m) && a < SYMBOLS && b < SYMBOLS && a != b && 0 < f[a] <= f[b] && len[a] <= len[b]
    ensures var l := len[a := len[b]][b := len[a]];
            Feasible(f, l, m) && Cost(f, l, SYMBOLS) <= Cost(f, len, SYMBOLS)
  {
    var l := len[a := len[b]];
    assert f[a := f[a]] == f && f[b := f[b]] == f;
    KraftUpdate(f, len, m, a, f[a], len[b], SYMBOLS);
    KraftUpdate(f, l, m, b, f[b], len[a], SYMBOLS);
    CostUpdate(f, len, a, f[a], len[b], SYMBOLS);
    CostUpdate(f, l, b, f[b], len[a], SYMBOLS);
    SwapCost(f[a], f[b], len[a], len[b]);
  }

  lemma {:induction false} SwapCost(a: nat, b: nat, x: nat, y: nat)
    requires a <= b && x <= y
    ensures a * y + b * x <= a * x + b * y
  {
    LessTimes(y - x, a, b);
    assert (y - x) * a == a * y - a * x && (y - x) * b == b * y - b * x;
  }

  /** The two smallest counts at the greatest length. */
  lemma {:induction false} BothDeep(f: Counts, len: Counts, m: nat, c1: nat, c2: nat) returns (l: Counts)
    requires Feasible(f, len, m) && Smallest(f, c1, -1) && Smallest(f, c2, c1) && Deep(f, len, m, SYMBOLS) >= 2
    ensures Feasible(f, l, m) && l[c1] == l[c2] == m && Cost(f, l, SYMBOLS) <= Cost(f, len, SYMBOLS)
  {
    var x := SomeDeep(f, len, m, SYMBOLS);
    var y := SomeDeep(f, len, m, x);
    l := len;
    if l[c1] < m {
      var z, w := if x == c2 then y else x, if x == c2 then x else y;
      Swapped(f, l, m, c1, z);
      l := l[c1 := l[z]][z := l[c1]];
      x, y := c1, w;
    } else if x != c1 {
      x, y := c1, x;
    }
    if l[c2] < m {
      Swapped(f, l, m, c2, y);
      l := l[c2 := l[y]][y := l[c2]];
    }
  }

  /** Two symbols of length m under a common prefix of length m - 1. */
  lemma {:induction false} Merged(f: Counts, len: Counts, m: nat, c1: nat, c2: nat)
    requires Feasible(f, len, m) && m > 0 && c1 < SYMBOLS && c2 < SYMBOLS && c1 != c2 && f[c1] > 0 && f[c2] > 0
    requires len[c1] == len[c2] == m
    ensures var g, l := Merge(f, c1, c2), len[c1 := m - 1];
            Feasible(g, l, m) && Cost(f, len, SYMBOLS) == Cost(g, l, SYMBOLS) + f[c1] + f[c2]
  {
    var a, b := f[c1], f[c2];
    hide Kraft, Cost;
    var g, l := f[c1 := a + b], len[c1 := m - 1];
    assert l[c2 := m] == l;
    KraftUpdate(f, len, m, c1, a + b, m - 1, SYMBOLS);
    KraftUpdate(g, l, m, c2, 0, m, SYMBOLS);
    assert Power(1) == 2 * Power(0);
    CostUpdate(f, len, c1, a + b, m - 1, SYMBOLS);
    CostUpdate(g, l, c2, 0, m, SYMBOLS);
    MergedCost(a, b, m);
  }

  lemma {:induction false} MergedCost(a: nat, b: nat, m: nat)
    ensures (a + b) * (m - 1) == a * m + b * m - a - b
  {
  }

  /** Huffman's algorithm is optimal: no lengths that satisfy Kraft's inequality need fewer bits. */
  lemma {:induction false} Optimal(f: Counts, len: Counts, m: nat)
    requires Feasible(f, len, m)
    ensures Cost(f, len, SYMBOLS) >= LeastCost(f)
    decreases Used(f, SYMBOLS), m
  {
    var c1 := FindSmallest(f, -1, SYMBOLS);
    var c2 := FindSmallest(f, c1, SYMBOLS);
    if c1 >= 0 && c2 >= 0 {
      TwoUsed(f, c1, c2);
      KraftAtLeastUsed(f, len, m, SYMBOLS);
      var deep := Deep(f, len, m, SYMBOLS);
      if deep == 0 {
        NoneDeep(f, len, m, SYMBOLS);
        Shallower(f, len, m, SYMBOLS);
        Optimal(f, len, m - 1);
      } else if deep == 1 {
        var x := SomeDeep(f, len, m, SYMBOLS);
        Shortened(f, len, m, x);
        Optimal(f, len[x := m - 1], m - 1);
      } else {
        var l := BothDeep(f, len, m, c1, c2);
        Merged(f, l, m, c1, c2);
        MergeUsed(f, c1, c2);
        Optimal(Merge(f, c1, c2), l[c1 := m - 1], m);
      }
    }
  }

  // Prefix codes

  type Code = c: seq<seq<bit>> | |c| == SYMBOLS witness seq(SYMBOLS, i => [])

  /** No code word of a used symbol is the beginning of another one. */
  predicate PrefixFree(f: Counts, code: Code) {
    forall i, j :: 0 <= i < SYMBOLS && 0 <= j < SYMBOLS && i != j && f[i] > 0 && f[j] > 0 ==> !(code[i] <= code[j])
  }

  function Lengths(code: Code): Counts {
    seq(SYMBOLS, i requires 0 <= i < SYMBOLS => |code[i]|)
  }

  /** The symbols whose code words start with a bit, and what follows this bit. */
  function StartingWith(f: Counts, code: Code, b: bit): Counts {
    seq(SYMBOLS, i requires 0 <= i < SYMBOLS => if code[i] != [] && code[i][0] == b then f[i] else 0)
  }

  function Tails(code: Code): Code {
    seq(SYMBOLS, i requires 0 <= i < SYMBOLS => if code[i] == [] then [] else code[i][1..])
  }

  lemma {:induction false} KraftSplits(f: Counts, code: Code, m: nat, n: nat)
    requires n <= SYMBOLS && m > 0 && forall i :: 0 <= i < n && f[i] > 0 ==> 0 < |code[i]| <= m
    ensures var t := Lengths(Tails(code));
            Kraft(f, Lengths(code), m, n)
              == Kraft(StartingWith(f, code, 0), t, m - 1, n) + Kraft(StartingWith(f, code, 1), t, m - 1, n)
  {
    if n > 0 {
      KraftSplits(f, code, m, n - 1);
    }
  }

  lemma {:induction false} KraftAlone(f: Counts, len: Counts, m: nat, x: nat, n: nat)
    requires n <= SYMBOLS && x < SYMBOLS && f[x] > 0 && forall i :: 0 <= i < n && i != x ==> f[i] == 0
    ensures Kraft(f, len, m, n) == if x < n then Power(m - len[x]) else 0
  {
    if n > 0 {
      KraftAlone(f, len, m, x, n - 1);
    }
  }

  /** The lengths of a prefix code satisfy Kraft's inequality. */
  lemma {:induction false} PrefixFeasible(f: Counts, code: Code, m: nat)
    requires PrefixFree(f, code) && forall i :: 0 <= i < SYMBOLS && f[i] > 0 ==> |code[i]| <= m
    ensures Feasible(f, Lengths(code), m)
    decreases m
  {
    if x :| 0 <= x < SYMBOLS && f[x] > 0 && code[x] == [] {
      KraftAlone(f, Lengths(code), m, x, SYMBOLS);
    } else if m == 0 {
      NoneUsed(f, Lengths(code), m, SYMBOLS);
    } else {
      KraftSplits(f, code, m, SYMBOLS);
      HalfPrefixFree(f, code, 0);
      HalfPrefixFree(f, code, 1);
      PrefixFeasible(StartingWith(f, code, 0), Tails(code), m - 1);
      PrefixFeasible(StartingWith(f, code, 1), Tails(code), m - 1);
    }
  }

  lemma {:induction false} NoneUsed(f: Counts, len: Counts, m: nat, n: nat)
    requires n <= SYMBOLS && forall i :: 0 <= i < n ==> f[i] == 0
    ensures Kraft(f, len, m, n) == 0
  {
    if n > 0 {
      NoneUsed(f, len, m, n - 1);
    }
  }

  lemma {:induction false} HalfPrefixFree(f: Counts, code: Code, b: bit)
    requires PrefixFree(f, code)
    ensures PrefixFree(StartingWith(f, code, b), Tails(code))
  {
    var g, t := StartingWith(f, code, b), Tails(code);
    forall i, j | 0 <= i < SYMBOLS && 0 <= j < SYMBOLS && i != j && g[i] > 0 && g[j] > 0 ensures !(t[i] <= t[j]) {
      assert code[i] == [b] + t[i] && code[j] == [b] + t[j] && !(code[i] <= code[j]);
      PrefixCons(b, t[i], t[j]);
    }
  }

  lemma {:induction false} PrefixCons(b: bit, s: seq<bit>, t: seq<bit>)
    ensures [b] + s <= [b] + t <==> s <= t
  {
    assert ([b] + s)[1..] == s && ([b] + t)[1..] == t;
  }

  function Longest(code: Code, n: nat): (m: nat)
    requires n <= SYMBOLS
    ensures forall i :: 0 <= i < n ==> |code[i]| <= m
  {
    if n == 0 then 0
    else
      var m := Longest(code, n - 1);
      if |code[n - 1]| > m then |code[n - 1]| else m
  }

  /** No prefix code for the used symbols needs fewer bits than what Huffman's algorithm achieves. */
  lemma {:induction false} NoBetterCode(f: Counts, code: Code)
    requires PrefixFree(f, code)
    ensures Cost(f, Lengths(code), SYMBOLS) >= LeastCost(f)
  {
    var m := Longest(code, SYMBOLS);
    PrefixFeasible(f, code, m);
    Optimal(f, Lengths(code), m);
  }
}

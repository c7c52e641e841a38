/** Numbers of code words by length, and the adjustment to lengths of at most 16 bits (jchuff.c, section K.2 of
    ITU-T T.81). */
module CodeLengths {
  import opened ProbabilityTable
  import opened HuffmanCost

  const MAX_CLEN := 32

  /** bits[l] code words of length l; each number fits a byte. */
  type LengthCounts = b: seq<byte> | |b| == MAX_CLEN + 1 && b[0] == 0 witness seq(MAX_CLEN + 1, i => 0)

  /** How many nodes of depth n in a code tree belong to the code words of length up to n. */
  function Nodes(bits: seq<byte>, n: nat): nat
    requires n < |bits|
  {
    if n == 0 then 0 else 2 * Nodes(bits, n - 1) + bits[n]
  }

  function Words(bits: seq<byte>, n: nat): nat
    requires n < |bits|
  {
    if n == 0 then 0 else Words(bits, n - 1) + bits[n]
  }

  lemma {:induction false} NodesAdd(bits: seq<byte>, l: nat, n: nat)
    requires 1 <= l < |bits| && n < |bits| && bits[l] < 255
    ensures var r := bits[l := bits[l] + 1];
            && Nodes(r, n) == Nodes(bits, n) + (if l <= n then Power(n - l) else 0)
            && Words(r, n) == Words(bits, n) + (if l <= n then 1 else 0)
  {
    if n > 0 {
      NodesAdd(bits, l, n - 1);
    }
  }

  lemma {:induction false} WordsBound(bits: seq<byte>, l: nat, n: nat)
    requires 1 <= l <= n < |bits|
    ensures bits[l] <= Words(bits, n)
    ensures l < n ==> bits[l] + bits[n] <= Words(bits, n)
  {
    if l < n {
      WordsBound(bits, l, n - 1);
    }
  }

  lemma {:induction false} NodesAtTop(bits: seq<byte>, i: nat, n: nat)
    requires i <= n < |bits| && Nodes(bits, n) == Power(n) && forall l :: i < l <= n ==> bits[l] == 0
    ensures Nodes(bits, i) == Power(i)
    decreases n
  {
    if i < n {
      NodesAtTop(bits, i, n - 1);
    }
  }

  lemma {:induction false} NoNodes(bits: seq<byte>, n: nat)
    requires n < |bits| && forall l :: 1 <= l <= n ==> bits[l] == 0
    ensures Nodes(bits, n) == 0
  {
    if n > 0 {
      NoNodes(bits, n - 1);
    }
  }

  lemma {:induction false} PowerGrows(m: nat, n: nat)
    requires m <= n
    ensures Power(m) <= Power(n)
  {
    if m < n {
      PowerGrows(m, n - 1);
    }
  }

  lemma {:induction false} ManyNodes(i: nat)
    requires 17 <= i
    ensures Power(i) >= 0x20000
  {
    PowerGrows(17, i);
    var n := 8;
    assert Power(4) == 16;
    assert Power(n) == 256;
    assert Power(n + 4) == 16 * 256;
    assert Power(n + 8) == 0x10000;
    assert Power(n + 9) == 0x20000;
  }

  /** The longest code words come in pairs, and not all code words are among the longest. */
  lemma {:induction false} Deepest(bits: seq<byte>, i: nat)
    requires 17 <= i < |bits| && Nodes(bits, i) == Power(i) && Words(bits, i) <= 255
    ensures bits[i] % 2 == 0
    ensures exists j :: 1 <= j <= i - 2 && bits[j] > 0
  {
    ManyNodes(i);
    NodesTwice(bits, i);
    WordsBound(bits, i - 1, i);
    if forall j :: 1 <= j <= i - 2 ==> bits[j] == 0 {
      NoNodes(bits, i - 2);
    }
  }

  lemma {:induction false} NodesTwice(bits: seq<byte>, i: nat)
    requires 2 <= i < |bits|
    ensures Nodes(bits, i) == 4 * Nodes(bits, i - 2) + 2 * (bits[i - 1] as int) + bits[i]
    ensures Nodes(bits, i) == Power(i) ==> bits[i] % 2 == 0
  {
    var h, p := Nodes(bits, i - 1), Power(i - 1);
    assert Nodes(bits, i) == 2 * h + bits[i] && Power(i) == 2 * p;
    if Nodes(bits, i) == Power(i) {
      assert bits[i] == 2 * (p - h);
    }
  }

  lemma {:induction false} NodesTwo(bits: seq<byte>, l: nat, n: nat)
    requires 1 <= l < |bits| && n < |bits| && bits[l] < 254
    ensures var r := bits[l := bits[l] + 2];
            && Nodes(r, n) == Nodes(bits, n) + (if l <= n then 2 * Power(n - l) else 0)
            && Words(r, n) == Words(bits, n) + (if l <= n then 2 else 0)
  {
    var b := bits[l := bits[l] + 1];
    NodesAdd(bits, l, n);
    NodesAdd(b, l, n);
    assert b[l := b[l] + 1] == bits[l := bits[l] + 2];
  }

  /** Moving a code word of length j under a new prefix, next to one of a pair of length i, changes neither the
      number of code words nor the nodes they take. */
  lemma {:induction false} Adjusts(b0: LengthCounts, b1: LengthCounts, b2: LengthCounts, b3: LengthCounts,
                                   r: LengthCounts, i: nat, j: nat)
    requires 1 <= j <= i - 2 <= MAX_CLEN - 2 && b0[i] >= 2 && b1 == b0[i := b0[i] - 2]
    requires b1[i - 1] < 255 && b2 == b1[i - 1 := b1[i - 1] + 1]
    requires b2[j + 1] < 254 && b3 == b2[j + 1 := b2[j + 1] + 2] && b3[j] >= 1 && r == b3[j := b3[j] - 1]
    ensures Nodes(r, MAX_CLEN) == Nodes(b0, MAX_CLEN) && Words(r, MAX_CLEN) == Words(b0, MAX_CLEN)
  {
    var n := MAX_CLEN;
    NodesTwo(b1, i, n);
    assert b0 == b1[i := b1[i] + 2];
    NodesAdd(b1, i - 1, n);
    NodesTwo(b2, j + 1, n);
    NodesAdd(r, j, n);
    assert b3 == r[j := r[j] + 1];
    assert Power(n - i + 1) == 2 * Power(n - i) && Power(n - j) == 2 * Power(n - j - 1);
  }

  lemma {:induction false} PairBound(bits: seq<byte>, j: nat, n: nat)
    requires 1 <= j < n < |bits|
    ensures (bits[j] as int) + (bits[j + 1] as int) <= Words(bits, n)
  {
    if j + 1 < n {
      PairBound(bits, j, n - 1);
    } else {
      WordsBound(bits, j, n);
    }
  }

  /** Between the steps the numbers still fit a byte. */
  lemma {:induction false} OneLess(b0: LengthCounts, b1: LengthCounts, b2: LengthCounts, i: nat, j: nat)
    requires 1 <= j <= i - 2 <= MAX_CLEN - 2 && b0[i] >= 2 && b1 == b0[i := b0[i] - 2] && Words(b0, MAX_CLEN) <= 255
    requires b1[i - 1] < 255 && b2 == b1[i - 1 := b1[i - 1] + 1] && b0[j] > 0
    ensures b2[j] > 0 && b2[j + 1] <= 253
  {
    NodesTwo(b1, i, MAX_CLEN);
    assert b0 == b1[i := b1[i] + 2];
    NodesAdd(b1, i - 1, MAX_CLEN);
    PairBound(b2, j, MAX_CLEN);
  }

  /** What is known of the lengths while they are adjusted: nothing is longer than i. */
  predicate Full(bits: LengthCounts, i: nat, words: nat)
    requires i <= MAX_CLEN
  {
    && Nodes(bits, MAX_CLEN) == Power(MAX_CLEN) && Words(bits, MAX_CLEN) == words <= 255
    && forall l :: i < l <= MAX_CLEN ==> bits[l] == 0
  }

  lemma {:induction false} WordsAtTop(bits: seq<byte>, i: nat, n: nat)
    requires i <= n < |bits| && forall l :: i < l <= n ==> bits[l] == 0
    ensures Words(bits, n) == Words(bits, i)
  {
    if i < n {
      WordsAtTop(bits, i, n - 1);
    }
  }

  lemma {:induction false} FullDeepest(bits: LengthCounts, i: nat, words: nat)
    requires 17 <= i <= MAX_CLEN && Full(bits, i, words)
    ensures bits[i] % 2 == 0
    ensures exists j :: 1 <= j <= i - 2 && bits[j] > 0
  {
    NodesAtTop(bits, i, MAX_CLEN);
    WordsAtTop(bits, i, MAX_CLEN);
    Deepest(bits, i);
  }

  lemma {:induction false} AdjustKeepsFull(b: LengthCounts, r: LengthCounts, i: nat, j: nat, words: nat)
    requires 1 <= j <= i - 2 <= MAX_CLEN - 2 && Full(b, i, words)
    requires Nodes(r, MAX_CLEN) == Nodes(b, MAX_CLEN) && Words(r, MAX_CLEN) == Words(b, MAX_CLEN)
    requires forall l :: i < l <= MAX_CLEN ==> r[l] == b[l]
    ensures Full(r, i, words)
  {
  }

  /** Find the length of the new prefix to be used: there is one. */
  method FindPrefix(bits: array<byte>, i: nat, ghost words: nat) returns (j: nat)
    requires bits.Length == MAX_CLEN + 1 && bits[0] == 0 && 17 <= i <= MAX_CLEN && Full(bits[..], i, words)
             && bits[i] > 0
    ensures 1 <= j <= i - 2 && bits[j] > 0 && bits[i] >= 2 && bits[i - 1] < 255
    ensures forall l :: j < l <= i - 2 ==> bits[l] == 0
  {
    FullDeepest(bits[..], i, words);
    PairBound(bits[..], i - 1, MAX_CLEN);
    ghost var k :| 1 <= k <= i - 2 && bits[k] > 0;
    j := i - 2;
    while bits[j] == 0
      invariant k <= j <= i - 2 && forall l :: j < l <= i - 2 ==> bits[l] == 0
      decreases j
    {
      j := j - 1;
    }
  }

  lemma {:induction false} SamePrefix(a: seq<byte>, b: seq<byte>, n: nat)
    requires n < |a| && n < |b| && forall l :: 0 <= l <= n ==> a[l] == b[l]
    ensures Nodes(a, n) == Nodes(b, n) && Words(a, n) == Words(b, n)
  {
    if n > 0 {
      SamePrefix(a, b, n - 1);
    }
  }

  // Which lengths are changed, and how far

  /** The words longer than n find room, at no more than 16 bits, below the nodes of depth n that are free. */
  predicate Fit(bits: LengthCounts, words: nat, n: nat)
    requires n <= 16
  {
    words - Words(bits, n) <= (Power(n) - Nodes(bits, n)) * Power(16 - n)
  }

  /** With one more word of length n in place of a longer one, the longer ones would not. */
  predicate Tight(bits: LengthCounts, words: nat, n: nat)
    requires n <= 16
  {
    words - Words(bits, n) - 1 > (Power(n) - Nodes(bits, n) - 1) * Power(16 - n)
  }

  /** Lengths of at most 16 bits that are as before as far as possible: up to length n nothing is changed if the longer
      words fit below, and otherwise as many words keep the length n as the longer ones allow. */
  ghost predicate Limited(before: LengthCounts, bits: LengthCounts, words: nat) {
    && Full(bits, 16, words)
    && forall n :: 1 <= n <= 15 ==>
         if Fit(before, words, n) then bits[..n + 1] == before[..n + 1] else Tight(bits, words, n)
  }

  lemma {:induction false} FullFits(bits: LengthCounts, words: nat, n: nat)
    requires Full(bits, 16, words) && n <= 16
    ensures Fit(bits, words, n)
    decreases 16 - n
  {
    if n == 16 {
      NodesAtTop(bits, 16, MAX_CLEN);
      WordsAtTop(bits, 16, MAX_CLEN);
    } else {
      FullFits(bits, words, n + 1);
      PowerPositive(15 - n);
      FitStep(words - Words(bits, n), Power(n) - Nodes(bits, n), bits[n + 1], Power(15 - n));
    }
  }

  lemma {:induction false} FitStep(longer: int, free: int, b: nat, p: nat)
    requires longer - b <= (2 * free - b) * p && p >= 1
    ensures longer <= free * (2 * p)
  {
    assert (2 * free - b) * p == free * (2 * p) - b * p;
    assert b <= b * p;
  }

  /** A length is as before exactly if the longer words fit below. */
  lemma {:induction false} LimitedKeeps(before: LengthCounts, bits: LengthCounts, words: nat, n: nat)
    requires Limited(before, bits, words) && 1 <= n <= 15
    ensures bits[..n + 1] == before[..n + 1] <==> Fit(before, words, n)
  {
    if bits[..n + 1] == before[..n + 1] {
      forall l | 0 <= l <= n ensures bits[l] == before[l] {
        assert bits[..n + 1][l] == before[..n + 1][l];
      }
      SamePrefix(bits, before, n);
      FullFits(bits, words, n);
    }
  }

  /** There is only one such assignment of lengths. */
  lemma {:induction false} LimitedOnce(before: LengthCounts, a: LengthCounts, b: LengthCounts, words: nat, n: nat)
    requires Limited(before, a, words) && Limited(before, b, words) && n <= 16
    ensures a[..n + 1] == b[..n + 1]
  {
    if n > 0 {
      LimitedOnce(before, a, b, words, n - 1);
      forall l | 0 <= l < n ensures a[l] == b[l] {
        assert a[..n][l] == b[..n][l];
      }
      SamePrefix(a, b, n - 1);
      FullFits(a, words, n);
      FullFits(b, words, n);
      LimitedAt(before, a, b, words, n);
      forall l | 0 <= l <= n ensures a[l] == b[l] {
      }
    }
  }

  lemma {:induction false} LimitedAt(before: LengthCounts, a: LengthCounts, b: LengthCounts, words: nat, n: nat)
    requires Limited(before, a, words) && Limited(before, b, words) && 1 <= n <= 16 && Fit(a, words, n)
             && Fit(b, words, n)
    requires Nodes(a, n - 1) == Nodes(b, n - 1) && Words(a, n - 1) == Words(b, n - 1)
    ensures a[n] == b[n]
  {
    if n == 16 {
      NodesAtTop(a, 16, MAX_CLEN);
      NodesAtTop(b, 16, MAX_CLEN);
    } else if Fit(before, words, n) {
      assert a[..n + 1][n] == b[..n + 1][n];
    } else {
      hide Limited, Full;
      var longer, free, p := words - Words(a, n - 1), 2 * (Power(n - 1) - Nodes(a, n - 1)), Power(16 - n);
      PowerPositive(16 - n);
      Doubles(n - 1);
      OnlyCount(longer, free, a[n], b[n], p);
      OnlyCount(longer, free, b[n], a[n], p);
    }
  }

  /** The greatest number of words that leaves room for the others. */
  lemma {:induction false} OnlyCount(longer: int, free: int, a: int, b: int, p: int)
    requires p >= 1 && longer - b <= (free - b) * p && longer - a - 1 > (free - a - 1) * p
    ensures b <= a
  {
    if b > a {
      RoomShrinks(free - b, b - a - 1, p);
    }
  }

  lemma {:induction false} RoomShrinks(x: int, d: nat, p: nat)
    requires p >= 1
    ensures (x + d) * p >= x * p + d
  {
    assert (x + d) * p == x * p + d * p;
    assert d <= d * p;
  }

  /** So far: each length is as before, or it had to be changed and has been changed as little as possible. */
  ghost predicate Progress(before: LengthCounts, bits: LengthCounts, words: nat) {
    forall n :: 1 <= n <= 15 ==>
      bits[..n + 1] == before[..n + 1] || (Tight(bits, words, n) && !Fit(before, words, n))
  }

  lemma {:induction false} NoneBetween(bits: seq<byte>, n: nat, m: nat)
    requires n <= m < |bits| && forall l :: n < l <= m ==> bits[l] == 0
    ensures Words(bits, m) == Words(bits, n) && Nodes(bits, m) == Nodes(bits, n) * Power(m - n)
    ensures Power(m) == Power(n) * Power(m - n)
  {
    if n < m {
      NoneBetween(bits, n, m - 1);
      var p := Power(m - 1 - n);
      assert Power(m - n) == 2 * p && Power(m) == 2 * Power(m - 1);
      Twice(Nodes(bits, n), p);
      Twice(Power(n), p);
    }
  }

  lemma {:induction false} Twice(x: int, p: int)
    ensures x * (2 * p) == 2 * (x * p)
  {
  }

  /** If all words longer than n are among the two greatest lengths, and these are over 16, they do not fit. */
  lemma {:induction false} Crowded(bits: LengthCounts, i: nat, words: nat, n: nat)
    requires 17 <= i <= MAX_CLEN && n <= 15 && Full(bits, i, words) && bits[i] > 0
    requires forall l :: n < l <= i - 2 ==> bits[l] == 0
    ensures words - Words(bits, n) > (Power(n) - Nodes(bits, n)) * Power(16 - n)
    ensures Power(n) > Nodes(bits, n)
  {
    hide Nodes, Words, Power;
    NodesAtTop(bits, i, MAX_CLEN);
    WordsAtTop(bits, i, MAX_CLEN);
    NodesTwice(bits, i);
    WordsTwice(bits, i);
    NoneBetween(bits, n, i - 2);
    Doubles(i - 2);
    Doubles(i - 1);
    Doubles(i - 2 - n);
    PowerGrows(16 - n, i - 1 - n);
    var x, y := bits[i - 1], bits[i];
    Room(Power(n), Nodes(bits, n), Power(i - 2 - n), Power(16 - n), x, y);
  }

  lemma {:induction false} WordsTwice(bits: seq<byte>, i: nat)
    requires 2 <= i < |bits|
    ensures Words(bits, i) == Words(bits, i - 2) + bits[i - 1] + bits[i]
  {
  }

  lemma {:induction false} Room(a: nat, b: nat, p: nat, q: nat, x: nat, y: nat)
    requires 4 * (b * p) + 2 * x + y == 4 * (a * p) && y > 0 && q <= 2 * p
    ensures a > b && x + y > (a - b) * q
  {
    var free := a - b;
    assert free * p == a * p - b * p;
    NotPositive(free, p);
    assert free * q <= free * (2 * p);
    Twice(free, p);
  }

  lemma {:induction false} NotPositive(x: int, p: nat)
    ensures x <= 0 ==> x * p <= 0
  {
  }

  lemma {:induction false} Doubles(n: nat)
    ensures Power(n + 1) == 2 * Power(n)
  {
  }

  /** Words and nodes when a word of length j has become a prefix. */
  lemma {:induction false} Replaced(b0: LengthCounts, b1: LengthCounts, b2: LengthCounts, b3: LengthCounts,
                                    r: LengthCounts, i: nat, j: nat, n: nat)
    requires 1 <= j <= n <= i - 2 <= MAX_CLEN - 2 && b0[i] >= 2 && b1 == b0[i := b0[i] - 2]
    requires b1[i - 1] < 255 && b2 == b1[i - 1 := b1[i - 1] + 1]
    requires b2[j + 1] < 254 && b3 == b2[j + 1 := b2[j + 1] + 2] && b3[j] >= 1 && r == b3[j := b3[j] - 1]
    ensures n == j ==> Words(r, n) == Words(b0, n) - 1 && Nodes(r, n) == Nodes(b0, n) - 1
    ensures n > j ==> Words(r, n) == Words(b0, n) + 1 && Nodes(r, n) == Nodes(b0, n)
  {
    SamePrefix(b2, b0, n);
    NodesTwo(b2, j + 1, n);
    NodesAdd(r, j, n);
    assert b3 == r[j := r[j] + 1];
    assert n > j ==> Power(n - j) == 2 * Power(n - j - 1);
  }

  /** The change from b0 to r by one adjustment, for lengths i and j. */
  ghost predicate Adjusted(b0: LengthCounts, r: LengthCounts, i: nat, j: nat)
    requires i <= MAX_CLEN
  {
    && (forall l :: 0 <= l < j && l <= MAX_CLEN ==> r[l] == b0[l])
    && forall n :: j <= n <= i - 2 ==>
         && Words(r, n) == Words(b0, n) + (if n == j then -1 else 1)
         && Nodes(r, n) == Nodes(b0, n) - (if n == j then 1 else 0)
  }

  /** One adjustment for the pair of longest code words. */
  method AdjustPair(bits: array<byte>, i: nat, ghost words: nat) returns (ghost j: nat)
    requires bits.Length == MAX_CLEN + 1 && bits[0] == 0 && 17 <= i <= MAX_CLEN && Full(bits[..], i, words)
             && bits[i] > 0
    modifies bits
    ensures bits[0] == 0 && Full(bits[..], i, words) && bits[i] < old(bits[i])
    ensures 1 <= j <= i - 2 && (forall l :: j < l <= i - 2 ==> old(bits[l]) == 0)
    ensures Adjusted(old(bits[..]), bits[..], i, j)
  {
    hide Nodes, Words, Full;
    var k := FindPrefix(bits, i, words);
    ghost var b0: LengthCounts := bits[..];
    assert Words(b0, MAX_CLEN) <= 255 by {
      FullWords(b0, i, words);
    }
    bits[i] := bits[i] - 2;  // remove two symbols
    ghost var b1: LengthCounts := bits[..];
    bits[i - 1] := bits[i - 1] + 1;  // one goes in this length
    ghost var b2: LengthCounts := bits[..];
    OneLess(b0, b1, b2, i, k);
    bits[k + 1] := bits[k + 1] + 2;  // two new symbols in this length
    ghost var b3: LengthCounts := bits[..];
    bits[k] := bits[k] - 1;  // symbol of this length is now a prefix
    Adjusts(b0, b1, b2, b3, bits[..], i, k);
    AdjustKeepsFull(b0, bits[..], i, k, words);
    forall n | k <= n <= i - 2
      ensures Words(bits[..], n) == Words(b0, n) + (if n == k then -1 else 1)
      ensures Nodes(bits[..], n) == Nodes(b0, n) - (if n == k then 1 else 0)
    {
      Replaced(b0, b1, b2, b3, bits[..], i, k, n);
    }
    j := k;
  }

  /** An adjustment changes only lengths that cannot stay, and no more than must be. */
  lemma {:induction false} AdjustProgress(before: LengthCounts, b0: LengthCounts, r: LengthCounts, i: nat, j: nat,
                                          words: nat)
    requires Progress(before, b0, words) && 17 <= i <= MAX_CLEN && Full(b0, i, words) && b0[i] > 0
    requires 1 <= j <= i - 2 && (forall l :: j < l <= i - 2 ==> b0[l] == 0) && Adjusted(b0, r, i, j)
    ensures Progress(before, r, words)
  {
    hide Full, Progress, Adjusted;
    forall n | 1 <= n <= 15
      ensures r[..n + 1] == before[..n + 1] || (Tight(r, words, n) && !Fit(before, words, n))
    {
      AdjustProgressAt(before, b0, r, i, j, words, n);
    }
    ProgressAll(before, r, words);
  }

  lemma {:induction false} ProgressAll(before: LengthCounts, r: LengthCounts, words: nat)
    requires forall n :: 1 <= n <= 15 ==>
               r[..n + 1] == before[..n + 1] || (Tight(r, words, n) && !Fit(before, words, n))
    ensures Progress(before, r, words)
  {
  }

  lemma {:induction false} AdjustProgressAt(before: LengthCounts, b0: LengthCounts, r: LengthCounts, i: nat, j: nat,
                                            words: nat, n: nat)
    requires Progress(before, b0, words) && 17 <= i <= MAX_CLEN && Full(b0, i, words) && b0[i] > 0 && 1 <= n <= 15
    requires 1 <= j <= i - 2 && (forall l :: j < l <= i - 2 ==> b0[l] == 0) && Adjusted(b0, r, i, j)
    ensures r[..n + 1] == before[..n + 1] || (Tight(r, words, n) && !Fit(before, words, n))
  {
    hide Full, Nodes, Words, Power;
    assert b0[..n + 1] == before[..n + 1] || (Tight(b0, words, n) && !Fit(before, words, n));
    if n < j {
      SamePrefix(r, b0, n);
      assert r[..n + 1] == b0[..n + 1];
    } else {
      Crowded(b0, i, words, n);
      if b0[..n + 1] == before[..n + 1] {
        forall l | 0 <= l <= n ensures b0[l] == before[l] {
          assert b0[..n + 1][l] == before[..n + 1][l];
        }
        SamePrefix(b0, before, n);
      }
      PowerGrows(1, 16 - n);
      assert Power(1) == 2 by { PowerOne(); }
      var free, p := Power(n) - Nodes(b0, n), Power(16 - n);
      assert (free - 1) * p == free * p - p;
    }
  }

  lemma {:induction false} PowerOne()
    ensures Power(1) == 2
  {
  }

  lemma {:induction false} FullWords(b: LengthCounts, i: nat, words: nat)
    requires i <= MAX_CLEN && Full(b, i, words)
    ensures Words(b, MAX_CLEN) == words <= 255
  {
  }

  predicate ShortEnough(bits: LengthCounts) {
    forall l :: 16 < l <= MAX_CLEN ==> bits[l] == 0
  }

  /** Adjust the lengths until none is over 16 bits. */
  method LimitLengths(bits: array<byte>, ghost words: nat)
    requires bits.Length == MAX_CLEN + 1 && bits[0] == 0 && Full(bits[..], MAX_CLEN, words)
    modifies bits
    ensures bits[0] == 0 && Full(bits[..], 16, words) && Limited(old(bits[..]), bits[..], words)
    ensures old(ShortEnough(bits[..])) ==> bits[..] == old(bits[..])
  {
    hide Fit, Tight, Full, Adjusted;
    ghost var before: LengthCounts := bits[..];
    ghost var short := ShortEnough(before);
    var i := MAX_CLEN;
    while i > 16
      invariant 16 <= i <= MAX_CLEN && bits[0] == 0 && Full(bits[..], i, words)
      invariant short ==> bits[..] == before
      invariant Progress(before, bits[..], words)
    {
      while bits[i] > 0
        invariant bits[0] == 0 && Full(bits[..], i, words)
        invariant short ==> bits[..] == before
        invariant Progress(before, bits[..], words)
        decreases bits[i]
      {
        ghost var b0: LengthCounts := bits[..];
        ghost var j := AdjustPair(bits, i, words);
        AdjustProgress(before, b0, bits[..], i, j, words);
      }
      OneShorter(bits[..], i, words);
      i := i - 1;
    }
    ProgressLimited(before, bits[..], words);
  }

  lemma {:induction false} OneShorter(bits: LengthCounts, i: nat, words: nat)
    requires 0 < i <= MAX_CLEN && Full(bits, i, words) && bits[i] == 0
    ensures Full(bits, i - 1, words)
  {
  }

  lemma {:induction false} ProgressLimited(before: LengthCounts, bits: LengthCounts, words: nat)
    requires Progress(before, bits, words) && Full(bits, 16, words)
    ensures Limited(before, bits, words)
  {
    hide Full, Nodes, Words, Tight;
    forall n | 1 <= n <= 15
      ensures if Fit(before, words, n) then bits[..n + 1] == before[..n + 1] else Tight(bits, words, n)
    {
      if bits[..n + 1] == before[..n + 1] {
        forall l | 0 <= l <= n ensures bits[l] == before[l] {
          assert bits[..n + 1][l] == before[..n + 1][l];
        }
        SamePrefix(bits, before, n);
        FullFits(bits, words, n);
      }
    }
  }

  /** The code words up to each length leave the last one of that length free. */
  predicate NoneAllOnes(bits: seq<byte>)
    requires |bits| > 16
  {
    forall n :: 1 <= n <= 16 ==> Nodes(bits, n) < Power(n)
  }

  lemma {:induction false} FullStaysFull(bits: seq<byte>, n: nat, l: nat)
    requires n < l < |bits| && bits[l] > 0 && Nodes(bits, n) >= Power(n)
    ensures Nodes(bits, l) > Power(l)
    decreases l
  {
    if n < l - 1 {
      AtLeastFull(bits, n, l - 1);
    }
  }

  lemma {:induction false} AtLeastFull(bits: seq<byte>, n: nat, l: nat)
    requires n <= l < |bits| && Nodes(bits, n) >= Power(n)
    ensures Nodes(bits, l) >= Power(l)
    decreases l
  {
    if n < l {
      AtLeastFull(bits, n, l - 1);
    }
  }

  lemma {:induction false} GivenUpAt(b: LengthCounts, r: LengthCounts, l: nat, words: nat, n: nat)
    requires 1 <= l <= 16 && 1 <= n <= 16 && Full(b, l, words) && b[l] > 0 && r == b[l := b[l] - 1]
    ensures Nodes(r, n) < Power(n)
    ensures n >= l ==> Nodes(r, n) == Power(n) - Power(n - l)
  {
    assert b == r[l := r[l] + 1];
    NodesAdd(r, l, n);
    if n < l {
      NodesAtTop(b, l, MAX_CLEN);
      if Nodes(b, n) >= Power(n) {
        FullStaysFull(b, n, l);
      }
    } else {
      NodesAtTop(b, n, MAX_CLEN);
      PowerPositive(n - l);
    }
  }

  lemma {:induction false} WordGivenUp(b: LengthCounts, r: LengthCounts, l: nat, words: nat, n: nat)
    requires 1 <= l <= n <= MAX_CLEN && Full(b, l, words) && b[l] > 0 && r == b[l := b[l] - 1]
    ensures Words(r, n) == words - 1
  {
    assert b == r[l := r[l] + 1];
    NodesAdd(r, l, n);
    WordsAtTop(b, n, MAX_CLEN);
  }

  /** A code word of the greatest length is given up: what is left never fills a length. */
  lemma {:induction false} OneGivenUp(b: LengthCounts, r: LengthCounts, l: nat, words: nat)
    requires 1 <= l <= 16 && Full(b, l, words) && b[l] > 0 && r == b[l := b[l] - 1]
    ensures NoneAllOnes(r) && Words(r, 16) == words - 1
  {
    hide Nodes, Words, Power, Full;
    forall n | 1 <= n <= 16 ensures Nodes(r, n) < Power(n) {
      GivenUpAt(b, r, l, words, n);
    }
    WordGivenUp(b, r, l, words, 16);
  }

  lemma {:induction false} NotEmpty(b: LengthCounts)
    requires Nodes(b, MAX_CLEN) == Power(MAX_CLEN)
    ensures exists l :: 1 <= l <= MAX_CLEN && b[l] != 0
  {
    if forall l :: 1 <= l <= MAX_CLEN ==> b[l] == 0 {
      NoNodes(b, MAX_CLEN);
      PowerPositive(MAX_CLEN);
    }
  }

  /** The largest code length still in use. */
  predicate IsLargest(b: LengthCounts, l: nat) {
    1 <= l <= 16 && b[l] > 0 && forall m :: l < m <= 16 ==> b[m] == 0
  }

  /** Remove the count for the pseudo-symbol from the largest code length. */
  method DropPseudoSymbol(bits: array<byte>, ghost words: nat)
    requires bits.Length == MAX_CLEN + 1 && bits[0] == 0 && Full(bits[..], 16, words)
    modifies bits
    ensures bits[0] == 0 && NoneAllOnes(bits[..]) && Words(bits[..], 16) == words - 1
    ensures forall l: nat :: IsLargest(old(bits[..]), l) ==> bits[..] == old(bits[..])[l := old(bits[l]) - 1]
  {
    hide Nodes, Words, Power, NoneAllOnes;
    ghost var b: LengthCounts := bits[..];
    var i := 16;
    while bits[i] == 0  // find largest code length still in use
      invariant 1 <= i <= 16 && Full(b, i, words) && bits[..] == b
      decreases i
    {
      if i == 1 {
        NotEmpty(b);
      }
      i := i - 1;
    }
    bits[i] := bits[i] - 1;
    ghost var r: LengthCounts := bits[..];
    OneGivenUp(b, r, i, words);
  }
}

/** Generating the best Huffman table for given counts (jchuff.c, jpeg_gen_optimal_table). */
module HuffmanTable {
  import opened ProbabilityTable
  import opened HuffmanCost
  import opened HuffmanForest
  import opened CodeLengths
  import opened HuffmanDepth

  const LIMIT := 1000000000

  /** Find the smallest nonzero count; in case of ties, take the larger symbol number. */
  method FindLeast(freq: array<nat>, except: int) returns (c: int)
    requires freq.Length == SYMBOLS
    ensures -1 <= c < SYMBOLS && (c >= 0 ==> freq[c] > 0 && c != except)
    ensures (forall i :: 0 <= i < SYMBOLS ==> freq[i] <= LIMIT) ==> c == FindSmallest(freq[..], except, SYMBOLS)
  {
    c := -1;
    var v := LIMIT;
    ghost var small := forall i :: 0 <= i < SYMBOLS ==> freq[i] <= LIMIT;
    for i := 0 to SYMBOLS
      invariant -1 <= c < i && v == (if c < 0 then LIMIT else freq[c]) && (c >= 0 ==> freq[c] > 0 && c != except)
      invariant small ==> c == FindSmallest(freq[..], except, i)
    {
      if freq[i] != 0 && freq[i] <= v && i != except {
        v := freq[i];
        c := i;
      }
    }
  }

  /** Increment the code size of everything in a branch; returns its last symbol. */
  method Lengthen(size: array<nat>, others: array<int>, c: nat, ghost chain: seq<nat>) returns (last: nat)
    requires size.Length == others.Length == SYMBOLS && size as object != others && IsChain(others[..], c, chain)
    modifies size
    ensures last == chain[|chain| - 1]
    ensures forall s :: 0 <= s < SYMBOLS ==> size[s] == old(size[s]) + if s in chain then 1 else 0
  {
    last := c;
    size[last] := size[last] + 1;
    ghost var i := 0;
    assert Link(others[..], chain, 0);
    while others[last] >= 0
      invariant 0 <= i < |chain| && last == chain[i] && Link(others[..], chain, i)
      invariant forall s :: 0 <= s < SYMBOLS ==> size[s] == old(size[s]) + if s in chain[..i + 1] then 1 else 0
      decreases |chain| - i
    {
      last := others[last];
      i := i + 1;
      assert chain[..i + 1] == chain[..i] + [chain[i]] && Link(others[..], chain, i);
      size[last] := size[last] + 1;
    }
    assert chain[..i + 1] == chain;
  }

  /** Merge the two counts and their branches. */
  method MergeBranches(freq: array<nat>, size: array<nat>, others: array<int>, c1: nat, c2: nat, ghost t: Forest)
      returns (ghost r: Forest)
    requires freq.Length == size.Length == others.Length == SYMBOLS && size as object != others && size != freq
    requires t.f == freq[..] && t.size == size[..] && t.others == others[..]
    requires t.Shaped() && c1 < SYMBOLS && c2 < SYMBOLS && c1 != c2 && freq[c1] > 0 && freq[c2] > 0
    modifies freq, size, others
    ensures t.Joins(c1, c2, r) && r.f == freq[..] && r.size == size[..] && r.others == others[..]
  {
    ghost var a, b := t.chains[c1], t.chains[c2];
    forall s | 0 <= s < SYMBOLS ensures (s in a <==> t.root[s] == c1) && (s in b <==> t.root[s] == c2) {
      t.InChain(c1, s);
      t.InChain(c2, s);
    }
    freq[c1] := freq[c1] + freq[c2];
    freq[c2] := 0;
    var last := Lengthen(size, others, c1, a);
    ChainKept(t.others, c2, b, last, c2);
    others[last] := c2;
    last := Lengthen(size, others, c2, b);
    r := Forest(t.f0, freq[..], size[..], others[..],
                seq(SYMBOLS, s requires 0 <= s < SYMBOLS => if t.root[s] == c2 then c1 else t.root[s]),
                t.chains[c1 := a + b][c2 := []]);
  }

  lemma {:induction false} TotalBounds(f: Counts, i: nat, n: nat)
    requires i < n <= SYMBOLS
    ensures f[i] <= Total(f, n)
  {
    if i < n - 1 {
      TotalBounds(f, i, n - 1);
    }
  }

  /** Code lengths of a full code tree that needs as few bits as possible. */
  predicate BestSizes(f: Counts, size: Counts) {
    && Kraft(f, size, DEEPEST, SYMBOLS) == Power(DEEPEST)
    && (forall s :: 0 <= s < SYMBOLS ==> size[s] < DEEPEST && (f[s] == 0 ==> size[s] == 0))
    && Cost(f, size, SYMBOLS) == LeastCost(f)
  }

  /** No code word is longer than that of the pseudo-symbol, and each length needs a total of one of Fibonacci's
      numbers. */
  predicate Depths(f: Counts, size: Counts) {
    forall s :: 0 <= s < SYMBOLS && f[s] > 0 ==> size[s] <= size[PSEUDO] && Fib(size[s] + 2) <= Total(f, SYMBOLS)
  }

  lemma {:induction false} DepthsKnown(t: Forest, c1: nat)
    requires PseudoDeep(t) && Heavy(t) && c1 < SYMBOLS && Total(t.f, SYMBOLS) == Total(t.f0, SYMBOLS)
    requires forall s :: 0 <= s < SYMBOLS && t.f0[s] > 0 ==> t.root[s] == c1
    ensures Depths(t.f0, t.size)
  {
    hide Fib, Total, Forest.Shaped, AllAtLeast;
    PseudoDeepest(t, c1);
    TotalBounds(t.f, c1, SYMBOLS);
  }

  lemma {:induction false} OneBranchLeft(t: Forest, c1: int)
    requires t.Ok() && c1 == FindSmallest(t.f, -1, SYMBOLS) && FindSmallest(t.f, c1, SYMBOLS) < 0
    requires Used(t.f, SYMBOLS) >= 1 && Cost(t.f0, t.size, SYMBOLS) + LeastCost(t.f) == LeastCost(t.f0)
    requires PseudoDeep(t) && Heavy(t) && Total(t.f, SYMBOLS) == Total(t.f0, SYMBOLS)
    ensures BestSizes(t.f0, t.size) && Depths(t.f0, t.size)
  {
    hide Depths, PseudoDeep, Heavy;
    SomeUsed(t.f, SYMBOLS);
    UsedBound(t.f0, SYMBOLS);
    forall s | 0 <= s < SYMBOLS && t.f0[s] > 0 ensures t.root[s] == c1 {
      assert t.Rooted(s);
    }
    t.Whole(c1, SYMBOLS);
    DepthsKnown(t, c1);
  }

  lemma {:induction false} LeastMerge(f: Counts, c1: nat, c2: nat)
    requires c1 == FindSmallest(f, -1, SYMBOLS) && c2 == FindSmallest(f, c1, SYMBOLS)
    ensures LeastCost(f) == f[c1] + f[c2] + LeastCost(Merge(f, c1, c2))
  {
  }

  lemma {:induction false} Merges(t: Forest, r: Forest, c1: nat, c2: nat)
    requires t.Ok() && t.Joins(c1, c2, r)
    ensures c1 < SYMBOLS && c2 < SYMBOLS && c1 != c2 && t.f[c1] > 0 && t.f[c2] > 0 && r.f == Merge(t.f, c1, c2)
    ensures r.f0 == t.f0 && |t.root| == SYMBOLS
    ensures SumBy(t.f0, t.root, c1, SYMBOLS) == t.f[c1] && SumBy(t.f0, t.root, c2, SYMBOLS) == t.f[c2]
  {
  }

  lemma {:induction false} RoundCost(t: Forest, r: Forest, c1: nat, c2: nat)
    requires t.Ok() && t.Joins(c1, c2, r)
    requires c1 == FindSmallest(t.f, -1, SYMBOLS) && c2 == FindSmallest(t.f, c1, SYMBOLS)
    ensures Used(r.f, SYMBOLS) == Used(t.f, SYMBOLS) - 1 >= 1 && Total(r.f, SYMBOLS) == Total(t.f, SYMBOLS)
    ensures Cost(t.f0, r.size, SYMBOLS) + LeastCost(r.f) == Cost(t.f0, t.size, SYMBOLS) + LeastCost(t.f)
  {
    hide LeastCost, Cost, Used, Total, Forest.Shaped, Forest.Balanced, SumBy, FindSmallest, Merge;
    LeastMerge(t.f, c1, c2);
    Merges(t, r, c1, c2);
    MergeUsed(t.f, c1, c2);
    t.JoinedCost(c1, c2, r, SYMBOLS);
  }

  /** One round of Huffman's algorithm. */
  lemma {:induction false} Round(t: Forest, r: Forest, c1: nat, c2: nat)
    requires t.Ok() && t.Joins(c1, c2, r)
    requires c1 == FindSmallest(t.f, -1, SYMBOLS) && c2 == FindSmallest(t.f, c1, SYMBOLS)
    requires PseudoDeep(t) && Heavy(t)
    ensures r.Ok() && PseudoDeep(r) && Heavy(r)
    ensures Used(r.f, SYMBOLS) == Used(t.f, SYMBOLS) - 1 >= 1 && Total(r.f, SYMBOLS) == Total(t.f, SYMBOLS)
    ensures Cost(t.f0, r.size, SYMBOLS) + LeastCost(r.f) == Cost(t.f0, t.size, SYMBOLS) + LeastCost(t.f)
  {
    hide PseudoDeep, Heavy, LeastCost, Cost, Used, Total, Forest.Joins, Forest.Shaped, Forest.Balanced, SumBy;
    RoundCost(t, r, c1, c2);
    t.JoinedShape(c1, c2, r);
    JoinedPseudoDeep(t, r, c1, c2);
    JoinedHeavy(t, r, c1, c2);
    t.JoinedBalance(c1, c2, r);
  }

  /** What holds while the algorithm runs. */
  predicate Underway(f0: Counts, t: Forest) {
    && t.f0 == f0 && t.Ok() && PseudoDeep(t) && Heavy(t)
    && Used(t.f, SYMBOLS) >= 1 && Total(t.f, SYMBOLS) == Total(f0, SYMBOLS) <= LIMIT
    && Cost(f0, t.size, SYMBOLS) + LeastCost(t.f) == LeastCost(f0)
  }

  lemma {:induction false} Starts(f: Counts)
    requires f[256] == 1 && Total(f, SYMBOLS) <= LIMIT
    ensures Underway(f, Singles(f))
  {
    hide PseudoDeep, Heavy;
    SinglesPseudoDeep(f);
    SinglesHeavy(f);
    SinglesOk(f);
    UsedOne(f, 256, SYMBOLS);
  }

  lemma {:induction false} SmallEnough(f: Counts)
    requires Total(f, SYMBOLS) <= LIMIT
    ensures forall i :: 0 <= i < SYMBOLS ==> f[i] <= LIMIT
  {
    forall i | 0 <= i < SYMBOLS ensures f[i] <= LIMIT {
      TotalBounds(f, i, SYMBOLS);
    }
  }

  /** Merge the two smallest counts, unless everything has been merged into one. */
  method MergeSmallest(freq: array<nat>, size: array<nat>, others: array<int>, ghost f0: Counts, ghost t: Forest)
      returns (done: bool, ghost r: Forest)
    requires freq.Length == size.Length == others.Length == SYMBOLS && size as object != others && size != freq
    requires t.f == freq[..] && t.size == size[..] && t.others == others[..] && Underway(f0, t)
    modifies freq, size, others
    ensures Underway(f0, r) && r.f == freq[..] && r.size == size[..] && r.others == others[..]
    ensures done ==> BestSizes(f0, size[..]) && Depths(f0, size[..])
    ensures !done ==> Used(freq[..], SYMBOLS) < Used(t.f, SYMBOLS)
  {
    hide PseudoDeep, Heavy, Depths, LeastCost, Cost, Used, Total, Forest.Shaped, Forest.Balanced, Forest.Joins,
         BestSizes, FindSmallest;
    SmallEnough(t.f);
    var c1 := FindLeast(freq, -1);
    var c2 := FindLeast(freq, c1);
    r := t;
    if c2 < 0 {
      done := true;
      OneBranchLeft(t, c1);
    } else {
      done := false;
      SomeUsed(t.f, SYMBOLS);
      r := MergeBranches(freq, size, others, c1, c2, t);
      Round(t, r, c1, c2);
    }
  }

  /** Huffman's basic algorithm to assign optimal code lengths to symbols; symbol 256 counts once. */
  method CodeSizes(freq: array<nat>) returns (size: array<nat>)
    requires freq.Length == SYMBOLS && Total(freq[..][256 := 1], SYMBOLS) <= LIMIT
    modifies freq
    ensures fresh(size) && size.Length == SYMBOLS && BestSizes(old(freq[..])[256 := 1], size[..])
    ensures Depths(old(freq[..])[256 := 1], size[..])
  {
    hide Underway, BestSizes, Depths, Used, Total;
    size := new nat[SYMBOLS](i => 0);
    var others := new int[SYMBOLS](i => -1);
    freq[256] := 1;  // make sure 256 has a nonzero count
    ghost var f0 := freq[..];
    assert f0 == old(freq[..])[256 := 1];
    ghost var t := Singles(f0);
    Starts(f0);
    var done := false;
    while !done
      invariant fresh(size) && fresh(others)
      invariant t.f == freq[..] && t.size == size[..] && t.others == others[..] && Underway(f0, t)
      invariant done ==> BestSizes(f0, size[..]) && Depths(f0, size[..])
      decreases !done, Used(freq[..], SYMBOLS)
    {
      done, t := MergeSmallest(freq, size, others, f0, t);
    }
  }

  // The table

  /** Numbers of code words of each length, and the symbols in the order of their code words. */
  datatype Table = Table(bits: seq<byte>, huffval: seq<byte>)

  datatype Generated = Generated(table: Table) | ClenOverflow  // JERR_HUFF_CLEN_OVERFLOW

  lemma {:induction false} Rescale(f: Counts, size: Counts, k: nat, m: nat)
    requires k <= m && Kraft(f, size, m, SYMBOLS) == Power(m)
    requires forall s :: 0 <= s < SYMBOLS && f[s] > 0 ==> size[s] <= k
    ensures Kraft(f, size, k, SYMBOLS) == Power(k)
  {
    if k < m {
      Shallower(f, size, m, SYMBOLS);
      Rescale(f, size, k, m - 1);
    }
  }

  lemma {:induction false} KraftAtLeast(f: Counts, size: Counts, m: nat, s: nat, t: nat, n: nat)
    requires n <= SYMBOLS && s < n && t < SYMBOLS && s != t && f[s] > 0 && f[t] > 0
    requires forall i :: 0 <= i < SYMBOLS ==> size[i] <= m
    ensures Kraft(f, size, m, n) >= Power(m - size[s]) + if t < n then 1 else 0
  {
    if n - 1 == s {
      if t < n - 1 {
        KraftPositive(f, size, m, t, n - 1);
      }
    } else {
      KraftAtLeast(f, size, m, s, t, n - 1);
      PowerPositive(m - size[n - 1]);
    }
  }

  lemma {:induction false} KraftPositive(f: Counts, size: Counts, m: nat, t: nat, n: nat)
    requires n <= SYMBOLS && t < n && f[t] > 0 && forall i :: 0 <= i < SYMBOLS ==> size[i] <= m
    ensures Kraft(f, size, m, n) >= 1
  {
    if n - 1 == t {
      PowerPositive(m - size[t]);
    } else {
      KraftPositive(f, size, m, t, n - 1);
    }
  }

  /** If there is a symbol besides the pseudo-symbol, every used one has a code word. */
  lemma {:induction false} CodeWords(f: Counts, size: Counts, t: nat)
    requires BestSizes(f, size) && t < 256 && f[t] > 0 && f[256] > 0
    ensures forall s :: 0 <= s < SYMBOLS ==> (f[s] > 0 <==> size[s] > 0)
  {
    forall s | 0 <= s < SYMBOLS && f[s] > 0 ensures size[s] > 0 {
      KraftAtLeast(f, size, DEEPEST, s, if s == t then 256 else t, SYMBOLS);
    }
  }

  lemma {:induction false} UsedGrows(f: Counts, m: nat, n: nat)
    requires m <= n <= SYMBOLS
    ensures Used(f, m) <= Used(f, n)
  {
    if m < n {
      UsedGrows(f, m, n - 1);
    }
  }

  lemma {:induction false} EmptyBits(bits: seq<byte>, n: nat)
    requires n < |bits| && forall l :: 0 <= l <= n ==> bits[l] == 0
    ensures Nodes(bits, n) == 0 && Words(bits, n) == 0
  {
    if n > 0 {
      EmptyBits(bits, n - 1);
    }
  }

  /** The number of symbols below n whose code words have length l. */
  function OfLength(size: Counts, l: nat, n: nat): nat
    requires n <= SYMBOLS
  {
    if n == 0 then 0 else OfLength(size, l, n - 1) + if size[n - 1] == l then 1 else 0
  }

  predicate Counted(bits: LengthCounts, size: Counts, n: nat)
    requires n <= SYMBOLS
  {
    forall l :: 1 <= l <= MAX_CLEN ==> bits[l] == OfLength(size, l, n)
  }

  lemma {:induction false} CountedNone(bits: LengthCounts, size: Counts)
    requires forall l :: 0 <= l <= MAX_CLEN ==> bits[l] == 0
    ensures Counted(bits, size, 0)
  {
  }

  lemma {:induction false} CountedNext(bits: LengthCounts, size: Counts, i: nat)
    requires i < SYMBOLS && Counted(bits, size, i)
    ensures if 1 <= size[i] <= MAX_CLEN then bits[size[i]] < 255
            ==> Counted(bits[size[i] := bits[size[i]] + 1], size, i + 1)
            else Counted(bits, size, i + 1)
  {
  }

  /** Count the number of symbols of each code length. */
  method CountLengths(size: array<nat>, bits: array<byte>, ghost f: Counts) returns (ok: bool)
    requires size.Length == SYMBOLS && bits.Length == MAX_CLEN + 1 && forall l :: 0 <= l <= MAX_CLEN ==> bits[l] == 0
    requires BestSizes(f, size[..]) && Used(f, SYMBOLS) <= 255
    requires forall s :: 0 <= s < SYMBOLS ==> (f[s] > 0 <==> size[s] > 0)
    modifies bits
    ensures ok <==> forall s :: 0 <= s < SYMBOLS ==> size[s] <= MAX_CLEN
    ensures ok ==> bits[0] == 0 && Full(bits[..], MAX_CLEN, Used(f, SYMBOLS)) && Counted(bits[..], size[..], SYMBOLS)
  {
    ghost var sizes: Counts := size[..];
    EmptyBits(bits[..], MAX_CLEN);
    CountedNone(bits[..], sizes);
    hide Counted;
    for i := 0 to SYMBOLS
      invariant bits[0] == 0 && forall s :: 0 <= s < i ==> size[s] <= MAX_CLEN
      invariant Nodes(bits[..], MAX_CLEN) == Kraft(f, sizes, MAX_CLEN, i) && Words(bits[..], MAX_CLEN) == Used(f, i)
      invariant Counted(bits[..], sizes, i)
    {
      if size[i] != 0 {
        if size[i] > MAX_CLEN {
          return false;
        }
        UsedGrows(f, i + 1, SYMBOLS);
        ghost var b: LengthCounts := bits[..];
        CountedNext(b, sizes, i);
        WordsBound(b, size[i], MAX_CLEN);
        NodesAdd(b, size[i], MAX_CLEN);
        bits[size[i]] := bits[size[i]] + 1;
        assert bits[..] == b[size[i] := b[size[i]] + 1];
      } else {
        CountedNext(bits[..], sizes, i);
      }
    }
    Rescale(f, sizes, MAX_CLEN, DEEPEST);
    ok := true;
  }

  /** A symbol that comes before symbol j of length i in the list. */
  predicate Earlier(size: Counts, s: int, i: nat, j: nat)
    requires 0 <= s < SYMBOLS
  {
    1 <= size[s] < i || (size[s] == i && s < j)
  }

  function CountEarlier(size: Counts, i: nat, j: nat, n: nat): nat
    requires n <= SYMBOLS
  {
    if n == 0 then 0 else CountEarlier(size, i, j, n - 1) + if Earlier(size, n - 1, i, j) then 1 else 0
  }

  lemma {:induction false} EarlierNext(size: Counts, i: nat, j: nat, n: nat)
    requires n <= SYMBOLS && j < SYMBOLS && 1 <= i
    ensures CountEarlier(size, i, j + 1, n) == CountEarlier(size, i, j, n) + if j < n && size[j] == i then 1 else 0
  {
    if n > 0 {
      EarlierNext(size, i, j, n - 1);
    }
  }

  lemma {:induction false} EarlierRow(size: Counts, i: nat, n: nat)
    requires n <= 256 && 1 <= i
    ensures CountEarlier(size, i + 1, 0, n) == CountEarlier(size, i, 256, n)
  {
    if n > 0 {
      EarlierRow(size, i, n - 1);
    }
  }

  lemma {:induction false} EarlierNone(size: Counts, n: nat)
    requires n <= SYMBOLS
    ensures CountEarlier(size, 1, 0, n) == 0
  {
    if n > 0 {
      EarlierNone(size, n - 1);
    }
  }

  lemma {:induction false} EarlierAll(f: Counts, size: Counts, n: nat)
    requires n <= SYMBOLS && forall s :: 0 <= s < SYMBOLS ==> (f[s] > 0 <==> size[s] > 0) && size[s] <= MAX_CLEN
    ensures CountEarlier(size, MAX_CLEN + 1, 0, n) == Used(f, n)
  {
    if n > 0 {
      EarlierAll(f, size, n - 1);
    }
  }

  /** The used symbols, each once, by code length and number. */
  predicate Listed(vals: seq<byte>, size: Counts, i: nat, j: nat) {
    && (forall p :: 0 <= p < |vals| ==> Earlier(size, vals[p], i, j))
    && (forall s :: 0 <= s < 256 && Earlier(size, s, i, j) ==> s in vals)
    && (forall p, q :: 0 <= p < q < |vals| ==> Ordered(size, vals[p], vals[q]))
    && |vals| == CountEarlier(size, i, j, 256)
    && forall p :: 0 <= p < |vals| ==> AtPlace(size, vals, p)
  }

  /** The place of a symbol in the list is the number of those that come before it. */
  predicate AtPlace(size: Counts, vals: seq<byte>, p: nat)
    requires p < |vals|
  {
    p == CountEarlier(size, size[vals[p]], vals[p], 256)
  }

  predicate Ordered(size: Counts, s: byte, t: byte) {
    size[s] < size[t] || (size[s] == size[t] && s < t)
  }

  /** Return a list of the symbols sorted by code length. */
  method ListSymbols(size: array<nat>) returns (vals: seq<byte>)
    requires size.Length == SYMBOLS
    ensures Listed(vals, size[..], MAX_CLEN + 1, 0)
  {
    vals := [];
    ghost var sizes: Counts := size[..];
    EarlierNone(sizes, 256);
    for i := 1 to MAX_CLEN + 1
      invariant Listed(vals, sizes, i, 0)
    {
      for j := 0 to 256
        invariant Listed(vals, sizes, i, j)
      {
        EarlierNext(sizes, i, j, 256);
        if size[j] == i {
          ghost var before := vals;
          vals := vals + [j];
          assert vals[|vals| - 1] == j;
          forall p | 0 <= p < |vals| ensures AtPlace(sizes, vals, p) {
            assert p < |before| ==> AtPlace(sizes, before, p);
          }
        }
      }
      EarlierRow(sizes, i, 256);
    }
  }

  /** What the caller gets: the used symbols with code lengths of at most 16 bits, one code word being left over. */
  predicate GoodTable(f: Counts, t: Table) {
    && |t.bits| == 17 && t.bits[0] == 0 && Words(t.bits, 16) == |t.huffval| == Used(f, 256)
    && NoneAllOnes(t.bits)
    && (forall p, q :: 0 <= p < q < |t.huffval| ==> t.huffval[p] != t.huffval[q])
    && forall s :: 0 <= s < 256 ==> (f[s] > 0 <==> s in t.huffval)
  }

  lemma {:induction false} TableIsGood(f: Counts, size: Counts, bits: seq<byte>, t: Table)
    requires f[256] == 1 && forall s :: 0 <= s < SYMBOLS ==> (f[s] > 0 <==> size[s] > 0) && size[s] <= MAX_CLEN
    requires |bits| == MAX_CLEN + 1 && bits[0] == 0 && NoneAllOnes(bits) && Words(bits, 16) == Used(f, SYMBOLS) - 1
    requires t.bits == bits[..17] && Listed(t.huffval, size, MAX_CLEN + 1, 0)
    ensures GoodTable(f, t)
  {
    EarlierAll(f, size, 256);
    SamePrefix(bits, t.bits, 16);
    forall n | 1 <= n <= 16 ensures Nodes(t.bits, n) < Power(n) {
      SamePrefix(bits, t.bits, n);
    }
    forall p, q | 0 <= p < q < |t.huffval| ensures t.huffval[p] != t.huffval[q] {
      assert Ordered(size, t.huffval[p], t.huffval[q]);
    }
    forall s | 0 <= s < 256 ensures f[s] > 0 <==> s in t.huffval {
      assert size[s] > 0 <==> Earlier(size, s, MAX_CLEN + 1, 0);
    }
  }

  // Code lengths of up to 16 bits are what the symbols get

  /** In the order of code words, the symbol at each place has the length that it is to have. */
  predicate GivesLengths(t: Table, size: Counts) {
    |t.bits| == 17 && forall p :: 0 <= p < |t.huffval| ==> HasLength(t.bits, p, size[t.huffval[p]])
  }

  predicate HasLength(bits: seq<byte>, p: nat, l: nat)
    requires |bits| == 17
  {
    1 <= l <= 16 && Words(bits, l - 1) <= p < Words(bits, l)
  }

  lemma {:induction false} OfLengthNone(size: Counts, l: nat, n: nat)
    requires n <= SYMBOLS && forall s :: 0 <= s < n ==> size[s] < l
    ensures OfLength(size, l, n) == 0
  {
    if n > 0 {
      OfLengthNone(size, l, n - 1);
    }
  }

  lemma {:induction false} OfLengthSome(size: Counts, s: nat, n: nat)
    requires s < n <= SYMBOLS
    ensures OfLength(size, size[s], n) > 0
  {
    if s < n - 1 {
      OfLengthSome(size, s, n - 1);
    }
  }

  /** One more length. */
  lemma {:induction false} EarlierLength(size: Counts, l: nat, n: nat)
    requires n <= SYMBOLS && l >= 1
    ensures CountEarlier(size, l + 1, 0, n) == CountEarlier(size, l, 0, n) + OfLength(size, l, n)
  {
    if n > 0 {
      EarlierLength(size, l, n - 1);
    }
  }

  /** Numbers of code words add up to numbers of symbols. */
  lemma {:induction false} WordsCount(bits: seq<byte>, size: Counts, l: nat)
    requires l < |bits| && forall m :: 1 <= m <= l ==> bits[m] == OfLength(size, m, 256)
    ensures Words(bits, l) == CountEarlier(size, l + 1, 0, 256)
  {
    if l == 0 {
      EarlierNone(size, 256);
    } else {
      WordsCount(bits, size, l - 1);
      EarlierLength(size, l, 256);
    }
  }

  lemma {:induction false} EarlierMonotonic(size: Counts, l: nat, j: nat, k: nat)
    requires l >= 1 && j <= k <= 256
    ensures CountEarlier(size, l, j, 256) <= CountEarlier(size, l, k, 256)
  {
    if j < k {
      EarlierMonotonic(size, l, j, k - 1);
      EarlierNext(size, l, k - 1, 256);
    }
  }

  lemma {:induction false} PlaceHasLength(bits: seq<byte>, vals: seq<byte>, size: Counts, p: nat, n: nat)
    requires |bits| == 17 && n <= 16 && forall l :: 1 <= l <= n ==> bits[l] == OfLength(size, l, 256)
    requires p < |vals| && AtPlace(size, vals, p) && 1 <= size[vals[p]] <= n
    ensures HasLength(bits, p, size[vals[p]])
  {
    var s: nat, l := vals[p], size[vals[p]];
    WordsCount(bits, size, l - 1);
    WordsCount(bits, size, l);
    EarlierMonotonic(size, l, 0, s);
    EarlierNext(size, l, s, 256);
    EarlierMonotonic(size, l, s + 1, 256);
    EarlierRow(size, l, 256);
  }

  /** When no length is over 16, limiting changes nothing, and one word of the greatest length, that of the
      pseudo-symbol, is given up. */
  lemma {:induction false} LengthsGiven(f: Counts, size: Counts, counted: LengthCounts, bits: LengthCounts, t: Table)
    requires f[PSEUDO] == 1 && Depths(f, size) && forall s :: 0 <= s < SYMBOLS ==>
             (f[s] > 0 <==> size[s] > 0)
             && size[s] <= 16
    requires Counted(counted, size, SYMBOLS)
    requires forall l: nat :: IsLargest(counted, l) ==> bits == counted[l := counted[l] - 1]
    requires t.bits == bits[..17] && Listed(t.huffval, size, MAX_CLEN + 1, 0)
    ensures GivesLengths(t, size)
  {
    hide Fib, Total;
    var d := size[PSEUDO];
    forall l | d < l <= 16 ensures counted[l] == 0 {
      OfLengthNone(size, l, SYMBOLS);
    }
    OfLengthSome(size, PSEUDO, SYMBOLS);
    assert IsLargest(counted, d);
    forall p | 0 <= p < |t.huffval| ensures HasLength(t.bits, p, size[t.huffval[p]]) {
      assert Earlier(size, t.huffval[p], MAX_CLEN + 1, 0) && AtPlace(size, t.huffval, p);
      PlaceHasLength(t.bits, t.huffval, size, p, 16);
    }
  }

  lemma {:induction false} CountedShort(counted: LengthCounts, size: Counts)
    requires Counted(counted, size, SYMBOLS) && forall s :: 0 <= s < SYMBOLS ==> size[s] <= 16
    ensures ShortEnough(counted)
  {
    forall l | 16 < l <= MAX_CLEN ensures counted[l] == 0 {
      OfLengthNone(size, l, SYMBOLS);
    }
  }

  /** The last word, that of the pseudo-symbol, is given up. */
  ghost predicate LastDropped(limited: LengthCounts, bits: seq<byte>) {
    |bits| == 17 && forall l: nat :: IsLargest(limited, l) ==> bits == limited[..17][l := limited[l] - 1]
  }

  /** The numbers of words in the table are the optimal ones, limited, without the pseudo-symbol's. */
  ghost predicate LimitedTable(t: Table, size: Counts, words: nat) {
    exists counted: LengthCounts, limited: LengthCounts ::
      Counted(counted, size, SYMBOLS) && Limited(counted, limited, words) && LastDropped(limited, t.bits)
  }

  /** The symbol at place p has a length of at most n, and all longer words fit below. */
  predicate ShortAt(t: Table, size: Counts, words: nat, counted: LengthCounts, n: nat, p: nat) {
    && Counted(counted, size, SYMBOLS) && 1 <= n <= 15 && Fit(counted, words, n)
    && p < |t.huffval| && size[t.huffval[p]] <= n
  }

  /** Up to a length below which all longer words fit, symbols get their optimal lengths. */
  ghost predicate KeepsShort(t: Table, size: Counts, words: nat) {
    |t.bits| == 17 && forall counted: LengthCounts, n: nat, p: nat | ShortAt(t, size, words, counted, n, p) ::
      HasLength(t.bits, p, size[t.huffval[p]])
  }

  lemma {:induction false} CountedOnce(a: LengthCounts, b: LengthCounts, size: Counts)
    requires Counted(a, size, SYMBOLS) && Counted(b, size, SYMBOLS)
    ensures a == b
  {
  }

  lemma {:induction false} SomeLonger(size: Counts, counted: LengthCounts, words: nat, n: nat)
    requires Counted(counted, size, SYMBOLS) && Words(counted, MAX_CLEN) == words
    requires 1 <= n < size[PSEUDO] <= MAX_CLEN
    ensures words > Words(counted, n)
  {
    OfLengthSome(size, PSEUDO, SYMBOLS);
    WordsAdd(counted, n, size[PSEUDO] - 1);
    WordsAdd(counted, size[PSEUDO], MAX_CLEN);
  }

  lemma {:induction false} WordsAdd(bits: seq<byte>, n: nat, m: nat)
    requires n <= m < |bits|
    ensures Words(bits, n) <= Words(bits, m)
    decreases m
  {
    if n < m {
      WordsAdd(bits, n, m - 1);
    }
  }

  /** If there are longer words, the word given up is one of them. */
  lemma {:induction false} DropsLonger(limited: LengthCounts, bits: seq<byte>, words: nat, n: nat)
    requires Full(limited, 16, words) && n < 16 && Words(limited, n) < words && LastDropped(limited, bits)
    ensures forall l :: 0 <= l <= n ==> bits[l] == limited[l]
  {
    WordsAtTop(limited, 16, MAX_CLEN);
    var m := 16;
    while limited[m] == 0
      invariant n < m <= 16 && Words(limited, m) == words && forall l :: m < l <= 16 ==> limited[l] == 0
      decreases m
    {
      m := m - 1;
    }
    assert IsLargest(limited, m);
  }

  lemma {:induction false} ShortKept(size: Counts, counted: LengthCounts, limited: LengthCounts, t: Table, words: nat,
                                     n: nat, p: nat)
    requires size[PSEUDO] > n && Counted(counted, size, SYMBOLS) && Words(counted, MAX_CLEN) == words
    requires Limited(counted, limited, words) && LastDropped(limited, t.bits)
    requires 1 <= n <= 15 && Fit(counted, words, n) && size[PSEUDO] <= MAX_CLEN
    requires p < |t.huffval| && AtPlace(size, t.huffval, p) && 1 <= size[t.huffval[p]] <= n
    ensures HasLength(t.bits, p, size[t.huffval[p]])
  {
    hide AtPlace, HasLength;
    SomeLonger(size, counted, words, n);
    forall l | 0 <= l <= n ensures limited[l] == counted[l] {
      assert limited[..n + 1][l] == counted[..n + 1][l];
    }
    SamePrefix(limited, counted, n);
    DropsLonger(limited, t.bits, words, n);
    PlaceHasLength(t.bits, t.huffval, size, p, n);
  }

  /** The pseudo-symbol has the greatest length; when that is over n, only longer words are changed or given up. */
  lemma {:induction false} AllShortKept(f: Counts, size: Counts, counted: LengthCounts, limited: LengthCounts, t: Table,
                                        words: nat)
    requires Counted(counted, size, SYMBOLS) && Words(counted, MAX_CLEN) == words && size[PSEUDO] <= MAX_CLEN
    requires Limited(counted, limited, words) && LastDropped(limited, t.bits)
    requires Listed(t.huffval, size, MAX_CLEN + 1, 0)
    requires f[PSEUDO] == 1 && Depths(f, size) && forall s :: 0 <= s < SYMBOLS ==> (f[s] > 0 <==> size[s] > 0)
    requires (forall s :: 0 <= s < SYMBOLS ==> size[s] <= 16) ==> GivesLengths(t, size)
    ensures KeepsShort(t, size, words)
  {
    hide Limited, LastDropped, HasLength, AtPlace, Fib, Total;
    assert |t.bits| == 17 by { DroppedSize(limited, t.bits); }
    forall c: LengthCounts, n: nat, p: nat | ShortAt(t, size, words, c, n, p)
      ensures HasLength(t.bits, p, size[t.huffval[p]])
    {
      CountedOnce(c, counted, size);
      assert Earlier(size, t.huffval[p], MAX_CLEN + 1, 0) && AtPlace(size, t.huffval, p);
      if size[PSEUDO] > n {
        ShortKept(size, counted, limited, t, words, n, p);
      }
    }
  }

  lemma {:induction false} DroppedSize(limited: LengthCounts, bits: seq<byte>)
    requires LastDropped(limited, bits)
    ensures |bits| == 17
  {
  }

  /** A total below this number cannot make a code word of more than 32 bits. */
  const OVERFLOW_TOTAL := 9227465

  lemma {:induction false} NoOverflow(f: Counts, size: Counts, s: nat)
    requires Depths(f, size) && s < SYMBOLS && f[s] > 0 && size[s] > MAX_CLEN
    ensures Total(f, SYMBOLS) >= OVERFLOW_TOTAL
  {
    hide Fib, Total;
    Fib35(size[s] + 2);
  }

  lemma {:induction false} DropsLast(limited: LengthCounts, bits: LengthCounts)
    requires forall l: nat :: IsLargest(limited, l) ==> bits == limited[l := limited[l] - 1]
    ensures LastDropped(limited, bits[..17])
  {
  }

  lemma {:induction false} IsLimited(t: Table, size: Counts, words: nat, counted: LengthCounts, limited: LengthCounts)
    requires Counted(counted, size, SYMBOLS) && Limited(counted, limited, words) && LastDropped(limited, t.bits)
    ensures LimitedTable(t, size, words)
  {
    hide Counted, Limited, LastDropped;
  }

  /** Generate the best Huffman code table for the given counts. Before lengths are limited, no prefix code for the
      symbols and the pseudo-symbol needs fewer bits; the table is one that the encoder accepts. If no length is over
      16, the table gives each symbol exactly that length; and lengths over 32 need a large total. */
  method GenOptimalTable(freq: array<nat>) returns (r: Generated, ghost size: Counts)
    requires freq.Length == SYMBOLS && Total(freq[..][256 := 1], SYMBOLS) <= LIMIT
    requires 1 <= Used(freq[..], 256) <= 254
    modifies freq
    ensures BestSizes(old(freq[..])[256 := 1], size)
    ensures r.ClenOverflow? <==> exists s :: 0 <= s < SYMBOLS && size[s] > 32
    ensures r.Generated? ==> GoodTable(old(freq[..])[256 := 1], r.table)
    ensures r.Generated? && (forall s :: 0 <= s < SYMBOLS ==> size[s] <= 16) ==> GivesLengths(r.table, size)
    ensures r.ClenOverflow? ==> Total(old(freq[..])[256 := 1], SYMBOLS) >= OVERFLOW_TOTAL
    ensures r.Generated? ==>
              && LimitedTable(r.table, size, Used(old(freq[..])[256 := 1], SYMBOLS))
              && KeepsShort(r.table, size, Used(old(freq[..])[256 := 1], SYMBOLS))
  {
    hide Depths, Counted, Limited, LastDropped, LimitedTable, KeepsShort, GivesLengths, ShortEnough, BestSizes, Kraft,
         GoodTable, Listed, NoneAllOnes, Full, Nodes, Words, Total;
    ghost var f: Counts := freq[..][256 := 1];
    ghost var t := UsedSymbol(freq[..]);
    var sizes := CodeSizes(freq);
    size := sizes[..];
    CodeWords(f, size, t);
    var bits := new byte[MAX_CLEN + 1](i => 0);
    var ok := CountLengths(sizes, bits, f);
    if !ok {
      ghost var s :| 0 <= s < SYMBOLS && size[s] > MAX_CLEN;
      NoOverflow(f, size, s);
      return ClenOverflow, size;
    }
    ghost var counted, words := bits[..], Used(f, SYMBOLS);
    FullWords(counted, MAX_CLEN, words);
    LimitLengths(bits, words);
    ghost var limited := bits[..];
    DropPseudoSymbol(bits, words);
    var vals := ListSymbols(sizes);
    r := Generated(Table(bits[..17], vals));
    TableIsGood(f, size, bits[..], r.table);
    if forall s :: 0 <= s < SYMBOLS ==> size[s] <= 16 {
      CountedShort(counted, size);
      LengthsGiven(f, size, counted, bits[..], r.table);
    }
    DropsLast(limited, bits[..]);
    AllShortKept(f, size, counted, limited, r.table, words);
    IsLimited(r.table, size, words, counted, limited);
  }

  lemma {:induction false} UsedSymbol(f: Counts) returns (t: nat)
    requires 1 <= Used(f, 256) <= 254
    ensures t < 256 && f[t] > 0 && f[256 := 1][t] > 0 && f[256 := 1][256] == 1 && Used(f[256 := 1], SYMBOLS) <= 255
  {
    SomeUsed(f, 256);
    t :| 0 <= t < 256 && f[t] > 0;
    UsedUpdate(f, 256, 1, 256);
  }
}

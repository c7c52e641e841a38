/** How long the code words are that Huffman's algorithm (jchuff.c) assigns: the pseudo-symbol gets one of the
    longest, and a long one needs large counts. */
module HuffmanDepth {
  import opened ProbabilityTable
  import opened HuffmanCost
  import opened HuffmanForest

  const PSEUDO := 256

  // The pseudo-symbol stays behind

  /** A symbol has, so far, no longer code word than the pseudo-symbol, and a shorter one if its branch is to be merged
      earlier; a branch of half the count is shorter still. */
  predicate Behind(t: Forest, s: nat)
    requires |t.root| == SYMBOLS && s < SYMBOLS && 0 <= t.root[s] < SYMBOLS && 0 <= t.root[PSEUDO] < SYMBOLS
  {
    var c, r := t.root[s], t.root[PSEUDO];
    && t.size[s] <= t.size[PSEUDO]
    && (c != r && (t.f[c] < t.f[r] || (t.f[c] == t.f[r] && r != PSEUDO)) ==> t.size[s] + 1 <= t.size[PSEUDO])
    && (c != r && r != PSEUDO && 2 * t.f[c] == t.f[r] ==> t.size[s] + 2 <= t.size[PSEUDO])
  }

  /** No branch has less than half the count of the pseudo-symbol's. */
  predicate HalfAtLeast(t: Forest)
    requires |t.root| == SYMBOLS && 0 <= t.root[PSEUDO] < SYMBOLS
  {
    forall c :: 0 <= c < SYMBOLS && t.f[c] > 0 && c != t.root[PSEUDO] ==> 2 * t.f[c] >= t.f[t.root[PSEUDO]]
  }

  predicate PseudoDeep(t: Forest) {
    && t.Shaped() && t.f0[PSEUDO] > 0 && t.Rooted(PSEUDO) && HalfAtLeast(t)
    && forall s :: 0 <= s < SYMBOLS && t.f0[s] > 0 ==> t.Rooted(s) && Behind(t, s)
  }

  lemma {:induction false} SinglesPseudoDeep(f: Counts)
    requires f[PSEUDO] == 1
    ensures PseudoDeep(Singles(f))
  {
    var t := Singles(f);
    SinglesShaped(f);
    forall s | 0 <= s < SYMBOLS && f[s] > 0 ensures t.Rooted(s) && Behind(t, s) {
      assert t.root[s] == s;
    }
  }

  /** The branches merged are the two smallest. */
  predicate TwoSmallest(t: Forest, c1: nat, c2: nat) {
    Smallest(t.f, c1, -1) && Smallest(t.f, c2, c1)
  }

  lemma {:induction false} StaysBehind(t: Forest, r: Forest, c1: nat, c2: nat, s: nat)
    requires PseudoDeep(t) && t.Joins(c1, c2, r) && TwoSmallest(t, c1, c2) && r.Shaped()
    requires s < SYMBOLS && t.f0[s] > 0
    ensures r.Rooted(s) && r.Rooted(PSEUDO) && Behind(r, s)
  {
    hide Forest.Shaped, IsChain;
    ShapedRooted(r, s);
    ShapedRooted(r, PSEUDO);
    ShapedRooted(t, s);
    assert Behind(t, s);
  }

  lemma {:induction false} ShapedRooted(t: Forest, s: nat)
    requires t.Shaped() && s < SYMBOLS && t.f0[s] > 0
    ensures |t.root| == |t.chains| == SYMBOLS && t.Rooted(s)
  {
  }

  lemma {:induction false} StaysHalf(t: Forest, r: Forest, c1: nat, c2: nat)
    requires PseudoDeep(t) && t.Joins(c1, c2, r) && TwoSmallest(t, c1, c2) && r.Shaped() && r.Rooted(PSEUDO)
    ensures HalfAtLeast(r)
  {
    hide Forest.Shaped, IsChain;
  }

  lemma {:induction false} JoinedPseudoDeep(t: Forest, r: Forest, c1: nat, c2: nat)
    requires PseudoDeep(t) && t.Joins(c1, c2, r) && TwoSmallest(t, c1, c2) && r.Shaped()
    ensures PseudoDeep(r)
  {
    hide Forest.Joins, Behind, HalfAtLeast, IsChain, Forest.InBranch;
    StaysBehind(t, r, c1, c2, PSEUDO);
    StaysHalf(t, r, c1, c2);
    forall s | 0 <= s < SYMBOLS && t.f0[s] > 0 ensures r.Rooted(s) && Behind(r, s) {
      StaysBehind(t, r, c1, c2, s);
    }
    SameCounts(t, r, c1, c2);
  }

  lemma {:induction false} SameCounts(t: Forest, r: Forest, c1: nat, c2: nat)
    requires t.Joins(c1, c2, r)
    ensures r.f0 == t.f0
  {
  }

  /** When one branch is left, no code word is longer than that of the pseudo-symbol. */
  lemma {:induction false} PseudoDeepest(t: Forest, c: nat)
    requires PseudoDeep(t) && forall s :: 0 <= s < SYMBOLS && t.f0[s] > 0 ==> t.root[s] == c
    ensures forall s :: 0 <= s < SYMBOLS && t.f0[s] > 0 ==> t.size[s] <= t.size[PSEUDO]
  {
    forall s | 0 <= s < SYMBOLS && t.f0[s] > 0 ensures t.size[s] <= t.size[PSEUDO] {
      assert Behind(t, s);
    }
  }

  // Long code words need large counts

  function Fib(n: nat): nat {
    if n < 2 then n else Fib(n - 1) + Fib(n - 2)
  }

  /** A branch in which a code word has some length is heavy, and so is every other branch. */
  predicate Heavy(t: Forest) {
    && |t.root| == SYMBOLS
    && forall s :: 0 <= s < SYMBOLS && t.f0[s] > 0 ==>
         && 0 <= t.root[s] < SYMBOLS && t.f[t.root[s]] >= Fib(t.size[s] + 2)
         && AllAtLeast(t.f, Fib(t.size[s] + 1))
  }

  predicate AllAtLeast(f: Counts, n: nat) {
    forall c :: 0 <= c < SYMBOLS && f[c] > 0 ==> f[c] >= n
  }

  lemma {:induction false} SinglesHeavy(f: Counts)
    ensures Heavy(Singles(f))
  {
    assert Fib(2) == Fib(1) == 1;
  }

  /** Merging two branches adds up two of Fibonacci's numbers. */
  lemma {:induction false} StaysHeavy(t: Forest, r: Forest, c1: nat, c2: nat, s: nat)
    requires Heavy(t) && t.Joins(c1, c2, r) && TwoSmallest(t, c1, c2) && s < SYMBOLS && t.f0[s] > 0
    ensures 0 <= r.root[s] < SYMBOLS && r.f[r.root[s]] >= Fib(r.size[s] + 2) && AllAtLeast(r.f, Fib(r.size[s] + 1))
  {
    hide Forest.Shaped, IsChain;
    var n := t.size[s];
    assert Fib(n + 3) == Fib(n + 2) + Fib(n + 1);
    assert AllAtLeast(t.f, Fib(n + 1));
  }

  lemma {:induction false} JoinedHeavy(t: Forest, r: Forest, c1: nat, c2: nat)
    requires Heavy(t) && t.Joins(c1, c2, r) && TwoSmallest(t, c1, c2)
    ensures Heavy(r)
  {
    hide AllAtLeast, Forest.Shaped;
    forall s | 0 <= s < SYMBOLS && t.f0[s] > 0
      ensures 0 <= r.root[s] < SYMBOLS && r.f[r.root[s]] >= Fib(r.size[s] + 2) && AllAtLeast(r.f, Fib(r.size[s] + 1))
    {
      StaysHeavy(t, r, c1, c2, s);
    }
  }

  lemma {:induction false} FibGrows(m: nat, n: nat)
    requires m <= n
    ensures Fib(m) <= Fib(n)
  {
    if m < n {
      FibGrows(m, n - 1);
    }
  }

  lemma {:induction false} FiveFurther(m: nat)
    ensures Fib(m + 5) == 5 * Fib(m + 1) + 3 * Fib(m) && Fib(m + 6) == 8 * Fib(m + 1) + 5 * Fib(m)
  {
    assert Fib(m + 2) == Fib(m + 1) + Fib(m);
    assert Fib(m + 3) == 2 * Fib(m + 1) + Fib(m);
    assert Fib(m + 4) == 3 * Fib(m + 1) + 2 * Fib(m);
  }

  /** A code word of more than 32 bits needs a total of at least 9227465. */
  lemma {:induction false} Fib35(n: nat)
    requires n >= 35
    ensures Fib(n) >= 9227465
  {
    var m := 0;
    assert Fib(m) == 0 && Fib(m + 1) == 1;
    hide Fib;
    FiveFurther(m);
    FiveFurther(m + 5);
    FiveFurther(m + 10);
    FiveFurther(m + 15);
    FiveFurther(m + 20);
    FiveFurther(m + 25);
    FiveFurther(m + 30);
    FibGrows(m + 35, n);
  }
}

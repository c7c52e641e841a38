/** The branches of the code tree that jchuff.c chains through its array others while it merges them. */
module HuffmanForest {
  import opened ProbabilityTable
  import opened HuffmanCost

  /** Longer than any code word of 257 symbols. */
  const DEEPEST := 257

  predicate Link(others: seq<int>, chain: seq<nat>, i: nat)
    requires i < |chain| && chain[i] < |others|
  {
    others[chain[i]] == if i + 1 < |chain| then chain[i + 1] else -1
  }

  /** The links lead from c through the symbols of the chain. */
  predicate IsChain(others: seq<int>, c: nat, chain: seq<nat>) {
    && chain != [] && chain[0] == c
    && (forall i :: 0 <= i < |chain| ==> chain[i] < |others|)
    && (forall i :: 0 <= i < |chain| ==> Link(others, chain, i))
    && (forall i, j :: 0 <= i < j < |chain| ==> chain[i] != chain[j])
  }

  lemma {:induction false} ChainEnd(others: seq<int>, c: nat, chain: seq<nat>)
    requires IsChain(others, c, chain)
    ensures chain != [] && chain[|chain| - 1] < |others|
  {
  }

  lemma {:induction false} ChainKept(others: seq<int>, c: nat, chain: seq<nat>, s: nat, v: int)
    requires IsChain(others, c, chain) && s < |others| && s !in chain
    ensures IsChain(others[s := v], c, chain)
  {
    var r := others[s := v];
    forall i | 0 <= i < |chain| ensures Link(r, chain, i) {
      assert Link(others, chain, i);
    }
  }

  /** The second chain is linked to the end of the first one. */
  lemma {:induction false} ChainsJoin(others: seq<int>, c1: nat, a: seq<nat>, c2: nat, b: seq<nat>)
    requires IsChain(others, c1, a) && IsChain(others, c2, b)
    requires forall i, j :: 0 <= i < |a| && 0 <= j < |b| ==> a[i] != b[j]
    ensures a != [] && a[|a| - 1] < |others| && IsChain(others[a[|a| - 1] := c2], c1, a + b)
  {
    var r, ab := others[a[|a| - 1] := c2], a + b;
    forall i | 0 <= i < |ab| ensures Link(r, ab, i) {
      if i < |a| {
        assert Link(others, a, i);
      } else {
        assert Link(others, b, i - |a|) && ab[i] != a[|a| - 1];
      }
    }
  }

  /** The sum of the counts of the symbols in the branch of c. */
  function SumBy(f: Counts, root: seq<int>, c: int, n: nat): nat
    requires n <= SYMBOLS == |root|
  {
    if n == 0 then 0 else SumBy(f, root, c, n - 1) + if root[n - 1] == c then f[n - 1] else 0
  }

  /** Kraft's sum for the branch of c. */
  function KraftBy(root: seq<int>, size: Counts, c: int, n: nat): nat
    requires n <= SYMBOLS == |root|
  {
    if n == 0 then 0 else KraftBy(root, size, c, n - 1) + if root[n - 1] == c then Power(DEEPEST - size[n - 1]) else 0
  }

  /** The original counts, the counts of the branches, the code lengths so far, the links; and for each symbol the
      branch it is in, for each branch its symbols in the order of the chain. */
  datatype Forest = Forest(f0: Counts, f: Counts, size: Counts, others: seq<int>, root: seq<int>,
                           chains: seq<seq<nat>>) {

    predicate Shaped() {
      && |others| == |root| == |chains| == SYMBOLS
      && (forall c :: 0 <= c < SYMBOLS && f[c] > 0 ==> IsChain(others, c, chains[c]) && InBranch(c))
      && (forall s :: 0 <= s < SYMBOLS ==> if f0[s] == 0 then root[s] == -1 else Rooted(s))
    }

    predicate InBranch(c: nat)
      requires |root| == |chains| == SYMBOLS && c < SYMBOLS
    {
      forall i :: 0 <= i < |chains[c]| ==> chains[c][i] < SYMBOLS && root[chains[c][i]] == c
    }

    predicate Rooted(s: nat)
      requires |root| == |chains| == SYMBOLS && s < SYMBOLS
    {
      0 <= root[s] < SYMBOLS && f[root[s]] > 0 && s in chains[root[s]]
    }

    predicate Balanced() {
      && |root| == SYMBOLS
      && (forall c :: 0 <= c < SYMBOLS ==> f[c] == SumBy(f0, root, c, SYMBOLS))
      && (forall c :: 0 <= c < SYMBOLS && f[c] > 0 ==> KraftBy(root, size, c, SYMBOLS) == Power(DEEPEST))
      && (forall s :: 0 <= s < SYMBOLS ==> size[s] + Used(f, SYMBOLS) <= Used(f0, SYMBOLS))
      && (forall s :: 0 <= s < SYMBOLS && f0[s] == 0 ==> size[s] == 0)
    }

    predicate Ok() {
      Shaped() && Balanced()
    }

    /** The branches of c1 and c2 become one, and the code words in it one bit longer. */
    predicate Joins(c1: nat, c2: nat, r: Forest) {
      && Shaped() && c1 < SYMBOLS && c2 < SYMBOLS && c1 != c2 && f[c1] > 0 && f[c2] > 0
      && r.f0 == f0 && r.f == Merge(f, c1, c2)
      && (forall s :: 0 <= s < SYMBOLS ==> r.size[s] == size[s] + if root[s] == c1 || root[s] == c2 then 1 else 0)
      && r.others == others[chains[c1][|chains[c1]| - 1] := c2]
      && |r.root| == SYMBOLS && (forall s :: 0 <= s < SYMBOLS ==> r.root[s] == if root[s] == c2 then c1 else root[s])
      && r.chains == chains[c1 := chains[c1] + chains[c2]][c2 := []]
    }

    /** The chain of a branch consists of its symbols. */
    lemma {:induction false} InChain(c: nat, s: nat)
      requires Shaped() && c < SYMBOLS && f[c] > 0 && s < SYMBOLS
      ensures s in chains[c] <==> root[s] == c
    {
      assert InBranch(c);
      assert f0[s] > 0 ==> Rooted(s);
    }

    lemma {:induction false} JoinedShape(c1: nat, c2: nat, r: Forest)
      requires Joins(c1, c2, r)
      ensures r.Shaped()
    {
      hide IsChain;
      var a, b := chains[c1], chains[c2];
      forall i, j | 0 <= i < |a| && 0 <= j < |b| ensures a[i] != b[j] {
        assert InBranch(c1) && InBranch(c2);
      }
      ChainsJoin(others, c1, a, c2, b);
      assert r.InBranch(c1) by {
        assert InBranch(c1) && InBranch(c2);
      }
      forall c | 0 <= c < SYMBOLS && r.f[c] > 0 && c != c1 ensures IsChain(r.others, c, r.chains[c]) && r.InBranch(c) {
        assert IsChain(others, c, chains[c]) && InBranch(c) && InBranch(c1);
        ChainEnd(others, c1, a);
        ChainKept(others, c, chains[c], a[|a| - 1], c2);
      }
      forall s | 0 <= s < SYMBOLS && f0[s] > 0 ensures r.Rooted(s) {
        assert Rooted(s);
      }
    }

    lemma {:induction false} JoinedSum(c1: nat, c2: nat, r: Forest, c: int, n: nat)
      requires Joins(c1, c2, r) && n <= SYMBOLS
      ensures SumBy(f0, r.root, c, n) == if c == c1 then SumBy(f0, root, c1, n) + SumBy(f0, root, c2, n)
                                         else if c == c2 then 0 else SumBy(f0, root, c, n)
    {
      if n > 0 {
        JoinedSum(c1, c2, r, c, n - 1);
      }
    }

    lemma {:induction false} JoinedKraft(c1: nat, c2: nat, r: Forest, n: nat)
      requires Joins(c1, c2, r) && n <= SYMBOLS && forall s :: 0 <= s < SYMBOLS ==> size[s] < DEEPEST
      ensures 2 * KraftBy(r.root, r.size, c1, n) == KraftBy(root, size, c1, n) + KraftBy(root, size, c2, n)
    {
      if n > 0 {
        JoinedKraft(c1, c2, r, n - 1);
        assert Power(DEEPEST - size[n - 1]) == 2 * Power(DEEPEST - size[n - 1] - 1);
      }
    }

    lemma {:induction false} OtherKraft(c1: nat, c2: nat, r: Forest, c: nat, n: nat)
      requires Joins(c1, c2, r) && n <= SYMBOLS && c != c1 && c != c2
      ensures KraftBy(r.root, r.size, c, n) == KraftBy(root, size, c, n)
    {
      if n > 0 {
        OtherKraft(c1, c2, r, c, n - 1);
      }
    }

    /** Lengthening the code words of two branches costs one bit for each of their symbols. */
    lemma {:induction false} JoinedCost(c1: nat, c2: nat, r: Forest, n: nat)
      requires Joins(c1, c2, r) && n <= SYMBOLS
      ensures Cost(f0, r.size, n) == Cost(f0, size, n) + SumBy(f0, root, c1, n) + SumBy(f0, root, c2, n)
    {
      if n > 0 {
        JoinedCost(c1, c2, r, n - 1);
        OneBitMore(f0[n - 1], size[n - 1]);
      }
    }

    lemma {:induction false} JoinedBalance(c1: nat, c2: nat, r: Forest)
      requires Ok() && Joins(c1, c2, r)
      ensures r.Balanced()
    {
      MergeUsed(f, c1, c2);
      UsedBound(f0, SYMBOLS);
      forall c | 0 <= c < SYMBOLS ensures r.f[c] == SumBy(f0, r.root, c, SYMBOLS) {
        JoinedSum(c1, c2, r, c, SYMBOLS);
      }
      forall c | 0 <= c < SYMBOLS && r.f[c] > 0 ensures KraftBy(r.root, r.size, c, SYMBOLS) == Power(DEEPEST) {
        if c == c1 {
          JoinedKraft(c1, c2, r, SYMBOLS);
        } else {
          OtherKraft(c1, c2, r, c, SYMBOLS);
        }
      }
    }

    /** When one branch is left, it is the whole code: a full tree. */
    lemma {:induction false} Whole(c: nat, n: nat)
      requires Shaped() && n <= SYMBOLS && forall s :: 0 <= s < n && f0[s] > 0 ==> root[s] == c
      ensures Kraft(f0, size, DEEPEST, n) == KraftBy(root, size, c, n)
    {
      if n > 0 {
        Whole(c, n - 1);
      }
    }
  }

  lemma {:induction false} OneBitMore(a: nat, l: nat)
    ensures a * (l + 1) == a * l + a
  {
  }

  lemma {:induction false} UsedBound(f: Counts, n: nat)
    requires n <= SYMBOLS
    ensures Used(f, n) <= n
  {
    if n > 0 {
      UsedBound(f, n - 1);
    }
  }

  /** Every symbol by itself. */
  function Singles(f: Counts): Forest {
    Forest(f, f, seq(SYMBOLS, i => 0), seq(SYMBOLS, i => -1),
           seq(SYMBOLS, i requires 0 <= i < SYMBOLS => if f[i] > 0 then i else -1),
           seq(SYMBOLS, i requires 0 <= i < SYMBOLS => if f[i] > 0 then [i] else []))
  }

  lemma {:induction false} SinglesSums(f: Counts, c: nat, n: nat)
    requires n <= SYMBOLS && c < SYMBOLS
    ensures var t := Singles(f);
            && SumBy(f, t.root, c, n) == (if c < n then f[c] else 0)
            && KraftBy(t.root, t.size, c, n) == (if c < n && f[c] > 0 then Power(DEEPEST) else 0)
            && Cost(f, t.size, n) == 0
  {
    if n > 0 {
      SinglesSums(f, c, n - 1);
    }
  }

  lemma {:induction false} SinglesOk(f: Counts)
    ensures Singles(f).Ok() && Cost(f, Singles(f).size, SYMBOLS) == 0
  {
    var t := Singles(f);
    SinglesShaped(f);
    forall c | 0 <= c < SYMBOLS
      ensures f[c] == SumBy(f, t.root, c, SYMBOLS)
              && (f[c] > 0 ==> KraftBy(t.root, t.size, c, SYMBOLS) == Power(DEEPEST))
    {
      SinglesSums(f, c, SYMBOLS);
    }
    SinglesSums(f, 0, SYMBOLS);
  }

  lemma {:induction false} SinglesShaped(f: Counts)
    ensures Singles(f).Shaped()
  {
  }
}

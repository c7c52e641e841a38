/** The encoding tables derived from a Huffman table (jchuff.c, section C.2 of ITU-T T.81). */
module DerivedTable {
  import opened ProbabilityTable
  import opened ByteStream
  import opened CoefficientModel
  import opened HuffmanCost
  import opened CodeLengths
  import opened BitString
  import HuffmanForest
  import HuffmanTable

  /** Code and length of code for each symbol; the length is 0 if no code has been allocated. */
  datatype Derived = Derived(ehufco: seq<nat>, ehufsi: seq<nat>) {
    predicate Sized() {
      |ehufco| == |ehufsi| == 256
    }

    function Word(s: byte): Bits
      requires Sized()
    {
      BitsOf(ehufco[s], ehufsi[s])
    }

    predicate Coded(s: byte)
      requires Sized()
    {
      ehufsi[s] > 0
    }

    /** No code word is the beginning of another one, and none is all ones. */
    predicate Good() {
      && Sized()
      && (forall s: byte :: Coded(s) ==>
        ehufsi[s] <= 16 && ehufco[s] + 1 < Shl(1, ehufsi[s])
        && Word(s) != Ones(ehufsi[s]))
      && forall s: byte, t: byte :: Coded(s) && Coded(t) && s != t ==> !(Word(s) <= Word(t))
    }
  }

  datatype Result = Ok(tbl: Derived) | BadHuffTable

  /** The counts represent a legal code tree, with a code word to spare in each length. */
  predicate LegalCounts(bits: seq<byte>)
    requires |bits| == 17
  {
    Words(bits, 16) <= 256 && NoneAllOnes(bits)
  }

  /** Symbol values in range, and none twice. */
  predicate LegalValues(vals: seq<byte>, n: nat, isDC: bool)
    requires n <= |vals|
  {
    && (forall p :: 0 <= p < n ==> vals[p] <= if isDC then 15 else 255)
    && (forall p, q :: 0 <= p < q < n ==> vals[p] != vals[q])
  }

  /** Code lengths in the order of the code words, for those of length up to l. */
  predicate SizesFor(bits: seq<byte>, sizes: seq<nat>, l: nat)
    requires |bits| == 17 && l <= 16
  {
    && |sizes| == Words(bits, l)
    && forall p :: 0 <= p < |sizes| ==> SizeFits(bits, p, sizes[p], l)
  }

  predicate SizeFits(bits: seq<byte>, p: nat, size: nat, l: nat)
    requires |bits| == 17 && l <= 16
  {
    1 <= size <= l && Words(bits, size - 1) <= p < Words(bits, size)
  }

  lemma {:induction false} WordsGrow(bits: seq<byte>, m: nat, n: nat)
    requires m <= n < |bits|
    ensures Words(bits, m) <= Words(bits, n)
  {
    if m < n {
      WordsGrow(bits, m, n - 1);
    }
  }

  /** Figure C.1: make table of Huffman code length for each symbol. */
  method CodeSizes(bits: seq<byte>, huffsize: array<nat>) returns (lastp: nat, ok: bool)
    requires |bits| == 17 && huffsize.Length == 257
    modifies huffsize
    ensures ok <==> Words(bits, 16) <= 256
    ensures ok ==> lastp <= 256 && SizesFor(bits, huffsize[..lastp], 16) && huffsize[lastp] == 0
  {
    var p := 0;
    for l := 1 to 17
      invariant p <= 256 && SizesFor(bits, huffsize[..p], l - 1)
    {
      var i: int := bits[l];
      if p + i > 256 {  // protect against table overrun
        WordsGrow(bits, l, 16);
        return p, false;
      }
      ghost var n := p;
      while i > 0
        invariant 0 <= i <= bits[l] && p == n + bits[l] - i
        invariant forall q :: 0 <= q < p ==> SizeFits(bits, q, huffsize[q], l)
      {
        huffsize[p] := l;
        p := p + 1;
        i := i - 1;
      }
    }
    huffsize[p] := 0;
    lastp, ok := p, true;
  }

  /** A code word and its extensions come before the given code of length si. */
  predicate Precedes(size: nat, code: nat, si: nat, next: nat) {
    size <= si && Shl(code + 1, si - size) <= next
  }

  /** Codes ascend, and each leaves its extensions free. */
  predicate CodesFor(sizes: seq<nat>, codes: seq<nat>) {
    && |codes| == |sizes|
    && (forall q :: 0 <= q < |sizes| ==> codes[q] + 1 < Shl(1, sizes[q]))
    && (forall q, r :: 0 <= q < r < |sizes| ==> Precedes(sizes[q], codes[q], sizes[r], codes[r]))
  }

  lemma {:induction false} PrecedesStep(size: nat, code: nat, si: nat, next: nat)
    requires Precedes(size, code, si, next)
    ensures Precedes(size, code, si, next + 1) && Precedes(size, code, si + 1, 2 * next)
  {
  }

  lemma {:induction false} PrecedesEnd(size: nat, code: nat, next: nat)
    requires Precedes(size, code, size, next) && next < Shl(1, size)
    ensures code + 1 < Shl(1, size)
  {
  }

  lemma {:induction false} EmptyTail(bits: seq<byte>, m: nat, n: nat)
    requires m <= n < |bits| && Words(bits, m) == Words(bits, n) && Nodes(bits, m) < Power(m)
    ensures Nodes(bits, n) < Power(n)
  {
    if m < n {
      WordsGrow(bits, m, n - 1);
      EmptyTail(bits, m, n - 1);
    }
  }

  lemma {:induction false} EmptyHead(bits: seq<byte>, n: nat)
    requires n < |bits| && Words(bits, n) == 0
    ensures Nodes(bits, n) == 0
  {
    if n > 0 {
      EmptyHead(bits, n - 1);
    }
  }

  /** The length of the code word at position p, when all words shorter than si have been dealt with. */
  lemma {:induction false} NextSize(bits: seq<byte>, p: nat, size: nat, si: nat)
    requires |bits| == 17 && SizeFits(bits, p, size, 16) && 1 <= si <= 17 && Words(bits, si - 1) <= p
    ensures si <= size && (size == si <==> si <= 16 && p < Words(bits, si))
  {
    if size < si {
      WordsGrow(bits, size, si - 1);
    } else if si < size {
      WordsGrow(bits, si, size - 1);
    }
  }

  /** The first p codes ascend. */
  predicate InOrder(sizes: seq<nat>, codes: seq<nat>, p: nat)
    requires p <= |sizes| == |codes|
  {
    forall q, r :: 0 <= q < r < p ==> Precedes(sizes[q], codes[q], sizes[r], codes[r])
  }

  /** The first p codes come before the next one, of length si. */
  predicate AllPrecede(sizes: seq<nat>, codes: seq<nat>, p: nat, si: nat, next: nat)
    requires p <= |sizes| == |codes|
  {
    forall q :: 0 <= q < p ==> Precedes(sizes[q], codes[q], si, next)
  }

  /** Section C.2: the codes of a length are consecutive numbers, and the first one is twice the number that would come
      next among those one bit shorter. */
  predicate Canonical(bits: seq<byte>, place: nat, size: nat, code: nat) {
    1 <= size < |bits| && code == 2 * Nodes(bits, size - 1) + place - Words(bits, size - 1)
  }

  predicate AllCanonical(bits: seq<byte>, sizes: seq<nat>, codes: seq<nat>, p: nat)
    requires p <= |sizes| == |codes|
  {
    forall q :: 0 <= q < p ==> Canonical(bits, q, sizes[q], codes[q])
  }

  lemma {:induction false} CanonicalMore(bits: seq<byte>, sizes: seq<nat>, was: seq<nat>, codes: seq<nat>, p0: nat,
                                         p: nat)
    requires p0 <= p <= |sizes| == |was| == |codes| && AllCanonical(bits, sizes, was, p0)
    requires forall q :: 0 <= q < p0 ==> codes[q] == was[q]
    requires forall q :: p0 <= q < p ==> Canonical(bits, q, sizes[q], codes[q])
    ensures AllCanonical(bits, sizes, codes, p)
  {
    hide Canonical;
  }

  /** None of the first p codes is all ones. */
  predicate Spared(sizes: seq<nat>, codes: seq<nat>, p: nat)
    requires p <= |sizes| == |codes|
  {
    forall q :: 0 <= q < p ==> codes[q] + 1 < Shl(1, sizes[q])
  }

  lemma {:induction false} OneMoreCode(sizes: seq<nat>, codes: seq<nat>, p: nat, si: nat, code: nat)
    requires p < |sizes| == |codes| && sizes[p] == si
    requires InOrder(sizes, codes, p) && AllPrecede(sizes, codes, p, si, code)
    ensures var r := codes[p := code]; InOrder(sizes, r, p + 1) && AllPrecede(sizes, r, p + 1, si, code + 1)
  {
  }

  lemma {:induction false} NextLength(sizes: seq<nat>, codes: seq<nat>, p0: nat, p: nat, si: nat, code: nat)
    requires p0 <= p <= |sizes| == |codes| && AllPrecede(sizes, codes, p, si, code) && code < Shl(1, si)
    requires Spared(sizes, codes, p0) && forall q :: p0 <= q < p ==> sizes[q] == si
    ensures AllPrecede(sizes, codes, p, si + 1, 2 * code) && Spared(sizes, codes, p)
  {
    forall q | p0 <= q < p ensures codes[q] + 1 < Shl(1, sizes[q]) {
      PrecedesEnd(si, codes[q], code);
    }
    forall q | 0 <= q < p ensures Precedes(sizes[q], codes[q], si + 1, 2 * code) {
      PrecedesStep(sizes[q], codes[q], si, code);
    }
  }

  /** The codes of length si. */
  method CodesOfLength(bits: seq<byte>, huffsize: array<nat>, huffcode: array<nat>, lastp: nat, p0: nat, code0: nat,
                       si: nat)
      returns (p: nat, code: nat)
    requires |bits| == 17 && huffsize.Length == huffcode.Length == 257 && lastp <= 256 && huffsize != huffcode
    requires SizesFor(bits, huffsize[..lastp], 16) && huffsize[lastp] == 0 && 1 <= si <= 16
    requires p0 == Words(bits, si - 1) <= lastp && code0 == 2 * Nodes(bits, si - 1)
    requires InOrder(huffsize[..], huffcode[..], p0) && AllPrecede(huffsize[..], huffcode[..], p0, si, code0)
    modifies huffcode
    ensures p == Words(bits, si) <= lastp && code == Nodes(bits, si)
    ensures InOrder(huffsize[..], huffcode[..], p) && AllPrecede(huffsize[..], huffcode[..], p, si, code)
    ensures forall q :: 0 <= q < p0 ==> huffcode[q] == old(huffcode[q])
    ensures forall q :: p0 <= q < p ==> huffsize[q] == si && Canonical(bits, q, si, huffcode[q])
  {
    hide InOrder, AllPrecede;
    p, code := p0, code0;
    WordsGrow(bits, si, 16);
    while huffsize[p] == si
      invariant p0 <= p <= Words(bits, si) && code == code0 + p - p0
      invariant InOrder(huffsize[..], huffcode[..], p) && AllPrecede(huffsize[..], huffcode[..], p, si, code)
      invariant forall q :: 0 <= q < p0 ==> huffcode[q] == old(huffcode[q])
      invariant forall q :: p0 <= q < p ==> huffsize[q] == si && Canonical(bits, q, si, huffcode[q])
      decreases Words(bits, si) - p
    {
      assert SizeFits(bits, p, huffsize[..lastp][p], 16);
      OneMoreCode(huffsize[..], huffcode[..], p, si, code);
      huffcode[p] := code;
      p := p + 1;
      code := code + 1;
    }
    if p < lastp {
      assert SizeFits(bits, p, huffsize[..lastp][p], 16);
      NextSize(bits, p, huffsize[p], si);
    }
  }

  /** In the lengths before si there is a code word to spare. */
  predicate Checked(bits: seq<byte>, si: nat) {
    forall n :: 1 <= n < si && n < |bits| ==> Nodes(bits, n) < Power(n)
  }

  lemma {:induction false} NothingShorter(bits: seq<byte>, si: nat)
    requires 1 <= si <= |bits| && Words(bits, si - 1) == 0
    ensures Nodes(bits, si - 1) == 0 && Checked(bits, si)
  {
    EmptyHead(bits, si - 1);
    forall n | 1 <= n < si && n < |bits| ensures Nodes(bits, n) < Power(n) {
      WordsGrow(bits, n, si - 1);
      EmptyHead(bits, n);
      PowerPositive(n);
    }
  }

  lemma {:induction false} NothingLonger(bits: seq<byte>, si: nat)
    requires |bits| == 17 && 1 <= si <= 17 && Checked(bits, si) && Words(bits, si - 1) == Words(bits, 16)
    ensures NoneAllOnes(bits)
  {
    forall n | 1 <= n <= 16 ensures Nodes(bits, n) < Power(n) {
      if n >= si {
        WordsGrow(bits, si - 1, n);
        WordsGrow(bits, n, 16);
        PowerPositive(0);
        EmptyTail(bits, si - 1, n);
      }
    }
  }

  /** Figure C.2: generate the codes themselves, and validate that the counts represent a legal Huffman code tree. */
  method Codes(bits: seq<byte>, huffsize: array<nat>, huffcode: array<nat>, lastp: nat) returns (ok: bool)
    requires |bits| == 17 && huffsize.Length == huffcode.Length == 257 && lastp <= 256 && huffsize != huffcode
    requires SizesFor(bits, huffsize[..lastp], 16) && huffsize[lastp] == 0
    modifies huffcode
    ensures ok <==> NoneAllOnes(bits)
    ensures ok ==> CodesFor(huffsize[..lastp], huffcode[..lastp])
    ensures ok ==> AllCanonical(bits, huffsize[..lastp], huffcode[..lastp], lastp)
  {
    hide InOrder, AllPrecede, Canonical, AllCanonical, Spared, NoneAllOnes, Checked, Nodes, Words, Shl;
    var code: nat, si: nat, p: nat := 0, huffsize[0], 0;
    CodesStart(bits, huffsize[..], huffcode[..], lastp);
    NoneCanonical(bits, huffsize[..], huffcode[..]);
    while huffsize[p] != 0
      invariant p <= lastp && (lastp > 0 ==>
                1 <= si <= 17 && p == Words(bits, si - 1)
                && code == 2 * Nodes(bits, si - 1))
      invariant InOrder(huffsize[..], huffcode[..], p) && AllPrecede(huffsize[..], huffcode[..], p, si, code)
      invariant Spared(huffsize[..], huffcode[..], p) && AllCanonical(bits, huffsize[..], huffcode[..], p)
      invariant if lastp == 0 then NoneAllOnes(bits) else Checked(bits, si)
      decreases 17 - si
    {
      assert SizeFits(bits, p, huffsize[..lastp][p], 16);
      NextSize(bits, p, huffsize[p], si);
      ghost var p0 := p;
      assert Spared(huffsize[..], huffcode[..], p0);
      ghost var codes := huffcode[..];
      p, code := CodesOfLength(bits, huffsize, huffcode, lastp, p, code, si);
      WordsGrow(bits, si - 1, si);
      SparedStill(huffsize[..], codes, huffcode[..], p0);
      CanonicalMore(bits, huffsize[..], codes, huffcode[..], p0, p);
      CheckLength(bits, si);
      if code >= Shl(1, si) {  // it must still fit in si bits, since no code is allowed to be all ones
        return false;
      }
      NextLength(huffsize[..], huffcode[..], p0, p, si, code);
      code := code * 2;
      si := si + 1;
    }
    ok := true;
    if lastp > 0 {
      NothingLonger(bits, si);
    }
    AllInOrder(huffsize[..], huffcode[..], lastp);
    CanonicalPrefix(bits, huffsize[..], huffcode[..], lastp);
  }

  lemma {:induction false} NoneCanonical(bits: seq<byte>, sizes: seq<nat>, codes: seq<nat>)
    requires |sizes| == |codes|
    ensures AllCanonical(bits, sizes, codes, 0)
  {
  }

  lemma {:induction false} CanonicalPrefix(bits: seq<byte>, sizes: seq<nat>, codes: seq<nat>, n: nat)
    requires n <= |sizes| == |codes| && AllCanonical(bits, sizes, codes, n)
    ensures AllCanonical(bits, sizes[..n], codes[..n], n)
  {
    hide Canonical;
  }

  lemma {:induction false} CodesStart(bits: seq<byte>, sizes: seq<nat>, codes: seq<nat>, lastp: nat)
    requires |bits| == 17 && |sizes| == |codes| == 257 && lastp <= 256
    requires SizesFor(bits, sizes[..lastp], 16) && sizes[lastp] == 0
    ensures InOrder(sizes, codes, 0) && AllPrecede(sizes, codes, 0, sizes[0], 0) && Spared(sizes, codes, 0)
    ensures if lastp == 0 then NoneAllOnes(bits)
            else 1 <= sizes[0] <= 16 && Words(bits, sizes[0] - 1) == 0 && Nodes(bits, sizes[0] - 1) == 0
                 && Checked(bits, sizes[0])
  {
    if lastp == 0 {
      NothingShorter(bits, 17);
    } else {
      assert SizeFits(bits, 0, sizes[..lastp][0], 16);
      NothingShorter(bits, sizes[0]);
    }
  }

  lemma {:induction false} SparedStill(sizes: seq<nat>, was: seq<nat>, codes: seq<nat>, p: nat)
    requires p <= |sizes| == |was| == |codes| && Spared(sizes, was, p) && forall q :: 0 <= q < p ==> codes[q] == was[q]
    ensures Spared(sizes, codes, p)
  {
  }

  lemma {:induction false} CheckLength(bits: seq<byte>, si: nat)
    requires |bits| == 17 && 1 <= si <= 16 && Checked(bits, si)
    ensures Nodes(bits, si) < Shl(1, si) <==> Checked(bits, si + 1)
    ensures Nodes(bits, si) >= Shl(1, si) ==> !NoneAllOnes(bits)
  {
  }

  lemma {:induction false} AllInOrder(sizes: seq<nat>, codes: seq<nat>, n: nat)
    requires n <= |sizes| == |codes| && InOrder(sizes, codes, n) && Spared(sizes, codes, n)
    ensures CodesFor(sizes[..n], codes[..n])
  {
  }

  /** Neither of two code words is the beginning of the other. */
  lemma {:induction false} Apart(m: nat, v: nat, n: nat, w: nat)
    requires Precedes(m, v, n, w) && v + 1 < Shl(1, m) && w < Shl(1, n)
    ensures !(BitsOf(v, m) <= BitsOf(w, n)) && !(BitsOf(w, n) <= BitsOf(v, m))
  {
    var d := n - m;
    FirstBits(w, m, d);
    ShrAtLeast(w, v + 1, d);
    ShrBelow(w, m, d);
    if BitsOf(v, m) == BitsOf(Shr(w, d), m) {
      Injective(v, Shr(w, d), m);
    }
    assert BitsOf(v, m)[..m] == BitsOf(v, m);
  }

  /** The table assigns the codes to the first n symbols of the list, and to no others. */
  ghost predicate Assigns(tbl: Derived, vals: seq<byte>, sizes: seq<nat>, codes: seq<nat>, n: nat)
    requires n <= |vals| && n <= |sizes| == |codes|
  {
    && tbl.Sized()
    && (forall q :: 0 <= q < n ==> tbl.ehufsi[vals[q]] == sizes[q] && tbl.ehufco[vals[q]] == codes[q])
    && (forall s: byte :: s !in vals[..n] ==> tbl.ehufsi[s] == 0)
  }

  /** The symbol at each place of the list has the length that its place stands for. */
  predicate LengthsPlaced(tbl: Derived, bits: seq<byte>, vals: seq<byte>, n: nat)
    requires |bits| == 17 && n <= |vals| && tbl.Sized()
  {
    forall q :: 0 <= q < n ==> HuffmanTable.HasLength(bits, q, tbl.ehufsi[vals[q]])
  }

  /** The symbol at each place of the list has the code that its place stands for. */
  predicate CodesPlaced(tbl: Derived, bits: seq<byte>, vals: seq<byte>, n: nat)
    requires n <= |vals| && tbl.Sized()
  {
    forall q :: 0 <= q < n ==> Canonical(bits, q, tbl.ehufsi[vals[q]], tbl.ehufco[vals[q]])
  }

  lemma {:induction false} AssignsCanonical(tbl: Derived, bits: seq<byte>, vals: seq<byte>, sizes: seq<nat>,
                                            codes: seq<nat>)
    requires |sizes| <= |vals| && |codes| == |sizes| && Assigns(tbl, vals, sizes, codes, |sizes|)
    requires AllCanonical(bits, sizes, codes, |sizes|)
    ensures tbl.Sized() && CodesPlaced(tbl, bits, vals, |sizes|)
  {
    hide Canonical;
  }

  lemma {:induction false} AssignsGood(tbl: Derived, bits: seq<byte>, vals: seq<byte>, sizes: seq<nat>, codes: seq<nat>)
    requires |bits| == 17 && |sizes| <= |vals| && SizesFor(bits, sizes, 16) && CodesFor(sizes, codes)
    requires Assigns(tbl, vals, sizes, codes, |sizes|)
    ensures tbl.Good() && forall s: byte :: tbl.Coded(s) <==> s in vals[..|sizes|]
    ensures LengthsPlaced(tbl, bits, vals, |sizes|)
  {
    forall q | 0 <= q < |sizes| ensures HuffmanTable.HasLength(bits, q, tbl.ehufsi[vals[q]]) {
      assert SizeFits(bits, q, sizes[q], 16);
    }
    forall s: byte | s in vals[..|sizes|]
      ensures 1 <= tbl.ehufsi[s] <= 16 && tbl.ehufco[s] + 1 < Shl(1, tbl.ehufsi[s]) {
      var q :| 0 <= q < |sizes| && vals[q] == s;
      assert SizeFits(bits, q, sizes[q], 16);
    }
    forall s: byte | tbl.Coded(s) ensures tbl.Word(s) != Ones(tbl.ehufsi[s]) {
      if tbl.Word(s) == Ones(tbl.ehufsi[s]) {
        AllOnesValue(tbl.ehufco[s], tbl.ehufsi[s]);
      }
    }
    forall s: byte, t: byte | tbl.Coded(s) && tbl.Coded(t) && s != t ensures !(tbl.Word(s) <= tbl.Word(t)) {
      var q :| 0 <= q < |sizes| && vals[q] == s;
      var r :| 0 <= r < |sizes| && vals[r] == t;
      if q < r {
        Apart(sizes[q], codes[q], sizes[r], codes[r]);
      } else {
        Apart(sizes[r], codes[r], sizes[q], codes[q]);
      }
    }
  }

  lemma {:induction false} AssignOne(tbl: Derived, vals: seq<byte>, sizes: seq<nat>, codes: seq<nat>, p: nat,
                                     isDC: bool)
    requires p < |vals| && p < |sizes| == |codes| && Assigns(tbl, vals, sizes, codes, p) && LegalValues(vals, p, isDC)
    requires forall q :: 0 <= q <= p ==> sizes[q] > 0
    ensures tbl.ehufsi[vals[p]] != 0 <==> vals[p] in vals[..p]
    ensures LegalValues(vals, p + 1, isDC) <==> vals[p] <= (if isDC then 15 else 255) && tbl.ehufsi[vals[p]] == 0
    ensures tbl.ehufsi[vals[p]] == 0 ==>
              Assigns(Derived(tbl.ehufco[vals[p] := codes[p]], tbl.ehufsi[vals[p] := sizes[p]]), vals, sizes, codes,
                p + 1)
  {
    assert vals[..p + 1] == vals[..p] + [vals[p]];
  }

  lemma {:induction false} LegalBefore(vals: seq<byte>, p: nat, n: nat, isDC: bool)
    requires p <= n <= |vals| && LegalValues(vals, n, isDC)
    ensures LegalValues(vals, p, isDC)
  {
  }

  /** Figure C.3: generate encoding tables, indexed by symbol value. */
  method EncodingTables(vals: seq<byte>, huffsize: array<nat>, huffcode: array<nat>, lastp: nat, isDC: bool)
      returns (r: Result)
    requires huffsize.Length == huffcode.Length == 257 && lastp <= 256 && lastp <= |vals|
    requires forall p :: 0 <= p < lastp ==> huffsize[p] > 0
    ensures r.Ok? <==> LegalValues(vals, lastp, isDC)
    ensures r.Ok? ==> Assigns(r.tbl, vals, huffsize[..lastp], huffcode[..lastp], lastp)
  {
    hide Assigns, LegalValues;
    var ehufco := new nat[256](i => 0);
    var ehufsi := new nat[256](i => 0);
    var maxsymbol := if isDC then 15 else 255;
    ghost var sizes, codes := huffsize[..lastp], huffcode[..lastp];
    NothingAssigned(Derived(ehufco[..], ehufsi[..]), vals, sizes, codes, isDC);
    for p := 0 to lastp
      invariant LegalValues(vals, p, isDC) && Assigns(Derived(ehufco[..], ehufsi[..]), vals, sizes, codes, p)
    {
      AssignOne(Derived(ehufco[..], ehufsi[..]), vals, sizes, codes, p, isDC);
      var i := vals[p];
      if i > maxsymbol || ehufsi[i] != 0 {
        if LegalValues(vals, lastp, isDC) {
          LegalBefore(vals, p + 1, lastp, isDC);
        }
        return BadHuffTable;
      }
      ehufco[i] := huffcode[p];
      ehufsi[i] := huffsize[p];
    }
    r := Ok(Derived(ehufco[..], ehufsi[..]));
  }

  lemma {:induction false} NothingAssigned(tbl: Derived, vals: seq<byte>, sizes: seq<nat>, codes: seq<nat>, isDC: bool)
    requires tbl.Sized() && |sizes| == |codes| && forall s: byte :: tbl.ehufsi[s] == 0
    ensures Assigns(tbl, vals, sizes, codes, 0) && LegalValues(vals, 0, isDC)
  {
  }

  /** Compute the derived values for a Huffman table. The table is accepted exactly if its counts and symbols are legal;
      then its codes form a prefix code without a word of all ones. */
  method MakeDerived(t: HuffmanTable.Table, isDC: bool) returns (r: Result)
    requires |t.bits| == 17 && (Words(t.bits, 16) <= 256 ==> Words(t.bits, 16) <= |t.huffval|)
    ensures r.Ok? <==> LegalCounts(t.bits) && LegalValues(t.huffval, Words(t.bits, 16), isDC)
    ensures r.Ok? ==> r.tbl.Good() && forall s: byte :: r.tbl.Coded(s) <==> s in t.huffval[..Words(t.bits, 16)]
    ensures r.Ok? ==> LengthsPlaced(r.tbl, t.bits, t.huffval, Words(t.bits, 16))
    ensures r.Ok? ==> CodesPlaced(r.tbl, t.bits, t.huffval, Words(t.bits, 16))
  {
    hide LengthsPlaced, CodesPlaced, AllCanonical, Words, NoneAllOnes, Derived.Good, Assigns, LegalValues, CodesFor;
    var huffsize := new nat[257](i => 0);
    var lastp, ok := CodeSizes(t.bits, huffsize);
    if !ok {
      return BadHuffTable;
    }
    var huffcode := new nat[257](i => 0);
    ok := Codes(t.bits, huffsize, huffcode, lastp);
    if !ok {
      return BadHuffTable;
    }
    forall p | 0 <= p < lastp ensures huffsize[p] > 0 {
      assert SizeFits(t.bits, p, huffsize[..lastp][p], 16);
    }
    r := EncodingTables(t.huffval, huffsize, huffcode, lastp, isDC);
    if r.Ok? {
      AssignsGood(r.tbl, t.bits, t.huffval, huffsize[..lastp], huffcode[..lastp]);
      AssignsCanonical(r.tbl, t.bits, t.huffval, huffsize[..lastp], huffcode[..lastp]);
    }
  }

  /** A generated table is accepted, for DC if only DC symbols have been counted; every counted symbol has a code. */
  lemma {:induction false} GeneratedAccepted(f: Counts, t: HuffmanTable.Table, isDC: bool)
    requires HuffmanTable.GoodTable(f, t) && (isDC ==> forall s :: 16 <= s < 256 ==> f[s] == 0)
    ensures |t.bits| == 17 && Words(t.bits, 16) <= |t.huffval|
    ensures LegalCounts(t.bits) && LegalValues(t.huffval, Words(t.bits, 16), isDC)
    ensures forall s: byte :: s in t.huffval[..Words(t.bits, 16)] <==> f[s] > 0
  {
    HuffmanForest.UsedBound(f, 256);
    forall p | 0 <= p < |t.huffval| ensures f[t.huffval[p]] > 0 {
      assert t.huffval[p] in t.huffval;
    }
    assert t.huffval[..Words(t.bits, 16)] == t.huffval;
  }

  lemma {:induction false} OneLength(bits: seq<byte>, p: nat, l: nat, m: nat)
    requires |bits| == 17 && HuffmanTable.HasLength(bits, p, l) && HuffmanTable.HasLength(bits, p, m)
    ensures l == m
  {
    if l < m {
      WordsGrow(bits, l, m - 1);
    } else if m < l {
      WordsGrow(bits, m, l - 1);
    }
  }

  /** If the generated table gives symbols their best lengths, then these are the lengths of the codes derived from
      it. */
  lemma {:induction false} BestLengths(t: HuffmanTable.Table, size: Counts, tbl: Derived, s: byte)
    requires HuffmanTable.GivesLengths(t, size) && Words(t.bits, 16) == |t.huffval|
    requires tbl.Sized() && LengthsPlaced(tbl, t.bits, t.huffval, |t.huffval|) && s in t.huffval
    ensures tbl.ehufsi[s] == size[s]
  {
    hide Words;
    var p :| 0 <= p < |t.huffval| && t.huffval[p] == s;
    assert HuffmanTable.HasLength(t.bits, p, tbl.ehufsi[t.huffval[p]]);
    assert HuffmanTable.HasLength(t.bits, p, size[t.huffval[p]]);
    OneLength(t.bits, p, tbl.ehufsi[s], size[s]);
  }
}

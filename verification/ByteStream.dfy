/** Entropy-coded segments as byte strings: their value as a binary fraction, and the 0xFF stuffing around markers. */
module ByteStream {
  import opened ProbabilityTable

  /** x * 2^n, for an integer register and for a code value. */
  function Shl(x: int, n: nat): int {
    if n == 0 then x else 2 * Shl(x, n - 1)
  }

  lemma {:induction false} ShlZero(n: nat)
    ensures Shl(0, n) == 0
  {
    if n > 0 {
      ShlZero(n - 1);
    }
  }

  function Scale(x: real, n: nat): real {
    if n == 0 then x else 2.0 * Scale(x, n - 1)
  }

  lemma {:induction false} EightBits(x: int, y: real)
    ensures Shl(x, 8) == 256 * x && Scale(y, 8) == 256.0 * y
  {
    assert Shl(x, 8) == 4 * Shl(x, 6) == 16 * Shl(x, 4) == 64 * Shl(x, 2) == 256 * Shl(x, 0);
    assert Scale(y, 8) == 4.0 * Scale(y, 6) == 16.0 * Scale(y, 4) == 64.0 * Scale(y, 2) == 256.0 * Scale(y, 0);
  }

  lemma {:induction false} ShlAdd(x: int, y: int, n: nat)
    ensures Shl(x + y, n) == Shl(x, n) + Shl(y, n)
  {
    if n > 0 {
      ShlAdd(x, y, n - 1);
    }
  }

  lemma {:induction false} ShlShl(x: int, m: nat, n: nat)
    ensures Shl(Shl(x, m), n) == Shl(x, m + n)
  {
    if n > 0 {
      ShlShl(x, m, n - 1);
    }
  }

  lemma {:induction false} ShlOfNat(x: nat, n: nat)
    ensures Shl(x, n) >= x
  {
    if n > 0 {
      ShlOfNat(x, n - 1);
    }
  }

  lemma {:induction false} ShlMonotonic(x: int, y: int, n: nat)
    requires x <= y
    ensures Shl(x, n) <= Shl(y, n)
    ensures x < y ==> Shl(x, n) < Shl(y, n)
    ensures 0 <= x ==> 0 <= Shl(x, n)
  {
    if n > 0 {
      ShlMonotonic(x, y, n - 1);
    }
  }

  lemma {:induction false} ScaleAdd(x: real, y: real, n: nat)
    ensures Scale(x + y, n) == Scale(x, n) + Scale(y, n)
  {
    if n > 0 {
      ScaleAdd(x, y, n - 1);
    }
  }

  lemma {:induction false} ScaleScale(x: real, m: nat, n: nat)
    ensures Scale(Scale(x, m), n) == Scale(x, m + n)
  {
    if n > 0 {
      ScaleScale(x, m, n - 1);
    }
  }

  lemma {:induction false} ScaleOfInt(x: int, n: nat)
    ensures Scale(x as real, n) == Shl(x, n) as real
  {
    if n > 0 {
      ScaleOfInt(x, n - 1);
    }
  }

  function Fill(b: byte, n: nat): (s: seq<byte>)
    ensures |s| == n && forall i :: 0 <= i < n ==> s[i] == b
  {
    seq(n, i => b)
  }

  /** The bytes read as one big-endian number. */
  function Value(s: seq<byte>): nat {
    if s == [] then 0 else Value(s[..|s| - 1]) * 256 + s[|s| - 1]
  }

  /** The bytes read as the digits behind a binary point. */
  function Fraction(s: seq<byte>): real {
    if s == [] then 0.0 else (s[0] as real + Fraction(s[1..])) / 256.0
  }

  lemma {:induction false} FractionRange(s: seq<byte>)
    ensures 0.0 <= Fraction(s) < 1.0
  {
    if s != [] {
      FractionRange(s[1..]);
    }
  }

  /** Zero bytes at the end add nothing: this is why they can be discarded. */
  lemma {:induction false} FractionZeros(s: seq<byte>, n: nat)
    ensures Fraction(s + Fill(0, n)) == Fraction(s)
  {
    if s == [] {
      assert s + Fill(0, n) == Fill(0, n);
      if n > 0 {
        assert Fill(0, n)[1..] == [] + Fill(0, n - 1);
        FractionZeros([], n - 1);
      }
    } else {
      assert (s + Fill(0, n))[1..] == s[1..] + Fill(0, n);
      FractionZeros(s[1..], n);
    }
  }

  lemma {:induction false} ValueCons(b: byte, s: seq<byte>)
    ensures Value([b] + s) == Shl(b, 8 * |s|) + Value(s)
  {
    if s == [] {
      assert ([b] + s)[..0] == [];
    } else {
      var n := |s| - 1;
      ValueCons(b, s[..n]);
      assert ([b] + s)[..n + 1] == [b] + s[..n];
      ShlShl(b, 8 * n, 8);
      EightBits(Shl(b, 8 * n), 0.0);
    }
  }

  /** The fraction scaled to the length of the string is its integer value. */
  lemma {:induction false} FractionIsValue(s: seq<byte>)
    ensures Scale(Fraction(s), 8 * |s|) == Value(s) as real
  {
    if s != [] {
      var n := 8 * (|s| - 1);
      var d, g := s[0] as real, Fraction(s[1..]);
      FractionIsValue(s[1..]);
      assert [s[0]] + s[1..] == s;
      ValueCons(s[0], s[1..]);
      ScaleOfInt(s[0], n);
      ScaleAdd(d, g, n);
      EightBits(0, Fraction(s));
      ScaleScale(Fraction(s), 8, n);
    }
  }

  /** A carry into stacked 0xFF bytes turns them into zeros and increments the byte before them. */
  lemma {:induction false} Carry(s: seq<byte>, b: byte, n: nat)
    requires b < 0xFF
    ensures Value(s + [b] + Fill(0xFF, n)) + 1 == Value(s + [b + 1] + Fill(0, n))
  {
    var x, y := s + [b] + Fill(0xFF, n), s + [b + 1] + Fill(0, n);
    if n == 0 {
      assert x[..|s|] == s && y[..|s|] == s;
    } else {
      Carry(s, b, n - 1);
      assert x[..|x| - 1] == s + [b] + Fill(0xFF, n - 1);
      assert y[..|y| - 1] == s + [b + 1] + Fill(0, n - 1);
    }
  }

  /** A string of 0xFF bytes is one less than a power of 256: nothing is left to carry into. */
  lemma {:induction false} AllOnes(n: nat)
    ensures Value(Fill(0xFF, n)) + 1 == Shl(1, 8 * n)
  {
    if n > 0 {
      assert Fill(0xFF, n)[..n - 1] == Fill(0xFF, n - 1);
      AllOnes(n - 1);
      ShlShl(1, 8 * (n - 1), 8);
      EightBits(Shl(1, 8 * (n - 1)), 0.0);
    }
  }

  /** No zero byte at the end. */
  predicate Trimmed(s: seq<byte>) {
    s == [] || s[|s| - 1] != 0
  }

  /** A fraction has one trimmed representation, so a code value determines the bytes of its segment. */
  lemma {:induction false} TrimmedUnique(s: seq<byte>, t: seq<byte>)
    requires Trimmed(s) && Trimmed(t) && Fraction(s) == Fraction(t)
    ensures s == t
  {
    if s == [] {
      TrimmedZero(t);
    } else if t == [] {
      TrimmedZero(s);
    } else {
      FractionRange(s[1..]);
      FractionRange(t[1..]);
      var d := (s[0] as real - t[0] as real);
      assert d == Fraction(t[1..]) - Fraction(s[1..]);
      assert -1.0 < d < 1.0;
      assert s[0] == t[0];
      TrimmedUnique(s[1..], t[1..]);
      assert s == [s[0]] + s[1..] && t == [t[0]] + t[1..];
    }
  }

  lemma {:induction false} TrimmedZero(s: seq<byte>)
    requires Trimmed(s) && Fraction(s) == 0.0
    ensures s == []
  {
    if s != [] {
      FractionRange(s[1..]);
      TrimmedZero(s[1..]);
    }
  }

  /** Data bytes as they are written: a zero byte follows every 0xFF. */
  function Stuff(s: seq<byte>): seq<byte> {
    if s == [] then [] else (if s[0] == 0xFF then [0xFF, 0] else [s[0]]) + Stuff(s[1..])
  }

  lemma {:induction false} StuffAppend(s: seq<byte>, t: seq<byte>)
    ensures Stuff(s + t) == Stuff(s) + Stuff(t)
  {
    if s == [] {
      assert s + t == t;
    } else {
      assert (s + t)[1..] == s[1..] + t;
      StuffAppend(s[1..], t);
    }
  }

  lemma {:induction false} StuffOne(b: byte)
    ensures Stuff([b]) == if b == 0xFF then [0xFF, 0] else [b]
  {
    assert Stuff([b][1..]) == [];
  }

  lemma {:induction false} StuffZeros(n: nat)
    ensures Stuff(Fill(0, n)) == Fill(0, n)
  {
    if n > 0 {
      assert Fill(0, n)[1..] == Fill(0, n - 1);
      StuffZeros(n - 1);
      assert [0] + Fill(0, n - 1) == Fill(0, n);
    }
  }

  /** The data bytes a decoder finds in its input: up to the first marker, without the stuffing.
      A source that runs dry supplies an EOI marker (jdatasrc.c). */
  function Data(input: seq<byte>): seq<byte>
    decreases |input|
  {
    if input == [] then []
    else if input[0] != 0xFF then [input[0]] + Data(input[1..])
    else DataAfterFF(input[1..])
  }

  function DataAfterFF(input: seq<byte>): seq<byte>
    decreases |input|
  {
    if input == [] then []
    else if input[0] == 0xFF then DataAfterFF(input[1..])
    else if input[0] == 0 then [0xFF] + Data(input[1..])
    else []
  }

  /** Stuffing is undone by a decoder, which stops at the marker behind the segment. */
  lemma {:induction false} DataOfStuffed(s: seq<byte>, marker: byte, rest: seq<byte>)
    requires marker != 0 && marker != 0xFF
    ensures Data(Stuff(s) + [0xFF, marker] + rest) == s
  {
    var m := [0xFF, marker] + rest;
    assert Stuff(s) + [0xFF, marker] + rest == Stuff(s) + m;
    if s == [] {
      assert Stuff(s) + m == m && m[1..][0] == marker;
    } else {
      DataOfStuffed(s[1..], marker, rest);
      assert Stuff(s[1..]) + [0xFF, marker] + rest == Stuff(s[1..]) + m;
      var x := Stuff(s) + m;
      if s[0] == 0xFF {
        assert x[1..] == [0] + (Stuff(s[1..]) + m);
        assert x[1..][1..] == Stuff(s[1..]) + m;
      } else {
        assert x[1..] == Stuff(s[1..]) + m;
      }
      assert s == [s[0]] + s[1..];
    }
  }

  /** The next marker in the input and what follows it. */
  datatype Upcoming = Upcoming(marker: byte, rest: seq<byte>)

  function NextMarker(input: seq<byte>): Upcoming
    decreases |input|
  {
    if input == [] then Upcoming(0xD9, [])
    else if input[0] != 0xFF then NextMarker(input[1..])
    else MarkerAfterFF(input[1..])
  }

  function MarkerAfterFF(input: seq<byte>): Upcoming
    decreases |input|
  {
    if input == [] then Upcoming(0xD9, [])
    else if input[0] == 0xFF then MarkerAfterFF(input[1..])
    else if input[0] == 0 then NextMarker(input[1..])
    else Upcoming(input[0], input[1..])
  }

  /** What 0xFF means in the input: any number of them and another byte are a marker, before which the data end; but
      with a zero byte they are one data byte 0xFF, and the search for a marker goes on. */
  lemma {:induction false} MarkersMean(before: seq<byte>, more: nat, b: byte, rest: seq<byte>)
    requires 0xFF !in before && b != 0xFF
    ensures var input := before + (Fill(0xFF, more + 1) + [b] + rest);
            && NextMarker(input) == (if b == 0 then NextMarker(rest) else Upcoming(b, rest))
            && Data(input) == before + if b == 0 then [0xFF] + Data(rest) else []
    decreases |before|
  {
    var tail := Fill(0xFF, more + 1) + [b] + rest;
    if before == [] {
      assert before + tail == tail && tail[1..] == Fill(0xFF, more) + [b] + rest;
      FillMeans(more, b, rest);
    } else {
      MarkersMean(before[1..], more, b, rest);
      assert (before + tail)[1..] == before[1..] + tail;
    }
  }

  lemma {:induction false} FillMeans(more: nat, b: byte, rest: seq<byte>)
    requires b != 0xFF
    ensures var input := Fill(0xFF, more) + [b] + rest;
            && MarkerAfterFF(input) == (if b == 0 then NextMarker(rest) else Upcoming(b, rest))
            && DataAfterFF(input) == if b == 0 then [0xFF] + Data(rest) else []
  {
    var input := Fill(0xFF, more) + [b] + rest;
    if more == 0 {
      assert input[1..] == rest;
    } else {
      FillMeans(more - 1, b, rest);
      assert input[1..] == Fill(0xFF, more - 1) + [b] + rest;
    }
  }

  /** No byte of a stuffed segment is taken for a marker. */
  lemma {:induction false} MarkerBehindStuffed(s: seq<byte>, marker: byte, rest: seq<byte>)
    requires marker != 0 && marker != 0xFF
    ensures NextMarker(Stuff(s) + [0xFF, marker] + rest) == Upcoming(marker, rest)
  {
    var m := [0xFF, marker] + rest;
    assert Stuff(s) + [0xFF, marker] + rest == Stuff(s) + m;
    if s == [] {
      assert Stuff(s) + m == m && m[1..][0] == marker && m[1..][1..] == rest;
    } else {
      MarkerBehindStuffed(s[1..], marker, rest);
      assert Stuff(s[1..]) + [0xFF, marker] + rest == Stuff(s[1..]) + m;
      var x := Stuff(s) + m;
      if s[0] == 0xFF {
        assert x[1..] == [0] + (Stuff(s[1..]) + m);
        assert x[1..][1..] == Stuff(s[1..]) + m;
      } else {
        assert x[1..] == Stuff(s[1..]) + m;
      }
    }
  }

  /** A stuffed segment can end in a zero byte only behind an 0xFF. */
  lemma {:induction false} StuffTrimmed(s: seq<byte>)
    requires Trimmed(s) && s != []
    ensures Stuff(s) != []
    ensures var w := Stuff(s); w[|w| - 1] == 0 ==> |w| > 1 && w[|w| - 2] == 0xFF
  {
    var n := |s| - 1;
    assert s == s[..n] + [s[n]];
    StuffAppend(s[..n], [s[n]]);
    StuffOne(s[n]);
  }
}

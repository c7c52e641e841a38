/** Packing code bits into bytes (jchuff.c, emit_bits_s), with a destination that may refuse to be emptied. */
module BitWriter {
  import opened ProbabilityTable
  import opened ByteStream
  import opened CoefficientModel
  import opened BitString

  // What is written for a string of bits: complete bytes, and the bits left over

  function Octets(bits: Bits): seq<byte>
    decreases |bits|
  {
    if |bits| < 8 then [] else [ByteOf(bits[..8])] + Octets(bits[8..])
  }

  function Left(bits: Bits): (r: Bits)
    ensures |r| < 8
    decreases |bits|
  {
    if |bits| < 8 then bits else Left(bits[8..])
  }

  function ValueOf(bits: Bits): nat {
    if bits == [] then 0 else 2 * ValueOf(bits[..|bits| - 1]) + bits[|bits| - 1]
  }

  lemma {:induction false} ValueBound(bits: Bits)
    ensures ValueOf(bits) < Shl(1, |bits|)
  {
    if bits != [] {
      ValueBound(bits[..|bits| - 1]);
    }
  }

  function ByteOf(bits: Bits): byte
    requires |bits| == 8
  {
    ValueBound(bits);
    EightBits(1, 0.0);
    ValueOf(bits)
  }

  lemma {:induction false} BitsOfValue(bits: Bits)
    ensures BitsOf(ValueOf(bits), |bits|) == bits
  {
    if bits != [] {
      BitsOfValue(bits[..|bits| - 1]);
    }
  }

  lemma {:induction false} ValueOfBits(v: int, n: nat)
    requires 0 <= v < Shl(1, n)
    ensures ValueOf(BitsOf(v, n)) == v
  {
    BitsOfValue(BitsOf(v, n));
    ValueBound(BitsOf(v, n));
    Injective(ValueOf(BitsOf(v, n)), v, n);
  }

  /** Writing more bits completes the bytes that were left over. */
  lemma {:induction false} WriteMore(x: Bits, y: Bits)
    ensures Octets(x + y) == Octets(x) + Octets(Left(x) + y) && Left(x + y) == Left(Left(x) + y)
    decreases |x|
  {
    if |x| >= 8 {
      WriteMore(x[8..], y);
      assert (x + y)[..8] == x[..8] && (x + y)[8..] == x[8..] + y;
    }
  }

  /** All bits, whether in bytes or left over, are those that have been written. */
  lemma {:induction false} NothingLost(bits: Bits)
    ensures BitsOfBytes(Octets(bits)) + Left(bits) == bits
    decreases |bits|
  {
    hide BitsOf, ValueOf, BitsOfBytes;
    BitsOfNone();
    if |bits| >= 8 {
      NothingLost(bits[8..]);
      BitsOfValue(bits[..8]);
      BytesCons(ByteOf(bits[..8]), Octets(bits[8..]));
      assert bits == bits[..8] + bits[8..];
    }
  }

  lemma {:induction false} BytesCons(b: byte, s: seq<byte>)
    ensures BitsOfBytes([b] + s) == BitsOf(b, 8) + BitsOfBytes(s)
  {
    hide BitsOf, BitsOfBytes;
    if s == [] {
      assert [b] + s == [] + [b];
      BitsOfSnoc([], b);
      BitsOfNone();
    } else {
      var n := |s| - 1;
      assert [b] + s == ([b] + s[..n]) + [s[n]] && s == s[..n] + [s[n]];
      BitsOfSnoc([b] + s[..n], s[n]);
      BitsOfSnoc(s[..n], s[n]);
      BytesCons(b, s[..n]);
    }
  }

  lemma {:induction false} BitsOfNone()
    ensures BitsOfBytes([]) == []
  {
  }

  /** The output, the room left in a buffer that cannot be emptied, and the bits not yet in a byte. */
  datatype Written = Written(out: seq<byte>, room: nat, pending: Bits)

  function ByteCount(w: Written, bits: Bits): nat {
    |Stuff(Octets(w.pending + bits))|
  }

  function Write(w: Written, bits: Bits, suspends: bool): Written
    requires Fits(w, bits, suspends)
  {
    Written(w.out + Stuff(Octets(w.pending + bits)), if suspends then w.room - ByteCount(w, bits) else w.room,
            Left(w.pending + bits))
  }

  /** The buffer does not become full: it counts as full when its last byte is written. */
  predicate Fits(w: Written, bits: Bits, suspends: bool) {
    suspends ==> ByteCount(w, bits) < w.room
  }

  lemma {:induction false} WriteTwice(w: Written, x: Bits, y: Bits, suspends: bool)
    ensures Fits(w, x, suspends) && Fits(Write(w, x, suspends), y, suspends) <==> Fits(w, x + y, suspends)
    ensures Fits(w, x + y, suspends) ==> Write(Write(w, x, suspends), y, suspends) == Write(w, x + y, suspends)
  {
    CountAdds(w, x, y);
    hide Octets, Left, Stuff;
  }

  lemma {:induction false} CountAdds(w: Written, x: Bits, y: Bits)
    ensures var p, q := w.pending + x, Left(w.pending + x) + y;
            && Stuff(Octets(w.pending + (x + y))) == Stuff(Octets(p)) + Stuff(Octets(q))
            && Left(w.pending + (x + y)) == Left(q)
            && |Stuff(Octets(w.pending + (x + y)))| == |Stuff(Octets(p))| + |Stuff(Octets(q))|
  {
    hide Octets, Left, Stuff;
    var p := w.pending;
    WriteMore(p + x, y);
    assert p + (x + y) == p + x + y;
    StuffAppend(Octets(p + x), Octets(Left(p + x) + y));
  }

  // The bit buffer: 24 bits, the valid ones left-justified

  const TOP := 0x1000000

  /** n bits of value v, left-justified in 24 bits. */
  predicate Justified(low: int, v: int, n: nat) {
    n <= 24 && 0 <= v < Shl(1, n) && low == Shl(v, 24 - n)
  }

  lemma {:induction false} Powers24()
    ensures Shl(1, 24) == TOP && Shl(1, 16) == 0x10000 && Shl(1, 8) == 0x100
  {
    EightBits(1, 0.0);
    EightBits(0x100, 0.0);
    EightBits(0x10000, 0.0);
    ShlShl(1, 8, 8);
    ShlShl(1, 16, 8);
  }

  /** Incoming bits are aligned behind the old ones; no bit positions are in both. */
  lemma {:induction false} Merges(low: int, v: int, n: nat, c: int, size: nat)
    requires Justified(low, v, n) && n + size <= 24 && 0 <= c < Shl(1, size)
    ensures Justified(low + Shl(c, 24 - n - size), Shl(v, size) + c, n + size)
    ensures 0 <= low + Shl(c, 24 - n - size) < TOP
  {
    var w := Shl(v, size) + c;
    ShlAdd(Shl(v, size), c, 24 - n - size);
    ShlShl(v, size, 24 - n - size);
    ShlMonotonic(v + 1, Shl(1, n), size);
    ShlAdd(v, 1, size);
    ShlShl(1, n, size);
    ShlMonotonic(0, v, size);
    ShlZero(size);
    InBuffer(w, n + size);
  }

  lemma {:induction false} InBuffer(v: int, n: nat)
    requires n <= 24 && 0 <= v < Shl(1, n)
    ensures 0 <= Shl(v, 24 - n) < TOP
  {
    ShlMonotonic(v, Shl(1, n), 24 - n);
    ShlShl(1, n, 24 - n);
    ShlMonotonic(0, v, 24 - n);
    ShlZero(24 - n);
    Powers24();
  }

  lemma {:induction false} UpperByte(v: int, n: nat)
    requires 8 <= n <= 24 && 0 <= v < Shl(1, n)
    ensures var b, w := Shr(v, n - 8), v - Shl(Shr(v, n - 8), n - 8);
            && 0 <= b < 0x100 && 0 <= w < Shl(1, n - 8) && BitsOf(v, n) == BitsOf(b, 8) + BitsOf(w, n - 8)
  {
    var b, w := Shr(v, n - 8), v - Shl(Shr(v, n - 8), n - 8);
    hide BitsOf, Shl, Shr;
    var d, k := n - 8, 8;
    Truncates(v, d);
    ShlAdd(b, 1, d);
    ShrBelow(v, k, d);
    Append(b, k, w, d);
    EightBits(1, 0.0);
  }

  lemma {:induction false} LowerBits(b: int, w: int, n: nat)
    requires 8 <= n <= 24 && 0 <= w < Shl(1, n - 8)
    ensures var rest := Shl(w, 24 - n);
            && Shl(Shl(b, n - 8) + w, 24 - n) == 0x10000 * b + rest && 0 <= rest < 0x10000
            && 0x100 * rest == Shl(w, 32 - n)
  {
    hide Shl;
    var rest := Shl(w, 24 - n);
    ShlAdd(Shl(b, n - 8), w, 24 - n);
    ShlShl(b, n - 8, 24 - n);
    SixteenBits(b);
    Powers24();
    ShlMonotonic(w, Shl(1, n - 8), 24 - n);
    ShlShl(1, n - 8, 24 - n);
    ShlMonotonic(0, w, 24 - n);
    ShlZero(24 - n);
    EightBits(rest, 0.0);
    ShlShl(w, 24 - n, 8);
  }

  /** The upper byte leaves the buffer. */
  lemma {:induction false} Shifts(low: int, v: int, n: nat)
    requires Justified(low, v, n) && n >= 8
    ensures var b, w := Shr(v, n - 8), v - Shl(Shr(v, n - 8), n - 8);
            && 0 <= b < 0x100 && low / 0x10000 == b
            && Justified(low * 0x100 % TOP, w, n - 8)
            && BitsOf(v, n) == BitsOf(b, 8) + BitsOf(w, n - 8)
  {
    hide BitsOf, Shl, Shr;
    var b, w := Shr(v, n - 8), v - Shl(Shr(v, n - 8), n - 8);
    UpperByte(v, n);
    LowerBits(b, w, n);
    ByteOut(b, Shl(w, 24 - n));
  }

  lemma {:induction false} SixteenBits(b: int)
    ensures Shl(b, 16) == 0x10000 * b
  {
    EightBits(b, 0.0);
    EightBits(Shl(b, 8), 0.0);
    ShlShl(b, 8, 8);
  }

  lemma {:induction false} ByteOut(b: int, rest: int)
    requires 0 <= b < 0x100 && 0 <= rest < 0x10000
    ensures (0x10000 * b + rest) / 0x10000 == b && (0x10000 * b + rest) * 0x100 % TOP == 0x100 * rest
  {
    assert (0x10000 * b + rest) * 0x100 == b * TOP + 0x100 * rest;
    Digits(b, 0x100 * rest, TOP);
  }

  /** v & ((1 << n) - 1): mask off any extra bits. */
  function Masked(v: int, n: nat): (r: int)
    ensures 0 <= r < Shl(1, n) && BitsOf(r, n) == BitsOf(v, n)
    decreases n
  {
    if n == 0 then 0 else 2 * Masked(v / 2, n - 1) + v % 2
  }

  /** Only the right 24 bits of the buffer are used. */
  lemma {:induction false} Wraps(x: int)
    ensures x % 0x100000000 % TOP == x % TOP
  {
    var q := x / 0x100000000;
    var y := x % 0x100000000;
    assert x == (0x100 * q + y / TOP) * TOP + y % TOP;
    Digits(0x100 * q + y / TOP, y % TOP, TOP);
  }

  datatype Outcome = Done | Suspended | MissingCode | BadCoefficient

  /** The working state while writing an MCU: the output, and the current bit buffer. */
  class WorkingState {
    const suspends: bool       // the destination refuses to be emptied
    const size: nat            // room in an empty buffer
    var out: seq<byte>
    var free: nat              // byte spaces remaining in buffer
    var putBuffer: int         // current bit-accumulation buffer
    var putBits: nat           // number of bits now in it

    constructor (suspends: bool, size: nat, out: seq<byte>, free: nat, putBuffer: int, putBits: nat)
      ensures this.suspends == suspends && this.size == size && this.out == out && this.free == free
      ensures this.putBuffer == putBuffer && this.putBits == putBits
    {
      this.suspends, this.size, this.out, this.free := suspends, size, out, free;
      this.putBuffer, this.putBits := putBuffer, putBits;
    }

    function Value(): int
      reads `putBuffer, `putBits
    {
      if putBits <= 24 then Shr(putBuffer % TOP, 24 - putBits) else 0
    }

    predicate Aligned()
      reads `putBuffer, `putBits
    {
      Justified(putBuffer % TOP, Value(), putBits)
    }

    predicate Valid()
      reads this
    {
      Aligned() && putBits <= 7 && free > 0 && size > 0
    }

    function W(): Written
      reads this
    {
      Written(out, if suspends then free else 0, BitsOf(Value(), putBits))
    }

    /** Emit a byte; false if the output must be suspended. */
    method EmitByte(val: byte) returns (ok: bool)
      requires free > 0 && size > 0
      modifies `out, `free
      ensures out == old(out) + [val]
      ensures ok ==> free > 0 && (suspends ==> free == old(free) - 1)
      ensures !ok ==> suspends && old(free) == 1
    {
      out := out + [val];
      free := free - 1;
      ok := true;
      if free == 0 {
        if suspends {
          return false;
        }
        free := size;  // the buffer has been emptied
      }
    }

    /** Emit the upper byte of the buffer, and a zero byte behind 0xFF. */
    method EmitUpperByte() returns (ok: bool, ghost b: byte)
      requires Aligned() && 8 <= putBits <= 24 && free > 0 && size > 0
      modifies `out, `free, `putBuffer, `putBits
      ensures ok ==> Aligned() && putBits == old(putBits) - 8 && free > 0 && out == old(out) + Stuff([b])
                     && old(BitsOf(Value(), putBits)) == BitsOf(b, 8) + BitsOf(Value(), putBits)
                     && (suspends ==> free == old(free) - |Stuff([b])|)
      ensures !ok ==> suspends && old(free) <= |Stuff([b])| && old(BitsOf(Value(), putBits))[..8] == BitsOf(b, 8)
    {
      hide BitsOf, Shl, Shr;
      Shifts(putBuffer % TOP, Value(), putBits);
      var c := putBuffer % TOP / 0x10000;
      b := c;
      StuffOne(c);
      ok := EmitByte(c);
      if ok && c == 0xFF {
        ok := EmitByte(0);
      }
      if !ok {
        return;
      }
      Shifted(putBuffer);
      putBuffer := putBuffer * 0x100 % 0x100000000;
      putBits := putBits - 8;
      ValueJustified(putBuffer % TOP, old(Value()) - Shl(c, putBits), putBits);
    }

    /** Emit the complete bytes of the buffer. */
    method EmitBytes() returns (ok: bool)
      requires Aligned() && putBits <= 24 && free > 0 && size > 0
      modifies this
      ensures var all := old(BitsOf(Value(), putBits));
              && (ok <==> !suspends || |Stuff(Octets(all))| < old(free))
              && (ok ==> Valid() && out == old(out) + Stuff(Octets(all)) && BitsOf(Value(), putBits) == Left(all)
                         && (suspends ==> free == old(free) - |Stuff(Octets(all))|))
    {
      hide BitsOf, Shl, Shr, Justified, Stuff;
      ghost var all := BitsOf(Value(), putBits);
      ok := true;
      while putBits >= 8
        invariant Aligned() && putBits <= 24 && free > 0 && size > 0 && ok
        invariant out + Stuff(Octets(BitsOf(Value(), putBits))) == old(out) + Stuff(Octets(all))
        invariant Left(BitsOf(Value(), putBits)) == Left(all)
        invariant suspends ==> free + |out| == old(free) + |old(out)|
        decreases putBits
      {
        ghost var before, written := BitsOf(Value(), putBits), out;
        ghost var b: byte;
        ok, b := EmitUpperByte();
        FirstOctet(before, b);
        if !ok {
          assert |written + Stuff(Octets(before))| == |old(out) + Stuff(Octets(all))|;
          return;
        }
        assert written + (Stuff([b]) + Stuff(Octets(before[8..]))) == out + Stuff(Octets(before[8..]));
      }
      StuffNone();
    }

    /** Emit some bits. */
    method EmitBits(code: int, size: nat) returns (r: Outcome)
      requires Valid() && size <= 16
      modifies this
      ensures if size == 0 then r == MissingCode && W() == old(W()) && Valid()
              else r == if Fits(old(W()), BitsOf(code, size), suspends) then Done else Suspended
      ensures r == Done ==> Valid() && W() == Write(old(W()), BitsOf(code, size), suspends)
    {
      hide BitsOf, Shl, Shr, Justified, Stuff, Octets, Left;
      if size == 0 {  // caller used an invalid Huffman table entry
        return MissingCode;
      }
      ghost var v, n, low := Value(), putBits, putBuffer % TOP;
      var c := Masked(code, size);
      Merges(low, v, n, c, size);
      Append(v, n, c, size);
      var bits := size + putBits;
      MergesHigh(putBuffer, Shl(c, 24 - bits));
      // The incoming bits are aligned where the buffer has none, so that merging is adding.
      putBuffer := Shl(c, 24 - bits) + putBuffer;
      putBits := bits;
      ValueJustified(putBuffer % TOP, Shl(v, size) + c, bits);
      var ok := EmitBytes();
      r := if ok then Done else Suspended;
    }

    /** Fill any partial byte with ones, and reset the bit buffer to empty. */
    method FlushBits() returns (r: Outcome)
      requires Valid()
      modifies this
      ensures r == if Fits(old(W()), Ones(7), suspends) then Done else Suspended
      ensures r == Done ==> Valid() && W() == Write(old(W()), Ones(7), suspends).(pending := [])
    {
      SevenOnes();
      r := EmitBits(0x7F, 7);
      if r == Done {
        putBuffer := 0;
        putBits := 0;
        EmptyBuffer();
      }
    }
  }

  lemma {:induction false} EmptyBuffer()
    ensures Shr(0 % TOP, 24) == 0 && Justified(0 % TOP, 0, 0) && BitsOf(0, 0) == []
  {
    ShlZero(24);
    ShrShl(0, 24);
  }

  lemma {:induction false} MergesHigh(x: int, y: int)
    requires 0 <= x % TOP + y < TOP
    ensures (y + x) % TOP == x % TOP + y
  {
    var q, r := x / TOP, x % TOP;
    assert y + x == q * TOP + (r + y);
    Digits(q, r + y, TOP);
  }

  lemma {:induction false} SevenOnes()
    ensures BitsOf(0x7F, 7) == Ones(7)
  {
    assert BitsOf(1, 1) == BitsOf(0, 0) + [1];
    assert BitsOf(3, 2) == BitsOf(1, 1) + [1];
    assert BitsOf(7, 3) == BitsOf(3, 2) + [1];
    assert BitsOf(15, 4) == BitsOf(7, 3) + [1];
    assert BitsOf(31, 5) == BitsOf(15, 4) + [1];
    assert BitsOf(63, 6) == BitsOf(31, 5) + [1];
    assert BitsOf(127, 7) == BitsOf(63, 6) + [1];
  }

  lemma {:induction false} StuffNone()
    ensures Stuff([]) == []
  {
  }

  lemma {:induction false} FirstOctet(bits: Bits, b: byte)
    requires |bits| >= 8 && bits[..8] == BitsOf(b, 8)
    ensures Stuff(Octets(bits)) == Stuff([b]) + Stuff(Octets(bits[8..])) && Left(bits) == Left(bits[8..])
  {
    Powers24();
    ValueOfBits(b, 8);
    StuffAppend([b], Octets(bits[8..]));
  }

  lemma {:induction false} Shifted(x: int)
    ensures x * 0x100 % 0x100000000 % TOP == x % TOP * 0x100 % TOP
  {
    Wraps(x * 0x100);
    var q, r := x / TOP, x % TOP;
    assert x * 0x100 == (q * 0x100) * TOP + r * 0x100;
    var k, l := r * 0x100 / TOP, r * 0x100 % TOP;
    assert x * 0x100 == (q * 0x100 + k) * TOP + l;
    Digits(q * 0x100 + k, l, TOP);
  }

  lemma {:induction false} ValueJustified(low: int, v: int, n: nat)
    requires Justified(low, v, n)
    ensures Shr(low, 24 - n) == v
  {
    ShrShl(v, 24 - n);
  }
}

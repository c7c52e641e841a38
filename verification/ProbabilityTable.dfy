/** The probability estimation table (jaricom.c), shared by the arithmetic encoder and decoder. */
module ProbabilityTable {

  type byte = x: int | 0 <= x < 256

  type bit = x: int | 0 <= x < 2

  type Index = i: int | 0 <= i < 114

  /** One line of Table D.3 of ITU-T T.81. */
  datatype Entry = Entry(qe: int, nextLps: Index, nextMps: Index, switchMps: bit)

  /** A statistics bin: the sense of the more probable symbol and an index into the table. */
  datatype Bin = Bin(mps: bit, index: Index)

  /** What the coding routines need of the table: Qe is positive and well below 0x8000, and the last entry, for a fixed
      probability of 0.5, leads to itself. */
  type AriTable = t: seq<Entry> |
      && |t| == 114 && (forall i :: 0 <= i < 114 ==> 1 <= t[i].qe <= 0x5B12)
      && t[FIXED_ENTRY].nextLps == t[FIXED_ENTRY].nextMps == FIXED_ENTRY && t[FIXED_ENTRY].switchMps == 0
    witness seq(114, i => Entry(1, FIXED_ENTRY, FIXED_ENTRY, 0))

  const FIXED_ENTRY: Index := 113

  function Qe(t: AriTable, b: Bin): int {
    t[b.index].qe
  }

  /** Estimate_after_LPS: the entry may ask for an exchange of the sense. */
  function AfterLps(t: AriTable, b: Bin): Bin {
    var e := t[b.index];
    Bin(if e.switchMps == 1 then 1 - b.mps else b.mps, e.nextLps)
  }

  /** Estimate_after_MPS. */
  function AfterMps(t: AriTable, b: Bin): Bin {
    Bin(b.mps, t[b.index].nextMps)
  }

  // The compact representation: an entry in one INT32, a bin in one byte.

  /** The macro V of jaricom.c. */
  function Pack(e: Entry): int {
    e.qe * 0x10000 + e.nextMps * 0x100 + e.switchMps * 0x80 + e.nextLps
  }

  function PackBin(b: Bin): byte {
    b.mps * 0x80 + b.index
  }

  /** Exclusive or of a byte whose low bits are clear with another byte. */
  function XorHigh(high: byte, x: byte): int {
    (high / 0x80 + x / 0x80) % 2 * 0x80 + x % 0x80
  }

  /** The bytes and the rest of a packed entry. */
  lemma {:induction false} UnpacksEntry(e: Entry)
    ensures Pack(e) % 0x100 == e.switchMps * 0x80 + e.nextLps
    ensures Pack(e) / 0x100 % 0x100 == e.nextMps && Pack(e) / 0x100 / 0x100 == e.qe
  {
    var nl, q := e.switchMps * 0x80 + e.nextLps, e.qe * 0x100 + e.nextMps;
    assert Pack(e) == q * 0x100 + nl;
    Digits(q, nl, 0x100);
    Digits(e.qe, e.nextMps, 0x100);
  }

  lemma {:induction false} UnpacksByte(high: bit, low: Index)
    ensures (high * 0x80 + low) / 0x80 == high && (high * 0x80 + low) % 0x80 == low
  {
    Digits(high, low, 0x80);
  }

  /** Exclusive or with the sense moves on to the next index, and changes the sense if its bit is set. */
  lemma {:induction false} XorSense(mps: bit, switch: bit, next: Index)
    ensures XorHigh(mps * 0x80, switch * 0x80 + next) == PackBin(Bin(if switch == 1 then 1 - mps else mps, next))
  {
    UnpacksByte(mps, 0);
    UnpacksByte(switch, next);
  }

  /** Working on the bytes as the coding routines do leads to the successors of the bin. */
  lemma {:induction false} Successors(t: AriTable, b: Bin)
    ensures XorHigh(b.mps * 0x80, Pack(t[b.index]) % 0x100) == PackBin(AfterLps(t, b))
    ensures XorHigh(b.mps * 0x80, Pack(t[b.index]) / 0x100 % 0x100) == PackBin(AfterMps(t, b))
  {
    var e := t[b.index];
    hide XorHigh, PackBin, Pack;
    UnpacksEntry(e);
    XorSense(b.mps, e.switchMps, e.nextLps);
    XorSense(b.mps, 0, e.nextMps);
  }

  lemma {:induction false} Digits(q: int, r: int, b: int)
    requires 0 <= r < b
    ensures (q * b + r) / b == q && (q * b + r) % b == r
  {
    var n := q * b + r;
    var k := n / b - q;
    assert b * k == r - n % b by {
      assert n == b * (n / b) + n % b;
    }
    AtLeastOneMultiple(b, k);
  }

  lemma {:induction false} AtLeastOneMultiple(b: int, k: int)
    requires b > 0
    ensures k >= 1 ==> b * k >= b
    ensures k <= -1 ==> b * k <= -b
  {
  }

  // Table D.3 by index, with the fixed-probability entry of T.851 last.

  function Rows0(): (t: seq<Entry>)
    ensures |t| == 19 && forall i :: 0 <= i < 19 ==> 1 <= t[i].qe <= 0x5B12
  {
    [
      Entry(0x5a1d, 1, 1, 1), Entry(0x2586, 14, 2, 0), Entry(0x1114, 16, 3, 0),
      Entry(0x080b, 18, 4, 0), Entry(0x03d8, 20, 5, 0), Entry(0x01da, 23, 6, 0),
      Entry(0x00e5, 25, 7, 0), Entry(0x006f, 28, 8, 0), Entry(0x0036, 30, 9, 0),
      Entry(0x001a, 33, 10, 0), Entry(0x000d, 35, 11, 0), Entry(0x0006, 9, 12, 0),
      Entry(0x0003, 10, 13, 0), Entry(0x0001, 12, 13, 0), Entry(0x5a7f, 15, 15, 1),
      Entry(0x3f25, 36, 16, 0), Entry(0x2cf2, 38, 17, 0), Entry(0x207c, 39, 18, 0),
      Entry(0x17b9, 40, 19, 0)
    ]
  }

  function Rows19(): (t: seq<Entry>)
    ensures |t| == 19 && forall i :: 0 <= i < 19 ==> 1 <= t[i].qe <= 0x5B12
  {
    [
      Entry(0x1182, 42, 20, 0), Entry(0x0cef, 43, 21, 0), Entry(0x09a1, 45, 22, 0),
      Entry(0x072f, 46, 23, 0), Entry(0x055c, 48, 24, 0), Entry(0x0406, 49, 25, 0),
      Entry(0x0303, 51, 26, 0), Entry(0x0240, 52, 27, 0), Entry(0x01b1, 54, 28, 0),
      Entry(0x0144, 56, 29, 0), Entry(0x00f5, 57, 30, 0), Entry(0x00b7, 59, 31, 0),
      Entry(0x008a, 60, 32, 0), Entry(0x0068, 62, 33, 0), Entry(0x004e, 63, 34, 0),
      Entry(0x003b, 32, 35, 0), Entry(0x002c, 33, 9, 0), Entry(0x5ae1, 37, 37, 1),
      Entry(0x484c, 64, 38, 0)
    ]
  }

  function Rows38(): (t: seq<Entry>)
    ensures |t| == 19 && forall i :: 0 <= i < 19 ==> 1 <= t[i].qe <= 0x5B12
  {
    [
      Entry(0x3a0d, 65, 39, 0), Entry(0x2ef1, 67, 40, 0), Entry(0x261f, 68, 41, 0),
      Entry(0x1f33, 69, 42, 0), Entry(0x19a8, 70, 43, 0), Entry(0x1518, 72, 44, 0),
      Entry(0x1177, 73, 45, 0), Entry(0x0e74, 74, 46, 0), Entry(0x0bfb, 75, 47, 0),
      Entry(0x09f8, 77, 48, 0), Entry(0x0861, 78, 49, 0), Entry(0x0706, 79, 50, 0),
      Entry(0x05cd, 48, 51, 0), Entry(0x04de, 50, 52, 0), Entry(0x040f, 50, 53, 0),
      Entry(0x0363, 51, 54, 0), Entry(0x02d4, 52, 55, 0), Entry(0x025c, 53, 56, 0),
      Entry(0x01f8, 54, 57, 0)
    ]
  }

  function Rows57(): (t: seq<Entry>)
    ensures |t| == 19 && forall i :: 0 <= i < 19 ==> 1 <= t[i].qe <= 0x5B12
  {
    [
      Entry(0x01a4, 55, 58, 0), Entry(0x0160, 56, 59, 0), Entry(0x0125, 57, 60, 0),
      Entry(0x00f6, 58, 61, 0), Entry(0x00cb, 59, 62, 0), Entry(0x00ab, 61, 63, 0),
      Entry(0x008f, 61, 32, 0), Entry(0x5b12, 65, 65, 1), Entry(0x4d04, 80, 66, 0),
      Entry(0x412c, 81, 67, 0), Entry(0x37d8, 82, 68, 0), Entry(0x2fe8, 83, 69, 0),
      Entry(0x293c, 84, 70, 0), Entry(0x2379, 86, 71, 0), Entry(0x1edf, 87, 72, 0),
      Entry(0x1aa9, 87, 73, 0), Entry(0x174e, 72, 74, 0), Entry(0x1424, 72, 75, 0),
      Entry(0x119c, 74, 76, 0)
    ]
  }

  function Rows76(): (t: seq<Entry>)
    ensures |t| == 19 && forall i :: 0 <= i < 19 ==> 1 <= t[i].qe <= 0x5B12
  {
    [
      Entry(0x0f6b, 74, 77, 0), Entry(0x0d51, 75, 78, 0), Entry(0x0bb6, 77, 79, 0),
      Entry(0x0a40, 77, 48, 0), Entry(0x5832, 80, 81, 1), Entry(0x4d1c, 88, 82, 0),
      Entry(0x438e, 89, 83, 0), Entry(0x3bdd, 90, 84, 0), Entry(0x34ee, 91, 85, 0),
      Entry(0x2eae, 92, 86, 0), Entry(0x299a, 93, 87, 0), Entry(0x2516, 86, 71, 0),
      Entry(0x5570, 88, 89, 1), Entry(0x4ca9, 95, 90, 0), Entry(0x44d9, 96, 91, 0),
      Entry(0x3e22, 97, 92, 0), Entry(0x3824, 99, 93, 0), Entry(0x32b4, 99, 94, 0),
      Entry(0x2e17, 93, 86, 0)
    ]
  }

  function Rows95(): (t: seq<Entry>)
    ensures |t| == 19 && (forall i :: 0 <= i < 19 ==> 1 <= t[i].qe <= 0x5B12) && t[18] == Entry(0x5a1d, 113, 113, 0)
  {
    [
      Entry(0x56a8, 95, 96, 1), Entry(0x4f46, 101, 97, 0), Entry(0x47e5, 102, 98, 0),
      Entry(0x41cf, 103, 99, 0), Entry(0x3c3d, 104, 100, 0), Entry(0x375e, 99, 93, 0),
      Entry(0x5231, 105, 102, 0), Entry(0x4c0f, 106, 103, 0), Entry(0x4639, 107, 104, 0),
      Entry(0x415e, 103, 99, 0), Entry(0x5627, 105, 106, 1), Entry(0x50e7, 108, 107, 0),
      Entry(0x4b85, 109, 103, 0), Entry(0x5597, 110, 109, 0), Entry(0x504f, 111, 107, 0),
      Entry(0x5a10, 110, 111, 1), Entry(0x5522, 112, 109, 0), Entry(0x59eb, 112, 111, 1),
      Entry(0x5a1d, 113, 113, 0)
    ]
  }

  function JpegAritab(): AriTable {
    Rows0() + Rows19() + Rows38() + Rows57() + Rows76() + Rows95()
  }
}

/** The input side of the decoder's coefficient buffer controller (jdcoefct.c): the MCUs of a scan are decoded into the
    coefficient arrays. */
module CoefInput {
  import opened ImageGeometry
  import opened CoefLayout

  datatype Status = RowCompleted | ScanCompleted | Suspended

  class InputController {
    const comps: seq<Plane>
    const layout: Layout
    const wholeImage: seq<array2<DctBlock>>          // virtual block array for each component
    const merge: (DctBlock, DctBlock) -> DctBlock          // what decoding a block does to the one in the array
    const arrives: nat -> bool                    // whether all data of the MCU asked for by call n is there
    const mcus: seq<seq<DctBlock>>                   // the MCUs of the scan, as they were sent
    var inputIMcuRow: nat
    var mcuCtr: nat
    var mcuVertOffset: nat
    var mcuRowsPerIMcuRow: nat
    var calls: nat
    var taken: nat                                // MCUs decoded

    ghost const blocks: (nat, nat, nat) -> DctBlock  // the image at the sender
    ghost const start: (nat, nat, nat) -> DctBlock   // the arrays before the scan

    constructor (layout: Layout, wholeImage: seq<array2<DctBlock>>, merge: (DctBlock, DctBlock) -> DctBlock,
                 arrives: nat -> bool, mcus: seq<seq<DctBlock>>, ghost blocks: (nat, nat, nat) -> DctBlock,
                 ghost start: (nat, nat, nat) -> DctBlock)
      ensures this.layout == layout && comps == layout.comps && this.wholeImage == wholeImage && this.merge == merge
      ensures this.arrives == arrives && this.mcus == mcus && this.blocks == blocks && this.start == start && taken == 0
    {
      this.layout, this.comps, this.wholeImage, this.merge := layout, layout.comps, wholeImage, merge;
      this.arrives, this.mcus, this.blocks, this.start := arrives, mcus, blocks, start;
      taken := 0;
    }

    /** The virtual arrays have room for the dummy blocks that decoding may yield. */
    ghost predicate Buffered() {
      && layout.Sound() && layout.comps == comps && |wholeImage| == |comps|
      && (forall j, k :: 0 <= j < k < |wholeImage| ==> wholeImage[j] != wholeImage[k])
      && forall k :: 0 <= k < |layout.scan| ==>
           && wholeImage[layout.scan[k]].Length0 >= RowLimit(layout.scan[k])
           && wholeImage[layout.scan[k]].Length1 >= ColLimit(layout.scan[k])
    }

    /** The part of an array that belongs to the scan: only the image in a noninterleaved scan, whole MCUs otherwise. */
    ghost function RowLimit(c: nat): nat
      requires layout.comps == comps && c < |comps|
    {
      if |layout.scan| == 1 then comps[c].height else Times(layout.total, comps[c].v)
    }

    ghost function ColLimit(c: nat): nat
      requires layout.comps == comps && c < |comps|
    {
      Times(layout.mcusPerRow, layout.McuWidth(c))
    }

    /** The first row of an MCU. */
    ghost function Top(c: nat, i: nat, y: nat): nat
      requires layout.comps == comps && c < |comps|
    {
      Times(i, comps[c].v) + Times(y, layout.McuHeight(c))
    }

    /** The block belongs to an MCU before the one at a place. */
    ghost predicate Before(c: nat, row: nat, col: nat, i: nat, y: nat, m: nat)
      requires layout.comps == comps && c < |comps|
    {
      && c in layout.scan && row < RowLimit(c) && col < ColLimit(c)
      && (row < Top(c, i, y) || (row < Top(c, i, y) + layout.McuHeight(c) && col < Times(m, layout.McuWidth(c))))
    }

    /** A block of the array is as before the scan, or it has been decoded once. */
    ghost predicate IsAt(c: nat, row: nat, col: nat, decoded: bool)
      requires Buffered() && c < |comps| && row < wholeImage[c].Length0 && col < wholeImage[c].Length1
      requires comps[c].width > 0 && comps[c].height > 0 && comps[c].h > 0
      reads wholeImage[c]
    {
      wholeImage[c][row, col] ==
      if decoded then merge(start(c, row, col), Padded(comps, blocks, c, row, col)) else start(c, row, col)
    }

    /** In the array of a component of the scan, exactly the blocks of the MCUs before a place have been decoded. */
    ghost predicate DecodedTo(c: nat, i: nat, y: nat, m: nat)
      requires Buffered() && c < |comps| && comps[c].width > 0 && comps[c].height > 0 && comps[c].h > 0
      reads wholeImage[c]
    {
      forall row, col :: 0 <= row < wholeImage[c].Length0 && 0 <= col < wholeImage[c].Length1 ==>
        IsAt(c, row, col, Before(c, row, col, i, y, m))
    }

    /** An MCU is within the arrays. */
    lemma {:induction false} InArray(k: nat, i: nat, y: nat, yindex: nat, m: nat, xindex: nat)
      requires Buffered() && k < |layout.scan| && m < layout.mcusPerRow && i < layout.total && y < layout.McuRows(i)
      requires yindex < layout.McuHeight(layout.scan[k]) && xindex < layout.McuWidth(layout.scan[k])
      ensures Top(layout.scan[k], i, y) == Times(i, comps[layout.scan[k]].v) + y
      ensures Top(layout.scan[k], i, y) + yindex < RowLimit(layout.scan[k]) <= wholeImage[layout.scan[k]].Length0
      ensures Times(m, layout.McuWidth(layout.scan[k])) + xindex < ColLimit(layout.scan[k])
              <= wholeImage[layout.scan[k]].Length1
    {
      var c := layout.scan[k];
      layout.RowEdge(k, i, y, yindex);
      TimesNext(i, comps[c].v);
      TimesMonotonic(i + 1, layout.total, comps[c].v);
      TimesNext(m, layout.McuWidth(c));
      TimesMonotonic(m + 1, layout.mcusPerRow, layout.McuWidth(c));
    }

    /** A block of an MCU that is at row top and column left, and w wide: in one of the first n rows, or among the
        first x blocks of the next one. */
    ghost predicate InPart(row: nat, col: nat, top: nat, left: nat, w: nat, n: nat, x: nat) {
      left <= col < left + w && (top <= row < top + n || (row == top + n && col < left + x))
    }

    /** The block belongs to an MCU before a place, or to a part of the MCU at it. */
    ghost predicate Done(c: nat, row: nat, col: nat, i: nat, y: nat, m: nat, n: nat, x: nat)
      requires layout.comps == comps && c < |comps|
    {
      || Before(c, row, col, i, y, m)
      || InPart(row, col, Top(c, i, y), Times(m, layout.McuWidth(c)), layout.McuWidth(c), n, x)
    }

    /** What has been decoded in the middle of an MCU. */
    ghost predicate DecodedPart(c: nat, i: nat, y: nat, m: nat, n: nat, x: nat)
      requires Buffered() && c < |comps| && comps[c].width > 0 && comps[c].height > 0 && comps[c].h > 0
      reads wholeImage[c]
    {
      forall row, col :: 0 <= row < wholeImage[c].Length0 && 0 <= col < wholeImage[c].Length1 ==>
        IsAt(c, row, col, Done(c, row, col, i, y, m, n, x))
    }

    /** One more block of an MCU is one more block of the array. */
    lemma {:induction false} OneMore(c: nat, i: nat, y: nat, m: nat, n: nat, x: nat, row: nat, col: nat, r: nat, q: nat)
      requires layout.comps == comps && c < |comps| && x < layout.McuWidth(c)
      requires row == Top(c, i, y) + n && col == Times(m, layout.McuWidth(c)) + x
      ensures Done(c, r, q, i, y, m, n, x + 1) <==> Done(c, r, q, i, y, m, n, x) || (r == row && q == col)
      ensures !Done(c, row, col, i, y, m, n, x)
    {
      hide Top, Times;
    }

    /** After all of its rows, an MCU is before the next one. */
    lemma {:induction false} WholeMcu(k: nat, i: nat, y: nat, m: nat)
      requires Buffered() && k < |layout.scan| && m < layout.mcusPerRow && i < layout.total && y < layout.McuRows(i)
      requires DecodedPart(layout.scan[k], i, y, m, layout.McuHeight(layout.scan[k]), 0)
      ensures DecodedTo(layout.scan[k], i, y, m + 1)
    {
      var c := layout.scan[k];
      SomeSize(layout, c);
      InArray(k, i, y, layout.McuHeight(c) - 1, m, layout.McuWidth(c) - 1);
      TimesNext(m, layout.McuWidth(c));
      hide Times, Top, Padded, Layout.McuWidth, Layout.McuHeight, IsAt, Layout.Sound;
      var next := m + 1;
      forall row, col | 0 <= row < wholeImage[c].Length0 && 0 <= col < wholeImage[c].Length1
        ensures IsAt(c, row, col, Before(c, row, col, i, y, next))
      {
        assert IsAt(c, row, col, Done(c, row, col, i, y, m, layout.McuHeight(c), 0));
        assert Before(c, row, col, i, y, next) == Done(c, row, col, i, y, m, layout.McuHeight(c), 0);
      }
    }

    /** Decode one block of an MCU into the array. */
    method StoreBlock(c: nat, row: nat, col: nat, block: DctBlock, ghost i: nat, ghost y: nat, ghost m: nat,
                      ghost n: nat, ghost x: nat)
      requires Buffered() && c < |comps| && comps[c].width > 0 && comps[c].height > 0 && comps[c].h > 0
      requires row == Top(c, i, y) + n < wholeImage[c].Length0
      requires col == Times(m, layout.McuWidth(c)) + x < wholeImage[c].Length1
      requires x < layout.McuWidth(c) && block == Padded(comps, blocks, c, row, col) && DecodedPart(c, i, y, m, n, x)
      modifies wholeImage[c]
      ensures DecodedPart(c, i, y, m, n, x + 1)
    {
      hide Times, Top, Padded, Done, Layout.McuWidth;
      var arr := wholeImage[c];
      ghost var next := x + 1;
      OneMore(c, i, y, m, n, x, row, col, row, col);
      assert IsAt(c, row, col, Done(c, row, col, i, y, m, n, x));
      arr[row, col] := merge(arr[row, col], block);
      forall r, q | 0 <= r < arr.Length0 && 0 <= q < arr.Length1
        ensures IsAt(c, r, q, Done(c, r, q, i, y, m, n, next))
      {
        OneMore(c, i, y, m, n, x, row, col, r, q);
        assert old(IsAt(c, r, q, Done(c, r, q, i, y, m, n, x)));
      }
    }

    /** Decode the blocks of component k of an MCU into the array, each where its pointer leads. */
    method StoreComponent(k: nat, y: nat, m: nat, mcu: seq<DctBlock>, first: nat)
      requires Buffered() && k < |layout.scan| && m < layout.mcusPerRow && inputIMcuRow < layout.total
      requires y < layout.McuRows(inputIMcuRow) && mcu == layout.Mcu(blocks, inputIMcuRow, y, m)
               && first == layout.McuSize(k)
      requires DecodedTo(layout.scan[k], inputIMcuRow, y, m)
      modifies wholeImage[layout.scan[k]]
      ensures DecodedTo(layout.scan[k], inputIMcuRow, y, m + 1)
    {
      var c := layout.scan[k];
      var startCol, blkn := Times(m, layout.McuWidth(c)), first;
      TimesZero(layout.McuWidth(c));
      NothingYet(c, y, m);
      hide Times, Top, Padded, DecodedPart, DecodedTo, Layout.McuRows, Layout.McuWidth, Layout.McuHeight, RowLimit,
           ColLimit;
      for yindex := 0 to layout.McuHeight(c)
        invariant blkn == first + Times(yindex, layout.McuWidth(c)) && DecodedPart(c, inputIMcuRow, y, m, yindex, 0)
      {
        for xindex := 0 to layout.McuWidth(c)
          invariant blkn == first + Times(yindex, layout.McuWidth(c)) + xindex
          invariant DecodedPart(c, inputIMcuRow, y, m, yindex, xindex)
        {
          InArray(k, inputIMcuRow, y, yindex, m, xindex);
          McuAt(layout, blocks, inputIMcuRow, y, m, |layout.scan|, k, yindex, xindex);
          StoreBlock(c, Times(inputIMcuRow, comps[c].v) + y + yindex, startCol + xindex, mcu[blkn],
                     inputIMcuRow, y, m, yindex, xindex);
          blkn := blkn + 1;
        }
        TimesNext(yindex, layout.McuWidth(c));
        NextRow(c, y, m, yindex);
      }
      WholeMcu(k, inputIMcuRow, y, m);
    }

    lemma {:induction false} NothingYet(c: nat, y: nat, m: nat)
      requires Buffered() && c < |comps| && comps[c].width > 0 && comps[c].height > 0 && comps[c].h > 0
      requires DecodedTo(c, inputIMcuRow, y, m)
      ensures DecodedPart(c, inputIMcuRow, y, m, 0, 0)
    {
      hide Times, Top, Padded, Before, IsAt;
      forall row, col | 0 <= row < wholeImage[c].Length0 && 0 <= col < wholeImage[c].Length1
        ensures IsAt(c, row, col, Done(c, row, col, inputIMcuRow, y, m, 0, 0))
      {
        assert IsAt(c, row, col, Before(c, row, col, inputIMcuRow, y, m));
      }
    }

    lemma {:induction false} NextRow(c: nat, y: nat, m: nat, n: nat)
      requires Buffered() && c < |comps| && comps[c].width > 0 && comps[c].height > 0 && comps[c].h > 0
      requires DecodedPart(c, inputIMcuRow, y, m, n, layout.McuWidth(c))
      ensures DecodedPart(c, inputIMcuRow, y, m, n + 1, 0)
    {
      hide Times, Top, Padded, Before, IsAt;
      var next := n + 1;
      forall row, col | 0 <= row < wholeImage[c].Length0 && 0 <= col < wholeImage[c].Length1
        ensures IsAt(c, row, col, Done(c, row, col, inputIMcuRow, y, m, next, 0))
      {
        assert IsAt(c, row, col, Done(c, row, col, inputIMcuRow, y, m, n, layout.McuWidth(c)));
      }
    }

    /** In all arrays, exactly the blocks of the MCUs before a place have been decoded. */
    ghost predicate AllDecodedTo(i: nat, y: nat, m: nat)
      requires Buffered()
      reads wholeImage
    {
      forall c :: 0 <= c < |comps| ==> DecodedTo(c, i, y, m)
    }

    /** Two places are the same if no block tells them apart. */
    lemma {:induction false} SamePlace(c: nat, i: nat, y: nat, m: nat, i': nat, y': nat, m': nat)
      requires Buffered() && c < |comps| && DecodedTo(c, i, y, m)
      requires forall row: nat, col: nat :: Before(c, row, col, i, y, m) == Before(c, row, col, i', y', m')
      ensures DecodedTo(c, i', y', m')
    {
      hide Before, IsAt;
      forall row, col | 0 <= row < wholeImage[c].Length0 && 0 <= col < wholeImage[c].Length1
        ensures IsAt(c, row, col, Before(c, row, col, i', y', m'))
      {
        assert IsAt(c, row, col, Before(c, row, col, i, y, m));
      }
    }

    lemma {:induction false} OtherComponent(c: nat, i: nat, y: nat, m: nat, i': nat, y': nat, m': nat)
      requires Buffered() && c < |comps| && c !in layout.scan && DecodedTo(c, i, y, m)
      ensures DecodedTo(c, i', y', m')
    {
      hide IsAt;
      SamePlace(c, i, y, m, i', y', m');
    }

    /** The end of an MCU row is the start of the next one. */
    lemma {:induction false} RowDone(i: nat, y: nat)
      requires Buffered() && AllDecodedTo(i, y, layout.mcusPerRow)
      ensures AllDecodedTo(i, y + 1, 0)
    {
      var next := y + 1;
      forall c | 0 <= c < |comps|
        ensures DecodedTo(c, i, next, 0)
      {
        TimesNext(y, layout.McuHeight(c));
        TimesZero(layout.McuWidth(c));
        SamePlace(c, i, y, layout.mcusPerRow, i, next, 0);
      }
    }

    /** The end of an iMCU row is the start of the next one. */
    lemma {:induction false} IMcuRowDone(i: nat)
      requires Buffered() && i < layout.total && AllDecodedTo(i, layout.McuRows(i), 0)
      ensures AllDecodedTo(i + 1, 0, 0)
    {
      var next := i + 1;
      forall c | 0 <= c < |comps|
        ensures DecodedTo(c, next, 0, 0)
      {
        if c in layout.scan {
          var k :| 0 <= k < |layout.scan| && layout.scan[k] == c;
          EndOfStrip(k, i);
          SamePlace(c, i, layout.McuRows(i), 0, next, 0, 0);
        } else {
          OtherComponent(c, i, layout.McuRows(i), 0, next, 0, 0);
        }
      }
    }

    lemma {:induction false} EndOfStrip(k: nat, i: nat)
      requires Buffered() && k < |layout.scan| && i < layout.total
      ensures forall row: nat, col: nat :: Before(layout.scan[k], row, col, i, layout.McuRows(i), 0) ==
                                           Before(layout.scan[k], row, col, i + 1, 0, 0)
    {
      var c := layout.scan[k];
      TimesNext(i, comps[c].v);
      TimesZero(layout.McuWidth(c));
      TimesZero(layout.McuHeight(c));
      LastPartOfFilled(comps[c].height, comps[c].v, layout.total);
    }

    /** Decode one MCU into the arrays. */
    method StoreMcu(y: nat, m: nat, mcu: seq<DctBlock>)
      requires Buffered() && m < layout.mcusPerRow && inputIMcuRow < layout.total && y < layout.McuRows(inputIMcuRow)
      requires mcu == layout.Mcu(blocks, inputIMcuRow, y, m) && AllDecodedTo(inputIMcuRow, y, m)
      modifies wholeImage
      ensures AllDecodedTo(inputIMcuRow, y, m + 1)
    {
      var blkn := 0;
      ghost var next := m + 1;
      hide DecodedTo, Layout.Mcu, Layout.McuRows, Times;
      forall c | 0 <= c < |comps| && c !in layout.scan
        ensures DecodedTo(c, inputIMcuRow, y, next)
      {
        OtherComponent(c, inputIMcuRow, y, m, inputIMcuRow, y, next);
      }
      for k := 0 to |layout.scan|
        invariant blkn == layout.McuSize(k)
        invariant forall c :: 0 <= c < |comps| && c !in layout.scan ==> DecodedTo(c, inputIMcuRow, y, next)
        invariant forall j :: 0 <= j < k ==> DecodedTo(layout.scan[j], inputIMcuRow, y, next)
        invariant forall j :: k <= j < |layout.scan| ==> DecodedTo(layout.scan[j], inputIMcuRow, y, m)
      {
        StoreComponent(k, y, m, mcu, blkn);
        blkn := blkn + layout.McuHeight(layout.scan[k]) * layout.McuWidth(layout.scan[k]);
        TimesIs(layout.McuHeight(layout.scan[k]), layout.McuWidth(layout.scan[k]));
      }
    }

    /** The data is that of a scan with this layout; the counters tell a place, and exactly the MCUs before it have been
        decoded. */
    ghost predicate Valid()
      reads this, wholeImage
    {
      && Buffered() && mcus == layout.McusBefore(blocks, layout.total, 0, 0)
      && (inputIMcuRow < layout.total ==>
            && mcuRowsPerIMcuRow == layout.McuRows(inputIMcuRow)
            && mcuVertOffset < mcuRowsPerIMcuRow && mcuCtr < layout.mcusPerRow)
      && inputIMcuRow <= layout.total
      && (if inputIMcuRow < layout.total then
            && taken == |layout.McusBefore(blocks, inputIMcuRow, mcuVertOffset, mcuCtr)|
            && AllDecodedTo(inputIMcuRow, mcuVertOffset, mcuCtr)
          else taken == |mcus| && AllDecodedTo(layout.total, 0, 0))
    }

    /** Initialize for an input processing pass. */
    method StartInputPass()
      requires Buffered() && mcus == layout.McusBefore(blocks, layout.total, 0, 0) && taken == 0
      requires forall c, row, col ::
                 0 <= c < |comps| && 0 <= row < wholeImage[c].Length0 && 0 <= col < wholeImage[c].Length1 ==>
                   wholeImage[c][row, col] == start(c, row, col)
      modifies this`inputIMcuRow, this`mcuRowsPerIMcuRow, this`mcuCtr, this`mcuVertOffset
      ensures Valid() && inputIMcuRow == 0
    {
      inputIMcuRow := 0;
      StartIMcuRow();
      SomeRows(layout, 0);
    }

    /** Reset within-iMCU-row counters for a new row (input side). */
    method StartIMcuRow()
      requires Buffered()
      modifies this`mcuRowsPerIMcuRow, this`mcuCtr, this`mcuVertOffset
      ensures mcuCtr == 0 && mcuVertOffset == 0 && mcuRowsPerIMcuRow == layout.McuRows(inputIMcuRow)
    {
      if |layout.scan| > 1 {
        mcuRowsPerIMcuRow := 1;
      } else if inputIMcuRow < layout.total - 1 {
        mcuRowsPerIMcuRow := layout.comps[layout.scan[0]].v;
      } else {
        mcuRowsPerIMcuRow := layout.LastRowHeight(layout.scan[0]);
      }
      mcuCtr, mcuVertOffset := 0, 0;
    }

    /** decode_mcu: nothing happens when data is missing. */
    method DecodeMcu(y: nat, m: nat) returns (decoded: bool)
      requires Buffered() && mcus == layout.McusBefore(blocks, layout.total, 0, 0)
      requires m < layout.mcusPerRow && inputIMcuRow < layout.total && y < layout.McuRows(inputIMcuRow)
      requires taken == |layout.McusBefore(blocks, inputIMcuRow, y, m)| && AllDecodedTo(inputIMcuRow, y, m)
      modifies this`calls, this`taken, wholeImage
      ensures decoded == arrives(old(calls)) && calls == old(calls) + 1
      ensures taken == old(taken) + if decoded then 1 else 0
      ensures if decoded then
                AllDecodedTo(inputIMcuRow, y, m + 1) && taken == |layout.McusBefore(blocks, inputIMcuRow, y, m + 1)|
              else AllDecodedTo(inputIMcuRow, y, m)
    {
      decoded := arrives(calls);
      calls := calls + 1;
      if decoded {
        InOrder(layout, blocks, inputIMcuRow, y, m);
        McusNext(layout, blocks, inputIMcuRow, y, m);
        hide Layout.McusBefore, Layout.Mcu, Layout.McuRows, AllDecodedTo;
        StoreMcu(y, m, mcus[taken]);
        taken := taken + 1;
      }
    }

    /** consume_data: as much as one whole iMCU row. */
    method ConsumeData() returns (status: Status)
      requires Valid() && inputIMcuRow < layout.total
      modifies this`inputIMcuRow, this`mcuCtr, this`mcuVertOffset, this`mcuRowsPerIMcuRow, this`calls, this`taken,
               wholeImage
      ensures Valid() && inputIMcuRow == old(inputIMcuRow) + if status.Suspended? then 0 else 1
      ensures status.ScanCompleted? <==> inputIMcuRow == layout.total
      ensures status.ScanCompleted? ==> taken == |mcus| && AllDecodedTo(layout.total, 0, 0)
      ensures status.Suspended? ==> calls > old(calls) && !arrives(calls - 1)
    {
      hide Layout.Mcu, Layout.McusBefore, AllDecodedTo;
      var yoffset := mcuVertOffset;
      while yoffset < mcuRowsPerIMcuRow
        invariant Buffered() && mcus == layout.McusBefore(blocks, layout.total, 0, 0)
        invariant inputIMcuRow == old(inputIMcuRow) && mcuRowsPerIMcuRow == layout.McuRows(inputIMcuRow)
        invariant yoffset <= mcuRowsPerIMcuRow
                  && (if yoffset < mcuRowsPerIMcuRow then mcuCtr < layout.mcusPerRow else mcuCtr == 0)
        invariant taken == |layout.McusBefore(blocks, inputIMcuRow, yoffset, mcuCtr)|
        invariant AllDecodedTo(inputIMcuRow, yoffset, mcuCtr) && calls >= old(calls)
      {
        var col := mcuCtr;
        while col < layout.mcusPerRow
          invariant Buffered() && mcus == layout.McusBefore(blocks, layout.total, 0, 0)
          invariant inputIMcuRow == old(inputIMcuRow) && mcuRowsPerIMcuRow == layout.McuRows(inputIMcuRow)
          invariant mcuCtr <= col <= layout.mcusPerRow
                    && taken == |layout.McusBefore(blocks, inputIMcuRow, yoffset, col)|
          invariant AllDecodedTo(inputIMcuRow, yoffset, col) && calls >= old(calls)
        {
          var decoded := DecodeMcu(yoffset, col);
          if !decoded {
            mcuVertOffset, mcuCtr := yoffset, col;
            return Suspended;
          }
          col := col + 1;
        }
        RowDone(inputIMcuRow, yoffset);
        McusNext(layout, blocks, inputIMcuRow, yoffset, 0);
        mcuCtr := 0;
        yoffset := yoffset + 1;
      }
      IMcuRowDone(inputIMcuRow);
      McusNext(layout, blocks, inputIMcuRow, 0, 0);
      inputIMcuRow := inputIMcuRow + 1;
      if inputIMcuRow < layout.total {
        StartIMcuRow();
        SomeRows(layout, inputIMcuRow);
        return RowCompleted;
      }
      return ScanCompleted;
    }

    /** At the end of the scan, each block of the image has been decoded once, into its own place; the other
        components are as before. */
    lemma {:induction false} ScanDone(c: nat, row: nat, col: nat)
      requires Valid() && inputIMcuRow == layout.total && c < |comps|
      requires row < comps[c].height && col < comps[c].width
      requires row < wholeImage[c].Length0 && col < wholeImage[c].Length1
      ensures wholeImage[c][row, col] ==
              if c in layout.scan then merge(start(c, row, col), blocks(c, row, col)) else start(c, row, col)
    {
      assert DecodedTo(c, layout.total, 0, 0);
      assert IsAt(c, row, col, Before(c, row, col, layout.total, 0, 0));
      if c in layout.scan {
        var k :| 0 <= k < |layout.scan| && layout.scan[k] == c;
      }
    }
  }

  lemma {:induction false} TimesIs(n: nat, m: nat)
    ensures Times(n, m) == n * m
  {
  }

  lemma {:induction false} SomeSize(l: Layout, c: nat)
    requires l.Sound() && c < |l.comps|
    ensures l.McuWidth(c) > 0 && l.McuHeight(c) > 0
  {
  }
}

/** The main controller (jcmainct.c) and the scanline interface above it (jcapistd.c): however the application cuts
    up the image and whenever the compressor suspends, the coefficient controller gets the same iMCU rows. */
module MainController {
  import opened ImageGeometry
  import opened RowBuffering

  /** The row groups of one iMCU row. */
  ghost predicate IsIMcuRow<T, S>(rows: seq<seq<S>>, img: seq<T>, v: nat, context: bool, down: seq<T> -> seq<S>,
                                  size: nat, r: nat)
    requires img != [] && v > 0
  {
    |rows| == size && forall k :: 0 <= k < size ==> rows[k] == Group(img, v, context, down, Start(r, size) + k)
  }

  class Main<T(0), S> {
    const prep: Prep<T, S>
    const buffer: array<seq<S>>         // one iMCU row: min_DCT_v_scaled_size row groups
    const totalIMcuRows: nat
    const accepts: nat -> bool          // whether call n of the coefficient controller consumes the row
    var calls: nat
    var curIMcuRow: nat                 // number of current iMCU row
    var rowgroupCtr: nat                // counts row groups received in iMCU row
    var suspended: bool                 // remember if we suspended output
    var nextScanline: nat               // cinfo->next_scanline
    var sent: seq<seq<seq<S>>>          // iMCU rows consumed by the coefficient controller

    /** initial_setup's row count, and the start of a pass. */
    constructor (prep: Prep<T, S>, size: nat, blockSize: nat, accepts: nat -> bool)
      requires prep.Valid() && prep.done == 0 && prep.rowsToGo == prep.imageHeight && size > 0 && blockSize > 0
      ensures Valid() && this.prep == prep && buffer.Length == size && this.accepts == accepts && fresh(buffer)
      ensures nextScanline == 0 && curIMcuRow == 0 && totalIMcuRows > 0
      ensures prep.v * size > 0 && totalIMcuRows == DivRoundUp(prep.imageHeight, prep.v * size)
    {
      prep.Basics();
      Positive(prep.v, blockSize);
      Positive(prep.v, size);
      Positive(prep.imageHeight, blockSize);
      var jpegHeight := DivRoundUp(prep.imageHeight * blockSize, size);
      RoundUpNested(prep.imageHeight, blockSize, size, prep.v);
      this.prep, this.accepts := prep, accepts;
      totalIMcuRows := DivRoundUp(jpegHeight, prep.v * blockSize);
      buffer := new seq<S>[size];
      calls, curIMcuRow, rowgroupCtr, suspended, nextScanline, sent := 0, 0, 0, false, 0, [];
      new;
      Extent(prep.imageHeight, totalIMcuRows, size, prep.v);
    }

    /** The iMCU rows cover the image, and no iMCU row is entirely below it. */
    static lemma {:induction false} Extent(h: nat, total: nat, size: nat, v: nat)
      requires v > 0 && size > 0 && h > 0 && v * size > 0 && total == DivRoundUp(h, v * size)
      ensures total > 0 && Start(Start(total - 1, size), v) < h <= Start(Start(total, size), v)
    {
      assert total * (v * size) == total * size * v;
      assert (total - 1) * (v * size) == (total - 1) * size * v;
    }

    /** A state in the middle of a call that has used inRow scanlines. */
    ghost predicate Working(inRow: int)
      reads this, buffer, prep, prep.colorBuf, prep.rows
    {
      && prep.Valid() && prep.Apart(buffer) && prep.img != [] && prep.v > 0
      && prep.colorBuf as object != this as object && prep.rows as object != this as object
      && buffer.Length > 0 && rowgroupCtr <= buffer.Length && curIMcuRow <= totalIMcuRows && totalIMcuRows > 0
      && Start(Start(totalIMcuRows - 1, buffer.Length), prep.v) < prep.imageHeight
      && prep.imageHeight <= Start(Start(totalIMcuRows, buffer.Length), prep.v)
      && prep.done == Start(curIMcuRow, buffer.Length) + rowgroupCtr
      && prep.Groups(buffer, rowgroupCtr, Start(curIMcuRow, buffer.Length))
      && |sent| == curIMcuRow
      && (forall r :: 0 <= r < |sent| ==>
            IsIMcuRow(sent[r], prep.img, prep.v, prep.context, prep.down, buffer.Length, r))
      && nextScanline + inRow + (if suspended then 1 else 0) == prep.imageHeight - prep.rowsToGo
      && (suspended ==> rowgroupCtr == buffer.Length && curIMcuRow < totalIMcuRows)
      && (curIMcuRow == totalIMcuRows ==> rowgroupCtr == 0)
      && (!prep.context && prep.rowsToGo == 0 && rowgroupCtr < buffer.Length ==> curIMcuRow == totalIMcuRows)
    }

    /** Between calls: the application has been told of all rows consumed but one when output is suspended, and then
        there is a full iMCU row waiting; otherwise there is none. */
    ghost predicate Valid()
      reads this, buffer, prep, prep.colorBuf, prep.rows
    {
      && Working(0)
      && (!suspended && curIMcuRow < totalIMcuRows ==> rowgroupCtr < buffer.Length && prep.rowsToGo > 0)
    }

    /** The coefficient controller is always given the next iMCU row, whole. */
    method CompressData() returns (consumed: bool)
      requires rowgroupCtr == buffer.Length && prep.img != [] && prep.v > 0
      requires IsIMcuRow(buffer[..], prep.img, prep.v, prep.context, prep.down, buffer.Length, curIMcuRow)
      modifies this`calls, this`sent
      ensures consumed == accepts(old(calls)) && calls == old(calls) + 1
      ensures sent == if consumed then old(sent) + [buffer[..]] else old(sent)
    {
      consumed := accepts(calls);
      calls := calls + 1;
      if consumed {
        sent := sent + [buffer[..]];
      }
    }

    /** Read input data if we haven't filled the main buffer yet. */
    method Fill(input: seq<T>, inRowCtr: nat) returns (inRow: nat)
      requires Working(inRowCtr) && !suspended && rowgroupCtr < buffer.Length && curIMcuRow < totalIMcuRows
      requires prep.Upcoming(input, inRowCtr)
      modifies this`rowgroupCtr, prep, prep.rows, buffer
      ensures Working(inRow) && inRowCtr <= inRow && (inRow <= |input| || inRow == inRowCtr)
              && prep.Upcoming(input, inRow)
      ensures rowgroupCtr < buffer.Length ==> inRow >= |input| && prep.rowsToGo > 0
      ensures inRow == inRowCtr && old(prep.rowsToGo) > 0 ==> rowgroupCtr == old(rowgroupCtr)
    {
      ghost var first := Start(curIMcuRow, buffer.Length);
      inRow, rowgroupCtr := prep.PreProcess(input, inRowCtr, buffer, rowgroupCtr, buffer.Length, first);
    }

    /** Without context rows, the iMCU row that is full when all rows have been read is the last. */
    lemma {:induction false} LastRow(inRow: int)
      requires Working(inRow) && rowgroupCtr == buffer.Length && curIMcuRow < totalIMcuRows
      ensures !prep.context && prep.rowsToGo == 0 ==> curIMcuRow + 1 == totalIMcuRows
    {
      prep.Reached();
      if !prep.context && prep.rowsToGo == 0 {
        Only(curIMcuRow, totalIMcuRows, buffer.Length, prep.v, prep.imageHeight);
      }
    }

    static lemma {:induction false} Only(cur: nat, total: nat, size: nat, v: nat, h: nat)
      requires cur < total && Start(Start(total - 1, size), v) < h <= Start(Start(cur, size) + size, v)
      ensures cur + 1 == total
    {
      StartNext(cur, size);
      MulLess(Start(total - 1, size), Start(cur, size) + size, v);
      MulLess(total - 1, cur + 1, size);
    }

    lemma {:induction false} Bounds(inRow: int)
      requires Working(inRow)
      ensures rowgroupCtr <= buffer.Length && curIMcuRow <= totalIMcuRows
      ensures suspended ==> rowgroupCtr == buffer.Length
    {
    }

    /** Send the completed row to the compressor. When it does not take the row, pretend that the last input row is
        not yet consumed; when it does after all, undo that. */
    method Send(inRowCtr: nat) returns (consumed: bool, inRow: nat)
      requires Working(inRowCtr) && rowgroupCtr == buffer.Length && curIMcuRow < totalIMcuRows
      requires if suspended then inRowCtr == 0 else inRowCtr > 0
      modifies this`rowgroupCtr, this`curIMcuRow, this`suspended, this`calls, this`sent
      ensures Working(inRow) && old(sent) <= sent && calls == old(calls) + 1 && consumed == accepts(old(calls))
      ensures consumed ==> !suspended && inRow > 0 && curIMcuRow == old(curIMcuRow) + 1 && rowgroupCtr == 0
      ensures !consumed ==> suspended && curIMcuRow == old(curIMcuRow)
      ensures inRow == inRowCtr + (if old(suspended) then 1 else 0) - (if suspended then 1 else 0)
    {
      hide Group, Prep.Valid;
      LastRow(inRowCtr);
      hide Start;
      consumed := CompressData();
      inRow := inRowCtr;
      if !consumed {
        if !suspended {
          inRow := inRow - 1;
          suspended := true;
        }
        return;
      }
      if suspended {
        inRow := inRow + 1;
        suspended := false;
      }
      StartNext(curIMcuRow, buffer.Length);
      rowgroupCtr := 0;
      curIMcuRow := curIMcuRow + 1;
    }

    /** process_data_simple_main. */
    method ProcessData(input: seq<T>) returns (inRow: nat)
      requires Valid() && prep.Upcoming(input, if suspended then 1 else 0)
      modifies this`rowgroupCtr, this`curIMcuRow, this`suspended, this`calls, this`sent, prep, prep.rows, buffer
      ensures Working(inRow) && (inRow <= |input| || inRow == 1)
      ensures !suspended && curIMcuRow < totalIMcuRows ==>
              rowgroupCtr < buffer.Length && prep.rowsToGo > 0
              && inRow >= |input|
      ensures old(sent) <= sent
    {
      hide Working, Prep.Upcoming;
      Bounds(0);
      inRow := 0;
      while curIMcuRow < totalIMcuRows
        invariant Working(inRow) && (inRow <= |input| || inRow == 1) && old(sent) <= sent
        invariant prep.Upcoming(input, if suspended then inRow + 1 else inRow)
        invariant suspended ==> inRow == 0
        invariant !suspended && inRow == 0 && curIMcuRow < totalIMcuRows ==>
                  rowgroupCtr < buffer.Length
                  && prep.rowsToGo > 0
        decreases totalIMcuRows - curIMcuRow
      {
        Bounds(inRow);
        if rowgroupCtr < buffer.Length {
          inRow := Fill(input, inRow);
        }
        if rowgroupCtr != buffer.Length {
          return;
        }
        var consumed;
        consumed, inRow := Send(inRow);
        if !consumed {
          return;
        }
      }
    }

    /** jpeg_write_scanlines: the application goes on with the scanline after the last one reported as written. */
    method WriteScanlines(scanlines: seq<T>) returns (rowCtr: nat)
      requires Valid()
      requires forall i :: 0 <= i < |scanlines| && nextScanline + i < prep.imageHeight ==>
                 scanlines[i] == prep.img[nextScanline + i]
      modifies this, prep, prep.rows, buffer
      ensures Valid() && nextScanline == old(nextScanline) + rowCtr && (rowCtr <= |scanlines| || rowCtr == 1)
      ensures !suspended && curIMcuRow < totalIMcuRows ==> rowCtr >= |scanlines|
      ensures old(sent) <= sent
      ensures nextScanline == prep.imageHeight <==> curIMcuRow == totalIMcuRows
      ensures |sent| == curIMcuRow && forall r :: 0 <= r < |sent| ==>
                IsIMcuRow(sent[r], prep.img, prep.v, prep.context, prep.down, buffer.Length, r)
    {
      var rowsLeft := prep.imageHeight - nextScanline;
      var numLines := if |scanlines| > rowsLeft then rowsLeft else |scanlines|;
      rowCtr := ProcessData(scanlines[..numLines]);
      nextScanline := nextScanline + rowCtr;
    }
  }
}

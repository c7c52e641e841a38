/** The coefficient buffer controller (jccoefct.c): MCUs for the entropy coder, made from samples as they come or from
    coefficient arrays. */
module CoefOutput {
  import opened ImageGeometry
  import opened CoefLayout

  class CoefController {
    const comps: seq<Plane>
    const fdct: (nat, nat, nat) -> DctBlock     // forward_DCT of the block of a component at a sample row and column
    const accepts: nat -> bool               // whether the entropy coder takes the MCU offered by call n
    const wholeImage: seq<array2<DctBlock>>     // in multi-pass modes, a virtual block array for each component
    var layout: Layout                       // of the current scan
    var iMcuRowNum: nat                      // iMCU row # within image
    var mcuCtr: nat                          // counts MCUs processed in current row
    var mcuVertOffset: nat                   // counts MCU rows within iMCU row
    var mcuRowsPerIMcuRow: nat               // number of such rows needed
    var calls: nat
    var sent: seq<seq<DctBlock>>                // MCUs taken by the entropy coder

    /** The blocks of the image. */
    ghost function Blocks(): (nat, nat, nat) -> DctBlock {
      (c: nat, row: nat, col: nat) =>
        if c < |comps| then fdct(c, Times(row, comps[c].dctV), Times(col, comps[c].dctH)) else fdct(c, row, col)
    }

    ghost predicate Ready()
      reads this`layout
    {
      layout.Sound() && layout.comps == comps
    }

    /** Between two MCUs: exactly those before the place that the counters tell have been sent. */
    ghost predicate Valid()
      reads this
    {
      && Ready() && iMcuRowNum <= layout.total
      && (iMcuRowNum < layout.total ==>
            && mcuRowsPerIMcuRow == layout.McuRows(iMcuRowNum)
            && mcuVertOffset < mcuRowsPerIMcuRow && mcuCtr < layout.mcusPerRow)
      && (iMcuRowNum == layout.total ==> mcuVertOffset == 0 && mcuCtr == 0)
      && sent == layout.McusBefore(Blocks(), iMcuRowNum, mcuVertOffset, mcuCtr)
    }

    /** Reset within-iMCU-row counters for a new row. */
    method StartIMcuRow()
      requires Ready()
      modifies this`mcuRowsPerIMcuRow, this`mcuCtr, this`mcuVertOffset
      ensures mcuCtr == 0 && mcuVertOffset == 0 && mcuRowsPerIMcuRow == layout.McuRows(iMcuRowNum)
    {
      if |layout.scan| > 1 {
        mcuRowsPerIMcuRow := 1;
      } else if iMcuRowNum < layout.total - 1 {
        mcuRowsPerIMcuRow := comps[layout.scan[0]].v;
      } else {
        mcuRowsPerIMcuRow := layout.LastRowHeight(layout.scan[0]);
      }
      mcuCtr, mcuVertOffset := 0, 0;
    }

    /** Virtual arrays for all blocks and the dummy blocks around them. */
    ghost predicate Allocated()
    {
      && |wholeImage| == |comps|
      && (forall j, k :: 0 <= j < k < |wholeImage| ==> wholeImage[j] != wholeImage[k])
      && forall c :: 0 <= c < |comps| ==>
           && comps[c].h > 0 && comps[c].v > 0
           && wholeImage[c].Length0 == Times(DivRoundUp(comps[c].height, comps[c].v), comps[c].v)
           && wholeImage[c].Length1 == Columns(c)
    }

    /** jinit_c_coef_controller. */
    constructor (comps: seq<Plane>, fdct: (nat, nat, nat) -> DctBlock, accepts: nat -> bool, needFullBuffer: bool)
      requires forall c :: 0 <= c < |comps| ==> comps[c].h > 0 && comps[c].v > 0
      ensures this.comps == comps && this.fdct == fdct && this.accepts == accepts
      ensures needFullBuffer ==> Allocated()
    {
      this.comps, this.fdct, this.accepts := comps, fdct, accepts;
      var arrays: seq<array2<DctBlock>> := [];
      if needFullBuffer {
        for c := 0 to |comps|
          invariant |arrays| == c && forall j, k :: 0 <= j < k < |arrays| ==> arrays[j] != arrays[k]
          invariant forall d :: 0 <= d < c ==>
                      && arrays[d].Length0 == Times(DivRoundUp(comps[d].height, comps[d].v), comps[d].v)
                      && arrays[d].Length1 == Times(DivRoundUp(comps[d].width, comps[d].h), comps[d].h)
        {
          var rows := Times(DivRoundUp(comps[c].height, comps[c].v), comps[c].v);
          var columns := Times(DivRoundUp(comps[c].width, comps[c].h), comps[c].h);
          var fill := DctBlock(0, []);
          var whole := new DctBlock[rows, columns]((i, j) => fill);
          arrays := arrays + [whole];
        }
      }
      wholeImage := arrays;
    }

    /** Initialize for a processing pass. */
    method StartPass(layout: Layout)
      requires layout.Sound() && layout.comps == comps
      modifies this
      ensures Valid() && this.layout == layout && iMcuRowNum == 0 && sent == []
      ensures Allocated() ==> Buffered() && Loaded(0)
    {
      this.layout := layout;
      iMcuRowNum := 0;
      sent := [];
      StartIMcuRow();
      SomeRows(layout, 0);
      if Allocated() {
        Roomy();
      }
    }

    /** The arrays are large enough for any scan. */
    lemma {:induction false} Roomy()
      requires Ready() && Allocated()
      ensures Buffered() && Loaded(0)
    {
      forall c | 0 <= c < |comps|
        ensures Times(DivRoundUp(comps[c].height, comps[c].v), comps[c].v) == Times(layout.total, comps[c].v)
        ensures Times(0, comps[c].v) == 0
      {
        RoundUpUnique(comps[c].height, comps[c].v, layout.total);
      }
    }

    /** The entropy coder, which may have to suspend. */
    method EncodeMcu(mcu: seq<DctBlock>) returns (taken: bool)
      modifies this`calls, this`sent
      ensures sent == if taken then old(sent) + [mcu] else old(sent)
      ensures taken == accepts(old(calls)) && calls == old(calls) + 1
    {
      taken := accepts(calls);
      calls := calls + 1;
      if taken {
        sent := sent + [mcu];
      }
    }

    /** A horizontal row of DCT blocks, from samples of the current iMCU row. */
    method ForwardDct(c: nat, ypos: nat, xpos: nat, n: nat, ghost y: nat, ghost col: nat) returns (r: seq<DctBlock>)
      requires c < |comps| && ypos == Times(y, comps[c].dctV) && xpos == Times(col, comps[c].dctH)
      ensures |r| == n && forall x :: 0 <= x < n ==> r[x] == Blocks()(c, Times(iMcuRowNum, comps[c].v) + y, col + x)
    {
      hide Times;
      var base := Times(Times(iMcuRowNum, comps[c].v), comps[c].dctV);
      TimesAdd(Times(iMcuRowNum, comps[c].v), y, comps[c].dctV);
      r := [];
      for x := 0 to n
        invariant |r| == x
        invariant forall j :: 0 <= j < x ==> r[j] == Blocks()(c, Times(iMcuRowNum, comps[c].v) + y, col + j)
      {
        TimesAdd(col, x, comps[c].dctH);
        r := r + [fdct(c, base + ypos, xpos + Times(x, comps[c].dctH))];
      }
    }

    /** One row of the blocks of component k of an MCU: blocks from samples, dummy blocks at the right edge, or a
        whole row of dummy blocks at the bottom, as the last block so far tells. */
    method BlockRow(k: nat, y: nat, yindex: nat, m: nat, ypos: nat, xpos: nat, mcu: seq<DctBlock>, ghost row: nat,
                    ghost col: nat)
      returns (r: seq<DctBlock>)
      requires Ready() && k < |layout.scan| && m < layout.mcusPerRow && iMcuRowNum < layout.total
      requires y < layout.McuRows(iMcuRowNum) && yindex < layout.McuHeight(layout.scan[k])
      requires row == Times(iMcuRowNum, comps[layout.scan[k]].v) + y + yindex
               && col == Times(m, layout.McuWidth(layout.scan[k]))
      requires ypos == Times(y + yindex, comps[layout.scan[k]].dctV)
      requires xpos == Times(col, comps[layout.scan[k]].dctH)
      requires yindex > 0 ==>
                 mcu != [] && mcu[|mcu| - 1] ==
                 Padded(comps, Blocks(), layout.scan[k], row - 1, col + layout.McuWidth(layout.scan[k]) - 1)
      ensures r == layout.RowBlocks(Blocks(), layout.scan[k], row, col, layout.McuWidth(layout.scan[k]))
    {
      var c := layout.scan[k];
      layout.RowEdge(k, iMcuRowNum, y, yindex);
      layout.ColumnEdge(k, m, 0);
      hide LastPart, Fills, Padded, Times;
      if iMcuRowNum < layout.total - 1 || y + yindex < layout.LastRowHeight(c) {
        r := EdgeRow(k, y + yindex, m, ypos, xpos, layout.McuWidth(c), layout.BlockCount(c, m));
      } else {
        r := BottomRow(c, row, m, layout.McuWidth(c), mcu[|mcu| - 1]);
      }
    }

    /** A row that is in the image. */
    method EdgeRow(k: nat, ghost y: nat, m: nat, ypos: nat, xpos: nat, width: nat, blockcnt: nat)
        returns (r: seq<DctBlock>)
      requires Ready() && k < |layout.scan| && m < layout.mcusPerRow
      requires width == layout.McuWidth(layout.scan[k]) && 0 < blockcnt == layout.BlockCount(layout.scan[k], m) <= width
      requires ypos == Times(y, comps[layout.scan[k]].dctV)
               && xpos == Times(Times(m, width), comps[layout.scan[k]].dctH)
      requires Times(iMcuRowNum, comps[layout.scan[k]].v) + y < comps[layout.scan[k]].height
      ensures r == layout.RowBlocks(Blocks(), layout.scan[k], Times(iMcuRowNum, comps[layout.scan[k]].v) + y,
              Times(m, width), width)
    {
      var c := layout.scan[k];
      ghost var row, col := Times(iMcuRowNum, comps[c].v) + y, Times(m, width);
      hide LastPart, Fills, Padded, Layout.BlockCount, Times;
      r := ForwardDct(c, ypos, xpos, blockcnt, y, col);
      forall x | 0 <= x < blockcnt
        ensures r[x] == Padded(comps, Blocks(), c, row, col + x)
      {
        RowBlock(layout, Blocks(), k, row, m, x);
      }
      for x := blockcnt to width
        invariant |r| == x && forall j :: 0 <= j < x ==> r[j] == Padded(comps, Blocks(), c, row, col + j)
      {
        RowBlock(layout, Blocks(), k, row, m, x);
        r := r + [Dummy(r[x - 1])];
      }
    }

    /** A row of dummy blocks at the bottom of the image. */
    method BottomRow(c: nat, ghost row: nat, ghost m: nat, width: nat, previous: DctBlock) returns (r: seq<DctBlock>)
      requires layout.comps == comps && c < |comps| && comps[c].width > 0 && row >= comps[c].height > 0
      requires width == comps[c].h > 0
      requires previous == Padded(comps, Blocks(), c, row - 1, Times(m, width) + width - 1)
      ensures r == layout.RowBlocks(Blocks(), c, row, Times(m, width), width)
    {
      hide Padded, Times;
      r := [];
      for x := 0 to width
        invariant |r| == x && forall j :: 0 <= j < x ==> r[j] == Padded(comps, Blocks(), c, row, Times(m, width) + j)
      {
        BottomDummy(layout, Blocks(), c, row, m, x);
        r := r + [Dummy(previous)];
      }
    }

    /** The blocks of one component of an MCU. */
    method ComponentFromSamples(k: nat, y: nat, m: nat) returns (r: seq<DctBlock>)
      requires Ready() && k < |layout.scan| && m < layout.mcusPerRow && iMcuRowNum < layout.total
      requires y < layout.McuRows(iMcuRowNum)
      ensures r == layout.ComponentBlocks(Blocks(), layout.scan[k], iMcuRowNum, y, m, layout.McuHeight(layout.scan[k]))
    {
      var c := layout.scan[k];
      var xpos := Times(Times(m, layout.McuWidth(c)), comps[c].dctH);
      var ypos := Times(y, comps[c].dctV);
      ghost var row, col := Times(iMcuRowNum, comps[c].v) + y, Times(m, layout.McuWidth(c));
      hide Padded, Times, Layout.ComponentBlocks, Layout.McuRows, Layout.McuWidth, Layout.McuHeight;
      ComponentStart(layout, Blocks(), c, iMcuRowNum, y, m);
      r := [];
      for yindex := 0 to layout.McuHeight(c)
        invariant r == layout.ComponentBlocks(Blocks(), c, iMcuRowNum, y, m, yindex)
        invariant ypos == Times(y + yindex, comps[c].dctV)
      {
        if yindex > 0 {
          LastBlock(layout, Blocks(), c, iMcuRowNum, y, m, yindex);
        }
        var blocks := BlockRow(k, y, yindex, m, ypos, xpos, r, row + yindex, col);
        ComponentNext(layout, Blocks(), c, iMcuRowNum, y, m, yindex);
        r := r + blocks;
        ypos := ypos + comps[c].dctV;
        TimesNext(y + yindex, comps[c].dctV);
      }
    }

    /** The MCU at a place, from samples. */
    method McuFromSamples(y: nat, m: nat) returns (mcu: seq<DctBlock>)
      requires Ready() && m < layout.mcusPerRow && iMcuRowNum < layout.total && y < layout.McuRows(iMcuRowNum)
      ensures mcu == layout.Mcu(Blocks(), iMcuRowNum, y, m)
    {
      hide Layout.ComponentBlocks, Layout.McuRows;
      mcu := [];
      for k := 0 to |layout.scan|
        invariant mcu == layout.McuBlocks(Blocks(), iMcuRowNum, y, m, k)
      {
        var blocks := ComponentFromSamples(k, y, m);
        mcu := mcu + blocks;
      }
    }

    /** compress_data: as much as one whole iMCU row, from samples, in the single-pass case. */
    method CompressData() returns (completed: bool)
      requires Valid() && iMcuRowNum < layout.total
      modifies this`iMcuRowNum, this`mcuCtr, this`mcuVertOffset, this`mcuRowsPerIMcuRow, this`calls, this`sent
      ensures Valid() && iMcuRowNum == old(iMcuRowNum) + if completed then 1 else 0
      ensures completed ==> sent == layout.McusBefore(Blocks(), iMcuRowNum, 0, 0)
      ensures !completed ==> calls > old(calls) && !accepts(calls - 1)
    {
      hide Layout.Mcu, Layout.McusBefore;
      var yoffset := mcuVertOffset;
      while yoffset < mcuRowsPerIMcuRow
        invariant Ready() && iMcuRowNum == old(iMcuRowNum) && mcuRowsPerIMcuRow == layout.McuRows(iMcuRowNum)
        invariant yoffset <= mcuRowsPerIMcuRow
                  && (if yoffset < mcuRowsPerIMcuRow then mcuCtr < layout.mcusPerRow else mcuCtr == 0)
        invariant sent == layout.McusBefore(Blocks(), iMcuRowNum, yoffset, mcuCtr)
        invariant calls >= old(calls)
      {
        var col := mcuCtr;
        while col < layout.mcusPerRow
          invariant Ready() && iMcuRowNum == old(iMcuRowNum) && mcuRowsPerIMcuRow == layout.McuRows(iMcuRowNum)
          invariant mcuCtr <= col <= layout.mcusPerRow && sent == layout.McusBefore(Blocks(), iMcuRowNum, yoffset, col)
          invariant calls >= old(calls)
        {
          var mcu := McuFromSamples(yoffset, col);
          var taken := EncodeMcu(mcu);
          if !taken {
            mcuVertOffset, mcuCtr := yoffset, col;
            return false;
          }
          McusNext(layout, Blocks(), iMcuRowNum, yoffset, col);
          col := col + 1;
        }
        McusNext(layout, Blocks(), iMcuRowNum, yoffset, 0);
        mcuCtr := 0;
        yoffset := yoffset + 1;
      }
      McusNext(layout, Blocks(), iMcuRowNum, 0, 0);
      iMcuRowNum := iMcuRowNum + 1;
      StartIMcuRow();
      SomeRows(layout, iMcuRowNum);
      completed := true;
    }

    /** Columns of the virtual array of a component, which has room for the dummy blocks. */
    function Columns(c: nat): nat
      requires c < |comps| && comps[c].h > 0
    {
      Times(DivRoundUp(comps[c].width, comps[c].h), comps[c].h)
    }

    /** The virtual arrays are as large as they have to be. */
    ghost predicate Buffered()
      reads this`layout
    {
      && Ready() && |wholeImage| == |comps|
      && (forall j, k :: 0 <= j < k < |wholeImage| ==> wholeImage[j] != wholeImage[k])
      && forall c :: 0 <= c < |comps| ==>
           wholeImage[c].Length0 >= Times(layout.total, comps[c].v) && wholeImage[c].Length1 >= Columns(c)
    }

    /** The first n blocks of a row of an array are those of the padded image. */
    ghost predicate RowLoaded(c: nat, row: nat, n: nat)
      requires c < |comps| == |wholeImage| && comps[c].width > 0 && comps[c].height > 0 && comps[c].h > 0
      requires row < wholeImage[c].Length0 && n <= wholeImage[c].Length1
      reads wholeImage[c]
    {
      forall x :: 0 <= x < n ==> wholeImage[c][row, x] == Padded(comps, Blocks(), c, row, x)
    }

    /** The first rows of a component are loaded. */
    ghost predicate RowsLoaded(c: nat, rows: nat)
      requires Buffered() && c < |comps| && rows <= wholeImage[c].Length0
      reads this`layout, wholeImage[c]
    {
      forall row :: 0 <= row < rows ==> RowLoaded(c, row, Columns(c))
    }

    /** One component is loaded up to iMCU row n. */
    ghost predicate Has(c: nat, n: nat)
      requires Buffered() && c < |comps|
      reads this`layout, wholeImage[c]
    {
      Times(n, comps[c].v) <= wholeImage[c].Length0 && RowsLoaded(c, Times(n, comps[c].v))
    }

    /** The arrays hold the first n iMCU rows. */
    ghost predicate Loaded(n: nat)
      requires Buffered() && n <= layout.total
      reads this`layout, wholeImage
    {
      forall c :: 0 <= c < |comps| ==> Has(c, n)
    }

    /** An MCU of the scan is within the arrays. */
    lemma {:induction false} InArray(k: nat, y: nat, yindex: nat, m: nat, x: nat)
      requires Buffered() && k < |layout.scan| && m < layout.mcusPerRow && iMcuRowNum < layout.total
      requires y < layout.McuRows(iMcuRowNum) && yindex < layout.McuHeight(layout.scan[k])
               && x < layout.McuWidth(layout.scan[k])
      ensures Times(iMcuRowNum, comps[layout.scan[k]].v) + y + yindex < Times(iMcuRowNum + 1, comps[layout.scan[k]].v)
      ensures Times(iMcuRowNum + 1, comps[layout.scan[k]].v) <= wholeImage[layout.scan[k]].Length0
      ensures Times(m, layout.McuWidth(layout.scan[k])) + x < Columns(layout.scan[k])
              <= wholeImage[layout.scan[k]].Length1
    {
      layout.RowEdge(k, iMcuRowNum, y, yindex);
      TimesNext(iMcuRowNum, comps[layout.scan[k]].v);
      TimesMonotonic(iMcuRowNum + 1, layout.total, comps[layout.scan[k]].v);
      if |layout.scan| > 1 {
        RoundUpUnique(comps[layout.scan[k]].width, comps[layout.scan[k]].h, layout.mcusPerRow);
        TimesNext(m, comps[layout.scan[k]].h);
        TimesMonotonic(m + 1, layout.mcusPerRow, comps[layout.scan[k]].h);
      }
    }

    /** The blocks of one component of an MCU, from the virtual array. */
    method ComponentFromArray(k: nat, y: nat, m: nat) returns (r: seq<DctBlock>)
      requires Buffered() && k < |layout.scan| && m < layout.mcusPerRow && iMcuRowNum < layout.total
      requires y < layout.McuRows(iMcuRowNum) && Loaded(iMcuRowNum + 1)
      ensures r == layout.ComponentBlocks(Blocks(), layout.scan[k], iMcuRowNum, y, m, layout.McuHeight(layout.scan[k]))
    {
      hide Times, Padded, Columns, Layout.McuRows, Layout.McuWidth, Layout.McuHeight;
      var c := layout.scan[k];
      var startCol := Times(m, layout.McuWidth(c));
      r := [];
      for yindex := 0 to layout.McuHeight(c)
        invariant r == layout.ComponentBlocks(Blocks(), c, iMcuRowNum, y, m, yindex)
      {
        ghost var before := r;
        var row := Times(iMcuRowNum, comps[c].v) + y + yindex;
        for xindex := 0 to layout.McuWidth(c)
          invariant r == before + layout.RowBlocks(Blocks(), c, row, startCol, xindex)
        {
          InArray(k, y, yindex, m, xindex);
          assert Has(c, iMcuRowNum + 1);
          assert RowLoaded(c, row, Columns(c));
          r := r + [wholeImage[c][row, startCol + xindex]];
          assert layout.RowBlocks(Blocks(), c, row, startCol, xindex + 1) ==
                 layout.RowBlocks(Blocks(), c, row, startCol, xindex)
                   + [Padded(comps, Blocks(), c, row, startCol + xindex)];
        }
      }
    }

    /** The MCU at a place, from the virtual arrays. */
    method McuFromArrays(y: nat, m: nat) returns (mcu: seq<DctBlock>)
      requires Buffered() && m < layout.mcusPerRow && iMcuRowNum < layout.total
      requires y < layout.McuRows(iMcuRowNum) && Loaded(iMcuRowNum + 1)
      ensures mcu == layout.Mcu(Blocks(), iMcuRowNum, y, m)
    {
      hide Layout.ComponentBlocks, Layout.McuRows, Loaded;
      mcu := [];
      for k := 0 to |layout.scan|
        invariant mcu == layout.McuBlocks(Blocks(), iMcuRowNum, y, m, k)
      {
        var blocks := ComponentFromArray(k, y, m);
        mcu := mcu + blocks;
      }
    }

    /** compress_output: as much as one whole iMCU row, from the virtual arrays. */
    method CompressOutput() returns (completed: bool)
      requires Valid() && Buffered() && iMcuRowNum < layout.total && Loaded(iMcuRowNum + 1)
      modifies this`iMcuRowNum, this`mcuCtr, this`mcuVertOffset, this`mcuRowsPerIMcuRow, this`calls, this`sent
      ensures Valid() && iMcuRowNum == old(iMcuRowNum) + if completed then 1 else 0
      ensures completed ==> sent == layout.McusBefore(Blocks(), iMcuRowNum, 0, 0)
      ensures !completed ==> calls > old(calls) && !accepts(calls - 1)
    {
      hide Layout.Mcu, Layout.McusBefore, Loaded;
      var yoffset := mcuVertOffset;
      while yoffset < mcuRowsPerIMcuRow
        invariant Ready() && iMcuRowNum == old(iMcuRowNum) && mcuRowsPerIMcuRow == layout.McuRows(iMcuRowNum)
        invariant yoffset <= mcuRowsPerIMcuRow
                  && (if yoffset < mcuRowsPerIMcuRow then mcuCtr < layout.mcusPerRow else mcuCtr == 0)
        invariant sent == layout.McusBefore(Blocks(), iMcuRowNum, yoffset, mcuCtr)
        invariant calls >= old(calls)
      {
        var col := mcuCtr;
        while col < layout.mcusPerRow
          invariant Ready() && iMcuRowNum == old(iMcuRowNum) && mcuRowsPerIMcuRow == layout.McuRows(iMcuRowNum)
          invariant mcuCtr <= col <= layout.mcusPerRow && sent == layout.McusBefore(Blocks(), iMcuRowNum, yoffset, col)
          invariant calls >= old(calls)
        {
          var mcu := McuFromArrays(yoffset, col);
          var taken := EncodeMcu(mcu);
          if !taken {
            mcuVertOffset, mcuCtr := yoffset, col;
            return false;
          }
          McusNext(layout, Blocks(), iMcuRowNum, yoffset, col);
          col := col + 1;
        }
        McusNext(layout, Blocks(), iMcuRowNum, yoffset, 0);
        mcuCtr := 0;
        yoffset := yoffset + 1;
      }
      McusNext(layout, Blocks(), iMcuRowNum, 0, 0);
      iMcuRowNum := iMcuRowNum + 1;
      StartIMcuRow();
      SomeRows(layout, iMcuRowNum);
      completed := true;
    }

    /** A block row of the image: blocks from samples, and dummy blocks at the right edge. */
    method LoadRow(c: nat, blockRow: nat, ndummy: nat, ghost row: nat)
      requires Buffered() && c < |comps| && comps[c].width + ndummy == Columns(c)
      requires row == Times(iMcuRowNum, comps[c].v) + blockRow < comps[c].height && row < wholeImage[c].Length0
      requires RowsLoaded(c, row)
      modifies wholeImage[c]
      ensures RowsLoaded(c, row + 1)
    {
      hide Times, Columns;
      var arr := wholeImage[c];
      var width, r := comps[c].width, Times(iMcuRowNum, comps[c].v) + blockRow;
      var blocks := ForwardDct(c, Times(blockRow, comps[c].dctV), Times(0, comps[c].dctH), width, blockRow, 0);
      for x := 0 to width
        invariant RowLoaded(c, r, x)
        invariant forall q, z :: 0 <= q < r && 0 <= z < arr.Length1 ==> arr[q, z] == old(arr[q, z])
      {
        arr[r, x] := blocks[x];
      }
      var last := arr[r, width - 1];
      for x := width to width + ndummy
        invariant RowLoaded(c, r, x)
        invariant forall q, z :: 0 <= q < r && 0 <= z < arr.Length1 ==> arr[q, z] == old(arr[q, z])
      {
        RightDummy(layout, Blocks(), c, r, x);
        arr[r, x] := Dummy(last);
      }
      forall q | 0 <= q < r
        ensures RowLoaded(c, q, Columns(c))
      {
        assert old(RowLoaded(c, q, Columns(c)));
      }
    }

    /** A row of dummy blocks below the image. */
    method LoadBottomRow(c: nat, row: nat, mcusAcross: nat)
      requires Buffered() && c < |comps| && mcusAcross == DivRoundUp(comps[c].width, comps[c].h)
      requires comps[c].height <= row < wholeImage[c].Length0 && RowsLoaded(c, row)
      modifies wholeImage[c]
      ensures RowsLoaded(c, row + 1)
    {
      hide Times;
      var arr, h := wholeImage[c], comps[c].h;
      var col := 0;
      TimesZero(h);
      for index := 0 to mcusAcross
        invariant col == Times(index, h) && col <= Columns(c) && RowLoaded(c, row, col)
        invariant forall q, z :: 0 <= q < row && 0 <= z < arr.Length1 ==> arr[q, z] == old(arr[q, z])
      {
        TimesNext(index, h);
        TimesMonotonic(index + 1, mcusAcross, h);
        assert old(RowLoaded(c, row - 1, Columns(c)));
        var last := arr[row - 1, col + h - 1];
        for x := 0 to h
          invariant RowLoaded(c, row, col + x)
          invariant forall q, z :: 0 <= q < row && 0 <= z < arr.Length1 ==> arr[q, z] == old(arr[q, z])
        {
          BottomDummy(layout, Blocks(), c, row, index, x);
          arr[row, col + x] := Dummy(last);
        }
        col := col + h;
      }
      forall q | 0 <= q < row
        ensures RowLoaded(c, q, Columns(c))
      {
        assert old(RowLoaded(c, q, Columns(c)));
      }
    }

    /** The number of dummy blocks to be added at the right margin. */
    lemma {:induction false} Margin(c: nat, ndummy: nat)
      requires c < |comps| && comps[c].width > 0 && comps[c].h > 0
      requires ndummy == if comps[c].width % comps[c].h > 0 then comps[c].h - comps[c].width % comps[c].h else 0
      ensures comps[c].width + ndummy == Columns(c)
      ensures Columns(c) / comps[c].h == DivRoundUp(comps[c].width, comps[c].h)
    {
      var n, m := comps[c].width, comps[c].h;
      RoundUpFills(n, m);
      LastPartOfFilled(n, m, DivRoundUp(n, m));
      Division(Times(DivRoundUp(n, m), m), DivRoundUp(n, m), 0, m);
    }

    /** Load one iMCU row of a component into its virtual array. */
    method LoadComponent(c: nat)
      requires Buffered() && iMcuRowNum < layout.total && c < |comps|
      requires Has(c, iMcuRowNum)
      modifies wholeImage[c]
      ensures Has(c, iMcuRowNum + 1)
    {
      var v := comps[c].v;
      var first := Times(iMcuRowNum, v);
      var blockRows := if iMcuRowNum < layout.total - 1 then v else LastPart(comps[c].height, v);
      var ndummy := comps[c].width % comps[c].h;
      if ndummy > 0 {
        ndummy := comps[c].h - ndummy;
      }
      Margin(c, ndummy);
      RowsInImage(layout, c, iMcuRowNum);
      TimesNext(iMcuRowNum, v);
      TimesMonotonic(iMcuRowNum + 1, layout.total, v);
      hide Times, Columns, RowLoaded, LastPart, Fills, RowsLoaded;
      for blockRow := 0 to blockRows
        invariant RowsLoaded(c, first + blockRow)
      {
        LoadRow(c, blockRow, ndummy, first + blockRow);
      }
      if iMcuRowNum == layout.total - 1 {
        for blockRow := blockRows to v
          invariant RowsLoaded(c, first + blockRow)
        {
          LoadBottomRow(c, first + blockRow, (comps[c].width + ndummy) / comps[c].h);
        }
      }
    }

    lemma {:induction false} LoadedLess(n: nat)
      requires Buffered() && n < layout.total && Loaded(n + 1)
      ensures Loaded(n)
    {
      forall c | 0 <= c < |comps|
        ensures Has(c, n)
      {
        TimesNext(n, comps[c].v);
        assert Has(c, n + 1);
      }
    }

    /** Load one iMCU row of every component of the image, whether in the scan or not. */
    method LoadStrip()
      requires Buffered() && iMcuRowNum < layout.total && Loaded(iMcuRowNum)
      modifies wholeImage
      ensures Loaded(iMcuRowNum + 1)
    {
      hide Has;
      ghost var current, next := iMcuRowNum, iMcuRowNum + 1;
      for c := 0 to |comps|
        invariant forall d :: 0 <= d < c ==> Has(d, next)
        invariant forall d :: c <= d < |comps| ==> Has(d, current)
      {
        LoadComponent(c);
      }
    }

    /** compress_first_pass: load one iMCU row, and emit it. */
    method CompressFirstPass() returns (completed: bool)
      requires Valid() && Buffered() && iMcuRowNum < layout.total && Loaded(iMcuRowNum)
      modifies this`iMcuRowNum, this`mcuCtr, this`mcuVertOffset, this`mcuRowsPerIMcuRow, this`calls, this`sent,
               wholeImage
      ensures Valid() && iMcuRowNum == old(iMcuRowNum) + if completed then 1 else 0
      ensures completed ==> sent == layout.McusBefore(Blocks(), iMcuRowNum, 0, 0)
      ensures Buffered() && Loaded(old(iMcuRowNum) + 1) && Loaded(iMcuRowNum)
      ensures !completed ==> calls > old(calls) && !accepts(calls - 1)
    {
      hide Layout.McuRows, Layout.McusBefore, Has;
      LoadStrip();
      LoadedLess(iMcuRowNum);
      completed := CompressOutput();
    }
  }

  /** The non-dummy block rows in an iMCU row. */
  lemma {:induction false} RowsInImage(l: Layout, c: nat, i: nat)
    requires l.Sound() && c < |l.comps| && i < l.total
    ensures var n := if i < l.total - 1 then l.comps[c].v else LastPart(l.comps[c].height, l.comps[c].v);
            n <= l.comps[c].v && Times(i, l.comps[c].v) + n <= l.comps[c].height
    ensures i == l.total - 1 ==>
              Times(i, l.comps[c].v) + LastPart(l.comps[c].height, l.comps[c].v) == l.comps[c].height
  {
    LastPartOfFilled(l.comps[c].height, l.comps[c].v, l.total);
    TimesNext(i, l.comps[c].v);
    if i < l.total - 1 {
      TimesMonotonic(i + 1, l.total - 1, l.comps[c].v);
    }
  }
}

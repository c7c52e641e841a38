/** The coefficient buffer controller of the transcoder (jctrans.c): output from arrays that hold the image and
    nothing else; dummy blocks are made on the fly, in a workspace. */
module TransOutput {
  import opened ImageGeometry
  import opened CoefLayout

  class TransController {
    const comps: seq<Plane>
    const wholeImage: seq<array2<DctBlock>>     // the supplied coefficient arrays
    const dummyBuffer: array<DctBlock>          // workspace for constructing dummy blocks, its AC entries always zero
    const accepts: nat -> bool               // whether the entropy coder takes the MCU offered by call n
    ghost const blocks: (nat, nat, nat) -> DctBlock
    var layout: Layout
    var iMcuRowNum: nat
    var mcuCtr: nat
    var mcuVertOffset: nat
    var mcuRowsPerIMcuRow: nat
    var calls: nat
    var sent: seq<seq<DctBlock>>

    /** transencode_coef_controller: save the arrays, allocate and pre-zero space for dummy blocks. */
    constructor (comps: seq<Plane>, coefArrays: seq<array2<DctBlock>>, accepts: nat -> bool,
                 ghost blocks: (nat, nat, nat) -> DctBlock)
      ensures this.comps == comps && this.wholeImage == coefArrays && this.accepts == accepts && this.blocks == blocks
      ensures Zeroed() && fresh(dummyBuffer)
    {
      this.comps, this.wholeImage, this.accepts, this.blocks := comps, coefArrays, accepts, blocks;
      var zero := Dummy(DctBlock(0, []));
      dummyBuffer := new DctBlock[C_MAX_BLOCKS_IN_MCU](i => zero);
    }

    ghost predicate Zeroed()
      reads dummyBuffer
    {
      && dummyBuffer.Length == C_MAX_BLOCKS_IN_MCU
      && forall q :: 0 <= q < dummyBuffer.Length ==> dummyBuffer[q].ac == seq(63, i => 0)
    }

    /** The arrays hold the blocks of the image. */
    ghost predicate Supplied()
      reads wholeImage
    {
      && |wholeImage| == |comps|
      && forall c :: 0 <= c < |comps| ==>
           && wholeImage[c].Length0 == comps[c].height && wholeImage[c].Length1 == comps[c].width
           && forall row, col :: 0 <= row < comps[c].height && 0 <= col < comps[c].width ==>
                wholeImage[c][row, col] == blocks(c, row, col)
    }

    ghost predicate Ready()
      reads this`layout, wholeImage, dummyBuffer
    {
      layout.Sound() && layout.comps == comps && layout.McuSize(|layout.scan|) <= C_MAX_BLOCKS_IN_MCU && Supplied()
        && Zeroed()
    }

    /** Between two MCUs: exactly those before the place that the counters tell have been sent. */
    ghost predicate Valid()
      reads this, wholeImage, dummyBuffer
    {
      && Ready() && iMcuRowNum <= layout.total
      && (iMcuRowNum < layout.total ==>
            && mcuRowsPerIMcuRow == layout.McuRows(iMcuRowNum)
            && mcuVertOffset < mcuRowsPerIMcuRow && mcuCtr < layout.mcusPerRow)
      && (iMcuRowNum == layout.total ==> mcuVertOffset == 0 && mcuCtr == 0)
      && sent == layout.McusBefore(blocks, iMcuRowNum, mcuVertOffset, mcuCtr)
    }

    method StartIMcuRow()
      requires layout.Sound()
      modifies this`mcuRowsPerIMcuRow, this`mcuCtr, this`mcuVertOffset
      ensures mcuCtr == 0 && mcuVertOffset == 0 && mcuRowsPerIMcuRow == layout.McuRows(iMcuRowNum)
    {
      if |layout.scan| > 1 {
        mcuRowsPerIMcuRow := 1;
      } else if iMcuRowNum < layout.total - 1 {
        mcuRowsPerIMcuRow := layout.comps[layout.scan[0]].v;
      } else {
        mcuRowsPerIMcuRow := layout.LastRowHeight(layout.scan[0]);
      }
      mcuCtr, mcuVertOffset := 0, 0;
    }

    method StartPass(layout: Layout)
      requires layout.Sound() && layout.comps == comps && layout.McuSize(|layout.scan|) <= C_MAX_BLOCKS_IN_MCU
      requires Supplied() && Zeroed()
      modifies this
      ensures Valid() && this.layout == layout && iMcuRowNum == 0 && sent == []
    {
      this.layout := layout;
      iMcuRowNum := 0;
      sent := [];
      StartIMcuRow();
      SomeRows(layout, 0);
    }

    method EncodeMcu(mcu: seq<DctBlock>) returns (taken: bool)
      modifies this`calls, this`sent
      ensures sent == if taken then old(sent) + [mcu] else old(sent)
      ensures taken == accepts(old(calls)) && calls == old(calls) + 1
    {
      taken := accepts(calls);
      calls := calls + 1;
      if taken {
        sent := sent + [mcu];
      }
    }

    /** Fill in a dummy block: its place in the workspace, with the DC entry of the block before. */
    method FillDummy(mcu: seq<DctBlock>) returns (r: seq<DctBlock>)
      requires Zeroed() && 0 < |mcu| < C_MAX_BLOCKS_IN_MCU
      modifies dummyBuffer
      ensures Zeroed() && r == mcu + [Dummy(mcu[|mcu| - 1])]
    {
      var blkn := |mcu|;
      dummyBuffer[blkn] := dummyBuffer[blkn].(dc := mcu[blkn - 1].dc);
      r := mcu + [dummyBuffer[blkn]];
    }

    /** One row of the blocks of component k of an MCU. */
    method BlockRow(k: nat, y: nat, yindex: nat, m: nat, mcu: seq<DctBlock>, ghost row: nat, ghost col: nat)
        returns (r: seq<DctBlock>)
      requires Ready() && k < |layout.scan| && m < layout.mcusPerRow && iMcuRowNum < layout.total
      requires y < layout.McuRows(iMcuRowNum) && yindex < layout.McuHeight(layout.scan[k])
      requires row == Times(iMcuRowNum, comps[layout.scan[k]].v) + y + yindex
               && col == Times(m, layout.McuWidth(layout.scan[k]))
      requires |mcu| + layout.McuWidth(layout.scan[k]) <= C_MAX_BLOCKS_IN_MCU
      requires yindex > 0 ==>
                 mcu != [] && mcu[|mcu| - 1] ==
                 Padded(comps, blocks, layout.scan[k], row - 1, col + layout.McuWidth(layout.scan[k]) - 1)
      modifies dummyBuffer
      ensures Zeroed() && r == mcu + layout.RowBlocks(blocks, layout.scan[k], row, col, layout.McuWidth(layout.scan[k]))
    {
      var c := layout.scan[k];
      layout.RowEdge(k, iMcuRowNum, y, yindex);
      layout.ColumnEdge(k, m, 0);
      hide LastPart, Fills, Padded, Times;
      if iMcuRowNum < layout.total - 1 || yindex + y < layout.LastRowHeight(c) {
        r := EdgeRow(k, m, mcu, Times(iMcuRowNum, comps[c].v) + y + yindex, Times(m, layout.McuWidth(c)),
          layout.McuWidth(c),
                     layout.BlockCount(c, m));
      } else {
        r := BottomRow(c, row, m, mcu, layout.McuWidth(c));
      }
    }

    /** Real blocks in a row of the image, and any dummy blocks needed. */
    method EdgeRow(k: nat, ghost m: nat, mcu: seq<DctBlock>, row: nat, startCol: nat, width: nat, blockcnt: nat)
      returns (r: seq<DctBlock>)
      requires Ready() && k < |layout.scan| && m < layout.mcusPerRow && row < comps[layout.scan[k]].height
      requires width == layout.McuWidth(layout.scan[k]) && 0 < blockcnt == layout.BlockCount(layout.scan[k], m) <= width
      requires startCol == Times(m, width) && |mcu| + width <= C_MAX_BLOCKS_IN_MCU
      modifies dummyBuffer
      ensures Zeroed() && r == mcu + layout.RowBlocks(blocks, layout.scan[k], row, startCol, width)
    {
      var c := layout.scan[k];
      r := RealBlocks(k, m, mcu, row, startCol, blockcnt);
      hide Layout.Sound, Padded, Times, Layout.BlockCount, Layout.RowBlocks, Supplied;
      for x := blockcnt to width
        invariant Zeroed() && |r| == |mcu| + x && r == mcu + layout.RowBlocks(blocks, c, row, startCol, x)
      {
        RowBlock(layout, blocks, k, row, m, x);
        RowNext(layout, blocks, c, row, startCol, x);
        RowNext(layout, blocks, c, row, startCol, x - 1);
        r := FillDummy(r);
      }
    }

    /** Fill in the real blocks in this row. */
    method RealBlocks(k: nat, ghost m: nat, mcu: seq<DctBlock>, row: nat, startCol: nat, blockcnt: nat)
        returns (r: seq<DctBlock>)
      requires Ready() && k < |layout.scan| && m < layout.mcusPerRow && row < comps[layout.scan[k]].height
      requires 0 < blockcnt == layout.BlockCount(layout.scan[k], m) <= layout.McuWidth(layout.scan[k])
      requires startCol == Times(m, layout.McuWidth(layout.scan[k]))
      ensures r == mcu + layout.RowBlocks(blocks, layout.scan[k], row, startCol, blockcnt)
    {
      var c := layout.scan[k];
      RowNext(layout, blocks, c, row, startCol, 0);
      hide Padded, Times, Layout.BlockCount, Layout.RowBlocks, Zeroed;
      r := mcu;
      for x := 0 to blockcnt
        invariant r == mcu + layout.RowBlocks(blocks, c, row, startCol, x)
      {
        RowBlock(layout, blocks, k, row, m, x);
        RowNext(layout, blocks, c, row, startCol, x);
        InImage(k, m, x);
        r := r + [wholeImage[c][row, startCol + x]];
      }
    }

    lemma {:induction false} InImage(k: nat, m: nat, x: nat)
      requires Ready() && k < |layout.scan| && m < layout.mcusPerRow
      requires x < layout.McuWidth(layout.scan[k]) && x < layout.BlockCount(layout.scan[k], m)
      ensures Times(m, layout.McuWidth(layout.scan[k])) + x < comps[layout.scan[k]].width
    {
      layout.ColumnEdge(k, m, x);
    }

    /** At bottom of image, a whole row of dummy blocks. */
    method BottomRow(c: nat, ghost row: nat, ghost m: nat, mcu: seq<DctBlock>, width: nat) returns (r: seq<DctBlock>)
      requires layout.comps == comps && Zeroed() && c < |comps| && comps[c].width > 0 && row >= comps[c].height > 0
      requires width == comps[c].h > 0 && |mcu| + width <= C_MAX_BLOCKS_IN_MCU
      requires mcu != [] && mcu[|mcu| - 1] == Padded(comps, blocks, c, row - 1, Times(m, width) + width - 1)
      modifies dummyBuffer
      ensures Zeroed() && r == mcu + layout.RowBlocks(blocks, c, row, Times(m, width), width)
    {
      hide Padded, Times;
      r := mcu;
      for x := 0 to width
        invariant Zeroed() && r == mcu + layout.RowBlocks(blocks, c, row, Times(m, width), x)
        invariant Dummy(r[|r| - 1]) == Dummy(mcu[|mcu| - 1])
      {
        BottomDummy(layout, blocks, c, row, m, x);
        RowNext(layout, blocks, c, row, Times(m, width), x);
        r := FillDummy(r);
      }
    }

    /** The blocks of one component of an MCU. */
    method ComponentBlocks(k: nat, y: nat, m: nat, mcu: seq<DctBlock>) returns (r: seq<DctBlock>)
      requires Ready() && k < |layout.scan| && m < layout.mcusPerRow && iMcuRowNum < layout.total
      requires y < layout.McuRows(iMcuRowNum)
      requires |mcu| + Times(layout.McuHeight(layout.scan[k]), layout.McuWidth(layout.scan[k])) <= C_MAX_BLOCKS_IN_MCU
      modifies dummyBuffer
      ensures Zeroed()
      ensures r == mcu + layout.ComponentBlocks(blocks, layout.scan[k], iMcuRowNum, y, m,
              layout.McuHeight(layout.scan[k]))
      ensures |r| == |mcu| + Times(layout.McuHeight(layout.scan[k]), layout.McuWidth(layout.scan[k]))
    {
      var c := layout.scan[k];
      ghost var row, col := Times(iMcuRowNum, comps[c].v) + y, Times(m, layout.McuWidth(c));
      ComponentStart(layout, blocks, c, iMcuRowNum, y, m);
      TimesZero(layout.McuWidth(c));
      hide Padded, Times, Layout.ComponentBlocks, Layout.McuRows, Layout.McuWidth, Layout.McuHeight;
      r := mcu;
      for yindex := 0 to layout.McuHeight(c)
        invariant Zeroed() && r == mcu + layout.ComponentBlocks(blocks, c, iMcuRowNum, y, m, yindex)
        invariant |r| == |mcu| + Times(yindex, layout.McuWidth(c))
      {
        if yindex > 0 {
          LastBlock(layout, blocks, c, iMcuRowNum, y, m, yindex);
        }
        TimesNext(yindex, layout.McuWidth(c));
        TimesMonotonic(yindex + 1, layout.McuHeight(c), layout.McuWidth(c));
        ComponentNext(layout, blocks, c, iMcuRowNum, y, m, yindex);
        r := BlockRow(k, y, yindex, m, r, row + yindex, col);
      }
    }

    /** The MCU at a place. */
    method BuildMcu(y: nat, m: nat) returns (mcu: seq<DctBlock>)
      requires Ready() && m < layout.mcusPerRow && iMcuRowNum < layout.total && y < layout.McuRows(iMcuRowNum)
      modifies dummyBuffer
      ensures Zeroed() && mcu == layout.Mcu(blocks, iMcuRowNum, y, m)
    {
      hide Layout.ComponentBlocks, Layout.McuRows, Times, Layout.McuWidth, Layout.McuHeight;
      mcu := [];
      for k := 0 to |layout.scan|
        invariant Zeroed() && mcu == layout.McuBlocks(blocks, iMcuRowNum, y, m, k) && |mcu| == layout.McuSize(k)
      {
        layout.SizeMonotonic(k + 1, |layout.scan|);
        mcu := ComponentBlocks(k, y, m, mcu);
      }
    }

    /** compress_output: as much as one whole iMCU row. */
    method CompressOutput() returns (completed: bool)
      requires Valid() && iMcuRowNum < layout.total
      modifies this`iMcuRowNum, this`mcuCtr, this`mcuVertOffset, this`mcuRowsPerIMcuRow, this`calls, this`sent,
               dummyBuffer
      ensures Valid() && iMcuRowNum == old(iMcuRowNum) + if completed then 1 else 0
      ensures completed ==> sent == layout.McusBefore(blocks, iMcuRowNum, 0, 0)
      ensures !completed ==> calls > old(calls) && !accepts(calls - 1)
    {
      hide Layout.Mcu, Layout.McusBefore, Supplied, Zeroed, Layout.McuSize;
      var yoffset := mcuVertOffset;
      while yoffset < mcuRowsPerIMcuRow
        invariant Ready() && iMcuRowNum == old(iMcuRowNum) && mcuRowsPerIMcuRow == layout.McuRows(iMcuRowNum)
        invariant yoffset <= mcuRowsPerIMcuRow
                  && (if yoffset < mcuRowsPerIMcuRow then mcuCtr < layout.mcusPerRow else mcuCtr == 0)
        invariant sent == layout.McusBefore(blocks, iMcuRowNum, yoffset, mcuCtr)
        invariant calls >= old(calls)
      {
        var col := mcuCtr;
        while col < layout.mcusPerRow
          invariant Ready() && iMcuRowNum == old(iMcuRowNum) && mcuRowsPerIMcuRow == layout.McuRows(iMcuRowNum)
          invariant mcuCtr <= col <= layout.mcusPerRow && sent == layout.McusBefore(blocks, iMcuRowNum, yoffset, col)
          invariant calls >= old(calls)
        {
          var mcu := BuildMcu(yoffset, col);
          var taken := EncodeMcu(mcu);
          if !taken {
            mcuVertOffset, mcuCtr := yoffset, col;
            return false;
          }
          McusNext(layout, blocks, iMcuRowNum, yoffset, col);
          col := col + 1;
        }
        McusNext(layout, blocks, iMcuRowNum, yoffset, 0);
        mcuCtr := 0;
        yoffset := yoffset + 1;
      }
      McusNext(layout, blocks, iMcuRowNum, 0, 0);
      iMcuRowNum := iMcuRowNum + 1;
      StartIMcuRow();
      SomeRows(layout, iMcuRowNum);
      completed := true;
    }
  }
}

/** Where the blocks of a scan are (per_scan_setup in jcmaster.c), and what the coder is to be fed (jccoefct.c). */
module CoefLayout {
  import opened ImageGeometry

  datatype DctBlock = DctBlock(dc: int, ac: seq<int>)

  /** A dummy block costs least: all zeroes in the AC entries, the DC entry of the block before. */
  function Dummy(previous: DctBlock): DctBlock {
    DctBlock(previous.dc, seq(63, i => 0))
  }

  /** Sampling factors, size in blocks, and size of a block in samples. */
  datatype Plane = Plane(h: nat, v: nat, width: nat, height: nat, dctH: nat, dctV: nat)

  /** What is left over of n in the last of some units of size m: m if nothing is. */
  function LastPart(n: nat, m: nat): nat
    requires m > 0
  {
    if n % m == 0 then m else n % m
  }

  /** n things fill k units of size m, the last of them perhaps not entirely. */
  predicate Fills(n: nat, m: nat, k: nat) {
    m > 0 && k > 0 && (k - 1) * m < n <= k * m
  }

  lemma {:induction false} RoundUpFills(n: nat, m: nat)
    requires n > 0 && m > 0
    ensures Fills(n, m, DivRoundUp(n, m))
  {
  }

  lemma {:induction false} LastPartOfFilled(n: nat, m: nat, k: nat)
    requires Fills(n, m, k)
    ensures (k - 1) * m + LastPart(n, m) == n && 0 < LastPart(n, m) <= m
  {
    var r := n - (k - 1) * m;
    assert 0 < r <= m;
    if r == m {
      Division(n, k, 0, m);
    } else {
      Division(n, k - 1, r, m);
    }
  }

  /** Thing z of unit i is there if the unit is not the last, or z is within the last part. */
  lemma {:induction false} Edge(n: nat, m: nat, k: nat, i: nat, z: nat)
    requires Fills(n, m, k) && i < k
    ensures z < m ==> ((i < k - 1 || z < LastPart(n, m)) <==> i * m + z < n)
    ensures 0 < LastPart(n, m) <= m
  {
    LastPartOfFilled(n, m, k);
    if i < k - 1 {
      MulMonotonic(i + 1, k - 1, m);
    }
  }

  /** The image of a component, with dummy blocks around it: those at the right repeat the DC entry to their left, those
      below repeat, in each MCU, the DC entry of the last block of the row above. */
  function Padded(comps: seq<Plane>, blocks: (nat, nat, nat) -> DctBlock, c: nat, row: nat, col: nat): DctBlock
    requires c < |comps| && comps[c].width > 0 && comps[c].height > 0 && comps[c].h > 0
    decreases row, col
  {
    if row < comps[c].height then
      if col < comps[c].width then blocks(c, row, col) else Dummy(Padded(comps, blocks, c, row, col - 1))
    else if col % comps[c].h == 0 then Dummy(Padded(comps, blocks, c, row - 1, col + comps[c].h - 1))
    else Dummy(Padded(comps, blocks, c, row, col - 1))
  }

  const C_MAX_BLOCKS_IN_MCU := 10

  /** The components of the image, those in the scan, and the number of MCUs in a row and of iMCU rows. */
  datatype Layout = Layout(comps: seq<Plane>, scan: seq<nat>, mcusPerRow: nat, total: nat) {

    ghost predicate Sound() {
      && |scan| > 0 && total > 0 && mcusPerRow > 0
      && (forall k :: 0 <= k < |scan| ==> scan[k] < |comps|)
      && (forall j, k :: 0 <= j < k < |scan| ==> scan[j] != scan[k])
      && (forall c :: 0 <= c < |comps| ==>
            && comps[c].width > 0 && comps[c].height > 0 && comps[c].h > 0
            && Fills(comps[c].height, comps[c].v, total))
      && if |scan| == 1 then mcusPerRow == comps[scan[0]].width
         else forall k :: 0 <= k < |scan| ==> Fills(comps[scan[k]].width, comps[scan[k]].h, mcusPerRow)
    }

    /** Size of an MCU, and of the last one in a row or column, as per_scan_setup computes them. */
    function McuWidth(c: nat): nat
      requires c < |comps|
    {
      if |scan| == 1 then 1 else comps[c].h
    }

    function McuHeight(c: nat): nat
      requires c < |comps|
    {
      if |scan| == 1 then 1 else comps[c].v
    }

    function LastColWidth(c: nat): nat
      requires c < |comps| && comps[c].h > 0
    {
      if |scan| == 1 then 1 else LastPart(comps[c].width, comps[c].h)
    }

    function LastRowHeight(c: nat): nat
      requires c < |comps| && comps[c].v > 0
    {
      LastPart(comps[c].height, comps[c].v)
    }

    /** start_iMCU_row: the number of MCU rows in an iMCU row. */
    function McuRows(i: nat): nat
      requires Sound()
    {
      if |scan| > 1 then 1 else if i < total - 1 then comps[scan[0]].v else LastRowHeight(scan[0])
    }

    /** Blocks of component c in column m of MCUs that are not at the right of the image. */
    function BlockCount(c: nat, m: nat): nat
      requires c < |comps| && comps[c].h > 0 && m < mcusPerRow
    {
      if m < mcusPerRow - 1 then McuWidth(c) else LastColWidth(c)
    }

    /** That count is right: a block is beyond it if and only if it is not in the image. */
    lemma {:induction false} ColumnEdge(k: nat, m: nat, x: nat)
      requires Sound() && k < |scan| && m < mcusPerRow && x < McuWidth(scan[k])
      ensures x < BlockCount(scan[k], m) <==> Times(m, McuWidth(scan[k])) + x < comps[scan[k]].width
      ensures 0 < BlockCount(scan[k], m) <= McuWidth(scan[k])
    {
      var c := comps[scan[k]];
      hide LastPart, Fills;
      if |scan| > 1 {
        Edge(c.width, c.h, mcusPerRow, m, x);
      }
    }

    /** So is the test for rows at the bottom. */
    lemma {:induction false} RowEdge(k: nat, i: nat, y: nat, yindex: nat)
      requires Sound() && k < |scan| && i < total && y < McuRows(i) && yindex < McuHeight(scan[k])
      ensures y + yindex < comps[scan[k]].v
      ensures (i < total - 1 || y + yindex < LastRowHeight(scan[k])) <==>
              Times(i, comps[scan[k]].v) + y + yindex < comps[scan[k]].height
      ensures yindex == 0 ==> Times(i, comps[scan[k]].v) + y < comps[scan[k]].height
    {
      var c := comps[scan[k]];
      hide LastPart, Fills;
      Edge(c.height, c.v, total, i, y + if y + yindex < c.v then yindex else 0);
      Edge(c.height, c.v, total, i, y);
    }

    /** n blocks of a row. */
    function RowBlocks(blocks: (nat, nat, nat) -> DctBlock, c: nat, row: nat, col: nat, n: nat): (r: seq<DctBlock>)
      requires c < |comps| && comps[c].width > 0 && comps[c].height > 0 && comps[c].h > 0
      ensures |r| == n
    {
      seq(n, x requires 0 <= x < n => Padded(comps, blocks, c, row, col + x))
    }

    /** The first n rows of blocks of component c in the MCU at a place: MCU m of MCU row y of iMCU row i. */
    function ComponentBlocks(blocks: (nat, nat, nat) -> DctBlock, c: nat, i: nat, y: nat, m: nat,
                             n: nat): (r: seq<DctBlock>)
      requires c < |comps| && comps[c].width > 0 && comps[c].height > 0 && comps[c].h > 0
    {
      if n == 0 then []
      else ComponentBlocks(blocks, c, i, y, m, n - 1)
           + RowBlocks(blocks, c, Times(i, comps[c].v) + y + n - 1, Times(m, McuWidth(c)), McuWidth(c))
    }

    /** The blocks of the first n components of the MCU at a place. */
    function McuBlocks(blocks: (nat, nat, nat) -> DctBlock, i: nat, y: nat, m: nat, n: nat): (r: seq<DctBlock>)
      requires n <= |scan| && forall k :: 0 <= k < n ==> scan[k] < |comps|
      requires forall k :: 0 <= k < n ==> comps[scan[k]].width > 0 && comps[scan[k]].height > 0 && comps[scan[k]].h > 0
    {
      if n == 0 then []
      else McuBlocks(blocks, i, y, m, n - 1) + ComponentBlocks(blocks, scan[n - 1], i, y, m, McuHeight(scan[n - 1]))
    }

    ghost function Mcu(blocks: (nat, nat, nat) -> DctBlock, i: nat, y: nat, m: nat): seq<DctBlock>
      requires Sound()
    {
      McuBlocks(blocks, i, y, m, |scan|)
    }

    /** The number of blocks that the first n components have in an MCU; per_scan_setup refuses more than 10 in all. */
    function McuSize(n: nat): nat
      requires n <= |scan| && forall k :: 0 <= k < n ==> scan[k] < |comps|
    {
      if n == 0 then 0 else McuSize(n - 1) + Times(McuHeight(scan[n - 1]), McuWidth(scan[n - 1]))
    }

    lemma {:induction false} SizeMonotonic(n: nat, k: nat)
      requires Sound() && n <= k <= |scan|
      ensures McuSize(n) <= McuSize(k)
    {
      if n < k {
        SizeMonotonic(n, k - 1);
      }
    }

    /** All MCUs of the scan before a place. */
    ghost function McusBefore(blocks: (nat, nat, nat) -> DctBlock, i: nat, y: nat, m: nat): seq<seq<DctBlock>>
      requires Sound()
      decreases i, y, m
    {
      if m > 0 then McusBefore(blocks, i, y, m - 1) + [Mcu(blocks, i, y, m - 1)]
      else if y > 0 then McusBefore(blocks, i, y - 1, mcusPerRow)
      else if i > 0 then McusBefore(blocks, i - 1, McuRows(i - 1), 0)
      else []
    }
  }

  /** What an MCU is made of in a row of the image. */
  lemma {:induction false} RowBlock(l: Layout, blocks: (nat, nat, nat) -> DctBlock, k: nat, row: nat, m: nat, x: nat)
    requires l.Sound() && k < |l.scan| && m < l.mcusPerRow && x < l.McuWidth(l.scan[k])
    requires row < l.comps[l.scan[k]].height
    ensures Padded(l.comps, blocks, l.scan[k], row, Times(m, l.McuWidth(l.scan[k])) + x) ==
            if x < l.BlockCount(l.scan[k], m) then blocks(l.scan[k], row, Times(m, l.McuWidth(l.scan[k])) + x)
            else Dummy(Padded(l.comps, blocks, l.scan[k], row, Times(m, l.McuWidth(l.scan[k])) + x - 1))
  {
    l.ColumnEdge(k, m, x);
  }

  lemma {:induction false} RowNext(l: Layout, blocks: (nat, nat, nat) -> DctBlock, c: nat, row: nat, col: nat, n: nat)
    requires c < |l.comps| && l.comps[c].width > 0 && l.comps[c].height > 0 && l.comps[c].h > 0
    ensures l.RowBlocks(blocks, c, row, col, 0) == []
    ensures l.RowBlocks(blocks, c, row, col, n + 1) ==
            l.RowBlocks(blocks, c, row, col, n) + [Padded(l.comps, blocks, c, row, col + n)]
  {
    hide Padded;
  }

  lemma {:induction false} ComponentStart(l: Layout, blocks: (nat, nat, nat) -> DctBlock, c: nat, i: nat, y: nat,
                                          m: nat)
    requires c < |l.comps| && l.comps[c].width > 0 && l.comps[c].height > 0 && l.comps[c].h > 0
    ensures l.ComponentBlocks(blocks, c, i, y, m, 0) == []
  {
  }

  lemma {:induction false} ComponentNext(l: Layout, blocks: (nat, nat, nat) -> DctBlock, c: nat, i: nat, y: nat, m: nat,
                                         n: nat)
    requires c < |l.comps| && l.comps[c].width > 0 && l.comps[c].height > 0 && l.comps[c].h > 0
    ensures l.ComponentBlocks(blocks, c, i, y, m, n + 1) ==
            l.ComponentBlocks(blocks, c, i, y, m, n)
            + l.RowBlocks(blocks, c, Times(i, l.comps[c].v) + y + n, Times(m, l.McuWidth(c)), l.McuWidth(c))
  {
  }

  /** The last block in a column of block rows is the last one of the last row. */
  lemma {:induction false} LastBlock(l: Layout, blocks: (nat, nat, nat) -> DctBlock, c: nat, i: nat, y: nat, m: nat,
                                     n: nat)
    requires c < |l.comps| && l.comps[c].width > 0 && l.comps[c].height > 0 && l.comps[c].h > 0 && n > 0
    ensures var s := l.ComponentBlocks(blocks, c, i, y, m, n);
            s != [] && s[|s| - 1] ==
            Padded(l.comps, blocks, c, Times(i, l.comps[c].v) + y + n - 1, Times(m, l.McuWidth(c)) + l.McuWidth(c) - 1)
  {
    hide Padded;
    var r := l.RowBlocks(blocks, c, Times(i, l.comps[c].v) + y + n - 1, Times(m, l.McuWidth(c)), l.McuWidth(c));
    assert r[|r| - 1] == Padded(l.comps, blocks, c, Times(i, l.comps[c].v) + y + n - 1,
           Times(m, l.McuWidth(c)) + l.McuWidth(c) - 1);
  }

  /** Block by block, what a component contributes to an MCU. */
  lemma {:induction false} ComponentAt(l: Layout, blocks: (nat, nat, nat) -> DctBlock, c: nat, i: nat, y: nat, m: nat,
                                       n: nat, yindex: nat, xindex: nat)
    requires c < |l.comps| && l.comps[c].width > 0 && l.comps[c].height > 0 && l.comps[c].h > 0
    ensures |l.ComponentBlocks(blocks, c, i, y, m, n)| == Times(n, l.McuWidth(c))
    ensures yindex < n && xindex < l.McuWidth(c) ==>
              var s, q := l.ComponentBlocks(blocks, c, i, y, m, n), Times(yindex, l.McuWidth(c)) + xindex;
              q < |s| && s[q] == Padded(l.comps, blocks, c, Times(i, l.comps[c].v) + y + yindex,
                Times(m, l.McuWidth(c)) + xindex)
  {
    hide Times, Padded, Layout.McuWidth;
    TimesZero(l.McuWidth(c));
    ComponentStart(l, blocks, c, i, y, m);
    if n > 0 {
      ComponentNext(l, blocks, c, i, y, m, n - 1);
      ComponentAt(l, blocks, c, i, y, m, n - 1, yindex, xindex);
      TimesNext(n - 1, l.McuWidth(c));
    }
  }

  /** Block by block, what an MCU is made of. */
  lemma {:induction false} McuAt(l: Layout, blocks: (nat, nat, nat) -> DctBlock, i: nat, y: nat, m: nat, n: nat,
                                 k: nat, yindex: nat, xindex: nat)
    requires l.Sound() && n <= |l.scan|
    ensures |l.McuBlocks(blocks, i, y, m, n)| == l.McuSize(n)
    ensures k < n && yindex < l.McuHeight(l.scan[k]) && xindex < l.McuWidth(l.scan[k]) ==>
              var c, s := l.scan[k], l.McuBlocks(blocks, i, y, m, n);
              var q := l.McuSize(k) + Times(yindex, l.McuWidth(c)) + xindex;
              q < |s| && s[q] == Padded(l.comps, blocks, c, Times(i, l.comps[c].v) + y + yindex,
                Times(m, l.McuWidth(c)) + xindex)
  {
    hide Times, Padded, Layout.McuWidth, Layout.McuHeight, Layout.ComponentBlocks;
    if n > 0 {
      McuAt(l, blocks, i, y, m, n - 1, k, yindex, xindex);
      ComponentAt(l, blocks, l.scan[n - 1], i, y, m, l.McuHeight(l.scan[n - 1]), yindex, xindex);
    }
  }

  /** The MCUs before the place after a place, which may be at the start of the next MCU row or iMCU row. */
  lemma {:induction false} McusNext(l: Layout, blocks: (nat, nat, nat) -> DctBlock, i: nat, y: nat, m: nat)
    requires l.Sound()
    ensures l.McusBefore(blocks, i, y, m + 1) == l.McusBefore(blocks, i, y, m) + [l.Mcu(blocks, i, y, m)]
    ensures l.McusBefore(blocks, i, y + 1, 0) == l.McusBefore(blocks, i, y, l.mcusPerRow)
    ensures l.McusBefore(blocks, i + 1, 0, 0) == l.McusBefore(blocks, i, l.McuRows(i), 0)
  {
    hide Layout.Mcu;
    SomeRows(l, i);
  }

  /** The MCU at a place comes next after those before the place. */
  lemma {:induction false} InOrder(l: Layout, blocks: (nat, nat, nat) -> DctBlock, i: nat, y: nat, m: nat)
    requires l.Sound() && i < l.total && y < l.McuRows(i) && m < l.mcusPerRow
    ensures l.McusBefore(blocks, i, y, m) + [l.Mcu(blocks, i, y, m)] <= l.McusBefore(blocks, l.total, 0, 0)
    decreases l.total - i, l.McuRows(i) - y, l.mcusPerRow - m
  {
    hide Layout.Mcu, Layout.McusBefore;
    McusNext(l, blocks, i, y, m);
    if m + 1 < l.mcusPerRow {
      InOrder(l, blocks, i, y, m + 1);
    } else if y + 1 < l.McuRows(i) {
      InOrder(l, blocks, i, y + 1, 0);
    } else if i + 1 < l.total {
      SomeRows(l, i + 1);
      InOrder(l, blocks, i + 1, 0, 0);
    }
  }

  /** Below the image, all blocks of an MCU repeat the DC entry of the last one in the row above. */
  lemma {:induction false} BottomDummy(l: Layout, blocks: (nat, nat, nat) -> DctBlock, c: nat, row: nat, m: nat, x: nat)
    requires c < |l.comps| && l.comps[c].width > 0 && row >= l.comps[c].height > 0 && x < l.comps[c].h
    ensures Padded(l.comps, blocks, c, row, Times(m, l.comps[c].h) + x) ==
            Dummy(Padded(l.comps, blocks, c, row - 1, Times(m, l.comps[c].h) + l.comps[c].h - 1))
  {
    Division(m * l.comps[c].h + x, m, x, l.comps[c].h);
    if x > 0 {
      BottomDummy(l, blocks, c, row, m, x - 1);
    }
  }

  /** To the right of the image, blocks repeat the DC entry of the last one of their row. */
  lemma {:induction false} RightDummy(l: Layout, blocks: (nat, nat, nat) -> DctBlock, c: nat, row: nat, col: nat)
    requires c < |l.comps| && row < l.comps[c].height && 0 < l.comps[c].width <= col && l.comps[c].h > 0
    ensures Padded(l.comps, blocks, c, row, col) == Dummy(blocks(c, row, l.comps[c].width - 1))
  {
    if col > l.comps[c].width {
      RightDummy(l, blocks, c, row, col - 1);
    }
  }

  /** Dummy blocks cost least: no AC coefficients, and no DC difference from the block before. */
  ghost predicate CostsNothing(s: seq<DctBlock>, q: nat) {
    0 < q < |s| && s[q].dc == s[q - 1].dc && |s[q].ac| == 63 && forall z :: 0 <= z < 63 ==> s[q].ac[z] == 0
  }

  /** Block q of an MCU is the one of the image at some row and column, or one that costs nothing. */
  ghost predicate IsBlockAt(s: seq<DctBlock>, q: nat, p: Plane, blocks: (nat, nat, nat) -> DctBlock, c: nat, row: nat,
                            col: nat) {
    q < |s| && if row < p.height && col < p.width then s[q] == blocks(c, row, col) else CostsNothing(s, q)
  }

  /** Place by place: an MCU has the block of the image, or where there is none a block that costs nothing. */
  lemma {:induction false} McuMeans(l: Layout, blocks: (nat, nat, nat) -> DctBlock, i: nat, y: nat, m: nat,
                                    k: nat, yindex: nat, xindex: nat)
    requires l.Sound() && i < l.total && y < l.McuRows(i) && m < l.mcusPerRow
    requires k < |l.scan| && yindex < l.McuHeight(l.scan[k]) && xindex < l.McuWidth(l.scan[k])
    ensures |l.Mcu(blocks, i, y, m)| == l.McuSize(|l.scan|)
    ensures var c := l.scan[k];
            IsBlockAt(l.Mcu(blocks, i, y, m), l.McuSize(k) + Times(yindex, l.McuWidth(c)) + xindex, l.comps[c], blocks,
                      c, Times(i, l.comps[c].v) + y + yindex, Times(m, l.McuWidth(c)) + xindex)
  {
    hide Layout.McuBlocks, Layout.McuSize, LastPart, Fills, Padded, Times, CostsNothing;
    var c := l.scan[k];
    var row, col := Times(i, l.comps[c].v) + y + yindex, Times(m, l.McuWidth(c)) + xindex;
    McuAt(l, blocks, i, y, m, |l.scan|, k, yindex, xindex);
    if row < l.comps[c].height && col < l.comps[c].width {
      PaddedInside(l.comps, blocks, c, row, col);
    } else if xindex > 0 {
      RightMeans(l, blocks, i, y, m, k, yindex, xindex);
    } else {
      BelowMeans(l, blocks, i, y, m, k, yindex);
    }
  }

  lemma {:induction false} RightMeans(l: Layout, blocks: (nat, nat, nat) -> DctBlock, i: nat, y: nat, m: nat, k: nat,
                                      yindex: nat, xindex: nat)
    requires l.Sound() && i < l.total && y < l.McuRows(i) && m < l.mcusPerRow
    requires k < |l.scan| && yindex < l.McuHeight(l.scan[k]) && 0 < xindex < l.McuWidth(l.scan[k])
    requires var c := l.scan[k];
             || Times(i, l.comps[c].v) + y + yindex >= l.comps[c].height
             || Times(m, l.McuWidth(c)) + xindex >= l.comps[c].width
    ensures var c := l.scan[k];
            CostsNothing(l.Mcu(blocks, i, y, m), l.McuSize(k) + Times(yindex, l.McuWidth(c)) + xindex)
  {
    hide Layout.McuBlocks, Layout.McuSize, LastPart, Fills, Padded, Times;
    var c, n := l.scan[k], |l.scan|;
    McuAt(l, blocks, i, y, m, n, k, yindex, xindex);
    McuAt(l, blocks, i, y, m, n, k, yindex, xindex - 1);
    PaddedRight(l.comps, blocks, c, Times(i, l.comps[c].v) + y + yindex, m, xindex);
  }

  lemma {:induction false} BelowMeans(l: Layout, blocks: (nat, nat, nat) -> DctBlock, i: nat, y: nat, m: nat, k: nat,
                                      yindex: nat)
    requires l.Sound() && i < l.total && y < l.McuRows(i) && m < l.mcusPerRow
    requires k < |l.scan| && yindex < l.McuHeight(l.scan[k])
    requires var c := l.scan[k];
             || Times(i, l.comps[c].v) + y + yindex >= l.comps[c].height
             || Times(m, l.McuWidth(c)) >= l.comps[c].width
    ensures var c := l.scan[k];
            CostsNothing(l.Mcu(blocks, i, y, m), l.McuSize(k) + Times(yindex, l.McuWidth(c)))
  {
    hide Layout.McuBlocks, Layout.McuSize, LastPart, Fills, Padded, Times;
    var c, n := l.scan[k], |l.scan|;
    l.RowEdge(k, i, y, yindex);
    l.ColumnEdge(k, m, 0);
    McuAt(l, blocks, i, y, m, n, k, yindex, 0);
    McuAt(l, blocks, i, y, m, n, k, yindex - 1, l.McuWidth(c) - 1);
    TimesNext(yindex - 1, l.McuWidth(c));
    PaddedBelow(l.comps, blocks, c, Times(i, l.comps[c].v) + y + yindex, m);
  }

  lemma {:induction false} PaddedInside(comps: seq<Plane>, blocks: (nat, nat, nat) -> DctBlock, c: nat, row: nat,
                                        col: nat)
    requires c < |comps| && comps[c].h > 0 && row < comps[c].height && col < comps[c].width
    ensures Padded(comps, blocks, c, row, col) == blocks(c, row, col)
  {
  }

  lemma {:induction false} PaddedRight(comps: seq<Plane>, blocks: (nat, nat, nat) -> DctBlock, c: nat, row: nat, m: nat,
                                       x: nat)
    requires c < |comps| && comps[c].width > 0 && comps[c].height > 0 && 0 < x < comps[c].h
    requires row >= comps[c].height || Times(m, comps[c].h) + x >= comps[c].width
    ensures var p := Padded(comps, blocks, c, row, Times(m, comps[c].h) + x);
            && p.dc == Padded(comps, blocks, c, row, Times(m, comps[c].h) + x - 1).dc && |p.ac| == 63
            && forall z :: 0 <= z < 63 ==> p.ac[z] == 0
  {
    Division(m * comps[c].h + x, m, x, comps[c].h);
  }

  lemma {:induction false} PaddedBelow(comps: seq<Plane>, blocks: (nat, nat, nat) -> DctBlock, c: nat, row: nat, m: nat)
    requires c < |comps| && comps[c].width > 0 && comps[c].h > 0 && row >= comps[c].height > 0
    ensures var p := Padded(comps, blocks, c, row, Times(m, comps[c].h));
            && p.dc == Padded(comps, blocks, c, row - 1, Times(m, comps[c].h) + comps[c].h - 1).dc && |p.ac| == 63
            && forall z :: 0 <= z < 63 ==> p.ac[z] == 0
  {
    Division(m * comps[c].h, m, 0, comps[c].h);
  }

  /** The numbers that initial_setup and per_scan_setup compute for an image fit together. */
  lemma {:induction false} SetupSound(l: Layout, jpegWidth: nat, jpegHeight: nat, maxH: nat, maxV: nat, blockSize: nat)
    requires jpegWidth > 0 && jpegHeight > 0 && maxH > 0 && maxV > 0 && blockSize > 0
    requires maxH * blockSize > 0 && maxV * blockSize > 0
    requires |l.scan| > 0 && forall k :: 0 <= k < |l.scan| ==> l.scan[k] < |l.comps|
    requires forall j, k :: 0 <= j < k < |l.scan| ==> l.scan[j] != l.scan[k]
    requires forall c :: 0 <= c < |l.comps| ==>
               && l.comps[c].h > 0 && l.comps[c].v > 0
               && l.comps[c].width == DivRoundUp(jpegWidth * l.comps[c].h, maxH * blockSize)
               && l.comps[c].height == DivRoundUp(jpegHeight * l.comps[c].v, maxV * blockSize)
    requires l.total == DivRoundUp(jpegHeight, maxV * blockSize)
    requires l.mcusPerRow == if |l.scan| == 1 then l.comps[l.scan[0]].width else DivRoundUp(jpegWidth, maxH * blockSize)
    ensures l.Sound()
  {
    forall c | 0 <= c < |l.comps|
      ensures l.comps[c].width > 0 && Fills(l.comps[c].height, l.comps[c].v, l.total)
      ensures Fills(l.comps[c].width, l.comps[c].h, DivRoundUp(jpegWidth, maxH * blockSize))
    {
      Covers(jpegWidth, l.comps[c].h, maxH * blockSize);
      Covers(jpegHeight, l.comps[c].v, maxV * blockSize);
    }
  }

  lemma {:induction false} Covers(x: nat, b: nat, d: nat)
    requires x > 0 && b > 0 && d > 0
    ensures DivRoundUp(x * b, d) > 0 && Fills(DivRoundUp(x * b, d), b, DivRoundUp(x, d))
  {
    Positive(x, b);
    RoundUpNested(x, b, d, 1);
    RoundUpFills(DivRoundUp(x * b, d), b);
  }

  /** Every iMCU row has MCU rows. */
  lemma {:induction false} SomeRows(l: Layout, i: nat)
    requires l.Sound()
    ensures l.McuRows(i) > 0
  {
    LastPartOfFilled(l.comps[l.scan[0]].height, l.comps[l.scan[0]].v, l.total);
  }
}

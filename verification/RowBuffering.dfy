/** The preprocessing controller (jcprepct.c): a buffer of rows, circular when the downsampler wants context rows,
    that looks like an image whose first and last rows are repeated for ever. */
module RowBuffering {
  import opened ImageGeometry

  /** Row y of the image, with the first and the last row repeated outside of it. */
  function Clamped<T>(img: seq<T>, y: int): T
    requires img != []
  {
    if y < 0 then img[0] else if y < |img| then img[y] else img[|img| - 1]
  }

  lemma {:induction false} BelowBottom<T>(img: seq<T>, y: int, i: nat)
    requires img != [] && y >= |img|
    ensures Clamped(img, y + i) == Clamped(img, y - 1)
  {
  }

  /** n rows of the extended image. */
  function Window<T>(img: seq<T>, from: int, n: nat): (w: seq<T>)
    requires img != []
    ensures |w| == n
  {
    seq(n, i => Clamped(img, from + i))
  }

  /** A row group made of the last row of another one. */
  function Repeated<S>(group: seq<S>): seq<S> {
    if group == [] then [] else seq(|group|, i => group[|group| - 1])
  }

  /** Row group g as the coefficient controller is to get it: made from v rows of the image, or from those and as
      many above and below; without context rows, the groups past the bottom repeat the last row of the last one. */
  function Group<T, S>(img: seq<T>, v: nat, context: bool, down: seq<T> -> seq<S>, g: nat): seq<S>
    requires img != [] && v > 0
  {
    if context then down(Window(img, Start(g, v) - v, 3 * v))
    else if Start(g, v) < |img| then down(Window(img, Start(g, v), v))
    else Repeated(down(Window(img, Start((|img| - 1) / v, v), v)))
  }

  /** As many rows as in another row group, each of them that one's last row. */
  ghost predicate RepeatsLast<S>(rows: seq<S>, group: seq<S>) {
    |rows| == |group| && forall i :: 0 <= i < |rows| ==> rows[i] == group[|group| - 1]
  }

  /** Past the bottom of the image, without context rows, every row is the last one that the downsampler made. */
  lemma {:induction false} BelowImage<T, S>(img: seq<T>, v: nat, down: seq<T> -> seq<S>, g: nat)
    requires img != [] && v > 0 && Start(g, v) >= |img|
    ensures RepeatsLast(Group(img, v, false, down, g), down(Window(img, Start((|img| - 1) / v, v), v)))
  {
    var last := down(Window(img, Start((|img| - 1) / v, v), v));
    if last != [] {
      assert Group(img, v, false, down, g) == seq(|last|, i => last[|last| - 1]);
    }
  }

  /** The image row at which row group g starts. */
  function Start(g: nat, v: nat): nat {
    g * v
  }

  /** The last row group that has a row of the image in it. */
  lemma {:induction false} LastGroup(h: nat, g: nat, v: nat)
    requires v > 0 && Start(g, v) < h <= Start(g + 1, v)
    ensures (h - 1) / v == g
  {
    Division(h - 1, g, h - 1 - Start(g, v), v);
  }

  lemma {:induction false} StartNext(g: nat, v: nat)
    ensures Start(g + 1, v) == Start(g, v) + v
  {
  }

  /** The real row behind row pointer q: v pointers at either end wrap around. */
  function Physical(q: int, v: nat): int {
    if q < v then q + 2 * v else if q < 4 * v then q - v else q - 4 * v
  }

  /** The counters of the controller. */
  datatype Place = Place(context: bool, v: nat, height: nat, toGo: nat, row: nat, group: nat, stop: nat, base: nat) {

    const origin: nat := if context then v else 0

    /** The number of row pointers up to the end of what is stored when r is the next buffer row to store. */
    function End(r: int): int {
      origin + r + if group < 2 * v then 0 else 3 * v
    }

    /** The image row at row pointer 0. */
    function At(): int {
      base - origin - group
    }

    ghost predicate Sound() {
      && v > 0 && height > 0 && toGo <= height && row <= stop
      && (if context then
            && (group == 0 || group == v || group == 2 * v)
            && stop == (if group == 0 then 2 * v else if group == v then 3 * v else v)
          else group == 0 && stop == v)
      && group + origin <= End(row)
      && (toGo == height ==> base == 0 && row == 0 && group == 0)
      && (context && base > 0 ==> End(row) >= group + 2 * v && toGo < height)
      && (if toGo > 0 then base + End(row) - group - origin == height - toGo
          else base + End(row) - group - origin >= height)
      && (!context && toGo > 0 ==> base < height)
    }

    /** Rows stored and taken from the image. */
    function Read(n: nat): Place {
      this.(row := row + n, toGo := if n <= toGo then toGo - n else 0)
    }

    /** Rows stored below the bottom. */
    function Filled(): Place {
      this.(row := stop)
    }

    /** The group to process put out, and the next one up. */
    function Emitted(): Place {
      if context then
        var r := if row >= 3 * v then 0 else row;
        this.(group := if group + v >= 3 * v then 0 else group + v, row := r, stop := r + v, base := base + v)
      else
        this.(row := 0, base := base + v)
    }

    lemma {:induction false} EmittedSound()
      requires Sound() && row == stop && (if context then toGo < height else base < height)
      ensures Emitted().Sound() && Emitted().row < Emitted().stop
      ensures End(row) == group + if context then 3 * v else v
      ensures Emitted().End(Emitted().row) == Emitted().group + if context then 2 * v else 0
      ensures Emitted().At() - At() == if context && group == 2 * v then 3 * v else if context then 0 else v
    {
    }

    lemma {:induction false} ReadSound(n: nat)
      requires Sound() && 0 < n <= toGo && row + n <= stop
      ensures Read(n).Sound() && Read(n).End(row + n) == End(row) + n && Read(n).At() == At()
    {
    }

    lemma {:induction false} FilledSound()
      requires Sound() && toGo == 0
      ensures Filled().Sound()
    {
    }
  }

  /** One component: rows after colour conversion go in, downsampled row groups come out. */
  class Prep<T(0), S> {
    const v: nat                    // max_v_samp_factor
    const imageHeight: nat
    const context: bool             // need_context_rows
    const down: seq<T> -> seq<S>    // the downsampler
    const rows: array<T>            // one row group; three with context rows
    const colorBuf: array<int>      // pointers into rows; five groups of them with context rows
    const origin: nat               // color_buf points to this row pointer
    var rowsToGo: nat               // rows remaining in source image
    var nextBufRow: nat             // index of next row to store
    var thisRowGroup: nat           // starting row index of group to process
    var nextBufStop: nat            // downsample when we reach this index

    ghost const img: seq<T>         // the image, as it will turn out to be
    ghost var done: nat             // row groups put out
    ghost var base: nat             // the image row at which the next row group starts

    /** The counters of the controller. */
    ghost function Now(): Place
      reads this
    {
      Place(context, v, imageHeight, rowsToGo, nextBufRow, thisRowGroup, nextBufStop, base)
    }

    /** Create the buffer and initialize for a processing pass. */
    constructor (v: nat, context: bool, down: seq<T> -> seq<S>, imageHeight: nat, ghost img: seq<T>)
      requires v > 0 && imageHeight == |img| > 0
      ensures this.v == v && this.context == context && this.down == down
      ensures this.imageHeight == imageHeight && this.img == img && fresh(rows) && fresh(colorBuf)
      ensures Valid() && done == 0 && rowsToGo == imageHeight
    {
      this.v, this.context, this.down, this.imageHeight, this.img := v, context, down, imageHeight, img;
      var buffer := new T[if context then 3 * v else v];
      var pointers := new int[if context then 5 * v else v];
      if context {
        for i := 0 to 3 * v
          invariant forall q :: v <= q < v + i ==> pointers[q] == q - v
        {
          pointers[v + i] := i;
        }
        for i := 0 to v
          invariant forall q :: v <= q < 4 * v ==> pointers[q] == q - v
          invariant forall q :: 0 <= q < i ==> pointers[q] == 2 * v + q
          invariant forall q :: 4 * v <= q < 4 * v + i ==> pointers[q] == q - 4 * v
        {
          pointers[i] := 2 * v + i;
          pointers[4 * v + i] := i;
        }
      } else {
        for i := 0 to v
          invariant forall q :: 0 <= q < i ==> pointers[q] == q
        {
          pointers[i] := i;
        }
      }
      rows, colorBuf, origin := buffer, pointers, if context then v else 0;
      rowsToGo, nextBufRow, thisRowGroup, nextBufStop := imageHeight, 0, 0, if context then 2 * v else v;
      done, base := 0, 0;
    }

    /** The row pointers, made once and for all. */
    ghost predicate Wired()
      reads colorBuf
    {
      && v > 0 && imageHeight == |img| > 0
      && origin == (if context then v else 0)
      && rows.Length == (if context then 3 * v else v)
      && colorBuf.Length == (if context then 5 * v else v)
      && rows as object != colorBuf as object
      && forall q :: 0 <= q < colorBuf.Length ==> colorBuf[q] == if context then Physical(q, v) else q
    }

    /** The row behind pointer q. */
    ghost function Row(q: int): T
      requires Wired() && 0 <= q < colorBuf.Length
      reads colorBuf, rows
    {
      rows[colorBuf[q]]
    }

    /** The rows behind pointers lo to hi are those of the extended image; pointer 0 is its row at. */
    ghost predicate Shown(lo: int, hi: int, at: int)
      requires Wired() && 0 <= lo && hi <= colorBuf.Length
      reads colorBuf, rows
    {
      forall q :: lo <= q < hi ==> Row(q) == Clamped(img, at + q)
    }

    /** A state between two steps of a pass: the buffer holds rows of the extended image, from v rows above the group to
        process, up to the last row stored. */
    ghost predicate Stored()
      reads this, colorBuf, rows
    {
      && Wired() && base == Start(done, v) && Now().Sound()
      && (rowsToGo < imageHeight ==> Shown(thisRowGroup, Now().End(nextBufRow), Now().At()))
    }

    ghost predicate Valid()
      reads this, colorBuf, rows
    {
      Stored() && nextBufRow < nextBufStop && (!context && rowsToGo == 0 ==> nextBufRow == 0)
    }

    /** Pointer hi leads to buffer row r, and no pointer from lo on before it does. */
    ghost predicate Continues(r: int, lo: int, hi: int)
      requires Wired()
      reads colorBuf
    {
      && 0 <= lo <= hi < colorBuf.Length && 0 <= origin + r < colorBuf.Length
      && colorBuf[hi] == colorBuf[origin + r]
      && forall q :: lo <= q < hi ==> colorBuf[q] != colorBuf[origin + r]
    }

    /** There is a pointer for every buffer row up to the next stop, wherever it wraps to. */
    lemma {:induction false} Next(i: nat, lo: int)
      requires Wired() && Now().Sound() && nextBufRow + i < nextBufStop && thisRowGroup <= lo <= thisRowGroup + origin
      ensures Continues(nextBufRow + i, lo, Now().End(nextBufRow) + i)
    {
    }

    /** All of them end within the row pointers. */
    lemma {:induction false} Fits()
      requires Wired() && Now().Sound()
      ensures img != [] && imageHeight == |img| && nextBufRow <= nextBufStop
      ensures 0 <= thisRowGroup <= thisRowGroup + origin <= Now().End(nextBufRow)
      ensures Now().End(nextBufStop) == Now().End(nextBufRow) + nextBufStop - nextBufRow <= colorBuf.Length
    {
    }

    lemma {:induction false} ShownAt(q: int, lo: int, hi: int, at: int)
      requires Wired() && 0 <= lo <= q < hi <= colorBuf.Length && Shown(lo, hi, at)
      ensures Row(q) == Clamped(img, at + q)
    {
    }

    /** Store one row, at buffer row r, which is to be the next row of the extended image. */
    method Put(r: int, x: T, ghost lo: int, ghost hi: int, ghost at: int)
      requires Wired() && Continues(r, lo, hi) && Shown(lo, hi, at) && x == Clamped(img, at + hi)
      modifies rows
      ensures Wired() && Shown(lo, hi + 1, at)
    {
      assert forall q :: lo <= q < hi ==> Row(q) == Clamped(img, at + q);
      rows[colorBuf[origin + r]] := x;
      forall q | lo <= q < hi + 1
        ensures Row(q) == Clamped(img, at + q)
      {
        assert q < hi ==> Row(q) == old(Row(q));
      }
    }

    /** Convert rows into the buffer. */
    method ColorConvert(input: seq<T>, from: nat, numrows: nat, ghost lo: int, ghost hi: int, ghost at: int)
      requires Wired() && Now().Sound() && from + numrows <= |input| && nextBufRow + numrows <= nextBufStop
      requires thisRowGroup <= lo <= thisRowGroup + origin && hi == Now().End(nextBufRow) && Shown(lo, hi, at)
      requires forall i :: from <= i < from + numrows ==> input[i] == Clamped(img, at + hi + i - from)
      modifies rows
      ensures Wired() && hi + numrows <= colorBuf.Length && Shown(lo, hi + numrows, at)
    {
      hide Shown, Continues, Wired, Place.Sound, Clamped;
      Fits();
      for i := 0 to numrows
        invariant Wired() && hi + i <= colorBuf.Length && Shown(lo, hi + i, at)
      {
        Next(i, lo);
        assert input[from + i] == Clamped(img, at + hi + i);
        Put(nextBufRow + i, input[from + i], lo, hi + i, at);
      }
    }

    /** Repeat the first row of the image above it. */
    method PadTop(ghost numrows: nat)
      requires Wired() && context && 0 < numrows <= 2 * v && Shown(v, v + numrows, 0 - v)
      modifies rows
      ensures Wired() && Shown(0, v + numrows, 0 - v)
    {
      for row := 1 to v + 1
        invariant Wired() && Shown(v + 1 - row, v + numrows, 0 - v)
      {
        assert Row(v) == Clamped(img, 0);
        assert forall q :: v - row < q < v + numrows ==>
               colorBuf[q] != colorBuf[v - row]
               && Row(q) == Clamped(img, q - v);
        label Before:
        rows[colorBuf[v - row]] := rows[colorBuf[v]];
        forall q | v - row <= q < v + numrows
          ensures Row(q) == Clamped(img, 0 - v + q)
        {
          assert q > v - row ==> Row(q) == old@Before(Row(q));
        }
      }
    }

    /** What ReadRows starts from: nothing shown yet, or all rows up to the last one stored. */
    lemma {:induction false} ReadStart(lo: int)
      requires Valid() && rowsToGo > 0 && lo == if rowsToGo == imageHeight then origin else thisRowGroup
      ensures img != [] && thisRowGroup <= lo <= thisRowGroup + origin <= Now().End(nextBufRow) <= colorBuf.Length
      ensures Shown(lo, Now().End(nextBufRow), Now().At())
      ensures Now().At() + Now().End(nextBufRow) == imageHeight - rowsToGo && rowsToGo <= imageHeight == |img|
      ensures rowsToGo == imageHeight ==>
              thisRowGroup == 0 && Now().At() == 0 - origin
              && Now().End(nextBufRow) == origin
      ensures rowsToGo == imageHeight && context ==> origin == v && nextBufStop == 2 * v && nextBufRow == 0
      ensures rowsToGo == imageHeight && !context ==> origin == 0
    {
    }

    /** Convert rows into the buffer, and pad at the top of the image when they are the first. */
    method ReadRows(input: seq<T>, inRowCtr: nat) returns (numrows: nat)
      requires Valid() && inRowCtr < |input| && |input| - inRowCtr <= rowsToGo
      requires forall i :: inRowCtr <= i < |input| ==> input[i] == img[imageHeight - rowsToGo + i - inRowCtr]
      modifies this`rowsToGo, this`nextBufRow, rows
      ensures Stored() && 0 < numrows <= |input| - inRowCtr
      ensures rowsToGo == old(rowsToGo) - numrows && nextBufRow == old(nextBufRow) + numrows
      ensures nextBufRow <= nextBufStop && (nextBufRow < nextBufStop ==> inRowCtr + numrows == |input|)
    {
      hide Shown, Start, Wired, Place.Sound, Place.End, Place.At;
      var inrows := |input| - inRowCtr;
      numrows := nextBufStop - nextBufRow;
      numrows := if numrows < inrows then numrows else inrows;
      ghost var p := Now();
      ghost var lo, hi, at := if rowsToGo == imageHeight then origin else thisRowGroup, p.End(nextBufRow), p.At();
      ReadStart(lo);
      forall i | inRowCtr <= i < inRowCtr + numrows
        ensures input[i] == Clamped(img, at + hi + i - inRowCtr)
      {
        assert at + hi == imageHeight - rowsToGo;
      }
      ColorConvert(input, inRowCtr, numrows, lo, hi, at);
      if context && rowsToGo == imageHeight {
        PadTop(numrows);
      }
      p.ReadSound(numrows);
      nextBufRow := nextBufRow + numrows;
      rowsToGo := rowsToGo - numrows;
      assert Now() == p.Read(numrows);
    }

    /** The pointer before the one to store at next is that of the last row stored; it may be above pointer 0. */
    lemma {:induction false} LastPointer()
      requires Wired() && Now().Sound() && rowsToGo == 0 && (context || nextBufRow > 0)
      ensures thisRowGroup <= Now().End(nextBufRow) - 1 < colorBuf.Length
              && 0 <= origin + nextBufRow - 1 < colorBuf.Length
      ensures 0 <= colorBuf[origin + nextBufRow - 1] < rows.Length
      ensures Row(Now().End(nextBufRow) - 1) == rows[colorBuf[origin + nextBufRow - 1]]
      ensures Now().At() + Now().End(nextBufRow) >= imageHeight
    {
    }

    /** Repeat the last row of the image below it. */
    method ExpandBottomEdge(inputRows: nat, outputRows: nat)
      requires Stored() && rowsToGo == 0 && inputRows == nextBufRow && outputRows == nextBufStop
      requires context || inputRows > 0
      modifies rows
      ensures Wired() && Now().End(outputRows) <= colorBuf.Length
      ensures Shown(thisRowGroup, Now().End(outputRows), Now().At())
    {
      hide Shown, Wired, Continues, Start, Place.Sound, Place.End, Place.At, Clamped;
      Fits();
      LastPointer();
      ghost var lo, hi, at := thisRowGroup, Now().End(nextBufRow), Now().At();
      for i := 0 to outputRows - inputRows
        invariant Wired() && hi + i <= colorBuf.Length && Shown(lo, hi + i, at)
      {
        LastPointer();
        ShownAt(hi - 1, lo, hi + i, at);
        BelowBottom(img, at + hi, i);
        Next(i, lo);
        Put(inputRows + i, rows[colorBuf[origin + inputRows - 1]], lo, hi + i, at);
      }
    }

    /** Collect the rows that the downsampler reads: the group to process, with context rows those around it as well. */
    method Gather() returns (w: seq<T>)
      requires Wired() && thisRowGroup + (if context then 3 * v else v) <= colorBuf.Length
      ensures |w| == (if context then 3 * v else v)
      ensures forall i :: 0 <= i < |w| ==> w[i] == Row(thisRowGroup + i)
    {
      w := [];
      for i := 0 to if context then 3 * v else v
        invariant |w| == i && forall k :: 0 <= k < i ==> w[k] == Row(thisRowGroup + k)
      {
        w := w + [rows[colorBuf[thisRowGroup + i]]];
      }
    }

    /** A full buffer shows the downsampler the rows it is to see. */
    lemma {:induction false} Full(w: seq<T>)
      requires Wired() && base == Start(done, v) && Now().Sound() && nextBufRow == nextBufStop
      requires Now().End(nextBufRow) <= colorBuf.Length && Shown(thisRowGroup, Now().End(nextBufRow), Now().At())
      requires base < imageHeight || context
      requires |w| == if context then 3 * v else v
      requires thisRowGroup + |w| <= colorBuf.Length && forall i :: 0 <= i < |w| ==> w[i] == Row(thisRowGroup + i)
      ensures down(w) == Group(img, v, context, down, done)
    {
      if context {
        assert w == Window(img, base - v, 3 * v);
      } else {
        assert w == Window(img, base, v);
      }
    }

    /** With context rows, two thirds of what the buffer showed can be seen from the next group as well. */
    lemma {:induction false} Slide(group: nat, at: int)
      requires Wired() && context && (group == 0 || group == v || group == 2 * v) && Shown(group, group + 3 * v, at)
      ensures group < 2 * v ==> Shown(group + v, group + 3 * v, at)
      ensures group == 2 * v ==> Shown(0, 2 * v, at + 3 * v)
    {
      if group == 2 * v {
        forall q | 0 <= q < 2 * v
          ensures Row(q) == Clamped(img, at + 3 * v + q)
        {
          assert Row(q) == Row(q + 3 * v);
        }
      }
    }

    /** The output buffer is not part of this object. */
    ghost predicate Apart(output: array<seq<S>>)
    {
      output as object != rows as object && output as object != colorBuf as object && output as object != this as object
    }

    /** Everything is there for the downsampler. */
    ghost predicate Ready()
      reads this, colorBuf, rows
    {
      && Wired() && base == Start(done, v) && Now().Sound() && nextBufRow == nextBufStop
      && (if context then rowsToGo < imageHeight else base < imageHeight)
      && Now().End(nextBufRow) <= colorBuf.Length && Shown(thisRowGroup, Now().End(nextBufRow), Now().At())
    }

    /** Put the group out to the downsampler. */
    method Downsample(output: array<seq<S>>, outRowGroupCtr: nat)
      requires Ready() && Apart(output) && outRowGroupCtr < output.Length
      modifies output
      ensures Ready() && output[outRowGroupCtr] == Group(img, v, context, down, done)
      ensures forall k :: 0 <= k < output.Length && k != outRowGroupCtr ==> output[k] == old(output[k])
    {
      Now().EmittedSound();
      var w := Gather();
      Full(w);
      output[outRowGroupCtr] := down(w);
    }

    lemma {:induction false} GroupPlaces()
      requires Wired() && Now().Sound()
      ensures context ==> thisRowGroup == 0 || thisRowGroup == v || thisRowGroup == 2 * v
      ensures !context ==> thisRowGroup == origin == 0
    {
    }

    lemma {:induction false} ShownNone(at: int)
      requires Wired()
      ensures Shown(0, 0, at)
    {
    }

    /** What the next row group starts from. */
    lemma {:induction false} Emitting()
      requires Ready()
      ensures var q := Now().Emitted();
              && q.Sound() && q.row < q.stop && (context || q.row == 0) && q.base == Start(done + 1, v)
              && 0 <= q.group && q.End(q.row) <= colorBuf.Length && Shown(q.group, q.End(q.row), q.At())
    {
      var p := Now();
      p.EmittedSound();
      GroupPlaces();
      ShownNone(p.Emitted().At());
      StartNext(done, v);
      if context {
        hide Wired, Shown, Place.Sound;
        Slide(thisRowGroup, p.At());
      }
    }

    /** Advance pointers with wraparound as necessary. */
    method Advance()
      requires Ready()
      modifies this
      ensures Valid() && done == old(done) + 1 && rowsToGo == old(rowsToGo) && (context || nextBufRow == 0)
    {
      Emitting();
      ghost var q := Now().Emitted();
      hide Shown, Wired, Start, Place.Sound, Place.End, Place.At;
      if context {
        thisRowGroup := thisRowGroup + v;
        if thisRowGroup >= 3 * v {
          thisRowGroup := 0;
        }
        if nextBufRow >= 3 * v {
          nextBufRow := 0;
        }
        nextBufStop := nextBufRow + v;
      } else {
        nextBufRow := 0;
      }
      done, base := done + 1, base + v;
      assert Now() == q;
    }

    /** When at bottom of image, pad to fill the conversion buffer. */
    method PadBottom()
      requires Stored() && rowsToGo == 0 && (context || nextBufRow > 0)
      modifies this`nextBufRow, rows
      ensures Stored() && nextBufRow == nextBufStop
    {
      if nextBufRow < nextBufStop {
        ghost var p := Now();
        ExpandBottomEdge(nextBufRow, nextBufStop);
        p.FilledSound();
        hide Shown, Wired, Start, Place.Sound, Place.End;
        nextBufRow := nextBufStop;
        assert Now() == p.Filled();
      }
    }

    lemma {:induction false} FullBuffer()
      requires Stored() && nextBufRow == nextBufStop && (context || base < imageHeight)
      ensures Ready()
    {
    }

    /** Downsample a row group and go on to the next. */
    method Emit(output: array<seq<S>>, outRowGroupCtr: nat)
      requires Stored() && nextBufRow == nextBufStop && (context || base < imageHeight)
      requires Apart(output) && outRowGroupCtr < output.Length
      modifies this, output
      ensures Valid() && done == old(done) + 1 && rowsToGo == old(rowsToGo) && (context || nextBufRow == 0)
      ensures output[outRowGroupCtr] == Group(img, v, context, down, old(done))
      ensures forall k :: 0 <= k < output.Length && k != outRowGroupCtr ==> output[k] == old(output[k])
    {
      hide Stored, Ready, Valid, Group;
      FullBuffer();
      Downsample(output, outRowGroupCtr);
      Advance();
    }

    lemma {:induction false} Basics()
      requires Valid()
      ensures v > 0 && img != [] && rowsToGo <= imageHeight == |img|
    {
    }

    /** When all rows have been read without context rows, the next row group is below the bottom. */
    lemma {:induction false} Reached()
      requires Valid()
      ensures !context && rowsToGo == 0 ==> Start(done, v) >= imageHeight
    {
    }

    /** The rows handed over are the next ones of the image. */
    ghost predicate Upcoming(input: seq<T>, inRowCtr: nat)
      reads this
    {
      && rowsToGo <= imageHeight == |img| && (inRowCtr < |input| ==> |input| - inRowCtr <= rowsToGo)
      && forall i :: inRowCtr <= i < |input| ==> input[i] == img[imageHeight - rowsToGo + i - inRowCtr]
    }

    /** The first n groups of the output are row groups of the image, the first of them row group first. */
    ghost predicate Groups(output: array<seq<S>>, n: nat, first: nat)
      requires n <= output.Length && img != [] && v > 0
      reads output
    {
      forall k :: 0 <= k < n ==> output[k] == Group(img, v, context, down, first + k)
    }

    /** pre_process_context: fill the output with row groups as long as there are rows for them. */
    method PreProcessContext(input: seq<T>, inRowCtr: nat, output: array<seq<S>>, outRowGroupCtr: nat, avail: nat,
                             ghost first: nat)
      returns (inRow: nat, outGroup: nat)
      requires Valid() && context && Apart(output) && outRowGroupCtr <= avail <= output.Length
               && Upcoming(input, inRowCtr)
      requires img != [] && v > 0 && done == first + outRowGroupCtr && Groups(output, outRowGroupCtr, first)
      modifies this, rows, output
      ensures Valid() && inRowCtr <= inRow && (inRow <= |input| || inRow == inRowCtr)
      ensures outRowGroupCtr <= outGroup <= avail
      ensures inRow == inRowCtr && old(rowsToGo) > 0 ==> outGroup == outRowGroupCtr
      ensures rowsToGo == old(rowsToGo) - (inRow - inRowCtr) && Upcoming(input, inRow)
      ensures done == first + outGroup && Groups(output, outGroup, first)
      ensures outGroup < avail ==> inRow >= |input| && rowsToGo != 0
    {
      hide Stored, Group;
      Basics();
      inRow, outGroup := inRowCtr, outRowGroupCtr;
      while outGroup < avail
        invariant Valid() && inRowCtr <= inRow && (inRow <= |input| || inRow == inRowCtr)
        invariant outRowGroupCtr <= outGroup <= avail && Upcoming(input, inRow)
        invariant inRow == inRowCtr && old(rowsToGo) > 0 ==> outGroup == outRowGroupCtr
        invariant rowsToGo == old(rowsToGo) - (inRow - inRowCtr)
        invariant done == first + outGroup && Groups(output, outGroup, first)
        decreases avail - outGroup, |input| - inRow
      {
        if inRow < |input| {
          var numrows := ReadRows(input, inRow);
          inRow := inRow + numrows;
        } else {
          // return for more data, unless we are at the bottom of the image
          if rowsToGo != 0 {
            break;
          }
          PadBottom();
        }
        if nextBufRow == nextBufStop {
          Emit(output, outGroup);
          outGroup := outGroup + 1;
        }
      }
    }

    /** Past the bottom, row groups repeat the last row. */
    lemma {:induction false} PastBottom(g: nat, k: nat)
      requires v > 0 && img != [] && !context && Start(g, v) < |img| <= Start(g + 1, v) && k > g
      ensures Group(img, v, context, down, k) == Repeated(Group(img, v, context, down, g))
    {
      LastGroup(|img|, g, v);
      MulMonotonic(g + 1, k, v);
      assert Start(k, v) >= |img|;
      hide Start;
    }

    /** Pad the output to a full iMCU height, with the last row of the group before. */
    method ExpandOutput(output: array<seq<S>>, from: nat, to: nat, ghost last: nat)
      requires 0 < from <= to <= output.Length && v > 0 && img != [] && !context
      requires output[from - 1] == Group(img, v, context, down, last) && Start(last, v) < |img| <= Start(last + 1, v)
      modifies output
      ensures forall k :: from <= k < to ==> output[k] == Group(img, v, context, down, last + 1 + k - from)
      ensures forall k :: 0 <= k < from ==> output[k] == old(output[k])
    {
      for k := from to to
        invariant forall j :: from <= j < k ==> output[j] == Group(img, v, context, down, last + 1 + j - from)
        invariant forall j :: 0 <= j < from ==> output[j] == old(output[j])
      {
        PastBottom(last, last + 1 + k - from);
        output[k] := DuplicateBottom(output[from - 1]);
      }
    }

    /** Rows for another group, by duplicating the bottom row. */
    method DuplicateBottom(group: seq<S>) returns (copy: seq<S>)
      ensures RepeatsLast(copy, group) && copy == Repeated(group)
    {
      copy := [];
      for i := 0 to |group|
        invariant |copy| == i && forall q :: 0 <= q < i ==> copy[q] == group[|group| - 1]
      {
        copy := copy + [group[|group| - 1]];
      }
    }

    /** The groups past the bottom repeat the last row that was made from the image. */
    ghost predicate PaddedBelow(output: array<seq<S>>, n: nat, first: nat)
      requires n <= output.Length && img != [] && v > 0
      reads output
    {
      forall k :: 0 <= k < n && Start(first + k, v) >= |img| ==>
        RepeatsLast(output[k], down(Window(img, Start((|img| - 1) / v, v), v)))
    }

    lemma {:induction false} GroupsBelow(output: array<seq<S>>, n: nat, first: nat)
      requires n <= output.Length && img != [] && v > 0 && !context && Groups(output, n, first)
      ensures PaddedBelow(output, n, first)
    {
      forall k | 0 <= k < n && Start(first + k, v) >= |img|
        ensures RepeatsLast(output[k], down(Window(img, Start((|img| - 1) / v, v), v)))
      {
        BelowImage(img, v, down, first + k);
      }
    }

    /** Groups past the bottom count as put out. */
    ghost method Skip(n: nat)
      requires Valid() && !context && rowsToGo == 0 && nextBufRow == 0
      modifies this`done, this`base
      ensures Valid() && done == old(done) + n
    {
      assert Start(done + n, v) == Start(done, v) + n * v;
      done, base := done + n, base + n * v;
    }

    lemma {:induction false} PlainFacts()
      requires Stored() && !context
      ensures base == Start(done, v) && (rowsToGo > 0 ==> base < imageHeight)
      ensures nextBufStop == v > 0 && nextBufRow <= v
    {
    }

    /** At the end of the image, the last group put out is the last that has a row of the image in it. */
    lemma {:induction false} AtBottom()
      requires Valid() && !context && rowsToGo == 0 && nextBufRow == 0 && done > 0 && Start(done - 1, v) < imageHeight
      ensures Start(done - 1, v) < |img| <= Start(done - 1 + 1, v)
    {
    }

    /** pre_process_data: without context rows, fill the output with row groups as long as there are rows for them,
        and at the bottom of the image to the end. */
    method PreProcessData(input: seq<T>, inRowCtr: nat, output: array<seq<S>>, outRowGroupCtr: nat, avail: nat,
                             ghost first: nat)
      returns (inRow: nat, outGroup: nat)
      requires Valid() && !context && Apart(output) && outRowGroupCtr <= avail <= output.Length
               && Upcoming(input, inRowCtr)
      requires img != [] && v > 0 && done == first + outRowGroupCtr && Groups(output, outRowGroupCtr, first)
      modifies this, rows, output
      ensures Valid() && inRowCtr <= inRow && (inRow <= |input| || inRow == inRowCtr)
      ensures outRowGroupCtr <= outGroup <= avail
      ensures inRow == inRowCtr && old(rowsToGo) > 0 ==> outGroup == outRowGroupCtr
      ensures rowsToGo == old(rowsToGo) - (inRow - inRowCtr) && Upcoming(input, inRow)
      ensures done == first + outGroup && Groups(output, outGroup, first)
      ensures outGroup < avail ==> inRow >= |input| && (rowsToGo != 0 || old(rowsToGo) == 0)
      ensures old(rowsToGo) > 0 ==> Start(old(done), v) < imageHeight
      ensures PaddedBelow(output, outGroup, first)
    {
      hide Stored, Group, PaddedBelow;
      Basics();
      PlainFacts();
      inRow, outGroup := inRowCtr, outRowGroupCtr;
      while inRow < |input| && outGroup < avail
        invariant Valid() && inRowCtr <= inRow && (inRow <= |input| || inRow == inRowCtr)
        invariant outRowGroupCtr <= outGroup <= avail && Upcoming(input, inRow)
        invariant inRow == inRowCtr && old(rowsToGo) > 0 ==> outGroup == outRowGroupCtr
        invariant rowsToGo == old(rowsToGo) - (inRow - inRowCtr)
        invariant done == first + outGroup && Groups(output, outGroup, first)
        invariant outGroup < avail && inRow >= |input| ==> rowsToGo != 0 || old(rowsToGo) == 0
        decreases |input| - inRow
      {
        PlainFacts();
        var numrows := ReadRows(input, inRow);
        inRow := inRow + numrows;
        if rowsToGo == 0 {
          PadBottom();
        }
        if nextBufRow == nextBufStop {
          Emit(output, outGroup);
          outGroup := outGroup + 1;
        }
        if rowsToGo == 0 && outGroup < avail {
          AtBottom();
          ExpandOutput(output, outGroup, avail, done - 1);
          Skip(avail - outGroup);
          outGroup := avail;
        }
      }
      GroupsBelow(output, outGroup, first);
    }

    /** The routine selected by jinit_c_prep_controller. */
    method PreProcess(input: seq<T>, inRowCtr: nat, output: array<seq<S>>, outRowGroupCtr: nat, avail: nat,
                             ghost first: nat)
      returns (inRow: nat, outGroup: nat)
      requires Valid() && Apart(output) && outRowGroupCtr <= avail <= output.Length && Upcoming(input, inRowCtr)
      requires img != [] && v > 0 && done == first + outRowGroupCtr && Groups(output, outRowGroupCtr, first)
      modifies this, rows, output
      ensures Valid() && inRowCtr <= inRow && (inRow <= |input| || inRow == inRowCtr)
      ensures outRowGroupCtr <= outGroup <= avail
      ensures inRow == inRowCtr && old(rowsToGo) > 0 ==> outGroup == outRowGroupCtr
      ensures rowsToGo == old(rowsToGo) - (inRow - inRowCtr) && Upcoming(input, inRow)
      ensures done == first + outGroup && Groups(output, outGroup, first)
      ensures outGroup < avail ==> inRow >= |input| && (rowsToGo != 0 || (!context && old(rowsToGo) == 0))
      ensures !context && old(rowsToGo) > 0 ==> Start(old(done), v) < imageHeight
    {
      if context {
        inRow, outGroup := PreProcessContext(input, inRowCtr, output, outRowGroupCtr, avail, first);
      } else {
        inRow, outGroup := PreProcessData(input, inRowCtr, output, outRowGroupCtr, avail, first);
      }
    }
  }
}

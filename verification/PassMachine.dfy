/** The master controller's passes (jcmaster.c) and the loop that finishes a file (jcapimin.c). */
module PassMachine {

  datatype PassType = MainPass | HuffOptPass | OutputPass

  datatype BufMode = PassThru | SaveAndPass | CrankDest

  datatype Error = BadBufferMode | CantSuspend | TooLittleData

  datatype Result = Fine | Failed(error: Error)

  /** What one scan of the script means to the pass machine. */
  datatype ScanKind = ScanKind(ss: nat, ah: nat)

  /** What happens to the datastream: headers, iMCU rows of a scan through the entropy coder, which only gathers
      statistics or puts out data, and the end of such a pass, where it makes its tables or flushes its buffer. */
  datatype Event =
    | FrameHeader
    | ScanHeader(scan: nat)
    | CodeRow(scan: nat, row: nat, gather: bool)
    | EndPass(scan: nat, gather: bool)
    | FileTrailer

  function Rows(scan: nat, n: nat, gather: bool): (e: seq<Event>)
    ensures |e| == n
  {
    seq(n, r requires 0 <= r < n => CodeRow(scan, r, gather))
  }

  /** One pass over the data of a scan, and its end. */
  function Body(scan: nat, n: nat, gather: bool): seq<Event> {
    Rows(scan, n, gather) + [EndPass(scan, gather)]
  }

  function Headers(scan: nat): seq<Event> {
    if scan == 0 then [FrameHeader, ScanHeader(scan)] else [ScanHeader(scan)]
  }

  /** A whole scan: a statistics pass if there is one, the headers, the data. */
  function ScanEvents(scan: nat, n: nat, analyzed: bool): seq<Event> {
    (if analyzed then Body(scan, n, true) else []) + Headers(scan) + Body(scan, n, false)
  }

  /** The scan that an event is part of. */
  function ScanOf(e: Event): nat {
    match e
    case FrameHeader => 0
    case FileTrailer => 0
    case _ => e.scan
  }

  /** What one scan consists of. */
  predicate Belongs(e: Event, n: nat, analyzed: bool) {
    !e.FileTrailer? && (e.CodeRow? ==> e.row < n) && ((e.CodeRow? || e.EndPass?) && e.gather ==> analyzed)
  }

  lemma {:induction false} RowsOnce(scan: nat, n: nat, gather: bool, e: Event)
    ensures multiset(Rows(scan, n, gather))[e] ==
            if e.CodeRow? && e.scan == scan && e.row < n && e.gather == gather then 1 else 0
  {
    if n == 0 {
      assert Rows(scan, n, gather) == [];
    } else {
      RowsOnce(scan, n - 1, gather, e);
      assert Rows(scan, n, gather) == Rows(scan, n - 1, gather) + [CodeRow(scan, n - 1, gather)];
    }
  }

  lemma {:induction false} ScanOnce(scan: nat, n: nat, analyzed: bool, e: Event)
    ensures multiset(ScanEvents(scan, n, analyzed))[e] == if ScanOf(e) == scan && Belongs(e, n, analyzed) then 1 else 0
  {
    RowsOnce(scan, n, true, e);
    RowsOnce(scan, n, false, e);
    hide Rows;
    var a := if analyzed then Body(scan, n, true) else [];
    assert multiset(ScanEvents(scan, n, analyzed))
           == multiset(a) + multiset(Headers(scan)) + multiset(Body(scan, n, false));
  }

  // The order of a file

  /** What must stand before what: the frame header before the scan headers; a scan header before the data of its scan,
      but behind the statistics of its scan and behind all of the scans before; in each pass the rows from top to
      bottom, and its end behind them; the trailer behind everything. */
  predicate ComesBefore(a: Event, b: Event) {
    || (a.FrameHeader? && b.ScanHeader?)
    || (a.ScanHeader? && b.CodeRow? && a.scan == b.scan && !b.gather)
    || ((a.CodeRow? || a.EndPass?) && a.gather && b.ScanHeader? && a.scan == b.scan)
    || ((a.CodeRow? || a.EndPass?) && (b.ScanHeader? || b.CodeRow? || b.EndPass?) && a.scan < b.scan)
    || (a.CodeRow? && b.CodeRow? && a.scan == b.scan && a.gather == b.gather && a.row < b.row)
    || (a.CodeRow? && b.EndPass? && a.scan == b.scan && a.gather == b.gather)
    || (!a.FileTrailer? && b.FileTrailer?)
  }

  ghost predicate InOrder(es: seq<Event>) {
    forall i, j :: 0 <= i < |es| && 0 <= j < |es| && ComesBefore(es[i], es[j]) ==> i < j
  }

  /** The steps of a scan; the trailer comes behind all scans. */
  function Step(e: Event): nat {
    match e
    case CodeRow(_, _, gather) => if gather then 0 else 4
    case EndPass(_, gather) => if gather then 1 else 5
    case FrameHeader => 2
    case ScanHeader(_) => 3
    case FileTrailer => 6
  }

  predicate Less(a: Event, b: Event) {
    || ScanOf(a) < ScanOf(b)
    || (ScanOf(a) == ScanOf(b) && Step(a) < Step(b))
    || (a.CodeRow? && b.CodeRow? && a.scan == b.scan && a.gather == b.gather && a.row < b.row)
  }

  predicate Sorted(es: seq<Event>) {
    forall i, j :: 0 <= i < j < |es| ==> Less(es[i], es[j])
  }

  predicate AllLess(a: seq<Event>, b: seq<Event>) {
    forall i, j :: 0 <= i < |a| && 0 <= j < |b| ==> Less(a[i], b[j])
  }

  lemma {:induction false} Joined(a: seq<Event>, b: seq<Event>)
    requires Sorted(a) && Sorted(b) && AllLess(a, b)
    ensures Sorted(a + b)
  {
  }

  lemma {:induction false} ScanSorted(scan: nat, n: nat, analyzed: bool)
    ensures Sorted(ScanEvents(scan, n, analyzed)) && OfScan(ScanEvents(scan, n, analyzed), scan)
  {
    hide Sorted, AllLess;
    BodySorted(scan, n, true);
    BodySorted(scan, n, false);
    HeadersSorted(scan, n);
    var a := if analyzed then Body(scan, n, true) else [];
    Joined(a, Headers(scan));
    BehindAnalysis(scan, n, analyzed);
    Joined(a + Headers(scan), Body(scan, n, false));
  }

  predicate OfScan(es: seq<Event>, scan: nat) {
    forall i :: 0 <= i < |es| ==> ScanOf(es[i]) == scan && !es[i].FileTrailer?
  }

  lemma {:induction false} BodySorted(scan: nat, n: nat, gather: bool)
    ensures Sorted(Body(scan, n, gather)) && OfScan(Body(scan, n, gather), scan)
    ensures Sorted([])
  {
  }

  lemma {:induction false} HeadersSorted(scan: nat, n: nat)
    ensures Sorted(Headers(scan)) && OfScan(Headers(scan), scan)
    ensures AllLess(Body(scan, n, true), Headers(scan)) && AllLess([], Headers(scan))
  {
  }

  lemma {:induction false} BehindAnalysis(scan: nat, n: nat, analyzed: bool)
    ensures AllLess((if analyzed then Body(scan, n, true) else []) + Headers(scan), Body(scan, n, false))
  {
  }

  lemma {:induction false} NotBefore(a: Event, b: Event)
    requires Less(a, b) && !a.FileTrailer? && !b.FileTrailer?
    ensures !ComesBefore(b, a)
  {
  }

  lemma {:induction false} SortedInOrder(es: seq<Event>, n: nat)
    requires Sorted(es) && forall i :: 0 <= i < |es| ==> !es[i].FileTrailer?
    ensures InOrder(es + [FileTrailer])
  {
    var file := es + [FileTrailer];
    forall i, j | 0 <= j <= i < |file| ensures !ComesBefore(file[i], file[j]) {
      if j < i < |es| {
        NotBefore(es[j], es[i]);
      }
    }
  }

  class Compressor {
    const scans: seq<ScanKind>
    const transcodeOnly: bool
    const optimizeCoding: bool
    const totalIMcuRows: nat
    const wholeImage: bool              // there is a full-image coefficient buffer
    // Whether the destination takes what call n of the coefficient controller puts out.
    const accepts: nat -> bool
    const totalPasses: nat
    var passType: PassType              // the type of the current pass
    var passNumber: nat                 // # of passes completed
    var scanNumber: nat                 // current index in scan_info[]
    var isLastPass: bool
    var calls: nat
    var callPassStartup: bool
    var selected: nat                   // the scan whose parameters are set up
    var gather: bool                    // the entropy coder gathers statistics
    var iMcuRowNum: nat                 // iMCU row # within image
    var events: seq<Event>

    /** jinit_c_master_control, and the choice of a coefficient buffer by jinit_compress_master. */
    constructor (scans: seq<ScanKind>, transcodeOnly: bool, optimize: bool, arith: bool, progressive: bool,
                 blockSize: nat, rows: nat, accepts: nat -> bool)
      requires |scans| > 0
      ensures this.scans == scans && this.transcodeOnly == transcodeOnly && this.accepts == accepts
      ensures totalIMcuRows == rows
      ensures optimizeCoding == (optimize || (!arith && (progressive || 1 < blockSize < 8)))
      ensures Between() && passNumber == 0 && scanNumber == 0 && events == [] && passType.MainPass? == !transcodeOnly
    {
      var optimizing := optimize || (!arith && (progressive || (blockSize > 1 && blockSize < 8)));
      this.scans, this.transcodeOnly, this.accepts, this.totalIMcuRows := scans, transcodeOnly, accepts, rows;
      optimizeCoding := optimizing;
      passType := if !transcodeOnly then MainPass else if optimizing then HuffOptPass else OutputPass;
      scanNumber, passNumber := 0, 0;
      totalPasses := if optimizing then |scans| * 2 else |scans|;
      wholeImage := transcodeOnly || |scans| > 1 || optimizing;
      isLastPass, callPassStartup := false, false;
      selected, gather, iMcuRowNum, events, calls := 0, false, 0, [], 0;
    }

    /** The scans for which there is a statistics pass: all when optimizing, except Huffman-coded DC refinements,
        which need no table; but the main pass gathers statistics whatever the scan is. */
    ghost predicate Analyzed(scan: nat)
      requires scan < |scans|
    {
      optimizeCoding && (scans[scan].ss != 0 || scans[scan].ah == 0 || (scan == 0 && !transcodeOnly))
    }

    /** Everything up to a scan. */
    ghost function Upto(scan: nat): seq<Event>
      requires scan <= |scans|
    {
      if scan == 0 then [] else Upto(scan - 1) + ScanEvents(scan - 1, totalIMcuRows, Analyzed(scan - 1))
    }

    /** The buffers that were made fit the passes to come. */
    ghost predicate Made()
    {
      && |scans| > 0 && totalPasses == (if optimizeCoding then |scans| * 2 else |scans|)
      && wholeImage == (transcodeOnly || |scans| > 1 || optimizeCoding)
    }

    /** A state between two passes: what is written is exactly the scans before, and where the scan has been analyzed
        the parameters and tables for it are in place. */
    ghost predicate Between()
      reads this
    {
      && Made() && scanNumber <= |scans| && (isLastPass <==> passNumber == totalPasses)
      && (passNumber < totalPasses ==> scanNumber < |scans|)
      && match passType
         case MainPass => !transcodeOnly && passNumber == 0 && scanNumber == 0 && events == []
         case HuffOptPass =>
           optimizeCoding && passNumber == 2 * scanNumber && (scanNumber == 0 ==> transcodeOnly)
             && events == Upto(scanNumber)
         case OutputPass =>
           if optimizeCoding then
             && passNumber == 2 * scanNumber + 1 && scanNumber < |scans| && selected == scanNumber
               && Analyzed(scanNumber)
             && events == Upto(scanNumber) + Body(scanNumber, totalIMcuRows, true)
           else
             passNumber == scanNumber && events == Upto(scanNumber) && (scanNumber == 0 ==> transcodeOnly)
    }

    /** What is written when the first row of the current pass is coded. */
    ghost function Before(): seq<Event>
      requires scanNumber < |scans|
      reads `scanNumber, `gather
    {
      if gather then Upto(scanNumber)
      else
        Upto(scanNumber) + (if Analyzed(scanNumber) then Body(scanNumber, totalIMcuRows, true) else [])
        + Headers(scanNumber)
    }

    /** A state in the middle of a pass: it works on the right scan, and it is marked as the last if and only if it
        is the data pass of the last scan. */
    ghost predicate During()
      reads this
    {
      && Made() && scanNumber < |scans| && selected == scanNumber && iMcuRowNum <= totalIMcuRows
      && passNumber < totalPasses && (isLastPass <==> passNumber == totalPasses - 1)
      && (isLastPass <==> scanNumber == |scans| - 1 && !gather)
      && passNumber == (if optimizeCoding && !gather then 2 * scanNumber + 1
                        else if gather then 2 * scanNumber
                        else scanNumber)
      && (gather ==> Analyzed(scanNumber))
      && (match passType
          case MainPass => !transcodeOnly && passNumber == 0 && gather == optimizeCoding
          case HuffOptPass => gather && (scanNumber == 0 ==> transcodeOnly)
          case OutputPass => !gather && (scanNumber == 0 ==> transcodeOnly || optimizeCoding))
      && if callPassStartup then passType.MainPass? && !gather && iMcuRowNum == 0 && events == []
         else events == Before() + Rows(scanNumber, iMcuRowNum, gather)
    }

    /** Among what is written for the first m scans, everything that belongs to one of them is exactly once, and
        nothing else: the frame header, the header of each scan, each row of its data, and of its statistics pass if
        it has one. */
    lemma {:induction false} EachOnce(m: nat, e: Event)
      requires m <= |scans|
      ensures multiset(Upto(m))[e] ==
              if ScanOf(e) < m && Belongs(e, totalIMcuRows, Analyzed(ScanOf(e))) then 1 else 0
    {
      hide Upto, ScanEvents;
      UptoNext(m);
      if m > 0 {
        EachOnce(m - 1, e);
        ScanOnce(m - 1, totalIMcuRows, Analyzed(m - 1), e);
      }
    }

    /** What is written for the first m scans is sorted. */
    lemma {:induction false} UptoSorted(m: nat)
      requires m <= |scans|
      ensures Sorted(Upto(m)) && forall i :: 0 <= i < |Upto(m)| ==> ScanOf(Upto(m)[i]) < m && !Upto(m)[i].FileTrailer?
    {
      hide ScanEvents;
      if m > 0 {
        UptoSorted(m - 1);
        ScanSorted(m - 1, totalIMcuRows, Analyzed(m - 1));
        Joined(Upto(m - 1), ScanEvents(m - 1, totalIMcuRows, Analyzed(m - 1)));
      }
    }

    /** The finished file has everything in its order, once. */
    ghost predicate Complete(file: seq<Event>)
    {
      && InOrder(file)
      && forall e: Event :: multiset(file)[e] ==
           if e.FileTrailer? || (ScanOf(e) < |scans| && Belongs(e, totalIMcuRows, Analyzed(ScanOf(e)))) then 1 else 0
    }

    lemma {:induction false} WholeFile()
      ensures Complete(Upto(|scans|) + [FileTrailer])
    {
      hide Sorted, InOrder, Upto;
      UptoSorted(|scans|);
      SortedInOrder(Upto(|scans|), |scans|);
      forall e: Event
        ensures multiset(Upto(|scans|) + [FileTrailer])[e] ==
          if e.FileTrailer? || (ScanOf(e) < |scans| && Belongs(e, totalIMcuRows, Analyzed(ScanOf(e)))) then 1 else 0
      {
        EachOnce(|scans|, e);
      }
    }

    lemma {:induction false} UptoNext(m: nat)
      requires m <= |scans|
      ensures m == 0 ==> multiset(Upto(m)) == multiset{}
      ensures m > 0 ==>
                multiset(Upto(m)) == multiset(Upto(m - 1)) + multiset(ScanEvents(m - 1, totalIMcuRows, Analyzed(m - 1)))
    {
      hide ScanEvents;
    }

    method SelectScanParameters()
      requires scanNumber < |scans|
      modifies this`selected
      ensures selected == scanNumber
    {
      selected := scanNumber;
    }

    /** The coefficient controllers' start_pass: jccoefct.c's, or jctrans.c's. */
    method StartCoef(mode: BufMode) returns (r: Result)
      modifies this`iMcuRowNum
      ensures iMcuRowNum == 0
      ensures r == if (if transcodeOnly then mode == CrankDest else (mode == PassThru) == !wholeImage) then Fine
                   else Failed(BadBufferMode)
    {
      iMcuRowNum := 0;
      if transcodeOnly {
        return if mode != CrankDest then Failed(BadBufferMode) else Fine;
      }
      match mode
      case PassThru => return if wholeImage then Failed(BadBufferMode) else Fine;
      case SaveAndPass => return if !wholeImage then Failed(BadBufferMode) else Fine;
      case CrankDest => return if !wholeImage then Failed(BadBufferMode) else Fine;
    }

    method WriteHeaders()
      requires selected == scanNumber
      modifies this`events
      ensures events == old(events) + Headers(selected)
    {
      if scanNumber == 0 {
        events := events + [FrameHeader];
      }
      events := events + [ScanHeader(selected)];
    }

    /** prepare_for_pass never meets a buffer of the wrong kind, and sets up a pass that continues the file. */
    method PrepareForPass() returns (r: Result)
      requires Between() && !isLastPass
      modifies this
      ensures calls == old(calls)
      ensures r == Fine && During() && iMcuRowNum == 0 && passNumber >= old(passNumber)
      ensures passType.MainPass? == old(passType.MainPass?)
    {
      match passType {
        case MainPass =>
          SelectScanParameters();
          gather := optimizeCoding;
          r := StartCoef(if totalPasses > 1 then SaveAndPass else PassThru);
          if r != Fine {
            return;
          }
          callPassStartup := !optimizeCoding;
        case HuffOptPass =>
          SelectScanParameters();
          if scans[selected].ss != 0 || scans[selected].ah == 0 {
            gather := true;
            r := StartCoef(CrankDest);
            if r != Fine {
              return;
            }
            callPassStartup := false;
          } else {
            // Huffman DC refinement scans need no Huffman table
            passType := OutputPass;
            passNumber := passNumber + 1;
            r := PrepareOutput();
            if r != Fine {
              return;
            }
          }
        case OutputPass =>
          r := PrepareOutput();
          if r != Fine {
            return;
          }
      }
      isLastPass := passNumber == totalPasses - 1;
    }

    /** The part of prepare_for_pass that starts a data output pass. */
    method PrepareOutput() returns (r: Result)
      requires scanNumber < |scans| && (optimizeCoding ==> selected == scanNumber)
      modifies this`selected, this`gather, this`iMcuRowNum, this`events, this`callPassStartup
      ensures iMcuRowNum == 0 && selected == scanNumber && !gather
      ensures r == if transcodeOnly || wholeImage then Fine else Failed(BadBufferMode)
      ensures r == Fine ==> !callPassStartup && events == old(events) + Headers(scanNumber)
    {
      // we need not repeat per-scan setup if prior optimization pass did it
      if !optimizeCoding {
        SelectScanParameters();
      }
      gather := false;
      r := StartCoef(CrankDest);
      if r != Fine {
        return;
      }
      WriteHeaders();
      callPassStartup := false;
    }

    /** Special start-of-pass hook, for a main pass that puts out data. */
    method PassStartup()
      requires During() && callPassStartup
      modifies this`callPassStartup, this`events
      ensures During() && !callPassStartup
    {
      callPassStartup := false;
      events := events + [FrameHeader];
      events := events + [ScanHeader(selected)];
    }

    /** compress_data: one iMCU row through the entropy coder; only data output can be refused. */
    method CompressData() returns (consumed: bool)
      requires During() && !callPassStartup && iMcuRowNum < totalIMcuRows
      modifies this`iMcuRowNum, this`events, this`calls
      ensures During() && consumed == (gather || accepts(old(calls))) && calls == old(calls) + 1
      ensures iMcuRowNum == old(iMcuRowNum) + if consumed then 1 else 0
    {
      consumed := gather || accepts(calls);
      calls := calls + 1;
      if consumed {
        assert Rows(selected, iMcuRowNum + 1, gather)
               == Rows(selected, iMcuRowNum, gather) + [CodeRow(selected, iMcuRowNum, gather)];
        events := events + [CodeRow(selected, iMcuRowNum, gather)];
        iMcuRowNum := iMcuRowNum + 1;
      }
    }

    /** The main pass: any call of jpeg_write_scanlines, which completes up to count iMCU rows. */
    method WriteRows(count: nat)
      requires During() && passType.MainPass? && iMcuRowNum + count <= totalIMcuRows
      modifies this`callPassStartup, this`iMcuRowNum, this`events, this`calls
      ensures During() && !callPassStartup && old(iMcuRowNum) <= iMcuRowNum <= old(iMcuRowNum) + count
    {
      if callPassStartup {
        PassStartup();
      }
      var row := 0;
      var consumed := true;
      while row < count && consumed
        invariant During() && !callPassStartup && row <= count
        invariant old(iMcuRowNum) <= iMcuRowNum <= old(iMcuRowNum) + row
        decreases count - row, if consumed then 1 else 0
      {
        consumed := CompressData();
        row := row + 1;
      }
    }

    /** The end of a pass completes what is to be written before the next one. */
    lemma {:induction false} PassEnds(e: seq<Event>)
      requires scanNumber < |scans| && (gather ==> Analyzed(scanNumber))
      requires e == Before() + Rows(scanNumber, totalIMcuRows, gather) + [EndPass(scanNumber, gather)]
      ensures gather ==> e == Upto(scanNumber) + Body(scanNumber, totalIMcuRows, true)
      ensures !gather ==> e == Upto(scanNumber + 1)
    {
      hide Rows;
      if gather {
        assert e == Upto(scanNumber) + Body(scanNumber, totalIMcuRows, true);
      } else {
        var analysis := if Analyzed(scanNumber) then Body(scanNumber, totalIMcuRows, true) else [];
        Associate(Upto(scanNumber), analysis, Headers(scanNumber), Rows(scanNumber, totalIMcuRows, gather),
                  [EndPass(scanNumber, gather)]);
      }
    }

    static lemma {:induction false} Associate(a: seq<Event>, b: seq<Event>, c: seq<Event>, d: seq<Event>, e: seq<Event>)
      ensures a + b + c + d + e == a + (b + c + (d + e))
    {
    }

    /** finish_pass_master: the state for the next pass. */
    method FinishPass()
      requires During() && iMcuRowNum == totalIMcuRows && !callPassStartup
      modifies this`events, this`passType, this`scanNumber, this`passNumber
      ensures Between() && !passType.MainPass? && passNumber == old(passNumber) + 1
    {
      hide Upto, Rows, Before, Body, Made;
      events := events + [EndPass(selected, gather)];
      PassEnds(events);
      match passType {
        case MainPass =>
          passType := OutputPass;
          if !optimizeCoding {
            scanNumber := scanNumber + 1;
          }
        case HuffOptPass =>
          passType := OutputPass;
        case OutputPass =>
          if optimizeCoding {
            passType := HuffOptPass;
          }
          scanNumber := scanNumber + 1;
      }
      passNumber := passNumber + 1;
    }

    /** The destination takes everything from call n on. */
    ghost predicate AllTaken(n: nat) {
      forall k: nat :: k >= n ==> accepts(k)
    }

    /** One of the remaining passes. */
    method RunPass() returns (r: Result)
      requires Between() && !isLastPass && !passType.MainPass?
      modifies this
      ensures r == Fine || (r == Failed(CantSuspend) && !AllTaken(old(calls)))
      ensures r == Fine ==> Between() && !passType.MainPass? && passNumber > old(passNumber) && calls >= old(calls)
    {
      r := PrepareForPass();
      if r != Fine {
        return;
      }
      for row := 0 to totalIMcuRows
        invariant During() && !callPassStartup && iMcuRowNum == row && passNumber >= old(passNumber)
                  && calls >= old(calls)
      {
        var consumed := CompressData();
        if !consumed {
          return Failed(CantSuspend);
        }
      }
      FinishPass();
    }

    lemma {:induction false} PassesToGo()
      requires Between()
      ensures passNumber <= totalPasses && (transcodeOnly ==> !passType.MainPass?)
    {
      hide Upto, Body;
    }

    lemma {:induction false} AllPassesDone()
      requires Between() && isLastPass && !passType.MainPass?
      ensures events == Upto(|scans|)
    {
      hide Upto, Body;
    }

    /** jpeg_finish_compress: terminate the first pass and perform any remaining ones. The file is complete, every
        scan with its header and its data once and in order, unless rows are missing or the destination did not take
        one. */
    method FinishCompress() returns (r: Result)
      requires if transcodeOnly then Between() && passNumber == 0
               else During() && passType.MainPass? && (totalIMcuRows > 0)
      modifies this
      ensures r == Fine ==> isLastPass && Complete(events) && events != [] && events[|events| - 1] == FileTrailer
      ensures r == Failed(TooLittleData) <==> !transcodeOnly && old(iMcuRowNum) < totalIMcuRows
      ensures r == Failed(CantSuspend) ==> !AllTaken(old(calls))
      ensures r != Failed(BadBufferMode)
    {
      hide Between, Complete, Upto;
      if !transcodeOnly {
        if iMcuRowNum < totalIMcuRows {
          return Failed(TooLittleData);
        }
        FinishPass();
      }
      PassesToGo();
      while !isLastPass
        invariant Between() && !passType.MainPass? && calls >= old(calls)
        decreases totalPasses - passNumber
      {
        PassesToGo();
        r := RunPass();
        if r != Fine {
          return;
        }
      }
      AllPassesDone();
      WholeFile();
      events := events + [FileTrailer];
      r := Fine;
    }
  }
}

# Verification of the JPEG library's entropy coders and compression control

This project models the part of the IJG JPEG library (`libjpeg/`) that turns quantized DCT coefficients into entropy-coded
scans and back, and the control logic that feeds it, and proves what that code is for.

- **Arithmetic coding** (`jcarith.c`, `jdarith.c`, `jaricom.c`; ITU-T T.81, Annex D and sections F.1.4, F.2.4, G.1.3). The
  specification is the coding interval in exact arithmetic (`CodingInterval`): an unbounded integer for the encoder, a real
  code value for the decoder. The encoder's registers, stacked 0xFF bytes, pending zeros and late carries denote that
  interval after every decision (`ArithEncoder`), and so does the decoder's floating cut point (`ArithDecoder`). On top of it
  stand the procedures for coefficients (`CoefficientModel`, written out in `DecisionTables`; `McuEncoder`,
  `McuDecoder`), scans with restart markers
  (`ScanModel`, `ScanEncoder`, `ScanDecoder`, `MarkerReader`), and whole multi-scan files (`MultiScan`).
- **Scripts** (`jcmaster.c`, `jcparam.c`): validation, reduction, the recommended progression, and why a legal script makes
  decoding exact (`ScanScript`, `SimpleProgression`, `MultiScan`).
- **Huffman coding** (`jchuff.c`; sections C.2, F.1.2, F.2.2, G.1.2, K.2): optimal code lengths on chains in an array,
  length limiting, canonical codes, the bit packer with a destination that may refuse data, the statistics pass, the output
  pass that never lacks a code, and the buffered correction bits of refinement scans.
- **Control and buffering** (`jcprepct.c`, `jcmainct.c`, `jcapistd.c`, `jccoefct.c`, `jctrans.c`, `jdcoefct.c`,
  `jcmaster.c`, `jcapimin.c`): rows, row groups, iMCU rows, MCUs with dummy blocks, passes.

Objects whose methods change fields are classes with those fields. A ghost argument or field tells what is going to be
sent (`plan`, `next`), so that a contract can say: if the input stands for this, then this is what comes out. What holds on
arbitrary input is stated without such a condition. A source or destination that may suspend is a function from the number
of the call to its answer.

`dafny verify dfyconfig.toml` checks everything.

## Model

| member | source | states |
|---|---|---|
| ProbabilityTable.Successors | libjpeg/jcarith.c:222-260 | working on the packed table entry with exclusive or, as the coders do, gives the bin that the estimation rules prescribe, including the exchange of the sense |
| CodingInterval.PartsOfEntry | libjpeg/jcarith.c:229-260 | with the Qe of the entry that the bin selects, the lower part of the interval has size a - Qe and the upper one Qe, the more probable symbol owns the larger one, and the bin stays, or moves to the entry's successor for the symbol coded |
| CodingInterval.FinalValueIsBest | libjpeg/jcarith.c:138-145 | the value chosen at termination lies in the interval and has strictly more trailing zero bits than every other value in it |
| CodingInterval.SegmentUnique | libjpeg/jcarith.c:147-192 | for given decisions only one string of data bytes without zeros at its end denotes the final value |
| CodingInterval.CodesDeterministic | libjpeg/jdarith.c:155-179 | a code value fits at most one sense of a decision |
| CodingInterval.SegmentDecodes | libjpeg/jcarith.c:132-311 | about exact intervals: the code value of a terminated segment lies, decision after decision, in the part for the decision that was coded, and the bins end up as the encoder's; FinishPass and ArithDecode tie the two coders to it |
| ByteStream.StuffTrimmed | libjpeg/jcarith.c:147-192 | a finished segment ends in a zero byte only if that byte is stuffed behind an 0xFF |
| ArithEncoder.Encoder.ArithEncode | libjpeg/jcarith.c:218-311 | registers, held-back bytes and output denote the exact interval of all decisions so far with this one appended; every carry finds a byte to go to |
| ArithEncoder.Encoder.FinishPass | libjpeg/jcarith.c:132-193 | the bytes written are the stuffed form of the one shortest segment for the decisions coded |
| ArithDecoder.Decoder.ArithDecode | libjpeg/jdarith.c:105-182 | on every input 0 <= c < a * 2^ct with ct in 0..7 is kept, the registers afterwards show exactly the sub-interval of the decision returned, only its bin changes, and a decision that the input stands for is the one returned |
| ArithDecoder.Decoder.GetByte | libjpeg/jdatasrc.c:121-140 | a source that has run dry supplies a fake EOI marker |
| CodecRoundTrip.SendDecisions | libjpeg/jdarith.c:105-182 | any decisions in the contexts of any bins, through the encoder's and then the decoder's code: the same decisions come out, all bins agree, and the decoder stops at the marker behind the segment |
| McuEncoder.EncodeDcDiff | libjpeg/jcarith.c:387-437 | codes exactly the decisions that figures F.4 and F.6 to F.9 prescribe for the difference, and returns its conditioning category |
| DecisionTables.DcDecisionsAre | libjpeg/jcarith.c:393-437 | written out: S0, SS, SP or SN, a unary category from bin 20 on, and the digits below the highest one in the bin 14 further |
| DecisionTables.DcContextMeans | libjpeg/jcarith.c:429-433 | in magnitudes: the category is zero exactly if the difference is 0 or at most half of 2^L, large exactly if it exceeds 2^U, and has the sign of the difference |
| DecisionTables.AreasApart | libjpeg/jcarith.c:841-902 | the statistics of no two tables overlap |
| McuEncoder.EncodeAc | libjpeg/jcarith.c:467-545 | codes exactly the decisions of figure F.5 for the coefficients after the point transform |
| DecisionTables.AcDecisionsAre | libjpeg/jcarith.c:473-545 | written out coefficient by coefficient up to the last nonzero one: end of block denied at the start and behind nonzero coefficients only, zero or not, sign in the fixed bin, magnitude in the bins of table F.5, which depend on the position against Kx |
| McuEncoder.EncodeAcRefine | libjpeg/jcarith.c:609-681 | codes exactly the decisions of figure G.10, with the end of block of the scan before found from the coefficients |
| DecisionTables.RefineDecisionsAre | libjpeg/jcarith.c:632-681 | written out: the end of block is in question only behind the last coefficient that was nonzero before, each of those gives its next bit, a new one its sign |
| DecisionTables.SequentialBlock | libjpeg/jcarith.c:691-833 | the decisions for a whole block in a sequential scan: the DC difference to the block before, in the bins of the component's DC table, then the AC coefficients in those of its AC table |
| DecisionTables.ProgressiveBlock | libjpeg/jcarith.c:361-684 | the same for the four kinds of progressive scans; a DC refinement is one bit in the fixed bin |
| McuDecoder.DecodeDcDiff | libjpeg/jdarith.c:269-308 | on every input at most 49 DC bins change; a coded difference is recovered with its category if and only if its magnitude is at most 2^15 |
| McuDecoder.DecodeAc | libjpeg/jdarith.c:340-390 | on every input only the band's coefficients and 245 AC bins change; coded coefficients are recovered if and only if no magnitude exceeds 2^15 |
| McuDecoder.DecodeAcRefine | libjpeg/jdarith.c:451-500 | on every input only the band and 245 AC bins change; from coefficients correct down to bit al + 1 come coefficients correct down to bit al, the end of block recomputed from what is known being the encoder's |
| MarkerReader.FindMarker | libjpeg/jdmarker.c:1010-1054 | finds what the specification of the next marker prescribes, on every input |
| ByteStream.MarkersMean | libjpeg/jdmarker.c:1010-1054 | what is a marker: one or more 0xFF and another byte than zero; with a zero they are a data byte 0xFF |
| MarkerReader.ResyncToRestart | libjpeg/jdmarker.c:1342-1385 | discards markers, or leaves one unread, as the recovery rules prescribe |
| MarkerReader.ReadRestartMarker | libjpeg/jdmarker.c:1263-1290 | takes the desired restart marker, otherwise recovers |
| MarkerReader.LostIntervals | libjpeg/jdmarker.c:1350-1384 | when one or two restart intervals are lost, the marker found stays unread, at no cost of input, until the decoder has counted up to it, and is then taken |
| MarkerReader.OldMarker | libjpeg/jdmarker.c:1350-1384 | a marker of one of the two intervals before is passed, up to the next marker, which is taken if it is the one desired |
| MarkerReader.NeverPassed | libjpeg/jdmarker.c:1350-1384 | a valid marker other than a restart marker, EOI for one, is left in place |
| ScanModel.WideStep | libjpeg/jdarith.c:283-287 | a scan that the encoder accepts and the decoder gives up: two blocks with DC values 32767 and -32768 |
| ScanEncoder.EncodeScan | libjpeg/jcarith.c:361-833 | the output is a sequence of segments with restart markers numbered modulo 8 between them, each the segment for the decisions of its MCUs with statistics and predictions reset |
| ScanModel.SegmentPlaced | libjpeg/jcarith.c:318-353 | where in the bytes each segment stands, and that 0xFF and 0xD0 plus its number modulo 8 follow it, unless it is the last |
| ScanModel.IntervalOf | libjpeg/jcarith.c:704-712 | segment g holds exactly the MCUs of restart interval g |
| ScanModel.ResetMeans | libjpeg/jcarith.c:328-343 | a restart sets exactly the 64 DC and 256 AC bins of each component of the scan to their first state |
| ScanModel.PredictionOfMcu | libjpeg/jcarith.c:387-401 | behind an MCU the prediction of a component is the DC value of its last block |
| ScanDecoder.EntropyDecoder.DecodeMcu | libjpeg/jdarith.c:241-635 | on every input terminates, writes only the band's coefficients in the MCU's blocks, changes only the DC bins below 49 and AC bins below 245 of the scan's tables, after a restart just those reset; an MCU that the input stands for is recovered |
| ScanDecoder.EntropyDecoder.ProcessRestart | libjpeg/jdarith.c:189-222 | resets the scan's statistics and predictions; at the end of a segment the decoder is at the start of the next one |
| ScanRoundTrip.DecodeScan | libjpeg/jdarith.c:241-745 | whatever the input, nothing outside the scan's band and tables changes; a scan that an encoder wrote is decoded without a warning if and only if its DC differences are at most 2^15 in magnitude, and then every block has been recovered down to the scan's bit position and the bins are the encoder's |
| ScanScript.ValidateScript | libjpeg/jcmaster.c:351-483 | a script is accepted if and only if it is legal: parameters in range, every coefficient's scans start at Ah = 0 and then lower Al by one, DC before AC, every component's DC sent; or in sequential scripts the whole block of each component, once |
| ScanScript.BitLimit | libjpeg/jcmaster.c:408-427 | bit position 10 is accepted and 11 is not |
| ScanScript.ComponentLimit | libjpeg/jcmaster.c:390-482 | four components in a scan are accepted and five are not; a script that leaves out a component is not |
| ScanScript.ReduceScript | libjpeg/jcmaster.c:486-516 | the compaction in place is filtering out the scans beyond the limit and clipping the others |
| ScanScript.ReducedLegal | libjpeg/jcmaster.c:486-516 | a legal progressive script stays legal and progressive, and sends the remaining coefficients down to the same bits |
| ScanScript.CheckScript | libjpeg/jdarith.c:649-687 | the decoder's progression checks raise neither an error nor a warning for a legal script |
| SimpleProgression.Simple | libjpeg/jcparam.c:597-673 | exactly as many entries as were allowed for are filled, with the recommended script; earlier space is used again if it suffices |
| SimpleProgression.ScriptsListed | libjpeg/jcparam.c:639-672 | the ten scans for YCbCr images and the six for gray ones, one by one |
| SimpleProgression.SimpleLegal | libjpeg/jcparam.c:597-673 | for every number of components the recommended script is legal, progressive, and sends every coefficient down to bit 0 |
| MultiScan.ProgressiveConsistent | libjpeg/jcmaster.c:408-448 | in a legal progressive script, each scan continues at the bit where the scans before left each of its coefficients |
| MultiScan.SequentialConsistent | libjpeg/jcmaster.c:449-475 | a legal sequential script sends no coefficient twice |
| MultiScan.SendScan | libjpeg/jdarith.c:241-745 | one scan through both coders: decoded cleanly if and only if its DC differences can be, then all its blocks advance to its bit position and both sides' bins agree |
| Approximation.LevelMeans | libjpeg/jdarith.c:308-389 | what a decoder shows at a bit position: DC values rounded down, AC magnitudes truncated, by less than 2^al |
| MultiScan.SendScript | libjpeg/jcmaster.c:408-448 | a whole script through both coders: no warning if and only if every scan's DC differences can be decoded, and then every coefficient is its point transform at the last bit position at which the script sends it |
| MultiScan.Lossless | libjpeg/jcmaster.c:466-475 | a script that ends at bit 0 everywhere leaves every coefficient of the image as it was |
| MultiScan.SendRecommended | libjpeg/jcparam.c:597-673 | with the recommended progression, for any components and block size, every image of 16-bit coefficients comes out unchanged and without a warning |
| HuffmanCost.Optimal | libjpeg/jchuff.c:1267-1324 | no code lengths that satisfy Kraft's inequality cost less than what merging the two smallest branches achieves |
| HuffmanCost.NoBetterCode | libjpeg/jchuff.c:1267-1324 | nor does any prefix code for the used symbols |
| HuffmanTable.CodeSizes | libjpeg/jchuff.c:1267-1324 | the lengths built on the chains in `others` reach that least cost and fill the code space exactly; the pseudo-symbol's is greatest, and a long one needs counts that sum up to a Fibonacci number |
| CodeLengths.LimitLengths | libjpeg/jchuff.c:1349-1370 | number of words and Kraft sum are kept, no length over 16 is left; up to each length nothing is changed if the longer words fit below, and otherwise one more word of that length would leave too little room for them |
| CodeLengths.LimitedKeeps | libjpeg/jchuff.c:1349-1370 | the numbers of words up to a length below 16 stay as they are if and only if all longer words fit below them at 16 bits |
| CodeLengths.LimitedOnce | libjpeg/jchuff.c:1349-1370 | the outcome is the only one in which, length by length, as many words as possible stay |
| HuffmanTable.GenOptimalTable | libjpeg/jchuff.c:1252-1386 | the table lists the used symbols once each, leaves one word to spare and is acceptable; its counts are the optimal ones, limited as above, less the pseudo-symbol; a symbol has its optimal length if no length exceeds 16, or if all longer words fit below it; JERR_HUFF_CLEN_OVERFLOW needs a total of at least 9227465 |
| DerivedTable.MakeDerived | libjpeg/jchuff.c:160-246 | a table is accepted if and only if its counts and symbols are legal; then exactly its symbols have code words, of the listed lengths, with the numbers that section C.2 prescribes, none a prefix of another and none all ones |
| DerivedTable.BestLengths | libjpeg/jchuff.c:206-245 | the derived code words have the lengths that the generated table was made for |
| BitWriter.WorkingState.EmitBits | libjpeg/jchuff.c:306-344 | the bits join those before them, full bytes go out stuffed, fewer than 8 stay behind; suspended exactly if the destination is full and refuses |
| BitWriter.WorkingState.FlushBits | libjpeg/jchuff.c:390-398 | the last byte is filled up with ones |
| HuffmanBlock.EncodeOneBlock | libjpeg/jchuff.c:912-1005 | emits exactly the codes and extra bits of the block if its coefficients are in range, otherwise fails |
| HuffmanDecoding.RangeMeans | libjpeg/jchuff.c:941-983 | a block is in range if and only if its DC difference is at most 2047 and its AC coefficients are at most 1023 in magnitude |
| HuffmanDecoding.BlockDecodes | libjpeg/jchuff.c:912-1005 | the decoder of section F.2.2 recovers every block from its code and leaves what follows |
| HuffmanScan.Encoder.EncodeMcu | libjpeg/jchuff.c:1012-1062 | a whole MCU with its restart marker has been written, or nothing at all has changed: bits, predictions, counters, destination |
| HuffmanScan.EncodeAll | libjpeg/jchuff.c:1012-1062 | under every pattern of suspensions each MCU is coded once, in order, and the bytes are those of an uninterrupted run |
| HuffmanSegments.ScanBytes | libjpeg/jchuff.c:494-512 | what such a run has written, flushed, is a sequence of stuffed segments with restart markers between them |
| HuffmanSegments.ScanCovers | libjpeg/jchuff.c:1046-1055 | the segments cover the MCUs, one restart interval after the other |
| HuffmanSegments.InputDecodes | libjpeg/jchuff.c:912-1062 | a decoder finds each segment's data and the marker behind it, and recovers all its blocks; fewer than 8 one bits are left |
| HuffmanStatistics.GatherScan | libjpeg/jchuff.c:1118-1222 | succeeds if and only if all coefficients are in range, and then has counted every symbol exactly as often as the output pass emits it |
| HuffmanOptimization.FinishGather | libjpeg/jchuff.c:1393-1438 | every table in use is generated once from its counts; exactly the counted symbols get code words, of the optimal lengths unless one exceeds 16; the AC tables are skipped when there are no AC coefficients, and that some table overflows needs millions of symbols |
| HuffmanOptimization.NeverMissing | libjpeg/jchuff.c:1118-1222 | with those tables the output pass never meets a symbol without a code |
| HuffmanOptimization.EncodeOptimized | libjpeg/jchuff.c:1118-1438 | statistics pass, tables, output pass: done, suspended by the destination, failed exactly if a coefficient is out of range, or a code length overflow that needs millions of symbols; JERR_HUFF_MISSING_CODE never |
| Approximation.HalfTransform | libjpeg/jchuff.c:816-823 | the scan before gives a coefficient without its lowest bit |
| CorrectionBits.EobRunSymbol | libjpeg/jchuff.c:463-487 | an end-of-band run has at most 14 extra bits, which with the symbol give back the run |
| CorrectionBits.Refiner.EncodeMcu | libjpeg/jchuff.c:782-907 | over any run of blocks the correction-bit buffer of 1000 is never overrun, buffered bits belong to a pending run below 0x7FFF, every symbol exists, and a decoder stands where the pending run begins |
| CorrectionBits.EncodeScan | libjpeg/jchuff.c:782-907 | a decoder that knows the blocks down to bit al + 1 recovers all of them down to bit al from the symbols and correction bits in the order in which they are emitted |
| ImageGeometry.RoundUpNested | libjpeg/jcmaster.c:325-345 | rounding up sizes of components and then units gives the same number as rounding up once |
| RowBuffering.Prep.PreProcessContext | libjpeg/jcprepct.c:196-261 | for every height, sampling factor and division into calls, row group g is made from rows g * v - v up to g * v + 2 * v of the image continued by its first and last row, seen through the wraparound pointers |
| RowBuffering.Prep.PreProcessData | libjpeg/jcprepct.c:127-187 | without context rows, row groups come out in order; in those below the image every row is the last one made from the image |
| RowBuffering.BelowImage | libjpeg/jcprepct.c:105-116 | that is what the row groups expected by the coefficient controller are there |
| MainController.Main.WriteScanlines | libjpeg/jcmainct.c:113-159 | however the scanlines are divided into calls and whenever output is suspended, exactly the iMCU rows of the image are sent, each once and in order; next_scanline plus the suspended flag is the number of rows consumed, and is the height exactly when all have been sent |
| CoefLayout.SetupSound | libjpeg/jcmaster.c:565-647 | the counts of blocks, MCUs and iMCU rows that the setup computes fit together for every image size and sampling |
| CoefLayout.McuMeans | libjpeg/jccoefct.c:165-205 | at each place of an MCU there is the block of the image for that place, or, outside of the image, a block without AC coefficients whose DC value is that of the block before it |
| CoefLayout.InOrder | libjpeg/jccoefct.c:144-222 | the MCUs come in raster order within rows, rows within iMCU rows |
| CoefOutput.CoefController.CompressData | libjpeg/jccoefct.c:143-222 | under every pattern of suspensions the entropy coder has been fed exactly the MCUs of the layout up to the current place, dummy blocks included |
| CoefOutput.CoefController.CompressFirstPass | libjpeg/jccoefct.c:248-332 | fills the arrays with real and dummy blocks, and feeds the same MCUs |
| CoefOutput.CoefController.CompressOutput | libjpeg/jccoefct.c:345-400 | feeds the same MCUs from the arrays |
| TransOutput.TransController.CompressOutput | libjpeg/jctrans.c:274-348 | feeds the same MCUs from arrays that hold only the image, with dummy blocks made on the fly |
| CoefInput.InputController.ConsumeData | libjpeg/jdcoefct.c:245-305 | under every pattern of suspensions, each MCU of the scan is taken once, and its blocks are stored |
| CoefInput.InputController.ScanDone | libjpeg/jdcoefct.c:245-305 | after the scan each block of its components has been merged with exactly the block sent for its place, and all others are as before |
| PassMachine.Compressor.constructor | libjpeg/jcmaster.c:800-856 | how many passes of which kind there are going to be |
| PassMachine.Compressor.PrepareForPass | libjpeg/jcmaster.c:658-743 | never meets a buffer of the wrong mode; optimization passes for Huffman-coded DC refinements are skipped |
| PassMachine.Compressor.WriteRows | libjpeg/jcapistd.c:77-112 | the first pass, in as many calls as the application likes |
| PassMachine.Compressor.FinishCompress | libjpeg/jcapimin.c:154-189 | terminates after the last scan; the finished file has everything once: the frame header before all scan headers, each scan header behind its statistics and the scans before, and before its rows from top to bottom and their end, the trailer last; unless rows are missing or the destination refused one; the buffer-mode error never occurs |
| PassMachine.Compressor.EachOnce | libjpeg/jcmaster.c:658-798 | in that file every header and every row occurs once, every row of a statistics pass once where there is one, and nothing else |

## Findings

- The encoder writes what the decoder refuses. `encode_mcu` and `encode_mcu_DC_first` code DC differences of any size, but
  the decoder gives up with JWRN_ARITH_BAD_CODE when the magnitude category reaches 0x8000 (libjpeg/jdarith.c:283-287 and
  558-562), so a scan with a difference above 2^15 in magnitude does not survive. `ScanModel.WideStep` is such a scan, of
  16-bit coefficients; `ScanRoundTrip.DecodeScan` and `MultiScan.SendScript` state that the condition is exact. The
  recommended progression, which first sends DC values divided by 2, is not affected (`MultiScan.SendRecommended`).

## Left out

- CodecRoundTrip.SendDecisions: a statistics bin is a table index and a sense, not the byte that packs them; Successors
  covers the packing.
- ScanDecoder.EntropyDecoder.DecodeMcu: `last_dc_val` is an unbounded integer; in the source it is an `int`, to which a
  long corrupt scan adds without a check.
- HuffmanTable.GenOptimalTable: at most 254 used symbols, because the source counts words of a length in a byte, and totals
  up to 10^9, beyond which the source's search does not see a count; statistics of a scan respect the first bound always.
- HuffmanOptimization.EncodeOptimized: fewer than 10^9 symbols for each table, for the same reason.
- HuffmanDecoding.BlockDecodes: the decoder is that of section F.2.2; jdhuff.c is not part of this model.
- BitWriter.WorkingState.EmitBits: the 24-bit buffer is modelled by addition of disjoint bits instead of a bitwise or.
- CorrectionBits.EncodeScan: stays above bits, at symbols with their extra bits and correction bits; restart markers, which
  flush the pending run, are left out.
- RowBuffering.Prep.PreProcessContext: colour conversion and downsampling are an uninterpreted function of rows; a buffer row
  stands for the rows of all components.
- CoefOutput.CoefController.CompressData: the forward DCT is an uninterpreted function from places to blocks; a DCT block is
  its DC value and the others; MCUs are sequences of values, not pointers into buffers.
- CoefInput.InputController.ConsumeData: decoding an MCU is an uninterpreted function that merges a block with what is sent
  for it.
- PassMachine.Compressor.FinishCompress: headers, rows and tables are events; their bytes are not modelled.
- MarkerReader.FindMarker: the input is a byte sequence; marker segments between scans, tables and headers are not read.
- The other Huffman routines for progressive scans (`encode_mcu_DC_first`, `encode_mcu_AC_first`, `encode_mcu_DC_refine`).
- Virtual arrays and the memory manager: arrays that are always in memory, zeroed where the source asks for it.
- Raw-data input, the full main buffer, progress monitoring, and the compile-time variants.
- Output passes of the decoder, block smoothing, inverse DCT, upsampling, colour quantization.
- Quantization tables, colour conversion, downsampling and DCT kernels: facts about single samples.
- The rest of the repository: the control panel, its server manager and the command-line programs.

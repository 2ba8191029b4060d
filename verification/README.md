# Verified model of the JPEG entropy codec, its scan control, context rows and cJSON

This project models the entropy codec of the JPEG library in `ext/jpeg`, the control of
progressive scripts and passes around it, the context-row preprocessor with its smoothing
client, and the parser and printer of `ext/cJSON`, and proves that the two sides of each
undo one another.

## What is modelled

- **Arithmetic coding** (`IntervalCoder`, `ArithEncoder`, `ArithDecoder`). Sections D.1 and D.2
  of ITU-T T.81. An exact coder over unbounded integers is the reference. The encoder's
  registers, pending zeros, carry buffer and stacked 0xFF bytes are proved to denote its
  interval at every step; the decoder follows the same interval through its window of bytes.
- **Coefficients as decisions** (`ArithModel`, `ArithFigures`, `ArithScan`, `RestartIntervals`,
  `ArithIntervals`, `ArithScanEncoder`, `ArithScanDecoder`, `ArithRoundTrip`). Sequential and progressive MCU routines on both sides with
  restart intervals, against one specification of the decisions of a block, which is also
  written out decision by decision from the numbers alone.
- **Scripts and runs** (`Script`, `ScanOrder`, `SimpleProgression`, `ProgressiveRun`). The script
  validator, the in-place reducer, the decoder's progression check, the built-in scripts, and
  the run of a whole script over an image through the arithmetic coder.
- **Huffman tables** (`HuffCost`, `HuffTree`, `HuffDeepest`, `HuffBuild`, `HuffLimit`, `HuffTable`,
  `HuffDerived`). Construction with chained branches and its optimality, limiting to sixteen bits, canonical codes, the
  encoder's table and the decoder's bit-serial and lookahead tables.
- **Huffman coding** (`BitStrings`, `HuffBitWriter`, `HuffBitReader`, `HuffItems`, `HuffBlocks`, `HuffFigures`,
  `HuffSink`, `HuffSource`, `HuffSequential`, `HuffSequentialPass`, `HuffOptimised`,
  `HuffSequentialDecoder`, `HuffRoundTrip`, `HuffRefine`, `HuffBandIntervals`, `HuffProgressive`,
  `HuffProgressiveDecoder`, `HuffProgressiveRoundTrip`). Bit buffers with stuffing, the statistics
  pass and the output pass, sequential scans, first and refinement scans of AC bands with end-of-band
  runs, all with restart intervals on both sides, and decoding that can be suspended at any byte.
- **Pass control** (`PassControl`). Which pass is run for which scan, and the loop that finishes
  a compression.
- **Context rows** (`EndlessImage`, `SmoothDownsample`, `ContextRows`). The circular buffer of row
  pointers and the two smoothing routines that read it.
- **JSON** (`JsonString`, `JsonUnicode`, `JsonText`, `JsonLayout`, `JsonPrinter`, `JsonGrammar`, `JsonNumbers`,
  `JsonParser`, `JsonRoundTrip`). Strings and their escapes, printing into a buffer that grows, a grammar with
  blanks, and recursive-descent parsing that accepts exactly that grammar.

Objects that the source updates in place are classes with the same fields (encoder and decoder
registers, bit buffers, predictions, end-of-band runs, pass control, the row buffer, print and
parse buffers); tables filled by loops are arrays. `Numbers` and `Stuffing` hold the shared
arithmetic.

## Results that differ from what one might expect

- The arithmetic decoder refuses a DC difference whose magnitude is above 2^15, although the
  encoder codes it (`ext/jpeg/jdarith.c:283` and `:556`). `ArithRoundTrip.TransmitScan` states the
  exact condition, which is about each restart interval by itself, and `ArithIntervals.RefusedPair`
  gives two blocks that are refused.
- `jpeg_gen_optimal_table` counts codes in bytes, so the construction needs at most 254 real
  symbols; the statistics of a scan always stay below that (`HuffOptimised.CountsFit`).
- A table of a Huffman scan is refused if the tree of its counts is deeper than 32. `HuffTree.DeepCounts` shows
  counts for which this happens, and `HuffTree.ShallowTree` that fewer symbols or a smaller total never do.
- A `\u` escape with characters that are not hexadecimal digits is accepted by the JSON parser and
  read as NUL, which section 7 of RFC 8259 does not allow; the model follows the code
  (`JsonText.BadHexAccepted`, and `JsonText.AcceptedEscape` for exactly when).
- In the second pass over a JSON literal the parser may be out of step with the first one, and an
  escape may even take in the closing quote (`JsonText.OutOfStep`); the output still fits
  (`JsonString.UnescapeFits`). `JsonText.InStep` shows that only `\u` escapes with bad digits do this.
- The printer takes trees of any depth, but the parser refuses their text above a depth of 1000
  (`JsonRoundTrip.RoundTrip`); a preallocated buffer needs two bytes more than the text
  (`JsonPrinter.PrintPreallocated`).

## Model

| member | source | states |
|---|---|---|
| `IntervalCoder.RenormNormal` | ext/jpeg/jcarith.c:262-310 | Doubling until the width is at least 0x8000 leaves an interval that lies below one. |
| `IntervalCoder.RenormContains` | ext/jpeg/jcarith.c:262-310 | Renormalisation does not change which byte strings, read as fractions, lie in the interval. |
| `IntervalCoder.Parts` | ext/jpeg/jcarith.c:235-259 | The two parts of a decision adjoin and make up the interval; the upper one has the width of the estimate, and the more probable symbol has the larger one. |
| `IntervalCoder.NarrowContains` | ext/jpeg/jcarith.c:235-259 | After one decision, any number in the new interval lies in the upper part exactly when the upper part was chosen, conditional exchange included, and it lies in the old interval. |
| `IntervalCoder.Nested` | ext/jpeg/jcarith.c:218-311 | A byte string in the interval after any sequence of adaptive decisions lies in every earlier interval. |
| `IntervalCoder.Determined` | ext/jpeg/jdarith.c:105-182 | The data determine the decisions: no two sequences have data in common, even where each bin is chosen by the decisions before it. |
| `IntervalCoder.Estimate` | ext/jpeg/jaricom.c:31-153 | For every state byte: an MPS keeps the sense and never raises the estimate; an LPS raises it and keeps the sense, or does not raise it and exchanges the sense; state 113 stays. |
| `IntervalCoder.Adapts` | ext/jpeg/jcarith.c:235-259 | A decision changes its own bin only, and that only where the interval is renormalised; the estimate then moves with the symbol that was coded. |
| `ArithFigures.SignsStayEven` | ext/jpeg/jaricom.c:144-153 | The bin of the signs keeps the state 113, with an estimate of 0x5A1D, over all decisions of a scan. |
| `IntervalCoder.TargetInside` | ext/jpeg/jcarith.c:140-145 | The terminating value lies in the final interval and ends in at least fifteen zero bits. |
| `IntervalCoder.TargetUnique` | ext/jpeg/jcarith.c:140-145 | If the interval holds a multiple of 2^16, that multiple is the terminating value. |
| `IntervalCoder.ShortestOfAll` | ext/jpeg/jcarith.c:206-211 | The terminated byte string lies in the final interval, and no byte string that lies in it is shorter: the "shortest possible output" that the comment claims. |
| `ArithEncoder.Carry` | ext/jpeg/jcarith.c:269-283 | Adding one to the held data turns the stacked 0xFF bytes into zeros and raises the buffered byte by one. |
| `ArithEncoder.CarryHasPlace` | ext/jpeg/jcarith.c:268-283 | An interval below one never carries out of the first byte, so a carry finds a buffered byte to go into. |
| `ArithEncoder.ArithEncoder.ByteOut` | ext/jpeg/jcarith.c:265-309 | For every register state: written bytes, pending zeros, buffer and stacked 0xFF bytes with the register still denote the exact interval base; a byte that takes a carry is below 0xFF and the new buffer byte after a carry is below 32. |
| `ArithEncoder.ArithEncoder.Encode` | ext/jpeg/jcarith.c:218-311 | The register machine refines the unbounded interval coder: interval and statistics after a decision are exactly those of the exact coder, whose bins move as `IntervalCoder.Adapts` and `IntervalCoder.Estimate` say. |
| `ArithEncoder.ArithEncoder.FinishPass` | ext/jpeg/jcarith.c:132-193 | The bytes written are stuffed data that lie in the final interval, do not end in a zero byte, and are as short as any data in the interval. |
| `ArithDecoder.WindowCompare` | ext/jpeg/jdarith.c:114-147 | Comparing the bytes read so far with a bound at their own precision decides the comparison of the whole code number, with zeros after the end of the data. |
| `ArithDecoder.Position` | ext/jpeg/jdarith.c:156-181 | The register is at or above the reduced width exactly when the encoder chose the upper part of the interval. |
| `ArithDecoder.ArithDecoder.FetchByte` | ext/jpeg/jdarith.c:116-141 | The next data byte with stuffing and fill bytes removed, and zeros from the marker on, which is then remembered. |
| `ArithDecoder.ArithDecoder.Refill` | ext/jpeg/jdarith.c:114-147 | Renormalisation before a decision keeps register, width and bit count in step with the exact interval, including the two bytes read at the start. |
| `ArithDecoder.ArithDecoder.Decode` | ext/jpeg/jdarith.c:105-182 | Returns the value that the encoder coded, and the bin goes to the same state as at the encoder, in the direction of `IntervalCoder.Estimate`. |
| `ArithDecoder.ArithDecoder.ReadRestartMarker` | ext/jpeg/jdmarker.c:1005-1048 | From wherever decoding has stopped in the data of an interval, or already at its marker, the search for the next marker skips the rest of the data with its stuffing and stops just behind that marker. |
| `ArithRoundTrip.DecodeSegment` | ext/jpeg/jdarith.c:105-182 | A decoder that is given only the bytes and the bins returns the values that were coded. |
| `ArithRoundTrip.TransmitDecisions` | ext/jpeg/jcarith.c:132-311 | Every sequence of decisions on any bins, coded, terminated, followed by a marker and decoded, comes back unchanged; no marker occurs inside the data. |
| `ArithModel.DcBins` | ext/jpeg/jcarith.c:709-765 | A DC difference below 2^15 uses DC bins up to 48; only one above it would use bin 49. |
| `ArithModel.AcBins` | ext/jpeg/jcarith.c:771-827 | Magnitude bits of AC coefficients use AC bins up to 244. |
| `ArithModel.ContextMeans` | ext/jpeg/jcarith.c:429-436 | The category of section F.1.4.4.1.2 on the difference v itself: zero if v = 0, or L >= 1 and v is at most 2^(L-1) in magnitude; otherwise large exactly beyond 2^U and else small, with the sign of v. |
| `ArithFigures.DcDiffSmall` | ext/jpeg/jcarith.c:398-428 | Differences of magnitude up to 1: the decisions of Figures F.4 to F.7 one by one, with their bins. |
| `ArithFigures.DcDiffLarge` | ext/jpeg/jcarith.c:398-441 | Greater differences: category and bits of the magnitude less one, each decision with its bin and value, from the numbers alone. |
| `ArithFigures.AcValueSmall` | ext/jpeg/jcarith.c:501-541 | AC magnitudes 1 and 2 share the bin of their position; the sign has a fixed bin. |
| `ArithFigures.AcValueLarge` | ext/jpeg/jcarith.c:518-541 | Greater AC magnitudes: every decision with its bin, from one of two sets by position, and its value. |
| `ArithFigures.FirstStep` | ext/jpeg/jcarith.c:496-542 | From one nonzero coefficient of the band to the next: no end of block, a decision for each zero in between, the value. |
| `ArithFigures.FirstEnds` | ext/jpeg/jcarith.c:543-547 | With only zeros ahead the end of block is told once, unless the band is over. |
| `ArithFigures.RefineStep` | ext/jpeg/jcarith.c:636-681 | The same for refinement: only behind the coefficients known before is it told that the block goes on, and a known coefficient takes a correction bit instead of a sign. |
| `ArithFigures.RefineEnds` | ext/jpeg/jcarith.c:677-681 | With only zeros ahead the end of block is told once in refinement too, unless the band is over. |
| `ArithFigures.PointDcMeans` | ext/jpeg/jcarith.c:388-391 | What is known of a DC coefficient down to bit al is the multiple of 2^al at or below it. |
| `ArithFigures.PointAcMeans` | ext/jpeg/jcarith.c:481-494 | What is known of an AC coefficient down to bit al is the multiple of 2^al at it or next to it towards zero. |
| `ArithModel.DcBit` | ext/jpeg/jdarith.c:400-426 | Setting the bit that a refinement scan sends turns the DC value known down to one bit position into the value known down to the next. |
| `ArithModel.RefineBit` | ext/jpeg/jdarith.c:470-495 | The AC value at one bit position is the value at the position above it, moved away from zero by the correction bit. |
| `ArithScanEncoder.ScanEncoder.EncodeDcDiff` | ext/jpeg/jcarith.c:394-441 | One DC value becomes the decisions of Figure F.4 in the current context; the prediction follows, and the context becomes the category that `ArithModel.ContextMeans` describes. |
| `ArithScanEncoder.ScanEncoder.EncodeAcFirst` | ext/jpeg/jcarith.c:452-550 | The band becomes the decisions of Figure F.5 up to its last nonzero transformed coefficient, and nothing for what follows. |
| `ArithScanEncoder.ScanEncoder.EncodeAcRefine` | ext/jpeg/jcarith.c:592-684 | The band becomes the decisions of Figure G.10: end-of-block only past the last coefficient sent before, correction bits and signs in order. |
| `ArithScanEncoder.ScanEncoder.EncodeBlock` | ext/jpeg/jcarith.c:691-832 | One block of a sequential or progressive scan becomes the decisions that the statistical model assigns to it. |
| `ArithScanDecoder.ScanDecoder.DecodeDcDiff` | ext/jpeg/jdarith.c:260-312 | Restores the DC value and updates prediction and context like the encoder, the context being the category of `ArithModel.ContextMeans`; it fails exactly when the difference is above 2^15 in magnitude. |
| `ArithScanDecoder.ScanDecoder.DecodeAcFirst` | ext/jpeg/jdarith.c:320-393 | Restores every coefficient of the band down to the bit position of the scan, in place. |
| `ArithScanDecoder.ScanDecoder.DecodeAcRefine` | ext/jpeg/jdarith.c:433-501 | Turns a band known down to bit al+1 into the band known down to bit al, in place, and leaves the rest of the block alone. |
| `ArithScanEncoder.ScanEncoder.EmitRestart` | ext/jpeg/jcarith.c:318-354 | The interval is terminated and followed by its restart marker; its data lie in the interval of its decisions, and a fresh one begins. |
| `ArithScanEncoder.ScanEncoder.EncodeScan` | ext/jpeg/jcarith.c:361-390 | For every restart interval and MCU size, the bytes written are the data of the complete intervals with markers numbered 0 to 7 between them, and the pending decisions are those of the last interval. |
| `RestartIntervals.FrontMarkers` | ext/jpeg/jcarith.c:318-330 | No marker but restart markers stands in what has been written. |
| `RestartIntervals.IntervalAt` | ext/jpeg/jcarith.c:318-330 | Interval j stands, stuffed and with its marker, exactly where the intervals before it end. |
| `RestartIntervals.MarkerAt` | ext/jpeg/jcarith.c:318-330 | Behind interval j stand the bytes 0xFF and 0xD0 + j mod 8, and behind the last one the next marker of the file. |
| `Stuffing.UnstuffedIs` | ext/jpeg/jdarith.c:116-141 | Dropping the zero behind each 0xFF gives the data back. |
| `ArithScanDecoder.ScanDecoder.ProcessRestart` | ext/jpeg/jdarith.c:189-226 | From a running or a failed state, the marker with the expected number is taken and the next interval starts afresh. |
| `ArithScanDecoder.ScanDecoder.DecodeMcu` | ext/jpeg/jdarith.c:241-320 | After a refused difference an MCU reads nothing and leaves blocks and predictions alone until the next restart; any other MCU of an interval without refused differences is restored. |
| `ArithScanDecoder.ScanDecoder.DecodeScan` | ext/jpeg/jdarith.c:508-633 | Every block arrives as the encoder knew it unless its own restart interval codes a DC difference above 2^15: a refused difference spoils its interval and nothing else. No difference is refused if and only if there is none. |
| `ArithIntervals.RefusedPair` | ext/jpeg/jdarith.c:282-291 | Two blocks that the encoder codes and whose DC difference the decoder refuses: values -2^15 and 2^15-1 at full precision in one restart interval. |
| `ArithScanDecoder.SameEnd` | ext/jpeg/jdarith.c:451-456 | Encoder and decoder test the end of a block at the same positions, although one knows the new precision and the other only the old one. |
| `ArithRoundTrip.TransmitScan` | ext/jpeg/jcarith.c:361-832 | One whole scan with its restart intervals through the bytes: a block at the decoder has exactly the precision sent if no DC difference of its interval is above 2^15, and none is refused if and only if the whole scan has none. |
| `Script.ValidateScript` | ext/jpeg/jcmaster.c:357-489 | Accepts a script if and only if every scan is in range and continues the history of its coefficients and every component is sent; otherwise names the first fault. |
| `ScanOrder.ReduceScript` | ext/jpeg/jcmaster.c:492-522 | Compacting in place leaves exactly the scans that survive, clamped to the block, at the front of the array. |
| `ScanOrder.ReducedHistory` | ext/jpeg/jcmaster.c:492-522 | Every coefficient that survives keeps its whole sequence of (Ah, Al) pairs. |
| `ScanOrder.ReducedValid` | ext/jpeg/jcmaster.c:492-522 | An accepted progressive script is accepted again after it has been reduced. |
| `ScanOrder.StartPass` | ext/jpeg/jdhuff.c:1317-1361 | Refuses a scan or issues exactly one warning for each coefficient that is out of order, in sequence, and records the bit position the scan sends. |
| `ScanOrder.AcceptedPass` | ext/jpeg/jdhuff.c:1317-1361 | No scan of an accepted script that fits the block is refused or draws a bogus-progression warning. |
| `ScanOrder.RefusedScan` | ext/jpeg/jdhuff.c:1305-1361 | The decoder refuses by the rules of the validator, except that Al may go up to 13 and every refinement must be by one bit. |
| `ScanOrder.SameOrder` | ext/jpeg/jdhuff.c:1338-1361 | Of the scans the decoder accepts, the validator takes exactly those that raise no warning and send no complete coefficient again. |
| `ScanOrder.DecodeScript` | ext/jpeg/jdarith.c:641-707 | Over a whole accepted script the decoder reports no error and issues no warning, and ends with the bit position at which each coefficient was last sent. |
| `SimpleProgression.Fill` | ext/jpeg/jcparam.c:563-635 | Fills exactly the number of entries that was counted, and reuses allocated space only if it is large enough. |
| `SimpleProgression.GeneralValid` | ext/jpeg/jcparam.c:613-634 | For any number of components the generated script is accepted and ends with every coefficient at bit 0. |
| `SimpleProgression.YccValid` | ext/jpeg/jcparam.c:596-612 | The script for three-component YCC is accepted and ends with every coefficient at bit 0. |
| `SimpleProgression.YccScans` | ext/jpeg/jcparam.c:596-612 | The ten scans for three-component YCC, each with its components, band and bit positions. |
| `SimpleProgression.GeneralDcScans` | ext/jpeg/jcparam.c:613-634 | The length of the general script and the places of its DC scans, which are one scan each time or one for each component. |
| `SimpleProgression.GeneralAcScans` | ext/jpeg/jcparam.c:613-634 | The places of the four AC scans of each component. |
| `SimpleProgression.GeneralHistory` | ext/jpeg/jcparam.c:613-634 | The general script sends each DC coefficient in two steps and each AC coefficient in three, and nothing of other components. |
| `SimpleProgression.YccHistory` | ext/jpeg/jcparam.c:596-612 | The YCC script sends luminance in the same steps, and each chrominance coefficient in two. |
| `ProgressiveRun.RunScript` | ext/jpeg/jcmaster.c:357-489 | After all scans of an accepted script, or of any prefix of one, the decoder holds every coefficient exactly down to the bit position last sent for it, and zero where nothing was sent; the run succeeds if and only if no scan codes a DC difference above 2^15 within a restart interval. |
| `ProgressiveRun.TransmitImage` | ext/jpeg/jcmaster.c:357-489 | A script that reaches bit 0 everywhere restores the image exactly; the exact condition for success, and that DC values within 2^14 meet it. |
| `ProgressiveRun.CompleteIsExact` | ext/jpeg/jdarith.c:241-501 | A coefficient that was sent down to bit 0 is known exactly. |
| `HuffCost.MergeIsOptimal` | ext/jpeg/jchuff.c:1281-1327 | Joining the two smallest weights loses nothing: any lengths that satisfy Kraft's inequality give lengths for the joined weights that cost less by their sum. |
| `HuffCost.PrefixCodeIsFeasible` | ext/jpeg/jchuff.c:1281-1327 | The lengths of every prefix code satisfy Kraft's inequality. |
| `HuffBuild.FindSmallest` | ext/jpeg/jchuff.c:1286-1306 | Finds the smallest nonzero count, the larger symbol among equal ones, or that none is left. |
| `HuffBuild.IncrementBranch` | ext/jpeg/jchuff.c:1316-1326 | Makes exactly the symbols of one chained branch one bit longer and returns its last symbol. |
| `HuffBuild.CodeSizes` | ext/jpeg/jchuff.c:1281-1327 | The code sizes are those of a full binary tree (Kraft sum one), minimise total count times size over all lengths that satisfy Kraft's inequality, and are the depths in the tree that joins the two smallest counts again and again, as a function of the counts. |
| `HuffBuild.NoPrefixCodeIsCheaper` | ext/jpeg/jchuff.c:1281-1327 | No prefix code on the symbols in use and the pseudo-symbol costs less than the computed sizes. |
| `HuffTree.DepthBelowRoots` | ext/jpeg/jchuff.c:1281-1327 | No symbol is deeper in the tree than there are other symbols in use. |
| `HuffTree.DepthNeedsWeight` | ext/jpeg/jchuff.c:1281-1327 | A symbol at depth d needs a total count of at least the Fibonacci number of d+2. |
| `HuffTree.ShallowTree` | ext/jpeg/jchuff.c:1331-1337 | With at most 32 real symbols, or a total below 9227465 with the pseudo-symbol, no code has more than 32 bits. |
| `HuffTree.DeepCounts` | ext/jpeg/jchuff.c:1331-1337 | Neither bound can be raised: 33 Fibonacci counts with a total of exactly 9227465 give a code of 33 bits and are refused. |
| `HuffDeepest.PseudoDeepest` | ext/jpeg/jchuff.c:1281-1300 | The pseudo-symbol, with count one and the largest number, is never higher in the tree than any other symbol. |
| `HuffLimit.CountSizes` | ext/jpeg/jchuff.c:1329-1338 | Counts, without overflowing a byte, how many symbols have each size, and gives up if and only if a code has more than 32 bits. |
| `HuffLimit.CanShorten` | ext/jpeg/jchuff.c:1351-1354 | While a code is longer than sixteen bits there are at least two of that length, and a shorter length to move them to always exists. |
| `HuffLimit.MoveKeeps` | ext/jpeg/jchuff.c:1356-1360 | One adjustment keeps the number of symbols and the exact Kraft sum. |
| `HuffLimit.TakeApart` | ext/jpeg/jchuff.c:1351-1361 | The rule of section K.2: a pair of longest codes goes, one takes its prefix, and exactly one code, of the greatest occupied length up to two below, makes room; all other counts stay. |
| `HuffLimit.LimitLengths` | ext/jpeg/jchuff.c:1350-1362 | Ends with all lengths at most 16, the same number of symbols and the same Kraft sum, by a chain of such adjustments; nothing changes if no code is longer than 16. |
| `HuffLimit.RoomLeft` | ext/jpeg/jchuff.c:1364-1367 | Without one of the longest codes no length is full, so no code word is all ones. |
| `HuffLimit.ListSymbols` | ext/jpeg/jchuff.c:1372-1384 | Lists every real symbol in use once, by increasing size and then by number. |
| `HuffLimit.TableAccepted` | ext/jpeg/jchuff.c:190-245 | The finished table is accepted by the encoder's derived-table check and lists exactly the symbols in use. |
| `HuffLimit.SizesKept` | ext/jpeg/jchuff.c:1364-1384 | If no size is above 16, every listed symbol has a code of exactly its size. |
| `HuffLimit.OrderKept` | ext/jpeg/jchuff.c:1372-1384 | Whatever was adjusted, a symbol with a smaller size never gets a longer code. |
| `HuffLimit.GenOptimalTable` | ext/jpeg/jchuff.c:1255-1389 | From any counts to an accepted table with one code per symbol in use; if no size is above 16, each code has exactly its optimal size, and otherwise the lengths follow from the optimal ones by adjustments; refused if and only if the tree of the counts is deeper than 32, so never with at most 32 real symbols or a total below 9227465. |
| `HuffTable.WordsPrefixFree` | ext/jpeg/jchuff.c:208-221 | In every legal table no code word is the beginning of another one. |
| `HuffTable.WordNotAllOnes` | ext/jpeg/jchuff.c:213-217 | In every legal table no code word is all ones. |
| `HuffTable.LongerIsBeyond` | ext/jpeg/jdhuff.c:606-614 | The first l bits of a longer code are beyond all codes of length l. |
| `HuffFigures.CodesAscend` | ext/jpeg/jchuff.c:200-221 | The first code is all zeros, the next one of the same length is one more, and the first of a greater length is one more with zeros behind it. |
| `HuffDerived.GenerateCodes` | ext/jpeg/jchuff.c:200-221 | Assigns the canonical codes, and refuses a table if and only if at some length the codes do not fit below the all-ones pattern. |
| `HuffDerived.MakeEncoderTable` | ext/jpeg/jchuff.c:160-246 | Accepts a table if and only if it is legal and lists no symbol twice and none out of range; then codes and sizes are filed under exactly the listed symbols. |
| `HuffDerived.SymbolsPrefixFree` | ext/jpeg/jchuff.c:236-245 | The codes of two different symbols are never prefixes of each other, and each has a zero bit. |
| `HuffDerived.FillLimits` | ext/jpeg/jdhuff.c:384-401 | The largest code and the symbol offset of every length, and the sentinel. |
| `HuffDerived.FillLookahead` | ext/jpeg/jdhuff.c:403-425 | An entry is set if and only if the eight bits begin with a code of at most eight bits, and then gives that code's length and symbol; an empty entry belongs to longer codes only. |
| `HuffDerived.MakeDecoderTable` | ext/jpeg/jdhuff.c:322-443 | Accepts exactly the legal tables (DC symbols up to 15) and builds both the bit-serial and the lookahead tables. |
| `HuffBitReader.SerialStep` | ext/jpeg/jdhuff.c:606-627 | On bits that begin with a code word, the bit-serial comparison goes on exactly until all bits of that word are read, and the offset then gives its symbol. |
| `HuffBitReader.LookStep` | ext/jpeg/jdhuff.c:176-182 | The lookahead table gives the same length and symbol as the code word that the bits begin with, or nothing if the word is longer than eight bits. |
| `HuffBitWriter.BitWriter.EmitBits` | ext/jpeg/jchuff.c:305-342 | Appends exactly the low bits of the code to all bits sent so far, keeps at most seven bits back, and refuses only a size of zero. |
| `HuffBitWriter.BitWriter.FlushBits` | ext/jpeg/jchuff.c:385-393 | Completes the last byte with at most seven one bits. |
| `HuffBitReader.BitReader.FillBitBuffer` | ext/jpeg/jdhuff.c:464-562 | Never changes the bits still to be consumed except to add zeros after the end of the data; leaves at least the bits asked for, in the state that an uninterrupted fill leaves; if it has to wait for input, nothing has changed. |
| `HuffBitReader.BitReader.NextByte` | ext/jpeg/jdhuff.c:486-536 | The next data byte after removing a stuffed zero, or the marker after any number of fill bytes. |
| `HuffBitReader.BitReader.NextMarker` | ext/jpeg/jdmarker.c:1005-1048 | Skips what is left of the data up to the next marker; where it has to wait for input it can go on later. |
| `HuffBitReader.BitReader.SlowDecode` | ext/jpeg/jdhuff.c:591-627 | Finds the symbol whose code word comes next, bit by bit. |
| `HuffBitReader.BitReader.HuffDecode` | ext/jpeg/jdhuff.c:168-188 | Returns the symbol that the encoder sent and consumes exactly its code word, whichever of the fast and slow paths is taken. |
| `HuffBitReader.AfterAppend` | ext/jpeg/jdhuff.c:464-627 | An uninterrupted reader that takes some code words and bits and then others is left in the state that taking all of them leaves. |
| `HuffSource.TakenTogether` | ext/jpeg/jdhuff.c:464-627 | The bit buffer, bit count, position and marker after some items depend only on their values before and on the sizes of the items, not on how the input arrived. |
| `HuffItems.ExtendInverts` | ext/jpeg/jdhuff.c:573-578 | Sign extension of the bits that the encoder sends for a value gives that value back. |
| `HuffFigures.ValueMeans` | ext/jpeg/jchuff.c:973-996 | A value of n bits is sent as itself if positive and raised by 2^n - 1 if negative; the first bit tells the sign. |
| `HuffFigures.BlockMeans` | ext/jpeg/jchuff.c:931-1008 | A block: the size and bits of its DC difference, its AC symbols, and an end of block only if the last coefficient is zero. |
| `HuffFigures.BodyMeans` | ext/jpeg/jchuff.c:958-1000 | On to the next nonzero coefficient: one symbol 0xF0 for each sixteen zeros, then the rest of the run above the size, and the bits. |
| `HuffFigures.PredictionIs` | ext/jpeg/jchuff.c:1036-1047 | The prediction of a component is the DC coefficient of its last block, or what it was before if there is none. |
| `HuffSequential.EncodeOneBlock` | ext/jpeg/jchuff.c:915-1008 | Sends the symbols and bits that the block stands for; fails if and only if a coefficient is out of range or a symbol has no code. |
| `HuffSequential.TestOneBlock` | ext/jpeg/jchuff.c:1121-1188 | Counts the same symbols that the output routine sends, and fails if and only if a coefficient is out of range. |
| `HuffSequentialPass.SequentialPass.EncodeMcu` | ext/jpeg/jchuff.c:1015-1065 | With restarts: at an interval's end the last byte is completed and the marker with the right number follows, predictions are reset, and the items of the MCU are sent. |
| `HuffSequentialPass.SequentialPass.GatherMcu` | ext/jpeg/jchuff.c:1196-1225 | Counts the items of the same MCU from the same predictions, with the same restart bookkeeping. |
| `HuffSequentialPass.SequentialPass.EncodeScan` | ext/jpeg/jchuff.c:1015-1065 | The whole output pass sends exactly the items of the scan, for every restart interval, and fails only if a coefficient is out of range or a symbol has no code; each complete interval stands in the output, padded and stuffed, with markers numbered 0 to 7 behind them. |
| `HuffSequentialPass.SequentialPass.GatherScan` | ext/jpeg/jchuff.c:1196-1225 | The whole statistics pass counts exactly the items that the output pass sends. |
| `HuffSink.Sink.CountSymbol` | ext/jpeg/jchuff.c:410-432 | The statistics hold exactly the number of times each symbol of each table has occurred. |
| `HuffOptimised.CountsFit` | ext/jpeg/jchuff.c:1255-1280 | The statistics of a table in use meet the conditions of the table construction: at least one symbol, at most 16 for each size that can occur (so at most 254), and a small enough total. |
| `HuffOptimised.BuildTables` | ext/jpeg/jchuff.c:1396-1443 | Each table in use gets a code for every symbol that was counted for it; refused if and only if the tree of some table is too deep, so never for DC tables. |
| `HuffOptimised.OptimisedScan` | ext/jpeg/jchuff.c:1121-1225 | With tables built from the statistics pass the output pass never meets a symbol without a code; refused if and only if the tree of some AC table is too deep, so never for a scan of fewer than 9227464 items. |
| `HuffSequentialDecoder.DecodeOneBlock` | ext/jpeg/jdhuff.c:1216-1285 | Restores the wanted coefficients of a block and consumes the whole block even if only some or none are wanted. |
| `HuffSequentialDecoder.SequentialDecoder.DecodeMcu` | ext/jpeg/jdhuff.c:1187-1303 | Either the MCU is restored, and bit buffer and position are those of one uninterrupted call, or bit buffer, position and predictions are as before and another attempt can be made; predictions of components that are not wanted stay. |
| `HuffSequentialDecoder.SequentialDecoder.ProcessRestart` | ext/jpeg/jdhuff.c:636-672 | The padding is thrown away, the restart marker with the expected number is taken and the next interval starts afresh; if the input runs out before that, it can be tried again. |
| `HuffSequentialDecoder.SequentialDecoder.DecodeScan` | ext/jpeg/jdhuff.c:1187-1303 | All blocks of a scan with restart intervals are restored for every way of cutting the input into pieces. |
| `HuffRoundTrip.TransmitSequential` | ext/jpeg/jchuff.c:915-1112 | A sequential scan with optimised tables and any restart interval, through stuffed bytes and markers, restores every wanted coefficient however the bytes are delivered; both ways to fail have their exact condition. |
| `HuffRoundTrip.FinishIntervals` | ext/jpeg/jchuff.c:1072-1112 | The finished bytes hold every interval of the scan, no marker but the restart markers occurs in them, and the decoder has the first interval ahead. |
| `HuffBlocks.PendingJoin` | ext/jpeg/jchuff.c:714-719 | A band without symbols of its own can join the pending run without changing what is sent in the end. |
| `HuffFigures.EobRunMeans` | ext/jpeg/jchuff.c:458-482 | A run of n bands with 2^r <= n < 2^(r+1) is the symbol 16r and the r bits of n - 2^r. |
| `HuffFigures.RunIsLongest` | ext/jpeg/jchuff.c:885-894 | A run takes all it can: it ends only before a band with symbols of its own, at 0x7FFF bands, beyond 937 correction bits, or with the interval. |
| `HuffRefine.ZrlStep` | ext/jpeg/jchuff.c:854-866 | A run of sixteen zeros takes with it the correction bits up to its sixteenth zero, where the decoder stops. |
| `HuffRefine.NewStep` | ext/jpeg/jchuff.c:868-895 | A new coefficient takes with it the correction bits since the last symbol, and the decoder that passes over as many zeros stops at it. |
| `HuffFigures.RefineMeans` | ext/jpeg/jchuff.c:838-883 | Up to the next new coefficient: with at most fifteen zeros before it, its symbol 16z + 1, its sign and the correction bits passed over; with more, first 0xF0 and the correction bits up to the sixteenth zero. |
| `HuffFigures.PassedOver` | ext/jpeg/jchuff.c:838-866 | On the way zeros are counted and each coefficient known before has its lowest bit sent. |
| `HuffProgressive.ProgressiveEncoder.EmitEobrun` | ext/jpeg/jchuff.c:458-482 | Sends the run and its correction bits and empties both; the size check never fails; EOBRUN = 0 implies BE = 0. |
| `HuffProgressive.ProgressiveEncoder.EncodeAcFirst` | ext/jpeg/jchuff.c:627-731 | A band of a first scan, with its zero runs and its share in the end-of-band run, for the statistics and for the file alike. |
| `HuffProgressive.ProgressiveEncoder.EncodeAcRefine` | ext/jpeg/jchuff.c:785-907 | A band of a refinement scan; the correction buffer never exceeds 1000 bits, EOBRUN stays below 0x7FFF, and the bits of this band start where the pending ones end. |
| `HuffProgressive.ProgressiveEncoder.EmitRestart` | ext/jpeg/jchuff.c:511-532 | Behind the end-of-band run of an interval the last byte is completed with at most seven ones and the marker with the right number follows. |
| `HuffProgressive.ProgressiveEncoder.EncodeFirstScan` | ext/jpeg/jchuff.c:627-731 | A whole first scan sends the items of its bands in both modes, runs ending with their restart interval, and fails only if a coefficient is out of range or a symbol has no code; each complete interval stands in the output with markers numbered 0 to 7 behind them. |
| `HuffProgressive.ProgressiveEncoder.EncodeRefineScan` | ext/jpeg/jchuff.c:785-907 | A whole refinement scan sends the items of its bands in both modes, with the same restart intervals, and fails only if a symbol has no code. |
| `HuffProgressiveDecoder.Correct` | ext/jpeg/jdhuff.c:978-989 | A correction bit brings a coefficient to the new precision whether or not an earlier attempt has done so already. |
| `HuffProgressiveDecoder.AdvanceOver` | ext/jpeg/jdhuff.c:970-996 | Passes over known coefficients and the given number of zeros, correcting on the way, and stops where the encoder meant. |
| `HuffProgressiveDecoder.Undo` | ext/jpeg/jdhuff.c:1047-1050 | After a suspension every newly nonzero coefficient is zero again and every other one has its old or its new precision. |
| `HuffProgressiveDecoder.ProgressiveDecoder.DecodeAcFirst` | ext/jpeg/jdhuff.c:765-846 | Either the band is restored, with the run, bit buffer and position of one uninterrupted call, or run, bit buffer and position are as before; a band inside a run reads no input and is left alone. |
| `HuffProgressiveDecoder.ProgressiveDecoder.DecodeAcRefine` | ext/jpeg/jdhuff.c:902-1051 | Either the band goes exactly from bit al+1 to bit al, with the run, bit buffer and position of one uninterrupted call, or run, bit buffer and position are as before and the block can be tried again. |
| `HuffProgressiveDecoder.ProgressiveDecoder.ProcessRestart` | ext/jpeg/jdhuff.c:636-672 | The padding is thrown away, the restart marker with the expected number is taken and the next interval begins without a run; if the input runs out before that, it can be tried again. |
| `HuffProgressiveDecoder.ProgressiveDecoder.DecodeFirstScan` | ext/jpeg/jdhuff.c:765-846 | The whole first scan with its restart intervals restores every block for every way of cutting the input into pieces. |
| `HuffProgressiveDecoder.ProgressiveDecoder.DecodeRefineScan` | ext/jpeg/jdhuff.c:902-1051 | The whole scan with its restart intervals refines every block for every way of cutting the input into pieces. |
| `HuffProgressiveRoundTrip.FinishBands` | ext/jpeg/jchuff.c:1072-1112 | The finished bytes hold every interval of the scan, no marker but the restart markers occurs in them, and the decoder has the first interval ahead. |
| `HuffProgressiveRoundTrip.TransmitFirst` | ext/jpeg/jchuff.c:627-731 | A first scan with optimised tables and any restart interval restores each coefficient of the band down to the bit position sent, however the bytes are delivered; both ways to fail have their exact condition. |
| `HuffProgressiveRoundTrip.TransmitRefinement` | ext/jpeg/jchuff.c:785-907 | A refinement scan with optimised tables and any restart interval always succeeds, refines every block of the scan by exactly one bit and touches nothing outside the band. |
| `PassControl.EachScanOnce` | ext/jpeg/jcmaster.c:664-799 | Every scan is output once and in order, after one frame header. |
| `PassControl.EventOrder` | ext/jpeg/jcmaster.c:664-799 | Each header stands right before the data of its scan, the frame header before the first, and before that the statistics exactly if optimisation is on and the scan is not a DC refinement. |
| `PassControl.Master.PrepareForPass` | ext/jpeg/jcmaster.c:664-740 | The pass that is set up fits the scan: an optimisation pass is left out exactly for DC refinement, and the pass number still follows from the scan number. |
| `PassControl.Master.FinishPass` | ext/jpeg/jcmaster.c:766-799 | The next pass is the output of the same scan after an optimisation pass, else the first pass of the next scan; is_last_pass holds exactly after the last output. |
| `PassControl.Master.Compress` | ext/jpeg/jcapimin.c:154-189 | From every initial mode the loop terminates, and each output directly follows the optimisation pass for the same scan where there is one. |
| `PassControl.ScriptStarts` | ext/jpeg/jcmaster.c:357-489 | A validated script begins with a scan that needs tables. |
| `ContextRows.PrepController.constructor` | ext/jpeg/jcprepct.c:268-308 | Five groups of row pointers wrap around three groups of rows. |
| `EndlessImage.Nearest` | ext/jpeg/jcprepct.c:218-228 | The row that stands for a row outside the image is the nearest one inside. |
| `ContextRows.PrepController.PadTop` | ext/jpeg/jcprepct.c:218-228 | The group above the image shows the first row. |
| `ContextRows.PrepController.PadBottom` | ext/jpeg/jcprepct.c:105-116 | Missing rows at the bottom show the last row, even if the buffer has just wrapped around. |
| `ContextRows.PrepController.EmitGroup` | ext/jpeg/jcprepct.c:245-259 | The downsampler is shown the group with one group above and one below exactly as in the endless image; its output is the smoothed image; the counters go round. |
| `ContextRows.PrepController.PreProcess` | ext/jpeg/jcprepct.c:196-261 | For every height, group height and split of the rows over calls, all groups shown so far are those of the edge-replicated image and all output is its smoothed image; it returns early only for want of input. |
| `ContextRows.SmoothImage` | ext/jpeg/jcprepct.c:196-261 | A whole image, handed over in any pieces to a controller with the smoothing downsampler: every row of output is the 3x3 stencil, or the average of four smoothed pixels, of the edge-replicated image. |
| `SmoothDownsample.ExpandRightEdge` | ext/jpeg/jcsample.c:95-115 | The row is widened with copies of its last sample and its own samples stay. |
| `SmoothDownsample.BlendRange` | ext/jpeg/jcsample.c:425-431 | Every smoothed value is a sample again (0 to 255). |
| `SmoothDownsample.BlendNearest` | ext/jpeg/jcsample.c:425-431 | The integer weights give the nearest integer to SF/1024 of each neighbour and the rest of the pixel itself. |
| `SmoothDownsample.SmoothRow` | ext/jpeg/jcsample.c:433-466 | Running column sums give, for every column, the direct 3x3 stencil with repeated edges. |
| `SmoothDownsample.FullsizeSmooth` | ext/jpeg/jcsample.c:405-467 | A whole row group of output is the 3x3 stencil of the endless image, for at least two columns. |
| `SmoothDownsample.AverageOfFour` | ext/jpeg/jcsample.c:316-330 | The weights 1-5SF, 2SF and SF on a square, its edges and its corners give the sum of four smoothed pixels, as the comment claims. |
| `SmoothDownsample.AverageNearest` | ext/jpeg/jcsample.c:316-330 | The integer weights give the nearest integer to the average of four such smoothed pixels, not rounded before. |
| `SmoothDownsample.SmoothSquares` | ext/jpeg/jcsample.c:335-397 | The first, middle and last columns of a 2:1 row are the rounded average of four smoothed pixels with repeated edges. |
| `SmoothDownsample.HalfSmooth` | ext/jpeg/jcsample.c:299-402 | A whole row group of 2:1 output is the rounded average of four smoothed pixels of the endless image, for at least two columns. |
| `JsonString.ElementFits` | ext/cJSON/cJSON.c:715-737 | No element of a literal yields more bytes than its length less the escapes that the first pass met in it, even where the two passes are out of step. |
| `JsonString.UnescapeFits` | ext/cJSON/cJSON.c:715-737 | The output of any literal, valid or not, fits the size computed by the first pass. |
| `JsonUnicode.Utf8Inverts` | ext/cJSON/cJSON.c:638-693 | A decoder of UTF-8 by RFC 3629 gives back every code point up to 0x10FFFF. |
| `JsonUnicode.SpelledElement` | ext/cJSON/cJSON.c:578-693 | The plain escape of a code point below 0x10000, or the escapes of both surrogates of one above, with digits in either case, give its UTF-8 bytes. |
| `JsonUnicode.AcceptedSpelling` | ext/cJSON/cJSON.c:578-636 | An accepted escape with four hexadecimal digits spells a code point, and gives its bytes. |
| `JsonUnicode.HexDigits` | ext/cJSON/cJSON.c:541-575 | The hexadecimal digits are exactly 0 to 9 and A to F in either case, with their values. |
| `JsonUnicode.Letters` | ext/cJSON/cJSON.c:762-783 | The escapes by letter give the control characters that they name. |
| `JsonString.ParseString` | ext/cJSON/cJSON.c:699-825 | Returns what the literal means under the parser's rules, or fails, for every input, and never writes beyond its buffer; the meaning of escapes is that of `JsonUnicode.SpelledElement` and `JsonUnicode.Letters`. |
| `JsonText.StringRoundTrip` | ext/cJSON/cJSON.c:828-947 | Parsing a printed literal gives the string back, for every string of bytes. |
| `JsonText.AcceptedEscape` | ext/cJSON/cJSON.c:578-636 | An accepted \u escape follows the grammar of RFC 8259 if and only if its first four characters are hexadecimal digits; otherwise it is read as NUL. |
| `JsonText.BadHexAccepted` | ext/cJSON/cJSON.c:541-575 | A \u escape whose digits are not hexadecimal is accepted and gives a NUL byte: a concrete literal. |
| `JsonText.OutOfStep` | ext/cJSON/cJSON.c:709-800 | A concrete literal in which an escape takes in the closing quote: its second backslash is read as a digit, and the quote behind it becomes part of the string. |
| `JsonText.InStep` | ext/cJSON/cJSON.c:709-800 | An accepted element whose \u escape has four hexadecimal digits ends where the first pass comes by, not behind the closing quote: only bad digits put the passes out of step. |
| `JsonPrinter.PrintBuffer.Ensure` | ext/cJSON/cJSON.c:374-459 | Keeps the text printed so far through every way of growing, and fails exactly if the room asked for exceeds the limit. |
| `JsonPrinter.PrintBuffer.UpdateOffset` | ext/cJSON/cJSON.c:462-472 | Moves the offset to the end of what was placed last. |
| `JsonPrinter.PrintBuffer.CountEscapes` | ext/cJSON/cJSON.c:852-876 | The precomputed length is the length of the escaped string. |
| `JsonPrinter.PrintBuffer.PrintString` | ext/cJSON/cJSON.c:828-947 | Places the quoted and escaped string within the room that was computed for it; fails exactly if that does not fit the limit. |
| `JsonPrinter.PrintBuffer.PrintArray` | ext/cJSON/cJSON.c:1436-1495 | Adds exactly the text of the array, whatever the buffer was; fails exactly if text and two bytes more do not fit the limit. |
| `JsonPrinter.PrintBuffer.PrintObject` | ext/cJSON/cJSON.c:1607-1718 | Adds exactly the text of the object with the indentation of its depth; fails exactly if text and two bytes more do not fit the limit. |
| `JsonPrinter.Print` | ext/cJSON/cJSON.c:1088-1191 | The text depends on the item and the format only, not on the size to begin with or on how the buffer grows; it fails exactly if the text and two bytes more do not fit an int. |
| `JsonPrinter.PrintPreallocated` | ext/cJSON/cJSON.c:1193-1210 | A buffer that cannot grow holds the text and its NUL on success; printing succeeds exactly if there are two bytes more than the text, so one of exactly the text and its NUL is refused. |
| `JsonLayout.ShortestEscape` | ext/cJSON/cJSON.c:901-941 | A byte is escaped only if it is a control character, a quote or a backslash, and no escape that the parser knows for it is shorter. |
| `JsonLayout.ControlEscape` | ext/cJSON/cJSON.c:935-939 | The other control characters have two zeros and two lower-case digits, which give the byte. |
| `JsonLayout.Formatted` | ext/cJSON/cJSON.c:1436-1718 | Formatted text is the compact text after one pass over its characters: line breaks behind an opening brace and behind the commas of an object, before its closing brace, each with a tab for every open bracket; a tab behind colons, a space behind the commas of an array. |
| `JsonParser.ParseBuffer.SkipWhitespace` | ext/cJSON/cJSON.c:964-982 | Stops at the first character above 32, or at the last place of the text. |
| `JsonGrammar.Unambiguous` | ext/cJSON/cJSON.c:1213-1604 | The grammar gives at most one item and one end for each place in a text. |
| `JsonGrammar.ReaderIs` | ext/cJSON/cJSON.c:1213-1604 | Reading with a bound on the depth succeeds exactly for the items of the grammar within that bound. |
| `JsonNumbers.NumberRead` | ext/cJSON/cJSON.c:267-319 | Every number of section 6 of RFC 8259 with up to 63 characters that stands by itself is collected whole, and is read if the C library takes it whole. |
| `JsonParser.ParseBuffer.ParseValue` | ext/cJSON/cJSON.c:1213-1265 | Succeeds if and only if the grammar reads an item at the offset whose depth is within the limit, and then returns that item and stops where it ends. |
| `JsonParser.ParseBuffer.ParseArray` | ext/cJSON/cJSON.c:1342-1433 | Finds exactly the arrays of the grammar, blanks around elements included, up to the depth limit. |
| `JsonParser.ParseBuffer.ParseElements` | ext/cJSON/cJSON.c:1389-1415 | The loop over elements finds exactly the elements of the grammar, with blanks before and after each and commas between them. |
| `JsonParser.ParseBuffer.ParseObject` | ext/cJSON/cJSON.c:1498-1604 | Finds exactly the objects of the grammar, blanks around names and values included, up to the depth limit. |
| `JsonParser.ParseBuffer.ParseMembers` | ext/cJSON/cJSON.c:1543-1587 | The loop over members finds exactly the members of the grammar, with blanks before and after names and values. |
| `JsonParser.Parse` | ext/cJSON/cJSON.c:1001-1058 | A text is accepted if and only if, behind an optional byte order mark and blanks, the grammar reads an item not deeper than 1000, followed by blanks and the NUL if the end is required; the item is then returned. |
| `JsonRoundTrip.PrintedAccepted` | ext/cJSON/cJSON.c:1088-1718 | The text of a tree, formatted or not, is accepted by the grammar, with or without the check for the end, as that tree and no other. |
| `JsonRoundTrip.RoundTrip` | ext/cJSON/cJSON.c:1088-1718 | Printed, formatted or not, into whatever buffer, a tree comes back exactly if it is not deeper than 1000; the printer takes deeper trees, and the parser refuses their text. |

## Left out

- ArithScanDecoder.ScanDecoder.ProcessRestart: the expected restart marker is there; `resync_to_restart` for missing or misnumbered markers is not modelled.
- ArithDecoder.ArithDecoder.Decode: for data that an encoder produced; other corrupt data (spectral overflow, missing markers) are not modelled. The error state `ct = -1` after a refused DC difference is.
- HuffBitReader.BitReader.HuffDecode: for data that begin with a code word; the fake zero for a bad code is not modelled.
- HuffSequentialDecoder.SequentialDecoder.ProcessRestart: the expected restart marker is there; `resync_to_restart` is not modelled.
- HuffSequentialDecoder.DecodeOneBlock: full-size blocks only; `decode_mcu_sub` for scaled blocks is not modelled.
- HuffProgressiveDecoder.ProgressiveDecoder.ProcessRestart: the expected restart marker is there; `resync_to_restart` is not modelled.
- HuffLimit.GenOptimalTable: the lengths are optimal if none is above 16; for those that an adjustment has changed, the source itself does not claim optimality.
- JsonParser.ParseBuffer.ParseNumber: `strtod` is a parameter that tells how many characters it takes; numbers are opaque tokens of at most 63 characters that it takes whole.
- JsonPrinter.PrintBuffer.Grow: allocation always succeeds; failing allocators are not modelled. Where an empty start buffer is copied by hand, the source also copies the byte behind it; the model leaves out that byte, which no text depends on.
- ContextRows.PrepController.PreProcess: one component; colour conversion is the identity, and the rows that the downsampler puts out are fresh and then kept as values.
- Huffman DC scans of progressive mode: they differ from the sequential DC code only by the point transform, and from the arithmetic DC refinement only by the carrier of the bit.
- Blocks are sequences in zigzag order: the permutation `natural_order` and the dummy blocks at the image edges are not modelled.
- The statistics areas of the arithmetic coder are one map, zeroed together; its byte and zero counters are unbounded.
- JSON lists are sequences instead of linked nodes; Raw and Invalid items, references and the editing functions are not modelled.
- Suspension of the Huffman encoder by a full output buffer, and of data destinations in general: output is a byte sequence that always accepts.
- Marker segments, quantisation, DCT, colour conversion, memory management, progress hooks, command-line programs and `cJSON_Utils.c`.

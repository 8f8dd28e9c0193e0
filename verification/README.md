# PipestreamDB viewer: a verified model of its core

The repository holds a PyQt viewer for the records of pipe-stream loggers,
plus a small command-line tool for the same database. Each logger writes
records into its own PostgreSQL table. A record has:

- a millisecond timestamp;
- a channel mask;
- a base64 block of 24-bit ADC samples;
- calibration multipliers and dividers;
- six RMS words (`add_data_0` .. `add_data_5`).

The viewer shows three sub-windows side by side or stacked:

- the device list on the left;
- the trends (RMS over time) in the middle;
- the signals of one record on the right.

This Dafny project models the parts of that program that compute
something or keep state, one module per concern:

| module | file | what it models |
|---|---|---|
| `SampleCodec` | sample_codec.dfy | `LogRecord.get_signals`, `bytesToIntBig`, `reverse_bytes_order`, the timestamp-filtered record list |
| `HexCodec` | hex_codec.dfy | the hex helpers of the command-line tool (`base64_to_hex`, `reverse_bytes_order`, `hex_to_signed_decimal`) |
| `PointsStream` | points_stream.dfy | `process_points_data`: splitting a hex points block into six channel streams |
| `RangeParse` | range_parse.dfy | `pars_cipher_diapasons_to_boolmask` and `rangeTextParse` |
| `Segments` | segments.dfy | gap detection (more than 15 minutes), `np.split` segmentation, gap and NaN regions of the trend plots |
| `MissingData` | missing_data.dfy | `add_missing_data_regions` as written and corrected |
| `SegmentPlayback` | segment_player.dfy | the timer-driven segment-by-segment drawing of the 11.08 trends window |
| `TrendRows` | trend_rows.dfy | building trend rows in the 28.07, 11.08, 14.08 and 15.09 loaders, with their progress reports |
| `ChunkPipeline` | chunk_pipeline.dfy | the chunked loading of the 14.08 trends window |
| `Nearest` | nearest.dfy | the nearest-timestamp search shared by the signals and trends windows |
| `TrendsWindow` | trends_window.dfy | the 15.09 trends window: loading, pending cursor timestamps, plotting |
| `SignalsNav` | signals_nav.dfy | record navigation, button states, channel filter and scale of the signals window |
| `RecordsTable` | records_table.dfy | the device table model and the width toggle of the records window |
| `MainWindow` | main_window.dfy | tiling of the three sub-windows, layout and theme toggles |
| `Display` | display.dfy | the text output of the command-line tool |

Modelling choices:

- Timestamps are integers in milliseconds, so the 900-second threshold of
  the source is `GapMs = 900000`.
- Decoded samples are kept as integers, the raw ADC word shifted right by
  two; the source scales them by floating-point calibration factors.
- Threads, signals and timers become plain method calls in the order the
  events reach the window.
- The same function is copied in several versions, and each copy is
  modelled once:
  - `result.py` repeats `conversion.py` and `processing.py`;
  - `15.02_version/ui/main_window.py` is an earlier `tile_subwindows`
    (lines 81-225, `toggle_layout` at 72-79) with the same logic as 15.09;
  - the missing-data scan appears in the 28.07, 11.08 and CSV viewers.

  The table cites one copy per member.

## Model

| member | source | states |
|---|---|---|
| `Common.Blankless` | 15.08_version/Lib/cifer_diapasons_parsing.py:7 | removing white space leaves no white space and never lengthens the text |
| `Common.BlanklessMembers` | 15.08_version/Lib/cifer_diapasons_parsing.py:7 | a character survives exactly when it is in the text and is not white space |
| `Common.BlanklessAppend` | 15.08_version/Lib/cifer_diapasons_parsing.py:7 | white space is removed piece by piece: the result for a concatenation is the concatenation of the results |
| `Common.Lower` | 15.09_version/ui/records_view.py:60-61 | lower-casing keeps the length and maps each character |
| `SampleCodec.CountOnes` | 28.07version/pipestreamDBViewer/Lib/pipestreamdbread.py:265-266 | the channel count is the number of '1's in the mask: 0 exactly when there is none, the full length exactly when all are '1' |
| `SampleCodec.CountOnesAppend` | 28.07version/pipestreamDBViewer/Lib/pipestreamdbread.py:266 | counting distributes over concatenation of masks |
| `SampleCodec.ReverseBytes` | 28.07version/pipestreamDBViewer/Lib/pipestreamdbread.py:298 | byte i of the result is byte n-1-i of the input |
| `SampleCodec.ReverseBytesInvolution` | 28.07version/pipestreamDBViewer/Lib/pipestreamdbread.py:298 | reversing twice gives the input back |
| `SampleCodec.UnsignedBig` | 28.07version/pipestreamDBViewer/Lib/pipestreamdbread.py:299 | the big-endian value of n bytes is below 256^n |
| `SampleCodec.UnsignedBigFront` | 28.07version/pipestreamDBViewer/Lib/pipestreamdbread.py:299 | the leading byte weighs 256^(n-1) |
| `SampleCodec.BytesToIntBig` | 28.07version/pipestreamDBViewer/Lib/pipestreamdbread.py:299 | the big-endian two's-complement value of n bytes; its range and sign are proved by `SignedBigRange` |
| `SampleCodec.SignedBigRange` | 28.07version/pipestreamDBViewer/Lib/pipestreamdbread.py:299 | `bytesToIntBig` lies in the two's-complement range of n bytes and is negative exactly when the top bit is set |
| `SampleCodec.CellRoundTrip` | 28.07version/pipestreamDBViewer/Lib/pipestreamdbread.py:298-299 | a 24-bit value stored little-endian decodes back to itself |
| `SampleCodec.ShiftRight2` | 28.07version/pipestreamDBViewer/Lib/pipestreamdbread.py:303 | `x >> 2` is the floor of x/4, negatives included |
| `SampleCodec.GroupOf` | 28.07version/pipestreamDBViewer/Lib/pipestreamdbread.py:302-305 | channels 0-2 are voltages and the rest currents |
| `SampleCodec.CellInBounds` | 28.07version/pipestreamDBViewer/Lib/pipestreamdbread.py:288-296 | once the length check passes, every cell the loops read lies inside the byte string |
| `SampleCodec.Decode` | 28.07version/pipestreamDBViewer/Lib/pipestreamdbread.py:263-311 | an error exactly when the block is shorter than npoints*3*channels+3; otherwise npoints rows of `channels` samples |
| `SampleCodec.DecodeCell` | 28.07version/pipestreamDBViewer/Lib/pipestreamdbread.py:288-305 | sample (i, j) is the reversed 3-byte cell at offset 3+3(i*channels+j), signed and shifted, with the group of channel j |
| `SampleCodec.GetSignals` | 28.07version/pipestreamDBViewer/Lib/pipestreamdbread.py:263-311 | the array is filled cell by cell with exactly the decoded samples, or the error is returned |
| `SampleCodec.FillRow` | 28.07version/pipestreamDBViewer/Lib/pipestreamdbread.py:288-311 | row i takes exactly the decoded samples of sample i; the other rows are unchanged |
| `SampleCodec.TimestampGuard` | 28.07version/pipestreamDBViewer/Lib/pipestreamdbread.py:95-98 | both bounds print as exactly 13 characters; which numbers pass is proved by `TimestampGuardRange` |
| `SampleCodec.TimestampGuardRange` | 28.07version/pipestreamDBViewer/Lib/pipestreamdbread.py:95-98 | the 13-character check accepts exactly the 13-digit positives and the 12-digit negatives |
| `SampleCodec.Between` | 28.07version/pipestreamDBViewer/Lib/pipestreamdbread.py:102-110 | the query keeps exactly the stored timestamps strictly between the bounds |
| `SampleCodec.RecordListWithFilter` | 28.07version/pipestreamDBViewer/Lib/pipestreamdbread.py:94-112 | an empty list when a bound is not 13 characters long, otherwise the timestamps strictly inside the range |
| `HexCodec.HexDigit` | lartech_loggers_db/PythonProject1/utils/conversion.py:6 | a nibble prints as an upper-case hex digit |
| `HexCodec.HexDigitValue` | lartech_loggers_db/PythonProject1/utils/conversion.py:6 | reading a printed digit back gives the nibble |
| `HexCodec.ByteToHex` | lartech_loggers_db/PythonProject1/utils/conversion.py:6 | `{byte:02X}` is two hex characters that read back, high digit first, as the byte |
| `HexCodec.BytesToHex` | lartech_loggers_db/PythonProject1/utils/conversion.py:6 | two digits per byte, every one a hex digit |
| `HexCodec.ByteDigit` | lartech_loggers_db/PythonProject1/utils/conversion.py:6 | digit 2k of the rendering is the high nibble of byte k and digit 2k+1 its low nibble |
| `HexCodec.Base64ToHex` | lartech_loggers_db/PythonProject1/utils/conversion.py:3-9 | a decode error gives the empty string, otherwise the hex of the bytes |
| `HexCodec.BytesToHexInjective` | lartech_loggers_db/PythonProject1/utils/conversion.py:6 | different byte strings give different hex strings |
| `HexCodec.ReverseHexPairs` | lartech_loggers_db/PythonProject1/utils/conversion.py:17-18 | reversing digit pairs keeps a hex string hex and a non-empty one non-empty |
| `HexCodec.ReverseHexPairsEven` | lartech_loggers_db/PythonProject1/utils/conversion.py:17-18 | on even length, pair k of the result is pair n/2-1-k of the input |
| `HexCodec.ReverseHexPairsInvolution` | lartech_loggers_db/PythonProject1/utils/conversion.py:17-18 | on even length, reversing twice gives the input back |
| `HexCodec.ReverseHexPairsOdd` | lartech_loggers_db/PythonProject1/utils/conversion.py:17-18 | on odd length the first digit is dropped (a single digit is kept) |
| `HexCodec.ReverseHexPairsOfBytes` | result.py:183-185 | reversing the pairs of a hex dump is the hex dump of the reversed bytes |
| `HexCodec.HexValue` | lartech_loggers_db/PythonProject1/utils/conversion.py:12 | `int(s, 16)` of n digits is below 16^n |
| `HexCodec.HexToSignedDecimal` | lartech_loggers_db/PythonProject1/utils/conversion.py:11-15 | the signed reading of a hex string: two's complement over 4n bits from six digits on, unsigned below; its range and sign are proved by `SignedDecimalRange` |
| `HexCodec.SignedDecimalRange` | lartech_loggers_db/PythonProject1/utils/conversion.py:11-15 | from six digits on the value is two's complement, negative exactly when the top bit is set; shorter strings stay unsigned |
| `HexCodec.HexValueOfBytes` | result.py:166-181 | the hex value of a dump is the big-endian value of its bytes |
| `HexCodec.SignedHexOfBytes` | result.py:176-181 | `hex_to_signed_decimal` of a dump of three or more bytes equals `bytesToIntBig` of the bytes |
| `HexCodec.CellHexValue` | lartech_loggers_db/PythonProject1/utils/processing.py:24 | a reversed 3-byte cell is the signed little-endian 24-bit value |
| `HexCodec.SignedRoundTrip` | lartech_loggers_db/PythonProject1/utils/processing.py:21-24 | every 24-bit value written little-endian is read back unchanged |
| `PointsStream.FrameCount` | lartech_loggers_db/PythonProject1/utils/processing.py:19 | the loop runs once per frame k with 36k+12 digits available |
| `PointsStream.Reach` | lartech_loggers_db/PythonProject1/utils/processing.py:21-23 | channel c gets a value in frame k exactly when its slice starts inside the body |
| `PointsStream.StreamLen` | lartech_loggers_db/PythonProject1/utils/processing.py:19-25 | no stream outlives the frame loop, and the last value of each lies in the body |
| `PointsStream.Cell` | lartech_loggers_db/PythonProject1/utils/processing.py:21 | a slice that starts inside the body has 1 to 6 digits |
| `PointsStream.Scale` | lartech_loggers_db/PythonProject1/utils/processing.py:28-30 | the stored voltage of a raw word, `ADC_Scale` with 0.93 V over 2^21 then times -24000/25000; its sign and order are proved by `ScaleSign` |
| `PointsStream.ScaleSign` | lartech_loggers_db/PythonProject1/utils/processing.py:3-4 | the scaled value is positive exactly for negative raw words, and scaling is antitone |
| `PointsStream.Deinterleave` | lartech_loggers_db/PythonProject1/utils/processing.py:19-26 | six streams, stream c of length `StreamLen`, value j the signed reversed cell of frame j |
| `PointsStream.ScaleStreams` | lartech_loggers_db/PythonProject1/utils/processing.py:28-30 | every value is replaced by its scaled value, shapes unchanged |
| `PointsStream.ProcessPointsData` | lartech_loggers_db/PythonProject1/utils/processing.py:6-32 | six empty streams when the hex is under six digits, otherwise the scaled deinterleaved body after the header |
| `PointsStream.StreamLengthsShape` | result.py:213-221 | streams 0 and 1 have one value per frame, later streams are never longer and at most one shorter |
| `PointsStream.ShortBodyEmpty` | lartech_loggers_db/PythonProject1/utils/processing.py:19 | a body under 12 digits yields nothing |
| `PointsStream.PartialCellNonNegative` | lartech_loggers_db/PythonProject1/utils/processing.py:21-24 | a truncated last cell (under six digits) is read unsigned |
| `PointsStream.MaskField` | result.py:206 | the first two digits are the mask byte |
| `PointsStream.PointCountField` | result.py:207-209 | the point count is bytes 1-2 read little-endian |
| `PointsStream.CellOfBytes` | result.py:213-221 | frame k, channel c is bytes 3+18k+3c .. +3 of the block |
| `PointsStream.FullCellValue` | result.py:218-220 | a full cell's value is `bytesToIntBig` of its reversed bytes |
| `PointsStream.AgreesWithGetSignals` | lartech_loggers_db/PythonProject1/utils/processing.py:19-26 | for a six-channel record the stream values, shifted by two, are the samples `get_signals` decodes |
| `RangeParse.SplitOn` | 15.08_version/Lib/cifer_diapasons_parsing.py:25 | `re.split` gives at least one piece and no piece holds a separator |
| `RangeParse.SplitOnJoin` | 15.08_version/Lib/cifer_diapasons_parsing.py:25 | the pieces joined with the separators found give the input back |
| `RangeParse.FirstTwo` | 15.08_version/Lib/cifer_diapasons_parsing.py:31-32 | at most the first two pieces are kept |
| `RangeParse.ParseDia` | 15.08_version/Lib/cifer_diapasons_parsing.py:30-38 | a piece is accepted exactly when its first two parts are digits, and a pair is sorted |
| `RangeParse.DiaListOfMembers` | 15.08_version/Lib/cifer_diapasons_parsing.py:29-38 | the range list holds exactly the accepted pieces' ranges |
| `RangeParse.CipherDiapasonsToBoolmask` | 15.08_version/Lib/cifer_diapasons_parsing.py:5-46 | blank text selects all; a mask shorter than 2 is empty; otherwise entry i is set exactly when a parsed range covers i |
| `RangeParse.CollectDiapasons` | 15.08_version/Lib/cifer_diapasons_parsing.py:26-38 | the `dia_list` loop builds exactly the accepted diapasons, in order |
| `RangeParse.FillMask` | 15.08_version/Lib/cifer_diapasons_parsing.py:27-43 | the mask has the requested length and entry i is set exactly when a diapason covers i |
| `RangeParse.MarkIndex` | 15.08_version/Lib/cifer_diapasons_parsing.py:41-44 | the inner loop sets entry i exactly when a diapason covers i and leaves the other entries alone |
| `RangeParse.AcceptedTwoNumbers` | 15.08_version/Lib/cifer_diapasons_parsing.py:24-38 | "a-b" is one piece, accepted as the sorted pair |
| `RangeParse.CoveredByPair` | 15.08_version/Lib/cifer_diapasons_parsing.py:14-21 | a pair covers exactly the indices between its bounds |
| `RangeParse.DiapasonOfTwoNumbers` | 15.08_version/Lib/cifer_diapasons_parsing.py:29-43 | "a-b" selects exactly min(a,b)..max(a,b) |
| `RangeParse.ParseDiaTwoNumbers` | 15.08_version/Lib/cifer_diapasons_parsing.py:30-38 | "a:b" parses to the sorted pair |
| `RangeParse.RangeTextParse` | 15.08_version/Lib/cifer_diapasons_parsing.py:48-69 | the result is ordered, and (-1,-1) exactly for blank text |
| `RangeParse.RangeTextParseSound` | 15.08_version/Lib/cifer_diapasons_parsing.py:57-66 | a non-negative result comes from two digit pieces and is their sorted values |
| `RangeParse.RangeTextParseTwoNumbers` | 15.08_version/Lib/cifer_diapasons_parsing.py:57-66 | "a,b" parses to (min, max) |
| `RangeParse.RangeTextParseOneNumber` | 15.08_version/Lib/cifer_diapasons_parsing.py:65-69 | a single number is incomplete: (-2,-2) |
| `Segments.GapIndicesOver` | 15.09_version/ui/trends_view.py:673-674 | exactly the ascending indices k where the next key jumps by more than the gap |
| `Segments.GapIndices` | 28.07version/pipestreamDBViewer/ui/trends_view.py:289-293 | fewer than two timestamps give no gaps |
| `Segments.GapIndicesSpec` | 11.08version/pipestreamDBViewer/ui/trends_view.py:474-478 | k is a gap index exactly when t[k+1]-t[k] exceeds 15 minutes |
| `Segments.GapRegions` | 28.07version/pipestreamDBViewer/ui/trends_view.py:267-275 | at most one gray region per gap index |
| `Segments.GapRegionsOfGaps` | csv_view.py:320-328 | for real gaps there is one region per gap, spanning it, longer than 15 minutes |
| `Segments.SplitPoints` | 15.09_version/ui/trends_view.py:678 | the split points are 0, each gap index plus one, and the length |
| `Segments.SplitPointsIncreasing` | 15.09_version/ui/trends_view.py:678-684 | with ascending gaps inside the series the split points strictly increase |
| `Segments.SplitPointsWellFormed` | 15.09_version/ui/trends_view.py:678-687 | the split points are valid slice bounds |
| `Segments.NpSplit` | 28.07version/pipestreamDBViewer/ui/trends_view.py:321 | `np.split` gives the slices between consecutive split points |
| `Segments.NpSplitConcat` | 28.07version/pipestreamDBViewer/ui/trends_view.py:321 | the slices concatenate back to the input |
| `Segments.BreakPoints` | 28.07version/pipestreamDBViewer/ui/trends_view.py:319-321 | the split points of a key series are well formed and strictly increase |
| `Segments.NoJumpInside` | 11.08version/pipestreamDBViewer/ui/trends_view.py:435-437 | inside a segment consecutive keys are at most the gap apart |
| `Segments.JumpAtSplit` | 11.08version/pipestreamDBViewer/ui/trends_view.py:435-437 | every inner split point follows a jump larger than the gap |
| `Segments.SplitByGap` | 28.07version/pipestreamDBViewer/ui/trends_view.py:313-321 | the items cut wherever the key jumps by more than the gap; that the pieces partition the input is proved by `SplitByGapPartition` |
| `Segments.SplitByGapPartition` | 28.07version/pipestreamDBViewer/ui/trends_view.py:313-321 | the segments are non-empty, in order, and concatenate to the input |
| `Segments.ValidPositions` | 28.07version/pipestreamDBViewer/ui/trends_view.py:316 | `np.where(mask)` lists exactly the valid positions, ascending |
| `Segments.TimesAt` | 28.07version/pipestreamDBViewer/ui/trends_view.py:317 | fancy indexing picks t at each position |
| `Segments.DrawnTimeSegments` | 28.07version/pipestreamDBViewer/ui/trends_view.py:323-327 | exactly the time segments of more than one point are drawn: every drawn one is such a segment and every such segment is drawn; the order is kept by `FilterAppend` |
| `Segments.Filter` | 11.08version/pipestreamDBViewer/ui/trends_view.py:460 | a list comprehension keeps exactly the members that pass the test |
| `Segments.FilterAppend` | 11.08version/pipestreamDBViewer/ui/trends_view.py:460 | the comprehension keeps the order: filtering a concatenation concatenates the filtered parts |
| `Segments.TimeSegments` | 11.08version/pipestreamDBViewer/ui/trends_view.py:429-437 | the valid positions cut at gaps of more than 15 minutes; proved a partition by `TimeSegmentsPartition` |
| `Segments.TimeSegmentsPartition` | 11.08version/pipestreamDBViewer/ui/trends_view.py:429-437 | the time segments are non-empty and partition the valid positions in order |
| `Segments.ContiguousSegments` | csv_view.py:302-309 | the valid rows cut wherever a row is missing; proved runs by `ContiguousSegmentsAdjacent`, `ContiguousSegmentsSeparated` and `ContiguousSegmentsConcat` |
| `Segments.ContiguousSegmentsAdjacent` | csv_view.py:304-305 | inside a CSV segment the rows are consecutive |
| `Segments.ContiguousSegmentsSeparated` | csv_view.py:304-305 | between two CSV segments lies a missing row |
| `Segments.ContiguousSegmentsConcat` | csv_view.py:302-309 | the CSV segments partition the valid rows |
| `Segments.PlottedSegments` | 15.09_version/ui/trends_view.py:676-693 | each drawn segment has at least two rows and a non-NaN value |
| `Segments.KeepDrawable` | 15.09_version/ui/trends_view.py:683-693 | exactly the pairs with two rows and a non-NaN value are kept; the order by `KeepDrawableAppend` |
| `Segments.KeepDrawableAppend` | 15.09_version/ui/trends_view.py:683-693 | the kept pairs keep their order: keeping from a concatenation concatenates what is kept from each part |
| `Segments.NanRowRegion` | 15.09_version/ui/trends_view.py:708-710 | the region spans the neighbouring timestamps, half a second past either end |
| `Segments.NanRowRegions` | 15.09_version/ui/trends_view.py:705-717 | one shaded region per all-NaN row, in row order; proved by `NanRowRegionsCover` |
| `Segments.NanRowRegionsCover` | 15.09_version/ui/trends_view.py:705-717 | one region per all-NaN row, each containing its row's timestamp |
| `MissingData.Scan` | 28.07version/pipestreamDBViewer/ui/trends_view.py:341-348 | the recorded transition indices all lie in the scanned range |
| `MissingData.ClosedEnds` | 28.07version/pipestreamDBViewer/ui/trends_view.py:349-350 | the ends, with the closing last index, are valid indices |
| `MissingData.Zip` | 28.07version/pipestreamDBViewer/ui/trends_view.py:351 | `zip` pairs elementwise up to the shorter list |
| `MissingData.TimesOfPairs` | 28.07version/pipestreamDBViewer/ui/trends_view.py:345-351 | index pairs map to the pairs of their times |
| `MissingData.ShortRegions` | 28.07version/pipestreamDBViewer/ui/trends_view.py:352 | exactly the pairs at most 15 minutes long are kept |
| `MissingData.NextValid` | 28.07version/pipestreamDBViewer/ui/trends_view.py:342-348 | the first valid index from i on, with none valid before it |
| `MissingData.RunsFrom` | 11.08version/pipestreamDBViewer/ui/trends_view.py:395-416 | the intended regions: each run of missing samples from its first index to the next valid one |
| `MissingData.RunsFromMaximal` | 11.08version/pipestreamDBViewer/ui/trends_view.py:401-410 | every run starts at a missing sample after a valid one and ends at the next valid sample or the last one |
| `MissingData.RunsFromCover` | 11.08version/pipestreamDBViewer/ui/trends_view.py:401-410 | every missing sample lies in some run |
| `MissingData.ScanMatchesRuns` | csv_view.py:339-351 | the scan started in a valid state records exactly the runs' starts and ends |
| `MissingData.CorrectedPairs` | csv_view.py:339-353 | the (start, end) pairs of the scan that starts in the valid state at sample 0; proved the missing runs by `CorrectedPairsAreRuns` |
| `MissingData.CorrectedPairsAreRuns` | csv_view.py:339-353 | the corrected scan pairs are the missing runs |
| `MissingData.AsWrittenPairs` | 28.07version/pipestreamDBViewer/ui/trends_view.py:341-351 | the (start, end) pairs of the scan as written, seeded with sample 0's state and started at sample 1; see `AsWrittenPairsWhenFirstValid` |
| `MissingData.AsWrittenPairsWhenFirstValid` | 28.07version/pipestreamDBViewer/ui/trends_view.py:341-351 | when the first sample is valid the scan as written is correct |
| `MissingData.AsWrittenMisPairs` | 28.07version/pipestreamDBViewer/ui/trends_view.py:341-352 | with mask [F,T,F] the scan as written pairs 2000 with 1000 and misses the leading run |
| `MissingData.CollectTransitions` | 11.08version/pipestreamDBViewer/ui/trends_view.py:401-410 | the loop collects the times of the scan's starts and ends |
| `MissingData.ScanTransitions` | 11.08version/pipestreamDBViewer/ui/trends_view.py:401-408 | the transition loop visits the same starts and ends as the scan and ends in its final state |
| `MissingData.PairShort` | 11.08version/pipestreamDBViewer/ui/trends_view.py:411-416 | the loop keeps the zipped pairs at most 15 minutes long |
| `MissingData.ZipTimes` | 11.08version/pipestreamDBViewer/ui/trends_view.py:409-411 | zipping times equals the times of zipped indices |
| `MissingData.AddMissingDataRegionsAsWritten` | 28.07version/pipestreamDBViewer/ui/trends_view.py:335-356 | nothing for fewer than two samples, otherwise the short regions of the as-written pairing |
| `MissingData.AddMissingDataRegions` | csv_view.py:330-358 | nothing for fewer than two samples, otherwise the short regions of the missing runs |
| `SegmentPlayback.DrawOrderFromExact` | 11.08version/pipestreamDBViewer/ui/trends_view.py:441-466 | from a position on, exactly the segments of more than one point at or after it are drawn |
| `SegmentPlayback.DrawOrderFromSorted` | 11.08version/pipestreamDBViewer/ui/trends_view.py:441-466 | from a position on, the drawings come in column-then-index order, so none repeats |
| `SegmentPlayback.DrawOrder` | 11.08version/pipestreamDBViewer/ui/trends_view.py:441-466 | the (column, segment) drawings of one timer run from the first column; proved exact and ordered by `DrawOrderExact` |
| `SegmentPlayback.DrawOrderExact` | 11.08version/pipestreamDBViewer/ui/trends_view.py:441-466 | a full run draws every segment of more than one point once, in order |
| `SegmentPlayback.SegmentStep` | 11.08version/pipestreamDBViewer/ui/trends_view.py:459-466 | a tick draws the current segment when it has two points and advances |
| `SegmentPlayback.LastColumnStep` | 11.08version/pipestreamDBViewer/ui/trends_view.py:443-456 | past a column's last segment, playback moves to the next column or ends |
| `SegmentPlayback.SegmentPlayer.constructor` | 11.08version/pipestreamDBViewer/ui/trends_view.py:487-509 | playback starts at the first segment of the first column with the timer running |
| `SegmentPlayback.SegmentPlayer.Tick` | 11.08version/pipestreamDBViewer/ui/trends_view.py:441-466 | the drawn list plus what remains is preserved, and the remaining ticks decrease |
| `SegmentPlayback.SegmentPlayer.NextColumn` | 11.08version/pipestreamDBViewer/ui/trends_view.py:443-456 | past a column's last segment: the next column from index 0, and the timer stops when the column wraps to the first |
| `SegmentPlayback.SegmentPlayer.DrawCurrent` | 11.08version/pipestreamDBViewer/ui/trends_view.py:459-466 | drawing the current segment and advancing keeps drawn-plus-remaining the same and uses one tick |
| `SegmentPlayback.SegmentPlayer.RunToEnd` | 11.08version/pipestreamDBViewer/ui/trends_view.py:441-466 | ticking until the timer stops draws exactly the draw order |
| `TrendRows.Pad6` | version_14.08/ui/trends_view.py:136-140 | every row has six values |
| `TrendRows.PadRoundTrip` | 28.07version/pipestreamDBViewer/ui/trends_view.py:51-54 | the present values of a padded row are the first six reductions |
| `TrendRows.KeptRows` | 28.07version/pipestreamDBViewer/ui/trends_view.py:44-55 | at most one row per record |
| `TrendRows.KeptRowsMembers` | 28.07version/pipestreamDBViewer/ui/trends_view.py:44-55 | every row is six wide and comes from a record with signals, and every record with signals gives a row |
| `TrendRows.KeptRowsOrdered` | 28.07version/pipestreamDBViewer/ui/trends_view.py:44-55 | records sorted by timestamp give rows sorted by timestamp |
| `TrendRows.LoadRows` | 28.07version/pipestreamDBViewer/ui/trends_view.py:44-57 | the loop builds the kept rows |
| `TrendRows.Percent` | 15.09_version/ui/trends_view.py:135 | the whole percentage of records done, rounded down; its bounds and growth are proved by `PercentBounds` and `PercentMonotone` |
| `TrendRows.PercentMonotone` | 11.08version/pipestreamDBViewer/ui/trends_view.py:81 | the percentage grows with the records done |
| `TrendRows.PercentBounds` | 15.09_version/ui/trends_view.py:135 | at most 100, and 100 exactly when all records are done |
| `TrendRows.Marks` | 15.09_version/ui/trends_view.py:134-136 | the reports after every `every`-th record (every 100th in this window) and after the last; proved rising to 100 by `MarksProgress` |
| `TrendRows.MarksProgress` | 15.09_version/ui/trends_view.py:134-136 | the reports never go down, never exceed 100, and a full run ends at 100 |
| `TrendRows.ProgressBarVisible` | 11.08version/pipestreamDBViewer/ui/trends_view.py:366-369 | the bar hides exactly at 100 |
| `TrendRows.KeptMarks` | 11.08version/pipestreamDBViewer/ui/trends_view.py:70-81 | one report per kept record with the share of all records seen; proved by `KeptMarksRising` and `KeptMarksProgress` |
| `TrendRows.KeptMarksRising` | 11.08version/pipestreamDBViewer/ui/trends_view.py:70-81 | after m records the reports never go down and none exceeds the percentage of m records |
| `TrendRows.KeptMarksProgress` | 11.08version/pipestreamDBViewer/ui/trends_view.py:70-81 | the reports never go down; the last is 100 exactly when the last record has signals |
| `TrendRows.CalculateRms` | 11.08version/pipestreamDBViewer/ui/trends_view.py:66-83 | the rows are the kept rows and the reports the kept marks |
| `TrendRows.ChunkRowOf` | version_14.08/ui/trends_view.py:129-141 | six values and the record's timestamp; an empty decode gives six NaN |
| `TrendRows.CalculateChunkRms` | version_14.08/ui/trends_view.py:119-148 | one row per record in order, progress after every tenth and the last record |
| `TrendRows.GetLevel` | 15.09_version/ui/trends_view.py:104-118 | calibrated exactly when the raw word, multiplier and non-zero divider are present; the level uses the raw word shifted by two |
| `TrendRows.RowLevels` | 15.09_version/ui/trends_view.py:122-131 | six levels per row |
| `TrendRows.RowLevelsNaN` | 15.09_version/ui/trends_view.py:104-131 | with valid dividers a value is NaN exactly when its raw word or its group's multiplier is NULL |
| `TrendRows.LoadTrendData` | 15.09_version/ui/trends_view.py:52-139 | each error case in the source's order, otherwise one calibrated row per record and reports every 100th and last record |
| `ChunkPipeline.TotalChunks` | version_14.08/ui/trends_view.py:90 | `ceil(total/100)`: the smallest count of 100-row chunks covering the total |
| `ChunkPipeline.TotalChunksStable` | version_14.08/ui/trends_view.py:90 | rounding the total up to whole chunks keeps the chunk count |
| `ChunkPipeline.ChunkOf` | version_14.08/ui/trends_view.py:91-92 | a chunk has at most 100 rows |
| `ChunkPipeline.ChunkSizes` | version_14.08/ui/trends_view.py:90-92 | every chunk before the last is full and none is empty |
| `ChunkPipeline.ChunksPrefix` | version_14.08/ui/trends_view.py:91-92 | the first m chunks concatenate to the first 100m rows |
| `ChunkPipeline.ChunksCover` | version_14.08/ui/trends_view.py:90-92 | all chunks concatenate to the whole table |
| `ChunkPipeline.ChunkRows` | version_14.08/ui/trends_view.py:124-141 | one row per record, in order |
| `ChunkPipeline.ChunkExtendsPrefix` | version_14.08/ui/trends_view.py:91-92 | the rows of the first 100k records followed by chunk k's rows are the rows of the first 100(k+1) records |
| `ChunkPipeline.ChunkRowsAppend` | version_14.08/ui/trends_view.py:124-141 | converting chunks separately equals converting the whole |
| `ChunkPipeline.LoadChunk` | version_14.08/ui/trends_view.py:63-100 | missing columns and an empty table are the errors, in that order; otherwise chunk k and the chunk count |
| `ChunkPipeline.LoaderProgress` | version_14.08/ui/trends_view.py:97 | at most 100, and 100 exactly at the last chunk |
| `ChunkPipeline.CombinedProgress` | version_14.08/ui/trends_view.py:483-488 | finished chunks' share plus the running chunk's share, truncated; bounded and monotone by `CombinedProgressBounds` |
| `ChunkPipeline.CombinedProgressBounds` | version_14.08/ui/trends_view.py:483-488 | the combined progress grows with the chunk's progress and stays at most 100 |
| `ChunkPipeline.ChunkedTrendsWindow.constructor` | version_14.08/ui/trends_view.py:274-284 | no device, no data, no chunks |
| `ChunkPipeline.ChunkedTrendsWindow.ClearPreviousData` | version_14.08/ui/trends_view.py:394-404 | data and chunk counters reset, device kept |
| `ChunkPipeline.ChunkedTrendsWindow.FetchLoggerData` | version_14.08/ui/trends_view.py:416-434 | the same device is a no-op; a new one clears the data and shows the bar at 0 |
| `ChunkPipeline.ChunkedTrendsWindow.OnDataLoaded` | version_14.08/ui/trends_view.py:448-453 | records the chunk count and, the first time, an estimated total |
| `ChunkPipeline.ChunkedTrendsWindow.OnRmsCalculated` | version_14.08/ui/trends_view.py:466-476 | appends the rows, counts the chunk, requests the next one exactly while chunks remain |
| `ChunkPipeline.ChunkedTrendsWindow.UpdateRmsProgress` | version_14.08/ui/trends_view.py:483-488 | shows the combined progress |
| `ChunkPipeline.ChunkedTrendsWindow.UpdateProgress` | version_14.08/ui/trends_view.py:599-601 | shows the value, nothing else changes |
| `ChunkPipeline.ChunkedTrendsWindow.OnErrorOccurred` | version_14.08/ui/trends_view.py:603-608 | hides the bar, nothing else changes |
| `ChunkPipeline.ChunkedTrendsWindow.LoadNextChunk` | version_14.08/ui/trends_view.py:448-476 | one loader and calculator round keeps the loading state: the series grows by exactly the next chunk's rows, and a new request goes out only while chunks remain |
| `ChunkPipeline.ChunkedTrendsWindow.LoadAll` | version_14.08/ui/trends_view.py:416-488 | the whole chunk loop ends with every record's row in order, or with no data on an error |
| `Nearest.FirstNearest` | 15.09_version/ui/signals_view.py:848-849 | the index of the first timestamp nearest to the target |
| `Nearest.ExactMatch` | 15.09_version/ui/trends_view.py:471-473 | the nearest distance is 0 exactly when the target occurs, at its first occurrence |
| `TrendsWindow.Stamps` | 15.09_version/ui/trends_view.py:662-664 | the time labels are the rows' timestamps |
| `TrendsWindow.ColumnValues` | 15.09_version/ui/trends_view.py:687 | a column's value is present exactly when it is calibrated |
| `TrendsWindow.AllNanFlags` | 15.09_version/ui/trends_view.py:705-707 | a row is flagged exactly when all six values are NaN |
| `TrendsWindow.ColumnSegments` | 15.09_version/ui/trends_view.py:676-693 | each column draws its plotted segments |
| `TrendsWindow.Lowest` | 15.09_version/ui/trends_view.py:720 | `min` of the time labels: one of them, and no label is smaller |
| `TrendsWindow.Highest` | 15.09_version/ui/trends_view.py:720 | `max` of the time labels: one of them, and no label is larger |
| `TrendsWindow.Midpoint` | 15.09_version/ui/trends_view.py:724 | the centre of the time range lies between its ends |
| `TrendsWindow.KeepInRange` | 15.09_version/ui/trends_view.py:719-724 | the cursor ends inside the time range; one already inside stays put, one outside moves to the middle |
| `TrendsWindow.KeepInRangeIdempotent` | 15.09_version/ui/trends_view.py:719-724 | plotting the same labels again leaves the cursor where the first plot put it |
| `TrendsWindow.LastMatch` | 15.09_version/ui/trends_view.py:484-487 | the cursor after draining the queue is where it was or one of the queued timestamps found in the data; which one is proved by `LastMatchSpec` |
| `TrendsWindow.LastMatchSpec` | 15.09_version/ui/trends_view.py:484-487 | draining the queue leaves the cursor at the last queued timestamp present in the data, or unchanged |
| `TrendsWindow.TrendsView.constructor` | 15.09_version/ui/trends_view.py:324-346 | no device, not loading, no data, empty queue, cursors at 0, lock mode off |
| `TrendsWindow.TrendsView.SetCursorToTimestamp` | 15.09_version/ui/trends_view.py:466-482 | while loading or empty the timestamp is queued; otherwise the cursor moves only on an exact match |
| `TrendsWindow.TrendsView.ProcessPendingTimestamps` | 15.09_version/ui/trends_view.py:484-487 | the queue empties and the cursor is the last match |
| `TrendsWindow.TrendsView.ClearPreviousData` | 15.09_version/ui/trends_view.py:572-578 | data, labels, plot items and the queue are cleared |
| `TrendsWindow.TrendsView.FetchLoggerData` | 15.09_version/ui/trends_view.py:597-617 | the same device is a no-op; a new one clears everything and starts loading |
| `TrendsWindow.TrendsView.PlotData` | 15.09_version/ui/trends_view.py:660-724 | under two rows only the labels change; otherwise segments, gap regions and NaN regions are added and a cursor outside the new time range moves to its middle |
| `TrendsWindow.TrendsView.KeepCursorInRange` | 15.09_version/ui/trends_view.py:719-724 | the cursors end where `KeepInRange` puts them: inside the labels' range, moved to its middle only when outside |
| `TrendsWindow.PlotColumns` | 15.09_version/ui/trends_view.py:676-693 | the column loop draws, for each of the six columns, its plotted segments |
| `TrendsWindow.TrendsView.DrawColumns` | 15.09_version/ui/trends_view.py:676-717 | adds each column's segments, the gap regions and the NaN regions, changing no other field |
| `TrendsWindow.TrendsView.OnDataProcessed` | 15.09_version/ui/trends_view.py:623-635 | data stored, loading finished, the plotted cursor then the queue drained into it; in lock mode with data the cursor ends in the middle of the time range |
| `TrendsWindow.TrendsView.MoveCursorToCenter` | 15.09_version/ui/trends_view.py:508-519 | the cursors go to the centre of the view range, inside it |
| `TrendsWindow.TrendsView.ToggleLockCursorMode` | 15.09_version/ui/trends_view.py:489-496 | the mode follows the button; switching it on centres the cursors, switching it off leaves them |
| `TrendsWindow.TrendsView.UpdateCursorOnRangeChange` | 15.09_version/ui/trends_view.py:498-506 | in lock mode the cursors follow the centre of the new range, otherwise they stay |
| `TrendsWindow.TrendsView.UpdateProgress` | 15.09_version/ui/trends_view.py:648-650 | shows the value, nothing else changes |
| `TrendsWindow.TrendsView.OnErrorOccurred` | 15.09_version/ui/trends_view.py:748-754 | stops loading and hides the bar, data kept |
| `TrendsWindow.TrendsView.PlotDataFromSignalAsWritten` | 15.09_version/ui/trends_view.py:652-658 | as written: a new device drops the queued timestamp; the same device only queues it |
| `TrendsWindow.TrendsView.PlotDataFromSignal` | 15.09_version/ui/trends_view.py:652-656 | corrected: a new device keeps the timestamp queued for the load; the same device moves the cursor at once when the data is there |
| `TrendsWindow.AsWrittenDropsTimestamp` | 15.09_version/ui/trends_view.py:652-656 | a signal for a new device at 5000 followed by its data [4000, 5000] leaves the cursor at 4500, where `plot_data` put it, not at 5000 |
| `TrendsWindow.IntendedAppliesTimestamp` | 15.09_version/ui/trends_view.py:623-630 | with the correction the same events set the cursor to 5000 |
| `SignalsNav.StepValue` | 15.09_version/ui/signals_view.py:640-641 | non-digit text gives step 0, digit text its decimal value |
| `SignalsNav.StepValueOfNumber` | 15.09_version/ui/signals_view.py:640-641 | a number written in decimal is read back as itself |
| `SignalsNav.ButtonStates` | 15.09_version/ui/signals_view.py:488-498 | each button's enabled state exactly as the source's conditions |
| `SignalsNav.ButtonsAtEnds` | 15.09_version/ui/signals_view.py:494-497 | with data, first/left are off exactly at record 1, last/right exactly at the last record |
| `SignalsNav.CurrentScale` | 15.09_version/ui/signals_view.py:800-807 | a limit is set exactly when the blank-free text is all digits, and it is that text's value |
| `SignalsNav.CurrentScaleOfNumber` | 15.09_version/ui/signals_view.py:800-807 | a number typed with blanks around it sets the limit to that number |
| `SignalsNav.CurrentScaleActions` | 15.09_version/ui/signals_view.py:809-815 | current channels hidden exactly when masked off; a shown channel gets the fixed range -limit..limit exactly when a limit is set, automatic otherwise |
| `SignalsNav.SignalsView.constructor` | 15.09_version/ui/signals_view.py:28-33 | empty list, record 0, all seven channels on |
| `SignalsNav.SignalsView.SetTimestampList` | 15.09_version/ui/signals_view.py:458-466 | stores the list, record 1 when non-empty and 0 otherwise |
| `SignalsNav.SignalsView.SelectAndPlotRecord` | 15.09_version/ui/signals_view.py:580-589 | requests record num exactly when it is in range |
| `SignalsNav.SignalsView.FirstClicked` | 15.09_version/ui/signals_view.py:635-637 | goes to record 1 and requests it |
| `SignalsNav.SignalsView.LastClicked` | 15.09_version/ui/signals_view.py:677-680 | goes to the last record and requests it |
| `SignalsNav.SignalsView.RightClicked` | 15.09_version/ui/signals_view.py:657-675 | moves right by the step clamped to the last record, or does nothing |
| `SignalsNav.SignalsView.LeftClickedAsWritten` | 15.09_version/ui/signals_view.py:639-655 | as written: a larger step is cut to rec_num - 1, but a step equal to the record number reaches record 0 and requests nothing |
| `SignalsNav.SignalsView.LeftClicked` | 15.09_version/ui/signals_view.py:643-655 | corrected: moves left by the step clamped to record 1, never below 1 |
| `SignalsNav.SignalsView.RecNumEdited` | 15.09_version/ui/signals_view.py:682-691 | a typed number in range becomes the record and is requested |
| `SignalsNav.SignalsView.SetTimestampFromTrends` | 15.09_version/ui/signals_view.py:846-851 | with data, goes to the first nearest record and requests it |
| `SignalsNav.SignalsView.CheckBoolMask` | 15.09_version/ui/signals_view.py:769-773 | true exactly for an index inside the mask whose entry is set |
| `SignalsNav.SignalsView.OnChannelFilterChanged` | 15.09_version/ui/signals_view.py:730-736 | channel i is on exactly when the filter covers channel i+1, all on for blank text |
| `SignalsNav.LeftStepToZero` | 15.09_version/ui/signals_view.py:647-654 | as written, record 3 of five with step 3 reaches record 0 with no request |
| `SignalsNav.LeftStepToFirst` | 15.09_version/ui/signals_view.py:647-655 | corrected, the same step reaches record 1 and requests its timestamp |
| `RecordsTable.PyInsert` | 15.09_version/ui/records_view.py:40-41 | `list.insert` with Python's index clamping |
| `RecordsTable.Matching` | 15.09_version/ui/records_view.py:59-61 | exactly the rows whose device contains the text, ignoring case |
| `RecordsTable.MatchingAppend` | 15.09_version/ui/records_view.py:61 | filtering keeps the order |
| `RecordsTable.MatchingIdempotent` | 15.09_version/ui/records_view.py:52-62 | filtering twice equals filtering once |
| `RecordsTable.RecordsTableModel.constructor` | 15.09_version/ui/records_view.py:12-15 | both lists are the given list, shared |
| `RecordsTable.RecordsTableModel.RowCount` | 15.09_version/ui/records_view.py:19-22 | 0 under a valid parent, else the shown rows |
| `RecordsTable.RecordsTableModel.ColumnCount` | 15.09_version/ui/records_view.py:24-25 | the first shown row's width, 0 exactly when nothing is shown |
| `RecordsTable.RecordsTableModel.InsertRow` | 15.09_version/ui/records_view.py:38-43 | as written: inserted into both lists, twice into one list while they are shared |
| `RecordsTable.RecordsTableModel.InsertRowOnce` | 15.09_version/ui/records_view.py:38-43 | corrected: each list gains the row once |
| `RecordsTable.RecordsTableModel.RemoveRows` | 15.09_version/ui/records_view.py:45-50 | the shown rows lose exactly rows row..row+count-1, and the full list too while shared |
| `RecordsTable.RecordsTableModel.FilterByDevice` | 15.09_version/ui/records_view.py:52-62 | a new shown list: all rows for empty text, the matching rows otherwise |
| `RecordsTable.LoadDevices` | 15.09_version/ui/records_view.py:68-128 | as written the first device is shown twice; inserting once shows exactly the devices |
| `RecordsTable.AppendDevice` | 15.09_version/ui/records_view.py:277-280 | one device appended after the last row, then the empty filter leaves all rows shown in a list of their own; into the shared empty list the as-written insert lands twice |
| `RecordsTable.MinimizedWidth` | 15.09_version/ui/records_view.py:320-322 | the first column plus 70, never under 200 |
| `RecordsTable.RecordsWindow.constructor` | 15.09_version/ui/records_view.py:74-75 | not minimized, minimum 200, width 300 |
| `RecordsTable.RecordsWindow.ToggleResize` | 15.09_version/ui/records_view.py:315-335 | flips the state; shrinks to the minimized width or restores a third of the workspace, never below the 200 minimum set just before the resize |
| `MainWindow.Toggled` | 15.09_version/ui/main_window.py:177 | the other layout |
| `MainWindow.RequestedLeft` | 15.09_version/ui/main_window.py:208-217 | a third of the area when restoring, otherwise the current width, no less than the minimum when the window system has the left window minimized (`isMinimized()`) |
| `MainWindow.ShareSpan` | 15.09_version/ui/main_window.py:227-264 | the two parts fill the span, the second keeps its minimum, the first too when the span holds both; the dragged one keeps its size clamped into what the other's minimum leaves, otherwise the first gets `span // 2` |
| `MainWindow.StackedLeft` | 15.09_version/ui/main_window.py:315-318 | stacked, the left window keeps its width unless the column beside it would fall under both minimums, and then the column gets exactly that minimum |
| `MainWindow.Workspace.constructor` | 15.09_version/ui/main_window.py:10-72 | side by side, dark theme, tiled |
| `MainWindow.Workspace.TileSubwindows` | 15.09_version/ui/main_window.py:182-326 | a re-entrant call changes nothing; otherwise the windows fill the area edge to edge: side by side the left width is the requested one raised to its minimum and the middle and right widths are `ShareSpan` of the rest; stacked the left width is `StackedLeft` of it and the heights are `ShareSpan` of the area's height |
| `MainWindow.Workspace.LeftWidth` | 15.09_version/ui/main_window.py:207-221 | the requested left width raised to the minimum |
| `MainWindow.Workspace.TileSideBySide` | 15.09_version/ui/main_window.py:223-264 | the windows fill the area left to right, the left width is unchanged since the shares fill the remainder, and the middle and right widths are `ShareSpan` of that remainder (halves by default, the dragged one's clamped width otherwise); only geometry changes |
| `MainWindow.Workspace.TileStacked` | 15.09_version/ui/main_window.py:282-324 | left window full height, its width `StackedLeft` of the requested one; middle and right stacked in the column beside it, their heights `ShareSpan` of the area's height; only geometry changes |
| `MainWindow.Workspace.SignalsResized` | 15.09_version/ui/signals_view.py:841-844 | a resize outside a tiling retiles with the signals window dragged; during a tiling nothing changes |
| `MainWindow.Workspace.RecordsResized` | 15.09_version/ui/records_view.py:337-355 | the records window's shrink flag arrives as `restore`: restoring gives the left window a third of the area or its minimum, otherwise it keeps its width raised to its minimum; during a tiling nothing changes |
| `MainWindow.Workspace.Resized` | 15.09_version/ui/main_window.py:328-333 | takes the new size and retiles, restoring the balanced layout when the records window is minimized by the window system |
| `MainWindow.Workspace.ToggleLayout` | 15.09_version/ui/main_window.py:173-180 | switches the layout and retiles |
| `MainWindow.Workspace.ToggleTheme` | 15.09_version/ui/main_window.py:111-114 | flips the theme, geometry unchanged |
| `MainWindow.ToggleLayoutTwice` | 15.09_version/ui/main_window.py:173-180 | toggling twice restores the layout, tiled |
| `Display.Stamps` | lartech_loggers_db/PythonProject1/interface/display.py:39 | the timestamps of the items, in order |
| `Display.JoinedAppend` | lartech_loggers_db/PythonProject1/interface/display.py:41-42 | the printed timestamps of added lines follow the earlier ones |
| `Display.AllData` | lartech_loggers_db/PythonProject1/interface/display.py:3-18 | "no data" exactly without data, otherwise one table of all items |
| `Display.SingleData` | lartech_loggers_db/PythonProject1/interface/display.py:20-31 | "not found" exactly for a missing record, otherwise its details |
| `Display.GroupsOfFive` | lartech_loggers_db/PythonProject1/interface/display.py:41-42 | the lines hold the timestamps in order, five per line except the last |
| `Display.GroupStep` | lartech_loggers_db/PythonProject1/interface/display.py:41-42 | printing the next slice of five after full groups extends the listing by exactly that slice; only the last line may be short |
| `Display.AllTimestamps` | lartech_loggers_db/PythonProject1/interface/display.py:33-42 | a count header and then every timestamp in lines of five |
| `Display.LastFive` | lartech_loggers_db/PythonProject1/interface/display.py:50 | `[-5:]` is the suffix of length min(5, n) |
| `Display.LastTimestamps` | lartech_loggers_db/PythonProject1/interface/display.py:44-53 | a header and the last five timestamps |
| `Display.InRange` | lartech_loggers_db/PythonProject1/interface/display.py:61-62 | exactly the item timestamps within the inclusive bounds |
| `Display.InRangeAppend` | lartech_loggers_db/PythonProject1/interface/display.py:61-62 | the range filter keeps item order |
| `Display.TimestampsInRange` | lartech_loggers_db/PythonProject1/interface/display.py:55-70 | "no data", "none in range", or a header and the in-range timestamps in lines of five |
| `Display.DataMap` | lartech_loggers_db/PythonProject1/interface/display.py:78 | every timestamp is a key, mapped to an item with that timestamp |
| `Display.DataMapLastWins` | lartech_loggers_db/PythonProject1/interface/display.py:78 | a duplicated timestamp maps to its last item |
| `Display.Answer` | lartech_loggers_db/PythonProject1/interface/display.py:82-93 | bad format, the record's details, or "not found" |
| `Display.ByTimestamps` | lartech_loggers_db/PythonProject1/interface/display.py:72-96 | one answer per request in order, and the closing "nothing found" exactly when no request matched |
| `Display.AnswerEach` | lartech_loggers_db/PythonProject1/interface/display.py:79-93 | one answer per request in order, never the nothing-found line, and the flag is set exactly when some request names a stored record |

## Left out

- Database access, connections and SQL queries: each query result is a
  parameter. `lartech_loggers_db/PythonProject1/db/logger_db.py` is not
  part of this model.
- Base64 decoding: the decoded bytes, or a decode error, are a parameter.
- Floating-point calibration, RMS and peak-to-peak reductions. The decoded
  samples are integers, `raw >> 2`. The RMS reduction is a given value per
  record. `PointsStream.Scale` is exact real arithmetic.
- `TrendRows.PercentBounds`, `TrendRows.MarksProgress`,
  `ChunkPipeline.LoaderProgress` and the other progress members compute
  `floor(done * 100 / total)` on integers. The source computes
  `int((i + 1) / total * 100)` in floating point, which can differ by one
  in rare cases.
- Threads, Qt signals and timers run as plain method calls in event
  order. Terminating a running loader is not modelled.
- Dates, locales, status texts, colours, themes' style sheets, the
  `tabulate` grid and `', '.join` formatting. The `Display` lines carry
  values, not text.
- `Display`: `int()` parsing of a request is given as `Number` or
  `Unparsable`. An item dictionary is always truthy.
- `isdigit`, `lower` and the white space of `split()` are modelled for
  ASCII only (no U+0085, U+00A0 or U+2000..U+200A).
- `valid_indices` is the identity: every timestamp in the database is a
  non-null integer.
- `TrendsWindow.TrendsView.PlotData`: gap and NaN regions are recorded
  once per plot rather than once per column widget.
- `TrendsWindow`: the view range and zoom (`setXRange`, `center_on_cursor`)
  are not modelled. The view range that `move_cursor_to_center` reads
  after `on_data_processed`'s `setXRange` is taken as the time range
  itself; the 5% padding is symmetric, so the centre is the same.
  Dragging a cursor by hand, its `setBounds` clamping and the value
  readouts (`update_values`) are left out. The cursor is kept in
  milliseconds; the plot keeps seconds.
- `TrendsWindow.TrendsView.ProcessPendingTimestamps` requires the data to
  be loaded. Otherwise the source re-queues every timestamp and never
  leaves its loop.
- `SignalsNav.SignalsView.FirstClicked` requires a non-empty list.
  Otherwise record 1 would be set with nothing to show.
- `RecordsTable.RecordsTableModel.RemoveRows` requires the rows to exist.
  Python would raise `IndexError`, and negative indexes are not modelled.
- `SampleCodec.BytesToIntBig` follows
  `PipestreamDB Viever (1.0.1)/Lib/bytestransforms.py`, and so does
  `SampleCodec.ReverseBytes`. The 28.07 copy of `bytestransforms` is not
  part of this model. Their rows cite the 28.07 lines that call them.
- The per-chunk `plot_data` of the 14.08 window is not modelled, only its
  data pipeline.
- `MainWindow`:
  - Qt's own clamping of `setGeometry` to minimum sizes is not modelled;
  - resize events raised during a tiling are not modelled;
  - no modelled caller passes the trends window as the dragged one,
    because the 15.09 trends window has no `resizeEvent` of its own; the
    middle-window branch of `TileSubwindows` is modelled but only the
    signals and records windows retile it;
  - the 15.02 window has no theme toggle.

## Findings

| source | as written | input that shows it | evidently intended | confidence | as-written member | corrected member |
|---|---|---|---|---|---|---|
| 28.07version/pipestreamDBViewer/ui/trends_view.py:341-352 | the scan starts in the state of the first sample, so a leading missing run records an end without a start and every later start is paired with the previous end | valid mask [F,T,F] at times [0,1000,2000] yields the pair (2000, 1000) and no region for the leading run | one region per missing run, from its first missing sample to the next valid one | not executed | `MissingData.AsWrittenMisPairs` | `MissingData.AddMissingDataRegions` |
| 15.09_version/ui/trends_view.py:652-658 | the timestamp is queued before `fetch_logger_data`, whose `clear_previous_data` empties the queue for a new device; for the same device nothing drains the queue | a signal for a new device at 5000, then its data [4000, 5000]: the cursor is not moved to 5000 (`plot_data` puts it mid-range, at 4500) | the cursor moves to the timestamp once the data is there | not executed | `TrendsWindow.AsWrittenDropsTimestamp` | `TrendsWindow.IntendedAppliesTimestamp` |
| 15.09_version/ui/signals_view.py:647-654 | a step larger than the record number is clamped to rec_num - 1, but a step equal to it is not, so record 0 is selected | record 3 of five, step 3: the record number becomes 0 | never go below record 1 | not executed | `SignalsNav.LeftStepToZero` | `SignalsNav.LeftStepToFirst` |
| 15.09_version/ui/records_view.py:38-43 | the model's two lists are one Python list until the first filter, so `insertRow` inserts the first device twice | one device "dev" loaded at start-up is shown as ["dev", "dev"] | each device shown once | not executed | `RecordsTable.RecordsTableModel.InsertRow` | `RecordsTable.RecordsTableModel.InsertRowOnce` |

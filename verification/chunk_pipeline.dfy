/** The chunked trend pipeline of the 14.08 trends window.  The table is
    read 100 records at a time (LIMIT 100 OFFSET 100k); each chunk is turned
    into rows of six values, merged onto the series, and only then is the
    next chunk requested.  The loader and calculator threads are collapsed
    into sequential steps: each callback of the window is a method, and
    LoadAll runs them in the order their signals fire. */
module ChunkPipeline {
  import opened Common
  import opened TrendRows

  const ChunkSize: nat := 100

  /** math.ceil(total / 100). */
  function TotalChunks(total: nat): (r: nat)
    ensures total <= 100 * r
    ensures r > 0 ==> 100 * (r - 1) < total
    ensures r == 0 <==> total == 0
  {
    (total + 99) / 100
  }

  /** Asking for the chunk count of a table of exactly `TotalChunks(n)`
      full chunks gives the same count back, so the estimate the window
      stores after the first chunk keeps every later loader on the same
      chunk count. */
  lemma TotalChunksStable(n: nat)
    ensures TotalChunks(TotalChunks(n) * 100) == TotalChunks(n)
  {
  }

  /** The records of chunk k: LIMIT 100 OFFSET 100k on the table in
      timestamp order. */
  function ChunkOf<T>(table: seq<T>, k: nat): (r: seq<T>)
    ensures |r| <= ChunkSize
  {
    table[Min(100 * k, |table|)..Min(100 * k + 100, |table|)]
  }

  /** Every chunk before the last is full and the last is not empty. */
  lemma ChunkSizes<T>(table: seq<T>, k: nat)
    requires k < TotalChunks(|table|)
    ensures 0 < |ChunkOf(table, k)|
    ensures k + 1 < TotalChunks(|table|) ==> |ChunkOf(table, k)| == ChunkSize
  {
  }

  /** Chunks 0 .. m-1 read, in order, exactly the first 100m records. */
  lemma {:induction false} ChunksPrefix<T>(table: seq<T>, m: nat)
    ensures Concat(seq(m, k requires 0 <= k < m => ChunkOf(table, k))) == table[..Min(100 * m, |table|)]
  {
    var cs := seq(m, k requires 0 <= k < m => ChunkOf(table, k));
    if m == 0 {
      assert cs == [];
    } else {
      ChunksPrefix(table, m - 1);
      var cs0 := seq(m - 1, k requires 0 <= k < m - 1 => ChunkOf(table, k));
      assert cs == cs0 + [ChunkOf(table, m - 1)];
      ConcatAppend(cs0, ChunkOf(table, m - 1));
      var a := Min(100 * (m - 1), |table|);
      var b := Min(100 * m, |table|);
      assert table[..a] + table[a..b] == table[..b];
    }
  }

  /** Chunks 0 .. TotalChunks-1 cover every record exactly once, in
      order. */
  lemma ChunksCover<T>(table: seq<T>)
    ensures var tc := TotalChunks(|table|);
      Concat(seq(tc, k requires 0 <= k < tc => ChunkOf(table, k))) == table
  {
    ChunksPrefix(table, TotalChunks(|table|));
    assert table[..|table|] == table;
  }

  /** Chunk k continues the rows read so far: the first 100k records
      followed by chunk k are the first 100(k+1). */
  lemma ChunkExtendsPrefix(table: seq<Decoded>, k: nat)
    ensures ChunkRows(table[..Min(100 * k, |table|)]) + ChunkRows(ChunkOf(table, k)) ==
            ChunkRows(table[..Min(100 * (k + 1), |table|)])
  {
    var a := Min(100 * k, |table|);
    var b := Min(100 * (k + 1), |table|);
    assert table[..a] + table[a..b] == table[..b];
    ChunkRowsAppend(table[..a], table[a..b]);
  }

  /** The rows of RMSCalculatorThread for a list of records. */
  function ChunkRows(records: seq<Decoded>): (r: seq<Row>)
    ensures |r| == |records|
    ensures forall i :: 0 <= i < |records| ==> r[i] == ChunkRowOf(records[i])
  {
    seq(|records|, i requires 0 <= i < |records| => ChunkRowOf(records[i]))
  }

  lemma ChunkRowsAppend(a: seq<Decoded>, b: seq<Decoded>)
    ensures ChunkRows(a + b) == ChunkRows(a) + ChunkRows(b)
  {
    assert (ChunkRows(a) + ChunkRows(b))[..|a|] == ChunkRows(a);
  }

  /** The columns the 14.08 loader selects. */
  const LoaderColumns: seq<string> := ["timestamp", "points", "mask", "npoints",
    "cfg_voltage_multiplier", "cfg_voltage_divider", "cfg_current_multiplier", "cfg_current_divider"]

  /** What one run of the 14.08 DataLoaderThread reports. */
  datatype LoaderOutcome =
    | LackingColumns
    | EmptyTable
    /** `records` is emitted through data_loaded only when non-empty;
        `progress` is always reported. */
    | ChunkRead(records: seq<Decoded>, totalChunks: nat, progress: nat)

  /** DataLoaderThread.run for chunk k.  The record count is the one the
      window passes in, or the table's size when it passes none. */
  function LoadChunk(table: seq<Decoded>, columns: seq<string>, k: nat, totalRecords: Option<nat>): (r: LoaderOutcome)
    ensures r == LackingColumns <==> exists c :: c in LoaderColumns && c !in columns
    ensures r == EmptyTable <==>
      (forall c :: c in LoaderColumns ==> c in columns) &&
      (if totalRecords.Some? then totalRecords.value else |table|) == 0
    ensures r.ChunkRead? ==>
      r.records == ChunkOf(table, k) && 0 < r.totalChunks &&
      r.totalChunks == TotalChunks(if totalRecords.Some? then totalRecords.value else |table|)
  {
    if exists c :: c in LoaderColumns && c !in columns then LackingColumns
    else
      var count := if totalRecords.Some? then totalRecords.value else |table|;
      if count == 0 then EmptyTable
      else
        var totalChunks := TotalChunks(count);
        ChunkRead(ChunkOf(table, k), totalChunks, Percent(k + 1, totalChunks))
  }

  /** The loader's progress for the chunks of one table stays at most 100
      and reaches 100 exactly at the last chunk. */
  lemma LoaderProgress(table: seq<Decoded>, columns: seq<string>, k: nat, totalRecords: Option<nat>)
    requires LoadChunk(table, columns, k, totalRecords).ChunkRead?
    requires k < LoadChunk(table, columns, k, totalRecords).totalChunks
    ensures LoadChunk(table, columns, k, totalRecords).progress <= 100
    ensures LoadChunk(table, columns, k, totalRecords).progress == 100 <==>
      k + 1 == LoadChunk(table, columns, k, totalRecords).totalChunks
  {
    var r := LoadChunk(table, columns, k, totalRecords);
    PercentBounds(k + 1, r.totalChunks);
  }

  /** update_rms_progress: the finished chunks' share plus the running
      chunk's share, int(processed / total * 100 + value / total). */
  function CombinedProgress(processed: nat, total: nat, value: nat): nat
  {
    if total > 0 then (processed * 100 + value) / total else 0
  }

  /** While chunks remain, a sub-progress of at most 100 keeps the bar at
      most 100, and the bar never goes back within a chunk. */
  lemma CombinedProgressBounds(processed: nat, total: nat, v1: nat, v2: nat)
    requires processed < total && v1 <= v2 <= 100
    ensures CombinedProgress(processed, total, v1) <= CombinedProgress(processed, total, v2) <= 100
  {
    var low, high := processed * 100 + v1, processed * 100 + v2;
    DivMonotone(low, high, total);
    DivMonotone(high, total * 100, total);
    PercentOfWhole(total);
    assert CombinedProgress(processed, total, v1) == low / total;
    assert CombinedProgress(processed, total, v2) == high / total;
  }

  /** The 14.08 trends window's loading state. */
  class ChunkedTrendsWindow {
    var currentDevice: Option<string>
    /** all_data: the merged rows, in merge order. */
    var allData: seq<Row>
    var totalChunks: nat
    var processedChunks: nat
    var currentChunkIndex: nat
    var totalRecords: Option<nat>
    var progressVisible: bool
    var progressValue: int

    /** The two chunk counters move together. */
    predicate Valid()
      reads this
    {
      processedChunks == currentChunkIndex
    }

    constructor ()
      ensures Valid()
      ensures currentDevice == None && allData == [] && totalRecords == None
      ensures totalChunks == 0 && processedChunks == 0 && currentChunkIndex == 0
      ensures !progressVisible && progressValue == 0
    {
      currentDevice := None;
      allData := [];
      totalChunks, processedChunks, currentChunkIndex := 0, 0, 0;
      totalRecords := None;
      progressVisible := false;
      progressValue := 0;
    }

    /** clear_previous_data. */
    method ClearPreviousData()
      modifies this`allData, this`totalChunks, this`processedChunks, this`currentChunkIndex, this`totalRecords
      ensures Valid()
      ensures allData == [] && totalChunks == 0 && processedChunks == 0 && currentChunkIndex == 0
      ensures totalRecords == None
    {
      allData := [];
      totalChunks := 0;
      processedChunks := 0;
      currentChunkIndex := 0;
      totalRecords := None;
    }

    /** fetch_logger_data: the same device does nothing; another device
        resets the series and the counters and requests chunk 0. */
    method FetchLoggerData(name: string) returns (requested: bool)
      modifies this
      ensures requested <==> old(currentDevice) != Some(name)
      ensures !requested ==> unchanged(this)
      ensures requested ==>
        Valid() && currentDevice == Some(name) && allData == [] && totalRecords == None &&
        totalChunks == 0 && currentChunkIndex == 0 && progressVisible && progressValue == 0
    {
      if currentDevice == Some(name) {
        return false;
      }
      ClearPreviousData();
      currentDevice := Some(name);
      progressVisible := true;
      progressValue := 0;
      requested := true;
    }

    /** on_data_loaded: remember the chunk count and, the first time, an
        estimate of the record count as 100 per chunk. */
    method OnDataLoaded(chunks: nat)
      modifies this`totalChunks, this`totalRecords
      ensures totalChunks == chunks
      ensures totalRecords == if old(totalRecords).None? then Some(chunks * 100) else old(totalRecords)
    {
      totalChunks := chunks;
      if totalRecords.None? {
        totalRecords := Some(chunks * 100);
      }
    }

    /** on_rms_calculated: merge the chunk's rows, count the chunk, and
        request the next one while chunks remain, otherwise hide the bar. */
    method OnRmsCalculated(rows: seq<Row>, chunks: nat) returns (requestNext: bool)
      requires Valid()
      modifies this`allData, this`processedChunks, this`currentChunkIndex, this`progressVisible
      ensures Valid()
      ensures allData == old(allData) + rows
      ensures processedChunks == old(processedChunks) + 1
      ensures requestNext <==> processedChunks < chunks
      ensures progressVisible == (requestNext && old(progressVisible))
    {
      allData := allData + rows;
      processedChunks := processedChunks + 1;
      currentChunkIndex := currentChunkIndex + 1;
      requestNext := processedChunks < chunks;
      if !requestNext {
        progressVisible := false;
      }
    }

    /** update_progress: the loader's percentage goes straight to the bar. */
    method UpdateProgress(value: int)
      modifies this`progressValue
      ensures progressValue == value
    {
      progressValue := value;
    }

    /** update_rms_progress. */
    method UpdateRmsProgress(value: nat)
      modifies this`progressValue
      ensures progressValue == CombinedProgress(processedChunks, totalChunks, value)
    {
      if totalChunks > 0 {
        progressValue := (processedChunks * 100 + value) / totalChunks;
      } else {
        progressValue := 0;
      }
    }

    /** on_error_occurred: the bar is hidden. */
    method OnErrorOccurred()
      modifies this`progressVisible
      ensures !progressVisible
    {
      progressVisible := false;
    }

    /** What holds between two chunk requests while `table` loads for
        `name`: the rows merged so far are those of the first chunks, the
        counters agree, the record estimate is 100 per chunk once a chunk
        has arrived, and the bar is shown exactly while a request is out. */
    ghost predicate Loading(table: seq<Decoded>, columns: seq<string>, name: string, requested: bool)
      reads this
    {
      var n := |table|;
      var tc := TotalChunks(n);
      Valid() && currentDevice == Some(name)
      && currentChunkIndex <= tc
      && (requested ==> currentChunkIndex < tc || (currentChunkIndex == 0 && totalRecords.None?))
      && (requested <==> progressVisible)
      && allData == ChunkRows(table[..Min(100 * currentChunkIndex, n)])
      && totalRecords == (if currentChunkIndex == 0 then None else Some(tc * 100))
      && (currentChunkIndex > 0 ==> totalChunks == tc && n > 0 && forall c :: c in LoaderColumns ==> c in columns)
      && (!requested && n > 0 && (forall c :: c in LoaderColumns ==> c in columns) ==> currentChunkIndex == tc)
    }

    /** One round of signals for the requested chunk: the loader reads it,
        on_data_loaded records the chunk count, the calculator turns it into
        rows and on_rms_calculated merges them and requests the next chunk;
        or the loader fails and on_error_occurred ends the load. */
    method LoadNextChunk(table: seq<Decoded>, columns: seq<string>, ghost name: string) returns (requested: bool)
      requires Loading(table, columns, name, true)
      modifies this
      ensures Loading(table, columns, name, requested)
      ensures requested ==> currentChunkIndex == old(currentChunkIndex) + 1
      ensures currentChunkIndex == old(currentChunkIndex) || currentChunkIndex == old(currentChunkIndex) + 1
    {
      var n := |table|;
      var k := currentChunkIndex;
      var outcome := LoadChunk(table, columns, k, totalRecords);
      if outcome.ChunkRead? {
        assert k < TotalChunks(n) by {
          if k == 0 {
            assert n > 0;
          }
        }
        if totalRecords.Some? {
          TotalChunksStable(n);
        }
        OnDataLoaded(outcome.totalChunks);
        var rows, progress := CalculateChunkRms(outcome.records);
        assert rows == ChunkRows(outcome.records);
        ChunkExtendsPrefix(table, k);
        requested := OnRmsCalculated(rows, outcome.totalChunks);
      } else {
        OnErrorOccurred();
        requested := false;
      }
    }

    /** Selecting a new device and letting the signals run to the end:
        every chunk is loaded once, in order, so the series is the rows of
        the whole table and both counters equal the chunk count; an empty
        table or a missing column ends with an error and no rows. */
    method LoadAll(table: seq<Decoded>, columns: seq<string>, name: string)
      requires currentDevice != Some(name)
      modifies this
      ensures Valid() && currentDevice == Some(name) && !progressVisible
      ensures (exists c :: c in LoaderColumns && c !in columns) || |table| == 0 ==>
        allData == [] && currentChunkIndex == 0
      ensures ((forall c :: c in LoaderColumns ==> c in columns) && |table| > 0) ==>
        allData == ChunkRows(table) &&
        processedChunks == currentChunkIndex == totalChunks == TotalChunks(|table|)
    {
      var requested := FetchLoggerData(name);
      while requested
        invariant Loading(table, columns, name, requested)
        decreases TotalChunks(|table|) - currentChunkIndex, requested
      {
        requested := LoadNextChunk(table, columns, name);
      }
      if (forall c :: c in LoaderColumns ==> c in columns) && |table| > 0 {
        assert table[..Min(100 * TotalChunks(|table|), |table|)] == table;
      }
    }
  }
}

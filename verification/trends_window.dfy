/** The state of the 15.09 trends window: the loaded series, the queue of
    cursor timestamps that arrive while the series is loading, the cursor
    position and the lock mode that recentres it, and what plot_data has
    drawn.  The loader thread is collapsed into the
    callbacks it triggers (on_data_processed, on_error_occurred,
    update_progress). */
module TrendsWindow {
  import opened Common
  import opened Segments
  import opened Nearest
  import opened TrendRows

  /** Every row carries the three voltages and three currents. */
  predicate SixWide(rows: seq<TrendRow>)
  {
    forall i :: 0 <= i < |rows| ==> |rows[i].values| == 6
  }

  /** all_data['timestamp']. */
  function Stamps(rows: seq<TrendRow>): (r: seq<int>)
    ensures |r| == |rows|
    ensures forall i :: 0 <= i < |rows| ==> r[i] == rows[i].timestamp
  {
    seq(|rows|, i requires 0 <= i < |rows| => rows[i].timestamp)
  }

  /** Column c of the table, NaN as None. */
  function ColumnValues(rows: seq<TrendRow>, c: nat): (r: seq<Option<int>>)
    requires SixWide(rows) && c < 6
    ensures |r| == |rows|
    ensures forall i :: 0 <= i < |rows| ==> (r[i].Some? <==> rows[i].values[c].Calibrated?)
  {
    seq(|rows|, i requires 0 <= i < |rows| =>
      if rows[i].values[c].Calibrated? then Some(rows[i].values[c].level) else None)
  }

  /** The rows whose six values are all NaN. */
  function AllNanFlags(rows: seq<TrendRow>): (r: seq<bool>)
    requires SixWide(rows)
    ensures |r| == |rows|
    ensures forall i :: 0 <= i < |rows| ==> (r[i] <==> forall c :: 0 <= c < 6 ==> rows[i].values[c].NaN?)
  {
    seq(|rows|, i requires 0 <= i < |rows| => forall c :: 0 <= c < 6 ==> rows[i].values[c].NaN?)
  }

  /** The segments plot_data draws, column by column. */
  function ColumnSegments(rows: seq<TrendRow>): (r: seq<seq<(nat, nat)>>)
    requires SixWide(rows)
    ensures |r| == 6
    ensures forall c :: 0 <= c < 6 ==> r[c] == PlottedSegments(Stamps(rows), ColumnValues(rows, c))
  {
    seq(6, c requires 0 <= c < 6 => PlottedSegments(Stamps(rows), ColumnValues(rows, c)))
  }

  /** The column loop of plot_data: for each of the six columns in turn,
      the segments drawn for it. */
  method PlotColumns(rows: seq<TrendRow>) returns (columns: seq<seq<(nat, nat)>>)
    requires SixWide(rows)
    ensures columns == ColumnSegments(rows)
  {
    var t := Stamps(rows);
    var c := 0;
    columns := [];
    while c < 6
      invariant c <= 6 && |columns| == c
      invariant forall k :: 0 <= k < c ==> columns[k] == PlottedSegments(t, ColumnValues(rows, k))
    {
      columns := columns + [PlottedSegments(t, ColumnValues(rows, c))];
      c := c + 1;
    }
  }

  /** min(all_time_labels). */
  function Lowest(s: seq<int>): (m: int)
    requires s != []
    ensures m in s && forall x :: x in s ==> m <= x
  {
    if |s| == 1 then s[0]
    else
      var rest := Lowest(s[1..]);
      assert forall x :: x in s ==> x == s[0] || x in s[1..];
      Min(s[0], rest)
  }

  /** max(all_time_labels). */
  function Highest(s: seq<int>): (m: int)
    requires s != []
    ensures m in s && forall x :: x in s ==> x <= m
  {
    if |s| == 1 then s[0]
    else
      var rest := Highest(s[1..]);
      assert forall x :: x in s ==> x == s[0] || x in s[1..];
      Max(s[0], rest)
  }

  /** (min_t + max_t) / 2: the middle of the series, which is also the
      centre of the view after setXRange(min_t, max_t) with its symmetric
      padding. */
  function Midpoint(s: seq<int>): (r: real)
    requires s != []
    ensures Lowest(s) as real <= r <= Highest(s) as real
  {
    (Lowest(s) + Highest(s)) as real / 2.0
  }

  /** The cursor check at the end of plot_data: a cursor outside
      [min_t, max_t] is put in the middle, one inside stays. */
  function KeepInRange(cursor: real, labels: seq<int>): (r: real)
    requires labels != []
    ensures Lowest(labels) as real <= r <= Highest(labels) as real
    ensures Lowest(labels) as real <= cursor <= Highest(labels) as real ==> r == cursor
    ensures r != cursor ==> r == Midpoint(labels)
  {
    if cursor < Lowest(labels) as real || cursor > Highest(labels) as real then Midpoint(labels)
    else cursor
  }

  /** A cursor already moved into the range is left alone by the next
      plot of the same labels. */
  lemma KeepInRangeIdempotent(cursor: real, labels: seq<int>)
    requires labels != []
    ensures KeepInRange(KeepInRange(cursor, labels), labels) == KeepInRange(cursor, labels)
  {
    var once := KeepInRange(cursor, labels);
    assert Lowest(labels) as real <= once <= Highest(labels) as real;
  }

  /** Where the cursor ends up after the queued timestamps are applied in
      FIFO order: each timestamp that occurs in the series moves it there,
      the others leave it. */
  function LastMatch(queue: seq<int>, stamps: seq<int>, cursor: real): (r: real)
    ensures r != cursor ==> exists i :: 0 <= i < |queue| && queue[i] in stamps && r == queue[i] as real
  {
    if queue == [] then cursor
    else LastMatch(queue[1..], stamps, if queue[0] in stamps then queue[0] as real else cursor)
  }

  /** The cursor ends at the last queued timestamp that occurs in the
      series, or stays where it was when none does. */
  lemma {:induction false} LastMatchSpec(queue: seq<int>, stamps: seq<int>, cursor: real)
    ensures (forall i :: 0 <= i < |queue| ==> queue[i] !in stamps) ==> LastMatch(queue, stamps, cursor) == cursor
    ensures forall i :: (0 <= i < |queue| && queue[i] in stamps &&
                         (forall j :: i < j < |queue| ==> queue[j] !in stamps)) ==>
      LastMatch(queue, stamps, cursor) == queue[i] as real
  {
    if queue != [] {
      var next := if queue[0] in stamps then queue[0] as real else cursor;
      LastMatchSpec(queue[1..], stamps, next);
      assert forall i :: 1 <= i < |queue| ==> queue[1..][i - 1] == queue[i];
    }
  }

  class TrendsView {
    var currentDevice: Option<string>
    var isLoading: bool
    /** all_data. */
    var allData: seq<TrendRow>
    /** pending_timestamps. */
    var pending: seq<int>
    /** The position of the six cursors, which always move together, in
        milliseconds (the plot keeps seconds).  It starts at 0. */
    var cursor: real
    /** lock_cursor_mode: the cursors follow the centre of the view. */
    var lockCursorMode: bool
    var timeLabels: seq<int>
    var allTimeLabels: seq<int>
    /** For every plot_data call and column, the (start, end) row ranges
        drawn. */
    var drawnSegments: seq<seq<(nat, nat)>>
    /** The gray regions over 15-minute gaps. */
    var gapRegions: seq<(int, int)>
    /** The yellow regions around all-NaN rows. */
    var nanRegions: seq<(int, int)>
    var progressVisible: bool
    var progressValue: int

    predicate Valid()
      reads this
    {
      SixWide(allData)
    }

    constructor ()
      ensures Valid()
      ensures currentDevice == None && !isLoading && allData == [] && pending == []
      ensures cursor == 0.0 && !lockCursorMode
      ensures timeLabels == [] && allTimeLabels == []
      ensures drawnSegments == [] && gapRegions == [] && nanRegions == []
      ensures !progressVisible && progressValue == 0
    {
      currentDevice := None;
      isLoading := false;
      allData := [];
      pending := [];
      cursor := 0.0;
      lockCursorMode := false;
      timeLabels, allTimeLabels := [], [];
      drawnSegments, gapRegions, nanRegions := [], [], [];
      progressVisible := false;
      progressValue := 0;
    }

    /** set_cursor_to_timestamp: queue the timestamp while loading or
        while there is no data; otherwise move the cursor there only if
        the nearest timestamp of the series is an exact match. */
    method SetCursorToTimestamp(ts: int)
      requires Valid()
      modifies this`pending, this`cursor
      ensures Valid()
      ensures (old(isLoading) || old(allData) == []) ==> pending == old(pending) + [ts] && cursor == old(cursor)
      ensures !(old(isLoading) || old(allData) == []) ==>
        pending == old(pending) &&
        cursor == (if ts in Stamps(allData) then ts as real else old(cursor))
    {
      if isLoading || allData == [] {
        pending := pending + [ts];
        return;
      }
      var stamps := Stamps(allData);
      var idx := FirstNearest(stamps, ts);
      ExactMatch(stamps, ts);
      if Dist(stamps[idx], ts) == 0 {
        cursor := stamps[idx] as real;
      }
    }

    /** process_pending_timestamps: pop the queue from the front and apply
        each timestamp.  Called once the data is in; while loading or with
        no data every popped timestamp would be queued again and the loop
        would never end. */
    method ProcessPendingTimestamps()
      requires Valid() && !isLoading && allData != []
      modifies this`pending, this`cursor
      ensures Valid()
      ensures pending == []
      ensures cursor == LastMatch(old(pending), Stamps(allData), old(cursor))
    {
      while pending != []
        invariant Valid() && !isLoading && allData != []
        invariant LastMatch(pending, Stamps(allData), cursor) == LastMatch(old(pending), Stamps(allData), old(cursor))
        decreases |pending|
      {
        var ts := pending[0];
        pending := pending[1..];
        SetCursorToTimestamp(ts);
      }
    }

    /** clear_previous_data: the series, the labels, the drawn items and
        the queue are emptied. */
    method ClearPreviousData()
      requires Valid()
      modifies this`allData, this`timeLabels, this`allTimeLabels, this`pending, this`drawnSegments, this`gapRegions, this`nanRegions
      ensures Valid()
      ensures allData == [] && timeLabels == [] && allTimeLabels == [] && pending == []
      ensures drawnSegments == [] && gapRegions == [] && nanRegions == []
    {
      allData := [];
      timeLabels, allTimeLabels := [], [];
      pending := [];
      drawnSegments, gapRegions, nanRegions := [], [], [];
    }

    /** fetch_logger_data: the same table does nothing; another table
        clears everything, marks the window as loading and starts the
        loader. */
    method FetchLoggerData(name: string) returns (started: bool)
      requires Valid()
      modifies this`currentDevice, this`isLoading, this`progressVisible, this`progressValue
      modifies this`allData, this`timeLabels, this`allTimeLabels, this`pending, this`drawnSegments, this`gapRegions, this`nanRegions
      ensures Valid()
      ensures started <==> old(currentDevice) != Some(name)
      ensures !started ==> unchanged(this)
      ensures started ==>
        currentDevice == Some(name) && isLoading && allData == [] && pending == [] &&
        timeLabels == [] && allTimeLabels == [] &&
        drawnSegments == [] && gapRegions == [] && nanRegions == [] &&
        progressVisible && progressValue == 0 && cursor == old(cursor)
    {
      if currentDevice == Some(name) {
        return false;
      }
      ClearPreviousData();
      isLoading := true;
      currentDevice := Some(name);
      progressVisible := true;
      progressValue := 0;
      started := true;
    }

    /** plot_data: the labels are always replaced; with at least two rows
        the cumulative labels are replaced too, for each column the
        drawable segments, the gap regions and the all-NaN regions are
        added, and the cursor is kept inside the new labels' range. */
    method PlotData(rows: seq<TrendRow>)
      requires Valid() && SixWide(rows)
      modifies this`timeLabels, this`allTimeLabels, this`drawnSegments, this`gapRegions, this`nanRegions, this`cursor
      ensures Valid()
      ensures timeLabels == Stamps(rows)
      ensures |rows| < 2 ==>
        allTimeLabels == old(allTimeLabels) && drawnSegments == old(drawnSegments) &&
        gapRegions == old(gapRegions) && nanRegions == old(nanRegions) && cursor == old(cursor)
      ensures |rows| >= 2 ==>
        allTimeLabels == Stamps(rows) && cursor == KeepInRange(old(cursor), Stamps(rows)) &&
        drawnSegments == old(drawnSegments) + ColumnSegments(rows) &&
        gapRegions == old(gapRegions) + GapRegions(Stamps(rows), GapIndices(Stamps(rows))) &&
        nanRegions == old(nanRegions) + NanRowRegions(Stamps(rows), AllNanFlags(rows))
    {
      var t := Stamps(rows);
      timeLabels := t;
      if |t| < 2 {
        return;
      }
      allTimeLabels := t;
      DrawColumns(rows);
      KeepCursorInRange(t);
    }

    /** The end of plot_data: a cursor outside the labels' range is moved
        to its middle; one inside stays. */
    method KeepCursorInRange(labels: seq<int>)
      requires labels != []
      modifies this`cursor
      ensures cursor == KeepInRange(old(cursor), labels)
    {
      if cursor < Lowest(labels) as real || cursor > Highest(labels) as real {
        cursor := (Lowest(labels) + Highest(labels)) as real / 2.0;
      }
    }

    /** The drawing part of plot_data: each column's segments, then the
        gap regions and the all-NaN regions; nothing else changes. */
    method DrawColumns(rows: seq<TrendRow>)
      requires SixWide(rows)
      modifies this`drawnSegments, this`gapRegions, this`nanRegions
      ensures drawnSegments == old(drawnSegments) + ColumnSegments(rows)
      ensures gapRegions == old(gapRegions) + GapRegions(Stamps(rows), GapIndices(Stamps(rows)))
      ensures nanRegions == old(nanRegions) + NanRowRegions(Stamps(rows), AllNanFlags(rows))
    {
      var t := Stamps(rows);
      var gaps := GapIndices(t);
      var columns := PlotColumns(rows);
      drawnSegments := drawnSegments + columns;
      gapRegions := gapRegions + GapRegions(t, gaps);
      nanRegions := nanRegions + NanRowRegions(t, AllNanFlags(rows));
    }

    /** on_data_processed: store and plot the series, end loading, hide
        the bar, then apply the queued cursor timestamps; in lock mode the
        cursor then goes back to the centre of the whole series. */
    method OnDataProcessed(rows: seq<TrendRow>)
      requires Valid() && SixWide(rows) && rows != []
      modifies this`allData, this`isLoading, this`progressVisible, this`progressValue, this`pending, this`cursor
      modifies this`timeLabels, this`allTimeLabels, this`drawnSegments, this`gapRegions, this`nanRegions
      ensures Valid()
      ensures allData == rows && !isLoading && !progressVisible && progressValue == 100
      ensures timeLabels == Stamps(rows) && pending == []
      ensures allTimeLabels == if |rows| >= 2 then Stamps(rows) else old(allTimeLabels)
      ensures lockCursorMode && allTimeLabels != [] ==> cursor == Midpoint(allTimeLabels)
      ensures !(lockCursorMode && allTimeLabels != []) ==>
        cursor == LastMatch(old(pending), Stamps(rows),
                            if |rows| >= 2 then KeepInRange(old(cursor), Stamps(rows)) else old(cursor))
    {
      allData := rows;
      PlotData(rows);
      isLoading := false;
      progressVisible := false;
      progressValue := 100;
      ProcessPendingTimestamps();
      if allTimeLabels != [] && lockCursorMode {
        MoveCursorToCenter(Lowest(allTimeLabels) as real, Highest(allTimeLabels) as real);
      }
    }

    /** move_cursor_to_center: the cursors go to the middle of the visible
        range, given here by its two ends. */
    method MoveCursorToCenter(viewLo: real, viewHi: real)
      modifies this`cursor
      ensures cursor == (viewLo + viewHi) / 2.0
      ensures viewLo <= viewHi ==> viewLo <= cursor <= viewHi
    {
      cursor := (viewLo + viewHi) / 2.0;
    }

    /** toggle_lock_cursor_mode: the mode follows the button; switching it
        on centres the cursors in the visible range. */
    method ToggleLockCursorMode(checked: bool, viewLo: real, viewHi: real)
      modifies this`lockCursorMode, this`cursor
      ensures lockCursorMode == checked
      ensures checked ==> cursor == (viewLo + viewHi) / 2.0
      ensures !checked ==> cursor == old(cursor)
    {
      lockCursorMode := checked;
      if lockCursorMode {
        MoveCursorToCenter(viewLo, viewHi);
      }
    }

    /** update_cursor_on_range_change: in lock mode a change of the visible
        range moves the cursors to its centre; otherwise nothing moves. */
    method UpdateCursorOnRangeChange(viewLo: real, viewHi: real)
      modifies this`cursor
      ensures lockCursorMode ==> cursor == (viewLo + viewHi) / 2.0
      ensures !lockCursorMode ==> cursor == old(cursor)
    {
      if lockCursorMode {
        cursor := (viewLo + viewHi) / 2.0;
      }
    }

    /** update_progress. */
    method UpdateProgress(value: int)
      modifies this`progressValue
      ensures progressValue == value
    {
      progressValue := value;
    }

    /** on_error_occurred: loading ends with the bar hidden and reset; the
        queue is kept. */
    method OnErrorOccurred()
      modifies this`isLoading, this`progressVisible, this`progressValue
      ensures !isLoading && !progressVisible && progressValue == 0
    {
      isLoading := false;
      progressVisible := false;
      progressValue := 0;
    }

    /** plot_data_from_signal as written: the record's timestamp is queued
        first and the table fetched after.  Fetching another table clears
        the queue, so the timestamp is dropped; for the table already
        shown the timestamp stays queued and nothing applies it until the
        next load, which clears it. */
    method PlotDataFromSignalAsWritten(name: string, ts: Option<int>)
      requires Valid()
      modifies this`currentDevice, this`isLoading, this`progressVisible, this`progressValue
      modifies this`allData, this`timeLabels, this`allTimeLabels, this`pending, this`drawnSegments, this`gapRegions, this`nanRegions, this`cursor
      ensures Valid() && cursor == old(cursor)
      ensures name != [] && old(currentDevice) != Some(name) ==> pending == [] && isLoading
      ensures name != [] && old(currentDevice) == Some(name) ==>
        pending == old(pending) + (if ts.Some? then [ts.value] else []) &&
        isLoading == old(isLoading) && allData == old(allData)
      ensures name == [] ==> unchanged(this)
    {
      if name != [] {
        if ts.Some? {
          pending := pending + [ts.value];
        }
        var _ := FetchLoggerData(name);
      }
    }

    /** plot_data_from_signal with the intended order: fetch first, then
        set the cursor, which queues the timestamp while the new table
        loads and applies it at once when the table is already shown. */
    method PlotDataFromSignal(name: string, ts: Option<int>)
      requires Valid()
      modifies this`currentDevice, this`isLoading, this`progressVisible, this`progressValue
      modifies this`allData, this`timeLabels, this`allTimeLabels, this`pending, this`drawnSegments, this`gapRegions, this`nanRegions, this`cursor
      ensures Valid()
      ensures name != [] && old(currentDevice) != Some(name) ==>
        isLoading && allData == [] && pending == (if ts.Some? then [ts.value] else []) && cursor == old(cursor)
      ensures name != [] && old(currentDevice) == Some(name) && ts.Some? && !old(isLoading) && old(allData) != [] ==>
        pending == old(pending) && cursor == (if ts.value in Stamps(allData) then ts.value as real else old(cursor))
      ensures name != [] && old(currentDevice) == Some(name) && ts.Some? && (old(isLoading) || old(allData) == []) ==>
        pending == old(pending) + [ts.value] && cursor == old(cursor)
      ensures name == [] ==> unchanged(this)
    {
      if name != [] {
        var _ := FetchLoggerData(name);
        if ts.Some? {
          SetCursorToTimestamp(ts.value);
        }
      }
    }
  }

  /** A row with all six values missing. */
  function BlankRow(ts: int): (r: TrendRow)
    ensures r.timestamp == ts && |r.values| == 6
  {
    TrendRow(ts, [NaN, NaN, NaN, NaN, NaN, NaN])
  }

  /** Selecting a record at 5000 ms of a table not yet shown, as written:
      once the table has loaded, the cursor is not at 5000 although 5000 is
      in the series; plot_data has only moved it from 0 into the middle of
      the series. */
  method AsWrittenDropsTimestamp() returns (cursor: real)
    ensures cursor != 5000.0 && cursor == 4500.0
  {
    var w := new TrendsView();
    w.PlotDataFromSignalAsWritten("logger_1", Some(5000));
    var rows := [BlankRow(4000), BlankRow(5000)];
    w.OnDataProcessed(rows);
    assert Stamps(rows) == [4000, 5000];
    assert Lowest([4000, 5000]) == 4000 && Highest([4000, 5000]) == 5000;
    cursor := w.cursor;
  }

  /** The same selection with the intended order moves the cursor to the
      selected record once the table has loaded. */
  method IntendedAppliesTimestamp() returns (cursor: real)
    ensures cursor == 5000.0
  {
    var w := new TrendsView();
    w.PlotDataFromSignal("logger_1", Some(5000));
    var rows := [BlankRow(4000), BlankRow(5000)];
    w.OnDataProcessed(rows);
    assert Stamps(rows) == [4000, 5000];
    LastMatchSpec([5000], [4000, 5000], KeepInRange(0.0, [4000, 5000]));
    cursor := w.cursor;
  }
}

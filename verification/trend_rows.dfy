/** Building the trend table from fetched records, in the four versions of
    the trends window:
    - 28.07 DataLoaderThread and 11.08 RMSCalculationThread skip a record
      whose samples decode to nothing and pad the others to six values;
    - 14.08 RMSCalculatorThread keeps every record (six missing values for
      an empty decode) and reports progress every 10 records;
    - 15.09 DataLoaderThread validates the table and the calibration
      dividers, turns each record's six raw RMS words into calibrated
      levels, and reports progress every 100 records.
    The floating-point reductions (peak half-amplitude, RMS) and the
    calibration product are not modelled: a reduced value is a `real`
    computed elsewhere, and a calibrated level keeps the multiplier, the
    divider and the shifted raw word it is computed from. */
module TrendRows {
  import opened Common
  import SampleCodec

  /** One decoded record: its timestamp and, unless get_signals returned an
      empty array, the per-channel reductions. */
  datatype Decoded = Decoded(timestamp: int, reduced: Option<seq<real>>)

  /** One row of the trend table: a timestamp and six channel values, None
      standing for NaN. */
  datatype Row = Row(timestamp: int, values: seq<Option<real>>)

  /** The six channel values of a record: the first six reductions, NaN for
      channels the record does not have. */
  function Pad6(vals: seq<real>): (r: seq<Option<real>>)
    ensures |r| == 6
  {
    seq(6, i requires 0 <= i < 6 => if i < |vals| then Some(vals[i]) else None)
  }

  /** The leading present values of a padded row. */
  function Present(r: seq<Option<real>>): seq<real>
  {
    if r == [] || r[0].None? then [] else [r[0].value] + Present(r[1..])
  }

  /** Padding keeps the first six reductions and nothing else: reading the
      present values back gives them. */
  lemma PadRoundTrip(vals: seq<real>)
    ensures Present(Pad6(vals)) == vals[..Min(6, |vals|)]
  {
    var p := Pad6(vals);
    var m := Min(6, |vals|);
    forall j | 0 <= j <= 6
      ensures Present(p[j..]) == vals[Min(j, m)..m]
    {
      PresentSuffix(vals, 6 - j);
    }
    assert p[0..] == p;
  }

  lemma {:induction false} PresentSuffix(vals: seq<real>, k: nat)
    requires k <= 6
    ensures var p := Pad6(vals); var m := Min(6, |vals|);
      Present(p[6 - k..]) == vals[Min(6 - k, m)..m]
  {
    var p := Pad6(vals);
    var m := Min(6, |vals|);
    var j := 6 - k;
    if k == 0 {
      assert p[6..] == [];
    } else {
      PresentSuffix(vals, k - 1);
      assert p[j..][1..] == p[j + 1..];
      if j < |vals| {
        assert vals[j..m] == [vals[j]] + vals[j + 1..m];
      }
    }
  }

  predicate HasSignals(d: Decoded)
  {
    d.reduced.Some?
  }

  function RowOf(d: Decoded): Row
    requires HasSignals(d)
  {
    Row(d.timestamp, Pad6(d.reduced.value))
  }

  /** The rows of the 28.07 and 11.08 loaders: one per record with signals,
      in record order. */
  function KeptRows(records: seq<Decoded>): (r: seq<Row>)
    ensures |r| <= |records|
  {
    if records == [] then []
    else
      var last := records[|records| - 1];
      KeptRows(records[..|records| - 1]) + (if HasSignals(last) then [RowOf(last)] else [])
  }

  /** The kept rows are the records with signals, padded: every row comes
      from a record with signals, and every such record gives a row. */
  lemma {:induction false} KeptRowsMembers(records: seq<Decoded>)
    ensures var r := KeptRows(records);
      (forall x :: x in r ==> |x.values| == 6 && exists d :: d in records && HasSignals(d) && x == RowOf(d)) &&
      (forall d :: d in records && HasSignals(d) ==> RowOf(d) in r)
  {
    if records != [] {
      var init := records[..|records| - 1];
      var last := records[|records| - 1];
      KeptRowsMembers(init);
      assert records == init + [last];
    }
  }

  /** A non-decreasing series of records gives a non-decreasing table. */
  lemma {:induction false} KeptRowsOrdered(records: seq<Decoded>)
    requires forall a, b :: 0 <= a < b < |records| ==> records[a].timestamp <= records[b].timestamp
    ensures forall a, b :: 0 <= a < b < |KeptRows(records)| ==>
      KeptRows(records)[a].timestamp <= KeptRows(records)[b].timestamp
  {
    if records != [] {
      var init := records[..|records| - 1];
      var last := records[|records| - 1];
      KeptRowsOrdered(init);
      var r0 := KeptRows(init);
      KeptRowsBefore(init, last);
      var r := KeptRows(records);
      assert r == r0 + (if HasSignals(last) then [RowOf(last)] else []);
      forall a, b | 0 <= a < b < |r|
        ensures r[a].timestamp <= r[b].timestamp
      {
        if b >= |r0| {
          assert r[a] == r0[a] && r0[a] in r0;
          assert r0[a].timestamp <= last.timestamp;
          assert r[b] == RowOf(last);
          assert r[b].timestamp == last.timestamp;
        } else {
          assert r[a] == r0[a] && r[b] == r0[b];
          assert r0[a].timestamp <= r0[b].timestamp;
        }
      }
    }
  }

  /** Rows kept from records no later than `last` are no later than it. */
  lemma {:induction false} KeptRowsBefore(init: seq<Decoded>, last: Decoded)
    requires forall a :: 0 <= a < |init| ==> init[a].timestamp <= last.timestamp
    ensures forall x :: x in KeptRows(init) ==> x.timestamp <= last.timestamp
  {
    if init != [] {
      var prefix := init[..|init| - 1];
      assert forall a :: 0 <= a < |prefix| ==> prefix[a] == init[a];
      KeptRowsBefore(prefix, last);
    }
  }

  /** The record loop of the 28.07 DataLoaderThread: records whose signals
      are empty are skipped, the others give one padded row. */
  method LoadRows(records: seq<Decoded>) returns (rows: seq<Row>)
    ensures rows == KeptRows(records)
  {
    rows := [];
    for i := 0 to |records|
      invariant rows == KeptRows(records[..i])
    {
      assert records[..i + 1][..i] == records[..i];
      var record := records[i];
      if record.reduced.None? {
        continue;
      }
      rows := rows + [Row(record.timestamp, Pad6(record.reduced.value))];
    }
    assert records[..|records|] == records;
  }

  // ---------------------------------------------------------------------
  // Progress

  /** int((i + 1) / n * 100) on exact arithmetic. */
  function Percent(done: nat, total: nat): nat
    requires 0 < total
  {
    done * 100 / total
  }

  lemma PercentMonotone(a: nat, b: nat, total: nat)
    requires 0 < total && a <= b
    ensures Percent(a, total) <= Percent(b, total)
  {
    DivMonotone(a * 100, b * 100, total);
  }

  /** Cancelling a positive factor from a strict inequality. */
  lemma MulCancel(a: int, b: int, d: int)
    requires 0 < d && a * d < b * d
    ensures a < b
  {
  }

  lemma DivMonotone(x: nat, y: nat, d: nat)
    requires 0 < d && x <= y
    ensures x / d <= y / d
  {
    var qx, qy := x / d, y / d;
    assert qx * d <= x;
    assert y < qy * d + d;
    assert qy * d + d == (qy + 1) * d;
    MulCancel(qx, qy + 1, d);
  }

  lemma PercentBounds(done: nat, total: nat)
    requires 0 < total && done <= total
    ensures Percent(done, total) <= 100
    ensures Percent(done, total) == 100 <==> done == total
  {
    if done < total {
      PercentBelowFull(done, total);
    } else {
      PercentOfWhole(total);
    }
  }

  /** Fewer than all records is less than 100 percent. */
  lemma PercentBelowFull(done: nat, total: nat)
    requires done < total
    ensures Percent(done, total) < 100
  {
    var x := done * 100;
    var q := x / total;
    assert q * total <= x;
    assert x < total * 100;
    MulCancel(q, 100, total);
  }

  /** All records is exactly 100 percent. */
  lemma PercentOfWhole(total: nat)
    requires 0 < total
    ensures Percent(total, total) == 100
  {
    var x := total * 100;
    var q := x / total;
    assert q * total <= x < q * total + total;
    assert x == 100 * total;
    assert q * total < 101 * total;
    MulCancel(q, 101, total);
    assert 100 * total < (q + 1) * total;
    MulCancel(100, q + 1, total);
  }

  /** Appending reports bounded by a later, larger bound keeps a
      non-decreasing series non-decreasing. */
  lemma AppendBounded(r0: seq<nat>, tail: seq<nat>, b0: nat, b1: nat)
    requires Rising(r0) && AtMost(r0, b0)
    requires b0 <= b1 && |tail| <= 1 && (|tail| == 1 ==> b0 <= tail[0] <= b1)
    ensures Rising(r0 + tail) && AtMost(r0 + tail, b1)
  {
  }

  /** A series of reports that never goes down. */
  predicate Rising(r: seq<nat>)
  {
    forall a, b :: 0 <= a < b < |r| ==> r[a] <= r[b]
  }

  /** A series of reports none of which exceeds `bound`. */
  predicate AtMost(r: seq<nat>, bound: nat)
  {
    forall a :: 0 <= a < |r| ==> r[a] <= bound
  }

  /** The progress values reported after each of the first m of n
      records: a report after record i when i is a multiple of `every` or
      the last record. */
  function Marks(n: nat, every: nat, m: nat): (r: seq<nat>)
    requires 0 < every && m <= n
  {
    if m == 0 then []
    else Marks(n, every, m - 1) + (if m % every == 0 || m == n then [Percent(m, n)] else [])
  }

  /** One more record adds its report, if it is one that reports. */
  lemma MarksNext(n: nat, every: nat, m: nat)
    requires 0 < every && m < n
    ensures Marks(n, every, m + 1) ==
      Marks(n, every, m) + (if (m + 1) % every == 0 || m + 1 == n then [Percent(m + 1, n)] else [])
  {
  }

  /** The reports never go down, never exceed 100, and a full run ends with
      a report of exactly 100. */
  lemma {:induction false} MarksProgress(n: nat, every: nat, m: nat)
    requires 0 < every && m <= n
    ensures Rising(Marks(n, every, m)) && AtMost(Marks(n, every, m), 100)
    ensures 0 < m ==> AtMost(Marks(n, every, m), Percent(m, n))
    ensures m == n && n > 0 ==> |Marks(n, every, m)| > 0 && Marks(n, every, m)[|Marks(n, every, m)| - 1] == 100
  {
    if m > 0 {
      MarksProgress(n, every, m - 1);
      PercentMonotone(m - 1, m, n);
      PercentBounds(m, n);
      var r0 := Marks(n, every, m - 1);
      var tail: seq<nat> := if m % every == 0 || m == n then [Percent(m, n)] else [];
      assert AtMost(r0, Percent(m - 1, n)) by {
        if m == 1 {
          assert r0 == [];
        }
      }
      AppendBounded(r0, tail, Percent(m - 1, n), Percent(m, n));
    }
  }

  /** update_progress of the 11.08 window: the bar is hidden exactly when
      the value is 100 and otherwise keeps its visibility. */
  function ProgressBarVisible(visible: bool, value: int): (r: bool)
    ensures value == 100 ==> !r
    ensures value != 100 ==> r == visible
  {
    if value == 100 then false else visible
  }

  /** The progress reports of the 11.08 RMSCalculationThread: after each
      kept record of the first m, the percentage of all records seen. */
  function KeptMarks(records: seq<Decoded>, m: nat): seq<nat>
    requires m <= |records|
  {
    if m == 0 then []
    else KeptMarks(records, m - 1) + (if HasSignals(records[m - 1]) then [Percent(m, |records|)] else [])
  }

  /** After m > 0 records the 11.08 reports never go down and none exceeds
      the percentage of the m records seen. */
  lemma {:induction false} KeptMarksRising(records: seq<Decoded>, m: nat)
    requires 0 < m <= |records|
    ensures Rising(KeptMarks(records, m)) && AtMost(KeptMarks(records, m), Percent(m, |records|))
  {
    var n := |records|;
    var r0 := KeptMarks(records, m - 1);
    var tail: seq<nat> := if HasSignals(records[m - 1]) then [Percent(m, n)] else [];
    if m == 1 {
      assert r0 == [];
    } else {
      KeptMarksRising(records, m - 1);
    }
    PercentMonotone(m - 1, m, n);
    AppendBounded(r0, tail, Percent(m - 1, n), Percent(m, n));
  }

  /** The 11.08 reports never go down; the last one is 100 exactly when the
      last record has signals, so a trailing empty record leaves the bar
      visible. */
  lemma {:induction false} KeptMarksProgress(records: seq<Decoded>, m: nat)
    requires m <= |records|
    ensures Rising(KeptMarks(records, m)) && AtMost(KeptMarks(records, m), 100)
    ensures 0 < m ==> AtMost(KeptMarks(records, m), Percent(m, |records|))
    ensures m == |records| && |KeptMarks(records, m)| > 0 ==>
      (KeptMarks(records, m)[|KeptMarks(records, m)| - 1] == 100 <==> HasSignals(records[m - 1]))
  {
    var n := |records|;
    if m > 0 {
      KeptMarksRising(records, m);
      PercentBounds(m, n);
      var r := KeptMarks(records, m);
      if m == n && |r| > 0 && !HasSignals(records[m - 1]) {
        assert r == KeptMarks(records, m - 1);
        KeptMarksRising(records, m - 1);
        PercentBounds(m - 1, n);
        assert r[|r| - 1] <= Percent(m - 1, n) < 100;
      }
    }
  }

  /** run of the 11.08 RMSCalculationThread: the rows of the 28.07 loader,
      with a progress report after each kept record. */
  method CalculateRms(records: seq<Decoded>) returns (rows: seq<Row>, progress: seq<nat>)
    ensures rows == KeptRows(records)
    ensures progress == KeptMarks(records, |records|)
  {
    rows, progress := [], [];
    var total := |records|;
    for i := 0 to total
      invariant rows == KeptRows(records[..i])
      invariant progress == KeptMarks(records, i)
    {
      assert records[..i + 1][..i] == records[..i];
      var record := records[i];
      if record.reduced.None? {
        continue;
      }
      rows := rows + [Row(record.timestamp, Pad6(record.reduced.value))];
      progress := progress + [Percent(i + 1, total)];
    }
    assert records[..|records|] == records;
  }

  /** The row of the 14.08 RMSCalculatorThread: six missing values for an
      empty decode, otherwise the channel RMS values padded. */
  function ChunkRowOf(d: Decoded): (r: Row)
    ensures |r.values| == 6 && r.timestamp == d.timestamp
    ensures d.reduced.None? ==> forall j :: 0 <= j < 6 ==> r.values[j].None?
  {
    Row(d.timestamp, Pad6(if d.reduced.None? then [] else d.reduced.value))
  }

  /** run of the 14.08 RMSCalculatorThread: one row per record, in order,
      with progress after every 10th and after the last record. */
  method CalculateChunkRms(records: seq<Decoded>) returns (rows: seq<Row>, progress: seq<nat>)
    ensures |rows| == |records|
    ensures forall i :: 0 <= i < |records| ==> rows[i] == ChunkRowOf(records[i])
    ensures progress == Marks(|records|, 10, |records|)
  {
    rows, progress := [], [];
    var total := |records|;
    for i := 0 to total
      invariant |rows| == i
      invariant forall k :: 0 <= k < i ==> rows[k] == ChunkRowOf(records[k])
      invariant progress == Marks(total, 10, i)
    {
      var record := records[i];
      var rmsValues: seq<real>;
      if record.reduced.None? {
        rmsValues := [];
      } else {
        rmsValues := record.reduced.value;
      }
      rows := rows + [Row(record.timestamp, Pad6(rmsValues))];
      MarksNext(total, 10, i);
      if (i + 1) % 10 == 0 || i + 1 == total {
        progress := progress + [Percent(i + 1, total)];
      }
    }
  }

  // ---------------------------------------------------------------------
  // The 15.09 loader

  /** The last row's calibration columns; any of them may be NULL. */
  datatype Multipliers = Multipliers(voltMult: Option<int>, voltDiv: Option<int>,
                                     currMult: Option<int>, currDiv: Option<int>)

  /** One fetched record: its timestamp and the six raw RMS words
      add_data_0 .. add_data_5, any of them NULL. */
  datatype RawRow = RawRow(timestamp: int, adc: seq<Option<int>>)

  /** A calibrated value: NaN, or the value computed from a multiplier, a
      divider and the raw word shifted right by two. */
  datatype Level = NaN | Calibrated(mult: int, div: int, level: int)

  /** One row of the 15.09 table: the timestamp and the three voltages and
      three currents. */
  datatype TrendRow = TrendRow(timestamp: int, values: seq<Level>)

  datatype LoadError = MissingColumns | NoMultipliers | BadDivider | NoRecords

  datatype LoadOutcome = Failed(error: LoadError) | Loaded(rows: seq<TrendRow>, progress: seq<nat>)

  /** The columns the table must have. */
  const RequiredColumns: seq<string> := ["timestamp", "add_data_0", "add_data_1", "add_data_2",
    "add_data_3", "add_data_4", "add_data_5", "cfg_voltage_multiplier", "cfg_voltage_divider",
    "cfg_current_multiplier", "cfg_current_divider"]

  /** get_voltage / get_ampertage: NULL raw word, or a NULL multiplier or
      divider (a TypeError), or a zero divider, give NaN. */
  function GetLevel(raw: Option<int>, mult: Option<int>, div: Option<int>): (r: Level)
    ensures r.Calibrated? <==> raw.Some? && mult.Some? && div.Some? && div.value != 0
    ensures r.Calibrated? ==> 4 * r.level <= raw.value < 4 * r.level + 4
  {
    if raw.None? then NaN
    else if mult.None? || div.None? || div.value == 0 then NaN
    else Calibrated(mult.value, div.value, SampleCodec.ShiftRight2(raw.value))
  }

  /** Channels 0-2 are voltages, 3-5 currents. */
  function RowLevels(r: RawRow, m: Multipliers): (vs: seq<Level>)
    requires |r.adc| == 6
    ensures |vs| == 6
  {
    seq(6, j requires 0 <= j < 6 =>
      if j < 3 then GetLevel(r.adc[j], m.voltMult, m.voltDiv)
      else GetLevel(r.adc[j], m.currMult, m.currDiv))
  }

  function DividersValid(m: Multipliers): bool
  {
    m.voltDiv.Some? && m.voltDiv.value != 0 && m.currDiv.Some? && m.currDiv.value != 0
  }

  /** With valid dividers a value is NaN exactly when its raw word or its
      pair's multiplier is NULL; the multipliers are not validated, so a
      NULL multiplier silently blanks its three channels. */
  lemma RowLevelsNaN(r: RawRow, m: Multipliers, j: nat)
    requires |r.adc| == 6 && j < 6 && DividersValid(m)
    ensures RowLevels(r, m)[j].NaN? <==>
      r.adc[j].None? || (j < 3 && m.voltMult.None?) || (j >= 3 && m.currMult.None?)
  {
  }

  /** DataLoaderThread.run of the 15.09 window after connecting: check the
      columns, the last row's dividers and that there are records, then
      build one row per record with progress after every 100th and the
      last record. */
  method LoadTrendData(columns: seq<string>, last: Option<Multipliers>, records: seq<RawRow>)
    returns (outcome: LoadOutcome)
    requires forall i :: 0 <= i < |records| ==> |records[i].adc| == 6
    ensures !(forall c :: c in RequiredColumns ==> c in columns) ==> outcome == Failed(MissingColumns)
    ensures (forall c :: c in RequiredColumns ==> c in columns) && last.None? ==> outcome == Failed(NoMultipliers)
    ensures ((forall c :: c in RequiredColumns ==> c in columns) && last.Some? && !DividersValid(last.value)) ==>
      outcome == Failed(BadDivider)
    ensures ((forall c :: c in RequiredColumns ==> c in columns) && last.Some? && DividersValid(last.value) &&
             records == []) ==> outcome == Failed(NoRecords)
    ensures outcome.Loaded? ==>
      last.Some? && DividersValid(last.value) &&
      |outcome.rows| == |records| &&
      (forall i :: 0 <= i < |records| ==>
        outcome.rows[i] == TrendRow(records[i].timestamp, RowLevels(records[i], last.value))) &&
      outcome.progress == Marks(|records|, 100, |records|)
    ensures outcome.Failed? || outcome.Loaded?
    ensures ((forall c :: c in RequiredColumns ==> c in columns) && last.Some? && DividersValid(last.value) &&
             records != []) ==> outcome.Loaded?
  {
    var k := 0;
    while k < |RequiredColumns|
      invariant k <= |RequiredColumns|
      invariant forall j :: 0 <= j < k ==> RequiredColumns[j] in columns
    {
      if RequiredColumns[k] !in columns {
        return Failed(MissingColumns);
      }
      k := k + 1;
    }
    if last.None? {
      return Failed(NoMultipliers);
    }
    var m := last.value;
    if m.voltDiv.None? || m.voltDiv.value == 0 || m.currDiv.None? || m.currDiv.value == 0 {
      return Failed(BadDivider);
    }
    if records == [] {
      return Failed(NoRecords);
    }
    var total := |records|;
    var rows: seq<TrendRow> := [];
    var progress: seq<nat> := [];
    for i := 0 to total
      invariant |rows| == i
      invariant forall k :: 0 <= k < i ==> rows[k] == TrendRow(records[k].timestamp, RowLevels(records[k], m))
      invariant progress == Marks(total, 100, i)
    {
      var r := records[i];
      var values := [GetLevel(r.adc[0], m.voltMult, m.voltDiv), GetLevel(r.adc[1], m.voltMult, m.voltDiv),
                     GetLevel(r.adc[2], m.voltMult, m.voltDiv), GetLevel(r.adc[3], m.currMult, m.currDiv),
                     GetLevel(r.adc[4], m.currMult, m.currDiv), GetLevel(r.adc[5], m.currMult, m.currDiv)];
      assert values == RowLevels(r, m);
      rows := rows + [TrendRow(r.timestamp, values)];
      MarksNext(total, 100, i);
      if (i + 1) % 100 == 0 || i + 1 == total {
        progress := progress + [Percent(i + 1, total)];
      }
    }
    outcome := Loaded(rows, progress);
  }
}

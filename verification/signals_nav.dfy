/** Record navigation in the 15.09 signals window.  Records are numbered
    from 1 in the table's timestamp list; the current record number drives
    the enabled state of the navigation buttons, and every move that lands
    on a record requests that record's timestamp from the database (the
    request is recorded here; the reading thread is not modelled).  The
    channel filter text selects which of the seven oscillogram rows are
    shown. */
module SignalsNav {
  import opened Common
  import opened Nearest
  import RangeParse

  /** int(text) if text.isdigit() else 0. */
  function StepValue(text: string): (r: nat)
    ensures !IsDigits(text) ==> r == 0
    ensures IsDigits(text) ==> r == DigitsValue(text)
  {
    if IsDigits(text) then DigitsValue(text) else 0
  }

  /** A number typed into the step field is read back as itself. */
  lemma StepValueOfNumber(n: nat)
    ensures StepValue(RangeParse.NatText(n)) == n
  {
    var t := RangeParse.NatText(n);
    assert IsDigits(t);
  }

  /** The buttons' enabled states. */
  datatype Buttons = Buttons(first: bool, left: bool, right: bool, last: bool, save: bool)

  /** update_button_states. */
  function ButtonStates(device: string, colnames: seq<string>, timestamps: seq<int>, recNum: int, hasData: bool): (b: Buttons)
    ensures var ready := |device| > 2 && |colnames| > 1 && |timestamps| > 0;
      (b.first <==> ready && recNum > 1) && b.left == b.first &&
      (b.right <==> ready && recNum < |timestamps|) && b.last == b.right &&
      (b.save <==> ready && hasData)
  {
    var ready := |device| > 2 && |colnames| > 1 && |timestamps| > 0;
    Buttons(ready && recNum > 1, ready && recNum > 1, ready && recNum < |timestamps|,
            ready && recNum < |timestamps|, ready && hasData)
  }

  /** On the first record the backward buttons are off and on the last
      the forward ones; anywhere in between both are on. */
  lemma ButtonsAtEnds(device: string, colnames: seq<string>, timestamps: seq<int>, recNum: int, hasData: bool)
    requires |device| > 2 && |colnames| > 1 && 1 <= recNum <= |timestamps|
    ensures var b := ButtonStates(device, colnames, timestamps, recNum, hasData);
      (recNum == 1 <==> !b.first) && (recNum == |timestamps| <==> !b.last)
  {
  }

  /** The y-range on_current_scale_changed gives the current channels: a
      symmetric range for a whole number, automatic otherwise. */
  function CurrentScale(text: string): (r: Option<nat>)
    ensures r.Some? <==> IsDigits(Blankless(text))
    ensures r.Some? ==> r.value == DigitsValue(Blankless(text))
  {
    var blankless := Blankless(text);
    if |blankless| == 0 || !IsDigits(blankless) then None else Some(DigitsValue(blankless))
  }

  /** A number typed into the scale field, with or without spaces around
      it, fixes the range at that number. */
  lemma CurrentScaleOfNumber(n: nat, before: nat, after: nat)
    ensures CurrentScale(Spaces(before) + RangeParse.NatText(n) + Spaces(after)) == Some(n)
  {
    var t := RangeParse.NatText(n);
    BlanklessAppend(Spaces(before) + t, Spaces(after));
    BlanklessAppend(Spaces(before), t);
    BlanklessSpaces(before);
    BlanklessSpaces(after);
    assert forall i :: 0 <= i < |t| ==> IsDigit(t[i]);
    RangeParse.BlanklessId(t);
    assert Blankless(Spaces(before) + t + Spaces(after)) == t;
  }

  /** `n` blanks. */
  function Spaces(n: nat): (r: string)
    ensures |r| == n && forall i :: 0 <= i < n ==> r[i] == ' '
  {
    if n == 0 then [] else [' '] + Spaces(n - 1)
  }

  lemma {:induction false} BlanklessSpaces(n: nat)
    ensures Blankless(Spaces(n)) == []
  {
    if n > 0 {
      assert Spaces(n)[1..] == Spaces(n - 1);
      BlanklessSpaces(n - 1);
    }
  }

  /** What happens to the current channel rows 3..5. */
  datatype ScaleAction = FixedRange(lo: int, hi: int) | AutoRange | Hidden

  function CurrentScaleActions(mask: seq<bool>, text: string): (r: seq<ScaleAction>)
    requires |mask| == 7
    ensures |r| == 3
    ensures forall i :: 0 <= i < 3 ==>
      (r[i] == Hidden <==> !mask[i + 3]) &&
      (r[i].FixedRange? <==> mask[i + 3] && CurrentScale(text).Some?) &&
      (r[i].FixedRange? ==> r[i].lo == -r[i].hi && r[i].hi == CurrentScale(text).value)
  {
    var limit := CurrentScale(text);
    seq(3, i requires 0 <= i < 3 =>
      if !mask[i + 3] then Hidden
      else if limit.Some? then FixedRange(-(limit.value as int), limit.value)
      else AutoRange)
  }

  class SignalsView {
    /** current_current_table_timestamp_list. */
    var timestamps: seq<int>
    /** current_rec_num, 1-based (0 when there is no record). */
    var recNum: int
    var device: string
    var colnames: seq<string>
    /** Whether a record's data is held (current_data is non-empty). */
    var hasData: bool
    var channelMask: seq<bool>
    /** The timestamps select_and_plot_record asked the database for. */
    var requests: seq<int>

    predicate Valid()
      reads this
    {
      0 <= recNum <= |timestamps| && |channelMask| == 7
    }

    constructor ()
      ensures Valid()
      ensures timestamps == [] && recNum == 0 && device == [] && colnames == [] && !hasData
      ensures channelMask == [true, true, true, true, true, true, true] && requests == []
    {
      timestamps := [];
      recNum := 0;
      device := [];
      colnames := [];
      hasData := false;
      channelMask := [true, true, true, true, true, true, true];
      requests := [];
    }

    function Buttons(): Buttons
      reads this
    {
      ButtonStates(device, colnames, timestamps, recNum, hasData)
    }

    /** Whether the navigation handlers act at all. */
    predicate Ready()
      reads this
    {
      |timestamps| >= 1 && |device| >= 3 && |colnames| >= 2
    }

    /** set_current_table_timestamp_list: a new list selects its first
        record, or none when it is empty. */
    method SetTimestampList(list: seq<int>)
      requires Valid()
      modifies this
      ensures Valid()
      ensures timestamps == list && recNum == (if list != [] then 1 else 0)
      ensures device == old(device) && colnames == old(colnames) && hasData == old(hasData)
      ensures channelMask == old(channelMask) && requests == old(requests)
    {
      timestamps := list;
      if list != [] {
        recNum := 1;
      } else {
        recNum := 0;
      }
    }

    /** select_and_plot_record: only a record number in 1..len requests
        its timestamp. */
    method SelectAndPlotRecord(num: int)
      modifies this
      ensures 1 <= num <= |timestamps| ==> requests == old(requests) + [timestamps[num - 1]]
      ensures !(1 <= num <= |timestamps|) ==> requests == old(requests)
      ensures timestamps == old(timestamps) && recNum == old(recNum) && device == old(device)
      ensures colnames == old(colnames) && hasData == old(hasData) && channelMask == old(channelMask)
    {
      if |timestamps| < 1 || num < 1 || num > |timestamps| {
        return;
      }
      requests := requests + [timestamps[num - 1]];
    }

    /** firstButton_clicked, reachable only while the button is enabled,
        so with a non-empty list. */
    method FirstClicked()
      requires Valid() && |timestamps| > 0
      modifies this
      ensures Valid() && recNum == 1 && requests == old(requests) + [timestamps[0]]
      ensures timestamps == old(timestamps) && device == old(device) && colnames == old(colnames)
      ensures hasData == old(hasData) && channelMask == old(channelMask)
    {
      recNum := 1;
      SelectAndPlotRecord(1);
    }

    /** lastButton_clicked. */
    method LastClicked()
      requires Valid()
      modifies this
      ensures Valid() && recNum == |timestamps|
      ensures requests == old(requests) + (if timestamps != [] then [timestamps[|timestamps| - 1]] else [])
      ensures timestamps == old(timestamps) && device == old(device) && colnames == old(colnames)
      ensures hasData == old(hasData) && channelMask == old(channelMask)
    {
      recNum := |timestamps|;
      SelectAndPlotRecord(|timestamps|);
    }

    /** rightButton_clicked: a step that is not a positive number does
        nothing; otherwise the step is cut to what is left before the last
        record, and a step of zero after that does nothing. */
    method RightClicked(stepText: string)
      requires Valid()
      modifies this
      ensures Valid()
      ensures var step := StepValue(stepText);
        if Ready() && step >= 1 && old(recNum) < |timestamps| then
          recNum == old(recNum) + Min(step, |timestamps| - old(recNum)) &&
          requests == old(requests) + [timestamps[recNum - 1]]
        else recNum == old(recNum) && requests == old(requests)
      ensures timestamps == old(timestamps) && device == old(device) && colnames == old(colnames)
      ensures hasData == old(hasData) && channelMask == old(channelMask)
    {
      var step := StepValue(stepText);
      if |timestamps| < 1 || |device| < 3 || |colnames| < 2 || step < 1 {
        return;
      }
      var total := |timestamps|;
      if step > total - recNum {
        step := total - recNum;
      }
      if step == 0 {
        return;
      }
      var num := recNum + step;
      recNum := num;
      SelectAndPlotRecord(num);
    }

    /** leftButton_clicked as written: a step larger than the record
        number is cut to one less than it, but a step equal to it is kept,
        so the record number drops to 0 and no record is requested. */
    method LeftClickedAsWritten(stepText: string)
      requires Valid()
      modifies this
      ensures Valid()
      ensures var step := StepValue(stepText);
        if Ready() && step >= 1 && old(recNum) > 1 then
          recNum == (if step > old(recNum) then 1 else old(recNum) - step) &&
          requests == old(requests) + (if recNum >= 1 then [timestamps[recNum - 1]] else [])
        else if Ready() && step >= 1 && old(recNum) == 1 then
          recNum == (if step == 1 then 0 else 1) && requests == old(requests)
        else if Ready() && step >= 1 && old(recNum) == 0 then
          recNum == 1 && requests == old(requests) + [timestamps[0]]
        else recNum == old(recNum) && requests == old(requests)
      ensures timestamps == old(timestamps) && device == old(device) && colnames == old(colnames)
      ensures hasData == old(hasData) && channelMask == old(channelMask)
    {
      var step := StepValue(stepText);
      if |timestamps| < 1 || |device| < 3 || |colnames| < 2 || step < 1 {
        return;
      }
      if step > recNum {
        step := recNum - 1;
      }
      if step == 0 {
        return;
      }
      var num := recNum - step;
      recNum := num;
      SelectAndPlotRecord(num);
    }

    /** leftButton_clicked with a step reaching the first record cut to
        land on record 1, so the record number never leaves 1..len and a
        successful step always requests a record. */
    method LeftClicked(stepText: string)
      requires Valid()
      modifies this
      ensures Valid()
      ensures var step := StepValue(stepText);
        if Ready() && step >= 1 && old(recNum) > 1 then
          recNum == Max(1, old(recNum) - step) && requests == old(requests) + [timestamps[recNum - 1]]
        else recNum == old(recNum) && requests == old(requests)
      ensures old(recNum) >= 1 ==> recNum >= 1
      ensures timestamps == old(timestamps) && device == old(device) && colnames == old(colnames)
      ensures hasData == old(hasData) && channelMask == old(channelMask)
    {
      var step := StepValue(stepText);
      if |timestamps| < 1 || |device| < 3 || |colnames| < 2 || step < 1 {
        return;
      }
      if step >= recNum {
        step := recNum - 1;
      }
      if step <= 0 {
        return;
      }
      var num := recNum - step;
      recNum := num;
      SelectAndPlotRecord(num);
    }

    /** rec_num_edited: only a record number in 1..len is taken. */
    method RecNumEdited(text: string)
      requires Valid()
      modifies this
      ensures Valid()
      ensures var num := StepValue(text);
        if Ready() && 1 <= num <= |timestamps| then
          recNum == num && requests == old(requests) + [timestamps[num - 1]]
        else recNum == old(recNum) && requests == old(requests)
      ensures timestamps == old(timestamps) && device == old(device) && colnames == old(colnames)
      ensures hasData == old(hasData) && channelMask == old(channelMask)
    {
      var num := StepValue(text);
      var last := |timestamps|;
      if last < 1 || |device| < 3 || |colnames| < 2 || num < 1 || num > last {
        return;
      }
      recNum := num;
      SelectAndPlotRecord(num);
    }

    /** set_timestamp_from_trends (and the date dialog): go to the first
        record nearest to the given time. */
    method SetTimestampFromTrends(ts: int)
      requires Valid()
      modifies this
      ensures Valid()
      ensures device != [] && colnames != [] && timestamps != [] ==>
        recNum == FirstNearest(timestamps, ts) + 1 &&
        requests == old(requests) + [timestamps[recNum - 1]] &&
        (forall j :: 0 <= j < |timestamps| ==> Dist(timestamps[recNum - 1], ts) <= Dist(timestamps[j], ts))
      ensures !(device != [] && colnames != [] && timestamps != []) ==>
        recNum == old(recNum) && requests == old(requests)
      ensures timestamps == old(timestamps) && device == old(device) && colnames == old(colnames)
      ensures hasData == old(hasData) && channelMask == old(channelMask)
    {
      if device != [] && colnames != [] && timestamps != [] {
        var closestIndex := FirstNearest(timestamps, ts) + 1;
        recNum := closestIndex;
        SelectAndPlotRecord(closestIndex);
      }
    }

    /** check_bool_mask. */
    function CheckBoolMask(i: nat): (r: bool)
      reads this
      ensures r <==> i < |channelMask| && channelMask[i]
    {
      if i < |channelMask| then channelMask[i] else false
    }

    /** on_channel_filter_changed: entry i of the mask becomes entry i+1
        of the 8-entry mask the filter text parses to, so blank text shows
        every channel and otherwise channel i is shown exactly when a
        diapason of the text covers i+1. */
    method OnChannelFilterChanged(text: string)
      requires Valid()
      modifies this
      ensures Valid()
      ensures Blankless(text) == [] ==> forall i :: 0 <= i < 7 ==> channelMask[i]
      ensures Blankless(text) != [] ==>
        forall i :: 0 <= i < 7 ==> (channelMask[i] <==> RangeParse.Covered(RangeParse.AcceptedDiapasons(text), i + 1))
      ensures timestamps == old(timestamps) && recNum == old(recNum) && device == old(device)
      ensures colnames == old(colnames) && hasData == old(hasData) && requests == old(requests)
    {
      var parsed := RangeParse.CipherDiapasonsToBoolmask(text, 8);
      var mask := parsed[1..];
      var i := 0;
      while i < |channelMask|
        invariant 0 <= i <= 7 && |channelMask| == 7
        invariant forall k :: 0 <= k < i ==> channelMask[k] == mask[k]
        invariant timestamps == old(timestamps) && recNum == old(recNum) && device == old(device)
        invariant colnames == old(colnames) && hasData == old(hasData) && requests == old(requests)
      {
        if i > |mask| - 1 {
          i := i + 1;
          continue;
        }
        channelMask := channelMask[i := mask[i]];
        i := i + 1;
      }
    }
  }

  /** Record 3 of five with a step of 3, as written: the record number
      becomes 0 and nothing is requested. */
  method LeftStepToZero() returns (recNum: int, requested: nat)
    ensures recNum == 0 && requested == 0
  {
    var v := new SignalsView();
    v.device := "logger_1";
    v.colnames := ["timestamp", "points"];
    v.SetTimestampList([10, 20, 30, 40, 50]);
    v.recNum := 3;
    assert IsDigits("3");
    v.LeftClickedAsWritten("3");
    recNum, requested := v.recNum, |v.requests|;
  }

  /** The same step with the cut applied lands on record 1 and requests
      it. */
  method LeftStepToFirst() returns (recNum: int, requested: seq<int>)
    ensures recNum == 1 && requested == [10]
  {
    var v := new SignalsView();
    v.device := "logger_1";
    v.colnames := ["timestamp", "points"];
    v.SetTimestampList([10, 20, 30, 40, 50]);
    v.recNum := 3;
    assert IsDigits("3");
    v.LeftClicked("3");
    recNum, requested := v.recNum, v.requests;
  }
}

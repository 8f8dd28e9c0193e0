/** The device table of the 15.09 records window: a table model holding
    the full list of device rows and the displayed (filtered) list, and the
    window's width toggle.

    The model's constructor binds both lists to the same Python list, so
    until the first filter an insertion lands twice in that one list and a
    removal deletes from it.  The class keeps the two lists as values plus
    a flag saying whether they are still one list. */
module RecordsTable {
  import opened Common

  /** One table row: device, coordinates, record count, first and last
      record; only the device name (column 0) matters here. */
  type Row = seq<string>

  /** Python's list.insert(i, x): a negative index counts from the end,
      and the index is clamped to the list. */
  function PyInsert(xs: seq<Row>, i: int, x: Row): (r: seq<Row>)
    ensures |r| == |xs| + 1
    ensures var k := if i < 0 then Max(i + |xs|, 0) else Min(i, |xs|);
      r == xs[..k] + [x] + xs[k..]
  {
    var k := if i < 0 then Max(i + |xs|, 0) else Min(i, |xs|);
    xs[..k] + [x] + xs[k..]
  }

  /** Whether a row's device name contains the search text, ignoring
      ASCII case. */
  predicate Matches(row: Row, text: string)
    requires |row| > 0
  {
    Contains(Lower(row[0]), Lower(text))
  }

  predicate AllNamed(rows: seq<Row>)
  {
    forall r :: r in rows ==> |r| > 0
  }

  /** [row for row in rows if text.lower() in row[0].lower()]. */
  function Matching(rows: seq<Row>, text: string): (r: seq<Row>)
    requires AllNamed(rows)
    ensures AllNamed(r) && |r| <= |rows|
    ensures forall x :: x in r <==> x in rows && Matches(x, text)
  {
    if rows == [] then []
    else (if Matches(rows[0], text) then [rows[0]] else []) + Matching(rows[1..], text)
  }

  /** Filtering keeps the original order: it distributes over
      concatenation. */
  lemma {:induction false} MatchingAppend(a: seq<Row>, b: seq<Row>, text: string)
    requires AllNamed(a) && AllNamed(b)
    ensures AllNamed(a + b)
    ensures Matching(a + b, text) == Matching(a, text) + Matching(b, text)
  {
    if a != [] {
      assert (a + b)[1..] == a[1..] + b;
      MatchingAppend(a[1..], b, text);
    } else {
      assert a + b == b;
    }
  }

  /** Filtering filtered rows again changes nothing. */
  lemma {:induction false} MatchingIdempotent(rows: seq<Row>, text: string)
    requires AllNamed(rows)
    ensures Matching(Matching(rows, text), text) == Matching(rows, text)
  {
    if rows != [] {
      MatchingIdempotent(rows[1..], text);
      var head: seq<Row> := if Matches(rows[0], text) then [rows[0]] else [];
      MatchingAppend(head, Matching(rows[1..], text), text);
      if Matches(rows[0], text) {
        assert Matching(head, text) == [rows[0]] + Matching([], text);
      }
    }
  }

  /** Inserting a named row keeps every row named. */
  lemma PyInsertNamed(xs: seq<Row>, i: int, x: Row)
    requires AllNamed(xs) && |x| > 0
    ensures AllNamed(PyInsert(xs, i, x))
  {
    var r := PyInsert(xs, i, x);
    forall y | y in r
      ensures |y| > 0
    {
      var k := if i < 0 then Max(i + |xs|, 0) else Min(i, |xs|);
      assert y in xs[..k] || y == x || y in xs[k..];
    }
  }

  /** Inserting the same row twice into an empty list gives it twice. */
  lemma PyInsertTwiceEmpty(i: int, x: Row)
    ensures PyInsert(PyInsert([], i, x), i, x) == [x, x]
  {
    assert PyInsert([], i, x) == [x];
  }

  class RecordsTableModel {
    /** _full_data. */
    var full: seq<Row>
    /** _data, the displayed rows. */
    var shown: seq<Row>
    /** Whether _full_data and _data are still the same list. */
    var shared: bool

    predicate Valid()
      reads this
    {
      AllNamed(full) && AllNamed(shown) && (shared ==> full == shown)
    }

    /** RecordsTableModel(data) as written: both names refer to the
        caller's list. */
    constructor (data: seq<Row>)
      requires AllNamed(data)
      ensures Valid() && full == data && shown == data && shared
    {
      full, shown, shared := data, data, true;
    }

    /** rowCount: no children under a valid parent, otherwise the
        displayed rows. */
    function RowCount(parentValid: bool): (r: nat)
      reads this
      ensures parentValid ==> r == 0
      ensures !parentValid ==> r == |shown|
    {
      if parentValid then 0 else |shown|
    }

    /** columnCount: the width of the first displayed row, or 0. */
    function ColumnCount(): (r: nat)
      requires Valid()
      reads this
      ensures r == 0 <==> shown == []
      ensures shown != [] ==> r == |shown[0]|
    {
      if shown != [] then |shown[0]| else 0
    }

    /** insertRow: the row goes to the same position of the full list and
        of the displayed list, which is twice into one list while they
        are shared. */
    method InsertRow(row: int, data: Row)
      requires Valid() && |data| > 0
      modifies this
      ensures Valid() && shared == old(shared)
      ensures !shared ==> full == PyInsert(old(full), row, data) && shown == PyInsert(old(shown), row, data)
      ensures shared ==> full == PyInsert(PyInsert(old(full), row, data), row, data)
      ensures shared && old(full) == [] ==> full == [data, data]
    {
      if shared {
        var list := PyInsert(full, row, data);
        PyInsertNamed(full, row, data);
        PyInsertNamed(list, row, data);
        if full == [] {
          PyInsertTwiceEmpty(row, data);
        }
        list := PyInsert(list, row, data);
        full, shown := list, list;
      } else {
        PyInsertNamed(full, row, data);
        PyInsertNamed(shown, row, data);
        full := PyInsert(full, row, data);
        shown := PyInsert(shown, row, data);
      }
    }

    /** insertRow inserting once into the shared list: the full list and
        the displayed list each gain the row exactly once. */
    method InsertRowOnce(row: int, data: Row)
      requires Valid() && |data| > 0
      modifies this
      ensures Valid() && shared == old(shared)
      ensures full == PyInsert(old(full), row, data) && shown == PyInsert(old(shown), row, data)
    {
      full := PyInsert(full, row, data);
      if shared {
        shown := full;
      } else {
        shown := PyInsert(shown, row, data);
      }
    }

    /** removeRows: `count` times, delete the displayed row at `row`; the
        rows before and after keep their order.  While the lists are
        shared the full list loses them too. */
    method RemoveRows(row: nat, count: nat)
      requires Valid() && row + count <= |shown|
      modifies this
      ensures Valid() && shared == old(shared)
      ensures shown == old(shown)[..row] + old(shown)[row + count..]
      ensures full == if shared then shown else old(full)
    {
      ghost var before := shown;
      for i := 0 to count
        invariant shown == before[..row] + before[row + i..]
        invariant shared ==> full == shown
        invariant !shared ==> full == old(full)
        invariant shared == old(shared)
        invariant AllNamed(full) && AllNamed(shown)
      {
        shown := shown[..row] + shown[row + 1..];
        assert shown == before[..row] + before[row + i + 1..];
        if shared {
          full := shown;
        }
      }
    }

    /** filter_by_device: empty text shows a copy of all rows, other text
        the rows whose device contains it, in order.  Either way the
        displayed list is a new list. */
    method FilterByDevice(text: string)
      requires Valid()
      modifies this
      ensures Valid() && !shared && full == old(full)
      ensures text == [] ==> shown == full
      ensures text != [] ==> shown == Matching(full, text)
    {
      if text == [] {
        shown := full;
      } else {
        shown := Matching(full, text);
      }
      shared := false;
    }
  }

  /** The records window starting up: the model is built on a placeholder
      row that is removed at once, then each device row is appended at the
      end and the (empty) search filter re-applied.  As written the first
      device is shown twice; inserting once into the shared list shows each
      device once. */
  method LoadDevices(devices: seq<Row>, insertOnce: bool) returns (shown: seq<Row>)
    requires AllNamed(devices)
    ensures insertOnce ==> shown == devices
    ensures !insertOnce && devices != [] ==> shown == [devices[0]] + devices
    ensures !insertOnce && devices == [] ==> shown == []
  {
    var placeholder: Row := ["1", "2", "3", "4", "5"];
    var model := new RecordsTableModel([placeholder]);
    var cnt := model.RowCount(false);
    model.RemoveRows(cnt - 1, 1);
    assert [placeholder][1..] == [];
    for i := 0 to |devices|
      invariant model.Valid() && model.full == model.shown
      invariant model.shared <==> i == 0
      invariant insertOnce || i == 0 ==> model.shown == devices[..i]
      invariant !insertOnce && i > 0 ==> model.shown == [devices[0]] + devices[..i]
    {
      assert devices[i] in devices;
      AppendDevice(model, devices[i], insertOnce);
      assert devices[..i + 1] == devices[..i] + [devices[i]];
    }
    assert devices[..|devices|] == devices;
    shown := model.shown;
  }

  /** One device of the start-up loop: insert its row after the last one,
      then re-apply the empty filter, which gives the view its own list.
      Into the shared empty list the as-written insert lands twice. */
  method AppendDevice(model: RecordsTableModel, device: Row, insertOnce: bool)
    requires model.Valid() && model.full == model.shown && |device| > 0
    requires model.shared ==> model.full == []
    modifies model
    ensures model.Valid() && !model.shared && model.full == model.shown
    ensures model.shown == old(model.shown) + (if old(model.shared) && !insertOnce then [device, device] else [device])
  {
    if insertOnce {
      model.InsertRowOnce(model.RowCount(false), device);
    } else {
      model.InsertRow(model.RowCount(false), device);
    }
    model.FilterByDevice("");
  }

  /** The width the records window shrinks to: room for the first column
      and the button, never under 200. */
  function MinimizedWidth(firstColumnWidth: int): (w: int)
    ensures w >= 200 && w >= firstColumnWidth + 70
    ensures w == 200 || w == firstColumnWidth + 70
  {
    Max(firstColumnWidth + 70, 200)
  }

  class RecordsWindow {
    var isMinimized: bool
    var minimumWidth: int
    var width: int

    constructor ()
      ensures !isMinimized && minimumWidth == 200 && width == 300
    {
      isMinimized := false;
      minimumWidth := 200;
      width := 300;
    }

    /** toggle_resize: shrink to the first column, or back to a third of
        the workspace; each call flips the state.  `resize` never goes
        below the minimum width set just before it, so a narrow workspace
        restores to 200. */
    method ToggleResize(firstColumnWidth: int, workspaceWidth: int)
      modifies this
      ensures isMinimized == !old(isMinimized)
      ensures isMinimized ==> minimumWidth == width == MinimizedWidth(firstColumnWidth)
      ensures !isMinimized ==> minimumWidth == 200 && width == Max(workspaceWidth / 3, 200)
      ensures width >= minimumWidth
    {
      var minWidth := Max(firstColumnWidth + 70, 200);
      if !isMinimized {
        minimumWidth := minWidth;
        width := minWidth;
        isMinimized := true;
      } else {
        var targetWidth := workspaceWidth / 3;
        minimumWidth := 200;
        width := Max(targetWidth, minimumWidth);
        isMinimized := false;
      }
    }
  }
}

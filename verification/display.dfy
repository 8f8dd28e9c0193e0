/** The console views of the database tool: which of a logger's records
    and timestamps each display command shows, and in what order.  The
    printed text is modelled as a sequence of lines, each naming what it
    shows; the wording, the ", " joining and the grid formatting are
    presentation. */
module Display {
  import opened Common

  /** One stored record of a logger. */
  datatype Item = Item(timestamp: int, datetime: string, adcVersion: int, points: int, addData: seq<int>)

  /** A logger's answer from the database: its IMEI and its records. */
  datatype LoggerData = LoggerData(imei: string, data: seq<Item>)

  /** One requested timestamp: a number, or a value int() rejects. */
  datatype Request = Number(value: int) | Unparsable(text: string)

  datatype Line =
    | NoData                                  // no logger or no records
    | NoTimestampData                         // the same, in the timestamps listing
    | RecordMissing                           // display_single_data given nothing
    | Table(rows: seq<Item>)                  // the grid of all records
    | Details(item: Item)                     // one record's fields
    | CountHeader(imei: string, count: nat)   // heading of the full listing
    | LastHeader(imei: string)                // heading of the last-five listing
    | RangeHeader(lo: int, hi: int, count: nat)
    | StampLine(ts: seq<int>)                 // one printed line of timestamps
    | EmptyRange                              // nothing between the bounds
    | BadFormat(text: string)
    | NotFound(missing: int)
    | NothingFound                            // no requested timestamp matched

  /** `not logger_data or not logger_data['data']` fails. */
  predicate HasData(ld: Option<LoggerData>)
  {
    ld.Some? && ld.value.data != []
  }

  /** The records' timestamps, in stored order. */
  function Stamps(items: seq<Item>): (r: seq<int>)
    ensures |r| == |items|
    ensures forall i :: 0 <= i < |items| ==> r[i] == items[i].timestamp
  {
    seq(|items|, i requires 0 <= i < |items| => items[i].timestamp)
  }

  /** The timestamps a printed line carries. */
  function Carried(l: Line): seq<int>
  {
    if l.StampLine? then l.ts else []
  }

  /** The timestamps carried by the listing lines, in order. */
  function Joined(lines: seq<Line>): seq<int>
  {
    if lines == [] then [] else Carried(lines[0]) + Joined(lines[1..])
  }

  lemma {:induction false} JoinedAppend(lines: seq<Line>, l: Line)
    ensures Joined(lines + [l]) == Joined(lines) + Carried(l)
  {
    if lines == [] {
      assert [l][1..] == [];
      assert Joined([l]) == Carried(l) + Joined([]);
    } else {
      var rest := lines + [l];
      assert rest[0] == lines[0];
      assert rest[1..] == lines[1..] + [l];
      JoinedAppend(lines[1..], l);
      var a, b, c := Carried(lines[0]), Joined(lines[1..]), Carried(l);
      assert Joined(rest) == a + (b + c);
      assert Joined(lines) == a + b;
      assert a + (b + c) == (a + b) + c;
    }
  }

  /** Every line after the heading lists between one and five timestamps. */
  predicate Grouped(lines: seq<Line>)
  {
    forall k :: 0 <= k < |lines| ==> lines[k].StampLine? && 0 < |lines[k].ts| <= 5
  }

  /** display_all_data: the grid of all records, or the no-data line. */
  function AllData(ld: Option<LoggerData>): (out: seq<Line>)
    ensures |out| == 1
    ensures out[0] == NoData <==> !HasData(ld)
    ensures HasData(ld) ==> out[0].Table? && out[0].rows == ld.value.data
  {
    if !HasData(ld) then [NoData] else [Table(ld.value.data)]
  }

  /** display_single_data: a record's fields, or the not-found line when
      there is none. */
  function SingleData(data: Option<Item>): (out: Line)
    ensures out == RecordMissing <==> data.None?
    ensures data.Some? ==> out.Details? && out.item == data.value
  {
    if data.None? then RecordMissing else Details(data.value)
  }

  /** The loop `for i in range(0, len(ts), 5)` printing ts[i:i + 5]: the
      lines hold five timestamps each except possibly the last, and
      together they give back the whole list. */
  method GroupsOfFive(ts: seq<int>) returns (lines: seq<Line>)
    ensures Joined(lines) == ts
    ensures Grouped(lines)
    ensures |lines| == (|ts| + 4) / 5
    ensures FullGroups(lines, |lines| - 1)
  {
    lines := [];
    var i := 0;
    while i < |ts|
      invariant i == 5 * |lines| && i < |ts| + 5
      invariant Joined(lines) == ts[..Min(i, |ts|)]
      invariant Grouped(lines) && FullGroups(lines, |lines| - 1)
      invariant i <= |ts| ==> FullGroups(lines, |lines|)
    {
      GroupStep(ts, lines, i);
      lines := lines + [StampLine(ts[i..Min(i + 5, |ts|)])];
      i := i + 5;
    }
    assert ts[..|ts|] == ts;
  }

  /** The first n lines each carry exactly five timestamps. */
  predicate FullGroups(lines: seq<Line>, n: int)
  {
    forall k :: 0 <= k < n && k < |lines| ==> |Carried(lines[k])| == 5
  }

  /** One pass of the grouping loop: printing ts[i:i + 5] after the full
      groups before i extends the listing by the next slice. */
  lemma GroupStep(ts: seq<int>, lines: seq<Line>, i: nat)
    requires i == 5 * |lines| && i < |ts|
    requires Joined(lines) == ts[..i] && Grouped(lines) && FullGroups(lines, |lines|)
    ensures var next := lines + [StampLine(ts[i..Min(i + 5, |ts|)])];
      Joined(next) == ts[..Min(i + 5, |ts|)] && Grouped(next)
      && FullGroups(next, |next| - 1) && (i + 5 <= |ts| ==> FullGroups(next, |next|))
  {
    var line := ts[i..Min(i + 5, |ts|)];
    JoinedAppend(lines, StampLine(line));
    assert ts[..i] + line == ts[..Min(i + 5, |ts|)];
  }

  /** display_all_timestamps: a heading with the logger and the count,
      then every timestamp in stored order, five to a line. */
  method AllTimestamps(ld: Option<LoggerData>) returns (out: seq<Line>)
    ensures !HasData(ld) ==> out == [NoTimestampData]
    ensures HasData(ld) ==> |out| == 1 + (|ld.value.data| + 4) / 5
    ensures HasData(ld) ==> |out| >= 1 && out[0] == CountHeader(ld.value.imei, |ld.value.data|)
    ensures HasData(ld) ==> Joined(out[1..]) == Stamps(ld.value.data) && Grouped(out[1..])
  {
    if !HasData(ld) {
      return [NoTimestampData];
    }
    var timestamps := Stamps(ld.value.data);
    var lines := GroupsOfFive(timestamps);
    out := [CountHeader(ld.value.imei, |timestamps|)] + lines;
    assert out[1..] == lines;
  }

  /** `data[-5:]`: the last five records, or all of them when fewer. */
  function LastFive(items: seq<Item>): (r: seq<Item>)
    ensures |r| == Min(5, |items|)
    ensures items == items[..|items| - |r|] + r
  {
    if |items| <= 5 then items else items[|items| - 5..]
  }

  /** display_last_5_timestamps: a heading and one line with the final
      min(5, n) timestamps, in stored order. */
  function LastTimestamps(ld: Option<LoggerData>): (out: seq<Line>)
    ensures !HasData(ld) ==> out == [NoData]
    ensures HasData(ld) ==> |out| == 2 && out[0] == LastHeader(ld.value.imei) && out[1].StampLine?
    ensures (HasData(ld) ==>
      var n := |ld.value.data|;
      |out[1].ts| == Min(5, n) && out[1].ts == Stamps(ld.value.data)[n - Min(5, n)..])
  {
    if !HasData(ld) then [NoData]
    else
      var items := ld.value.data;
      var last := LastFive(items);
      assert Stamps(last) == Stamps(items)[|items| - |last|..];
      [LastHeader(ld.value.imei), StampLine(Stamps(last))]
  }

  /** The timestamps t with lo <= t <= hi, in stored order. */
  function InRange(items: seq<Item>, lo: int, hi: int): (r: seq<int>)
    ensures |r| <= |items|
    ensures forall t :: t in r ==> lo <= t <= hi
    ensures forall i :: 0 <= i < |items| && lo <= items[i].timestamp <= hi ==> items[i].timestamp in r
    ensures forall t :: t in r ==> t in Stamps(items)
  {
    if items == [] then []
    else
      var rest := InRange(items[1..], lo, hi);
      assert forall i :: 1 <= i < |items| ==> items[1..][i - 1] == items[i];
      assert forall t :: t in Stamps(items[1..]) ==> t in Stamps(items) by {
        assert Stamps(items[1..]) == Stamps(items)[1..];
      }
      (if lo <= items[0].timestamp <= hi then [items[0].timestamp] else []) + rest
  }

  /** Selecting a range keeps the stored order: it distributes over
      concatenation. */
  lemma {:induction false} InRangeAppend(a: seq<Item>, b: seq<Item>, lo: int, hi: int)
    ensures InRange(a + b, lo, hi) == InRange(a, lo, hi) + InRange(b, lo, hi)
  {
    if a == [] {
      assert a + b == b;
    } else {
      assert (a + b)[1..] == a[1..] + b;
      InRangeAppend(a[1..], b, lo, hi);
    }
  }

  /** display_timestamps_in_range: the no-data line, the empty-range line
      when nothing lies between the bounds, or a heading with the count
      and the selected timestamps five to a line. */
  method TimestampsInRange(ld: Option<LoggerData>, lo: int, hi: int) returns (out: seq<Line>)
    ensures !HasData(ld) ==> out == [NoData]
    ensures HasData(ld) && InRange(ld.value.data, lo, hi) == [] ==> out == [EmptyRange]
    ensures (HasData(ld) && InRange(ld.value.data, lo, hi) != [] ==>
      |out| >= 1 && out[0] == RangeHeader(lo, hi, |InRange(ld.value.data, lo, hi)|)
      && Joined(out[1..]) == InRange(ld.value.data, lo, hi) && Grouped(out[1..]))
  {
    if !HasData(ld) {
      return [NoData];
    }
    var timestamps := InRange(ld.value.data, lo, hi);
    if timestamps == [] {
      return [EmptyRange];
    }
    var lines := GroupsOfFive(timestamps);
    out := [RangeHeader(lo, hi, |timestamps|)] + lines;
    assert out[1..] == lines;
  }

  /** `{item['timestamp']: item for item in data}`: every stored timestamp
      is a key, and each key maps to a record with that timestamp. */
  function DataMap(items: seq<Item>): (m: map<int, Item>)
    ensures forall i :: 0 <= i < |items| ==> items[i].timestamp in m
    ensures forall k :: k in m ==> m[k] in items && m[k].timestamp == k
  {
    if items == [] then map[]
    else
      var init := items[..|items| - 1];
      var last := items[|items| - 1];
      assert forall i :: 0 <= i < |items| - 1 ==> init[i] == items[i];
      assert forall x :: x in init ==> x in items;
      DataMap(init)[last.timestamp := last]
  }

  /** Among records sharing a timestamp, the last one stored is the one
      the map keeps. */
  lemma {:induction false} DataMapLastWins(items: seq<Item>, i: nat)
    requires i < |items|
    requires forall j :: i < j < |items| ==> items[j].timestamp != items[i].timestamp
    ensures DataMap(items)[items[i].timestamp] == items[i]
  {
    if i < |items| - 1 {
      var init := items[..|items| - 1];
      assert init[i] == items[i];
      assert forall j :: i < j < |init| ==> init[j] == items[j];
      DataMapLastWins(init, i);
    }
  }

  /** What is printed for one requested timestamp. */
  function Answer(m: map<int, Item>, r: Request): (l: Line)
    ensures r.Unparsable? ==> l == BadFormat(r.text)
    ensures r.Number? && r.value in m ==> l == Details(m[r.value])
    ensures r.Number? && r.value !in m ==> l == NotFound(r.value)
  {
    match r
    case Unparsable(t) => BadFormat(t)
    case Number(v) => if v in m then SingleData(Some(m[v])) else NotFound(v)
  }

  /** A request for a stored timestamp. */
  predicate Found(m: map<int, Item>, r: Request)
  {
    r.Number? && r.value in m
  }

  /** Some requested timestamp is stored. */
  predicate AnyFound(m: map<int, Item>, requests: seq<Request>)
  {
    exists i :: 0 <= i < |requests| && Found(m, requests[i])
  }

  /** display_data_by_timestamps_list: one answer per request, in request
      order, followed by the nothing-found line exactly when no request
      matched a stored record. */
  method ByTimestamps(ld: Option<LoggerData>, requests: seq<Request>) returns (out: seq<Line>)
    ensures !HasData(ld) ==> out == [NoData]
    ensures (HasData(ld) ==>
      var m := DataMap(ld.value.data);
      |out| == |requests| + (if AnyFound(m, requests) then 0 else 1)
      && (forall i :: 0 <= i < |requests| ==> out[i] == Answer(m, requests[i]))
      && (NothingFound in out <==> !AnyFound(m, requests)))
  {
    if !HasData(ld) {
      return [NoData];
    }
    var m := DataMap(ld.value.data);
    var foundAny;
    out, foundAny := AnswerEach(m, requests);
    if !foundAny {
      out := out + [NothingFound];
    }
  }

  /** The loop of display_data_by_timestamps_list: one answer per request,
      in order, and whether any request named a stored record.  No answer
      is the nothing-found line. */
  method AnswerEach(m: map<int, Item>, requests: seq<Request>) returns (out: seq<Line>, foundAny: bool)
    ensures |out| == |requests| && NothingFound !in out
    ensures forall i :: 0 <= i < |requests| ==> out[i] == Answer(m, requests[i])
    ensures foundAny == AnyFound(m, requests)
  {
    foundAny := false;
    out := [];
    for i := 0 to |requests|
      invariant |out| == i
      invariant forall j :: 0 <= j < i ==> out[j] == Answer(m, requests[j])
      invariant foundAny <==> exists j :: 0 <= j < i && Found(m, requests[j])
    {
      ghost var before := out;
      match requests[i]
      case Unparsable(t) =>
        out := out + [BadFormat(t)];
      case Number(v) =>
        if v in m {
          out := out + [SingleData(Some(m[v]))];
          foundAny := true;
        } else {
          out := out + [NotFound(v)];
        }
      assert out == before + [Answer(m, requests[i])];
    }
    assert forall j :: 0 <= j < |out| ==> out[j] != NothingFound;
  }
}

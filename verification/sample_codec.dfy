/** The oscillogram sample block of one logger record and its decoder
    (LogRecord.get_signals), together with the byte helpers it relies on and
    the timestamp-length guard of the record-list query.

    A decoded block holds `npoints` samples of `channels` interleaved 3-byte
    cells after a 3-byte preamble.  Each cell is byte-reversed, read as a
    signed big-endian integer, and shifted right by two status bits.  The
    floating-point calibration that follows is not modelled: a decoded sample
    keeps the shifted integer and the calibration group (voltage or current)
    its channel position selects. */
module SampleCodec {
  import opened Common

  const PreambleSize: nat := 3
  const CellSize: nat := 3

  /** mask.count("1"): the number of active channels. */
  function CountOnes(mask: string): (r: nat)
    ensures r <= |mask|
    ensures r == 0 <==> forall i :: 0 <= i < |mask| ==> mask[i] != '1'
    ensures r == |mask| <==> forall i :: 0 <= i < |mask| ==> mask[i] == '1'
  {
    if mask == [] then 0
    else
      var rest := CountOnes(mask[1..]);
      assert forall i :: 1 <= i < |mask| ==> mask[i] == mask[1..][i - 1];
      (if mask[0] == '1' then 1 else 0) + rest
  }

  lemma {:induction false} CountOnesAppend(a: string, b: string)
    ensures CountOnes(a + b) == CountOnes(a) + CountOnes(b)
  {
    if a != [] {
      assert (a + b)[1..] == a[1..] + b;
      CountOnesAppend(a[1..], b);
    } else {
      assert a + b == b;
    }
  }

  /** bytestransforms.reverse_bytes_order on a byte string. */
  function ReverseBytes(b: seq<byte>): (r: seq<byte>)
    ensures |r| == |b|
    ensures forall i :: 0 <= i < |b| ==> r[i] == b[|b| - 1 - i]
  {
    seq(|b|, i requires 0 <= i < |b| => b[|b| - 1 - i])
  }

  lemma ReverseBytesInvolution(b: seq<byte>)
    ensures ReverseBytes(ReverseBytes(b)) == b
  {
    var r := ReverseBytes(ReverseBytes(b));
    assert forall i :: 0 <= i < |b| ==> r[i] == b[i];
  }

  /** The unsigned big-endian value of a byte string. */
  function UnsignedBig(b: seq<byte>): (r: nat)
    ensures r < Pow(256, |b|)
  {
    if b == [] then 0
    else
      var r0 := UnsignedBig(b[..|b| - 1]);
      assert Pow(256, |b|) == 256 * Pow(256, |b| - 1);
      r0 * 256 + b[|b| - 1] as int
  }

  /** The leading byte carries the weight 256^(n-1). */
  lemma {:induction false} UnsignedBigFront(b: seq<byte>)
    requires |b| > 0
    ensures UnsignedBig(b) == b[0] as int * Pow(256, |b| - 1) + UnsignedBig(b[1..])
  {
    if |b| > 1 {
      var init := b[..|b| - 1];
      var w := Pow(256, |b| - 2);
      var tail := UnsignedBig(init[1..]);
      var last := b[|b| - 1] as int;
      assert init[0] == b[0];
      assert init[1..] == b[1..][..|b[1..]| - 1];
      UnsignedBigFront(init);
      assert UnsignedBig(init) == b[0] as int * w + tail;
      assert b[1..][|b[1..]| - 1] == b[|b| - 1];
      assert UnsignedBig(b[1..]) == tail * 256 + last;
      assert UnsignedBig(b) == UnsignedBig(init) * 256 + last;
      assert Pow(256, |b| - 1) == 256 * w;
      ShiftLeading(b[0] as int, w, tail, last);
    } else {
      assert b[..0] == [];
      assert b[1..] == [];
    }
  }

  lemma ShiftLeading(x: int, w: int, tail: int, last: int)
    ensures (x * w + tail) * 256 + last == x * (256 * w) + (tail * 256 + last)
  {
  }

  lemma UnsignedBigTwo(x: byte, y: byte)
    ensures UnsignedBig([x, y]) == 256 * x as int + y as int
  {
    assert [x, y][..1] == [x];
    assert [x][..0] == [];
  }

  /** bytestransforms.bytesToIntBig: big-endian, two's complement over the
      whole width, the sign taken from the high bit of the first byte. */
  function BytesToIntBig(b: seq<byte>): int
    requires |b| > 0
  {
    if b[0] as int >= 128 then UnsignedBig(b) - Pow(256, |b|) else UnsignedBig(b)
  }

  /** The signed value always lies in the two's-complement range of the width,
      and it is negative exactly when the first byte has its top bit set. */
  lemma SignedBigRange(b: seq<byte>)
    requires |b| > 0
    ensures -128 * Pow(256, |b| - 1) <= BytesToIntBig(b) < 128 * Pow(256, |b| - 1)
    ensures BytesToIntBig(b) < 0 <==> b[0] as int >= 128
  {
    UnsignedBigFront(b);
    var w := Pow(256, |b| - 1);
    assert Pow(256, |b|) == 256 * w;
    LeadingWeight(b[0] as int, w, UnsignedBig(b[1..]));
  }

  /** Where a leading digit x of weight w puts the value x * w + rest. */
  lemma LeadingWeight(x: int, w: int, rest: int)
    requires 0 <= x < 256 && 0 <= rest < w
    ensures x >= 128 ==> 128 * w <= x * w + rest < 256 * w
    ensures x < 128 ==> 0 <= x * w + rest < 128 * w
  {
    if x >= 128 {
      assert (x - 128) * w >= 0;
      assert (255 - x) * w >= 0;
    } else {
      assert (127 - x) * w >= 0;
      assert x * w >= 0;
    }
  }

  lemma UnsignedBigThree(x: byte, y: byte, z: byte)
    ensures UnsignedBig([x, y, z]) == 65536 * x as int + 256 * y as int + z as int
  {
    assert [x, y, z][..2] == [x, y];
    assert [x, y][..1] == [x];
    assert [x][..0] == [];
    assert UnsignedBig([x]) == x as int;
    assert UnsignedBig([x, y]) == 256 * x as int + y as int;
  }

  /** The three little-endian bytes of v modulo 2^24. */
  function LittleEndian24(v: int): (r: seq<byte>)
    ensures |r| == 3
  {
    var u := v % 0x100_0000;
    [(u % 256) as byte, ((u / 256) % 256) as byte, (u / 65536) as byte]
  }

  /** Round trip of the cell format: any 24-bit signed value written
      little-endian decodes back to itself after reversal and signed
      big-endian reading. */
  lemma CellRoundTrip(v: int)
    requires -0x80_0000 <= v < 0x80_0000
    ensures BytesToIntBig(ReverseBytes(LittleEndian24(v))) == v
  {
    var u := v % 0x100_0000;
    var b := LittleEndian24(v);
    var x, y, z := (u / 65536) as byte, ((u / 256) % 256) as byte, (u % 256) as byte;
    assert ReverseBytes(b) == [x, y, z];
    UnsignedBigThree(x, y, z);
    assert u == 65536 * (u / 65536) + 256 * ((u / 256) % 256) + u % 256;
    assert Pow(256, 3) == 0x100_0000;
    if v < 0 {
      assert u == v + 0x100_0000;
    } else {
      assert u == v;
    }
  }

  /** Python's `x >> 2` on a signed integer: floor division by 4. */
  function ShiftRight2(x: int): (r: int)
    ensures 4 * r <= x < 4 * r + 4
  {
    x / 4
  }

  datatype Group = Voltage | Current

  /** One decoded sample: the calibration group its channel uses and the
      integer `adc_int >> 2` that the calibration scales. */
  datatype Sample = Sample(group: Group, raw: int)

  /** Channels 0, 1 and 2 are the voltage channels; all others are currents. */
  function GroupOf(j: nat): (g: Group)
    ensures g == Voltage <==> j < 3
  {
    if j < 3 then Voltage else Current
  }

  /** A logger record as the decoder sees it: the mask string, the sample
      count and the base64-decoded points. */
  datatype LogRecord = LogRecord(timestamp: int, mask: string, npoints: nat, points: seq<byte>)

  function Channels(rec: LogRecord): nat { CountOnes(rec.mask) }

  /** The number of bytes the size check demands. */
  function RequiredLength(rec: LogRecord): nat
  {
    rec.npoints * CellSize * Channels(rec) + PreambleSize
  }

  /** First byte of sample i, channel j. */
  function CellOffset(channels: nat, i: nat, j: nat): nat
  {
    i * CellSize * channels + PreambleSize + j * CellSize
  }

  /** After the size check every cell read is in bounds. */
  lemma CellInBounds(npoints: nat, channels: nat, i: nat, j: nat, len: nat)
    requires i < npoints && j < channels
    requires len >= npoints * CellSize * channels + PreambleSize
    ensures CellOffset(channels, i, j) + CellSize <= len
  {
    RowBelow(npoints, channels, i);
    assert i * CellSize * channels == 3 * (i * channels);
    assert npoints * CellSize * channels == 3 * (npoints * channels);
  }

  /** Row i < npoints of a channels-wide matrix ends by npoints * channels. */
  lemma RowBelow(npoints: nat, channels: nat, i: nat)
    requires i < npoints
    ensures i * channels + channels <= npoints * channels
  {
    assert i * channels + channels == (i + 1) * channels;
  }

  /** The sample stored at row i, column j of the decoded matrix. */
  function SampleAt(points: seq<byte>, channels: nat, i: nat, j: nat): Sample
    requires CellOffset(channels, i, j) + CellSize <= |points|
  {
    var o := CellOffset(channels, i, j);
    Sample(GroupOf(j), ShiftRight2(BytesToIntBig(ReverseBytes(points[o..o + CellSize]))))
  }

  /** The whole decode as a value: None when the size check fails, otherwise
      `npoints` rows of `channels` samples. */
  function Decode(rec: LogRecord): (r: Option<seq<seq<Sample>>>)
    ensures r.None? <==> |rec.points| < RequiredLength(rec)
    ensures r.Some? ==> |r.value| == rec.npoints
    ensures r.Some? ==> forall i :: 0 <= i < |r.value| ==> |r.value[i]| == Channels(rec)
  {
    var ch := Channels(rec);
    if |rec.points| < RequiredLength(rec) then None
    else
      Some(seq(rec.npoints, i requires 0 <= i < rec.npoints =>
        seq(ch, j requires 0 <= j < ch =>
          CellInBounds(rec.npoints, ch, i, j, |rec.points|);
          SampleAt(rec.points, ch, i, j))))
  }

  /** The decoded sample formula: bytes [o, o+3) of the block with
      o = 3 + 3*(i*channels + j), byte-reversed, read signed, shifted by two,
      tagged voltage for j < 3 and current otherwise. */
  lemma DecodeCell(rec: LogRecord, i: nat, j: nat)
    requires Decode(rec).Some? && i < rec.npoints && j < Channels(rec)
    ensures var o := 3 + 3 * (i * Channels(rec) + j);
      o + 3 <= |rec.points| &&
      Decode(rec).value[i][j] ==
        Sample(if j < 3 then Voltage else Current,
               BytesToIntBig(ReverseBytes(rec.points[o..o + 3])) / 4)
  {
    var ch := Channels(rec);
    CellInBounds(rec.npoints, ch, i, j, |rec.points|);
    assert i * CellSize * ch == 3 * (i * ch);
    assert CellOffset(ch, i, j) == 3 + 3 * (i * ch + j);
    assert Decode(rec).value[i][j] == SampleAt(rec.points, ch, i, j);
  }

  /** LogRecord.get_signals: checks the size, preallocates the matrix and
      fills it cell by cell in two nested loops. */
  method GetSignals(rec: LogRecord) returns (signals: Option<array2<Sample>>)
    ensures signals.None? <==> Decode(rec).None?
    ensures signals.Some? ==>
      signals.value.Length0 == rec.npoints && signals.value.Length1 == Channels(rec) &&
      forall i, j :: 0 <= i < rec.npoints && 0 <= j < Channels(rec) ==>
        signals.value[i, j] == Decode(rec).value[i][j]
  {
    var channels := CountOnes(rec.mask);
    var recLen := rec.npoints * CellSize * channels;
    if |rec.points| < recLen + PreambleSize {
      return None;
    }
    var m := new Sample[rec.npoints, channels]((i, j) => Sample(Voltage, 0));
    for i := 0 to rec.npoints
      invariant forall i', j :: 0 <= i' < i && 0 <= j < channels ==> m[i', j] == Decode(rec).value[i'][j]
    {
      FillRow(m, rec, i);
    }
    return Some(m);
  }

  /** One pass of get_signals' outer loop: row i of the matrix takes the
      decoded samples of sample i, and no other row changes. */
  method FillRow(m: array2<Sample>, rec: LogRecord, i: nat)
    requires |rec.points| >= RequiredLength(rec)
    requires i < rec.npoints == m.Length0 && m.Length1 == Channels(rec)
    modifies m
    ensures forall j :: 0 <= j < m.Length1 ==> m[i, j] == Decode(rec).value[i][j]
    ensures forall i', j :: 0 <= i' < m.Length0 && i' != i && 0 <= j < m.Length1 ==> m[i', j] == old(m[i', j])
  {
    var channels := CountOnes(rec.mask);
    var a := i * CellSize * channels + PreambleSize;
    for j := 0 to channels
      invariant forall i', j' :: 0 <= i' < m.Length0 && i' != i && 0 <= j' < channels ==> m[i', j'] == old(m[i', j'])
      invariant forall j' :: 0 <= j' < j ==> m[i, j'] == Decode(rec).value[i][j']
    {
      CellInBounds(rec.npoints, channels, i, j, |rec.points|);
      var c := a + j * CellSize;
      var raw := ReverseBytes(rec.points[c..c + CellSize]);
      var adcInt := BytesToIntBig(raw);
      m[i, j] := Sample(GroupOf(j), ShiftRight2(adcInt));
    }
  }

  /** The number of characters of str(v). */
  function DecimalLength(v: int): (r: nat)
    ensures r >= 1
  {
    if v < 0 then 1 + NatDigits(-v) else NatDigits(v)
  }

  function NatDigits(n: nat): (r: nat)
    ensures r >= 1
  {
    if n < 10 then 1 else 1 + NatDigits(n / 10)
  }

  lemma {:induction false} NatDigitsBounds(n: nat)
    ensures n < Pow(10, NatDigits(n))
    ensures n >= 10 ==> Pow(10, NatDigits(n) - 1) <= n
  {
    if n >= 10 {
      NatDigitsBounds(n / 10);
      var d := NatDigits(n / 10);
      assert Pow(10, d + 1) == 10 * Pow(10, d);
      if n / 10 >= 10 {
        assert Pow(10, d) == 10 * Pow(10, d - 1);
      }
    }
  }

  lemma {:induction false} PowMonotone(b: nat, e1: nat, e2: nat)
    requires b >= 1 && e1 <= e2
    ensures Pow(b, e1) <= Pow(b, e2)
  {
    if e1 < e2 {
      PowMonotone(b, e1, e2 - 1);
    }
  }

  /** A natural number has d digits exactly when it lies in [10^(d-1), 10^d)
      (for d > 1). */
  lemma NatDigitsExact(n: nat, d: nat)
    requires d > 1
    ensures NatDigits(n) == d <==> Pow(10, d - 1) <= n < Pow(10, d)
  {
    NatDigitsBounds(n);
    var k := NatDigits(n);
    if Pow(10, d - 1) <= n < Pow(10, d) {
      assert n >= 10 by { PowMonotone(10, 1, d - 1); }
      if k < d {
        PowMonotone(10, k, d - 1);
      } else if k > d {
        PowMonotone(10, d, k - 1);
      }
    }
  }

  /** The length guard of get_record_list_with_filter. */
  predicate TimestampGuard(begin: int, end: int)
  {
    DecimalLength(begin) == 13 && DecimalLength(end) == 13
  }

  /** str(v) has 13 characters exactly for 13-digit non-negative values and
      for negative values with 12 digits. */
  lemma TimestampGuardRange(v: int)
    ensures DecimalLength(v) == 13 <==>
      (1_000_000_000_000 <= v < 10_000_000_000_000) || (-1_000_000_000_000 < v <= -100_000_000_000)
  {
    assert Pow(10, 11) == 100_000_000_000;
    assert Pow(10, 12) == 1_000_000_000_000;
    assert Pow(10, 13) == 10_000_000_000_000;
    if v < 0 {
      NatDigitsExact(-v, 12);
    } else {
      NatDigitsExact(v, 13);
    }
  }

  /** The timestamps the query selects: strictly between the bounds, in
      stored order. */
  function Between(stored: seq<int>, begin: int, end: int): (r: seq<int>)
    ensures forall t :: t in r <==> t in stored && begin < t < end
  {
    if stored == [] then []
    else if begin < stored[0] < end then [stored[0]] + Between(stored[1..], begin, end)
    else Between(stored[1..], begin, end)
  }

  /** get_record_list_with_filter with the table column given as a value:
      no query (an empty list) unless both bounds print as 13 characters. */
  function RecordListWithFilter(stored: seq<int>, begin: int, end: int): (r: seq<int>)
    ensures !TimestampGuard(begin, end) ==> r == []
    ensures TimestampGuard(begin, end) ==> forall t :: t in r <==> t in stored && begin < t < end
  {
    if !TimestampGuard(begin, end) then [] else Between(stored, begin, end)
  }
}

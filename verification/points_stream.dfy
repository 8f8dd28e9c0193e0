/** process_points_data of the standalone reader (utils/processing.py, copied
    in result.py): the hex rendering of a point block is split into a
    6-digit header (mask byte and 16-bit point count) and a body read in
    frames of 36 digits, six 6-digit cells per frame, one cell per stream.
    The loop runs while at least 12 digits remain, so the last frame may be
    partial; cells are byte-reversed and sign-decoded, then scaled. */
module PointsStream {
  import opened Common
  import opened SampleCodec
  import opened HexCodec

  const StreamCount: nat := 6
  const HeaderDigits: nat := 6

  /** The number of loop iterations on a body of n digits. */
  function FrameCount(n: nat): (r: nat)
    ensures forall k: nat :: k < r <==> 36 * k + 12 <= n
  {
    if n < 12 then 0 else (n - 12) / 36 + 1
  }

  /** The number of frames whose window still reaches the start of cell c,
      i.e. of the k with 36k + 6c < n. */
  function Reach(n: nat, c: nat): (r: nat)
    ensures forall k: nat :: k < r <==> 36 * k + 6 * c < n
  {
    if n <= 6 * c then 0 else (n - 6 * c - 1) / 36 + 1
  }

  /** The number of values stream c receives from a body of n digits. */
  function StreamLen(n: nat, c: nat): (r: nat)
    ensures r <= FrameCount(n)
    ensures r > 0 ==> 36 * (r - 1) + 6 * c < n
  {
    Min(FrameCount(n), Reach(n, c))
  }

  /** Python's body[a:a+6] for a start inside the body. */
  function Cell(body: string, k: nat, c: nat): (r: string)
    requires 36 * k + 6 * c < |body|
    ensures 0 < |r| <= 6
  {
    var a := 36 * k + 6 * c;
    body[a..Min(a + 6, |body|)]
  }

  /** The value stream c takes from frame k. */
  function CellValue(body: string, k: nat, c: nat): int
    requires IsHex(body) && 36 * k + 6 * c < |body|
  {
    var cell := Cell(body, k, c);
    assert IsHex(cell) by {
      var a := 36 * k + 6 * c;
      assert forall m :: 0 <= m < |cell| ==> cell[m] == body[a + m];
    }
    HexToSignedDecimal(ReverseHexPairs(cell))
  }

  /** The float the rescaling loop stores for a raw value:
      -(ADC_Scale(raw, 0.93, 2^21) * 24000) / 25000, in exact arithmetic. */
  function Scale(raw: int): real
  {
    -(((ShiftRight2(raw) as real * 0.93) / 2097152.0) * 24000.0) / 25000.0
  }

  /** The scaled value has the opposite sign of the raw reading, and the
      scaling is antitone: a larger raw reading never scales higher. */
  lemma ScaleSign(raw: int, raw2: int)
    ensures Scale(raw) > 0.0 <==> raw < 0
    ensures raw <= raw2 ==> Scale(raw2) <= Scale(raw)
  {
    var a := ShiftRight2(raw) as real;
    var b := ShiftRight2(raw2) as real;
    assert Scale(raw) == -(a * 0.93 * 24000.0) / (2097152.0 * 25000.0);
    assert Scale(raw2) == -(b * 0.93 * 24000.0) / (2097152.0 * 25000.0);
    if raw <= raw2 {
      assert ShiftRight2(raw) <= ShiftRight2(raw2);
    }
  }

  /** The state of the deinterleaving loop after frames 0..k-1 and the first
      i cells of frame k: stream c holds its values from those frames, each
      equal to the decoded cell. */
  ghost predicate StreamsAfter(body: string, streams: seq<seq<int>>, k: nat, i: nat)
    requires IsHex(body)
  {
    |streams| == StreamCount &&
    forall c :: 0 <= c < StreamCount ==>
      |streams[c]| == Min(if c < i then k + 1 else k, Reach(|body|, c)) &&
      forall j :: 0 <= j < |streams[c]| ==>
        36 * j + 6 * c < |body| && streams[c][j] == CellValue(body, j, c)
  }

  /** Appending the cell of frame k to stream i moves the loop state one
      cell on. */
  lemma AppendStep(body: string, streams: seq<seq<int>>, k: nat, i: nat)
    requires IsHex(body) && i < StreamCount && 36 * k + 6 * i < |body|
    requires StreamsAfter(body, streams, k, i)
    ensures StreamsAfter(body, streams[i := streams[i] + [CellValue(body, k, i)]], k, i + 1)
  {
    assert k < Reach(|body|, i);
  }

  /** When the cell at 6i is past the end of the window, no later stream
      has a cell in this frame either, so the frame is complete. */
  lemma BreakStep(body: string, streams: seq<seq<int>>, k: nat, i: nat)
    requires IsHex(body) && 36 * k + 6 * i >= |body|
    requires StreamsAfter(body, streams, k, i)
    ensures StreamsAfter(body, streams, k, StreamCount)
  {
    assert forall c :: i <= c < StreamCount ==> Reach(|body|, c) <= k;
  }

  /** A completed frame k is the start of frame k + 1. */
  lemma NextFrame(body: string, streams: seq<seq<int>>, k: nat)
    requires IsHex(body) && StreamsAfter(body, streams, k, StreamCount)
    ensures StreamsAfter(body, streams, k + 1, 0)
  {
  }

  /** Before the first frame every stream is empty. */
  lemma NoFrames(body: string)
    requires IsHex(body)
    ensures StreamsAfter(body, [[], [], [], [], [], []], 0, 0)
  {
    var streams: seq<seq<int>> := [[], [], [], [], [], []];
    assert forall c :: 0 <= c < StreamCount ==> streams[c] == [];
  }

  /** The slice the loop takes from its window is the cell of the frame. */
  lemma CellOfWindow(body: string, result: string, k: nat, i: nat)
    requires 36 * k + 12 <= |body| && result == body[36 * k..] && i < StreamCount
    requires Min(6 * i, |result|) < Min(6 * i + 6, |result|)
    ensures 36 * k + 6 * i < |body|
    ensures result[Min(6 * i, |result|)..Min(6 * i + 6, |result|)] == Cell(body, k, i)
  {
  }

  /** The while loop of process_points_data on the body after the header:
      frames of 36 digits are consumed while at least 12 digits remain, and
      stream i takes the cell at digit 6i of the frame until a cell is
      empty. */
  method Deinterleave(body: string) returns (streams: seq<seq<int>>)
    requires IsHex(body)
    ensures |streams| == StreamCount
    ensures forall c :: 0 <= c < StreamCount ==> |streams[c]| == StreamLen(|body|, c)
    ensures forall c, j :: 0 <= c < StreamCount && 0 <= j < |streams[c]| ==>
      36 * j + 6 * c < |body| && streams[c][j] == CellValue(body, j, c)
  {
    streams := [[], [], [], [], [], []];
    NoFrames(body);
    var result := body;
    ghost var k: nat := 0;
    while |result| >= 12
      invariant k <= FrameCount(|body|)
      invariant result == body[Min(36 * k, |body|)..]
      invariant StreamsAfter(body, streams, k, 0)
      decreases |result|
    {
      assert 36 * k + 12 <= |body|;
      ghost var done := false;
      for i := 0 to StreamCount
        invariant StreamsAfter(body, streams, k, if done then StreamCount else i)
      {
        var a := Min(6 * i, |result|);
        var valueHex := result[a..Min(6 * i + 6, |result|)];
        if valueHex == [] {
          BreakStep(body, streams, k, i);
          done := true;
          break;
        }
        CellOfWindow(body, result, k, i);
        var value := HexToSignedDecimal(ReverseHexPairs(valueHex));
        AppendStep(body, streams, k, i);
        streams := streams[i := streams[i] + [value]];
      }
      assert StreamsAfter(body, streams, k, StreamCount);
      NextFrame(body, streams, k);
      result := if |result| >= 36 then result[36..] else [];
      k := k + 1;
    }
  }

  /** The rescaling loop: every raw value is replaced by its scaled float,
      stream by stream, position by position. */
  method ScaleStreams(raw: seq<seq<int>>) returns (scaled: seq<seq<real>>)
    ensures |scaled| == |raw|
    ensures forall c :: 0 <= c < |raw| ==> |scaled[c]| == |raw[c]|
    ensures forall c, j :: 0 <= c < |raw| && 0 <= j < |raw[c]| ==> scaled[c][j] == Scale(raw[c][j])
  {
    scaled := [];
    for c := 0 to |raw|
      invariant |scaled| == c
      invariant forall c' :: 0 <= c' < c ==> |scaled[c']| == |raw[c']|
      invariant forall c', j :: 0 <= c' < c && 0 <= j < |raw[c']| ==> scaled[c'][j] == Scale(raw[c'][j])
    {
      var stream: seq<real> := [];
      for j := 0 to |raw[c]|
        invariant |stream| == j
        invariant forall j' :: 0 <= j' < j ==> stream[j'] == Scale(raw[c][j'])
      {
        stream := stream + [Scale(raw[c][j])];
      }
      scaled := scaled + [stream];
    }
  }

  /** process_points_data with base64 decoding given as its outcome (the
      decoded bytes, or None when decoding failed). */
  method ProcessPointsData(decoded: Option<seq<byte>>) returns (streams: seq<seq<real>>)
    ensures |streams| == StreamCount
    ensures |Base64ToHex(decoded)| < HeaderDigits ==>
      forall c :: 0 <= c < StreamCount ==> streams[c] == []
    ensures |Base64ToHex(decoded)| >= HeaderDigits ==>
      var body := Base64ToHex(decoded)[HeaderDigits..];
      IsHex(body) &&
      forall c :: 0 <= c < StreamCount ==>
        |streams[c]| == StreamLen(|body|, c) &&
        forall j :: 0 <= j < |streams[c]| ==> streams[c][j] == Scale(CellValue(body, j, c))
  {
    var result := Base64ToHex(decoded);
    if result == [] || |result| < HeaderDigits {
      return [[], [], [], [], [], []];
    }
    var npoints := HexValue(ReverseHexPairs(result[2..6]));
    result := result[HeaderDigits..];
    var raw := Deinterleave(result);
    streams := ScaleStreams(raw);
  }

  // ---------------------------------------------------------------------
  // Properties of the stream shapes and values

  /** Streams 0 and 1 get a value from every frame; the others from every
      frame except possibly the partial last one.  So the lengths never grow
      with the stream index and differ by at most one. */
  lemma StreamLengthsShape(n: nat)
    ensures StreamLen(n, 0) == StreamLen(n, 1) == FrameCount(n)
    ensures forall c :: 0 <= c < StreamCount - 1 ==> StreamLen(n, c + 1) <= StreamLen(n, c)
    ensures forall c :: 0 <= c < StreamCount ==> StreamLen(n, c) + 1 >= FrameCount(n)
  {
    var fc := FrameCount(n);
    if fc > 0 {
      assert 36 * (fc - 1) + 12 <= n;
      forall c | 0 <= c < StreamCount
        ensures Reach(n, c) + 1 >= fc
      {
        if fc >= 2 {
          assert 36 * (fc - 2) + 6 * c < n;
        }
      }
      assert Reach(n, 0) >= fc && Reach(n, 1) >= fc;
    }
  }

  /** Fewer than 12 body digits give six empty streams. */
  lemma ShortBodyEmpty(n: nat)
    requires n < 12
    ensures forall c :: 0 <= c < StreamCount ==> StreamLen(n, c) == 0
  {
  }

  /** The number of reversed digits never exceeds the number given. */
  lemma ReverseHexPairsLength(s: string)
    ensures |ReverseHexPairs(s)| <= |s|
  {
    if |s| % 2 == 0 {
      ReverseHexPairsEven(s);
    } else {
      ReverseHexPairsOdd(s);
    }
  }

  /** A cell cut short by the end of the body (fewer than six digits) is
      read without sign extension, so its value is never negative. */
  lemma PartialCellNonNegative(body: string, k: nat, c: nat)
    requires IsHex(body) && 36 * k + 6 * c < |body|
    requires |Cell(body, k, c)| < 6
    ensures CellValue(body, k, c) >= 0
  {
    var cell := Cell(body, k, c);
    assert IsHex(cell) by {
      var a := 36 * k + 6 * c;
      assert forall m :: 0 <= m < |cell| ==> cell[m] == body[a + m];
    }
    ReverseHexPairsLength(cell);
    SignedDecimalRange(ReverseHexPairs(cell));
  }

  /** A slice of a hex rendering on byte boundaries is the rendering of the
      byte slice. */
  lemma BytesToHexSlice(b: seq<byte>, lo: nat, hi: nat)
    requires lo <= hi <= |b|
    ensures BytesToHex(b)[2 * lo..2 * hi] == BytesToHex(b[lo..hi])
  {
    var h := BytesToHex(b);
    var g := BytesToHex(b[lo..hi]);
    var hs := h[2 * lo..2 * hi];
    assert |hs| == |g|;
    forall m | 0 <= m < |g|
      ensures hs[m] == g[m]
    {
      SliceChar(b, lo, hi, m);
      SliceIndex(h, 2 * lo, 2 * hi, m);
    }
  }

  /** Character m of the hex of b[lo..hi] is character 2lo + m of the hex
      of b. */
  lemma SliceChar(b: seq<byte>, lo: nat, hi: nat, m: nat)
    requires lo <= hi <= |b| && m < 2 * (hi - lo)
    ensures BytesToHex(b)[2 * lo + m] == BytesToHex(b[lo..hi])[m]
  {
    var k, r := Halves(m);
    assert b[lo..hi][k] == b[lo + k];
    ByteDigit(b, 2 * lo + m, lo + k, r);
    ByteDigit(b[lo..hi], m, k, r);
  }

  /** The header of the block: the mask is the hex of the first byte. */
  lemma MaskField(b: seq<byte>)
    requires |b| >= 1
    ensures BytesToHex(b)[..2] == ByteToHex(b[0])
  {
    BytesToHexSlice(b, 0, 1);
    assert b[0..1] == [b[0]];
    assert [b[0]][..0] == [];
  }

  /** The point count of the header is bytes 1 and 2 read little-endian. */
  lemma PointCountField(b: seq<byte>)
    requires |b| >= 3
    ensures HexValue(ReverseHexPairs(BytesToHex(b)[2..6])) == b[1] as int + 256 * b[2] as int
  {
    BytesToHexSlice(b, 1, 3);
    PairHexValue(b[1..3]);
  }

  /** Two bytes, hex-rendered and pair-reversed, read as the little-endian
      value of the bytes. */
  lemma PairHexValue(x: seq<byte>)
    requires |x| == 2
    ensures HexValue(ReverseHexPairs(BytesToHex(x))) == x[0] as int + 256 * x[1] as int
  {
    ReverseHexPairsOfBytes(x);
    assert ReverseBytes(x) == [x[1], x[0]];
    HexValueOfBytes([x[1], x[0]]);
    UnsignedBigTwo(x[1], x[0]);
  }

  /** The cell of frame k, stream c is the hex of three consecutive decoded
      bytes starting at 3 + 18k + 3c. */
  lemma CellOfBytes(b: seq<byte>, k: nat, c: nat)
    requires c < StreamCount && 3 + 18 * k + 3 * c + 3 <= |b|
    ensures 36 * k + 6 * c < |BytesToHex(b)[HeaderDigits..]|
    ensures Cell(BytesToHex(b)[HeaderDigits..], k, c) == BytesToHex(b[3 + 18 * k + 3 * c..6 + 18 * k + 3 * c])
  {
    var o := 3 + 18 * k + 3 * c;
    CellOfDigits(BytesToHex(b), k, c);
    BytesToHexSlice(b, o, o + 3);
  }

  /** The cell of frame k, stream c of the digits after the header is
      digits 6 + 36k + 6c .. + 6 of the whole string. */
  lemma CellOfDigits(h: string, k: nat, c: nat)
    requires HeaderDigits + 36 * k + 6 * c + 6 <= |h|
    ensures 36 * k + 6 * c < |h[HeaderDigits..]|
    ensures var o := 3 + 18 * k + 3 * c;
      Cell(h[HeaderDigits..], k, c) == h[2 * o..2 * (o + 3)]
  {
    var a := 36 * k + 6 * c;
    SliceOfSuffix(h, HeaderDigits, a, 6);
    FullCell(h[HeaderDigits..], k, c);
  }

  lemma FullCell(body: string, k: nat, c: nat)
    requires 36 * k + 6 * c + 6 <= |body|
    ensures Cell(body, k, c) == body[36 * k + 6 * c..36 * k + 6 * c + 6]
  {
  }

  /** A full cell of the body is the 24-bit two's-complement value of its
      three bytes read little-endian: stream c, frame k holds the signed
      reading of decoded bytes 3 + 18k + 3c .. 3 + 18k + 3c + 3. */
  lemma FullCellValue(b: seq<byte>, k: nat, c: nat)
    requires c < StreamCount && 3 + 18 * k + 3 * c + 3 <= |b|
    ensures IsHex(BytesToHex(b)[HeaderDigits..])
    ensures 36 * k + 6 * c < |BytesToHex(b)[HeaderDigits..]|
    ensures CellValue(BytesToHex(b)[HeaderDigits..], k, c)
      == BytesToIntBig(ReverseBytes(b[3 + 18 * k + 3 * c..6 + 18 * k + 3 * c]))
  {
    var x := b[3 + 18 * k + 3 * c..6 + 18 * k + 3 * c];
    CellOfBytes(b, k, c);
    ReverseHexPairsOfBytes(x);
    SignedHexOfBytes(ReverseBytes(x));
  }

  /** The two decoders agree: for a record with six active channels, the
      sample get_signals stores at row k, channel c is the stream value of
      process_points_data shifted right by two. */
  lemma AgreesWithGetSignals(rec: LogRecord, k: nat, c: nat)
    requires Channels(rec) == StreamCount && Decode(rec).Some?
    requires k < rec.npoints && c < StreamCount
    ensures var body := BytesToHex(rec.points)[HeaderDigits..];
      IsHex(body) && 36 * k + 6 * c < |body| &&
      Decode(rec).value[k][c].raw == ShiftRight2(CellValue(body, k, c))
  {
    DecodeCell(rec, k, c);
    assert 3 + 3 * (k * 6 + c) == 3 + 18 * k + 3 * c;
    FullCellValue(rec.points, k, c);
  }
}

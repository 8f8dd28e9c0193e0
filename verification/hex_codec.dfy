/** The hex-string helpers of the standalone reader
    (utils/conversion.py, copied in result.py): rendering decoded bytes as
    uppercase hex, reversing the order of two-character groups, and reading
    a hex string as a signed number with 24-bit-and-wider sign extension. */
module HexCodec {
  import opened Common
  import opened SampleCodec

  /** The uppercase hex digit of a value below 16, as format(byte, '02X')
      writes it. */
  function HexDigit(n: nat): (c: char)
    requires n < 16
    ensures '0' <= c <= '9' || 'A' <= c <= 'F'
  {
    if n < 10 then ('0' as int + n) as char else ('A' as int + n - 10) as char
  }

  predicate IsHexChar(c: char)
  {
    '0' <= c <= '9' || 'A' <= c <= 'F' || 'a' <= c <= 'f'
  }

  predicate IsHex(s: string)
  {
    forall i :: 0 <= i < |s| ==> IsHexChar(s[i])
  }

  /** The digit value int() gives one hex character. */
  function HexCharValue(c: char): (v: nat)
    requires IsHexChar(c)
    ensures v < 16
  {
    if '0' <= c <= '9' then c as int - '0' as int
    else if 'A' <= c <= 'F' then c as int - 'A' as int + 10
    else c as int - 'a' as int + 10
  }

  lemma HexDigitValue(n: nat)
    requires n < 16
    ensures IsHexChar(HexDigit(n)) && HexCharValue(HexDigit(n)) == n
  {
  }

  /** Two uppercase digits per byte, high nibble first. */
  function ByteToHex(b: byte): (r: string)
    ensures |r| == 2 && IsHex(r)
    ensures HexCharValue(r[0]) * 16 + HexCharValue(r[1]) == b as int
  {
    HexDigitValue(b as int / 16);
    HexDigitValue(b as int % 16);
    [HexDigit(b as int / 16), HexDigit(b as int % 16)]
  }

  /** The high (j == 0) or low (j == 1) four bits of a byte. */
  function Nibble(x: byte, j: nat): nat
  {
    if j == 0 then x as int / 16 else x as int % 16
  }

  /** ''.join(format(byte, '02X') for byte in decoded_bytes): character m is
      nibble m % 2 of byte m / 2. */
  function BytesToHex(b: seq<byte>): (r: string)
    ensures |r| == 2 * |b|
    ensures IsHex(r)
  {
    seq(2 * |b|, m requires 0 <= m < 2 * |b| => HexDigit(Nibble(b[m / 2], m % 2)))
  }

  /** Character i = 2k + r of the rendering is digit r (0 high, 1 low) of
      byte k. */
  lemma ByteDigit(b: seq<byte>, i: nat, k: nat, r: nat)
    requires k < |b| && r < 2 && i == 2 * k + r
    ensures i < |BytesToHex(b)|
    ensures BytesToHex(b)[i] == HexDigit(Nibble(b[k], r))
  {
    assert i / 2 == k && i % 2 == r;
  }

  /** Rendering one more byte appends its two digits. */
  lemma BytesToHexSnoc(b: seq<byte>)
    requires b != []
    ensures BytesToHex(b) == BytesToHex(b[..|b| - 1]) + ByteToHex(b[|b| - 1])
  {
    var init := b[..|b| - 1];
    var h := BytesToHex(b);
    var g := BytesToHex(init) + ByteToHex(b[|b| - 1]);
    forall m | 0 <= m < |h|
      ensures h[m] == g[m]
    {
      var k, r := Halves(m);
      ByteDigit(b, m, k, r);
      if k < |init| {
        ByteDigit(init, m, k, r);
      }
    }
  }

  /** base64_to_hex with the decoding step given as its outcome: the hex of
      the decoded bytes, or "" when decoding failed. */
  function Base64ToHex(decoded: Option<seq<byte>>): (r: string)
    ensures decoded.None? ==> r == ""
    ensures decoded.Some? ==> r == BytesToHex(decoded.value)
  {
    match decoded
    case None => ""
    case Some(b) => BytesToHex(b)
  }

  /** A byte is read back from its two digits. */
  lemma ByteOfDigits(x: byte)
    ensures IsHexChar(HexDigit(Nibble(x, 0))) && IsHexChar(HexDigit(Nibble(x, 1)))
    ensures x as int == 16 * HexCharValue(HexDigit(Nibble(x, 0))) + HexCharValue(HexDigit(Nibble(x, 1)))
  {
    HexDigitValue(x as int / 16);
    HexDigitValue(x as int % 16);
  }

  /** The hex string of a byte string is empty exactly for no bytes, and its
      characters, read back in pairs, give the bytes again. */
  lemma BytesToHexInjective(b: seq<byte>, c: seq<byte>)
    requires BytesToHex(b) == BytesToHex(c)
    ensures b == c
  {
    assert |b| == |c|;
    forall k | 0 <= k < |b|
      ensures b[k] == c[k]
    {
      ByteDigit(b, 2 * k, k, 0);
      ByteDigit(b, 2 * k + 1, k, 1);
      ByteDigit(c, 2 * k, k, 0);
      ByteDigit(c, 2 * k + 1, k, 1);
      ByteOfDigits(b[k]);
      ByteOfDigits(c[k]);
    }
  }

  // ---------------------------------------------------------------------
  // reverse_bytes_order on a hex string

  /** The slice s[i-2:i] Python takes for loop value i (1 <= i <= |s|).  For
      i == 1 the start -1 counts from the end, so the slice is the whole
      one-character string when |s| == 1 and empty otherwise. */
  function Piece(s: string, i: nat): string
    requires 1 <= i <= |s|
  {
    if i >= 2 then s[i - 2..i] else if |s| == 1 then s else []
  }

  /** The pieces for i = i0, i0-2, ... down to 1 or 2, joined. */
  function RevFrom(s: string, i: nat): string
    requires i <= |s|
  {
    if i == 0 then []
    else if i == 1 then Piece(s, 1)
    else Piece(s, i) + RevFrom(s, i - 2)
  }

  /** The pieces are slices of s, so hex digits stay hex digits, and the
      result is empty only when every piece is. */
  lemma {:induction false} RevFromHex(s: string, i: nat)
    requires i <= |s|
    ensures IsHex(s) ==> IsHex(RevFrom(s, i))
    ensures i >= 2 || (i == 1 && |s| == 1) ==> |RevFrom(s, i)| > 0
  {
    if i >= 2 {
      RevFromHex(s, i - 2);
      var t := RevFrom(s, i - 2);
      assert RevFrom(s, i) == s[i - 2..i] + t;
      if IsHex(s) {
        assert IsHexChar(s[i - 2]) && IsHexChar(s[i - 1]);
        assert forall k :: 0 <= k < |t| ==> IsHexChar(t[k]);
      }
    }
  }

  /** reverse_bytes_order: ''.join(s[i-2:i] for i in range(len(s), 0, -2)).
      Hex digits stay hex digits, and a non-empty input never gives an
      empty result. */
  function ReverseHexPairs(s: string): (r: string)
    ensures IsHex(s) ==> IsHex(r)
    ensures |s| > 0 ==> |r| > 0
  {
    RevFromHex(s, |s|);
    RevFrom(s, |s|)
  }

  /** Where character m of an even-length result comes from: pair m / 2
      counted from the end, same position inside the pair. */
  function Mirror(n: nat, m: nat): nat
  {
    if n >= 2 * (m / 2) + 2 then n - 2 * (m / 2) - 2 + m % 2 else 0
  }

  lemma MirrorInvolution(n: nat, m: nat)
    requires n % 2 == 0 && m < n
    ensures Mirror(n, m) < n && Mirror(n, Mirror(n, m)) == m
  {
    var k := m / 2;
    var p := n - 2 * k - 2 + m % 2;
    assert p / 2 == n / 2 - k - 1 && p % 2 == m % 2;
  }

  lemma {:induction false} RevFromEven(s: string, i: nat)
    requires i <= |s| && i % 2 == 0
    ensures |RevFrom(s, i)| == i
    ensures forall m :: 0 <= m < i ==> Mirror(i, m) < i && RevFrom(s, i)[m] == s[Mirror(i, m)]
  {
    if i >= 2 {
      RevFromEven(s, i - 2);
      var r := RevFrom(s, i);
      var t := RevFrom(s, i - 2);
      assert r == s[i - 2..i] + t;
      forall m | 0 <= m < i
        ensures Mirror(i, m) < i && r[m] == s[Mirror(i, m)]
      {
        if m >= 2 {
          assert r[m] == t[m - 2];
          assert Mirror(i - 2, m - 2) == Mirror(i, m) by {
            assert (m - 2) / 2 == m / 2 - 1 && (m - 2) % 2 == m % 2;
          }
        }
      }
    }
  }

  /** On an even-length string the two-character groups come back in reverse
      order, each kept intact, and the length is unchanged. */
  lemma ReverseHexPairsEven(s: string)
    requires |s| % 2 == 0
    ensures |ReverseHexPairs(s)| == |s|
    ensures forall k :: 0 <= k < |s| / 2 ==>
      ReverseHexPairs(s)[2 * k..2 * k + 2] == s[|s| - 2 * k - 2..|s| - 2 * k]
  {
    RevFromEven(s, |s|);
    var r := ReverseHexPairs(s);
    assert r == RevFrom(s, |s|);
    forall k | 0 <= k < |s| / 2
      ensures r[2 * k..2 * k + 2] == s[|s| - 2 * k - 2..|s| - 2 * k]
    {
      PairOfMirror(s, r, k);
    }
  }

  lemma PairOfMirror(s: string, r: string, k: nat)
    requires |s| % 2 == 0 && |r| == |s| && k < |s| / 2
    requires forall m :: 0 <= m < |s| ==> Mirror(|s|, m) < |s| && r[m] == s[Mirror(|s|, m)]
    ensures r[2 * k..2 * k + 2] == s[|s| - 2 * k - 2..|s| - 2 * k]
  {
    var p := |s| - 2 * k - 2;
    assert Mirror(|s|, 2 * k) == p;
    assert Mirror(|s|, 2 * k + 1) == p + 1;
    assert r[2 * k] == s[p];
    assert r[2 * k + 1] == s[p + 1];
  }

  /** reverse_bytes_order is its own inverse on even-length strings. */
  lemma ReverseHexPairsInvolution(s: string)
    requires |s| % 2 == 0
    ensures ReverseHexPairs(ReverseHexPairs(s)) == s
  {
    var r := ReverseHexPairs(s);
    RevFromEven(s, |s|);
    RevFromEven(r, |r|);
    var rr := ReverseHexPairs(r);
    forall m | 0 <= m < |s|
      ensures rr[m] == s[m]
    {
      MirrorInvolution(|s|, m);
    }
  }

  lemma {:induction false} RevFromOdd(s: string, i: nat)
    requires 1 <= i <= |s| && i % 2 == 1 && |s| >= 2
    ensures RevFrom(s, i) == RevFrom(s[1..], i - 1)
  {
    var t := s[1..];
    if i >= 3 {
      RevFromOdd(s, i - 2);
      assert Piece(t, i - 1) == t[i - 3..i - 1] == s[i - 2..i] == Piece(s, i);
      assert RevFrom(t, i - 1) == Piece(t, i - 1) + RevFrom(t, i - 3);
    } else {
      assert RevFrom(s, 1) == Piece(s, 1) == [];
    }
  }

  /** On an odd-length string of at least three characters the first
      character is lost: the result is that of the rest of the string.  A
      single character comes back unchanged. */
  lemma ReverseHexPairsOdd(s: string)
    requires |s| % 2 == 1
    ensures |s| == 1 ==> ReverseHexPairs(s) == s
    ensures |s| >= 3 ==> ReverseHexPairs(s) == ReverseHexPairs(s[1..])
    ensures |s| >= 3 ==> |ReverseHexPairs(s)| == |s| - 1
  {
    if |s| >= 3 {
      RevFromOdd(s, |s|);
      RevFromEven(s[1..], |s| - 1);
    }
  }

  /** Reversing the pairs of a hex rendering is rendering the reversed
      bytes. */
  lemma ReverseHexPairsOfBytes(b: seq<byte>)
    ensures ReverseHexPairs(BytesToHex(b)) == BytesToHex(ReverseBytes(b))
  {
    var h := BytesToHex(b);
    RevFromEven(h, |h|);
    var r := ReverseHexPairs(h);
    var g := BytesToHex(ReverseBytes(b));
    forall m | 0 <= m < |h|
      ensures r[m] == g[m]
    {
      MirrorOfBytes(b, h, r, m);
    }
  }

  lemma MirrorOfBytes(b: seq<byte>, h: string, r: string, m: nat)
    requires h == BytesToHex(b) && m < |h|
    requires |r| == |h| && forall m :: 0 <= m < |h| ==> Mirror(|h|, m) < |h| && r[m] == h[Mirror(|h|, m)]
    ensures r[m] == BytesToHex(ReverseBytes(b))[m]
  {
    var p := Mirror(|h|, m);
    assert p / 2 == |b| - 1 - m / 2 && p % 2 == m % 2;
    var k, d := Halves(m);
    ByteDigit(b, p, |b| - 1 - k, d);
    ByteDigit(ReverseBytes(b), m, k, d);
    assert r[m] == HexDigit(Nibble(b[p / 2], p % 2));
    assert ReverseBytes(b)[m / 2] == b[|b| - 1 - m / 2];
  }

  // ---------------------------------------------------------------------
  // hex_to_signed_decimal

  /** int(s, 16) for a non-empty string of hex digits (int() refuses an empty
      string). */
  function HexValue(s: string): (v: nat)
    requires IsHex(s)
    ensures v < Pow(16, |s|)
  {
    if s == [] then 0
    else
      var init := s[..|s| - 1];
      assert IsHex(init) by {
        assert forall k :: 0 <= k < |init| ==> init[k] == s[k];
      }
      HexValue(init) * 16 + HexCharValue(s[|s| - 1])
  }

  /** num & (1 << k) != 0. */
  predicate TestBit(num: nat, k: nat)
  {
    (num / Pow(2, k)) % 2 == 1
  }

  /** hex_to_signed_decimal: the unsigned value, minus 2^(4L) when the string
      has at least six digits and bit 4L-1 is set. */
  function HexToSignedDecimal(s: string): int
    requires |s| > 0 && IsHex(s)
  {
    var num := HexValue(s);
    if |s| >= 6 && TestBit(num, |s| * 4 - 1) then num - Pow(2, |s| * 4) else num
  }

  lemma {:induction false} PowPow(b: nat, k: nat, e: nat)
    ensures Pow(Pow(b, k), e) == Pow(b, k * e)
  {
    if e > 0 {
      PowPow(b, k, e - 1);
      PowAdd(b, k, k * (e - 1));
      assert k * e == k + k * (e - 1);
    }
  }

  /** A value in [0, 2p) divided by p gives 1 from p upwards and 0 below. */
  lemma DivInDoubleRange(num: int, p: int)
    requires p > 0 && 0 <= num < 2 * p
    ensures num / p == (if num >= p then 1 else 0)
  {
    var q := num / p;
    var r := num % p;
    assert num == q * p + r && 0 <= r < p;
  }

  /** Below 2^(k+1), bit k is set exactly from 2^k upwards. */
  lemma TopBit(num: nat, k: nat)
    requires num < Pow(2, k + 1)
    ensures TestBit(num, k) <==> num >= Pow(2, k)
  {
    assert Pow(2, k + 1) == 2 * Pow(2, k);
    DivInDoubleRange(num, Pow(2, k));
  }

  /** The width-4L bound of the unsigned value, in powers of two. */
  lemma HexValueBound(s: string)
    requires IsHex(s) && |s| > 0
    ensures HexValue(s) < Pow(2, |s| * 4)
    ensures Pow(2, |s| * 4) == 2 * Pow(2, |s| * 4 - 1)
  {
    var n := |s| * 4;
    PowPow(2, 4, |s|);
    assert Pow(2, 4) == 16;
    assert Pow(16, |s|) == Pow(2, n);
    assert n - 1 + 1 == n;
  }

  /** For six or more digits the value lies in the signed range of the
      width; below six digits it is never negative. */
  lemma SignedDecimalRange(s: string)
    requires |s| > 0 && IsHex(s)
    ensures |s| >= 6 ==>
      -(Pow(2, |s| * 4 - 1) as int) <= HexToSignedDecimal(s) < Pow(2, |s| * 4 - 1)
    ensures |s| >= 6 ==> (HexToSignedDecimal(s) < 0 <==> HexValue(s) >= Pow(2, |s| * 4 - 1))
    ensures |s| < 6 ==> HexToSignedDecimal(s) == HexValue(s) >= 0
  {
    HexValueBound(s);
    var k := |s| * 4 - 1;
    assert k + 1 == |s| * 4;
    TopBit(HexValue(s), k);
  }

  /** The value of a hex rendering is the big-endian value of the bytes. */
  lemma {:induction false} HexValueOfBytes(b: seq<byte>)
    ensures HexValue(BytesToHex(b)) == UnsignedBig(b)
  {
    if b != [] {
      var init := b[..|b| - 1];
      var x := b[|b| - 1];
      HexValueOfBytes(init);
      BytesToHexSnoc(b);
      HexDigitValue(x as int / 16);
      HexDigitValue(x as int % 16);
      HexValueTwoMore(BytesToHex(init), HexDigit(x as int / 16), HexDigit(x as int % 16));
    }
  }

  /** Two more digits multiply the value by 256 and add theirs. */
  lemma HexValueTwoMore(h: string, d: char, e: char)
    requires IsHex(h) && IsHexChar(d) && IsHexChar(e)
    ensures IsHex(h + [d, e])
    ensures HexValue(h + [d, e]) == (HexValue(h) * 16 + HexCharValue(d)) * 16 + HexCharValue(e)
  {
    var g := h + [d, e];
    assert g[..|g| - 1] == h + [d];
    assert (h + [d])[..|h|] == h;
  }

  /** For three or more bytes, sign-decoding the hex rendering is the signed
      big-endian reading of the bytes. */
  lemma SignedHexOfBytes(b: seq<byte>)
    requires |b| >= 3
    ensures HexToSignedDecimal(BytesToHex(b)) == BytesToIntBig(b)
  {
    var h := BytesToHex(b);
    var u := UnsignedBig(b);
    var k := 8 * |b| - 1;
    assert |h| * 4 - 1 == k && |h| >= 6;
    HexValueOfBytes(b);
    SignedOfValue(h, u, k);
    LeadingBitOfBytes(b);
  }

  lemma SignedOfValue(s: string, u: nat, k: nat)
    requires |s| >= 6 && IsHex(s) && HexValue(s) == u && k == |s| * 4 - 1
    ensures HexToSignedDecimal(s) == if TestBit(u, k) then u - Pow(2, k + 1) else u
  {
  }

  /** Bit 8n-1 of the big-endian value of n bytes is the top bit of the first
      byte. */
  lemma LeadingBitOfBytes(b: seq<byte>)
    requires |b| >= 1
    ensures Pow(2, 8 * |b|) == Pow(256, |b|)
    ensures TestBit(UnsignedBig(b), 8 * |b| - 1) <==> b[0] as int >= 128
  {
    var w := Pow(256, |b| - 1);
    ByteWidthPowers(|b|);
    var k := 8 * |b| - 1;
    assert Pow(2, k + 1) == 256 * w;
    TopBit(UnsignedBig(b), k);
    UnsignedBigFront(b);
    LeadingWeight(b[0] as int, w, UnsignedBig(b[1..]));
  }

  /** 2^(8n) = 256^n and 2^(8n-1) = 128 * 256^(n-1). */
  lemma ByteWidthPowers(n: nat)
    requires n >= 1
    ensures Pow(2, 8 * n) == Pow(256, n) == 256 * Pow(256, n - 1)
    ensures Pow(2, 8 * n - 1) == 128 * Pow(256, n - 1)
  {
    PowPow(2, 8, n);
    PowPow(2, 8, n - 1);
    assert Pow(2, 8) == 256;
    assert Pow(2, 7) == 128;
    PowAdd(2, 7, 8 * (n - 1));
    assert 8 * n - 1 == 7 + 8 * (n - 1);
  }

  /** Byte-reversing the hex of three stored bytes b0 b1 b2 and sign-decoding
      the result gives the 24-bit two's-complement value of
      b0 + 256*b1 + 65536*b2. */
  lemma CellHexValue(b0: byte, b1: byte, b2: byte)
    ensures var u := b0 as int + 256 * b1 as int + 65536 * b2 as int;
      HexToSignedDecimal(ReverseHexPairs(BytesToHex([b0, b1, b2]))) ==
        if u >= 0x80_0000 then u - 0x100_0000 else u
  {
    ReverseHexPairsOfBytes([b0, b1, b2]);
    assert ReverseBytes([b0, b1, b2]) == [b2, b1, b0];
    SignedHexOfBytes([b2, b1, b0]);
    UnsignedBigThree(b2, b1, b0);
    assert Pow(256, 3) == 0x100_0000;
  }

  /** The six-digit hex of v mod 2^24 decodes back to v for every 24-bit
      signed v. */
  lemma SignedRoundTrip(v: int)
    requires -0x80_0000 <= v < 0x80_0000
    ensures HexToSignedDecimal(BytesToHex(ReverseBytes(LittleEndian24(v)))) == v
  {
    SignedHexOfBytes(ReverseBytes(LittleEndian24(v)));
    CellRoundTrip(v);
  }
}

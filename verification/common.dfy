/** Small shared vocabulary: optional values, bytes, ASCII text helpers
    (Python's str.split(), str.isdigit() and int() restricted to ASCII). */
module Common {

  datatype Option<T> = None | Some(value: T)

  newtype byte = x: int | 0 <= x < 256

  /** Python's str.isspace() on the ASCII range. */
  predicate IsSpace(c: char)
  {
    // space, tab, newline, vertical tab, form feed, carriage return, and the
    // four information separators 0x1C..0x1F
    c == ' ' || (9 <= c as int <= 13) || (28 <= c as int <= 31)
  }

  /** ''.join(s.split()): the text with every whitespace character removed. */
  function Blankless(s: string): (r: string)
    ensures |r| <= |s|
    ensures forall i :: 0 <= i < |r| ==> !IsSpace(r[i])
  {
    if s == [] then []
    else if IsSpace(s[0]) then Blankless(s[1..])
    else [s[0]] + Blankless(s[1..])
  }

  /** Removing white space keeps every other character: a character
      occurs in the result exactly when it occurs in the text and is not
      white space. */
  lemma {:induction false} BlanklessMembers(s: string)
    ensures forall c :: c in Blankless(s) <==> c in s && !IsSpace(c)
  {
    if s != [] {
      BlanklessMembers(s[1..]);
      assert forall c :: c in s <==> c == s[0] || c in s[1..];
    }
  }

  /** Removing white space works piece by piece: the blankless text of a
      concatenation is the concatenation of the blankless pieces. */
  lemma {:induction false} BlanklessAppend(a: string, b: string)
    ensures Blankless(a + b) == Blankless(a) + Blankless(b)
  {
    if a != [] {
      assert (a + b)[1..] == a[1..] + b;
      BlanklessAppend(a[1..], b);
    } else {
      assert a + b == b;
    }
  }

  predicate IsDigit(c: char)
  {
    '0' <= c <= '9'
  }

  /** Python's str.isdigit() on ASCII: non-empty and digits only. */
  predicate IsDigits(s: string)
  {
    |s| > 0 && forall i :: 0 <= i < |s| ==> IsDigit(s[i])
  }

  /** int(s) for a string of decimal digits. */
  function DigitsValue(s: string): nat
    requires forall i :: 0 <= i < |s| ==> IsDigit(s[i])
  {
    if s == [] then 0
    else
      assert IsDigit(s[|s| - 1]);
      DigitsValue(s[..|s| - 1]) * 10 + (s[|s| - 1] as int - '0' as int)
  }

  function Pow(b: nat, e: nat): (r: nat)
    ensures b > 0 ==> r > 0
  {
    if e == 0 then 1 else b * Pow(b, e - 1)
  }

  lemma {:induction false} PowAdd(b: nat, e1: nat, e2: nat)
    ensures Pow(b, e1 + e2) == Pow(b, e1) * Pow(b, e2)
  {
    if e1 > 0 {
      PowAdd(b, e1 - 1, e2);
      assert Pow(b, e1 + e2) == b * Pow(b, e1 - 1 + e2);
    }
  }

  /** A slice of a suffix is a slice of the whole. */
  lemma SliceOfSuffix<T>(s: seq<T>, d: nat, a: nat, n: nat)
    requires d + a + n <= |s|
    ensures s[d..][a..a + n] == s[d + a..d + a + n]
  {
  }

  lemma SliceIndex<T>(s: seq<T>, lo: nat, hi: nat, m: nat)
    requires lo <= hi <= |s| && m < hi - lo
    ensures s[lo..hi][m] == s[lo + m]
  {
  }

  /** m split into its half and its parity. */
  lemma Halves(m: nat) returns (k: nat, r: nat)
    ensures m == 2 * k + r && r < 2
  {
    k, r := m / 2, m % 2;
  }

  function Min(a: int, b: int): int { if a <= b then a else b }

  function Max(a: int, b: int): int { if a >= b then a else b }

  /** The elements of a sequence of sequences, concatenated in order. */
  function Concat<T>(ss: seq<seq<T>>): seq<T>
  {
    if ss == [] then [] else ss[0] + Concat(ss[1..])
  }

  lemma {:induction false} ConcatAppend<T>(ss: seq<seq<T>>, s: seq<T>)
    ensures Concat(ss + [s]) == Concat(ss) + s
  {
    if ss == [] {
      assert [s][1..] == [];
    } else {
      assert (ss + [s])[1..] == ss[1..] + [s];
      ConcatAppend(ss[1..], s);
    }
  }

  /** ASCII lower-casing, the part of str.lower() the model keeps. */
  function LowerChar(c: char): char
  {
    if 'A' <= c <= 'Z' then (c as int + 32) as char else c
  }

  function Lower(s: string): (r: string)
    ensures |r| == |s|
    ensures forall i :: 0 <= i < |s| ==> r[i] == LowerChar(s[i])
  {
    seq(|s|, i requires 0 <= i < |s| => LowerChar(s[i]))
  }

  /** Python's `needle in hay` on strings. */
  predicate Contains(hay: string, needle: string)
  {
    exists i :: 0 <= i <= |hay| - |needle| && OccursAt(hay, needle, i)
  }

  predicate OccursAt(hay: string, needle: string, i: int)
    requires 0 <= i <= |hay| - |needle|
  {
    hay[i..i + |needle|] == needle
  }
}

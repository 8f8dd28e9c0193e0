/** The range-list parser (cifer_diapasons_parsing.py): text such as
    "1-3, 5" becomes a boolean mask over channel indices, and "100:2000"
    becomes a sorted pair of bounds.  Whitespace is removed first; pieces are
    split on a character class as re.split does, keeping empty pieces. */
module RangeParse {
  import opened Common

  /** re.split(r"[,;\/]", ...): the separators between diapasons. */
  const PieceSeps: set<char> := {',', ';', '/'}
  /** re.split(r"[:-]", ...): the separators between the bounds of one
      diapason. */
  const BoundSeps: set<char> := {':', '-'}
  /** re.split(r"[,:-]", ...): the separators rangeTextParse uses. */
  const RangeSeps: set<char> := {',', ':', '-'}

  /** re.split on a one-character class: the maximal separator-free pieces,
      empty ones included, so n separators give n + 1 pieces. */
  function SplitOn(s: string, seps: set<char>): (r: seq<string>)
    ensures |r| >= 1
    ensures forall k, m :: 0 <= k < |r| && 0 <= m < |r[k]| ==> r[k][m] !in seps
  {
    if s == [] then [[]]
    else
      var rest := SplitOn(s[1..], seps);
      if s[0] in seps then [[]] + rest
      else [[s[0]] + rest[0]] + rest[1..]
  }

  /** The separator characters of s, in order. */
  function SepsOf(s: string, seps: set<char>): string
  {
    if s == [] then []
    else if s[0] in seps then [s[0]] + SepsOf(s[1..], seps)
    else SepsOf(s[1..], seps)
  }

  /** The pieces joined back with the separators between them. */
  function Interleave(ps: seq<string>, ds: string): string
    requires |ps| == |ds| + 1
  {
    if ds == [] then ps[0] else ps[0] + [ds[0]] + Interleave(ps[1..], ds[1..])
  }

  /** Splitting loses nothing: there is one more piece than separators, and
      putting the separators back between the pieces gives the text again. */
  lemma {:induction false} SplitOnJoin(s: string, seps: set<char>)
    ensures |SplitOn(s, seps)| == |SepsOf(s, seps)| + 1
    ensures Interleave(SplitOn(s, seps), SepsOf(s, seps)) == s
  {
    if s != [] {
      SplitOnJoin(s[1..], seps);
      var rest := SplitOn(s[1..], seps);
      var ds := SepsOf(s[1..], seps);
      if s[0] in seps {
        assert ([[]] + rest)[1..] == rest;
        assert s == [s[0]] + s[1..];
      } else {
        var r := [[s[0]] + rest[0]] + rest[1..];
        if ds == [] {
          assert s == [s[0]] + s[1..];
        } else {
          assert r[1..] == rest[1..];
          assert Interleave(r, ds) == [s[0]] + (rest[0] + [ds[0]] + Interleave(rest[1..], ds[1..]));
          assert s == [s[0]] + s[1..];
        }
      }
    }
  }

  /** Python's list[:2]. */
  function FirstTwo<T>(xs: seq<T>): (r: seq<T>)
    ensures |r| == Min(|xs|, 2) && r == xs[..|r|]
  {
    if |xs| > 2 then xs[..2] else xs
  }

  /** An accepted diapason: the sorted tuple of one or two bounds. */
  datatype Dia = Single(v: nat) | Pair(lo: nat, hi: nat)

  /** in_range(dia, val). */
  predicate InRange(d: Dia, v: int)
  {
    match d
    case Single(x) => x == v
    case Pair(lo, hi) => lo <= v <= hi
  }

  /** all(x.isdigit() for x in xs). */
  predicate AllDigits(xs: seq<string>)
  {
    forall k :: 0 <= k < |xs| ==> IsDigits(xs[k])
  }

  /** One diapason piece: its first two bounds, accepted only when every one
      of them is a non-empty digit string, then sorted. */
  function ParseDia(piece: string): (r: Option<Dia>)
    ensures r.Some? <==> AllDigits(FirstTwo(SplitOn(piece, BoundSeps)))
    ensures r.Some? && r.value.Pair? ==> r.value.lo <= r.value.hi
  {
    var bounds := FirstTwo(SplitOn(piece, BoundSeps));
    if AllDigits(bounds) then
      if |bounds| == 1 then Some(Single(DigitsValue(bounds[0])))
      else
        var a := DigitsValue(bounds[0]);
        var b := DigitsValue(bounds[1]);
        Some(Pair(Min(a, b), Max(a, b)))
    else None
  }

  /** The accepted diapasons of a list of pieces, in order (dia_list). */
  function DiaListOf(pieces: seq<string>): seq<Dia>
  {
    if pieces == [] then []
    else
      var last := ParseDia(pieces[|pieces| - 1]);
      DiaListOf(pieces[..|pieces| - 1]) + (if last.Some? then [last.value] else [])
  }

  /** A diapason is in the list exactly when some piece parses to it. */
  lemma {:induction false} DiaListOfMembers(pieces: seq<string>, d: Dia)
    ensures d in DiaListOf(pieces) <==> exists k :: 0 <= k < |pieces| && ParseDia(pieces[k]) == Some(d)
  {
    if pieces != [] {
      var n := |pieces| - 1;
      var init := pieces[..n];
      var last := ParseDia(pieces[n]);
      var tail := if last.Some? then [last.value] else [];
      DiaListOfMembers(init, d);
      assert DiaListOf(pieces) == DiaListOf(init) + tail;
      if d in DiaListOf(init) {
        var k :| 0 <= k < |init| && ParseDia(init[k]) == Some(d);
        assert pieces[k] == init[k];
      } else if d in tail {
        assert ParseDia(pieces[n]) == Some(d);
      }
      if exists k :: 0 <= k < |pieces| && ParseDia(pieces[k]) == Some(d) {
        var k :| 0 <= k < |pieces| && ParseDia(pieces[k]) == Some(d);
        if k < n {
          assert init[k] == pieces[k];
        } else {
          assert k == n && last == Some(d);
          assert tail == [d];
        }
      }
    }
  }

  /** The diapasons the mask is built from. */
  function AcceptedDiapasons(input: string): seq<Dia>
  {
    DiaListOf(SplitOn(Blankless(input), PieceSeps))
  }

  /** Whether some diapason of the list covers index i. */
  predicate Covered(ds: seq<Dia>, i: int)
  {
    exists d :: d in ds && InRange(d, i)
  }

  /** pars_cipher_diapasons_to_boolmask: blank text selects everything
      (boolmask_len copies of True, none for a negative length), a mask
      shorter than two is refused, and otherwise entry i is set exactly when
      an accepted diapason covers i. */
  method CipherDiapasonsToBoolmask(input: string, boolmaskLen: int) returns (mask: seq<bool>)
    ensures Blankless(input) == [] ==>
      |mask| == Max(boolmaskLen, 0) && forall i :: 0 <= i < |mask| ==> mask[i]
    ensures Blankless(input) != [] && boolmaskLen < 2 ==> mask == []
    ensures Blankless(input) != [] && boolmaskLen >= 2 ==>
      |mask| == boolmaskLen &&
      forall i :: 0 <= i < |mask| ==> (mask[i] <==> Covered(AcceptedDiapasons(input), i))
  {
    var blankless := Blankless(input);
    if |blankless| == 0 {
      return seq(Max(boolmaskLen, 0), _ => true);
    }
    if boolmaskLen < 2 {
      return [];
    }
    var diapasons := SplitOn(blankless, PieceSeps);
    var diaList := CollectDiapasons(diapasons);
    mask := FillMask(diaList, boolmaskLen);
  }

  /** The dia_list loop: the accepted diapasons of the pieces, in order. */
  method CollectDiapasons(diapasons: seq<string>) returns (diaList: seq<Dia>)
    ensures diaList == DiaListOf(diapasons)
  {
    diaList := [];
    for p := 0 to |diapasons|
      invariant diaList == DiaListOf(diapasons[..p])
    {
      assert diapasons[..p + 1][..p] == diapasons[..p];
      var d := ParseDia(diapasons[p]);
      if d.Some? {
        diaList := diaList + [d.value];
      }
    }
    assert diapasons[..|diapasons|] == diapasons;
  }

  /** The boolmask loop: entry i is set exactly when a diapason covers i. */
  method FillMask(diaList: seq<Dia>, boolmaskLen: nat) returns (mask: seq<bool>)
    ensures |mask| == boolmaskLen
    ensures forall i :: 0 <= i < |mask| ==> (mask[i] <==> Covered(diaList, i))
  {
    var boolmask := new bool[boolmaskLen](_ => false);
    for i := 0 to boolmaskLen
      invariant forall i' :: 0 <= i' < i ==> (boolmask[i'] <==> Covered(diaList, i'))
      invariant forall i' :: i <= i' < boolmaskLen ==> !boolmask[i']
    {
      MarkIndex(boolmask, i, diaList);
    }
    mask := boolmask[..];
  }

  /** The inner loop for index i: sets boolmask[i] when some diapason covers
      i and touches no other entry. */
  method MarkIndex(boolmask: array<bool>, i: nat, diaList: seq<Dia>)
    requires i < boolmask.Length && !boolmask[i]
    modifies boolmask
    ensures boolmask[i] <==> Covered(diaList, i)
    ensures forall k :: 0 <= k < boolmask.Length && k != i ==> boolmask[k] == old(boolmask[k])
  {
    for j := 0 to |diaList|
      invariant boolmask[i] <==> Covered(diaList[..j], i)
      invariant forall k :: 0 <= k < boolmask.Length && k != i ==> boolmask[k] == old(boolmask[k])
    {
      if InRange(diaList[j], i) {
        boolmask[i] := true;
      }
      assert forall d :: d in diaList[..j + 1] <==> d in diaList[..j] || d == diaList[j];
    }
    assert diaList[..|diaList|] == diaList;
  }

  // ---------------------------------------------------------------------
  // rangeTextParse

  /** rangeTextParse: (-1, -1) for blank text; the first two bounds, sorted,
      when both are digit strings; (-2, -2) for anything else, a single
      number included. */
  function RangeTextParse(text: string): (r: (int, int))
    ensures r.0 <= r.1
    ensures Blankless(text) == [] <==> r == (-1, -1)
  {
    var blankless := Blankless(text);
    if |blankless| == 0 then (-1, -1)
    else
      var range := FirstTwo(SplitOn(blankless, RangeSeps));
      if |range| == 2 && IsDigits(range[0]) && IsDigits(range[1]) then
        var a := DigitsValue(range[0]);
        var b := DigitsValue(range[1]);
        (Min(a, b), Max(a, b))
      else (-2, -2)
  }

  /** A non-negative answer comes only from two digit bounds, and it is
      exactly those two values in ascending order. */
  lemma RangeTextParseSound(text: string)
    requires RangeTextParse(text).0 >= 0
    ensures var range := SplitOn(Blankless(text), RangeSeps);
      |range| >= 2 && IsDigits(range[0]) && IsDigits(range[1]) &&
      RangeTextParse(text) == (Min(DigitsValue(range[0]), DigitsValue(range[1])),
                               Max(DigitsValue(range[0]), DigitsValue(range[1])))
  {
  }

  // ---------------------------------------------------------------------
  // Decimal text, for the round trips

  /** str(n) for a natural number. */
  function NatText(n: nat): (r: string)
    ensures IsDigits(r)
    ensures DigitsValue(r) == n
  {
    var d := [('0' as int + n % 10) as char];
    if n < 10 then d
    else
      var init := NatText(n / 10);
      var r := init + d;
      assert r[..|r| - 1] == init;
      r
  }

  lemma {:induction false} BlanklessId(s: string)
    requires forall i :: 0 <= i < |s| ==> !IsSpace(s[i])
    ensures Blankless(s) == s
  {
    if s != [] {
      BlanklessId(s[1..]);
      assert s == [s[0]] + s[1..];
    }
  }

  lemma {:induction false} SplitOnNone(s: string, seps: set<char>)
    requires forall i :: 0 <= i < |s| ==> s[i] !in seps
    ensures SplitOn(s, seps) == [s]
  {
    if s != [] {
      SplitOnNone(s[1..], seps);
      assert s == [s[0]] + s[1..];
    }
  }

  /** The text "a<sep>b" splits into the two numbers. */
  lemma SplitTwoNumbers(a: nat, b: nat, sep: char, seps: set<char>)
    requires sep in seps
    requires forall c :: '0' <= c <= '9' ==> c !in seps
    ensures SplitOn(NatText(a) + [sep] + NatText(b), seps) == [NatText(a), NatText(b)]
  {
    var x := NatText(a);
    var y := [sep] + NatText(b);
    SplitOnNone(NatText(b), seps);
    assert y[1..] == NatText(b);
    assert SplitOn(y, seps) == [[]] + [NatText(b)];
    assert forall i :: 0 <= i < |x| ==> IsDigit(x[i]);
    SplitWithPrefix(x, y, seps);
    assert x + [sep] + NatText(b) == x + y;
    assert x + [] == x;
  }

  /** A separator-free prefix extends the first piece. */
  lemma {:induction false} SplitWithPrefix(x: string, y: string, seps: set<char>)
    requires forall i :: 0 <= i < |x| ==> x[i] !in seps
    ensures var r := SplitOn(y, seps);
      SplitOn(x + y, seps) == [x + r[0]] + r[1..]
  {
    if x != [] {
      SplitWithPrefix(x[1..], y, seps);
      assert (x + y)[1..] == x[1..] + y;
      assert [x[0]] + (x[1..] + SplitOn(y, seps)[0]) == x + SplitOn(y, seps)[0];
    } else {
      var r := SplitOn(y, seps);
      assert x + y == y;
      assert x + r[0] == r[0];
      assert r == [r[0]] + r[1..];
    }
  }

  /** Two numbers separated by ',', ':' or '-' parse to the pair sorted in
      ascending order, whichever comes first. */
  lemma RangeTextParseTwoNumbers(a: nat, b: nat, sep: char)
    requires sep in RangeSeps
    ensures RangeTextParse(NatText(a) + [sep] + NatText(b)) == (Min(a, b), Max(a, b))
  {
    var t := NatText(a) + [sep] + NatText(b);
    BlanklessId(t);
    SplitTwoNumbers(a, b, sep, RangeSeps);
  }

  /** A single number is not a range. */
  lemma RangeTextParseOneNumber(a: nat)
    ensures RangeTextParse(NatText(a)) == (-2, -2)
  {
    BlanklessId(NatText(a));
    SplitOnNone(NatText(a), RangeSeps);
  }

  /** The piece "a-b" (or "a:b") is the sorted pair of the two numbers. */
  lemma ParseDiaTwoNumbers(a: nat, b: nat, sep: char)
    requires sep in BoundSeps
    ensures ParseDia(NatText(a) + [sep] + NatText(b)) == Some(Pair(Min(a, b), Max(a, b)))
  {
    SplitTwoNumbers(a, b, sep, BoundSeps);
    var bounds := [NatText(a), NatText(b)];
    assert FirstTwo(bounds) == bounds;
    assert AllDigits(bounds);
  }

  /** The mask for "a-b" (or "a:b") selects exactly the indices between the
      two numbers, whichever is written first. */
  lemma DiapasonOfTwoNumbers(a: nat, b: nat, sep: char)
    requires sep in BoundSeps
    ensures var t := NatText(a) + [sep] + NatText(b);
      AcceptedDiapasons(t) == [Pair(Min(a, b), Max(a, b))] &&
      forall i :: Covered(AcceptedDiapasons(t), i) <==> Min(a, b) <= i <= Max(a, b)
  {
    AcceptedTwoNumbers(a, b, sep);
    CoveredByPair(Min(a, b), Max(a, b));
  }

  /** "a-b" is one piece, and it is accepted as the sorted pair. */
  lemma AcceptedTwoNumbers(a: nat, b: nat, sep: char)
    requires sep in BoundSeps
    ensures AcceptedDiapasons(NatText(a) + [sep] + NatText(b)) == [Pair(Min(a, b), Max(a, b))]
  {
    var t := NatText(a) + [sep] + NatText(b);
    BlanklessId(t);
    SplitOnNone(t, PieceSeps);
    ParseDiaTwoNumbers(a, b, sep);
    assert [t][..0] == [];
    assert DiaListOf([t]) == DiaListOf([]) + [Pair(Min(a, b), Max(a, b))];
  }

  /** A single pair covers exactly the indices between its bounds. */
  lemma CoveredByPair(lo: nat, hi: nat)
    ensures forall i :: Covered([Pair(lo, hi)], i) <==> lo <= i <= hi
  {
    var p := Pair(lo, hi);
    forall i
      ensures Covered([p], i) <==> lo <= i <= hi
    {
      if lo <= i <= hi {
        assert p in [p] && InRange(p, i);
      }
    }
  }
}

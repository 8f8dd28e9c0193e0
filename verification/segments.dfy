/** Trend segmentation shared by every trends window and the CSV viewer:
    the gap indices where consecutive timestamps are more than 15 minutes
    apart, the grey regions spanning those gaps, and the split of a series
    into the segments that are drawn as separate lines.  Timestamps are
    integer milliseconds, so the 900-second threshold is 900000 ms. */
module Segments {
  import opened Common

  /** 15 minutes in milliseconds. */
  const GapMs: int := 900000

  /** np.where(np.diff(keys) > gap)[0]: the k with keys[k+1] - keys[k] > gap,
      ascending. */
  function GapIndicesOver(keys: seq<int>, gap: int): (r: seq<nat>)
    ensures forall k: int :: k in r <==> 0 <= k && k + 1 < |keys| && keys[k + 1] - keys[k] > gap
    ensures forall a, b :: 0 <= a < b < |r| ==> r[a] < r[b]
    ensures forall a :: 0 <= a < |r| ==> r[a] + 1 < |keys|
  {
    if |keys| < 2 then []
    else
      var init := keys[..|keys| - 1];
      var rest := GapIndicesOver(init, gap);
      var last: seq<nat> := if keys[|keys| - 1] - keys[|keys| - 2] > gap then [|keys| - 2] else [];
      GapIndicesStep(keys, gap, rest, last);
      rest + last
  }

  /** The gap indices of all but the last key, followed by the last gap if
      there is one, are the gap indices of all keys. */
  lemma GapIndicesStep(keys: seq<int>, gap: int, rest: seq<nat>, last: seq<nat>)
    requires |keys| >= 2
    requires forall k: int :: k in rest <==> 0 <= k && k + 2 < |keys| && keys[k + 1] - keys[k] > gap
    requires forall a, b :: 0 <= a < b < |rest| ==> rest[a] < rest[b]
    requires forall a :: 0 <= a < |rest| ==> rest[a] + 2 < |keys|
    requires last == if keys[|keys| - 1] - keys[|keys| - 2] > gap then [|keys| - 2] else []
    ensures forall k: int :: k in rest + last <==> 0 <= k && k + 1 < |keys| && keys[k + 1] - keys[k] > gap
    ensures forall a, b :: 0 <= a < b < |rest + last| ==> (rest + last)[a] < (rest + last)[b]
    ensures forall a :: 0 <= a < |rest + last| ==> (rest + last)[a] + 1 < |keys|
  {
  }

  /** The gap indices of a timestamp series (empty for fewer than two
      timestamps). */
  function GapIndices(t: seq<int>): (r: seq<nat>)
    ensures |t| < 2 ==> r == []
  {
    GapIndicesOver(t, GapMs)
  }

  /** A gap index marks exactly a jump of more than 15 minutes. */
  lemma GapIndicesSpec(t: seq<int>, k: int)
    ensures k in GapIndices(t) <==> 0 <= k && k + 1 < |t| && t[k + 1] - t[k] > GapMs
  {
  }

  /** add_gray_gap_regions: the span [t[k], t[k+1]] of every gap index k
      whose successor is in range. */
  function GapRegions(t: seq<int>, gaps: seq<nat>): (r: seq<(int, int)>)
    ensures |r| <= |gaps|
  {
    if gaps == [] then []
    else
      var k := gaps[0];
      (if k + 1 < |t| then [(t[k], t[k + 1])] else []) + GapRegions(t, gaps[1..])
  }

  /** For the gap indices of the same series no gap is dropped: the regions
      are, in order, the spans of the gaps, each wider than 15 minutes.  So
      the CSV viewer's add_large_gap_regions, which does not check the
      bound, draws the same regions. */
  lemma {:induction false} GapRegionsOfGaps(t: seq<int>, gaps: seq<nat>)
    requires forall a :: 0 <= a < |gaps| ==> gaps[a] + 1 < |t| && t[gaps[a] + 1] - t[gaps[a]] > GapMs
    ensures |GapRegions(t, gaps)| == |gaps|
    ensures forall a :: 0 <= a < |gaps| ==>
      GapRegions(t, gaps)[a] == (t[gaps[a]], t[gaps[a] + 1]) &&
      GapRegions(t, gaps)[a].1 - GapRegions(t, gaps)[a].0 > GapMs
  {
    if gaps != [] {
      GapRegionsOfGaps(t, gaps[1..]);
      var r := GapRegions(t, gaps);
      assert r == [(t[gaps[0]], t[gaps[0] + 1])] + GapRegions(t, gaps[1..]);
    }
  }

  // ---------------------------------------------------------------------
  // Splitting into segments

  predicate StrictlyIncreasing(s: seq<int>)
  {
    forall a, b :: 0 <= a < b < |s| ==> s[a] < s[b]
  }

  /** np.concatenate([[0], gaps + 1, [n]]): the points where segments
      start, closed by n. */
  function SplitPoints(n: nat, gaps: seq<nat>): (p: seq<nat>)
    ensures |p| == |gaps| + 2 && p[0] == 0 && p[|p| - 1] == n
    ensures forall j :: 0 < j < |p| - 1 ==> p[j] == gaps[j - 1] + 1
  {
    [0] + seq(|gaps|, j requires 0 <= j < |gaps| => gaps[j] + 1) + [n]
  }

  /** Ascending gap indices below n - 1 give strictly ascending split points
      from 0 to n. */
  lemma SplitPointsIncreasing(n: nat, gaps: seq<nat>)
    requires n >= 1
    requires forall a, b :: 0 <= a < b < |gaps| ==> gaps[a] < gaps[b]
    requires forall a :: 0 <= a < |gaps| ==> gaps[a] + 1 < n
    ensures StrictlyIncreasing(SplitPoints(n, gaps))
  {
  }

  /** The same split points, read as np.split needs them. */
  lemma SplitPointsWellFormed(n: nat, gaps: seq<nat>)
    requires forall a, b :: 0 <= a < b < |gaps| ==> gaps[a] < gaps[b]
    requires forall a :: 0 <= a < |gaps| ==> gaps[a] + 1 < n
    ensures SplitPointsOf(SplitPoints(n, gaps), n)
  {
    var p := SplitPoints(n, gaps);
    if n >= 1 {
      SplitPointsIncreasing(n, gaps);
      assert forall j :: 0 <= j < |p| ==> p[j] <= p[|p| - 1];
    }
  }

  /** Split points that never go down and end inside xs. */
  predicate SplitPointsOf(p: seq<nat>, n: nat)
  {
    |p| >= 2 && p[|p| - 1] == n &&
    (forall j :: 0 <= j < |p| ==> p[j] <= n) &&
    (forall a, b :: 0 <= a < b < |p| ==> p[a] <= p[b])
  }

  /** np.split(xs, points[1..|points|-1]): the slices between consecutive
      split points. */
  function NpSplit<T>(xs: seq<T>, p: seq<nat>): (r: seq<seq<T>>)
    requires SplitPointsOf(p, |xs|)
    ensures |r| == |p| - 1
    ensures forall j :: 0 <= j < |r| ==> r[j] == xs[p[j]..p[j + 1]]
  {
    seq(|p| - 1, j requires 0 <= j < |p| - 1 => xs[p[j]..p[j + 1]])
  }

  /** The first m slices laid end to end give xs from p[0] to p[m]. */
  lemma {:induction false} ConcatSlices<T>(xs: seq<T>, p: seq<nat>, m: nat)
    requires SplitPointsOf(p, |xs|) && 1 <= m < |p|
    ensures p[0] <= p[m]
    ensures Concat(NpSplit(xs, p)[..m]) == xs[p[0]..p[m]]
  {
    var pieces := NpSplit(xs, p);
    if m == 1 {
      assert pieces[..1] == [xs[p[0]..p[1]]];
      assert pieces[..1][1..] == [];
    } else {
      ConcatSlices(xs, p, m - 1);
      assert pieces[..m] == pieces[..m - 1] + [xs[p[m - 1]..p[m]]];
      ConcatAppend(pieces[..m - 1], xs[p[m - 1]..p[m]]);
      assert xs[p[0]..p[m - 1]] + xs[p[m - 1]..p[m]] == xs[p[0]..p[m]];
    }
  }

  /** Strictly ascending split points from 0 to |xs| make non-empty pieces
      that concatenate back to xs. */
  lemma NpSplitConcat<T>(xs: seq<T>, p: seq<nat>)
    requires SplitPointsOf(p, |xs|) && p[0] == 0
    ensures Concat(NpSplit(xs, p)) == xs
  {
    var pieces := NpSplit(xs, p);
    ConcatSlices(xs, p, |p| - 1);
    assert pieces[..|p| - 1] == pieces;
  }

  /** The split points of a key sequence: 0, every gap index + 1, and the
      length. */
  function BreakPoints(keys: seq<int>, gap: int): (p: seq<nat>)
    ensures p == SplitPoints(|keys|, GapIndicesOver(keys, gap))
    ensures SplitPointsOf(p, |keys|) && p[0] == 0
    ensures |keys| > 0 ==> StrictlyIncreasing(p)
  {
    var gaps := GapIndicesOver(keys, gap);
    SplitPointsWellFormed(|keys|, gaps);
    if |keys| > 0 then SplitPointsIncreasing(|keys|, gaps); SplitPoints(|keys|, gaps)
    else SplitPoints(|keys|, gaps)
  }

  /** The segments of xs split where the key sequence jumps by more than
      gap. */
  function SplitByGap<T>(xs: seq<T>, keys: seq<int>, gap: int): (r: seq<seq<T>>)
    requires |keys| == |xs|
  {
    NpSplit(xs, BreakPoints(keys, gap))
  }

  /** Inside a segment [p[j], p[j+1]) no two neighbouring keys are more
      than gap apart. */
  lemma NoJumpInside(keys: seq<int>, gap: int, j: nat, k: int)
    requires |keys| > 0
    requires j + 1 < |BreakPoints(keys, gap)|
    requires BreakPoints(keys, gap)[j] < k < BreakPoints(keys, gap)[j + 1]
    ensures keys[k] - keys[k - 1] <= gap
  {
    var gaps := GapIndicesOver(keys, gap);
    var p := BreakPoints(keys, gap);
    forall a | 0 <= a < |gaps|
      ensures gaps[a] != k - 1
    {
      assert p[a + 1] == gaps[a] + 1;
      if a + 1 <= j {
        assert p[a + 1] <= p[j];
      } else {
        assert p[j + 1] <= p[a + 1];
      }
    }
    assert k - 1 !in gaps;
  }

  /** Every split point strictly inside marks a jump of more than gap. */
  lemma JumpAtSplit(keys: seq<int>, gap: int, j: nat)
    requires 0 < j < |BreakPoints(keys, gap)| - 1
    ensures var p := BreakPoints(keys, gap);
      0 < p[j] < |keys| && keys[p[j]] - keys[p[j] - 1] > gap
  {
    var gaps := GapIndicesOver(keys, gap);
    assert gaps[j - 1] in gaps;
  }

  /** The segments partition xs in order: they concatenate back to xs and
      each is the non-empty slice between two consecutive split points
      (NoJumpInside and JumpAtSplit say where those points are). */
  lemma SplitByGapPartition<T>(xs: seq<T>, keys: seq<int>, gap: int)
    requires |keys| == |xs| && |xs| > 0
    ensures Concat(SplitByGap(xs, keys, gap)) == xs
    ensures |SplitByGap(xs, keys, gap)| == |BreakPoints(keys, gap)| - 1
    ensures forall j :: 0 <= j < |SplitByGap(xs, keys, gap)| ==>
      SplitByGap(xs, keys, gap)[j] == xs[BreakPoints(keys, gap)[j]..BreakPoints(keys, gap)[j + 1]] &&
      |SplitByGap(xs, keys, gap)[j]| > 0
  {
    NpSplitConcat(xs, BreakPoints(keys, gap));
  }

  /** The positions of the valid entries, ascending:
      np.where(valid_mask)[0]. */
  function ValidPositions(valid: seq<bool>): (r: seq<nat>)
    ensures forall p: int :: p in r <==> 0 <= p < |valid| && valid[p]
    ensures StrictlyIncreasing(r)
    ensures forall a :: 0 <= a < |r| ==> r[a] < |valid|
  {
    if valid == [] then []
    else
      var init := valid[..|valid| - 1];
      assert forall k :: 0 <= k < |init| ==> init[k] == valid[k];
      ValidPositions(init) + (if valid[|valid| - 1] then [|valid| - 1] else [])
  }

  function TimesAt(t: seq<int>, ps: seq<nat>): (r: seq<int>)
    requires forall a :: 0 <= a < |ps| ==> ps[a] < |t|
    ensures |r| == |ps| && forall a :: 0 <= a < |ps| ==> r[a] == t[ps[a]]
  {
    seq(|ps|, a requires 0 <= a < |ps| => t[ps[a]])
  }

  lemma TimesAtAppend(t: seq<int>, ps: seq<nat>, p: nat)
    requires forall a :: 0 <= a < |ps| ==> ps[a] < |t|
    requires p < |t|
    ensures TimesAt(t, ps + [p]) == TimesAt(t, ps) + [t[p]]
  {
  }

  /** plot_column (and the loop in plot_data of the earlier window): the
      positions of the valid samples, split wherever consecutive valid
      samples are more than 15 minutes apart. */
  function TimeSegments(t: seq<int>, valid: seq<bool>): seq<seq<nat>>
    requires |t| == |valid|
  {
    var vp := ValidPositions(valid);
    SplitByGap(vp, TimesAt(t, vp), GapMs)
  }

  /** The segments that are drawn: exactly the time segments with more
      than one point, in their order (`Filter` keeps the order, see
      `FilterAppend`). */
  function DrawnTimeSegments(t: seq<int>, valid: seq<bool>): (r: seq<seq<nat>>)
    requires |t| == |valid|
    ensures forall j :: 0 <= j < |r| ==> |r[j]| > 1 && r[j] in TimeSegments(t, valid)
    ensures forall s :: s in TimeSegments(t, valid) && |s| > 1 ==> s in r
  {
    var segs := TimeSegments(t, valid);
    var r := Filter(segs, (s: seq<nat>) => |s| > 1);
    assert forall j :: 0 <= j < |r| ==> r[j] in r;
    r
  }

  /** Python's [x for x in xs if keep(x)]. */
  function Filter<T(!new)>(xs: seq<T>, keep: T -> bool): (r: seq<T>)
    ensures forall x :: x in r <==> x in xs && keep(x)
    ensures |r| <= |xs|
  {
    if xs == [] then []
    else (if keep(xs[0]) then [xs[0]] else []) + Filter(xs[1..], keep)
  }

  /** Filtering keeps the order: it distributes over concatenation. */
  lemma {:induction false} FilterAppend<T(!new)>(xs: seq<T>, ys: seq<T>, keep: T -> bool)
    ensures Filter(xs + ys, keep) == Filter(xs, keep) + Filter(ys, keep)
  {
    if xs == [] {
      assert xs + ys == ys;
    } else {
      assert (xs + ys)[1..] == xs[1..] + ys;
      FilterAppend(xs[1..], ys, keep);
    }
  }

  /** The time segments partition the valid positions in order, and a new
      segment starts exactly where two consecutive valid samples are more
      than 15 minutes apart. */
  lemma TimeSegmentsPartition(t: seq<int>, valid: seq<bool>)
    requires |t| == |valid|
    requires exists p :: 0 <= p < |valid| && valid[p]
    ensures Concat(TimeSegments(t, valid)) == ValidPositions(valid)
    ensures forall j :: 0 <= j < |TimeSegments(t, valid)| ==> |TimeSegments(t, valid)[j]| > 0
  {
    var vp := ValidPositions(valid);
    var p :| 0 <= p < |valid| && valid[p];
    assert p in vp;
    SplitByGapPartition(vp, TimesAt(t, vp), GapMs);
  }

  /** The CSV viewer's segments: the valid row indices split wherever two
      consecutive ones are not adjacent. */
  function ContiguousSegments(valid: seq<bool>): seq<seq<nat>>
  {
    var vp := ValidPositions(valid);
    SplitByGap(vp, vp, 1)
  }

  /** Each CSV segment is a run of adjacent valid rows. */
  lemma ContiguousSegmentsAdjacent(valid: seq<bool>, j: nat, k: nat)
    requires j < |ContiguousSegments(valid)| && 0 < k < |ContiguousSegments(valid)[j]|
    ensures ContiguousSegments(valid)[j][k] == ContiguousSegments(valid)[j][k - 1] + 1
  {
    AdjacentInSegment(ValidPositions(valid), j, k);
  }

  /** Inside a piece of a sequence split where it jumps by more than one,
      neighbours differ by at most one. */
  lemma AdjacentInSegment(vp: seq<nat>, j: nat, k: nat)
    requires StrictlyIncreasing(vp)
    requires j < |SplitByGap(vp, vp, 1)| && 0 < k < |SplitByGap(vp, vp, 1)[j]|
    ensures SplitByGap(vp, vp, 1)[j][k] == SplitByGap(vp, vp, 1)[j][k - 1] + 1
  {
    var keys: seq<int> := vp;
    var p := BreakPoints(keys, 1);
    var seg := SplitByGap(vp, vp, 1)[j];
    assert seg == vp[p[j]..p[j + 1]];
    assert |vp| > 0;
    var m := p[j] + k;
    assert seg[k] == vp[m];
    assert seg[k - 1] == vp[m - 1];
    NoJumpInside(keys, 1, j, m);
    assert vp[m - 1] < vp[m];
  }

  /** Two neighbouring pieces of a split at strictly ascending points meet
      at p[j]: the earlier one ends with xs[p[j] - 1], the later one starts
      with xs[p[j]]. */
  lemma NeighbourPieces<T>(xs: seq<T>, p: seq<nat>, j: nat)
    requires SplitPointsOf(p, |xs|) && StrictlyIncreasing(p) && 0 < j < |p| - 1
    ensures var pieces := NpSplit(xs, p);
      |pieces[j - 1]| > 0 && |pieces[j]| > 0 &&
      pieces[j - 1][|pieces[j - 1]| - 1] == xs[p[j] - 1] && pieces[j][0] == xs[p[j]]
  {
    var pieces := NpSplit(xs, p);
    assert p[j - 1] < p[j];
    assert p[j] < p[j + 1];
    assert pieces[j - 1] == xs[p[j - 1]..p[j]];
    assert pieces[j] == xs[p[j]..p[j + 1]];
  }

  /** Between two consecutive CSV segments lies an invalid row, so the
      segments are the maximal runs of valid rows. */
  lemma ContiguousSegmentsSeparated(valid: seq<bool>, j: nat)
    requires 0 < j < |ContiguousSegments(valid)|
    ensures |ContiguousSegments(valid)[j - 1]| > 0 && |ContiguousSegments(valid)[j]| > 0
    ensures var segs := ContiguousSegments(valid);
      exists q :: segs[j - 1][|segs[j - 1]| - 1] < q < segs[j][0] && !valid[q]
  {
    var vp := ValidPositions(valid);
    var segs := SplitByGap(vp, vp, 1);
    assert ContiguousSegments(valid) == segs;
    var q := SeparatedPieces(vp, j);
    var before, after := segs[j - 1], segs[j];
    assert before[|before| - 1] < q < after[0];
    assert q < |valid| && !valid[q];
  }

  /** Between two consecutive pieces of a strictly ascending sequence split
      where it jumps by more than one lies a number missing from it. */
  lemma SeparatedPieces(vp: seq<nat>, j: nat) returns (q: nat)
    requires StrictlyIncreasing(vp) && 0 < j < |SplitByGap(vp, vp, 1)|
    ensures var segs := SplitByGap(vp, vp, 1);
      |segs[j - 1]| > 0 && |segs[j]| > 0 &&
      segs[j - 1][|segs[j - 1]| - 1] < q < segs[j][0] && q !in vp
    ensures |vp| > 0 && q < vp[|vp| - 1]
  {
    var keys: seq<int> := vp;
    var p := BreakPoints(keys, 1);
    assert |p| > 2;
    var gaps := GapIndicesOver(keys, 1);
    assert gaps[0] + 1 < |vp|;
    NeighbourPieces(vp, p, j);
    JumpAtSplit(keys, 1, j);
    MissingBetween(vp, p[j]);
    q := vp[p[j] - 1] + 1;
    assert vp[p[j]] <= vp[|vp| - 1];
  }

  /** Between two strictly ascending neighbours more than one apart there
      is a number that is not in the sequence. */
  lemma MissingBetween(vp: seq<nat>, m: nat)
    requires StrictlyIncreasing(vp) && 0 < m < |vp| && vp[m] - vp[m - 1] > 1
    ensures vp[m - 1] + 1 !in vp && vp[m - 1] < vp[m - 1] + 1 < vp[m]
  {
    var q := vp[m - 1] + 1;
    forall a | 0 <= a < |vp|
      ensures vp[a] != q
    {
      if a < m {
        assert vp[a] <= vp[m - 1];
      } else {
        assert vp[m] <= vp[a];
      }
    }
  }

  /** The CSV segments are exactly the valid rows, in order. */
  lemma ContiguousSegmentsConcat(valid: seq<bool>)
    requires exists p :: 0 <= p < |valid| && valid[p]
    ensures Concat(ContiguousSegments(valid)) == ValidPositions(valid)
  {
    var vp := ValidPositions(valid);
    var p0 :| 0 <= p0 < |valid| && valid[p0];
    assert p0 in vp;
    SplitByGapPartition(vp, vp, 1);
  }

  // ---------------------------------------------------------------------
  // The 15.09 window: split points and all-NaN rows

  /** The segments plot_data of the 15.09 window draws for one column:
      consecutive split-point pairs (start, end) of at least two rows whose
      values are not all missing.  values[i] is None for NaN. */
  function PlottedSegments(t: seq<int>, values: seq<Option<int>>): (r: seq<(nat, nat)>)
    requires |t| == |values|
    ensures forall s :: s in r ==>
      s.0 + 2 <= s.1 <= |t| && exists i :: s.0 <= i < s.1 && values[i].Some?
  {
    var p := SplitPoints(|t|, GapIndices(t));
    var pairs := seq(|p| - 1, j requires 0 <= j < |p| - 1 => (p[j], p[j + 1]));
    assert forall j :: 0 <= j < |pairs| ==> pairs[j].1 <= |t| by {
      if |t| >= 1 {
        SplitPointsIncreasing(|t|, GapIndices(t));
      }
    }
    KeepDrawable(pairs, values)
  }

  function KeepDrawable(pairs: seq<(nat, nat)>, values: seq<Option<int>>): (r: seq<(nat, nat)>)
    requires forall j :: 0 <= j < |pairs| ==> pairs[j].1 <= |values|
    ensures forall s :: s in r ==> s in pairs
    ensures forall s :: s in r ==>
      s.0 + 2 <= s.1 <= |values| && exists i :: s.0 <= i < s.1 && values[i].Some?
    ensures forall s :: s in pairs && s.0 + 2 <= s.1 && (exists i :: s.0 <= i < s.1 && values[i].Some?) ==> s in r
  {
    if pairs == [] then []
    else (if Drawable(pairs[0], values) then [pairs[0]] else []) + KeepDrawable(pairs[1..], values)
  }

  /** A (start, end) pair is drawn when it spans at least two rows and one
      of them has a value. */
  predicate Drawable(s: (nat, nat), values: seq<Option<int>>)
  {
    s.0 + 2 <= s.1 <= |values| && exists i :: s.0 <= i < s.1 && values[i].Some?
  }

  /** Keeping the drawable pairs keeps their order: it distributes over
      concatenation. */
  lemma {:induction false} KeepDrawableAppend(a: seq<(nat, nat)>, b: seq<(nat, nat)>, values: seq<Option<int>>)
    requires forall j :: 0 <= j < |a| ==> a[j].1 <= |values|
    requires forall j :: 0 <= j < |b| ==> b[j].1 <= |values|
    ensures KeepDrawable(a + b, values) == KeepDrawable(a, values) + KeepDrawable(b, values)
  {
    if a == [] {
      assert a + b == b;
    } else {
      assert (a + b)[1..] == a[1..] + b;
      KeepDrawableAppend(a[1..], b, values);
    }
  }

  /** The yellow region plot_data puts around a row whose six values are all
      NaN: from the previous to the next timestamp, half a second beyond
      the series at either end. */
  function NanRowRegion(t: seq<int>, i: nat): (r: (int, int))
    requires i < |t|
    ensures i > 0 ==> r.0 == t[i - 1]
    ensures i == 0 ==> r.0 == t[i] - 500
    ensures i + 1 < |t| ==> r.1 == t[i + 1]
    ensures i + 1 == |t| ==> r.1 == t[i] + 500
  {
    (if i > 0 then t[i - 1] else t[i] - 500, if i < |t| - 1 then t[i + 1] else t[i] + 500)
  }

  /** One region per all-NaN row, in row order, with no 15-minute limit. */
  function NanRowRegions(t: seq<int>, allNan: seq<bool>): (r: seq<(int, int)>)
    requires |t| == |allNan|
  {
    var rows := ValidPositions(allNan);
    seq(|rows|, a requires 0 <= a < |rows| => NanRowRegion(t, rows[a]))
  }

  /** For ascending timestamps each all-NaN row lies inside its region. */
  lemma NanRowRegionsCover(t: seq<int>, allNan: seq<bool>)
    requires |t| == |allNan|
    requires forall a, b :: 0 <= a < b < |t| ==> t[a] <= t[b]
    ensures var rows := ValidPositions(allNan);
      |NanRowRegions(t, allNan)| == |rows| &&
      forall a :: 0 <= a < |rows| ==>
        NanRowRegions(t, allNan)[a].0 < t[rows[a]] + 1 && t[rows[a]] <= NanRowRegions(t, allNan)[a].1
  {
  }
}

/** add_missing_data_regions of the trends windows and the CSV viewer: a
    scan over a column's validity mask that records where a run of missing
    values starts (valid -> missing) and ends (missing -> valid), closes a
    run still open at the end with the last timestamp, pairs starts with
    ends, and keeps the pairs at most 15 minutes wide.

    The scan as written starts in the state of the first sample and looks
    at samples 1 onwards.  When the first sample is already missing, the
    first start is never recorded and the starts and ends are paired off by
    one.  AsWrittenPairs models that; RunsFrom is the intended result (one
    pair per maximal run of missing samples), and the corrected scan, which
    starts in the valid state at sample 0, produces it for every mask. */
module MissingData {
  import opened Common
  import Segments

  // ---------------------------------------------------------------------
  // Specification of the scan

  /** The scan from sample i on, in state `state`: the indices where a
      missing run starts and where one ends. */
  function Scan(valid: seq<bool>, i: nat, state: bool): (r: (seq<nat>, seq<nat>))
    requires i <= |valid|
    ensures forall k :: 0 <= k < |r.0| ==> i <= r.0[k] < |valid|
    ensures forall k :: 0 <= k < |r.1| ==> i <= r.1[k] < |valid|
    decreases |valid| - i
  {
    if i == |valid| then ([], [])
    else if valid[i] == state then Scan(valid, i + 1, state)
    else
      var rest := Scan(valid, i + 1, valid[i]);
      if state then ([i] + rest.0, rest.1) else (rest.0, [i] + rest.1)
  }

  /** The state after the scan: that of the last sample looked at. */
  function FinalState(valid: seq<bool>, i: nat, state: bool): bool
    requires i <= |valid|
  {
    if i == |valid| then state else valid[|valid| - 1]
  }

  /** The ends, with the last index added when the scan stops inside a
      missing run that has a start but no end. */
  function ClosedEnds(valid: seq<bool>, i: nat, state: bool): (r: seq<nat>)
    requires i <= |valid|
    ensures forall k :: 0 <= k < |r| ==> r[k] < |valid|
  {
    var sc := Scan(valid, i, state);
    if !FinalState(valid, i, state) && |sc.0| > |sc.1| then sc.1 + [|valid| - 1] else sc.1
  }

  /** Python's zip: pairs up to the shorter length. */
  function Zip<A, B>(a: seq<A>, b: seq<B>): (r: seq<(A, B)>)
    ensures |r| == Min(|a|, |b|)
    ensures forall k :: 0 <= k < |r| ==> r[k] == (a[k], b[k])
  {
    seq(Min(|a|, |b|), k requires 0 <= k < Min(|a|, |b|) => (a[k], b[k]))
  }

  /** The (start, end) index pairs of the scan as written: state of sample
      0, samples 1 onwards. */
  function AsWrittenPairs(valid: seq<bool>): seq<(nat, nat)>
    requires |valid| >= 1
  {
    Zip(Scan(valid, 1, valid[0]).0, ClosedEnds(valid, 1, valid[0]))
  }

  /** The index pairs of the corrected scan: valid state, samples 0
      onwards. */
  function CorrectedPairs(valid: seq<bool>): seq<(nat, nat)>
  {
    Zip(Scan(valid, 0, true).0, ClosedEnds(valid, 0, true))
  }

  /** The timestamps of index pairs. */
  function TimesOfPairs(t: seq<int>, ps: seq<(nat, nat)>): (r: seq<(int, int)>)
    requires forall k :: 0 <= k < |ps| ==> ps[k].0 < |t| && ps[k].1 < |t|
    ensures |r| == |ps| && forall k :: 0 <= k < |ps| ==> r[k] == (t[ps[k].0], t[ps[k].1])
  {
    seq(|ps|, k requires 0 <= k < |ps| => (t[ps[k].0], t[ps[k].1]))
  }

  /** The regions that are drawn: those at most 15 minutes wide. */
  function ShortRegions(rs: seq<(int, int)>): (r: seq<(int, int)>)
    ensures forall x :: x in r <==> x in rs && x.1 - x.0 <= Segments.GapMs
  {
    if rs == [] then []
    else
      var last := rs[|rs| - 1];
      ShortRegions(rs[..|rs| - 1]) + (if last.1 - last.0 <= Segments.GapMs then [last] else [])
  }

  // ---------------------------------------------------------------------
  // The intended result: maximal runs of missing samples

  /** The first valid sample at or after i, or |valid| when there is none. */
  function NextValid(valid: seq<bool>, i: nat): (e: nat)
    requires i <= |valid|
    ensures i <= e <= |valid|
    ensures forall k :: i <= k < e ==> !valid[k]
    ensures e < |valid| ==> valid[e]
    decreases |valid| - i
  {
    if i == |valid| || valid[i] then i else NextValid(valid, i + 1)
  }

  /** One pair per maximal run of missing samples from i on: its first
      index and the first valid index after it, or the last index when the
      run reaches the end. */
  function RunsFrom(valid: seq<bool>, i: nat): (r: seq<(nat, nat)>)
    requires i <= |valid|
    ensures forall k :: 0 <= k < |r| ==> i <= r[k].0 <= r[k].1 < |valid|
    decreases |valid| - i
  {
    if i == |valid| then []
    else if valid[i] then RunsFrom(valid, i + 1)
    else
      var e := NextValid(valid, i);
      if e == |valid| then [(i, |valid| - 1)] else [(i, e)] + RunsFrom(valid, e)
  }

  /** [a, e] is a maximal run of missing samples: a is missing and is the
      first sample or follows a valid one, every sample from a up to e is
      missing, and e is the first valid sample after the run or the last
      sample of a run reaching the end. */
  predicate IsMissingRun(valid: seq<bool>, a: nat, e: nat)
    requires a <= e < |valid|
  {
    !valid[a] && (a == 0 || valid[a - 1]) &&
    (forall m :: a <= m < e ==> !valid[m]) &&
    (valid[e] || (e == |valid| - 1 && !valid[e]))
  }

  /** Every pair of RunsFrom(valid, i) is a maximal missing run, and the
      runs come in ascending order. */
  predicate RunsAreMaximal(valid: seq<bool>, r: seq<(nat, nat)>)
    requires forall k :: 0 <= k < |r| ==> r[k].0 <= r[k].1 < |valid|
  {
    (forall k :: 0 <= k < |r| ==> IsMissingRun(valid, r[k].0, r[k].1)) &&
    (forall k :: 0 <= k < |r| - 1 ==> r[k].1 < r[k + 1].0)
  }

  lemma {:induction false} RunsFromMaximal(valid: seq<bool>, i: nat)
    requires i <= |valid|
    requires i == 0 || valid[i - 1]
    ensures RunsAreMaximal(valid, RunsFrom(valid, i))
    decreases |valid| - i
  {
    if i < |valid| {
      if valid[i] {
        RunsFromMaximal(valid, i + 1);
        assert RunsFrom(valid, i) == RunsFrom(valid, i + 1);
      } else {
        var e := NextValid(valid, i);
        if e < |valid| {
          RunsFromMaximal(valid, e + 1);
          RunsFromClosed(valid, i, e);
          assert IsMissingRun(valid, i, e);
          RunsPrepend(valid, i, e, RunsFrom(valid, e + 1));
        } else {
          RunsFromOpen(valid, i);
        }
      }
    }
  }

  /** A run that reaches the end of the series is the last one. */
  lemma RunsFromOpen(valid: seq<bool>, i: nat)
    requires i < |valid| && !valid[i] && (i == 0 || valid[i - 1])
    requires NextValid(valid, i) == |valid|
    ensures RunsAreMaximal(valid, RunsFrom(valid, i))
  {
    assert RunsFrom(valid, i) == [(i, |valid| - 1)];
    assert IsMissingRun(valid, i, |valid| - 1);
  }

  /** Putting a maximal run in front of later maximal runs keeps them
      maximal and ascending. */
  lemma RunsPrepend(valid: seq<bool>, a: nat, e: nat, rest: seq<(nat, nat)>)
    requires a <= e < |valid| && IsMissingRun(valid, a, e)
    requires forall k :: 0 <= k < |rest| ==> e < rest[k].0 <= rest[k].1 < |valid|
    requires RunsAreMaximal(valid, rest)
    ensures RunsAreMaximal(valid, [(a, e)] + rest)
  {
    var r := [(a, e)] + rest;
    assert forall k :: 0 < k < |r| ==> r[k] == rest[k - 1];
  }

  /** Every missing sample lies in one of the runs. */
  lemma {:induction false} RunsFromCover(valid: seq<bool>, i: nat, m: nat)
    requires i <= m < |valid| && !valid[m]
    ensures exists k ::
      (0 <= k < |RunsFrom(valid, i)| && RunsFrom(valid, i)[k].0 <= m <= RunsFrom(valid, i)[k].1)
    decreases |valid| - i
  {
    if valid[i] {
      RunsFromCover(valid, i + 1, m);
      assert RunsFrom(valid, i) == RunsFrom(valid, i + 1);
    } else {
      var e := NextValid(valid, i);
      var r := RunsFrom(valid, i);
      if m < e || e == |valid| {
        assert r[0].0 <= m <= r[0].1;
      } else {
        assert m > e;
        RunsFromCover(valid, e + 1, m);
        assert RunsFrom(valid, e) == RunsFrom(valid, e + 1);
        var k :| 0 <= k < |RunsFrom(valid, e)| && RunsFrom(valid, e)[k].0 <= m <= RunsFrom(valid, e)[k].1;
        assert r[k + 1] == RunsFrom(valid, e)[k];
      }
    }
  }

  // ---------------------------------------------------------------------
  // The scan reproduces the runs when it starts in the valid state

  /** Inside a missing run the scan in the missing state records nothing
      until the first valid sample, which ends the run. */
  lemma {:induction false} ScanThroughMissing(valid: seq<bool>, i: nat)
    requires i <= |valid|
    ensures var e := NextValid(valid, i);
      Scan(valid, i, false) ==
        if e == |valid| then ([], [])
        else (Scan(valid, e + 1, true).0, [e] + Scan(valid, e + 1, true).1)
    decreases |valid| - i
  {
    if i < |valid| && !valid[i] {
      ScanThroughMissing(valid, i + 1);
    }
  }

  /** From a valid state at i the starts are the runs' first indices, the
      closed ends are their ends, and a run is left open exactly when the
      series ends missing. */
  predicate ScanAgrees(valid: seq<bool>, i: nat)
    requires i <= |valid|
  {
    var sc := Scan(valid, i, true);
    Zip(sc.0, ClosedEnds(valid, i, true)) == RunsFrom(valid, i) &&
    |sc.0| == |ClosedEnds(valid, i, true)| &&
    (|sc.0| == |sc.1| + 1 <==> i < |valid| && !valid[|valid| - 1]) &&
    (|sc.0| == |sc.1| || |sc.0| == |sc.1| + 1)
  }

  lemma {:induction false} ScanMatchesRuns(valid: seq<bool>, i: nat)
    requires i <= |valid|
    ensures ScanAgrees(valid, i)
    decreases |valid| - i
  {
    if i < |valid| {
      if valid[i] {
        ScanMatchesRuns(valid, i + 1);
        assert Scan(valid, i, true) == Scan(valid, i + 1, true);
        assert RunsFrom(valid, i) == RunsFrom(valid, i + 1);
      } else {
        var e := NextValid(valid, i);
        ScanThroughMissing(valid, i + 1);
        assert NextValid(valid, i + 1) == e;
        if e < |valid| {
          ScanMatchesRuns(valid, e + 1);
          ScanRunStep(valid, i, e);
        } else {
          ScanOpenRun(valid, i);
        }
      }
    }
  }

  /** A missing run [i, e] closed by a valid sample e. */
  lemma ScanRunStep(valid: seq<bool>, i: nat, e: nat)
    requires i < e < |valid| && !valid[i] && e == NextValid(valid, i)
    requires Scan(valid, i + 1, false) == (Scan(valid, e + 1, true).0, [e] + Scan(valid, e + 1, true).1)
    requires ScanAgrees(valid, e + 1)
    ensures ScanAgrees(valid, i)
  {
    RunsFromClosed(valid, i, e);
    var inner := Scan(valid, e + 1, true);
    var closedInner := ClosedEnds(valid, e + 1, true);
    assert Scan(valid, i, true) == ([i] + inner.0, [e] + inner.1);
    ClosedEndsRunStep(valid, i, e);
    ZipCons(i, e, inner.0, closedInner);
  }

  /** The runs from a missing sample i whose run is closed by the valid
      sample e. */
  lemma RunsFromClosed(valid: seq<bool>, i: nat, e: nat)
    requires i < e < |valid| && !valid[i] && e == NextValid(valid, i)
    ensures RunsFrom(valid, i) == [(i, e)] + RunsFrom(valid, e + 1)
  {
    assert valid[e];
    assert RunsFrom(valid, e) == RunsFrom(valid, e + 1);
  }

  /** Across a closed missing run the closed ends gain the run's end. */
  lemma ClosedEndsRunStep(valid: seq<bool>, i: nat, e: nat)
    requires i < e < |valid| && valid[e]
    requires Scan(valid, i, true) == ([i] + Scan(valid, e + 1, true).0, [e] + Scan(valid, e + 1, true).1)
    ensures ClosedEnds(valid, i, true) == [e] + ClosedEnds(valid, e + 1, true)
  {
    assert FinalState(valid, i, true) == FinalState(valid, e + 1, true);
  }

  lemma ZipCons<A, B>(a: A, b: B, x: seq<A>, y: seq<B>)
    ensures Zip([a] + x, [b] + y) == [(a, b)] + Zip(x, y)
  {
  }

  /** A missing run from i to the end of the series. */
  lemma ScanOpenRun(valid: seq<bool>, i: nat)
    requires i < |valid| && !valid[i] && NextValid(valid, i) == |valid|
    requires Scan(valid, i + 1, false) == ([], [])
    ensures ScanAgrees(valid, i)
  {
    assert Scan(valid, i, true).0 == [i] + [];
    assert Scan(valid, i, true).1 == [];
    assert !valid[|valid| - 1];
    assert ClosedEnds(valid, i, true) == [|valid| - 1];
    assert RunsFrom(valid, i) == [(i, |valid| - 1)];
  }

  /** The corrected scan yields exactly the maximal missing runs. */
  lemma CorrectedPairsAreRuns(valid: seq<bool>)
    ensures CorrectedPairs(valid) == RunsFrom(valid, 0)
  {
    ScanMatchesRuns(valid, 0);
  }

  /** The scan as written agrees with the runs whenever the first sample is
      valid. */
  lemma AsWrittenPairsWhenFirstValid(valid: seq<bool>)
    requires |valid| >= 1 && valid[0]
    ensures AsWrittenPairs(valid) == RunsFrom(valid, 0)
  {
    ScanMatchesRuns(valid, 1);
  }

  /** With the first sample missing the scan as written pairs the start of
      the second run with the end of the first: timestamps 0, 1, 2 s and
      mask missing, valid, missing give the inverted region (2 s, 1 s)
      instead of (0 s, 1 s) and (2 s, 2 s). */
  lemma AsWrittenMisPairs()
    ensures var valid := [false, true, false];
      var t := [0, 1000, 2000];
      AsWrittenPairs(valid) == [(2, 1)] &&
      RunsFrom(valid, 0) == [(0, 1), (2, 2)] &&
      ShortRegions(TimesOfPairs(t, AsWrittenPairs(valid))) == [(2000, 1000)] &&
      ShortRegions(TimesOfPairs(t, RunsFrom(valid, 0))) == [(0, 1000), (2000, 2000)]
  {
    var t := [0, 1000, 2000];
    MisPairsScan();
    MisPairsRuns();
    var aw := TimesOfPairs(t, [(2, 1)]);
    assert aw == [(2000, 1000)];
    assert ShortRegions(aw) == ShortRegions([]) + [(2000, 1000)];
    var rr := TimesOfPairs(t, [(0, 1), (2, 2)]);
    assert rr == [(0, 1000), (2000, 2000)];
    assert rr[..1] == [(0, 1000)];
    assert ShortRegions(rr[..1]) == ShortRegions([]) + [(0, 1000)];
  }

  lemma MisPairsScan()
    ensures AsWrittenPairs([false, true, false]) == [(2, 1)]
  {
    var valid := [false, true, false];
    assert Scan(valid, 3, true) == ([], []);
    assert Scan(valid, 2, true).0 == [2] + [];
    assert Scan(valid, 2, true).1 == [];
    assert Scan(valid, 1, false).0 == [2];
    assert Scan(valid, 1, false).1 == [1] + [];
    assert ClosedEnds(valid, 1, false) == [1];
  }

  lemma MisPairsRuns()
    ensures RunsFrom([false, true, false], 0) == [(0, 1), (2, 2)]
  {
    var valid := [false, true, false];
    assert NextValid(valid, 2) == 3;
    assert RunsFrom(valid, 2) == [(2, 2)];
    assert NextValid(valid, 1) == 1 && NextValid(valid, 0) == 1;
    assert RunsFrom(valid, 0) == [(0, 1)] + RunsFrom(valid, 1);
  }

  // ---------------------------------------------------------------------
  // The scan and the pairing as loops

  /** The start and closed end timestamps of the scan from sample `from`
      in state `initial`. */
  method CollectTransitions(t: seq<int>, valid: seq<bool>, from: nat, initial: bool)
    returns (starts: seq<int>, ends: seq<int>)
    requires |t| == |valid| && from <= |valid|
    ensures starts == Segments.TimesAt(t, Scan(valid, from, initial).0)
    ensures ends == Segments.TimesAt(t, ClosedEnds(valid, from, initial))
  {
    var state;
    ghost var gs: seq<nat>, ge: seq<nat>;
    starts, ends, state, gs, ge := ScanTransitions(t, valid, from, initial);
    if !state && |starts| > |ends| {
      Segments.TimesAtAppend(t, ge, |valid| - 1);
      ends := ends + [t[|t| - 1]];
    }
  }

  /** The loop over the samples: the start and end timestamps it records
      and the state it ends in. */
  method ScanTransitions(t: seq<int>, valid: seq<bool>, from: nat, initial: bool)
    returns (starts: seq<int>, ends: seq<int>, state: bool, ghost gs: seq<nat>, ghost ge: seq<nat>)
    requires |t| == |valid| && from <= |valid|
    ensures Scan(valid, from, initial) == (gs, ge)
    ensures forall k :: 0 <= k < |ge| ==> ge[k] < |valid|
    ensures starts == Segments.TimesAt(t, gs) && ends == Segments.TimesAt(t, ge)
    ensures state == FinalState(valid, from, initial)
  {
    state := initial;
    starts, ends := [], [];
    gs, ge := [], [];
    for i := from to |valid|
      invariant ScanPrefix(valid, from, initial, i, state, gs, ge)
      invariant starts == Segments.TimesAt(t, gs) && ends == Segments.TimesAt(t, ge)
      invariant state == FinalState(valid[..i], from, initial)
    {
      ScanPrefixStep(valid, from, initial, i, state, gs, ge);
      if valid[i] != state {
        if state {
          Segments.TimesAtAppend(t, gs, i);
          starts := starts + [t[i]];
          gs := gs + [i];
        } else {
          Segments.TimesAtAppend(t, ge, i);
          ends := ends + [t[i]];
          ge := ge + [i];
        }
        state := valid[i];
      }
    }
    assert valid[..|valid|] == valid;
    ScanPrefixEnd(valid, from, initial, state, gs, ge);
  }

  /** The scan from `from` has recorded gs and ge by sample i and is in
      state `state` there. */
  ghost predicate ScanPrefix(valid: seq<bool>, from: nat, initial: bool, i: nat, state: bool,
                             gs: seq<nat>, ge: seq<nat>)
  {
    from <= i <= |valid| &&
    Scan(valid, from, initial).0 == gs + Scan(valid, i, state).0 &&
    Scan(valid, from, initial).1 == ge + Scan(valid, i, state).1 &&
    (forall k :: 0 <= k < |gs| ==> gs[k] < |valid|) &&
    (forall k :: 0 <= k < |ge| ==> ge[k] < |valid|)
  }

  /** One step of the scan: a sample in the current state changes nothing,
      a valid -> missing change records a start, a missing -> valid change
      an end. */
  lemma ScanPrefixStep(valid: seq<bool>, from: nat, initial: bool, i: nat, state: bool,
                       gs: seq<nat>, ge: seq<nat>)
    requires ScanPrefix(valid, from, initial, i, state, gs, ge) && i < |valid|
    ensures ScanPrefix(valid, from, initial, i + 1, valid[i],
                       if valid[i] != state && state then gs + [i] else gs,
                       if valid[i] != state && !state then ge + [i] else ge)
  {
    var rest := Scan(valid, i + 1, valid[i]);
    if valid[i] != state {
      if state {
        assert Scan(valid, i, state) == ([i] + rest.0, rest.1);
        assert gs + ([i] + rest.0) == (gs + [i]) + rest.0;
      } else {
        assert Scan(valid, i, state) == (rest.0, [i] + rest.1);
        assert ge + ([i] + rest.1) == (ge + [i]) + rest.1;
      }
    }
  }

  /** At the end of the series the recorded indices are the whole scan. */
  lemma ScanPrefixEnd(valid: seq<bool>, from: nat, initial: bool, state: bool, gs: seq<nat>, ge: seq<nat>)
    requires ScanPrefix(valid, from, initial, |valid|, state, gs, ge)
    ensures Scan(valid, from, initial) == (gs, ge)
  {
    assert Scan(valid, |valid|, state) == ([], []);
    assert gs + [] == gs && ge + [] == ge;
  }

  /** The zip loop: pairs of starts and ends at most 15 minutes wide. */
  method PairShort(starts: seq<int>, ends: seq<int>) returns (regions: seq<(int, int)>)
    ensures regions == ShortRegions(Zip(starts, ends))
  {
    var z := Zip(starts, ends);
    regions := [];
    for k := 0 to |z|
      invariant regions == ShortRegions(z[..k])
    {
      assert z[..k + 1][..k] == z[..k];
      if ends[k] - starts[k] <= Segments.GapMs {
        regions := regions + [(starts[k], ends[k])];
      }
    }
    assert z[..|z|] == z;
  }

  /** Zipping the timestamps of two index lists is taking the timestamps of
      the zipped indices. */
  lemma ZipTimes(t: seq<int>, s: seq<nat>, e: seq<nat>)
    requires forall k :: 0 <= k < |s| ==> s[k] < |t|
    requires forall k :: 0 <= k < |e| ==> e[k] < |t|
    ensures Zip(Segments.TimesAt(t, s), Segments.TimesAt(t, e)) == TimesOfPairs(t, Zip(s, e))
  {
  }

  /** add_missing_data_regions as written (28.07 and 11.08 windows, CSV
      viewer): nothing for fewer than two samples, otherwise the short
      regions of the scan that starts in the state of sample 0. */
  method AddMissingDataRegionsAsWritten(t: seq<int>, valid: seq<bool>) returns (regions: seq<(int, int)>)
    requires |t| == |valid|
    ensures |t| < 2 ==> regions == []
    ensures |t| >= 2 ==> regions == ShortRegions(TimesOfPairs(t, AsWrittenPairs(valid)))
  {
    if |t| < 2 {
      return [];
    }
    var starts, ends := CollectTransitions(t, valid, 1, valid[0]);
    regions := PairShort(starts, ends);
    ZipTimes(t, Scan(valid, 1, valid[0]).0, ClosedEnds(valid, 1, valid[0]));
  }

  /** The corrected scan: nothing for fewer than two samples, otherwise one
      region per maximal missing run at most 15 minutes wide. */
  method AddMissingDataRegions(t: seq<int>, valid: seq<bool>) returns (regions: seq<(int, int)>)
    requires |t| == |valid|
    ensures |t| < 2 ==> regions == []
    ensures |t| >= 2 ==> regions == ShortRegions(TimesOfPairs(t, RunsFrom(valid, 0)))
  {
    if |t| < 2 {
      return [];
    }
    var starts, ends := CollectTransitions(t, valid, 0, true);
    regions := PairShort(starts, ends);
    ZipTimes(t, Scan(valid, 0, true).0, ClosedEnds(valid, 0, true));
    CorrectedPairsAreRuns(valid);
  }
}

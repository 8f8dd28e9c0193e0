/** The timer-driven drawing of the 11.08 trends window: plot_data
    computes every column's segments, resets the cursor to the first
    segment of the first column and starts a timer; every tick
    (plot_next_segment) draws the current segment if it has more than one
    point and moves on, wrapping to the next column, and the timer stops
    when the cursor wraps back to the first column.

    A column is represented by the lengths of its segments (np.split always
    yields at least one, possibly empty, segment); a drawing is recorded as
    the pair (column, segment index). */
module SegmentPlayback {

  /** The drawings still to come from column c, segment idx on: every
      segment with more than one point, column by column. */
  function DrawOrderFrom(lens: seq<seq<nat>>, c: nat, idx: nat): seq<(nat, nat)>
    requires c < |lens| && idx <= |lens[c]|
    decreases |lens| - c, |lens[c]| - idx
  {
    if idx < |lens[c]| then
      (if lens[c][idx] > 1 then [(c, idx)] else []) + DrawOrderFrom(lens, c, idx + 1)
    else if c + 1 < |lens| then DrawOrderFrom(lens, c + 1, 0)
    else []
  }

  /** All drawings of one pass, starting at the first column. */
  function DrawOrder(lens: seq<seq<nat>>): seq<(nat, nat)>
    requires |lens| > 0
  {
    DrawOrderFrom(lens, 0, 0)
  }

  /** (a, b) comes strictly before (c, d) in column-then-segment order. */
  predicate Before(p: (nat, nat), q: (nat, nat))
  {
    p.0 < q.0 || (p.0 == q.0 && p.1 < q.1)
  }

  /** Segment p exists and has more than one point. */
  predicate Drawable(lens: seq<seq<nat>>, p: (nat, nat))
  {
    p.0 < |lens| && p.1 < |lens[p.0]| && lens[p.0][p.1] > 1
  }

  /** Segment p is at or after segment idx of column c. */
  predicate AtOrAfter(p: (nat, nat), c: nat, idx: nat)
  {
    p.0 > c || (p.0 == c && p.1 >= idx)
  }

  /** From (c, idx) on, exactly the segments with more than one point at or
      after that position are drawn. */
  lemma {:induction false} DrawOrderFromExact(lens: seq<seq<nat>>, c: nat, idx: nat)
    requires c < |lens| && idx <= |lens[c]|
    ensures forall p :: p in DrawOrderFrom(lens, c, idx) <==> Drawable(lens, p) && AtOrAfter(p, c, idx)
    decreases |lens| - c, |lens[c]| - idx
  {
    if idx < |lens[c]| {
      DrawOrderFromExact(lens, c, idx + 1);
    } else if c + 1 < |lens| {
      DrawOrderFromExact(lens, c + 1, 0);
    }
  }

  /** From (c, idx) on, the drawings come in column-then-segment order, so
      none is made twice. */
  lemma {:induction false} DrawOrderFromSorted(lens: seq<seq<nat>>, c: nat, idx: nat)
    requires c < |lens| && idx <= |lens[c]|
    ensures forall a, b :: 0 <= a < b < |DrawOrderFrom(lens, c, idx)| ==>
      Before(DrawOrderFrom(lens, c, idx)[a], DrawOrderFrom(lens, c, idx)[b])
    decreases |lens| - c, |lens[c]| - idx
  {
    var r := DrawOrderFrom(lens, c, idx);
    if idx < |lens[c]| {
      DrawOrderFromSorted(lens, c, idx + 1);
      DrawOrderFromExact(lens, c, idx + 1);
      var rest := DrawOrderFrom(lens, c, idx + 1);
      var head: seq<(nat, nat)> := if lens[c][idx] > 1 then [(c, idx)] else [];
      assert r == head + rest;
      forall a, b | 0 <= a < b < |r|
        ensures Before(r[a], r[b])
      {
        if |head| == 1 && a == 0 {
          assert r[b] == rest[b - 1];
          assert r[b] in rest;
          assert AtOrAfter(r[b], c, idx + 1);
        } else {
          assert r[a] == rest[a - |head|] && r[b] == rest[b - |head|];
        }
      }
    } else if c + 1 < |lens| {
      DrawOrderFromSorted(lens, c + 1, 0);
    }
  }

  /** One full pass draws every segment with more than one point exactly
      once, in column-then-segment order: the same drawings the earlier
      window made in one synchronous loop. */
  lemma DrawOrderExact(lens: seq<seq<nat>>)
    requires |lens| > 0
    ensures forall p :: p in DrawOrder(lens) <==>
      p.0 < |lens| && p.1 < |lens[p.0]| && lens[p.0][p.1] > 1
    ensures forall a, b :: 0 <= a < b < |DrawOrder(lens)| ==> Before(DrawOrder(lens)[a], DrawOrder(lens)[b])
  {
    DrawOrderFromExact(lens, 0, 0);
    DrawOrderFromSorted(lens, 0, 0);
  }

  /** The number of timer ticks still needed from (c, idx): one per segment
      left, plus the tick that stops the timer. */
  function TicksFrom(lens: seq<seq<nat>>, c: nat, idx: nat): nat
    requires c < |lens| && idx <= |lens[c]|
    decreases |lens| - c
  {
    (|lens[c]| - idx) + (if c + 1 < |lens| then TicksFrom(lens, c + 1, 0) else 0) + 1
  }

  /** One tick inside a column: the current segment is drawn (if it has
      more than one point) and one tick fewer remains. */
  lemma SegmentStep(lens: seq<seq<nat>>, c: nat, idx: nat)
    requires c < |lens| && idx < |lens[c]|
    ensures DrawOrderFrom(lens, c, idx) ==
      (if lens[c][idx] > 1 then [(c, idx)] else []) + DrawOrderFrom(lens, c, idx + 1)
    ensures TicksFrom(lens, c, idx + 1) + 1 == TicksFrom(lens, c, idx)
  {
  }

  /** Past the last segment of a column the pass continues with the next
      column, or ends after the last one. */
  lemma LastColumnStep(lens: seq<seq<nat>>, c: nat)
    requires c < |lens|
    ensures c + 1 < |lens| ==> DrawOrderFrom(lens, c, |lens[c]|) == DrawOrderFrom(lens, c + 1, 0)
    ensures c + 1 < |lens| ==> TicksFrom(lens, c, |lens[c]|) == TicksFrom(lens, c + 1, 0) + 1
    ensures c + 1 == |lens| ==> DrawOrderFrom(lens, c, |lens[c]|) == []
  {
  }

  class SegmentPlayer {
    /** The segment lengths of each column, in column order. */
    var lens: seq<seq<nat>>
    /** current_column, as a position in the column list. */
    var column: nat
    /** current_segment_index. */
    var index: nat
    /** Whether the plot timer is active. */
    var running: bool
    /** The drawings made so far. */
    var drawn: seq<(nat, nat)>

    predicate Valid()
      reads this
    {
      |lens| > 0 && (forall c :: 0 <= c < |lens| ==> |lens[c]| > 0) &&
      column < |lens| && index <= |lens[column]|
    }

    /** plot_data: store the segments, point at the first segment of the
        first column and start the timer. */
    constructor (segmentLens: seq<seq<nat>>)
      requires |segmentLens| > 0 && forall c :: 0 <= c < |segmentLens| ==> |segmentLens[c]| > 0
      ensures Valid()
      ensures lens == segmentLens && column == 0 && index == 0 && running && drawn == []
    {
      lens := segmentLens;
      column := 0;
      index := 0;
      running := true;
      drawn := [];
    }

    /** Ticks left until the timer stops. */
    function Ticks(): nat
      reads this
      requires Valid()
    {
      if running then TicksFrom(lens, column, index) else 0
    }

    /** plot_next_segment: past the last segment of a column move to the
        next column, stopping the timer when that wraps to the first;
        otherwise draw the current segment if it has more than one point and
        advance.  The drawings made and still to come are those of the pass
        so far. */
    method Tick()
      requires Valid() && running
      modifies this`column, this`index, this`running, this`drawn
      ensures Valid()
      ensures Ticks() < old(Ticks())
      ensures running ==>
        drawn + DrawOrderFrom(lens, column, index) == old(drawn) + DrawOrderFrom(lens, old(column), old(index))
      ensures !running ==>
        drawn == old(drawn) + DrawOrderFrom(lens, old(column), old(index)) && column == 0 && index == 0
    {
      if index >= |lens[column]| {
        LastColumnStep(lens, column);
        NextColumn();
        if !running {
          return;
        }
      }
      DrawCurrent();
    }

    /** Past the last segment of a column: index 0 of the next column,
        (current_column + 1) % len(columns), and the timer stops when that
        wraps to the first. */
    method NextColumn()
      requires Valid() && running && index == |lens[column]|
      modifies this`column, this`index, this`running
      ensures Valid() && index == 0
      ensures old(column) + 1 < |lens| ==> column == old(column) + 1 && running
      ensures old(column) + 1 == |lens| ==> column == 0 && !running
    {
      index := 0;
      column := if column + 1 < |lens| then column + 1 else 0;
      if column == 0 {
        running := false;
      }
    }

    /** Draws the current segment if it has more than one point and moves
        to the next segment of the same column. */
    method DrawCurrent()
      requires Valid() && running && index < |lens[column]|
      modifies this`index, this`drawn
      ensures Valid() && column == old(column) && index == old(index) + 1
      ensures drawn + DrawOrderFrom(lens, column, index) == old(drawn) + DrawOrderFrom(lens, column, old(index))
      ensures TicksFrom(lens, column, index) + 1 == TicksFrom(lens, column, old(index))
    {
      SegmentStep(lens, column, index);
      ghost var head: seq<(nat, nat)> := if lens[column][index] > 1 then [(column, index)] else [];
      ghost var rest := DrawOrderFrom(lens, column, index + 1);
      if lens[column][index] > 1 {
        drawn := drawn + [(column, index)];
      }
      assert drawn == old(drawn) + head;
      index := index + 1;
      assert (old(drawn) + head) + rest == old(drawn) + (head + rest);
    }

    /** The timer running to completion: every segment with more than one
        point is drawn once, column by column. */
    method RunToEnd()
      requires Valid() && running && column == 0 && index == 0
      modifies this
      ensures Valid() && !running && lens == old(lens)
      ensures drawn == old(drawn) + DrawOrder(lens)
    {
      ghost var start := drawn;
      while running
        invariant Valid() && lens == old(lens)
        invariant running ==> drawn + DrawOrderFrom(lens, column, index) == start + DrawOrder(lens)
        invariant !running ==> drawn == start + DrawOrder(lens)
        decreases Ticks()
      {
        Tick();
      }
    }
  }
}

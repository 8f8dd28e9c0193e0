/** The nearest-timestamp lookup shared by the signals and trends windows:
    np.argmin(np.abs(xs - t)) and, equally, the position of
    min(xs, key=lambda x: abs(x - t)) found again by list.index — both give
    the first position whose distance to t is smallest. */
module Nearest {

  function Dist(x: int, t: int): nat
  {
    if x >= t then x - t else t - x
  }

  /** The first position of xs nearest to t. */
  function FirstNearest(xs: seq<int>, t: int): (r: nat)
    requires |xs| > 0
    ensures r < |xs|
    ensures forall j :: 0 <= j < |xs| ==> Dist(xs[r], t) <= Dist(xs[j], t)
    ensures forall j :: 0 <= j < r ==> Dist(xs[r], t) < Dist(xs[j], t)
  {
    if |xs| == 1 then 0
    else
      var r := FirstNearest(xs[..|xs| - 1], t);
      assert forall j :: 0 <= j < |xs| - 1 ==> xs[..|xs| - 1][j] == xs[j];
      if Dist(xs[|xs| - 1], t) < Dist(xs[r], t) then |xs| - 1 else r
  }

  /** The nearest position is exactly t precisely when t occurs in xs, and
      then it is t's first occurrence. */
  lemma ExactMatch(xs: seq<int>, t: int)
    requires |xs| > 0
    ensures Dist(xs[FirstNearest(xs, t)], t) == 0 <==> t in xs
    ensures t in xs ==> xs[FirstNearest(xs, t)] == t && forall j :: 0 <= j < FirstNearest(xs, t) ==> xs[j] != t
  {
    var r := FirstNearest(xs, t);
    if t in xs {
      var i :| 0 <= i < |xs| && xs[i] == t;
      assert Dist(xs[i], t) == 0;
    }
  }
}

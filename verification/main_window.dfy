/** The main window's tiling of its three sub-windows (records on the left,
    trends in the middle, signals on the right) inside the MDI area, the
    guard against re-entrant tiling, and the layout and theme toggles.
    Sizes are Qt's integer pixels. */
module MainWindow {
  import opened Common

  datatype Layout = Horizontal | Vertical

  /** The other layout: toggling twice restores the first. */
  function Toggled(l: Layout): (r: Layout)
    ensures r != l
  {
    if l == Horizontal then Vertical else Horizontal
  }

  datatype Rect = Rect(x: int, y: int, w: int, h: int)

  /** A sub-window as tiling sees it: its geometry, its minimum size,
      whether the window system has it minimized (iconified, Qt's
      `isMinimized()`), and whether it is shown. The records window's own
      shrink-to-first-column flag is a different thing: it reaches tiling
      only as the `restore` argument (see `RecordsResized`). */
  datatype Pane = Pane(geom: Rect, minWidth: int, minHeight: int, minimized: bool, visible: bool)

  /** The `resized_window` argument: which sub-window the user resized. */
  datatype Resized = NoWindow | LeftWindow | MiddleWindow | RightWindow

  /** The `resize_from` argument. */
  datatype From = FromNowhere | FromLeft

  /** The width asked of the left window before its minimum is applied:
      a third of the area when restoring the balanced layout, otherwise its
      current width, and no less than its minimum when minimized. */
  function RequestedLeft(restore: bool, total: int, p: Pane): (w: int)
    ensures restore ==> w == total / 3
    ensures !restore && p.minimized ==> w >= p.minWidth && w >= p.geom.w
    ensures !restore ==> w == p.geom.w || w == p.minWidth
  {
    if restore then total / 3
    else if p.minimized then Max(p.minWidth, p.geom.w)
    else p.geom.w
  }

  /** Shares `span` pixels between the middle window (first) and the right
      window (second), along the width in the horizontal layout and along
      the height in the vertical one.  The dragged window keeps its size
      clamped into what the other one's minimum leaves; otherwise the span
      is halved.  The second window always gets at least its minimum; the
      first only when the span holds both minimums. */
  function ShareSpan(span: int, firstMin: int, secondMin: int, dragged: Resized, firstSize: int, secondSize: int)
    : (r: (int, int))
    ensures r.0 + r.1 == span
    ensures r.1 >= secondMin
    ensures span >= firstMin + secondMin ==> r.0 >= firstMin
    ensures (dragged == MiddleWindow && span >= firstMin + secondMin
             ==> r.0 == Max(firstMin, Min(firstSize, span - secondMin)))
    ensures (dragged == RightWindow && span >= firstMin + secondMin
             ==> r.1 == Max(secondMin, Min(secondSize, span - firstMin)))
    ensures (dragged != MiddleWindow && dragged != RightWindow
             && span / 2 >= firstMin && span - span / 2 >= secondMin
             ==> r.0 == span / 2)
  {
    // the dragged window's size clamped, or the span halved
    var shares :=
      if dragged == MiddleWindow then
        var first := if firstSize < firstMin then firstMin
                     else if firstSize > span - secondMin then span - secondMin
                     else firstSize;
        (first, span - first)
      else if dragged == RightWindow then
        var second := if secondSize < secondMin then secondMin
                      else if secondSize > span - firstMin then span - firstMin
                      else secondSize;
        (span - second, second)
      else
        (span / 2, span - span / 2);
    // then each minimum, the second one last
    var raised := if shares.0 < firstMin then (firstMin, span - firstMin) else shares;
    if raised.1 < secondMin then (span - secondMin, secondMin) else raised
  }

  /** The left width of the stacked layout: the requested one, unless the
      column beside it would be narrower than `columnMin`, in which case
      the column gets exactly `columnMin` and the left window the rest. */
  function StackedLeft(total: int, leftWidth: int, columnMin: int): (w: int)
    ensures total - w >= columnMin
    ensures w == leftWidth || total - w == columnMin
    ensures total - leftWidth >= columnMin ==> w == leftWidth
  {
    if total - leftWidth < columnMin then total - columnMin else leftWidth
  }

  class Workspace {
    /** _resizing: set while a tiling is in progress. */
    var resizing: bool
    var layoutMode: Layout
    var darkTheme: bool
    /** The MDI area's size. */
    var areaWidth: int
    var areaHeight: int
    /** RecordsViev_subwindow, TrendsSubwindow, SignalsView_subwindow. */
    var left: Pane
    var middle: Pane
    var right: Pane

    /** What a finished tiling leaves: all three windows shown and placed
        edge to edge for the current layout. */
    predicate Tiled()
      reads this
    {
      left.visible && middle.visible && right.visible
      && if layoutMode == Horizontal then SideBySide() else Stacked()
    }

    /** Side by side: the three windows fill the area left to right, and
        the left and right windows keep their minimum widths. */
    predicate SideBySide()
      reads this
    {
      left.geom == Rect(0, 0, left.geom.w, areaHeight)
      && middle.geom == Rect(left.geom.w, 0, middle.geom.w, areaHeight)
      && right.geom == Rect(left.geom.w + middle.geom.w, 0, right.geom.w, areaHeight)
      && left.geom.w + middle.geom.w + right.geom.w == areaWidth
      && left.geom.w >= left.minWidth && right.geom.w >= right.minWidth
    }

    /** Stacked: the left window takes the full height, and the middle and
        right windows share one column, at least as wide as both their
        minimums, with the right one keeping its minimum height. */
    predicate Stacked()
      reads this
    {
      left.geom == Rect(0, 0, left.geom.w, areaHeight)
      && middle.geom == Rect(left.geom.w, 0, middle.geom.w, middle.geom.h)
      && right.geom == Rect(left.geom.w, middle.geom.h, middle.geom.w, right.geom.h)
      && left.geom.w + middle.geom.w == areaWidth
      && middle.geom.h + right.geom.h == areaHeight
      && middle.geom.w >= Max(middle.minWidth, right.minWidth)
      && right.geom.h >= right.minHeight
    }

    /** The window starts side by side in the dark theme and tiles its
        sub-windows once. */
    constructor (width: int, height: int, records: Pane, trends: Pane, signals: Pane)
      ensures !resizing && layoutMode == Horizontal && darkTheme
      ensures areaWidth == width && areaHeight == height
      ensures Tiled()
    {
      resizing := false;
      darkTheme := true;
      layoutMode := Horizontal;
      areaWidth, areaHeight := width, height;
      left, middle, right := records, trends, signals;
      new;
      TileSubwindows(false, NoWindow, FromNowhere);
    }

    /** tile_subwindows.  A call made while a tiling is in progress returns
        at once; otherwise the windows are tiled for the current layout and
        the flag is cleared again.  The left width is the requested one
        raised to its minimum, and side by side nothing reduces it
        afterwards. */
    method TileSubwindows(restore: bool, dragged: Resized, from: From)
      modifies this
      ensures resizing == old(resizing)
      ensures layoutMode == old(layoutMode) && darkTheme == old(darkTheme)
      ensures areaWidth == old(areaWidth) && areaHeight == old(areaHeight)
      ensures left.minWidth == old(left.minWidth) && left.minimized == old(left.minimized)
      ensures middle.minWidth == old(middle.minWidth) && middle.minHeight == old(middle.minHeight)
      ensures right.minWidth == old(right.minWidth) && right.minHeight == old(right.minHeight)
      ensures old(resizing) ==> left == old(left) && middle == old(middle) && right == old(right)
      ensures !old(resizing) ==> Tiled()
      ensures (!old(resizing) && layoutMode == Horizontal
               ==> left.geom.w == Max(RequestedLeft(restore, areaWidth, old(left)), left.minWidth))
      ensures (!old(resizing) && layoutMode == Horizontal
               ==> (middle.geom.w, right.geom.w)
                   == ShareSpan(areaWidth - left.geom.w, middle.minWidth, right.minWidth, dragged,
                                old(middle).geom.w, old(right).geom.w))
      ensures (!old(resizing) && layoutMode == Vertical
               ==> left.geom.w == StackedLeft(areaWidth, Max(RequestedLeft(restore, areaWidth, old(left)), left.minWidth),
                                              Max(middle.minWidth, right.minWidth)))
      ensures (!old(resizing) && layoutMode == Vertical
               ==> (middle.geom.h, right.geom.h)
                   == ShareSpan(areaHeight, middle.minHeight, right.minHeight, dragged,
                                old(middle).geom.h, old(right).geom.h))
      ensures (!old(resizing) && layoutMode == Horizontal
               && areaWidth - left.geom.w >= middle.minWidth + right.minWidth
               ==> middle.geom.w >= middle.minWidth)
      ensures (!old(resizing) && layoutMode == Vertical
               && areaHeight >= middle.minHeight + right.minHeight
               ==> middle.geom.h >= middle.minHeight)
    {
      if resizing {
        return;
      }
      resizing := true;
      left := left.(visible := true);
      middle := middle.(visible := true);
      right := right.(visible := true);
      var leftWidth := LeftWidth(restore, from);
      if layoutMode == Horizontal {
        TileSideBySide(leftWidth, dragged);
      } else {
        TileStacked(leftWidth, dragged);
      }
      resizing := false;
    }

    /** The left window's width before the layout is applied: the
        requested width raised to its minimum.  Shrinking from the left
        keeps the current width. */
    method LeftWidth(restore: bool, from: From) returns (leftWidth: int)
      ensures leftWidth == Max(RequestedLeft(restore, areaWidth, left), left.minWidth)
    {
      if restore {
        leftWidth := areaWidth / 3;
      } else {
        leftWidth := left.geom.w;
        if left.minimized {
          leftWidth := Max(left.minWidth, leftWidth);
        } else if from == FromLeft {
          leftWidth := left.geom.w;
        }
      }
      if leftWidth < left.minWidth {
        leftWidth := left.minWidth;
      }
    }

    /** The horizontal branch of tile_subwindows: the middle and right
        windows share what the left one leaves.  The guard that would
        narrow the left window never fires, since the two shares add up
        to exactly that remainder. */
    method TileSideBySide(leftWidth: int, dragged: Resized)
      requires leftWidth >= left.minWidth
      modifies this`left, this`middle, this`right
      ensures left == old(left).(geom := left.geom) && middle == old(middle).(geom := middle.geom)
      ensures right == old(right).(geom := right.geom)
      ensures SideBySide() && left.geom.w == leftWidth
      ensures (middle.geom.w, right.geom.w)
              == ShareSpan(areaWidth - leftWidth, middle.minWidth, right.minWidth, dragged,
                           old(middle).geom.w, old(right).geom.w)
    {
      var totalWidth, totalHeight := areaWidth, areaHeight;
      var leftW := leftWidth;
      var remaining := totalWidth - leftW;
      var widths := ShareSpan(remaining, middle.minWidth, right.minWidth, dragged, middle.geom.w, right.geom.w);
      var middleWidth, rightWidth := widths.0, widths.1;
      if leftW + middleWidth + rightWidth > totalWidth {
        leftW := totalWidth - (middleWidth + rightWidth);
      }
      left := left.(geom := Rect(0, 0, leftW, totalHeight));
      middle := middle.(geom := Rect(leftW, 0, middleWidth, totalHeight));
      right := right.(geom := Rect(leftW + middleWidth, 0, rightWidth, totalHeight));
    }

    /** The vertical branch of tile_subwindows: the middle and right
        windows share the height in one column, which is widened to both
        their minimums at the left window's expense. */
    method TileStacked(leftWidth: int, dragged: Resized)
      modifies this`left, this`middle, this`right
      ensures left == old(left).(geom := left.geom) && middle == old(middle).(geom := middle.geom)
      ensures right == old(right).(geom := right.geom)
      ensures Stacked()
      ensures (middle.geom.h, right.geom.h)
              == ShareSpan(areaHeight, middle.minHeight, right.minHeight, dragged,
                           old(middle).geom.h, old(right).geom.h)
      ensures left.geom.w == StackedLeft(areaWidth, leftWidth, Max(middle.minWidth, right.minWidth))
    {
      var totalWidth, totalHeight := areaWidth, areaHeight;
      var leftW := leftWidth;
      var rightWidth := totalWidth - leftW;
      var heights := ShareSpan(totalHeight, middle.minHeight, right.minHeight, dragged, middle.geom.h, right.geom.h);
      var middleHeight, rightHeight := heights.0, heights.1;
      var rightMinWidth := Max(middle.minWidth, right.minWidth);
      if rightWidth < rightMinWidth {
        rightWidth := rightMinWidth;
        leftW := totalWidth - rightWidth;
      }
      left := left.(geom := Rect(0, 0, leftW, totalHeight));
      middle := middle.(geom := Rect(leftW, 0, rightWidth, middleHeight));
      right := right.(geom := Rect(leftW, middleHeight, rightWidth, rightHeight));
    }

    /** The signals window's resizeEvent: tiles again with the signals
        window as the dragged one, unless a tiling is in progress. */
    method SignalsResized()
      modifies this
      ensures resizing == old(resizing) && layoutMode == old(layoutMode)
      ensures old(resizing) ==> left == old(left) && middle == old(middle) && right == old(right)
      ensures !old(resizing) ==> Tiled()
    {
      if !resizing {
        TileSubwindows(false, RightWindow, FromNowhere);
      }
    }

    /** The records window's resizeEvent and moveEvent, and the end of its
        toggle_resize: tiles again from the left, with `restore` set from
        the records window's shrink flag (shrunk, or not shrunk for the
        toggle). Restoring gives the left window a third of the area, or
        its minimum if that is more; otherwise it keeps its width, raised
        to its minimum (side by side; stacked, the left width can give way
        to the right-hand column's minimum). */
    method RecordsResized(restore: bool)
      modifies this
      ensures resizing == old(resizing) && layoutMode == old(layoutMode)
      ensures old(resizing) ==> left == old(left) && middle == old(middle) && right == old(right)
      ensures !old(resizing) ==> Tiled()
      ensures (!old(resizing) && layoutMode == Horizontal && restore
               ==> left.geom.w == Max(areaWidth / 3, left.minWidth))
      ensures (!old(resizing) && layoutMode == Horizontal && !restore
               ==> left.geom.w == Max(RequestedLeft(false, areaWidth, old(left)), left.minWidth))
    {
      if !resizing {
        TileSubwindows(restore, NoWindow, FromLeft);
      }
    }

    /** The main window's resizeEvent: the MDI area takes its new size and
        the windows are tiled again, restoring the balanced layout while
        the records window is minimized by the window system. */
    method Resized(width: int, height: int)
      modifies this
      ensures areaWidth == width && areaHeight == height
      ensures resizing == old(resizing) && layoutMode == old(layoutMode)
      ensures !old(resizing) ==> Tiled()
    {
      areaWidth, areaHeight := width, height;
      TileSubwindows(left.minimized, NoWindow, FromNowhere);
    }

    /** toggle_layout: switches between side by side and stacked, then
        tiles again. */
    method ToggleLayout()
      modifies this
      ensures layoutMode == Toggled(old(layoutMode))
      ensures darkTheme == old(darkTheme) && resizing == old(resizing)
      ensures !old(resizing) ==> Tiled()
    {
      layoutMode := if layoutMode == Horizontal then Vertical else Horizontal;
      TileSubwindows(false, NoWindow, FromNowhere);
    }

    /** toggle_theme: switches between the dark and the light theme; the
        colours themselves are presentation. */
    method ToggleTheme()
      modifies this
      ensures darkTheme == !old(darkTheme)
      ensures layoutMode == old(layoutMode) && resizing == old(resizing)
      ensures left == old(left) && middle == old(middle) && right == old(right)
    {
      darkTheme := !darkTheme;
    }
  }

  /** Toggling the layout twice gives back the first layout, and the
      windows are tiled for it again. */
  method ToggleLayoutTwice(w: Workspace)
    requires !w.resizing
    modifies w
    ensures w.layoutMode == old(w.layoutMode) && w.Tiled()
  {
    w.ToggleLayout();
    w.ToggleLayout();
  }
}

/** The Java side of the terminal toolkit (`jcurses.system.Toolkit`): the
    per-thread stack of clip rectangles, the clip arithmetic applied before
    every native drawing call, keyboard decoding, and the lazily allocated
    colour-pair table.  The native calls themselves are recorded as
    `DrawOp` values instead of being performed. */
module Toolkit {
  import opened Wrappers
  import opened Geometry
  import opened CharColors
  import TextUtils

  /* ---------------------------------------------------------------------
     Clip stack
     --------------------------------------------------------------------- */

  /** The clip rectangles pushed by the painting thread, oldest first.  An
      absent list and an empty list behave alike. */
  type ClipStack = seq<Rect>

  /** `setClipRectangle`. */
  function PushClip(s: ClipStack, r: Rect): (t: ClipStack)
    ensures |t| == |s| + 1 && t[..|s|] == s && t[|s|] == r
  {
    s + [r]
  }

  /** `unsetClipRectangle`: drops the newest rectangle; nothing happens when
      none is pushed. */
  function PopClip(s: ClipStack): (t: ClipStack)
    ensures |s| > 0 ==> |t| == |s| - 1 && s == t + [s[|s| - 1]]
    ensures |s| == 0 ==> t == []
  {
    if |s| > 0 then s[..|s| - 1] else s
  }

  /** Popping undoes pushing. */
  lemma PopUndoesPush(s: ClipStack, r: Rect)
    ensures PopClip(PushClip(s, r)) == s
  {
  }

  /** The rectangles intersected left to right. */
  function ClipFold(s: ClipStack): Rect
    requires |s| > 0
    decreases |s|
  {
    if |s| == 1 then s[0] else Intersection(ClipFold(s[..|s| - 1]), s[|s| - 1])
  }

  /** The clip rectangle in force: none when nothing is pushed, otherwise
      the intersection of all pushed rectangles. */
  function EffectiveClip(s: ClipStack): (r: Option<Rect>)
    ensures r.None? <==> |s| == 0
  {
    if |s| == 0 then None else Some(ClipFold(s))
  }

  /** A cell lies in the folded clip exactly when it lies in every pushed
      rectangle. */
  lemma {:induction false} ClipFoldCells(s: ClipStack, px: int, py: int)
    requires |s| > 0
    ensures Inside(ClipFold(s), px, py) <==> forall i :: 0 <= i < |s| ==> Inside(s[i], px, py)
    decreases |s|
  {
    if |s| > 1 {
      var init := s[..|s| - 1];
      ClipFoldCells(init, px, py);
      IntersectionCells(ClipFold(init), s[|s| - 1], px, py);
      assert forall i :: 0 <= i < |s| - 1 ==> init[i] == s[i];
    }
  }

  /** Pushing a rectangle narrows the clip to its intersection with the
      previous clip. */
  lemma PushNarrowsClip(s: ClipStack, r: Rect)
    ensures EffectiveClip(PushClip(s, r)) == Some(if |s| == 0 then r else Intersection(ClipFold(s), r))
  {
    assert PushClip(s, r)[..|s|] == s;
  }

  /** Once the fold is empty it stays the same rectangle, because an empty
      receiver is its own intersection with anything. */
  lemma {:induction false} EmptyFoldAbsorbs(s: ClipStack, i: nat)
    requires 1 <= i <= |s|
    requires IsEmpty(ClipFold(s[..i]))
    ensures ClipFold(s) == ClipFold(s[..i])
    decreases |s| - i
  {
    if i < |s| {
      assert s[..i + 1][..i] == s[..i];
      assert ClipFold(s[..i + 1]) == ClipFold(s[..i]);
      EmptyFoldAbsorbs(s, i + 1);
    } else {
      assert s[..i] == s;
    }
  }

  /** `getCurrentClipRectangle`, with its early return as soon as the
      running intersection is empty; it yields the full fold. */
  method CurrentClipRectangle(s: ClipStack) returns (r: Option<Rect>)
    ensures r == EffectiveClip(s)
  {
    if |s| == 0 {
      return None;
    }
    var result := s[0];
    assert s[..1] == [s[0]];
    var i := 1;
    while i < |s|
      invariant 1 <= i <= |s|
      invariant result == ClipFold(s[..i])
    {
      assert s[..i + 1][..i] == s[..i];
      result := Intersection(result, s[i]);
      i := i + 1;
      if IsEmpty(result) {
        EmptyFoldAbsorbs(s, i);
        return Some(result);
      }
    }
    assert s[..|s|] == s;
    return Some(result);
  }

  /* ---------------------------------------------------------------------
     Drawing under a clip
     --------------------------------------------------------------------- */

  datatype CornerKind = UpperLeft | UpperRight | LowerLeft | LowerRight

  /** One native drawing call. */
  datatype DrawOp =
    | FillRect(area: Rect, color: CharColor)
    | HLine(startX: int, y: int, endX: int, color: CharColor, thick: bool)
    | VLine(x: int, startY: int, endY: int, color: CharColor, thick: bool)
    | Corner(x: int, y: int, kind: CornerKind, color: CharColor)
    | Text(text: string, x: int, y: int, width: int, color: CharColor)
    | Recolor(area: Rect, color: CharColor)
    | ClearScreen(color: CharColor)

  /** The cells a native call writes. */
  predicate Covers(op: DrawOp, px: int, py: int) {
    match op
    case FillRect(area, _) => Inside(area, px, py)
    case HLine(sx, y, ex, _, _) => py == y && Min(sx, ex) <= px <= Max(sx, ex)
    case VLine(x, sy, ey, _, _) => px == x && Min(sy, ey) <= py <= Max(sy, ey)
    case Corner(x, y, _, _) => px == x && py == y
    case Text(t, x, y, w, _) => py == y && x <= px < x + Min(|t|, w)
    case Recolor(area, _) => Inside(area, px, py)
    case ClearScreen(_) => true
  }

  /** Some call writes the cell (px, py). */
  ghost predicate Painted(ops: seq<DrawOp>, px: int, py: int) {
    exists i :: 0 <= i < |ops| && Covers(ops[i], px, py)
  }

  /** With at most one call, a cell is painted iff that call covers it. */
  lemma PaintedByOne(ops: seq<DrawOp>)
    requires |ops| <= 1
    ensures forall px, py :: Painted(ops, px, py) <==> |ops| == 1 && Covers(ops[0], px, py)
  {
  }

  /** Every cell written by the calls lies in the clip. */
  ghost predicate WithinClip(ops: seq<DrawOp>, clip: Rect) {
    forall i, px, py :: 0 <= i < |ops| && Covers(ops[i], px, py) ==> Inside(clip, px, py)
  }

  /** `isBetween`: the bounds are swapped when given in reverse order. */
  predicate IsBetween(v: int, a: int, b: int) {
    if a > b then b <= v <= a else a <= v <= b
  }

  lemma IsBetweenSymmetric(v: int, a: int, b: int)
    ensures IsBetween(v, a, b) == IsBetween(v, b, a)
    ensures IsBetween(v, a, b) <==> Min(a, b) <= v <= Max(a, b)
  {
  }

  /** `drawCornerClip` as written: the corner is drawn when each coordinate
      lies between the clip's edges, in either order. */
  function DrawCornerClip(x: int, y: int, kind: CornerKind, clip: Option<Rect>, color: CharColor): (ops: seq<DrawOp>)
    ensures |ops| <= 1
    ensures clip.None? ==> ops == [Corner(x, y, kind, color)]
    ensures clip.Some? && !IsEmpty(clip.value) ==> WithinClip(ops, clip.value)
  {
    match clip
    case None => [Corner(x, y, kind, color)]
    case Some(c) =>
      if IsBetween(x, Left(c), Right(c)) && IsBetween(y, Top(c), Bottom(c)) then [Corner(x, y, kind, color)] else []
  }

  /** `drawHLineClip` (and `drawHorizontalThickLine`) as written: the line
      is trimmed to the clip's columns and drawn when its row lies between
      the clip's top and bottom, in either order, and something is left. */
  function DrawHLineClip(startX: int, y: int, endX: int, clip: Option<Rect>, color: CharColor, thick: bool): (ops: seq<DrawOp>)
    ensures |ops| <= 1
    ensures clip.None? ==> ops == [HLine(startX, y, endX, color, thick)]
    ensures clip.Some? && !IsEmpty(clip.value) ==> WithinClip(ops, clip.value)
    ensures clip.Some? && !IsEmpty(clip.value) ==>
      (|ops| == 1 <==> Top(clip.value) <= y <= Bottom(clip.value)
                       && startX <= Right(clip.value) && endX >= Left(clip.value))
    ensures clip.Some? && |ops| == 1 ==>
      ops[0] == HLine(Max(startX, Left(clip.value)), y, Min(endX, Right(clip.value)), color, thick)
    ensures clip.Some? && !IsEmpty(clip.value) && startX <= endX ==> forall px, py ::
      Painted(ops, px, py) <==> py == y && startX <= px <= endX && Inside(clip.value, px, py)
  {
    match clip
    case None => [HLine(startX, y, endX, color, thick)]
    case Some(c) =>
      var sx := Max(startX, Left(c));
      var ex := Min(endX, Right(c));
      var ops := if IsBetween(y, Top(c), Bottom(c)) && sx <= Right(c) && ex >= Left(c) then [HLine(sx, y, ex, color, thick)] else [];
      PaintedByOne(ops);
      ops
  }

  /** `drawVLineClip` (and `drawVerticalThickLine`) as written: the
      transpose of the horizontal case. */
  function DrawVLineClip(x: int, startY: int, endY: int, clip: Option<Rect>, color: CharColor, thick: bool): (ops: seq<DrawOp>)
    ensures |ops| <= 1
    ensures clip.None? ==> ops == [VLine(x, startY, endY, color, thick)]
    ensures clip.Some? && !IsEmpty(clip.value) ==> WithinClip(ops, clip.value)
    ensures clip.Some? && !IsEmpty(clip.value) ==>
      (|ops| == 1 <==> Left(clip.value) <= x <= Right(clip.value)
                       && startY <= Bottom(clip.value) && endY >= Top(clip.value))
    ensures clip.Some? && |ops| == 1 ==>
      ops[0] == VLine(x, Max(startY, Top(clip.value)), Min(endY, Bottom(clip.value)), color, thick)
    ensures clip.Some? && !IsEmpty(clip.value) && startY <= endY ==> forall px, py ::
      Painted(ops, px, py) <==> px == x && startY <= py <= endY && Inside(clip.value, px, py)
  {
    match clip
    case None => [VLine(x, startY, endY, color, thick)]
    case Some(c) =>
      var sy := Max(startY, Top(c));
      var ey := Min(endY, Bottom(c));
      var ops := if IsBetween(x, Left(c), Right(c)) && sy <= Bottom(c) && ey >= Top(c) then [VLine(x, sy, ey, color, thick)] else [];
      PaintedByOne(ops);
      ops
  }

  /** With a clip of zero height the swapped bounds let a line through on
      the row above the clip, and a corner likewise; the clip covers no
      cell at all. */
  lemma DegenerateClipLeaks(color: CharColor)
    ensures IsEmpty(Rect(0, 5, 10, 0))
    ensures DrawHLineClip(0, 4, 9, Some(Rect(0, 5, 10, 0)), color, false) == [HLine(0, 4, 9, color, false)]
    ensures DrawCornerClip(0, 4, UpperLeft, Some(Rect(0, 5, 10, 0)), color) == [Corner(0, 4, UpperLeft, color)]
    ensures Covers(HLine(0, 4, 9, color, false), 0, 4) && !Inside(Rect(0, 5, 10, 0), 0, 4)
  {
  }

  /** The clip of zero height arises as the intersection of two windows
      that touch. */
  lemma DegenerateClipArises()
    ensures Intersection(Rect(0, 0, 10, 5), Rect(0, 5, 10, 5)) == Rect(0, 5, 10, 0)
  {
  }

  /** The corner test as intended: the corner cell lies in the clip. */
  function CornerClipped(x: int, y: int, kind: CornerKind, clip: Option<Rect>, color: CharColor): (ops: seq<DrawOp>)
    ensures clip.None? ==> ops == [Corner(x, y, kind, color)]
    ensures clip.Some? ==> WithinClip(ops, clip.value)
    ensures clip.Some? ==> (|ops| == 1 <==> Inside(clip.value, x, y))
  {
    match clip
    case None => [Corner(x, y, kind, color)]
    case Some(c) => if Inside(c, x, y) then [Corner(x, y, kind, color)] else []
  }

  /** The horizontal line test as intended: the row must be one of the
      clip's rows, without swapping the bounds. */
  function HLineClipped(startX: int, y: int, endX: int, clip: Option<Rect>, color: CharColor, thick: bool): (ops: seq<DrawOp>)
    ensures |ops| <= 1
    ensures clip.None? ==> ops == [HLine(startX, y, endX, color, thick)]
    ensures clip.Some? ==> WithinClip(ops, clip.value)
    ensures clip.Some? && startX <= endX ==> forall px, py ::
      Painted(ops, px, py) <==> py == y && startX <= px <= endX && Inside(clip.value, px, py)
  {
    match clip
    case None => [HLine(startX, y, endX, color, thick)]
    case Some(c) =>
      var sx := Max(startX, Left(c));
      var ex := Min(endX, Right(c));
      var ops := if Top(c) <= y <= Bottom(c) && sx <= Right(c) && ex >= Left(c) then [HLine(sx, y, ex, color, thick)] else [];
      PaintedByOne(ops);
      ops
  }

  /** The vertical line test as intended: the transpose of `HLineClipped`. */
  function VLineClipped(x: int, startY: int, endY: int, clip: Option<Rect>, color: CharColor, thick: bool): (ops: seq<DrawOp>)
    ensures |ops| <= 1
    ensures clip.None? ==> ops == [VLine(x, startY, endY, color, thick)]
    ensures clip.Some? ==> WithinClip(ops, clip.value)
    ensures clip.Some? && startY <= endY ==> forall px, py ::
      Painted(ops, px, py) <==> px == x && startY <= py <= endY && Inside(clip.value, px, py)
  {
    match clip
    case None => [VLine(x, startY, endY, color, thick)]
    case Some(c) =>
      var sy := Max(startY, Top(c));
      var ey := Min(endY, Bottom(c));
      var ops := if Left(c) <= x <= Right(c) && sy <= Bottom(c) && ey >= Top(c) then [VLine(x, sy, ey, color, thick)] else [];
      PaintedByOne(ops);
      ops
  }

  /** For any clip that covers a cell the repaired tests agree with the
      Java code's. */
  lemma ClippedAgreeOnNonEmptyClip(x: int, y: int, e: int, kind: CornerKind, c: Rect, color: CharColor, thick: bool)
    requires !IsEmpty(c)
    ensures CornerClipped(x, y, kind, Some(c), color) == DrawCornerClip(x, y, kind, Some(c), color)
    ensures HLineClipped(x, y, e, Some(c), color, thick) == DrawHLineClip(x, y, e, Some(c), color, thick)
    ensures VLineClipped(x, y, e, Some(c), color, thick) == DrawVLineClip(x, y, e, Some(c), color, thick)
  {
  }

  /** `drawBorder`: four corners and four edges, each through the clipped
      primitives as jcurses writes them.  The top edge stops one column
      short of the upper-right corner while the bottom edge runs into the
      lower-right one, as in the Java code.  A clip that covers a cell keeps
      the border inside it; a clip of zero height does not (see
      `DegenerateBorderLeaks`). */
  function DrawBorder(x: int, y: int, w: int, h: int, clip: Option<Rect>, color: CharColor): (ops: seq<DrawOp>)
    ensures clip.None? ==> |ops| == 8
    ensures clip.Some? && !IsEmpty(clip.value) ==> WithinClip(ops, clip.value)
  {
    var top := DrawCornerClip(x, y, UpperLeft, clip, color)
      + DrawVLineClip(x, y + 1, y + h - 2, clip, color, false)
      + DrawHLineClip(x + 1, y, x + w - 2, clip, color, false)
      + DrawCornerClip(x + w - 1, y, UpperRight, clip, color);
    var bottom := DrawVLineClip(x + w - 1, y + 1, y + h - 2, clip, color, false)
      + DrawCornerClip(x, y + h - 1, LowerLeft, clip, color)
      + DrawHLineClip(x + 1, y + h - 1, x + w - 1, clip, color, false)
      + DrawCornerClip(x + w - 1, y + h - 1, LowerRight, clip, color);
    if clip.Some? && !IsEmpty(clip.value) then WithinClipAppend(top, bottom, clip.value); top + bottom
    else top + bottom
  }

  /** `drawBorder` on the corrected primitives: whatever the clip, nothing
      is drawn outside it. */
  function DrawBorderClipped(x: int, y: int, w: int, h: int, clip: Option<Rect>, color: CharColor): (ops: seq<DrawOp>)
    ensures clip.None? ==> |ops| == 8
    ensures clip.Some? ==> WithinClip(ops, clip.value)
  {
    var top := CornerClipped(x, y, UpperLeft, clip, color)
      + VLineClipped(x, y + 1, y + h - 2, clip, color, false)
      + HLineClipped(x + 1, y, x + w - 2, clip, color, false)
      + CornerClipped(x + w - 1, y, UpperRight, clip, color);
    var bottom := VLineClipped(x + w - 1, y + 1, y + h - 2, clip, color, false)
      + CornerClipped(x, y + h - 1, LowerLeft, clip, color)
      + HLineClipped(x + 1, y + h - 1, x + w - 1, clip, color, false)
      + CornerClipped(x + w - 1, y + h - 1, LowerRight, clip, color);
    if clip.Some? then WithinClipAppend(top, bottom, clip.value); top + bottom
    else top + bottom
  }

  /** Unclipped or under a clip that covers a cell, the corrected border is
      the border jcurses draws. */
  lemma BorderClippedAgrees(x: int, y: int, w: int, h: int, clip: Option<Rect>, color: CharColor)
    requires clip.None? || !IsEmpty(clip.value)
    ensures DrawBorderClipped(x, y, w, h, clip, color) == DrawBorder(x, y, w, h, clip, color)
  {
    if clip.Some? {
      var c := clip.value;
      forall px, py, k ensures CornerClipped(px, py, k, clip, color) == DrawCornerClip(px, py, k, clip, color) {
        ClippedAgreeOnNonEmptyClip(px, py, py, k, c, color, false);
      }
      forall px, py, e ensures HLineClipped(px, py, e, clip, color, false) == DrawHLineClip(px, py, e, clip, color, false) {
        ClippedAgreeOnNonEmptyClip(px, py, e, UpperLeft, c, color, false);
      }
      forall px, py, e ensures VLineClipped(px, py, e, clip, color, false) == DrawVLineClip(px, py, e, clip, color, false) {
        ClippedAgreeOnNonEmptyClip(px, py, e, UpperLeft, c, color, false);
      }
    }
  }

  /** Under the zero-height clip two touching windows produce, the border
      one row above the clip still gets its upper-left corner, while the
      corrected border draws nothing. */
  lemma DegenerateBorderLeaks(color: CharColor)
    ensures var clip := Some(Rect(0, 5, 10, 0));
      DrawBorder(0, 4, 10, 3, clip, color)[0] == Corner(0, 4, UpperLeft, color)
      && DrawBorderClipped(0, 4, 10, 3, clip, color) == []
  {
    var clip := Some(Rect(0, 5, 10, 0));
    assert DrawCornerClip(0, 4, UpperLeft, clip, color) == [Corner(0, 4, UpperLeft, color)];
  }

  lemma WithinClipAppend(a: seq<DrawOp>, b: seq<DrawOp>, clip: Rect)
    requires WithinClip(a, clip) && WithinClip(b, clip)
    ensures WithinClip(a + b, clip)
  {
    forall i, px, py | 0 <= i < |a + b| && Covers((a + b)[i], px, py)
      ensures Inside(clip, px, py)
    {
      if i < |a| { assert (a + b)[i] == a[i]; } else { assert (a + b)[i] == b[i - |a|]; }
    }
  }

  /** The cells on the outline of a rectangle. */
  predicate OnOutline(r: Rect, px: int, py: int) {
    Inside(r, px, py) && (px == Left(r) || px == Right(r) || py == Top(r) || py == Bottom(r))
  }

  /** Unclipped, a border of at least 2 by 2 cells writes exactly the
      outline of its rectangle. */
  lemma BorderCoversOutline(x: int, y: int, w: int, h: int, color: CharColor, px: int, py: int)
    requires w >= 2 && h >= 2
    ensures (exists i :: 0 <= i < 8 && Covers(DrawBorder(x, y, w, h, None, color)[i], px, py))
        <==> OnOutline(Rect(x, y, w, h), px, py)
  {
    var ops := DrawBorder(x, y, w, h, None, color);
    assert ops == [Corner(x, y, UpperLeft, color), VLine(x, y + 1, y + h - 2, color, false),
                   HLine(x + 1, y, x + w - 2, color, false), Corner(x + w - 1, y, UpperRight, color),
                   VLine(x + w - 1, y + 1, y + h - 2, color, false), Corner(x, y + h - 1, LowerLeft, color),
                   HLine(x + 1, y + h - 1, x + w - 1, color, false), Corner(x + w - 1, y + h - 1, LowerRight, color)];
    if OnOutline(Rect(x, y, w, h), px, py) {
      if px == x && py == y { assert Covers(ops[0], px, py); }
      else if px == x && py == y + h - 1 { assert Covers(ops[5], px, py); }
      else if px == x { assert Covers(ops[1], px, py); }
      else if px == x + w - 1 && py == y { assert Covers(ops[3], px, py); }
      else if px == x + w - 1 && py == y + h - 1 { assert Covers(ops[7], px, py); }
      else if px == x + w - 1 { assert Covers(ops[4], px, py); }
      else if py == y { assert Covers(ops[2], px, py); }
      else { assert Covers(ops[6], px, py); }
    }
  }

  /** `drawRectangle` with a clip, as written: the origin is moved into the
      clip but the width and height are only capped at the clip's far
      edges, so cutting on the left or top does not shorten the box. */
  function DrawRectangleClip(x: int, y: int, w: int, h: int, clip: Option<Rect>, color: CharColor): (ops: seq<DrawOp>)
    ensures |ops| <= 1
    ensures clip.None? ==> ops == [FillRect(Rect(x, y, w, h), color)]
    ensures clip.Some? ==> WithinClip(ops, clip.value)
    ensures clip.Some? ==> forall px, py ::
      Inside(Rect(x, y, w, h), px, py) && Inside(clip.value, px, py) ==> Painted(ops, px, py)
    ensures clip.Some? && |ops| == 1 ==>
      ops[0].FillRect? && !IsEmpty(ops[0].area)
      && ops[0].area.x == Max(x, Left(clip.value)) && ops[0].area.y == Max(y, Top(clip.value))
      && ops[0].area.width <= w && ops[0].area.height <= h
  {
    match clip
    case None => [FillRect(Rect(x, y, w, h), color)]
    case Some(c) =>
      var mx := Max(x, Left(c));
      var my := Max(y, Top(c));
      var mw := Min(w, Right(c) - mx + 1);
      var mh := Min(h, Bottom(c) - my + 1);
      var ops := if mw > 0 && mh > 0 then [FillRect(Rect(mx, my, mw, mh), color)] else [];
      PaintedByOne(ops);
      ops
  }

  /** A box cut on the left spills past its own right edge. */
  lemma DrawRectangleClipOverdraws(color: CharColor)
    ensures DrawRectangleClip(0, 0, 4, 1, Some(Rect(2, 0, 10, 1)), color) == [FillRect(Rect(2, 0, 4, 1), color)]
    ensures Covers(FillRect(Rect(2, 0, 4, 1), color), 5, 0) && !Inside(Rect(0, 0, 4, 1), 5, 0)
  {
  }

  /** `drawRectangle` as intended: exactly the cells of the box that lie in
      the clip are filled. */
  function DrawRectangleClipped(x: int, y: int, w: int, h: int, clip: Option<Rect>, color: CharColor): (ops: seq<DrawOp>)
    ensures |ops| <= 1
    ensures clip.None? ==> ops == [FillRect(Rect(x, y, w, h), color)]
    ensures clip.Some? ==> forall px, py ::
      (exists i :: 0 <= i < |ops| && Covers(ops[i], px, py)) <==> Inside(Rect(x, y, w, h), px, py) && Inside(clip.value, px, py)
  {
    match clip
    case None => [FillRect(Rect(x, y, w, h), color)]
    case Some(c) =>
      var mx := Max(x, Left(c));
      var my := Max(y, Top(c));
      var mw := Min(x + w, Right(c) + 1) - mx;
      var mh := Min(y + h, Bottom(c) + 1) - my;
      var ops := if mw > 0 && mh > 0 then [FillRect(Rect(mx, my, mw, mh), color)] else [];
      assert forall px, py :: (exists i :: 0 <= i < |ops| && Covers(ops[i], px, py)) <==> (|ops| == 1 && Covers(ops[0], px, py));
      ops
  }

  /** `changeColors` with a rectangle: recolours the part of it inside the
      clip, if any. */
  function ChangeColors(area: Rect, clip: Option<Rect>, color: CharColor): (ops: seq<DrawOp>)
    ensures |ops| <= 1
    ensures forall i, px, py :: 0 <= i < |ops| && Covers(ops[i], px, py) ==> Inside(area, px, py)
    ensures clip.Some? ==> WithinClip(ops, clip.value)
    ensures clip.None? ==> (|ops| == 1 <==> !IsEmpty(area))
    ensures clip.Some? ==> (|ops| == 0 <==> IsEmpty(Intersection(area, clip.value)))
    ensures forall px, py :: Painted(ops, px, py) <==>
      Inside(area, px, py) && (clip.Some? ==> Inside(clip.value, px, py))
  {
    var r := ClipArea(area, clip);
    ClipAreaCells(area, clip);
    EmptyIffNoCell(r);
    var ops := if IsEmpty(r) then [] else [Recolor(r, color)];
    PaintedByOne(ops);
    ops
  }

  /** The part of an area that a clip leaves. */
  function ClipArea(area: Rect, clip: Option<Rect>): Rect {
    match clip
    case Some(c) => Intersection(area, c)
    case None => area
  }

  lemma ClipAreaCells(area: Rect, clip: Option<Rect>)
    ensures forall px, py :: Inside(ClipArea(area, clip), px, py) <==>
      Inside(area, px, py) && (clip.Some? ==> Inside(clip.value, px, py))
  {
    if clip.Some? {
      forall px, py
        ensures Inside(ClipArea(area, clip), px, py) <==> Inside(area, px, py) && Inside(clip.value, px, py)
      {
        IntersectionCells(area, clip.value, px, py);
      }
    }
  }

  /* ---------------------------------------------------------------------
     printString
     --------------------------------------------------------------------- */

  /** The box that `printString` writes into: origin moved into the clip,
      size capped at the clip's far edges. */
  datatype TextBox = TextBox(x: int, y: int, width: int, height: int)

  function PrintBox(x: int, y: int, w: int, h: int, clip: Option<Rect>): (b: TextBox)
    ensures b.x >= x && b.y >= y
    ensures clip.Some? ==>
      (b.x >= Left(clip.value) && b.y >= Top(clip.value)
       && b.x + b.width - 1 <= Right(clip.value) && b.y + b.height - 1 <= Bottom(clip.value))
    ensures clip.None? ==> b == TextBox(x, y, w, h)
  {
    match clip
    case None => TextBox(x, y, w, h)
    case Some(c) =>
      var mx := Max(x, Left(c));
      var my := Max(y, Top(c));
      TextBox(mx, my, Min(w, Right(c) - mx + 1), Min(h, Bottom(c) - my + 1))
  }

  /** One text call per visible line, skipping lines that the left cut
      leaves empty. */
  function PrintRows(lines: seq<string>, first: nat, rows: int, offset: nat, box: TextBox, color: CharColor, i: nat): (ops: seq<DrawOp>)
    requires first + rows <= |lines|
    ensures forall k :: 0 <= k < |ops| ==>
      (ops[k].Text? && ops[k].x == box.x && ops[k].width == box.width
       && box.y + i <= ops[k].y < box.y + rows
       && first + ops[k].y - box.y < |lines| && offset < |lines[first + ops[k].y - box.y]|
       && ops[k].text == lines[first + ops[k].y - box.y][offset..])
    decreases rows - i
  {
    if i >= rows then []
    else
      var line := lines[first + i];
      (if |line| > offset then [Text(line[offset..], box.x, box.y + i, box.width, color)] else [])
        + PrintRows(lines, first, rows, offset, box, color, i + 1)
  }

  /** `printString` with a clip: the text is broken into lines of the box
      width, lines above the clip and characters left of it are skipped,
      and at most as many lines as fit are printed.  Each call carries the
      part of one broken line that starts at the clip. */
  function PrintString(text: string, x: int, y: int, w: int, h: int, clip: Option<Rect>, color: CharColor): (r: Result<seq<DrawOp>>)
    ensures r.Err? <==> w < 0 && '\n' in text
    ensures r.Ok? ==>
      (var lines := TextUtils.BreakLines(text, w).value;
       var offset := PrintBox(x, y, w, h, clip).x - x;
       forall k :: 0 <= k < |r.value| ==>
         (r.value[k].Text? && 0 <= r.value[k].y - y < |lines|
          && offset <= |lines[r.value[k].y - y]|
          && r.value[k].text == lines[r.value[k].y - y][offset..]))
    ensures r.Ok? && clip.Some? ==> WithinClip(r.value, clip.value)
  {
    match TextUtils.BreakLines(text, w)
    case Err(e) => Err(e)
    case Ok(lines) => Ok(PrintLines(lines, x, y, w, h, clip, color))
  }

  /** The calls for lines already broken: the rows inside the box, each cut
      at the box's left edge. */
  function PrintLines(lines: seq<string>, x: int, y: int, w: int, h: int, clip: Option<Rect>, color: CharColor): (ops: seq<DrawOp>)
    ensures var offset := PrintBox(x, y, w, h, clip).x - x;
      forall k :: 0 <= k < |ops| ==>
        (ops[k].Text? && 0 <= ops[k].y - y < |lines|
         && offset <= |lines[ops[k].y - y]|
         && ops[k].text == lines[ops[k].y - y][offset..])
    ensures clip.Some? ==> WithinClip(ops, clip.value)
  {
    var box := PrintBox(x, y, w, h, clip);
    var first := box.y - y;
    var rows := Min(box.height, |lines| - first);
    if box.width > 0 && rows > 0 then
      PrintedRowsInBox(lines, first, rows, box.x - x, box, color, clip);
      PrintedRowsText(lines, first, rows, box.x - x, box, color, y);
      PrintRows(lines, first, rows, box.x - x, box, color, 0)
    else []
  }

  /** Each row `printString` emits is the tail of one broken line, found
      from the row's screen position. */
  lemma PrintedRowsText(lines: seq<string>, first: nat, rows: int, offset: nat, box: TextBox, color: CharColor, y: int)
    requires first + rows <= |lines| && first == box.y - y
    ensures var ops := PrintRows(lines, first, rows, offset, box, color, 0);
      forall k :: 0 <= k < |ops| ==>
        (ops[k].Text? && 0 <= ops[k].y - y < |lines|
         && offset <= |lines[ops[k].y - y]|
         && ops[k].text == lines[ops[k].y - y][offset..])
  {
  }

  /** The rows `printString` emits stay inside a box that lies inside the
      clip. */
  lemma PrintedRowsInBox(lines: seq<string>, first: nat, rows: int, offset: nat, box: TextBox, color: CharColor, clip: Option<Rect>)
    requires first + rows <= |lines|
    requires clip.Some? ==>
      (box.x >= Left(clip.value) && box.y >= Top(clip.value)
       && box.x + box.width - 1 <= Right(clip.value) && box.y + box.height - 1 <= Bottom(clip.value))
    requires rows <= box.height
    ensures clip.Some? ==> WithinClip(PrintRows(lines, first, rows, offset, box, color, 0), clip.value)
  {
  }

  /** `printString(text, x, y, color)`: a single row as wide as the text. */
  function PrintStringAt(text: string, x: int, y: int, clip: Option<Rect>, color: CharColor): (r: Result<seq<DrawOp>>)
    ensures r.Ok?
    ensures clip.Some? ==> WithinClip(r.value, clip.value)
  {
    PrintString(text, x, y, |text|, 1, clip, color)
  }

  /* ---------------------------------------------------------------------
     Keyboard decoding
     --------------------------------------------------------------------- */

  const ESC: int := 0x1b

  /** What the next native read returns: the next code, or -1 when none
      is waiting. */
  function Next(input: seq<int>): int {
    if |input| > 0 then input[0] else -1
  }

  function Rest(input: seq<int>): seq<int> {
    if |input| > 0 then input[1..] else input
  }

  /** `readCharacter`: ESC followed by nothing is ESC itself, ESC followed by
      a code c is the code c + 1000, a lone -1 is no input, and any other
      code is passed through.  Returns the key code and the unread input. */
  function ReadCharacter(input: seq<int>): (r: (Option<int>, seq<int>))
    ensures r.0.None? <==> Next(input) == -1
    ensures Next(input) != ESC ==> r.1 == Rest(input)
    ensures Next(input) == ESC ==> r.1 == Rest(Rest(input))
    ensures Next(input) == ESC && Next(Rest(input)) == -1 ==> r.0 == Some(ESC)
    ensures Next(input) == ESC && Next(Rest(input)) != -1 ==> r.0 == Some(Next(Rest(input)) + 1000)
  {
    var c := Next(input);
    if c == ESC then
      var d := Next(Rest(input));
      (Some(if d == -1 then ESC else d + 1000), Rest(Rest(input)))
    else if c == -1 then (None, Rest(input))
    else (Some(c), Rest(input))
  }

  /** The shortest code sequence that decodes to a key code. */
  function EncodeKey(k: int): (codes: seq<int>)
    requires k >= 0
    ensures 1 <= |codes| <= 2
  {
    if k == ESC then [ESC, -1]
    else if k >= 1000 then [ESC, k - 1000]
    else [k]
  }

  /** Decoding undoes encoding, consuming exactly the encoded codes. */
  lemma DecodeEncode(k: int, rest: seq<int>)
    requires k >= 0
    ensures ReadCharacter(EncodeKey(k) + rest) == (Some(k), rest)
  {
    var e := EncodeKey(k);
    assert (e + rest)[1..] == e[1..] + rest;
    if |e| == 2 {
      assert (e + rest)[1..][1..] == rest;
    }
  }

  /** When terminal codes stay below 1000 (curses key codes do), the code
      read back determines the codes that were consumed. */
  lemma DecodeInjective(a: seq<int>, b: seq<int>)
    requires |a| >= 2 && |b| >= 2
    requires forall i :: 0 <= i < 2 ==> -1 <= a[i] < 1000 && -1 <= b[i] < 1000
    requires ReadCharacter(a).0.Some? && ReadCharacter(a).0 == ReadCharacter(b).0
    ensures a[0] == b[0]
    ensures a[0] == ESC ==> a[1] == b[1]
  {
  }

  /* ---------------------------------------------------------------------
     Colour pairs
     --------------------------------------------------------------------- */

  /** The 8 x 8 pair table: absent entries are the Java code's -1, and
      `maxPair` is the last number handed out. */
  datatype PairTable = PairTable(pairs: map<(int, int), int>, maxPair: int)

  /** `fillColorPairs`: nothing allocated yet. */
  const EmptyPairs: PairTable := PairTable(map[], -1)

  /** Allocated numbers are 0..maxPair, one per colour combination. */
  predicate PairsValid(t: PairTable) {
    t.maxPair >= -1
    && (forall k :: k in t.pairs ==> 0 <= t.pairs[k] <= t.maxPair && ValidColor(k.0) && ValidColor(k.1))
    && (forall k1, k2 :: k1 in t.pairs && k2 in t.pairs && k1 != k2 ==> t.pairs[k1] != t.pairs[k2])
  }

  lemma EmptyPairsValid()
    ensures PairsValid(EmptyPairs)
  {
  }

  /** `getColorPairNo`: the number of the colour's (background, foreground)
      combination, allocating the next number and initialising the pair
      in the terminal on first use.  The third component tells whether the
      pair was initialised. */
  function ColorPairNo(t: PairTable, c: CharColor): (r: (PairTable, int, bool))
    requires ValidColor(c.background) && ValidColor(c.foreground)
    requires PairsValid(t)
    ensures PairsValid(r.0)
    ensures (c.background, c.foreground) in r.0.pairs && r.0.pairs[(c.background, c.foreground)] == r.1
    ensures r.2 <==> (c.background, c.foreground) !in t.pairs
    ensures !r.2 ==> r.0 == t
    ensures r.2 ==>
      (r.1 == t.maxPair + 1 && r.0.maxPair == r.1
       && r.0.pairs.Keys == t.pairs.Keys + {(c.background, c.foreground)}
       && forall k :: k in t.pairs ==> r.0.pairs[k] == t.pairs[k])
  {
    var key := (c.background, c.foreground);
    if key in t.pairs then (t, t.pairs[key], false)
    else
      var n := t.maxPair + 1;
      (PairTable(t.pairs[key := n], n), n, true)
  }

  /** Two colours share a pair number exactly when they share background
      and foreground. */
  lemma PairNumbersIdentifyCombinations(t: PairTable, a: CharColor, b: CharColor)
    requires ValidColor(a.background) && ValidColor(a.foreground)
    requires ValidColor(b.background) && ValidColor(b.foreground)
    requires PairsValid(t)
    ensures var (t1, na, _) := ColorPairNo(t, a);
            var (_, nb, _) := ColorPairNo(t1, b);
            na == nb <==> (a.background, a.foreground) == (b.background, b.foreground)
  {
  }
}

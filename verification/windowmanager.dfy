/** `WindowManager`: the z-ordered stack of windows, the single active
    window, repainting, and the runtime's start and shutdown; the window
    operations that go through the manager are in `WindowOperations`.
    Every operation returns the state reached, the events raised and, when
    the Java code would throw, the exception; effects made before the throw are
    kept, as in Java. */
module WindowManager {
  import opened Wrappers
  import opened Geometry
  import Keys
  import Widgets
  import Windows

  type WindowId = Widgets.WindowId

  datatype Runtime = Runtime(
    stack: Option<seq<WindowId>>,        // null until the first window, and after shutdown
    windows: map<WindowId, Windows.Window>, // every window object, on the stack or not
    top: Option<WindowId>,               // the active window
    screenWidth: int,
    screenHeight: int
  )

  datatype RepaintOp =
    | StartPainting
    | Fill(area: Rect)
    | PushWindowClip(r: Rect)
    | PaintWindow(id: WindowId)
    | PopWindowClip
    | EndPainting

  datatype Event =
    | Initialised
    | ShutDown
    | Activated(id: WindowId)
    | Deactivated(id: WindowId)
    | Closing(id: WindowId)
    | Closed(id: WindowId)
    | Focus(call: Windows.FocusCall)
    | LaidOut(widgets: seq<Widgets.WidgetId>)
    | Repainted(ops: seq<RepaintOp>)
    | ShortcutDelivered(widget: Widgets.WidgetId)

  /** The state reached, the events raised, and the exception if one was
      thrown. */
  datatype Outcome = Outcome(rt: Runtime, events: seq<Event>, thrown: Option<JavaError>)

  predicate NoDuplicates<T(==)>(s: seq<T>) {
    forall i, j :: 0 <= i < j < |s| ==> s[i] != s[j]
  }

  /** The shape every reachable runtime has: a live stack is non-empty,
      holds each window once, and refers to known windows; each window's
      root panel is a container and the window knows its own id. */
  predicate Valid(rt: Runtime) {
    (rt.stack.Some? ==>
       |rt.stack.value| > 0 && NoDuplicates(rt.stack.value)
       && forall i :: 0 <= i < |rt.stack.value| ==> rt.stack.value[i] in rt.windows)
    && (rt.top.Some? ==> rt.top.value in rt.windows)
    && (forall id :: id in rt.windows ==> rt.windows[id].root.Container? && rt.windows[id].id == id)
  }

  predicate IsVisible(rt: Runtime, id: WindowId) {
    id in rt.windows && rt.windows[id].visible
  }

  /* ---------------------------------------------------------------------
     Stack maintenance
     --------------------------------------------------------------------- */

  /** `Vector.remove(Object)`: the first occurrence goes. */
  function RemoveFirst<T(==)>(s: seq<T>, x: T): (r: seq<T>)
    ensures x !in s ==> r == s
    ensures x in s ==> |r| == |s| - 1
    ensures forall y :: y in r ==> y in s
    ensures NoDuplicates(s) ==> NoDuplicates(r) && x !in r && forall y :: y in s && y != x ==> y in r
  {
    if |s| == 0 then []
    else if s[0] == x then s[1..]
    else
      var r := RemoveFirst(s[1..], x);
      assert NoDuplicates(s) ==> NoDuplicates(s[1..]) && s[0] !in s[1..] by {
        if NoDuplicates(s) {
          forall i, j | 0 <= i < j < |s[1..]| ensures s[1..][i] != s[1..][j] {
            assert s[1..][i] == s[i + 1] && s[1..][j] == s[j + 1];
          }
        }
      }
      [s[0]] + r
  }

  lemma NoDuplicatesAppend<T>(s: seq<T>, x: T)
    requires NoDuplicates(s) && x !in s
    ensures NoDuplicates(s + [x])
  {
  }

  /** Removing keeps the relative order of the others. */
  lemma {:induction false} RemoveFirstKeepsOrder<T>(s: seq<T>, x: T, i: nat, j: nat)
    requires NoDuplicates(s) && i < j < |s| && s[i] != x && s[j] != x
    ensures exists a, b :: 0 <= a < b < |RemoveFirst(s, x)| && RemoveFirst(s, x)[a] == s[i] && RemoveFirst(s, x)[b] == s[j]
  {
    if s[0] == x {
      var r := RemoveFirst(s, x);
      assert r == s[1..];
      assert r[i - 1] == s[i] && r[j - 1] == s[j];
    } else if i == 0 {
      assert NoDuplicates(s[1..]) by {
        forall a, b | 0 <= a < b < |s[1..]| ensures s[1..][a] != s[1..][b] {
          assert s[1..][a] == s[a + 1] && s[1..][b] == s[b + 1];
        }
      }
      var r := RemoveFirst(s[1..], x);
      assert RemoveFirst(s, x)[0] == s[0];
      assert s[j] == s[1..][j - 1];
      assert s[j] in r;
      var b :| 0 <= b < |r| && r[b] == s[j];
      assert RemoveFirst(s, x)[b + 1] == s[j];
    } else {
      assert NoDuplicates(s[1..]) by {
        forall a, b | 0 <= a < b < |s[1..]| ensures s[1..][a] != s[1..][b] {
          assert s[1..][a] == s[a + 1] && s[1..][b] == s[b + 1];
        }
      }
      RemoveFirstKeepsOrder(s[1..], x, i - 1, j - 1);
      var r := RemoveFirst(s[1..], x);
      var a, b :| 0 <= a < b < |r| && r[a] == s[1..][i - 1] && r[b] == s[1..][j - 1];
      assert RemoveFirst(s, x)[a + 1] == s[i] && RemoveFirst(s, x)[b + 1] == s[j];
    }
  }

  /** `checkWindow`: a null stack is a null pointer, an absent window an
      illegal argument. */
  function CheckWindow(rt: Runtime, id: WindowId): (e: Option<JavaError>)
    ensures e == None <==> rt.stack.Some? && id in rt.stack.value
    ensures e == Some(NullPointer) <==> rt.stack.None?
  {
    match rt.stack
    case None => Some(NullPointer)
    case Some(s) => if id in s then None else Some(IllegalArgument)
  }

  /** `createWindow`: starts the runtime on the first window, then adds the
      window on top unless it is already on the stack. */
  function CreateWindow(rt: Runtime, id: WindowId): (o: Outcome)
    requires Valid(rt) && id in rt.windows
    ensures Valid(o.rt) && o.thrown.None?
    ensures o.rt.stack.Some? && id in o.rt.stack.value
    ensures o.events == (if rt.stack.None? then [Initialised] else [])
    ensures rt.stack.Some? && id in rt.stack.value ==> o.rt == rt
    ensures rt.stack.Some? && id !in rt.stack.value ==> o.rt.stack == Some(rt.stack.value + [id])
    ensures rt.stack.None? ==> o.rt.stack == Some([id])
    ensures o.rt.windows == rt.windows && o.rt.top == rt.top
  {
    var s := if rt.stack.None? then [] else rt.stack.value;
    var ev := if rt.stack.None? then [Initialised] else [];
    var s2 := if id in s then s else s + [id];
    assert rt.stack.None? ==> s2 == [id];
    assert id !in s ==> forall i :: 0 <= i < |s| ==> s2[i] == s[i];
    Outcome(rt.(stack := Some(s2)), ev, None)
  }

  /** The `Window` constructor as a whole: a fresh window object is built
      hidden and then handed to `createWindow`, so it lands on top of the
      stack without becoming the active window. */
  function ConstructWindow(rt: Runtime, id: WindowId, rootId: Widgets.WidgetId, r: Rect, border: bool): (o: Outcome)
    requires Valid(rt) && id !in rt.windows
    ensures Valid(o.rt) && o.thrown.None?
    ensures o.rt.windows == rt.windows[id := Windows.NewWindow(id, rootId, r, border)]
    ensures o.rt.stack == Some((if rt.stack.None? then [] else rt.stack.value) + [id])
    ensures o.rt.top == rt.top && !IsVisible(o.rt, id)
    ensures o.events == (if rt.stack.None? then [Initialised] else [])
  {
    var w := Windows.NewWindow(id, rootId, r, border);
    var rt1 := rt.(windows := rt.windows[id := w]);
    assert rt.stack.Some? ==> id !in rt.stack.value;
    CreateWindow(rt1, id)
  }

  /** Creating twice is creating once. */
  lemma CreateWindowIdempotent(rt: Runtime, id: WindowId)
    requires Valid(rt) && id in rt.windows
    ensures CreateWindow(CreateWindow(rt, id).rt, id).rt == CreateWindow(rt, id).rt
  {
  }

  /** The highest stack position holding a visible window, or -1. */
  function TopVisibleIndex(rt: Runtime, s: seq<WindowId>): (i: int)
    ensures -1 <= i < |s|
    ensures i >= 0 ==> IsVisible(rt, s[i])
    ensures forall j :: i < j < |s| ==> !IsVisible(rt, s[j])
  {
    if |s| == 0 then -1
    else if IsVisible(rt, s[|s| - 1]) then |s| - 1
    else TopVisibleIndex(rt, s[..|s| - 1])
  }

  /** `establishTopWindow`: the active window becomes the topmost visible
      one; only on a change is the old one deactivated and then the new one
      activated. */
  function EstablishTopWindow(rt: Runtime): (o: Outcome)
    requires rt.stack.Some?
    ensures o.thrown.None? && o.rt == rt.(top := o.rt.top)
    ensures var s := rt.stack.value; var i := TopVisibleIndex(rt, s);
      o.rt.top == (if i == -1 then None else Some(s[i]))
    ensures o.rt.top == rt.top ==> o.events == []
    ensures o.rt.top != rt.top ==>
      o.events == (if rt.top.Some? then [Deactivated(rt.top.value)] else [])
                  + (if o.rt.top.Some? then [Activated(o.rt.top.value)] else [])
  {
    var s := rt.stack.value;
    var i := TopVisibleIndex(rt, s);
    var w := if i == -1 then None else Some(s[i]);
    if w == rt.top then Outcome(rt, [], None)
    else
      var off := if rt.top.Some? then [Deactivated(rt.top.value)] else [];
      var on := if w.Some? then [Activated(w.value)] else [];
      Outcome(rt.(top := w), off + on, None)
  }

  /** The active window is visible, and no window above it is. */
  lemma ActiveWindowIsTopmostVisible(rt: Runtime)
    requires rt.stack.Some?
    ensures var o := EstablishTopWindow(rt); var s := rt.stack.value;
      (o.rt.top.None? <==> forall j :: 0 <= j < |s| ==> !IsVisible(rt, s[j]))
      && (o.rt.top.Some? ==>
            (IsVisible(rt, o.rt.top.value)
             && exists i :: 0 <= i < |s| && s[i] == o.rt.top.value && forall j :: i < j < |s| ==> !IsVisible(rt, s[j])))
  {
  }

  /** Establishing twice raises no further events. */
  lemma EstablishTopWindowStable(rt: Runtime)
    requires rt.stack.Some?
    ensures EstablishTopWindow(EstablishTopWindow(rt).rt).events == []
  {
  }

  /* ---------------------------------------------------------------------
     Repainting
     --------------------------------------------------------------------- */

  /** The part of the repainted region a visible window occupies, or none. */
  function WindowClip(rt: Runtime, id: WindowId, area: Rect): Option<Rect> {
    if IsVisible(rt, id) then
      var c := Intersection(area, Windows.ClipRect(rt.windows[id]));
      if IsEmpty(c) then None else Some(c)
    else None
  }

  /** The windows that a repaint of `area` paints: the visible ones whose
      shadow-inclusive rectangle meets the area, bottom to top. */
  function PaintedWindows(rt: Runtime, s: seq<WindowId>, area: Rect): (p: seq<WindowId>)
    ensures forall k :: 0 <= k < |p| ==> WindowClip(rt, p[k], area).Some?
  {
    if |s| == 0 then []
    else (if WindowClip(rt, s[0], area).Some? then [s[0]] else []) + PaintedWindows(rt, s[1..], area)
  }

  /** One clip push, one paint and one pop per window. */
  function Blocks(rt: Runtime, ids: seq<WindowId>, area: Rect): seq<RepaintOp>
    requires forall k :: 0 <= k < |ids| ==> WindowClip(rt, ids[k], area).Some?
  {
    if |ids| == 0 then []
    else [PushWindowClip(WindowClip(rt, ids[0], area).value), PaintWindow(ids[0]), PopWindowClip]
         + Blocks(rt, ids[1..], area)
  }

  lemma {:induction false} BlocksShape(rt: Runtime, ids: seq<WindowId>, area: Rect)
    requires forall k :: 0 <= k < |ids| ==> WindowClip(rt, ids[k], area).Some?
    ensures |Blocks(rt, ids, area)| == 3 * |ids|
    ensures forall k :: 0 <= k < |ids| ==>
      (Blocks(rt, ids, area)[3 * k] == PushWindowClip(WindowClip(rt, ids[k], area).value)
       && Blocks(rt, ids, area)[3 * k + 1] == PaintWindow(ids[k])
       && Blocks(rt, ids, area)[3 * k + 2] == PopWindowClip)
  {
    if |ids| > 0 {
      var b := Blocks(rt, ids, area);
      var rest := Blocks(rt, ids[1..], area);
      BlocksShape(rt, ids[1..], area);
      forall k | 0 <= k < |ids|
        ensures b[3 * k] == PushWindowClip(WindowClip(rt, ids[k], area).value)
        ensures b[3 * k + 1] == PaintWindow(ids[k])
        ensures b[3 * k + 2] == PopWindowClip
      {
        if k > 0 {
          var m := k - 1;
          assert ids[k] == ids[1..][m];
          assert b[3 * k] == rest[3 * m];
          assert b[3 * k + 1] == rest[3 * m + 1];
          assert b[3 * k + 2] == rest[3 * m + 2];
        }
      }
    }
  }

  function RepaintEach(rt: Runtime, s: seq<WindowId>, area: Rect): (ops: seq<RepaintOp>)
    ensures ops == Blocks(rt, PaintedWindows(rt, s, area), area)
  {
    if |s| == 0 then []
    else
      var c := WindowClip(rt, s[0], area);
      var rest := RepaintEach(rt, s[1..], area);
      if c.Some? then
        assert PaintedWindows(rt, s, area) == [s[0]] + PaintedWindows(rt, s[1..], area);
        assert PaintedWindows(rt, s, area)[1..] == PaintedWindows(rt, s[1..], area);
        [PushWindowClip(c.value), PaintWindow(s[0]), PopWindowClip] + rest
      else
        assert PaintedWindows(rt, s, area) == PaintedWindows(rt, s[1..], area);
        rest
  }

  /** `repaintWindows`: inside one painting bracket, the region is cleared
      and then every painted window is drawn between one clip push and one
      pop. */
  function RepaintWindows(rt: Runtime, area: Rect): (ops: seq<RepaintOp>)
    requires rt.stack.Some?
    ensures |ops| == 3 + 3 * |PaintedWindows(rt, rt.stack.value, area)|
    ensures ops[0] == StartPainting && ops[1] == Fill(area) && ops[|ops| - 1] == EndPainting
    ensures forall k :: 0 <= k < |PaintedWindows(rt, rt.stack.value, area)| ==>
      ops[2 + 3 * k] == PushWindowClip(WindowClip(rt, PaintedWindows(rt, rt.stack.value, area)[k], area).value)
      && ops[2 + 3 * k + 1] == PaintWindow(PaintedWindows(rt, rt.stack.value, area)[k])
      && ops[2 + 3 * k + 2] == PopWindowClip
  {
    BlocksShape(rt, PaintedWindows(rt, rt.stack.value, area), area);
    [StartPainting, Fill(area)] + RepaintEach(rt, rt.stack.value, area) + [EndPainting]
  }

  /** A window is painted exactly when it is on the stack, visible, and its
      shadow-inclusive rectangle meets the area. */
  lemma {:induction false} PaintedWindowsExactly(rt: Runtime, s: seq<WindowId>, area: Rect, id: WindowId)
    ensures id in PaintedWindows(rt, s, area) <==>
      (id in s && IsVisible(rt, id) && !IsEmpty(Intersection(area, Windows.ClipRect(rt.windows[id]))))
  {
    if |s| > 0 {
      PaintedWindowsExactly(rt, s[1..], area, id);
      assert s == [s[0]] + s[1..];
    }
  }

  /** `doWindowVisibilityChange`: check the window, recompute the active
      window, repaint the window's area. */
  function DoWindowVisibilityChange(rt: Runtime, id: WindowId): (o: Outcome)
    requires id in rt.windows
    ensures o.thrown == CheckWindow(rt, id)
    ensures o.thrown.Some? ==> o.rt == rt && o.events == []
    ensures o.thrown.None? ==> o.rt == EstablishTopWindow(rt).rt
    ensures o.rt.stack == rt.stack && o.rt.windows == rt.windows
  {
    var e := CheckWindow(rt, id);
    if e.Some? then Outcome(rt, [], e)
    else
      var o := EstablishTopWindow(rt);
      Outcome(o.rt, o.events + [Repainted(RepaintWindows(o.rt, rt.windows[id].rect))], None)
  }

  /* ---------------------------------------------------------------------
     Removing windows and shutting down
     --------------------------------------------------------------------- */

  /** `removeWindow`: the window leaves the stack and is marked closed (the
      CLOSED event); removing the last window shuts the runtime down and the
      stack becomes null.  The active window is not recomputed. */
  function RemoveWindow(rt: Runtime, id: WindowId): (o: Outcome)
    requires Valid(rt) && id in rt.windows
    ensures Valid(o.rt)
    ensures o.thrown == CheckWindow(rt, id)
    ensures o.thrown.Some? ==> o.rt == rt && o.events == []
    ensures o.thrown.None? ==>
      (o.rt.windows == rt.windows[id := rt.windows[id].(closed := true)]
       && o.rt.top == rt.top
       && (|rt.stack.value| == 1 <==> o.rt.stack.None?)
       && (o.rt.stack.Some? ==> o.rt.stack.value == RemoveFirst(rt.stack.value, id))
       && o.events == [Closed(id)] + (if o.rt.stack.None? then [ShutDown] else []))
  {
    var e := CheckWindow(rt, id);
    if e.Some? then Outcome(rt, [], e)
    else
      var s := RemoveFirst(rt.stack.value, id);
      var ws := rt.windows[id := rt.windows[id].(closed := true)];
      assert forall i :: 0 <= i < |s| ==> s[i] in rt.stack.value;
      if |s| == 0 then Outcome(rt.(stack := None, windows := ws), [Closed(id), ShutDown], None)
      else Outcome(rt.(stack := Some(s), windows := ws), [Closed(id)], None)
  }

  /** After the last window is removed, the next window starts the runtime
      again. */
  lemma ShutdownThenCreateRestarts(rt: Runtime, id: WindowId, other: WindowId)
    requires Valid(rt) && id in rt.windows && other in rt.windows
    requires rt.stack == Some([id])
    ensures var o := RemoveWindow(rt, id);
            o.rt.stack.None? && CreateWindow(o.rt, other).events == [Initialised]
  {
  }

  /** `closeAll` as written: windows are removed from the top until the
      stack is empty, but removing the last one nulls the stack, so the
      loop test itself dereferences null. */
  function CloseAllAsWritten(rt: Runtime): (o: Outcome)
    requires Valid(rt)
    ensures Valid(o.rt)
    decreases if rt.stack.Some? then |rt.stack.value| + 1 else 0
  {
    match rt.stack
    case None => Outcome(rt, [], Some(NullPointer))
    case Some(s) =>
      if |s| == 0 then Outcome(rt, [], None)
      else
        var o := RemoveWindow(rt, s[|s| - 1]);
        var rest := CloseAllAsWritten(o.rt);
        Outcome(rest.rt, o.events + rest.events, rest.thrown)
  }

  /** Whatever the state, jcurses' `closeAll` ends in a null pointer. */
  lemma {:induction false} CloseAllAsWrittenAlwaysThrows(rt: Runtime)
    requires Valid(rt)
    ensures CloseAllAsWritten(rt).thrown == Some(NullPointer)
    ensures CloseAllAsWritten(rt).rt.stack.None?
    decreases if rt.stack.Some? then |rt.stack.value| + 1 else 0
  {
    if rt.stack.Some? {
      var s := rt.stack.value;
      var o := RemoveWindow(rt, s[|s| - 1]);
      CloseAllAsWrittenAlwaysThrows(o.rt);
    }
  }

  /** `closeAll` as intended: stop once the runtime has shut down. */
  function CloseAll(rt: Runtime): (o: Outcome)
    requires Valid(rt)
    ensures Valid(o.rt) && o.thrown.None?
    ensures o.rt.stack.None?
    ensures o.rt.top == rt.top
    ensures forall id :: id in rt.windows ==> id in o.rt.windows
    ensures forall id :: id in rt.windows && rt.windows[id].closed ==> o.rt.windows[id].closed
    ensures rt.stack.Some? ==> |o.events| > 0 && o.events[|o.events| - 1] == ShutDown
    ensures rt.stack.Some? ==> forall id :: id in rt.stack.value ==> o.rt.windows[id].closed
    decreases if rt.stack.Some? then |rt.stack.value| else 0
  {
    match rt.stack
    case None => Outcome(rt, [], None)
    case Some(s) =>
      var o := RemoveWindow(rt, s[|s| - 1]);
      PopLast(rt);
      var rest := CloseAll(o.rt);
      Outcome(rest.rt, o.events + rest.events, None)
  }

  /** One step of `closeAll`: removing the top of the stack succeeds,
      shortens the stack, keeps the active window and closes one more
      window, and shuts down when it empties the stack. */
  lemma PopLast(rt: Runtime)
    requires Valid(rt) && rt.stack.Some?
    ensures var s := rt.stack.value;
      var o := RemoveWindow(rt, s[|s| - 1]);
      o.thrown.None? && Valid(o.rt) && o.rt.top == rt.top
      && (forall id :: id in rt.windows ==> id in o.rt.windows)
      && (forall id :: id in rt.windows && rt.windows[id].closed ==> o.rt.windows[id].closed)
      && (o.rt.stack.Some? ==> |o.rt.stack.value| < |s|)
      && (o.rt.stack.None? ==> o.events == [Closed(s[|s| - 1]), ShutDown])
      && o.rt.windows[s[|s| - 1]].closed
      && (forall id :: id in s && id != s[|s| - 1] ==> o.rt.stack.Some? && id in o.rt.stack.value)
  {
    var s := rt.stack.value;
    assert s[|s| - 1] in s;
  }

  /** `closeAll` leaves the active window in place, so a window closed by
      it can still be the one input is routed to. */
  lemma CloseAllLeavesStaleActiveWindow(rt: Runtime)
    requires Valid(rt) && rt.stack.Some? && rt.top.Some? && rt.top.value in rt.stack.value
    ensures CloseAll(rt).rt.top == rt.top && CloseAll(rt).rt.windows[rt.top.value].closed
  {
  }
}

/** The window operations of `WindowManager` that a window or the input
    loop calls: `moveToTheTop`, `show`, `hide`, `close`, `tryToClose`,
    `setVisible` and input routing. */
module WindowOperations {
  import opened Wrappers
  import opened Geometry
  import opened WindowManager
  import Keys
  import Widgets
  import Windows

  /* ---------------------------------------------------------------------
     Window operations through the manager
     --------------------------------------------------------------------- */

  /** `moveToTop`: the window goes to the end of the stack, the others keep
      their order; the active window is recomputed only for a visible
      window. */
  function MoveToTop(rt: Runtime, id: WindowId): (o: Outcome)
    requires Valid(rt) && id in rt.windows
    ensures Valid(o.rt)
    ensures o.thrown == CheckWindow(rt, id)
    ensures o.thrown.Some? ==> o.rt == rt
    ensures o.thrown.None? ==>
      (o.rt.stack == Some(RemoveFirst(rt.stack.value, id) + [id]) && o.rt.windows == rt.windows)
    ensures o.thrown.None? && !IsVisible(rt, id) ==> o.rt.top == rt.top && o.events == []
    ensures o.thrown.None? && IsVisible(rt, id) ==> o.rt.top == Some(id)
  {
    var e := CheckWindow(rt, id);
    if e.Some? then Outcome(rt, [], e)
    else
      var r := RemoveFirst(rt.stack.value, id);
      var s := r + [id];
      NoDuplicatesAppend(r, id);
      assert forall i :: 0 <= i < |r| ==> r[i] in rt.stack.value;
      var rt1 := rt.(stack := Some(s));
      if IsVisible(rt, id) then
        var o := EstablishTopWindow(rt1);
        assert TopVisibleIndex(rt1, s) == |s| - 1;
        Outcome(o.rt, o.events + [Repainted(RepaintWindows(o.rt, rt.windows[id].rect))], None)
      else Outcome(rt1, [], None)
  }

  /** `hide`: the flag is cleared first, then the manager is told. */
  function Hide(rt: Runtime, id: WindowId): (o: Outcome)
    requires Valid(rt) && id in rt.windows
    ensures Valid(o.rt)
    ensures id in o.rt.windows && !o.rt.windows[id].visible
    ensures o.thrown == CheckWindow(rt, id)
    ensures o.rt.stack == rt.stack
    ensures o.thrown.None? ==> o.rt.top != Some(id)
  {
    var rt1 := rt.(windows := rt.windows[id := rt.windows[id].(visible := false)]);
    DoWindowVisibilityChange(rt1, id)
  }

  /** `show`: a hidden window is registered again (restarting the runtime if
      needed), packed, marked visible, and the manager is told; a visible
      window is left alone. */
  function Show(rt: Runtime, id: WindowId): (o: Outcome)
    requires Valid(rt) && id in rt.windows
    ensures Valid(o.rt)
    ensures IsVisible(rt, id) ==> o == Outcome(rt, [], None)
    ensures !IsVisible(rt, id) ==>
      (o.thrown.None? && IsVisible(o.rt, id) && o.rt.stack.Some? && id in o.rt.stack.value && o.rt.top.Some?)
    ensures !IsVisible(rt, id) && (rt.stack.None? || id !in rt.stack.value) ==> o.rt.top == Some(id)
  {
    if IsVisible(rt, id) then Outcome(rt, [], None)
    else
      var c := CreateWindow(rt, id);
      var w := c.rt.windows[id];
      var (packed, placed, calls) := Windows.Pack(w, rt.screenWidth, rt.screenHeight);
      var rt1 := c.rt.(windows := c.rt.windows[id := packed.(visible := true)]);
      var o := DoWindowVisibilityChange(rt1, id);
      ShownWindowOnTop(rt1, id);
      Outcome(o.rt, c.events + [LaidOut(placed)] + FocusEvents(calls) + o.events, o.thrown)
  }

  /** Once a window on the stack is visible, the visibility change leaves
      the manager valid with an active window, and the window is active
      when it is the last on the stack. */
  lemma ShownWindowOnTop(rt: Runtime, id: WindowId)
    requires Valid(rt) && rt.stack.Some? && id in rt.stack.value && IsVisible(rt, id)
    ensures var o := DoWindowVisibilityChange(rt, id);
      Valid(o.rt) && o.thrown.None? && IsVisible(o.rt, id) && o.rt.stack == rt.stack && o.rt.top.Some?
    ensures var s := rt.stack.value;
      s[|s| - 1] == id ==> DoWindowVisibilityChange(rt, id).rt.top == Some(id)
  {
    var s := rt.stack.value;
    var k :| 0 <= k < |s| && s[k] == id;
    assert TopVisibleIndex(rt, s) >= k;
  }

  function FocusEvents(calls: seq<Windows.FocusCall>): (ev: seq<Event>)
    ensures |ev| == |calls| && forall i :: 0 <= i < |calls| ==> ev[i] == Focus(calls[i])
  {
    seq(|calls|, i requires 0 <= i < |calls| => Focus(calls[i]))
  }

  /* ---------------------------------------------------------------------
     Closing, visibility and input
     --------------------------------------------------------------------- */

  /** `close`: hide, mark closed, remove from the stack; an exception from
      hiding stops the sequence with the hide's effects kept. */
  function Close(rt: Runtime, id: WindowId): (o: Outcome)
    requires Valid(rt) && id in rt.windows
    ensures Valid(o.rt) && id in o.rt.windows
    ensures o.thrown == CheckWindow(rt, id)
    ensures !o.rt.windows[id].visible
    ensures o.thrown.None? ==>
      (o.rt.windows[id].closed
       && (o.rt.stack.None? || id !in o.rt.stack.value)
       && o.rt.top != Some(id)
       && Closed(id) in o.events)
  {
    var h := Hide(rt, id);
    if h.thrown.Some? then h
    else
      var rt2 := h.rt.(windows := h.rt.windows[id := h.rt.windows[id].(closed := true)]);
      var r := RemoveWindow(rt2, id);
      assert r.events[0] == Closed(id);
      Outcome(r.rt, h.events + r.events, r.thrown)
  }

  /** A window that was open on the stack is, after `close`, neither on the
      stack nor active, and closing it again is an illegal argument (or a
      null pointer once the runtime has shut down). */
  lemma CloseTwiceThrows(rt: Runtime, id: WindowId)
    requires Valid(rt) && id in rt.windows && rt.stack.Some? && id in rt.stack.value
    ensures Close(rt, id).thrown.None?
    ensures Close(Close(rt, id).rt, id).thrown.Some?
  {
  }

  /** `tryToClose`: with listeners, a CLOSING event is sent and the result
      is whatever the closed flag then says (`listenerCloses` stands for what
      the listeners do); without listeners the window is closed and the
      answer is `true`. */
  function TryToClose(rt: Runtime, id: WindowId, listenerCloses: bool): (r: (Outcome, bool))
    requires Valid(rt) && id in rt.windows
    ensures Valid(r.0.rt) && id in r.0.rt.windows
    ensures rt.windows[id].listeners > 0 && !listenerCloses ==>
      r == (Outcome(rt, [Closing(id)], None), rt.windows[id].closed)
    ensures rt.windows[id].listeners > 0 && listenerCloses ==>
      (|r.0.events| > 0 && r.0.events[0] == Closing(id) && r.0.thrown == CheckWindow(rt, id)
       && (r.0.thrown.None? ==> r.1))
    ensures rt.windows[id].listeners == 0 ==>
      (r.0 == Close(rt, id) && r.1)
  {
    if rt.windows[id].listeners > 0 then
      if listenerCloses then
        var c := Close(rt, id);
        (Outcome(c.rt, [Closing(id)] + c.events, c.thrown), c.rt.windows[id].closed)
      else (Outcome(rt, [Closing(id)], None), rt.windows[id].closed)
    else (Close(rt, id), true)
  }

  /** `setVisible`: only a change of visibility does anything. */
  function SetVisible(rt: Runtime, id: WindowId, visible: bool): (o: Outcome)
    requires Valid(rt) && id in rt.windows
    ensures Valid(o.rt) && id in o.rt.windows
    ensures visible == rt.windows[id].visible ==> o == Outcome(rt, [], None)
    ensures o.thrown.None? ==> o.rt.windows[id].visible == visible
    ensures visible ==> o.thrown.None?
  {
    if visible == rt.windows[id].visible then Outcome(rt, [], None)
    else if visible then Show(rt, id)
    else Hide(rt, id)
  }

  /** Hiding and showing again leaves the window visible and active. */
  lemma HideThenShowActivates(rt: Runtime, id: WindowId)
    requires Valid(rt) && id in rt.windows && rt.stack.Some? && id in rt.stack.value
    requires rt.windows[id].visible
    ensures var h := SetVisible(rt, id, false);
            h.thrown.None? &&
            var s := SetVisible(h.rt, id, true);
            s.thrown.None? && IsVisible(s.rt, id) && s.rt.top.Some?
  {
  }

  /** `handleInput`: the key goes to the active window, if there is one; an
      exception inside is caught and dropped.  A closing key leads to
      `tryToClose`, a shortcut key is delivered to its widget. */
  function HandleInput(rt: Runtime, k: Keys.Key, consumes: (Widgets.WidgetId, Keys.Key) -> bool, listenerCloses: bool): (o: Outcome)
    requires Valid(rt)
    ensures Valid(o.rt) && o.thrown.None?
    ensures rt.top.None? ==> o == Outcome(rt, [], None)
    ensures rt.top.Some? && Windows.HandleInput(rt.windows[rt.top.value], k, consumes).Err? ==>
      o == Outcome(rt, [], None)
    ensures o.rt.top == rt.top || (rt.top.Some? && k == rt.windows[rt.top.value].closingChar)
  {
    match rt.top
    case None => Outcome(rt, [], None)
    case Some(t) =>
      match Windows.HandleInput(rt.windows[t], k, consumes)
      case Err(_) => Outcome(rt, [], None)
      case Ok((w1, calls, action)) =>
        var rt1 := rt.(windows := rt.windows[t := w1]);
        var ev := FocusEvents(calls);
        match action
        case CloseRequest =>
          var (c, _) := TryToClose(rt1, t, listenerCloses);
          Outcome(c.rt, ev + c.events, None)
        case Shortcut(wid) => Outcome(rt1, ev + [ShortcutDelivered(wid)], None)
        case _ => Outcome(rt1, ev, None)
  }

  /** The closing key of the active window, with no listeners on it, closes
      that window. */
  lemma ClosingKeyClosesActiveWindow(rt: Runtime, k: Keys.Key, consumes: (Widgets.WidgetId, Keys.Key) -> bool, listenerCloses: bool)
    requires Valid(rt) && rt.top.Some? && rt.stack.Some? && rt.top.value in rt.stack.value
    requires var w := rt.windows[rt.top.value];
      w.listeners == 0 && k == w.closingChar
      && !(Windows.IsFocusableIndex(w, w.current) && consumes(w.focusables[w.current].id, k))
    ensures var o := HandleInput(rt, k, consumes, listenerCloses);
      o.rt.windows[rt.top.value].closed && o.rt.top != rt.top
  {
  }
}

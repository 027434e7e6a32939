/** The window-local state machines of `Window`: the focus index over the
    list of focusable widgets, directional focus movement, the fixed order
    in which a key is dispatched, the shortcut table and the window's
    geometry.  Effects that go through the window manager (show, hide,
    close) are in module `WindowManager`. */
module Windows {
  import opened Wrappers
  import opened Geometry
  import Keys
  import Widgets

  type WidgetId = Widgets.WidgetId
  type WindowId = Widgets.WindowId

  /** A focusable widget and its screen rectangle. */
  datatype FocusEntry = FocusEntry(id: WidgetId, rect: Rect)

  /** A call of `setFocus` on a widget. */
  datatype FocusCall = FocusCall(id: WidgetId, on: bool)

  datatype Window = Window(
    id: WindowId,
    rect: Rect,
    border: bool,
    shadow: bool,
    visible: bool,
    closed: bool,
    listeners: nat,            // registered window listeners
    root: Widgets.Node,        // the root panel
    focusables: seq<FocusEntry>,
    current: int,              // focus index; -1 initially
    shortcutList: seq<Keys.Key>,
    shortcutTable: map<Keys.Key, WidgetId>,
    closingChar: Keys.Key,
    focusChangeChar: Keys.Key
  )

  /** The root panel laid over the window: inset by one cell on each side
      when the window has a border. */
  function RootPanelRect(r: Rect, border: bool): (p: Rect)
    ensures !border ==> p == r
    ensures border ==> p.x == r.x + 1 && p.y == r.y + 1 && p.width == r.width - 2 && p.height == r.height - 2
    ensures border && r.width >= 2 && r.height >= 2 ==> ContainsRect(r, p) || IsEmpty(p)
  {
    if border then Rect(r.x + 1, r.y + 1, r.width - 2, r.height - 2) else r
  }

  /** A new window (`Window(x, y, w, h, border, title)`): hidden, not closed,
      no focus, ESC closes and TAB moves the focus.  The root panel is a
      plain panel placed at the corner given by `RootPanelRect` and attached
      to the window; its own rectangle keeps the empty size of a fresh
      widget, since the inset size is only its preferred size until `pack`
      lays it over the window.  Registering the window with the window
      manager is `WindowManager.ConstructWindow`. */
  function NewWindow(id: WindowId, rootId: WidgetId, r: Rect, border: bool): (w: Window)
    ensures w.id == id && w.rect == r && w.border == border
    ensures !w.visible && !w.closed && w.current == -1 && w.focusables == [] && w.shadow
    ensures w.closingChar == Keys.Escape && w.focusChangeChar == Keys.Tab
    ensures w.root.Container? && w.root.children == [] && w.root.info.window == Some(id)
    ensures w.root.info.x == RootPanelRect(r, border).x && w.root.info.y == RootPanelRect(r, border).y
    ensures w.root.info.width == 0 && w.root.info.height == 0
  {
    var p := RootPanelRect(r, border);
    var info := Widgets.DefaultInfo(rootId).(x := p.x, y := p.y, window := Some(id));
    Window(id, r, border, true, false, false, 0,
           Widgets.Container(info, Widgets.PlainPanel, [], map[], None),
           [], -1, [], map[], Keys.Escape, Keys.Tab)
  }

  /** `getClipRectangle`: the window plus the shadow column and row. */
  function ClipRect(w: Window): (r: Rect)
    ensures r.x == w.rect.x && r.y == w.rect.y
    ensures r.width == w.rect.width + (if w.shadow then 1 else 0)
    ensures r.height == w.rect.height + (if w.shadow then 1 else 0)
  {
    if w.shadow then Rect(w.rect.x, w.rect.y, w.rect.width + 1, w.rect.height + 1) else w.rect
  }

  /** `cutIfNeeded`: shrinks the window so that it and its shadow end on the
      screen; a window that fits is left alone. */
  function CutIfNeeded(r: Rect, shadow: bool, screenWidth: int, screenHeight: int): (c: Rect)
    ensures c.x == r.x && c.y == r.y
    ensures c.width <= r.width && c.height <= r.height
    ensures c.width <= screenWidth - r.x - (if shadow then 1 else 0)
    ensures c.height <= screenHeight - r.y - (if shadow then 1 else 0)
    ensures r.width <= screenWidth - r.x - (if shadow then 1 else 0) ==> c.width == r.width
    ensures r.height <= screenHeight - r.y - (if shadow then 1 else 0) ==> c.height == r.height
  {
    var s := if shadow then 1 else 0;
    var maxWidth := screenWidth - r.x - s;
    var maxHeight := screenHeight - r.y - s;
    Rect(r.x, r.y, Min(r.width, maxWidth), Min(r.height, maxHeight))
  }

  /** Cutting twice is cutting once. */
  lemma CutIfNeededIdempotent(r: Rect, shadow: bool, sw: int, sh: int)
    ensures CutIfNeeded(CutIfNeeded(r, shadow, sw, sh), shadow, sw, sh) == CutIfNeeded(r, shadow, sw, sh)
  {
  }

  /* ---------------------------------------------------------------------
     Focus index
     --------------------------------------------------------------------- */

  predicate IsFocusableIndex(w: Window, i: int) {
    0 <= i < |w.focusables|
  }

  /** `changeFocus(int)`: nothing when the index is the current one;
      otherwise the old widget loses focus if the old index is valid, the
      index is stored even when out of range, and the new widget gains
      focus if the new index is valid. */
  function ChangeFocusTo(w: Window, i: int): (r: (Window, seq<FocusCall>))
    ensures i == w.current ==> r == (w, [])
    ensures i != w.current ==>
      (r.0 == w.(current := i)
       && r.1 == (if IsFocusableIndex(w, w.current) then [FocusCall(w.focusables[w.current].id, false)] else [])
                 + (if IsFocusableIndex(w, i) then [FocusCall(w.focusables[i].id, true)] else []))
  {
    if i == w.current then (w, [])
    else
      var off := if IsFocusableIndex(w, w.current) then [FocusCall(w.focusables[w.current].id, false)] else [];
      var on := if IsFocusableIndex(w, i) then [FocusCall(w.focusables[i].id, true)] else [];
      (w.(current := i), off + on)
  }

  /** `indexOf` on the focus list: the first entry of the widget, or -1. */
  function IndexOfEntry(fs: seq<FocusEntry>, id: WidgetId): (i: int)
    ensures -1 <= i < |fs|
    ensures i >= 0 ==> fs[i].id == id && forall j :: 0 <= j < i ==> fs[j].id != id
    ensures i == -1 ==> forall j :: 0 <= j < |fs| ==> fs[j].id != id
  {
    if |fs| == 0 then -1
    else if fs[0].id == id then 0
    else
      var k := IndexOfEntry(fs[1..], id);
      if k == -1 then -1 else k + 1
  }

  /** `changeFocus(Widget)`. */
  function ChangeFocusToWidget(w: Window, id: WidgetId): (r: (Window, seq<FocusCall>))
    ensures r.0.current == IndexOfEntry(w.focusables, id)
    ensures r.0 == w.(current := IndexOfEntry(w.focusables, id))
  {
    ChangeFocusTo(w, IndexOfEntry(w.focusables, id))
  }

  /** The index `changeFocus()` moves to from `cur` in a list of `n`. */
  function NextIndex(cur: int, n: int): int {
    if cur >= n - 1 || cur < -1 then 0 else cur + 1
  }

  /** `changeFocus()`: the next widget, wrapping to the first. */
  function Advance(w: Window): (r: (Window, seq<FocusCall>))
    ensures r.0 == w.(current := NextIndex(w.current, |w.focusables|))
    ensures |w.focusables| > 0 ==> IsFocusableIndex(r.0, r.0.current)
    ensures r.0.focusables == w.focusables
  {
    ChangeFocusTo(w, NextIndex(w.current, |w.focusables|))
  }

  /** On a valid index, or the initial -1, advancing is the successor
      modulo the list length; from anywhere else it is the first widget. */
  lemma AdvanceIsCyclicSuccessor(cur: int, n: int)
    requires n > 0
    ensures -1 <= cur <= n - 1 ==> NextIndex(cur, n) == (cur + 1) % n
    ensures cur < -1 || cur >= n - 1 ==> NextIndex(cur, n) == 0
  {
  }

  /** `changeFocus()` applied k times to the index alone. */
  function AdvanceTimes(cur: int, n: int, k: nat): int {
    if k == 0 then cur else NextIndex(AdvanceTimes(cur, n, k - 1), n)
  }

  lemma {:induction false} AdvanceClimbs(cur: int, n: int, k: nat)
    requires 0 <= cur && cur + k < n
    ensures AdvanceTimes(cur, n, k) == cur + k
  {
    if k > 0 {
      AdvanceClimbs(cur, n, k - 1);
    }
  }

  lemma {:induction false} AdvanceTimesAdd(cur: int, n: int, a: nat, b: nat)
    ensures AdvanceTimes(cur, n, a + b) == AdvanceTimes(AdvanceTimes(cur, n, a), n, b)
  {
    if b > 0 {
      AdvanceTimesAdd(cur, n, a, b - 1);
    }
  }

  /** Advancing once per widget visits every later widget in turn, wraps to
      the first, and comes back to where it started. */
  lemma AdvanceCycles(cur: int, n: int)
    requires 0 <= cur < n
    ensures forall k: nat :: cur + k < n ==> AdvanceTimes(cur, n, k) == cur + k
    ensures AdvanceTimes(cur, n, n - cur) == 0
    ensures AdvanceTimes(cur, n, n) == cur
  {
    forall k: nat | cur + k < n
      ensures AdvanceTimes(cur, n, k) == cur + k
    {
      AdvanceClimbs(cur, n, k);
    }
    AdvanceClimbs(cur, n, n - 1 - cur);
    AdvanceTimesAdd(cur, n, n - 1 - cur, 1);
    AdvanceTimesAdd(cur, n, n - cur, cur);
    AdvanceClimbs(0, n, cur);
  }

  /** `loadFocusableChilds`: the new list replaces the old one, and when the
      focus index no longer fits the focus advances. */
  function LoadFocusables(w: Window, fs: seq<FocusEntry>): (r: (Window, seq<FocusCall>))
    ensures r.0 == w.(focusables := fs, current := r.0.current)
    ensures |fs| > 0 ==> IsFocusableIndex(r.0, r.0.current)
    ensures |fs| == 0 ==> r.0.current == 0 && r.1 == []
    ensures 0 <= w.current < |fs| ==> r == (w.(focusables := fs), [])
  {
    var w1 := w.(focusables := fs);
    if IsFocusableIndex(w1, w1.current) then (w1, []) else Advance(w1)
  }

  /** Loading a list whose first widget is new, with no valid focus, focuses
      it and unfocuses nothing. */
  lemma LoadFocusablesFocusesFirst(w: Window, fs: seq<FocusEntry>)
    requires |fs| > 0 && !(0 <= w.current < |fs|)
    ensures LoadFocusables(w, fs).1 == [FocusCall(fs[0].id, true)]
  {
  }

  /* ---------------------------------------------------------------------
     Directional focus movement
     --------------------------------------------------------------------- */

  datatype Direction = DirLeft | DirRight | DirUp | DirDown

  /** The candidate lies strictly on the requested side of the current
      widget. */
  predicate InDirection(d: Direction, cand: Rect, cur: Rect) {
    match d
    case DirLeft => IsLeftOf(cand, cur)
    case DirRight => IsRightOf(cand, cur)
    case DirUp => IsAbove(cand, cur)
    case DirDown => IsBelow(cand, cur)
  }

  /** The compared distances: across the direction of travel first, then
      along it. */
  function PrimaryDistance(d: Direction, cur: Rect, r: Rect): nat {
    if d.DirLeft? || d.DirRight? then VerticalDistanceFrom(cur, r) else HorizontalDistanceFrom(cur, r)
  }

  function SecondaryDistance(d: Direction, cur: Rect, r: Rect): nat {
    if d.DirLeft? || d.DirRight? then HorizontalDistanceFrom(cur, r) else VerticalDistanceFrom(cur, r)
  }

  /** `a` is strictly closer than `b` in the lexicographic order. */
  predicate Closer(d: Direction, cur: Rect, a: Rect, b: Rect) {
    PrimaryDistance(d, cur, a) < PrimaryDistance(d, cur, b)
    || (PrimaryDistance(d, cur, a) == PrimaryDistance(d, cur, b)
        && SecondaryDistance(d, cur, a) < SecondaryDistance(d, cur, b))
  }

  predicate IsCandidate(fs: seq<FocusEntry>, c: nat, d: Direction, j: int)
    requires c < |fs|
  {
    0 <= j < |fs| && fs[j].id != fs[c].id && InDirection(d, fs[j].rect, fs[c].rect)
  }

  /** The scan of `moveFocus` over entries j.. with best-so-far `res`: a
      candidate replaces the result when the result is still the current
      widget or the candidate is strictly closer. */
  function Scan(fs: seq<FocusEntry>, c: nat, d: Direction, j: nat, res: nat): (t: nat)
    requires c < |fs| && res < |fs| && j <= |fs|
    ensures t < |fs|
    ensures t == res || (j <= t && IsCandidate(fs, c, d, t))
    decreases |fs| - j
  {
    if j == |fs| then res
    else if IsCandidate(fs, c, d, j) && (res == c || Closer(d, fs[c].rect, fs[j].rect, fs[res].rect))
    then Scan(fs, c, d, j + 1, j)
    else Scan(fs, c, d, j + 1, res)
  }

  /** No candidate among the entries below j. */
  predicate NoneSeen(fs: seq<FocusEntry>, c: nat, d: Direction, j: nat)
    requires c < |fs| && j <= |fs|
  {
    forall k :: 0 <= k < j ==> !IsCandidate(fs, c, d, k)
  }

  /** Among the entries below j, `res` is a candidate that none is strictly
      closer than, and it is strictly closer than every earlier one. */
  predicate BestSoFar(fs: seq<FocusEntry>, c: nat, d: Direction, j: nat, res: nat)
    requires c < |fs| && j <= |fs|
  {
    res < j && IsCandidate(fs, c, d, res)
    && (forall k :: 0 <= k < j && IsCandidate(fs, c, d, k) ==> !Closer(d, fs[c].rect, fs[k].rect, fs[res].rect))
    && (forall k :: 0 <= k < res && IsCandidate(fs, c, d, k) ==> Closer(d, fs[c].rect, fs[res].rect, fs[k].rect))
  }

  /** What the scan keeps after the entries below j. */
  predicate ScanState(fs: seq<FocusEntry>, c: nat, d: Direction, j: nat, res: nat)
    requires c < |fs| && j <= |fs|
  {
    (NoneSeen(fs, c, d, j) && res == c) || BestSoFar(fs, c, d, j, res)
  }

  /** The lexicographic order is a strict weak order. */
  lemma CloserSteps(d: Direction, cur: Rect, a: Rect, b: Rect, e: Rect)
    ensures !Closer(d, cur, a, a)
    ensures Closer(d, cur, a, b) && !Closer(d, cur, e, b) ==> Closer(d, cur, a, e)
    ensures Closer(d, cur, a, b) ==> !Closer(d, cur, e, a) || Closer(d, cur, e, b)
  {
  }

  lemma ScanTakes(fs: seq<FocusEntry>, c: nat, d: Direction, j: nat, res: nat)
    requires c < |fs| && res < |fs| && j < |fs|
    requires ScanState(fs, c, d, j, res)
    requires IsCandidate(fs, c, d, j) && (res == c || Closer(d, fs[c].rect, fs[j].rect, fs[res].rect))
    ensures BestSoFar(fs, c, d, j + 1, j)
  {
    var cur := fs[c].rect;
    CloserSteps(d, cur, fs[j].rect, fs[j].rect, fs[j].rect);
    if BestSoFar(fs, c, d, j, res) {
      assert res != c;
      forall k | 0 <= k < j + 1 && IsCandidate(fs, c, d, k)
        ensures !Closer(d, cur, fs[k].rect, fs[j].rect)
      {
        if k < j {
          CloserSteps(d, cur, fs[j].rect, fs[res].rect, fs[k].rect);
        }
      }
      forall k | 0 <= k < j && IsCandidate(fs, c, d, k)
        ensures Closer(d, cur, fs[j].rect, fs[k].rect)
      {
        CloserSteps(d, cur, fs[j].rect, fs[res].rect, fs[k].rect);
      }
    }
  }

  lemma ScanSkips(fs: seq<FocusEntry>, c: nat, d: Direction, j: nat, res: nat)
    requires c < |fs| && res < |fs| && j < |fs|
    requires ScanState(fs, c, d, j, res)
    requires !(IsCandidate(fs, c, d, j) && (res == c || Closer(d, fs[c].rect, fs[j].rect, fs[res].rect)))
    ensures ScanState(fs, c, d, j + 1, res)
  {
    if BestSoFar(fs, c, d, j, res) {
      assert res != c;
      assert BestSoFar(fs, c, d, j + 1, res);
    } else {
      assert NoneSeen(fs, c, d, j + 1);
    }
  }

  lemma {:induction false} ScanKeepsState(fs: seq<FocusEntry>, c: nat, d: Direction, j: nat, res: nat)
    requires c < |fs| && res < |fs| && j <= |fs|
    requires ScanState(fs, c, d, j, res)
    ensures ScanState(fs, c, d, |fs|, Scan(fs, c, d, j, res))
    decreases |fs| - j
  {
    if j < |fs| {
      if IsCandidate(fs, c, d, j) && (res == c || Closer(d, fs[c].rect, fs[j].rect, fs[res].rect)) {
        ScanTakes(fs, c, d, j, res);
        ScanKeepsState(fs, c, d, j + 1, j);
      } else {
        ScanSkips(fs, c, d, j, res);
        ScanKeepsState(fs, c, d, j + 1, res);
      }
    }
  }

  /** The widget `moveFocus` settles on, starting from entry `c`: the
      current widget when nothing lies in the direction, and otherwise a
      widget in the direction that no other is strictly closer than, the
      earliest among equally close ones. */
  lemma MoveTargetProperties(fs: seq<FocusEntry>, c: nat, d: Direction)
    requires c < |fs|
    ensures NoneSeen(fs, c, d, |fs|) ==> Scan(fs, c, d, 0, c) == c
    ensures !NoneSeen(fs, c, d, |fs|) ==>
      (InDirection(d, fs[Scan(fs, c, d, 0, c)].rect, fs[c].rect)
       && BestSoFar(fs, c, d, |fs|, Scan(fs, c, d, 0, c)))
  {
    ScanKeepsState(fs, c, d, 0, c);
  }

  /** `moveFocus`: nothing on an empty list; otherwise the scan starts from
      the focused widget, or from the first one when none is focused, and
      the focus moves to the widget found. */
  function MoveFocus(w: Window, d: Direction): (r: (Window, seq<FocusCall>))
    ensures |w.focusables| == 0 ==> r == (w, [])
    ensures r.0.focusables == w.focusables
    ensures r.0 == w.(current := r.0.current)
  {
    if |w.focusables| == 0 then (w, [])
    else
      var c := if IsFocusableIndex(w, w.current) then w.current else 0;
      var t := Scan(w.focusables, c, d, 0, c);
      ChangeFocusToWidget(w, w.focusables[t].id)
  }

  /** With distinct widgets in the list, the focus lands on the scan's
      target; with no candidate and a focused widget, nothing changes. */
  lemma MoveFocusLandsOnTarget(w: Window, d: Direction)
    requires |w.focusables| > 0
    requires forall i, j :: 0 <= i < j < |w.focusables| ==> w.focusables[i].id != w.focusables[j].id
    ensures var c := if IsFocusableIndex(w, w.current) then w.current else 0;
            MoveFocus(w, d).0.current == Scan(w.focusables, c, d, 0, c)
    ensures IsFocusableIndex(w, w.current)
            && NoneSeen(w.focusables, w.current, d, |w.focusables|)
            ==> MoveFocus(w, d) == (w, [])
  {
    var c := if IsFocusableIndex(w, w.current) then w.current else 0;
    var t := Scan(w.focusables, c, d, 0, c);
    var i := IndexOfEntry(w.focusables, w.focusables[t].id);
    assert i == t;
    MoveTargetProperties(w.focusables, c, d);
  }

  /* ---------------------------------------------------------------------
     Shortcuts and input dispatch
     --------------------------------------------------------------------- */

  /** A widget with shortcuts and the keys it registers. */
  datatype Registration = Registration(id: WidgetId, keys: seq<Keys.Key>)

  predicate Registers(r: Registration, k: Keys.Key) {
    k in r.keys
  }

  /** The shortcut list: all registered keys, in registration order. */
  function AllKeys(regs: seq<Registration>): (ks: seq<Keys.Key>)
    ensures forall k :: k in ks <==> exists i :: 0 <= i < |regs| && Registers(regs[i], k)
  {
    if |regs| == 0 then []
    else
      var rest := AllKeys(regs[1..]);
      assert forall i :: 1 <= i < |regs| ==> regs[i] == regs[1..][i - 1];
      regs[0].keys + rest
  }

  /** The table built by `loadShortcuts`: registrations are entered in
      order, so a key registered twice belongs to the later widget. */
  function ShortcutTable(regs: seq<Registration>): map<Keys.Key, WidgetId>
    decreases |regs|
  {
    if |regs| == 0 then map[]
    else
      var last := regs[|regs| - 1];
      var m := ShortcutTable(regs[..|regs| - 1]);
      var keys := m.Keys + (set k | k in last.keys);
      map k | k in keys :: if k in last.keys then last.id else m[k]
  }

  /** The last registration of a key, searched from the end. */
  function LastRegistration(regs: seq<Registration>, k: Keys.Key): (r: Option<nat>)
    ensures r.None? <==> forall i :: 0 <= i < |regs| ==> !Registers(regs[i], k)
    ensures r.Some? ==>
      (r.value < |regs| && Registers(regs[r.value], k)
       && forall j :: r.value < j < |regs| ==> !Registers(regs[j], k))
    decreases |regs|
  {
    if |regs| == 0 then None
    else if k in regs[|regs| - 1].keys then Some(|regs| - 1)
    else
      var r := LastRegistration(regs[..|regs| - 1], k);
      assert forall i :: 0 <= i < |regs| - 1 ==> regs[..|regs| - 1][i] == regs[i];
      r
  }

  /** A key is in the table exactly when some widget registered it, and its
      owner is the widget that registered it last. */
  lemma {:induction false} ShortcutTableLastWins(regs: seq<Registration>, k: Keys.Key)
    ensures k in ShortcutTable(regs) <==> LastRegistration(regs, k).Some?
    ensures k in ShortcutTable(regs) ==> ShortcutTable(regs)[k] == regs[LastRegistration(regs, k).value].id
    decreases |regs|
  {
    if |regs| > 0 {
      var init := regs[..|regs| - 1];
      ShortcutTableLastWins(init, k);
    }
  }

  /** `loadShortcuts`: the list and the table are rebuilt from the
      registrations, and every listed key has an owner in the table. */
  function LoadShortcuts(w: Window, regs: seq<Registration>): (r: Window)
    ensures r == w.(shortcutList := r.shortcutList, shortcutTable := r.shortcutTable)
    ensures forall k :: k in r.shortcutList <==> exists i :: 0 <= i < |regs| && Registers(regs[i], k)
    ensures forall k :: k in r.shortcutList <==> k in r.shortcutTable
  {
    var table := ShortcutTable(regs);
    assert forall k :: k in AllKeys(regs) <==> k in table by {
      forall k {
        ShortcutTableLastWins(regs, k);
      }
    }
    w.(shortcutList := AllKeys(regs), shortcutTable := table)
  }

  /** What `handleInput` decided to do with a key. */
  datatype Action =
    | ConsumedByWidget      // the focused widget used the key
    | CloseRequest          // the closing key: `tryToClose`
    | FocusNext             // the focus-change key
    | Move(d: Direction)    // an arrow key
    | Shortcut(id: WidgetId) // the key was passed to the shortcut's owner
    | Unhandled             // `onChar`

  predicate IsArrow(k: Keys.Key) {
    k == Keys.Up || k == Keys.Down || k == Keys.Left || k == Keys.Right
  }

  /** `handleInput`: the focused widget sees the key first, and only if it
      does not consume it are the closing key, the focus-change key, the
      arrows, the shortcuts and finally `onChar` tried, in that order.
      `consumes` is the focused widget's own decision.  A listed shortcut
      without an owner in the table is a null pointer in the Java code. */
  function HandleInput(w: Window, k: Keys.Key, consumes: (WidgetId, Keys.Key) -> bool): (r: Result<(Window, seq<FocusCall>, Action)>)
    ensures r.Err? <==>
      (!(IsFocusableIndex(w, w.current) && consumes(w.focusables[w.current].id, k))
       && k != w.closingChar && k != w.focusChangeChar && !IsArrow(k)
       && k in w.shortcutList && k !in w.shortcutTable)
    ensures r.Ok? ==> r.value.0 == w.(current := r.value.0.current)
    ensures IsFocusableIndex(w, w.current) && consumes(w.focusables[w.current].id, k) ==>
      r == Ok((w, [], ConsumedByWidget))
    ensures r.Ok? && r.value.2 == ConsumedByWidget ==>
      IsFocusableIndex(w, w.current) && consumes(w.focusables[w.current].id, k)
    ensures r.Ok? && r.value.2 == CloseRequest ==>
      (k == w.closingChar && r.value.0 == w && r.value.1 == [])
    ensures r.Ok? && r.value.2 == FocusNext ==>
      (k == w.focusChangeChar && k != w.closingChar && (r.value.0, r.value.1) == Advance(w))
    ensures r.Ok? && r.value.2.Move? ==>
      (IsArrow(k) && k != w.closingChar && k != w.focusChangeChar
       && (r.value.0, r.value.1) == MoveFocus(w, r.value.2.d)
       && r.value.2.d == (if k == Keys.Up then DirUp else if k == Keys.Down then DirDown
                          else if k == Keys.Left then DirLeft else DirRight))
    ensures r.Ok? && r.value.2.Shortcut? ==>
      (k in w.shortcutList && k in w.shortcutTable && r.value.2.id == w.shortcutTable[k] && r.value.0 == w
       && k != w.closingChar && k != w.focusChangeChar && !IsArrow(k))
    ensures r.Ok? && r.value.2 == Unhandled ==>
      (k !in w.shortcutList && k != w.closingChar && k != w.focusChangeChar && !IsArrow(k) && r.value.0 == w)
    ensures var unconsumed := !(IsFocusableIndex(w, w.current) && consumes(w.focusables[w.current].id, k));
      unconsumed ==>
        (k == w.closingChar ==> r == Ok((w, [], CloseRequest)))
        && (k != w.closingChar && k == w.focusChangeChar ==> r.Ok? && r.value.2 == FocusNext)
        && (k != w.closingChar && k != w.focusChangeChar && IsArrow(k) ==> r.Ok? && r.value.2.Move?)
        && (k != w.closingChar && k != w.focusChangeChar && !IsArrow(k) && k in w.shortcutList && k in w.shortcutTable ==>
              r.Ok? && r.value.2.Shortcut?)
        && (k != w.closingChar && k != w.focusChangeChar && !IsArrow(k) && k !in w.shortcutList ==>
              r == Ok((w, [], Unhandled)))
  {
    if IsFocusableIndex(w, w.current) && consumes(w.focusables[w.current].id, k) then Ok((w, [], ConsumedByWidget))
    else if k == w.closingChar then Ok((w, [], CloseRequest))
    else if k == w.focusChangeChar then
      var (w1, calls) := Advance(w);
      Ok((w1, calls, FocusNext))
    else if IsArrow(k) then
      var d := if k == Keys.Up then DirUp else if k == Keys.Down then DirDown else if k == Keys.Left then DirLeft else DirRight;
      var (w1, calls) := MoveFocus(w, d);
      Ok((w1, calls, Move(d)))
    else if k in w.shortcutList then
      if k in w.shortcutTable then Ok((w, [], Shortcut(w.shortcutTable[k]))) else Err(NullPointer)
    else Ok((w, [], Unhandled))
  }

  /** In a window whose shortcuts were loaded, input never fails. */
  lemma LoadedWindowHandlesAllInput(w: Window, regs: seq<Registration>, k: Keys.Key, consumes: (WidgetId, Keys.Key) -> bool)
    ensures HandleInput(LoadShortcuts(w, regs), k, consumes).Ok?
  {
  }

  /** The arrows reach `moveFocus` in their own direction. */
  lemma ArrowMovesFocus(w: Window, consumes: (WidgetId, Keys.Key) -> bool)
    requires !IsFocusableIndex(w, w.current)
    requires w.closingChar == Keys.Escape && w.focusChangeChar == Keys.Tab
    ensures HandleInput(w, Keys.Left, consumes) == Ok((MoveFocus(w, DirLeft).0, MoveFocus(w, DirLeft).1, Move(DirLeft)))
    ensures HandleInput(w, Keys.Up, consumes).value.2 == Move(DirUp)
  {
  }

  /* ---------------------------------------------------------------------
     Packing
     --------------------------------------------------------------------- */

  /** The focus list of a root panel, with each widget's screen rectangle. */
  function FocusEntries(root: Widgets.Node): (fs: seq<FocusEntry>)
    ensures |fs| == |Widgets.Focusables(root)|
    ensures forall i :: 0 <= i < |fs| ==> fs[i].id == Widgets.Focusables(root)[i].info.id
  {
    if root.Container? then
      var ns := Widgets.Collect(Widgets.Focusable, root.children);
      var rs := Widgets.Placements(Widgets.Focusable, root.children, root.info.x, root.info.y);
      seq(|ns|, i requires 0 <= i < |ns| => FocusEntry(ns[i].info.id, rs[i]))
    else []
  }

  function Registrations(root: Widgets.Node): (regs: seq<Registration>)
    ensures |regs| == |Widgets.WithShortcutList(root)|
  {
    var ns := Widgets.WithShortcutList(root);
    seq(|ns|, i requires 0 <= i < |ns| => Registration(ns[i].info.id, ns[i].info.shortcuts.value))
  }

  /** `pack`: cut to the screen, lay the root panel over the window, lay out
      the tree (the trace of placed widgets), then reload the focus list and
      the shortcuts. */
  function Pack(w: Window, screenWidth: int, screenHeight: int): (r: (Window, seq<WidgetId>, seq<FocusCall>))
    requires w.root.Container?
    ensures r.0.rect == CutIfNeeded(w.rect, w.shadow, screenWidth, screenHeight)
    ensures r.0.id == w.id && r.0.visible == w.visible && r.0.closed == w.closed && r.0.root.Container?
    ensures r.0.root.info.x == RootPanelRect(r.0.rect, w.border).x
    ensures r.0.root.info.width == RootPanelRect(r.0.rect, w.border).width
    ensures |r.0.focusables| > 0 ==> IsFocusableIndex(r.0, r.0.current)
    ensures |r.0.focusables| == |Widgets.Focusables(w.root)|
    ensures |r.1| == Widgets.Size(w.root.children)
  {
    var cut := CutIfNeeded(w.rect, w.shadow, screenWidth, screenHeight);
    var p := RootPanelRect(cut, w.border);
    var root := w.root.(info := w.root.info.(x := p.x, y := p.y, width := p.width, height := p.height));
    var w1 := w.(rect := cut, root := root);
    var placed := Widgets.Pack(root.children);
    Widgets.PackPlacesEachWidgetOnce(root.children);
    var (w2, calls) := LoadFocusables(w1, FocusEntries(root));
    (LoadShortcuts(w2, Registrations(root)), placed, calls)
  }
}

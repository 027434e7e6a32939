/** The widget tree (`Widget`, `WidgetContainer`).  A widget's parent link is
    modelled by the tree shape itself: a container owns the sequence of its
    children, and the ancestry of one widget is given as a `Chain` (the
    widget first, the root panel last).  Object identity is the widget's
    `id`. */
module Widgets {
  import opened Wrappers
  import opened Geometry
  import Keys
  import Toolkit

  type WidgetId = nat
  type WindowId = nat
  type LayoutId = nat

  /** The per-widget fields every widget has. */
  datatype Info = Info(
    id: WidgetId,
    x: int, y: int,           // position relative to the parent
    width: int, height: int,
    visible: bool,            // the widget's own visibility flag
    focus: bool,              // the widget's own focus flag
    focusable: bool,          // what `isFocusable` answers
    shortcuts: Option<seq<Keys.Key>>, // what `getShortCutsList` answers
    window: Option<WindowId>  // set on root panels only
  )

  /** A fresh base widget: visible, unfocused, not focusable, no shortcuts. */
  function DefaultInfo(id: WidgetId): (i: Info)
    ensures i.id == id && i.visible && !i.focus && !i.focusable && i.shortcuts.None? && i.window.None?
    ensures i.x == 0 && i.y == 0 && i.width == 0 && i.height == 0
  {
    Info(id, 0, 0, 0, 0, true, false, false, None, None)
  }

  /** `Panel` uses its own rectangle as client area, `BorderPanel` the inset
      rectangle at (1, 1). */
  datatype ContainerKind = PlainPanel | BorderedPanel

  /** An opaque layout constraint. */
  type Constraint = int

  datatype Node =
    | Leaf(info: Info)
    | Container(info: Info, kind: ContainerKind, children: seq<Node>,
                constraints: map<WidgetId, Constraint>, layout: Option<LayoutId>)

  /* ---------------------------------------------------------------------
     Flattening the tree
     --------------------------------------------------------------------- */

  /** Which children a flattening collects. */
  datatype Query = Focusable | WithShortcuts

  predicate Qualifies(q: Query, n: Node) {
    match q
    case Focusable => n.info.focusable && n.info.visible
    case WithShortcuts => n.info.shortcuts.Some?
  }

  /** `getListOfFocusables` / `getListOfWidgetsWithShortCuts` over a child
      list: children in order, each qualifying child taken as a whole and
      any other container searched recursively. */
  function Collect(q: Query, ws: seq<Node>): (r: seq<Node>)
    ensures forall i :: 0 <= i < |r| ==> Qualifies(q, r[i])
    decreases ws, 1
  {
    if |ws| == 0 then [] else CollectOne(q, ws[0]) + Collect(q, ws[1..])
  }

  function CollectOne(q: Query, n: Node): (r: seq<Node>)
    ensures forall i :: 0 <= i < |r| ==> Qualifies(q, r[i])
    decreases n, 0
  {
    if Qualifies(q, n) then [n]
    else if n.Container? then Collect(q, n.children)
    else []
  }

  function Focusables(root: Node): seq<Node> {
    if root.Container? then Collect(Focusable, root.children) else []
  }

  function WithShortcutList(root: Node): seq<Node> {
    if root.Container? then Collect(WithShortcuts, root.children) else []
  }

  /** The screen rectangles (`getRectangle`) of the collected widgets, given
      the absolute position of the container whose children are searched. */
  function Placements(q: Query, ws: seq<Node>, ox: int, oy: int): (r: seq<Rect>)
    ensures |r| == |Collect(q, ws)|
    ensures forall i :: 0 <= i < |r| ==>
      r[i].width == Collect(q, ws)[i].info.width && r[i].height == Collect(q, ws)[i].info.height
    decreases ws, 1
  {
    if |ws| == 0 then [] else PlacementsOne(q, ws[0], ox, oy) + Placements(q, ws[1..], ox, oy)
  }

  function PlacementsOne(q: Query, n: Node, ox: int, oy: int): (r: seq<Rect>)
    ensures |r| == |CollectOne(q, n)|
    ensures forall i :: 0 <= i < |r| ==>
      r[i].width == CollectOne(q, n)[i].info.width && r[i].height == CollectOne(q, n)[i].info.height
    decreases n, 0
  {
    if Qualifies(q, n) then [Rect(ox + n.info.x, oy + n.info.y, n.info.width, n.info.height)]
    else if n.Container? then Placements(q, n.children, ox + n.info.x, oy + n.info.y)
    else []
  }

  /** Collecting distributes over concatenated child lists. */
  lemma {:induction false} CollectAppend(q: Query, a: seq<Node>, b: seq<Node>)
    ensures Collect(q, a + b) == Collect(q, a) + Collect(q, b)
    decreases |a|
  {
    if |a| == 0 {
      assert a + b == b;
    } else {
      assert (a + b)[1..] == a[1..] + b;
      CollectAppend(q, a[1..], b);
    }
  }

  /** The widgets the search can reach: a child, or anything reachable below
      a child that does not itself qualify. */
  predicate Exposed(q: Query, ws: seq<Node>, n: Node)
    decreases ws, 1
  {
    exists i :: 0 <= i < |ws| && ExposedIn(q, ws[i], n)
  }

  predicate ExposedIn(q: Query, c: Node, n: Node)
    decreases c, 0
  {
    c == n || (!Qualifies(q, c) && c.Container? && Exposed(q, c.children, n))
  }

  /** A widget is collected exactly when it qualifies and is reachable
      without passing through a qualifying widget. */
  lemma {:induction false} CollectIffExposed(q: Query, ws: seq<Node>, n: Node)
    ensures n in Collect(q, ws) <==> Qualifies(q, n) && Exposed(q, ws, n)
    decreases ws, 1
  {
    if |ws| == 0 {
    } else {
      CollectOneIffExposed(q, ws[0], n);
      CollectIffExposed(q, ws[1..], n);
      assert Collect(q, ws) == CollectOne(q, ws[0]) + Collect(q, ws[1..]);
      if Exposed(q, ws, n) {
        var i :| 0 <= i < |ws| && ExposedIn(q, ws[i], n);
        if i > 0 {
          assert ws[1..][i - 1] == ws[i];
        }
      }
      if Exposed(q, ws[1..], n) {
        var i :| 0 <= i < |ws[1..]| && ExposedIn(q, ws[1..][i], n);
        assert ws[i + 1] == ws[1..][i];
      }
    }
  }

  lemma {:induction false} CollectOneIffExposed(q: Query, c: Node, n: Node)
    ensures n in CollectOne(q, c) <==> Qualifies(q, n) && ExposedIn(q, c, n)
    decreases c, 0
  {
    if !Qualifies(q, c) && c.Container? {
      CollectIffExposed(q, c.children, n);
    }
  }

  /** A qualifying container is collected itself and not searched: its own
      focusable children are not listed. */
  lemma QualifyingContainerNotDescended()
    ensures var z := Leaf(Info(2, 0, 0, 1, 1, true, false, true, None, None));
            var x := Container(Info(1, 0, 0, 5, 5, true, false, true, None, None), PlainPanel, [z], map[], None);
            Collect(Focusable, [x]) == [x] && z !in Collect(Focusable, [x])
  {
    var z := Leaf(Info(2, 0, 0, 1, 1, true, false, true, None, None));
    var x := Container(Info(1, 0, 0, 5, 5, true, false, true, None, None), PlainPanel, [z], map[], None);
    assert [x][1..] == [];
    assert Collect(Focusable, [x]) == [x];
  }

  /* ---------------------------------------------------------------------
     The parent chain
     --------------------------------------------------------------------- */

  /** A widget followed by its ancestors; the last entry is the root. */
  type Chain = c: seq<Info> | |c| > 0 witness [DefaultInfo(0)]

  function Parent(c: Chain): Option<Chain> {
    if |c| > 1 then Some(c[1..]) else None
  }

  /** `getWindow`: the window set on the root of the chain. */
  function GetWindow(c: Chain): (w: Option<WindowId>)
    ensures w == c[|c| - 1].window
    decreases |c|
  {
    if |c| == 1 then c[0].window else GetWindow(c[1..])
  }

  /** `isVisible`: the parent must be visible, and then the widget's own
      flag and its window's visibility decide.  `shown` is the set of
      windows that are currently visible. */
  function IsVisible(c: Chain, shown: set<WindowId>): bool
    decreases |c|
  {
    if |c| > 1 && !IsVisible(c[1..], shown) then false
    else c[0].visible && GetWindow(c).Some? && GetWindow(c).value in shown
  }

  /** A widget is visible exactly when its window is shown and every flag on
      the chain is set. */
  lemma {:induction false} IsVisibleIffAllFlags(c: Chain, shown: set<WindowId>)
    ensures IsVisible(c, shown) <==>
      (GetWindow(c).Some? && GetWindow(c).value in shown && forall i :: 0 <= i < |c| ==> c[i].visible)
    decreases |c|
  {
    if |c| > 1 {
      IsVisibleIffAllFlags(c[1..], shown);
      assert forall i :: 1 <= i < |c| ==> c[i] == c[1..][i - 1];
    }
  }

  /** `hasFocus`: the own flag, and the parent's focus if there is a parent. */
  function HasFocus(c: Chain): bool
    decreases |c|
  {
    c[0].focus && (|c| == 1 || HasFocus(c[1..]))
  }

  lemma {:induction false} HasFocusIffAllFlags(c: Chain)
    ensures HasFocus(c) <==> forall i :: 0 <= i < |c| ==> c[i].focus
    decreases |c|
  {
    if |c| > 1 {
      HasFocusIffAllFlags(c[1..]);
      assert forall i :: 1 <= i < |c| ==> c[i] == c[1..][i - 1];
    }
  }

  /** The `focus()` / `unfocus()` hook calls. */
  datatype Hook = FocusHook(id: WidgetId) | UnfocusHook(id: WidgetId)

  function HookFor(id: WidgetId, on: bool): Hook {
    if on then FocusHook(id) else UnfocusHook(id)
  }

  /** `setFocus`: the flag is set on the widget and every ancestor; the
      ancestors' hooks run first, since the recursion into the parent
      precedes the widget's own hook. */
  function SetFocus(c: Chain, on: bool): (r: (Chain, seq<Hook>))
    ensures |r.0| == |c| && |r.1| == |c|
    ensures forall i :: 0 <= i < |c| ==> r.0[i] == c[i].(focus := on)
    ensures forall k :: 0 <= k < |c| ==> r.1[k] == HookFor(c[|c| - 1 - k].id, on)
    decreases |c|
  {
    var own := HookFor(c[0].id, on);
    if |c| == 1 then ([c[0].(focus := on)], [own])
    else
      var (p, hooks) := SetFocus(c[1..], on);
      SetFocusStep(c, on, p, hooks);
      ([c[0].(focus := on)] + p, hooks + [own])
  }

  /** One level of `setFocus`: the widget's own flag goes in front of its
      ancestors' and its own hook after theirs. */
  lemma SetFocusStep(c: Chain, on: bool, p: seq<Info>, hooks: seq<Hook>)
    requires |c| > 1 && |p| == |c| - 1 && |hooks| == |c| - 1
    requires forall i :: 0 <= i < |c| - 1 ==> p[i] == c[1..][i].(focus := on)
    requires forall k :: 0 <= k < |c| - 1 ==> hooks[k] == HookFor(c[1..][|c| - 2 - k].id, on)
    ensures var q := [c[0].(focus := on)] + p;
      forall i :: 0 <= i < |c| ==> q[i] == c[i].(focus := on)
    ensures var h := hooks + [HookFor(c[0].id, on)];
      forall k :: 0 <= k < |c| ==> h[k] == HookFor(c[|c| - 1 - k].id, on)
  {
    var q := [c[0].(focus := on)] + p;
    forall i | 1 <= i < |c|
      ensures q[i] == c[i].(focus := on)
    {
      assert q[i] == p[i - 1] && c[1..][i - 1] == c[i];
    }
    var h := hooks + [HookFor(c[0].id, on)];
    forall k | 0 <= k < |c| - 1
      ensures h[k] == HookFor(c[|c| - 1 - k].id, on)
    {
      assert c[1..][|c| - 2 - k] == c[|c| - 1 - k];
    }
  }

  /** After `setFocus(true)` the widget and all its ancestors have focus;
      after `setFocus(false)` none has. */
  lemma SetFocusDecidesHasFocus(c: Chain, on: bool)
    ensures HasFocus(SetFocus(c, on).0) == on
  {
    var c2 := SetFocus(c, on).0;
    HasFocusIffAllFlags(c2);
  }

  /** `getAbsoluteX` / `getAbsoluteY`: own offset plus the parent's. */
  function AbsoluteX(c: Chain): int
    decreases |c|
  {
    c[0].x + (if |c| > 1 then AbsoluteX(c[1..]) else 0)
  }

  function AbsoluteY(c: Chain): int
    decreases |c|
  {
    c[0].y + (if |c| > 1 then AbsoluteY(c[1..]) else 0)
  }

  function SumX(s: seq<Info>): int {
    if |s| == 0 then 0 else s[0].x + SumX(s[1..])
  }

  function SumY(s: seq<Info>): int {
    if |s| == 0 then 0 else s[0].y + SumY(s[1..])
  }

  /** The absolute position of a widget is the position of any ancestor
      plus the offsets of the widgets between them. */
  lemma {:induction false} AbsoluteThroughAncestor(a: seq<Info>, b: Chain)
    ensures AbsoluteX(a + b) == SumX(a) + AbsoluteX(b)
    ensures AbsoluteY(a + b) == SumY(a) + AbsoluteY(b)
    decreases |a|
  {
    if |a| == 0 {
      assert a + b == b;
    } else {
      assert (a + b)[1..] == a[1..] + b;
      AbsoluteThroughAncestor(a[1..], b);
    }
  }

  /** `getRectangle`: absolute position with own size. */
  function GetRectangle(c: Chain): (r: Rect)
    ensures r.width == c[0].width && r.height == c[0].height
    ensures |c| == 1 ==> r.x == c[0].x && r.y == c[0].y
    ensures |c| > 1 ==> r.x == c[0].x + AbsoluteX(c[1..]) && r.y == c[0].y + AbsoluteY(c[1..])
  {
    Rect(AbsoluteX(c), AbsoluteY(c), c[0].width, c[0].height)
  }

  /** `paint` / `repaint` of a single widget: the drawing hook runs only
      when the widget is visible. */
  function PaintLeaf(c: Chain, shown: set<WindowId>): (ops: seq<PaintOp>)
    ensures |ops| <= 1
    ensures |ops| == 1 <==> (GetWindow(c).Some? && GetWindow(c).value in shown && forall i :: 0 <= i < |c| ==> c[i].visible)
  {
    IsVisibleIffAllFlags(c, shown);
    if IsVisible(c, shown) then [PaintSelf(c[0].id)] else []
  }

  /* ---------------------------------------------------------------------
     Painting a tree
     --------------------------------------------------------------------- */

  datatype PaintOp = PaintSelf(id: WidgetId) | PushClip(r: Rect) | PopClip

  /** `getClientArea` given the container's absolute position.  The
      bordered panel's inset area is placed at (1, 1) as the Java code does. */
  function ClientArea(n: Node, absX: int, absY: int): Rect
    requires n.Container?
  {
    match n.kind
    case PlainPanel => Rect(absX, absY, n.info.width, n.info.height)
    case BorderedPanel => Rect(1, 1, n.info.width - 2, n.info.height - 2)
  }

  /** `paint` of a widget whose parent is being painted (so the parent chain
      and the window are visible): nothing unless the widget's own flag is
      set; a container paints itself, pushes its client area, paints its
      children in order and pops. */
  function PaintNode(n: Node, ox: int, oy: int): seq<PaintOp>
    decreases n, 0
  {
    if !n.info.visible then []
    else match n
      case Leaf(i) => [PaintSelf(i.id)]
      case Container(i, _, ch, _, _) =>
        [PaintSelf(i.id), PushClip(ClientArea(n, ox + i.x, oy + i.y))]
        + PaintChildren(ch, ox + i.x, oy + i.y) + [PopClip]
  }

  function PaintChildren(ws: seq<Node>, ox: int, oy: int): seq<PaintOp>
    decreases ws, 1
  {
    if |ws| == 0 then [] else PaintNode(ws[0], ox, oy) + PaintChildren(ws[1..], ox, oy)
  }

  /** The effect of a paint trace on the clip stack. */
  function ApplyClips(s: Toolkit.ClipStack, ops: seq<PaintOp>): Toolkit.ClipStack
    decreases |ops|
  {
    if |ops| == 0 then s
    else
      var s1 := match ops[0]
        case PushClip(r) => Toolkit.PushClip(s, r)
        case PopClip => Toolkit.PopClip(s)
        case PaintSelf(_) => s;
      ApplyClips(s1, ops[1..])
  }

  lemma {:induction false} ApplyClipsAppend(s: Toolkit.ClipStack, a: seq<PaintOp>, b: seq<PaintOp>)
    ensures ApplyClips(s, a + b) == ApplyClips(ApplyClips(s, a), b)
    decreases |a|
  {
    if |a| == 0 {
      assert a + b == b;
    } else {
      assert (a + b)[0] == a[0];
      assert (a + b)[1..] == a[1..] + b;
      var s1 := match a[0]
        case PushClip(r) => Toolkit.PushClip(s, r)
        case PopClip => Toolkit.PopClip(s)
        case PaintSelf(_) => s;
      ApplyClipsAppend(s1, a[1..], b);
    }
  }

  /** Painting leaves the clip stack as it found it: every push is matched
      by exactly one pop, whatever the tree. */
  lemma {:induction false} PaintNodeBalanced(n: Node, ox: int, oy: int, s: Toolkit.ClipStack)
    ensures ApplyClips(s, PaintNode(n, ox, oy)) == s
    decreases n, 0
  {
    if n.info.visible && n.Container? {
      var i := n.info;
      var area := ClientArea(n, ox + i.x, oy + i.y);
      var inner := PaintChildren(n.children, ox + i.x, oy + i.y);
      var head: seq<PaintOp> := [PaintSelf(i.id), PushClip(area)];
      assert PaintNode(n, ox, oy) == head + inner + [PopClip];
      ApplyClipsAppend(s, head + inner, [PopClip]);
      ApplyClipsAppend(s, head, inner);
      assert head[1..] == [PushClip(area)] && head[1..][1..] == [];
      assert ApplyClips(s, head) == ApplyClips(s, head[1..]);
      assert ApplyClips(s, head[1..]) == ApplyClips(s + [area], head[1..][1..]);
      PaintChildrenBalanced(n.children, ox + i.x, oy + i.y, s + [area]);
      assert [PopClip][1..] == [];
      assert ApplyClips(s + [area], [PopClip]) == s by {
        assert (s + [area])[..|s|] == s;
      }
    } else if n.info.visible {
      assert PaintNode(n, ox, oy) == [PaintSelf(n.info.id)];
      assert PaintNode(n, ox, oy)[1..] == [];
    }
  }

  lemma {:induction false} PaintChildrenBalanced(ws: seq<Node>, ox: int, oy: int, s: Toolkit.ClipStack)
    ensures ApplyClips(s, PaintChildren(ws, ox, oy)) == s
    decreases ws, 1
  {
    if |ws| > 0 {
      ApplyClipsAppend(s, PaintNode(ws[0], ox, oy), PaintChildren(ws[1..], ox, oy));
      PaintNodeBalanced(ws[0], ox, oy, s);
      PaintChildrenBalanced(ws[1..], ox, oy, s);
    }
  }

  /* ---------------------------------------------------------------------
     Packing and layout managers
     --------------------------------------------------------------------- */

  /** `pack`: the layout manager places each child in order, and a container
      child is packed right after it has been placed.  The trace lists the
      widgets in placement order. */
  function Pack(ws: seq<Node>): seq<WidgetId>
    decreases ws, 1
  {
    if |ws| == 0 then [] else PackOne(ws[0]) + Pack(ws[1..])
  }

  function PackOne(n: Node): seq<WidgetId>
    decreases n, 0
  {
    [n.info.id] + (if n.Container? then Pack(n.children) else [])
  }

  /** The number of widgets in a forest. */
  function Size(ws: seq<Node>): nat
    decreases ws, 1
  {
    if |ws| == 0 then 0 else SizeOne(ws[0]) + Size(ws[1..])
  }

  function SizeOne(n: Node): nat
    decreases n, 0
  {
    1 + (if n.Container? then Size(n.children) else 0)
  }

  /** Some widget of the forest, at any depth, carries `id`. */
  predicate InForest(ws: seq<Node>, id: WidgetId)
    decreases ws, 1
  {
    exists i :: 0 <= i < |ws| && InTree(ws[i], id)
  }

  predicate InTree(n: Node, id: WidgetId)
    decreases n, 0
  {
    n.info.id == id || (n.Container? && InForest(n.children, id))
  }

  /** Every widget below the container is placed by a pack: the trace has
      one entry per widget, holds exactly the ids found in the tree, and
      starts with the first child. */
  lemma {:induction false} PackPlacesEachWidgetOnce(ws: seq<Node>)
    ensures |Pack(ws)| == Size(ws)
    ensures forall id :: id in Pack(ws) <==> InForest(ws, id)
    ensures |ws| > 0 ==> |Pack(ws)| > 0 && Pack(ws)[0] == ws[0].info.id
    decreases ws, 1
  {
    if |ws| > 0 {
      PackOnePlaces(ws[0]);
      PackPlacesEachWidgetOnce(ws[1..]);
      forall id ensures InForest(ws, id) <==> InTree(ws[0], id) || InForest(ws[1..], id) {
        if InForest(ws, id) {
          var i :| 0 <= i < |ws| && InTree(ws[i], id);
          if i > 0 { assert ws[1..][i - 1] == ws[i]; }
        }
        if InForest(ws[1..], id) {
          var i :| 0 <= i < |ws[1..]| && InTree(ws[1..][i], id);
          assert ws[i + 1] == ws[1..][i];
        }
      }
    }
  }

  lemma {:induction false} PackOnePlaces(n: Node)
    ensures |PackOne(n)| == SizeOne(n)
    ensures forall id :: id in PackOne(n) <==> InTree(n, id)
    decreases n, 0
  {
    if n.Container? {
      PackPlacesEachWidgetOnce(n.children);
    }
  }

  /** Packing distributes over concatenated child lists, so the children are
      placed in list order. */
  lemma {:induction false} PackAppend(a: seq<Node>, b: seq<Node>)
    ensures Pack(a + b) == Pack(a) + Pack(b)
    decreases |a|
  {
    if |a| == 0 {
      assert a + b == b;
    } else {
      assert (a + b)[1..] == a[1..] + b;
      PackAppend(a[1..], b);
    }
  }

  datatype LayoutEvent = Bind(manager: LayoutId) | Unbind(manager: LayoutId)

  /** `setLayoutManager`: the previous manager, if any, is unbound before the
      new one is bound. */
  function SetLayoutManager(current: Option<LayoutId>, lm: LayoutId): (r: (Option<LayoutId>, seq<LayoutEvent>))
    ensures r.0 == Some(lm)
    ensures current.None? ==> r.1 == [Bind(lm)]
    ensures current.Some? ==> r.1 == [Unbind(current.value), Bind(lm)]
  {
    (Some(lm), (if current.Some? then [Unbind(current.value)] else []) + [Bind(lm)])
  }

  /** `getLayoutManager`: installs the given default on first use. */
  function GetLayoutManager(current: Option<LayoutId>, default: LayoutId): (r: (LayoutId, Option<LayoutId>, seq<LayoutEvent>))
    ensures r.1 == Some(r.0)
    ensures current.Some? ==> r.0 == current.value && r.2 == []
    ensures current.None? ==> r.0 == default && r.2 == [Bind(default)]
  {
    if current.Some? then (current.value, current, [])
    else
      var (m, ev) := SetLayoutManager(current, default);
      (default, m, ev)
  }

  /** Once a manager is installed it is kept. */
  lemma GetLayoutManagerStable(current: Option<LayoutId>, d1: LayoutId, d2: LayoutId)
    ensures var (m, cur1, _) := GetLayoutManager(current, d1);
            GetLayoutManager(cur1, d2) == (m, cur1, [])
  {
  }

  /* ---------------------------------------------------------------------
     Adding and removing children
     --------------------------------------------------------------------- */

  /** `addWidget`: appends the child and records its constraint; nothing
      prevents adding the same widget twice. */
  function AddWidget(c: Node, w: Node, constraint: Constraint): (r: Node)
    requires c.Container?
    ensures r.Container? && r.info == c.info && r.kind == c.kind && r.layout == c.layout
    ensures r.children == c.children + [w]
    ensures r.constraints == c.constraints[w.info.id := constraint]
  {
    c.(children := c.children + [w], constraints := c.constraints[w.info.id := constraint])
  }

  function IndexOfId(ws: seq<Node>, id: WidgetId): (i: int)
    ensures -1 <= i < |ws|
    ensures i >= 0 ==> ws[i].info.id == id && forall j :: 0 <= j < i ==> ws[j].info.id != id
    ensures i == -1 ==> forall j :: 0 <= j < |ws| ==> ws[j].info.id != id
  {
    if |ws| == 0 then -1
    else if ws[0].info.id == id then 0
    else
      var k := IndexOfId(ws[1..], id);
      if k == -1 then -1 else k + 1
  }

  /** The child list with the first child of the given identity removed. */
  function RemoveFirst(ws: seq<Node>, id: WidgetId): (r: seq<Node>)
    ensures IndexOfId(ws, id) == -1 ==> r == ws
    ensures IndexOfId(ws, id) >= 0 ==>
      r == ws[..IndexOfId(ws, id)] + ws[IndexOfId(ws, id) + 1..]
  {
    var i := IndexOfId(ws, id);
    if i == -1 then ws else ws[..i] + ws[i + 1..]
  }

  /** Deleting one position of a sequence takes exactly that element out. */
  lemma MultisetRemoveAt<T>(s: seq<T>, i: int)
    requires 0 <= i < |s|
    ensures multiset(s[..i] + s[i + 1..]) + multiset{s[i]} == multiset(s)
  {
    assert s == s[..i] + [s[i]] + s[i + 1..];
  }

  /** Removing the first occurrence takes exactly one copy out. */
  lemma RemoveFirstMultiset(ws: seq<Node>, id: WidgetId)
    requires IndexOfId(ws, id) >= 0
    ensures multiset(RemoveFirst(ws, id)) + multiset{ws[IndexOfId(ws, id)]} == multiset(ws)
  {
    var i := IndexOfId(ws, id);
    assert RemoveFirst(ws, id) == ws[..i] + ws[i + 1..];
    MultisetRemoveAt(ws, i);
  }

  /** `removeWidget`: when the widget has focus its window first moves the
      focus on (the flag in the result); then the first occurrence of the
      child and its constraint are removed.  A focused widget without a
      window fails with a null pointer, as the Java code would. */
  function RemoveWidget(c: Node, id: WidgetId, focused: bool, window: Option<WindowId>): (r: Result<(Node, bool)>)
    requires c.Container?
    ensures r.Err? <==> focused && window.None?
    ensures r.Ok? ==> r.value.1 == focused
    ensures r.Ok? ==>
      (r.value.0.Container? && r.value.0.info == c.info
       && r.value.0.children == RemoveFirst(c.children, id)
       && r.value.0.constraints == c.constraints - {id})
  {
    if focused && window.None? then Err(NullPointer)
    else Ok((c.(children := RemoveFirst(c.children, id), constraints := c.constraints - {id}), focused))
  }

  /** Adding a widget and removing it again restores the child list. */
  lemma AddThenRemove(c: Node, w: Node, constraint: Constraint)
    requires c.Container?
    requires IndexOfId(c.children, w.info.id) == -1
    ensures var r := RemoveWidget(AddWidget(c, w, constraint), w.info.id, false, None);
            r.Ok? && r.value.0.children == c.children
  {
    var ch := c.children + [w];
    assert forall j :: 0 <= j < |c.children| ==> ch[j] == c.children[j];
    assert ch[|c.children|] == w;
    assert IndexOfId(ch, w.info.id) == |c.children|;
    assert ch[..|c.children|] == c.children;
  }
}

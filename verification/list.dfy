/** `List` and its subclass `MenuList`: a scrolling list of string rows with
    an index-aligned selection vector, a tracked ("cursor") row, a first
    displayed row and a horizontal text offset.  A `MenuList` adds separator
    rows, which cannot be tracked or selected.  This module holds the state
    and the reading operations; `ListEdits` adds and removes rows,
    `ListSelection` selects them, `ListCursor` moves the cursor and
    `MenuLists` holds what the subclass changes.

    The class `Paging`, which splits the rows into screen pages, is not part
    of this model: its answers are a `Paging` value handed to the operations
    that consult it.  Painting is left out; only state and item events are
    modelled. */
module Lists {
  import opened Wrappers

  /** A row.  `Separator` is the `MenuList` sentinel string, recognised by
      reference, so a user string with the same characters is an ordinary
      `Text` row. */
  datatype Item = Text(s: string) | Separator

  /** The sentinel's characters: four NUL characters. */
  const SeparatorChars: string := ['\0', '\0', '\0', '\0']

  /** What `equals`-based lookups see of a row. */
  function ItemString(it: Item): string {
    match it
    case Text(s) => s
    case Separator => SeparatorChars
  }

  /** Which class the widget is; a menu carries its separator display
      string. */
  datatype Kind = PlainList | Menu(separatorString: string)

  datatype ListState = ListState(
    kind: Kind,
    items: seq<Item>,
    selected: seq<bool>,
    multiple: bool,        // more than one row may be selected
    selectable: bool,      // rows may be selected at all
    startIndex: int,       // first displayed row
    startPos: int,         // horizontal text offset
    trackedIndex: int,     // the cursor row
    requestedRows: int,    // the constructor's visible size, -1 for none
    width: int,            // the widget's laid-out size
    height: int,
    onScreen: bool         // the widget's `isVisible()`
  )

  datatype ItemEvent = Selected(index: int) | Deselected(index: int) | Called(index: int)

  /** The answers of the `Paging` object built from the visible size and the
      row count. */
  datatype Paging = Paging(
    pageOf: int -> int,
    pageStart: int -> int,
    pageEnd: int -> int,
    pageOffset: int -> int,
    indexAt: (int, int) -> int,  // page number, offset within the page
    pageCount: int
  )

  /** The rows and the selection flags stay index-aligned. */
  predicate Aligned(st: ListState) {
    |st.items| == |st.selected|
  }

  /** The single-selection invariant. */
  predicate AtMostOneSelected(sel: seq<bool>) {
    forall i, j :: 0 <= i < j < |sel| && sel[i] ==> !sel[j]
  }

  function NewList(kind: Kind, requestedRows: int, multiple: bool): (st: ListState)
    ensures Aligned(st) && |st.items| == 0
    ensures st.startIndex == 0 && st.trackedIndex == 0 && st.startPos == 0 && st.selectable
  {
    ListState(kind, [], [], multiple, true, 0, 0, 0, requestedRows, 0, 0, false)
  }

  /** `reset`: back to the first row, unscrolled. */
  function Reset(st: ListState): (r: ListState)
    ensures r.startIndex == 0 && r.trackedIndex == 0 && r.startPos == 0
    ensures r == st.(startIndex := 0, trackedIndex := 0, startPos := 0)
  {
    st.(startIndex := 0, trackedIndex := 0, startPos := 0)
  }

  /* ---------------------------------------------------------------------
     Reading
     --------------------------------------------------------------------- */

  function GetItem(st: ListState, index: int): (r: Result<string>)
    ensures r.Err? <==> !(0 <= index < |st.items|)
    ensures r.Err? ==> r.error == ArrayIndexOutOfBounds
    ensures r.Ok? ==> r.value == ItemString(st.items[index])
  {
    if 0 <= index < |st.items| then Ok(ItemString(st.items[index])) else Err(ArrayIndexOutOfBounds)
  }

  function IsSelected(st: ListState, index: int): (r: Result<bool>)
    ensures r.Err? <==> !(0 <= index < |st.selected|)
    ensures r.Ok? ==> r.value == st.selected[index]
  {
    if 0 <= index < |st.selected| then Ok(st.selected[index]) else Err(ArrayIndexOutOfBounds)
  }

  /** The selected positions in increasing order. */
  function SelectedIndexes(sel: seq<bool>): (r: seq<int>)
    ensures forall k :: k in r <==> 0 <= k < |sel| && sel[k]
    ensures forall a, b :: 0 <= a < b < |r| ==> r[a] < r[b]
    ensures forall a :: 0 <= a < |r| ==> 0 <= r[a] < |sel|
  {
    if |sel| == 0 then []
    else
      var front := SelectedIndexes(sel[..|sel| - 1]);
      assert forall k :: 0 <= k < |sel| - 1 ==> sel[..|sel| - 1][k] == sel[k];
      front + (if sel[|sel| - 1] then [|sel| - 1] else [])
  }

  /** The first pass of `getSelectedIndexes`: count the selected rows. */
  method CountSelected(sel: seq<bool>) returns (size: nat)
    ensures size == |SelectedIndexes(sel)|
  {
    size := 0;
    var i := 0;
    while i < |sel|
      invariant 0 <= i <= |sel|
      invariant size == |SelectedIndexes(sel[..i])|
    {
      SelectedIndexesPrefixGrows(sel, i);
      if sel[i] {
        size := size + 1;
      }
      i := i + 1;
    }
    assert sel[..|sel|] == sel;
  }

  /** `getSelectedIndexes`: one pass counts, a second fills an array of that
      size (the array is a sequence of that length here). */
  method GetSelectedIndexes(sel: seq<bool>) returns (result: seq<int>)
    ensures result == SelectedIndexes(sel)
  {
    var size := CountSelected(sel);
    var slots := seq(size, _ => 0);
    var current := 0;
    var i := 0;
    while i < |sel|
      invariant 0 <= i <= |sel| && |slots| == size
      invariant current == |SelectedIndexes(sel[..i])| <= size
      invariant slots[..current] == SelectedIndexes(sel[..i])
    {
      SelectedIndexesPrefixGrows(sel, i);
      SelectedCountMonotone(sel, i + 1);
      if sel[i] {
        FillSlot(slots, current, i);
        slots := slots[current := i];
        current := current + 1;
      }
      i := i + 1;
    }
    assert sel[..|sel|] == sel;
    result := slots;
  }

  /** Writing the next slot extends the filled prefix by that value. */
  lemma FillSlot(slots: seq<int>, current: nat, v: int)
    requires current < |slots|
    ensures slots[current := v][..current + 1] == slots[..current] + [v]
  {
  }

  lemma SelectedIndexesPrefixGrows(sel: seq<bool>, i: nat)
    requires i < |sel|
    ensures SelectedIndexes(sel[..i + 1]) == SelectedIndexes(sel[..i]) + (if sel[i] then [i] else [])
  {
    assert sel[..i + 1][..i] == sel[..i];
  }

  lemma {:induction false} SelectedCountMonotone(sel: seq<bool>, i: nat)
    requires i <= |sel|
    ensures |SelectedIndexes(sel[..i])| <= |SelectedIndexes(sel)|
    decreases |sel| - i
  {
    if i < |sel| {
      SelectedCountMonotone(sel, i + 1);
      assert sel[..i + 1][..i] == sel[..i];
    } else {
      assert sel[..i] == sel;
    }
  }

  /** `getSelectedIndex`: the position when exactly one row is selected,
      otherwise -1. */
  function SelectedIndex(sel: seq<bool>): (r: int)
    ensures r == -1 || (0 <= r < |sel| && sel[r])
    ensures r != -1 ==> forall k :: 0 <= k < |sel| && sel[k] ==> k == r
  {
    var all := SelectedIndexes(sel);
    if |all| == 1 then
      assert forall k :: 0 <= k < |sel| && sel[k] ==> k == all[0] by {
        forall k | 0 <= k < |sel| && sel[k] ensures k == all[0] {
          assert k in all;
        }
      }
      all[0]
    else -1
  }

  /** Under the single-selection invariant, the selected row, if any, is
      what `getSelectedIndex` reports. */
  lemma SelectedIndexFindsTheOne(sel: seq<bool>, k: int)
    requires AtMostOneSelected(sel) && 0 <= k < |sel| && sel[k]
    ensures SelectedIndex(sel) == k
  {
    SingleSelectedCount(sel, k);
    assert k in SelectedIndexes(sel);
  }

  /** With a single selection, that row is the only selected index. */
  lemma SingleSelectedCount(sel: seq<bool>, k: int)
    requires AtMostOneSelected(sel) && 0 <= k < |sel| && sel[k]
    ensures |SelectedIndexes(sel)| == 1
  {
    var r := SelectedIndexes(sel);
    assert k in r;
    forall a | 0 <= a < |r|
      ensures r[a] == k
    {
      assert r[a] in r;
      OnlySelectedRow(sel, k, r[a]);
    }
    assert r[0] == k && r[|r| - 1] == k;
  }

  /** Under the single-selection invariant two selected rows are one. */
  lemma OnlySelectedRow(sel: seq<bool>, k: int, j: int)
    requires AtMostOneSelected(sel) && 0 <= k < |sel| && 0 <= j < |sel| && sel[k] && sel[j]
    ensures j == k
  {
  }

  /** Under the single-selection invariant every row but the selected one
      is clear. */
  lemma OthersUnselected(sel: seq<bool>, k: int)
    requires AtMostOneSelected(sel) && 0 <= k < |sel| && sel[k]
    ensures forall j :: 0 <= j < |sel| && j != k ==> !sel[j]
  {
  }

  /** `getSelectedItems`: the selected rows' strings in row order. */
  function SelectedItems(items: seq<Item>, sel: seq<bool>): (r: seq<string>)
    requires |items| == |sel|
    ensures |r| == |SelectedIndexes(sel)|
    ensures forall a :: 0 <= a < |r| ==> r[a] == ItemString(items[SelectedIndexes(sel)[a]])
  {
    if |items| == 0 then []
    else
      var n := |items| - 1;
      var front := SelectedItems(items[..n], sel[..n]);
      SelectedItemsStep(items, sel, front);
      front + (if sel[n] then [ItemString(items[n])] else [])
  }

  /** One step of `SelectedItems`: the strings of the selected rows before
      the last, extended by the last row's string when it is selected. */
  lemma SelectedItemsStep(items: seq<Item>, sel: seq<bool>, front: seq<string>)
    requires |items| == |sel| > 0
    requires |front| == |SelectedIndexes(sel[..|sel| - 1])|
    requires forall a :: 0 <= a < |front| ==>
      front[a] == ItemString(items[..|sel| - 1][SelectedIndexes(sel[..|sel| - 1])[a]])
    ensures var r := front + (if sel[|sel| - 1] then [ItemString(items[|sel| - 1])] else []);
      |r| == |SelectedIndexes(sel)|
      && forall a :: 0 <= a < |r| ==> r[a] == ItemString(items[SelectedIndexes(sel)[a]])
  {
    var n := |sel| - 1;
    var idx := SelectedIndexes(sel);
    var r := front + (if sel[n] then [ItemString(items[n])] else []);
    SelectedIndexesPrefixGrows(sel, n);
    assert sel[..n + 1] == sel;
    assert idx == SelectedIndexes(sel[..n]) + (if sel[n] then [n] else []);
    forall a | 0 <= a < |r|
      ensures r[a] == ItemString(items[idx[a]])
    {
      if a < |front| {
        assert idx[a] == SelectedIndexes(sel[..n])[a];
      }
    }
  }

  /** `getSelectedItem`: the string when exactly one row is selected. */
  function SelectedItem(st: ListState): (r: Option<string>)
    requires Aligned(st)
    ensures r.Some? <==> SelectedIndex(st.selected) != -1
    ensures r.Some? ==> r.value == ItemString(st.items[SelectedIndex(st.selected)])
  {
    var all := SelectedItems(st.items, st.selected);
    if |all| == 1 then Some(all[0]) else None
  }
}

/** Editing the rows of a `List`: every edit keeps the rows and the
    selection flags index-aligned, and none of them can break the
    single-selection invariant. */
module ListEdits {
  import opened Wrappers
  import opened Lists


  /** `add(pos, item)`: a new unselected row at `pos`, then a reset.  The
      vector rejects positions outside `0..size`. */
  function Add(st: ListState, pos: int, it: Item): (r: Result<ListState>)
    requires Aligned(st)
    ensures r.Err? <==> !(0 <= pos <= |st.items|)
    ensures r.Ok? ==>
      (Aligned(r.value)
       && r.value.items == st.items[..pos] + [it] + st.items[pos..]
       && r.value.selected == st.selected[..pos] + [false] + st.selected[pos..]
       && r.value == Reset(st).(items := r.value.items, selected := r.value.selected))
  {
    if 0 <= pos <= |st.items| then
      Ok(Reset(st).(items := st.items[..pos] + [it] + st.items[pos..],
                    selected := st.selected[..pos] + [false] + st.selected[pos..]))
    else Err(ArrayIndexOutOfBounds)
  }

  /** `add(item)`: append at the end. */
  function AddLast(st: ListState, s: string): (r: ListState)
    requires Aligned(st)
    ensures Aligned(r) && r.items == st.items + [Text(s)] && r.selected == st.selected + [false]
    ensures r.startIndex == 0 && r.trackedIndex == 0 && r.startPos == 0
  {
    assert st.items[..|st.items|] == st.items && st.items[|st.items|..] == [];
    assert st.selected[..|st.selected|] == st.selected && st.selected[|st.selected|..] == [];
    Add(st, |st.items|, Text(s)).value
  }

  /** `clear`: no rows, reset. */
  function Clear(st: ListState): (r: ListState)
    ensures Aligned(r) && r.items == [] && r.selected == []
    ensures r.startIndex == 0 && r.trackedIndex == 0 && r.startPos == 0
  {
    Reset(st).(items := [], selected := [])
  }

  /** `remove(int)`: drop the row and its flag, reset. */
  function RemoveAt(st: ListState, pos: int): (r: Result<ListState>)
    requires Aligned(st)
    ensures r.Err? <==> !(0 <= pos < |st.items|)
    ensures r.Ok? ==>
      (Aligned(r.value)
       && r.value.items == st.items[..pos] + st.items[pos + 1..]
       && r.value.selected == st.selected[..pos] + st.selected[pos + 1..]
       && r.value == Reset(st).(items := r.value.items, selected := r.value.selected))
  {
    if 0 <= pos < |st.items| then
      Ok(Reset(st).(items := st.items[..pos] + st.items[pos + 1..],
                    selected := st.selected[..pos] + st.selected[pos + 1..]))
    else Err(ArrayIndexOutOfBounds)
  }

  /** `indexOf`: the first row whose string equals `s`, or -1. */
  function IndexOf(items: seq<Item>, s: string): (r: int)
    ensures -1 <= r < |items|
    ensures r >= 0 ==> ItemString(items[r]) == s && forall k :: 0 <= k < r ==> ItemString(items[k]) != s
    ensures r == -1 ==> forall k :: 0 <= k < |items| ==> ItemString(items[k]) != s
  {
    if |items| == 0 then -1
    else if ItemString(items[0]) == s then 0
    else
      var r := IndexOf(items[1..], s);
      assert forall k :: 1 <= k < |items| ==> items[1..][k - 1] == items[k];
      if r == -1 then -1 else r + 1
  }

  /** `remove(String)`: the first equal row goes; unlike the other edits,
      the scroll state is not reset. */
  function RemoveItem(st: ListState, s: string): (r: ListState)
    requires Aligned(st)
    ensures Aligned(r)
    ensures r.startIndex == st.startIndex && r.trackedIndex == st.trackedIndex && r.startPos == st.startPos
    ensures (forall k :: 0 <= k < |st.items| ==> ItemString(st.items[k]) != s) ==> r == st
    ensures forall j :: 0 <= j < |st.items| && ItemString(st.items[j]) == s
                        && (forall k :: 0 <= k < j ==> ItemString(st.items[k]) != s) ==>
      r == st.(items := st.items[..j] + st.items[j + 1..], selected := st.selected[..j] + st.selected[j + 1..])
  {
    var i := IndexOf(st.items, s);
    if i == -1 then st
    else st.(items := st.items[..i] + st.items[i + 1..], selected := st.selected[..i] + st.selected[i + 1..])
  }

  /** Removing a row by string can leave the cursor past the last row. */
  lemma RemoveItemCanStrandCursor()
    ensures var st := NewList(PlainList, -1, false).(items := [Text("a"), Text("b")], selected := [false, false], trackedIndex := 1);
            var r := RemoveItem(st, "b");
            r.trackedIndex == 1 && |r.items| == 1
  {
    var st := NewList(PlainList, -1, false).(items := [Text("a"), Text("b")], selected := [false, false], trackedIndex := 1);
    assert ItemString(st.items[0]) != "b";
    assert IndexOf(st.items, "b") == 1;
  }

  /** `setItem`: a different string replaces the row (its selection flag is
      kept) and resets; an equal string changes nothing. */
  function SetItem(st: ListState, index: int, s: string): (r: Result<ListState>)
    requires Aligned(st)
    ensures r.Err? <==> !(0 <= index < |st.items|)
    ensures r.Ok? ==>
      (0 <= index < |st.items| && Aligned(r.value) && |r.value.items| == |st.items|
       && ItemString(r.value.items[index]) == s)
    ensures r.Ok? && s == ItemString(st.items[index]) ==> r.value == st
    ensures r.Ok? && s != ItemString(st.items[index]) ==>
      (r.value.items == st.items[index := Text(s)]
       && r.value == Reset(st).(items := r.value.items))
  {
    if !(0 <= index < |st.items|) then Err(ArrayIndexOutOfBounds)
    else if s == ItemString(st.items[index]) then Ok(st)
    else Ok(Reset(st).(items := st.items[index := Text(s)]))
  }

  lemma InsertUnselectedKeepsSingle(sel: seq<bool>, pos: int)
    requires AtMostOneSelected(sel) && 0 <= pos <= |sel|
    ensures AtMostOneSelected(sel[..pos] + [false] + sel[pos..])
  {
    var a := sel[..pos] + [false] + sel[pos..];
    forall i, j | 0 <= i < j < |a| && a[i] ensures !a[j] {
      var i0 := if i < pos then i else i - 1;
      assert a[i] == sel[i0];
      if j < pos {
        assert a[j] == sel[j];
      } else if j > pos {
        assert a[j] == sel[j - 1];
      }
    }
  }

  lemma DeleteKeepsSingle(sel: seq<bool>, pos: int)
    requires AtMostOneSelected(sel) && 0 <= pos < |sel|
    ensures AtMostOneSelected(sel[..pos] + sel[pos + 1..])
  {
    var a := sel[..pos] + sel[pos + 1..];
    forall i, j | 0 <= i < j < |a| && a[i] ensures !a[j] {
      var i0 := if i < pos then i else i + 1;
      var j0 := if j < pos then j else j + 1;
      assert a[i] == sel[i0] && a[j] == sel[j0];
    }
  }

  /** Every edit that goes through `add`, `remove(int)`, `remove(String)`
      or `setItem` keeps the single-selection invariant. */
  lemma AddKeepsSingleSelection(st: ListState, pos: int, it: Item)
    requires Aligned(st) && AtMostOneSelected(st.selected)
    ensures var r := Add(st, pos, it); r.Ok? ==> AtMostOneSelected(r.value.selected)
  {
    if 0 <= pos <= |st.selected| {
      InsertUnselectedKeepsSingle(st.selected, pos);
    }
  }

  lemma RemoveAtKeepsSingleSelection(st: ListState, pos: int)
    requires Aligned(st) && AtMostOneSelected(st.selected)
    ensures var r := RemoveAt(st, pos); r.Ok? ==> AtMostOneSelected(r.value.selected)
  {
    if 0 <= pos < |st.selected| {
      DeleteKeepsSingle(st.selected, pos);
    }
  }

  lemma RemoveItemKeepsSingleSelection(st: ListState, s: string)
    requires Aligned(st) && AtMostOneSelected(st.selected)
    ensures AtMostOneSelected(RemoveItem(st, s).selected)
  {
    var x := IndexOf(st.items, s);
    if x != -1 {
      DeleteKeepsSingle(st.selected, x);
    }
  }

  /** Replacing a row's text keeps every selection flag, so at most one row
      stays selected. */
  lemma SetItemKeepsSelection(st: ListState, index: int, s: string)
    requires Aligned(st)
    ensures var r := SetItem(st, index, s); r.Ok? ==> r.value.selected == st.selected
  {
  }
}

/** Selecting and deselecting rows of a `List`, with the item events each
    call dispatches.  In single mode at most one row stays selected. */
module ListSelection {
  import opened Wrappers
  import opened Lists


  /** The private `select(index, value)`: nothing when the row already has
      that state; otherwise the flag is set and, in single mode, selecting
      deselects (through the public `deselect`) the row that was the only
      selected one. */
  function SetSelected(st: ListState, index: int, value: bool): (r: Result<(ListState, seq<ItemEvent>)>)
    requires Aligned(st)
    ensures r.Err? <==> !(0 <= index < |st.selected|)
    ensures r.Ok? ==> Aligned(r.value.0) && r.value.0.items == st.items
    ensures r.Ok? ==> r.value.0 == st.(selected := r.value.0.selected)
    ensures r.Ok? ==>
      (0 <= index < |st.selected| && |r.value.0.selected| == |st.selected|
       && r.value.0.selected[index] == value)
    ensures r.Ok? && st.selected[index] == value ==> r.value == (st, [])
  {
    if !(0 <= index < |st.selected|) then Err(ArrayIndexOutOfBounds)
    else if st.selected[index] == value then Ok((st, []))
    else
      var prev := SelectedIndex(st.selected);
      var st1 := st.(selected := st.selected[index := value]);
      if !st.multiple && value && prev != -1 then
        match Deselect(st1, prev)
        case Ok((st2, ev)) => Ok((st2, ev))
        case Err(_) => Ok((st1, []))
      else Ok((st1, []))
  }

  /** `select`: the flag is set, then a SELECTED event is dispatched whether
      or not anything changed. */
  function Select(st: ListState, index: int): (r: Result<(ListState, seq<ItemEvent>)>)
    requires Aligned(st)
    ensures r.Err? <==> !(0 <= index < |st.selected|)
    ensures r.Ok? ==>
      (0 <= index < |st.selected| && Aligned(r.value.0) && |r.value.0.selected| == |st.selected|
       && r.value.0.selected[index])
    ensures r.Ok? ==> |r.value.1| > 0 && r.value.1[|r.value.1| - 1] == Selected(index)
  {
    match SetSelected(st, index, true)
    case Err(e) => Err(e)
    case Ok((st1, ev)) => Ok((st1, ev + [Selected(index)]))
  }

  /** `deselect`: the flag is cleared, then a DESELECTED event is
      dispatched whether or not anything changed.  Clearing a flag never
      deselects anything else, so `select(index, false)` is just the
      cleared flag (see `DeselectIsSelectFalse`). */
  function Deselect(st: ListState, index: int): (r: Result<(ListState, seq<ItemEvent>)>)
    requires Aligned(st)
    ensures r.Err? <==> !(0 <= index < |st.selected|)
    ensures r.Ok? ==> Aligned(r.value.0) && r.value.0 == st.(selected := st.selected[index := false])
    ensures r.Ok? ==> r.value.1 == [Deselected(index)]
  {
    if 0 <= index < |st.selected| then
      Ok((st.(selected := st.selected[index := false]), [Deselected(index)]))
    else Err(ArrayIndexOutOfBounds)
  }

  /** `deselect` is `select(index, false)` followed by the DESELECTED
      event. */
  lemma DeselectIsSelectFalse(st: ListState, index: int)
    requires Aligned(st)
    ensures var r := SetSelected(st, index, false);
      r.Err? ==> Deselect(st, index) == Err(r.error)
    ensures var r := SetSelected(st, index, false);
      r.Ok? ==> Deselect(st, index) == Ok((r.value.0, r.value.1 + [Deselected(index)]))
  {
    if 0 <= index < |st.selected| {
      var r := SetSelected(st, index, false);
      assert r.value.1 == [];
      assert r.value.1 + [Deselected(index)] == [Deselected(index)];
      if !st.selected[index] {
        assert st.selected[index := false] == st.selected;
        assert r.value.0 == st;
      }
    }
  }

  /** In single mode, selecting a row keeps at most one row selected, and
      the row that was selected before (if it was another) is deselected
      first, with its own event. */
  lemma {:induction false} SelectKeepsSingleSelection(st: ListState, index: int)
    requires Aligned(st) && !st.multiple && AtMostOneSelected(st.selected)
    requires 0 <= index < |st.selected|
    ensures var r := Select(st, index);
      r.Ok? && AtMostOneSelected(r.value.0.selected)
      && (forall k :: 0 <= k < |st.selected| ==> r.value.0.selected[k] == (k == index))
      && (forall k :: 0 <= k < |st.selected| && st.selected[k] && k != index ==>
            r.value.1 == [Deselected(k), Selected(index)])
  {
    var sel := st.selected;
    if sel[index] {
      SelectAlreadySelected(st, index);
      OthersUnselected(sel, index);
    } else if exists k :: 0 <= k < |sel| && sel[k] {
      var k :| 0 <= k < |sel| && sel[k];
      SelectMovesSelection(st, index, k);
      OthersUnselected(sel, k);
    } else {
      SelectFirstSelection(st, index);
    }
  }

  /** Selecting a row that is already selected changes no flag and fires
      only the select event. */
  lemma SelectAlreadySelected(st: ListState, index: int)
    requires Aligned(st) && 0 <= index < |st.selected| && st.selected[index]
    ensures Select(st, index) == Ok((st, [Selected(index)]))
  {
    assert SetSelected(st, index, true) == Ok((st, []));
    assert [] + [Selected(index)] == [Selected(index)];
  }

  /** In single mode, selecting a row while another is selected deselects
      that one first: two events, deselect then select. */
  lemma SelectMovesSelection(st: ListState, index: int, k: int)
    requires Aligned(st) && !st.multiple && AtMostOneSelected(st.selected)
    requires 0 <= index < |st.selected| && !st.selected[index]
    requires 0 <= k < |st.selected| && st.selected[k]
    ensures Select(st, index) ==
      Ok((st.(selected := st.selected[index := true][k := false]), [Deselected(k), Selected(index)]))
  {
    SelectedIndexFindsTheOne(st.selected, k);
    var st1 := st.(selected := st.selected[index := true]);
    assert SetSelected(st, index, true) == Deselect(st1, k);
    assert [Deselected(k)] + [Selected(index)] == [Deselected(k), Selected(index)];
  }

  /** Selecting when nothing is selected sets just that flag. */
  lemma SelectFirstSelection(st: ListState, index: int)
    requires Aligned(st) && 0 <= index < |st.selected|
    requires forall k :: 0 <= k < |st.selected| ==> !st.selected[k]
    ensures Select(st, index) == Ok((st.(selected := st.selected[index := true]), [Selected(index)]))
  {
    assert SelectedIndex(st.selected) == -1;
    assert SetSelected(st, index, true) == Ok((st.(selected := st.selected[index := true]), []));
    assert [] + [Selected(index)] == [Selected(index)];
  }
}

/** The cursor of a `List`: which rows are visible, the search for the next
    row the cursor may rest on, and the key handling that moves the cursor,
    scrolls and selects.  Page boundaries come from a `Paging` value. */
module ListCursor {
  import opened Wrappers
  import opened Lists
  import opened ListSelection
  import Keys

  /* ---------------------------------------------------------------------
     Geometry of the visible rows
     --------------------------------------------------------------------- */

  /** Rows shown at once: the widget height minus the border. */
  function VisibleSize(st: ListState): int {
    st.height - 2
  }

  /** The private `isVisible(index)`: the row is in the displayed window. */
  predicate RowVisible(st: ListState, index: int) {
    |st.items| > 0 && st.startIndex <= index < st.startIndex + VisibleSize(st)
  }

  /** `getMaxLength`: the longest row string. */
  function MaxLength(items: seq<Item>): (r: nat)
    ensures forall k :: 0 <= k < |items| ==> |ItemString(items[k])| <= r
    ensures |items| > 0 ==> exists k :: 0 <= k < |items| && |ItemString(items[k])| == r
  {
    if |items| == 0 then 0
    else
      var m := MaxLength(items[..|items| - 1]);
      var l := |ItemString(items[|items| - 1])|;
      assert forall k :: 0 <= k < |items| - 1 ==> items[..|items| - 1][k] == items[k];
      if l > m then l else m
  }

  /** `getMaxStartPos`: how far the text can scroll right. */
  function MaxStartPos(st: ListState): (r: nat)
    ensures r == 0 || r == MaxLength(st.items) - (st.width - 2)
    ensures r >= MaxLength(st.items) - (st.width - 2)
  {
    var d := MaxLength(st.items) - (st.width - 2);
    if d < 0 then 0 else d
  }

  /* ---------------------------------------------------------------------
     Searching for a row to track
     --------------------------------------------------------------------- */

  /** `isSelectable` as the two classes define it, for any position: a plain
      list accepts every position; a menu reads the row and so throws
      outside the rows. */
  function SelectableAsWritten(st: ListState, i: int): (r: Result<bool>)
    ensures st.kind.PlainList? ==> r == Ok(true)
    ensures st.kind.Menu? ==> (r.Err? <==> !(0 <= i < |st.items|))
  {
    match st.kind
    case PlainList => Ok(true)
    case Menu(_) => if 0 <= i < |st.items| then Ok(!st.items[i].Separator?) else Err(ArrayIndexOutOfBounds)
  }

  /** A row the cursor may rest on. */
  predicate IsSelectable(st: ListState, i: int) {
    0 <= i < |st.items| && (st.kind.PlainList? || !st.items[i].Separator?)
  }

  /** The range searched: the page of `pos` when on screen, otherwise the
      whole list as one page, `0..size` inclusive of `size`. */
  function SearchRange(st: ListState, paging: Paging, pos: int): (int, int) {
    if st.onScreen then
      var page := paging.pageOf(pos);
      (paging.pageStart(page), paging.pageEnd(page))
    else (0, |st.items|)
  }

  /** Where the cursor goes once a row is found, by the stepping mode:
      0 scrolls to the searched page's start, -1 scrolls up to the row if
      it is hidden, +1 scrolls down just far enough. */
  function Track(st: ListState, t: int, start: int, stepping: int): (r: ListState)
    ensures r == st.(startIndex := r.startIndex, trackedIndex := t)
    ensures stepping == 0 ==> r.startIndex == start
    ensures stepping != 0 && RowVisible(st, t) ==> r.startIndex == st.startIndex
    ensures stepping == -1 && !RowVisible(st, t) ==> r.startIndex == t
    ensures stepping != 0 && stepping != -1 && !RowVisible(st, t) ==> r.startIndex == Max0(t - VisibleSize(st) + 1)
    ensures stepping != 0 && |st.items| > 0 && VisibleSize(st) >= 1 && (stepping == -1 || t >= 0) ==>
      RowVisible(r, t)
  {
    var startIndex :=
      if stepping == 0 then start
      else if stepping == -1 then (if !RowVisible(st, t) then t else st.startIndex)
      else (if !RowVisible(st, t) then Max0(t - VisibleSize(st) + 1) else st.startIndex);
    st.(startIndex := startIndex, trackedIndex := t)
  }

  function Max0(n: int): nat { if n < 0 then 0 else n }

  /** The search loop of `findNextSelectableItem` as written: while the
      position is inside `lo..hi`, step and probe.  The probe after the last
      in-range position is one step outside the range.  Only a menu can
      throw, and only by reading a position that is not a row; a plain list
      accepts the first probe. */
  function ProbeAsWritten(st: ListState, p: int, dir: int, lo: int, hi: int): (r: Result<(int, bool)>)
    requires dir == 1 || dir == -1
    ensures r.Err? ==> st.kind.Menu? && r.error == ArrayIndexOutOfBounds
    ensures r.Ok? && r.value.1 ==> SelectableAsWritten(st, r.value.0) == Ok(true)
    ensures r.Ok? && r.value.1 ==> if dir == 1 then p < r.value.0 else r.value.0 < p
    ensures st.kind.PlainList? && lo <= p <= hi ==> r == Ok((p + dir, true))
    decreases if dir == 1 then hi - p else p - lo
  {
    if !(lo <= p <= hi) then Ok((p, false))
    else
      match SelectableAsWritten(st, p + dir)
      case Err(e) => Err(e)
      case Ok(true) => Ok((p + dir, true))
      case Ok(false) => ProbeAsWritten(st, p + dir, dir, lo, hi)
  }

  /** `findNextSelectableItem` as written: the requested position when it
      is selectable, else the probe in `dir`, else (unless `onlyDir`) the
      probe the other way.  Whatever it tracks passed `isSelectable`; a
      plain list always tracks the requested position, even one that is no
      longer a row. */
  function FindNextAsWritten(st: ListState, paging: Paging, pos: int, dir: int, onlyDir: bool, stepping: int): (r: Result<(ListState, bool)>)
    requires dir == 1 || dir == -1
    ensures |st.items| == 0 ==> r == Ok((st, false))
    ensures r.Err? ==> st.kind.Menu? && r.error == ArrayIndexOutOfBounds
    ensures r.Ok? && !r.value.1 ==> r.value.0 == st
    ensures r.Ok? && r.value.1 ==>
      |st.items| > 0
      && r.value.0 == Track(st, r.value.0.trackedIndex, SearchRange(st, paging, pos).0, stepping)
      && SelectableAsWritten(st, r.value.0.trackedIndex) == Ok(true)
    ensures r.Ok? && r.value.1 && st.kind.Menu? ==> IsSelectable(st, r.value.0.trackedIndex)
    ensures r.Ok? && r.value.1 && onlyDir ==>
      if dir == 1 then pos <= r.value.0.trackedIndex else r.value.0.trackedIndex <= pos
    ensures st.kind.PlainList? && |st.items| > 0 ==>
      r == Ok((Track(st, pos, SearchRange(st, paging, pos).0, stepping), true))
  {
    if |st.items| == 0 then Ok((st, false))
    else
      var (start, end) := SearchRange(st, paging, pos);
      match SelectableAsWritten(st, pos)
      case Err(e) => Err(e)
      case Ok(true) => Ok((Track(st, pos, start, stepping), true))
      case Ok(false) =>
        match ProbeAsWritten(st, pos, dir, start, end)
        case Err(e) => Err(e)
        case Ok((p1, true)) => Ok((Track(st, p1, start, stepping), true))
        case Ok((_, false)) =>
          if onlyDir then Ok((st, false))
          else
            match ProbeAsWritten(st, pos, -dir, start, end)
            case Err(e) => Err(e)
            case Ok((p2, found)) => if found then Ok((Track(st, p2, start, stepping), true)) else Ok((st, false))
  }

  /** What `isSelectable` accepts in a menu is exactly a non-separator row. */
  lemma MenuSelectableAsWritten(st: ListState, t: int)
    requires st.kind.Menu?
    ensures SelectableAsWritten(st, t) == Ok(true) <==> IsSelectable(st, t)
  {
  }

  /** In a plain list every position is selectable, so the search succeeds
      at once on the requested position. */
  lemma PlainListFindsPosition(st: ListState, paging: Paging, pos: int, dir: int, onlyDir: bool, stepping: int)
    requires dir == 1 || dir == -1
    requires st.kind.PlainList? && |st.items| > 0
    ensures var r := FindNextAsWritten(st, paging, pos, dir, onlyDir, stepping);
      r.Ok? && r.value.1 && r.value.0.trackedIndex == pos
  {
  }

  /** A menu whose last row is a separator: stepping down onto it from the
      first row probes the position after the last row and throws. */
  lemma MenuProbeLeavesRange(paging: Paging)
    ensures var st := NewList(Menu([]), -1, false).(items := [Text("a"), Separator], selected := [false, false]);
      FindNextAsWritten(st, paging, 1, 1, true, 1) == Err(ArrayIndexOutOfBounds)
  {
  }

  /** A menu whose first row is a separator: stepping up onto it probes
      position -1 and throws. */
  lemma MenuProbeBelowZero(paging: Paging)
    ensures var st := NewList(Menu([]), -1, false).(items := [Separator, Text("a")], selected := [false, false], trackedIndex := 1);
      FindNextAsWritten(st, paging, 0, -1, true, -1) == Err(ArrayIndexOutOfBounds)
  {
  }

  /** The corrected search loop: it stops before leaving `lo..hi`, so it
      only ever looks at rows.  The answer is the first selectable row
      strictly beyond `p` in direction `dir`. */
  function Probe(st: ListState, p: int, dir: int, lo: int, hi: int): (r: Option<int>)
    requires dir == 1 || dir == -1
    requires 0 <= lo && hi < |st.items|
    ensures r.Some? ==> lo <= r.value <= hi && IsSelectable(st, r.value)
    ensures r.Some? && dir == 1 ==> p < r.value && forall k :: p < k < r.value ==> !IsSelectable(st, k)
    ensures r.Some? && dir == -1 ==> r.value < p && forall k :: r.value < k < p ==> !IsSelectable(st, k)
    ensures r.None? && lo <= p <= hi ==>
      forall k :: lo <= k <= hi && (if dir == 1 then p < k else k < p) ==> !IsSelectable(st, k)
    decreases if dir == 1 then hi - p else p - lo
  {
    var q := p + dir;
    if q < lo || q > hi then None
    else if IsSelectable(st, q) then Some(q)
    else Probe(st, q, dir, lo, hi)
  }

  /** The clamped search range: the searched page, cut to the rows. */
  function Bounds(st: ListState, paging: Paging, pos: int): (b: (int, int))
    ensures 0 <= b.0 && b.1 < |st.items|
  {
    var (start, end) := SearchRange(st, paging, pos);
    (if start < 0 then 0 else start, if end > |st.items| - 1 then |st.items| - 1 else end)
  }

  /** The corrected `findNextSelectableItem`: it looks only at rows inside
      the searched range and never throws.  The `...Corrected` cursor moves
      below are built on it. */
  function FindNext(st: ListState, paging: Paging, pos: int, dir: int, onlyDir: bool, stepping: int): (r: (ListState, bool))
    requires dir == 1 || dir == -1
    ensures r.0 == st.(startIndex := r.0.startIndex, trackedIndex := r.0.trackedIndex)
    ensures !r.1 ==> r.0 == st
    ensures r.1 ==>
      (var t := r.0.trackedIndex; var b := Bounds(st, paging, pos);
       IsSelectable(st, t) && b.0 <= t <= b.1
       && r.0 == Track(st, t, SearchRange(st, paging, pos).0, stepping))
    ensures r.1 && stepping != 0 && VisibleSize(st) >= 1 ==> RowVisible(r.0, r.0.trackedIndex)
    ensures r.1 && stepping == 0 ==> r.0.startIndex == SearchRange(st, paging, pos).0
  {
    if |st.items| == 0 then (st, false)
    else
      match Target(st, paging, pos, dir, onlyDir)
      case None => (st, false)
      case Some(t) => (Track(st, t, SearchRange(st, paging, pos).0, stepping), true)
  }

  /** The row the corrected search settles on: `pos` itself, else the
      nearest selectable row in `dir`, else (unless `onlyDir`) the other
      way; nothing when `pos` is outside the clamped range. */
  function Target(st: ListState, paging: Paging, pos: int, dir: int, onlyDir: bool): (r: Option<int>)
    requires dir == 1 || dir == -1
    requires |st.items| > 0
    ensures r.Some? ==> IsSelectable(st, r.value) && Bounds(st, paging, pos).0 <= r.value <= Bounds(st, paging, pos).1
  {
    var (lo, hi) := Bounds(st, paging, pos);
    if !(lo <= pos <= hi) then None
    else if IsSelectable(st, pos) then Some(pos)
    else
      match Probe(st, pos, dir, lo, hi)
      case Some(t) => Some(t)
      case None => if onlyDir then None else Probe(st, pos, -dir, lo, hi)
  }

  /** Searching both ways succeeds exactly when the range holds the
      position and some selectable row. */
  lemma FindNextComplete(st: ListState, paging: Paging, pos: int, dir: int, stepping: int)
    requires dir == 1 || dir == -1
    ensures var b := Bounds(st, paging, pos);
      FindNext(st, paging, pos, dir, false, stepping).1 <==>
        (b.0 <= pos <= b.1 && exists k :: b.0 <= k <= b.1 && IsSelectable(st, k))
  {
    var b := Bounds(st, paging, pos);
    if |st.items| > 0 && b.0 <= pos <= b.1 && !IsSelectable(st, pos) {
      var up := Probe(st, pos, dir, b.0, b.1);
      var down := Probe(st, pos, -dir, b.0, b.1);
      if up.None? && down.None? {
        forall k | b.0 <= k <= b.1 ensures !IsSelectable(st, k) {
          if k != pos {
            if dir == 1 {
              if pos < k { assert !IsSelectable(st, k); } else { assert !IsSelectable(st, k); }
            } else {
              if k < pos { assert !IsSelectable(st, k); } else { assert !IsSelectable(st, k); }
            }
          }
        }
      }
    }
  }

  /** On every position of a plain list that lies in its clamped page the
      corrected search agrees with the original. */
  lemma FindNextAgreesOnPlainList(st: ListState, paging: Paging, pos: int, dir: int, onlyDir: bool, stepping: int)
    requires dir == 1 || dir == -1
    requires st.kind.PlainList? && Bounds(st, paging, pos).0 <= pos <= Bounds(st, paging, pos).1
    ensures FindNextAsWritten(st, paging, pos, dir, onlyDir, stepping) == Ok(FindNext(st, paging, pos, dir, onlyDir, stepping))
  {
  }

  /** On the inputs that make the original throw, the corrected search
      reports that nothing was found. */
  lemma FindNextStaysInRange(paging: Paging)
    ensures var st := NewList(Menu([]), -1, false).(items := [Text("a"), Separator], selected := [false, false]);
      FindNext(st, paging, 1, 1, true, 1) == (st, false)
  {
    var st := NewList(Menu([]), -1, false).(items := [Text("a"), Separator], selected := [false, false]);
    assert Bounds(st, paging, 1) == (0, 1);
    assert !IsSelectable(st, 1);
    assert Probe(st, 1, 1, 0, 1).None?;
  }

  /* ---------------------------------------------------------------------
     Cursor movement as written
     --------------------------------------------------------------------- */

  /** `setTrack`: a both-ways search from `pos` that scrolls to its page. */
  function SetTrack(st: ListState, paging: Paging, pos: int): (r: Result<(ListState, bool)>)
    ensures r.Err? ==> st.kind.Menu? && r.error == ArrayIndexOutOfBounds
    ensures r.Ok? ==> r.value.0 == st.(startIndex := r.value.0.startIndex, trackedIndex := r.value.0.trackedIndex)
    ensures r.Ok? && !r.value.1 ==> r.value.0 == st
    ensures r.Ok? && r.value.1 ==> r.value.0.startIndex == SearchRange(st, paging, pos).0
    ensures r.Ok? && r.value.1 && st.kind.Menu? ==> IsSelectable(st, r.value.0.trackedIndex)
    ensures st.kind.PlainList? && |st.items| > 0 ==>
      r == Ok((st.(startIndex := SearchRange(st, paging, pos).0, trackedIndex := pos), true))
  {
    var r := FindNextAsWritten(st, paging, pos, 1, false, 0);
    r
  }

  /** `setTrackedItem`: a position outside the rows is an illegal argument;
      inside, the search of `setTrack`, whose menu probe can still throw. */
  function SetTrackedItem(st: ListState, paging: Paging, pos: int): (r: Result<ListState>)
    ensures !(0 <= pos < |st.items|) ==> r == Err(IllegalArgument)
    ensures r.Err? && 0 <= pos < |st.items| ==> st.kind.Menu? && r.error == ArrayIndexOutOfBounds
    ensures r.Ok? ==> r.value == st.(startIndex := r.value.startIndex, trackedIndex := r.value.trackedIndex)
    ensures r.Ok? && st.kind.Menu? ==> r.value == st || IsSelectable(st, r.value.trackedIndex)
    ensures st.kind.PlainList? && 0 <= pos < |st.items| ==>
      r == Ok(st.(startIndex := SearchRange(st, paging, pos).0, trackedIndex := pos))
  {
    if pos < 0 || pos >= |st.items| then Err(IllegalArgument)
    else
      match SetTrack(st, paging, pos)
      case Err(e) => Err(e)
      case Ok((st1, _)) => Ok(st1)
  }

  /** A menu ending in a separator: asking to track that separator searches
      past the last row and throws. */
  lemma SetTrackedItemOnTrailingSeparatorThrows(paging: Paging)
    ensures var st := NewList(Menu([]), -1, false).(items := [Text("a"), Separator], selected := [false, false]);
      SetTrackedItem(st, paging, 1) == Err(ArrayIndexOutOfBounds)
  {
    var st := NewList(Menu([]), -1, false).(items := [Text("a"), Separator], selected := [false, false]);
    assert SelectableAsWritten(st, 1) == Ok(false);
    assert ProbeAsWritten(st, 1, 1, 0, 2) == Err(ArrayIndexOutOfBounds);
  }

  /** `incrementTrack`: one row down, looking only downwards.  In a plain
      list that is always the next position. */
  function IncrementTrack(st: ListState, paging: Paging): (r: Result<(ListState, bool)>)
    ensures r.Err? ==> st.kind.Menu? && r.error == ArrayIndexOutOfBounds
    ensures st.trackedIndex >= |st.items| - 1 ==> r == Ok((st, false))
    ensures r.Ok? ==> r.value.0 == st.(startIndex := r.value.0.startIndex, trackedIndex := r.value.0.trackedIndex)
    ensures r.Ok? && !r.value.1 ==> r.value.0 == st
    ensures r.Ok? && r.value.1 ==> r.value.0.trackedIndex > st.trackedIndex
    ensures r.Ok? && r.value.1 && st.kind.Menu? ==> IsSelectable(st, r.value.0.trackedIndex)
    ensures r.Ok? && r.value.1 && VisibleSize(st) >= 1 && st.trackedIndex >= -1 ==>
      RowVisible(r.value.0, r.value.0.trackedIndex)
    ensures st.kind.PlainList? && st.trackedIndex < |st.items| - 1 && |st.items| > 0 ==>
      r.Ok? && r.value.1 && r.value.0.trackedIndex == st.trackedIndex + 1
  {
    if st.trackedIndex < |st.items| - 1 then
      var r := FindNextAsWritten(st, paging, st.trackedIndex + 1, 1, true, 1);
      r
    else Ok((st, false))
  }

  /** `decrementTrack`: one row up, looking only upwards.  In a plain list
      that is always the previous position, even from a cursor left past
      the last row. */
  function DecrementTrack(st: ListState, paging: Paging): (r: Result<(ListState, bool)>)
    ensures r.Err? ==> st.kind.Menu? && r.error == ArrayIndexOutOfBounds
    ensures st.trackedIndex <= 0 ==> r == Ok((st, false))
    ensures r.Ok? ==> r.value.0 == st.(startIndex := r.value.0.startIndex, trackedIndex := r.value.0.trackedIndex)
    ensures r.Ok? && !r.value.1 ==> r.value.0 == st
    ensures r.Ok? && r.value.1 ==> r.value.0.trackedIndex < st.trackedIndex
    ensures r.Ok? && r.value.1 && st.kind.Menu? ==> IsSelectable(st, r.value.0.trackedIndex)
    ensures r.Ok? && r.value.1 && VisibleSize(st) >= 1 ==> RowVisible(r.value.0, r.value.0.trackedIndex)
    ensures st.kind.PlainList? && st.trackedIndex > 0 && |st.items| > 0 ==>
      r.Ok? && r.value.1 && r.value.0.trackedIndex == st.trackedIndex - 1
  {
    if st.trackedIndex > 0 then
      var r := FindNextAsWritten(st, paging, st.trackedIndex - 1, -1, true, -1);
      r
    else Ok((st, false))
  }

  /** The position `incrementPage` searches from: the same offset on the
      next page, or the last row from the last page. */
  function NextPagePos(st: ListState, paging: Paging): int {
    var page := paging.pageOf(st.trackedIndex);
    if page < paging.pageCount - 1 then paging.indexAt(page + 1, paging.pageOffset(st.trackedIndex))
    else |st.items| - 1
  }

  /** The position `decrementPage` searches from: the same offset on the
      previous page, or row 0 from the first page. */
  function PrevPagePos(st: ListState, paging: Paging): int {
    var page := paging.pageOf(st.trackedIndex);
    if page > 0 then paging.indexAt(page - 1, paging.pageOffset(st.trackedIndex)) else 0
  }

  /** `incrementPage`: a both-ways search from `NextPagePos`, scrolled to
      its page. */
  function IncrementPage(st: ListState, paging: Paging): (r: Result<(ListState, bool)>)
    ensures r.Err? ==> st.kind.Menu? && r.error == ArrayIndexOutOfBounds
    ensures r.Ok? ==> r.value.0 == st.(startIndex := r.value.0.startIndex, trackedIndex := r.value.0.trackedIndex)
    ensures r.Ok? && !r.value.1 ==> r.value.0 == st
    ensures r.Ok? && r.value.1 ==> r.value.0.startIndex == SearchRange(st, paging, NextPagePos(st, paging)).0
    ensures r.Ok? && r.value.1 && st.kind.Menu? ==> IsSelectable(st, r.value.0.trackedIndex)
    ensures st.kind.PlainList? && |st.items| > 0 ==>
      r.Ok? && r.value.1 && r.value.0.trackedIndex == NextPagePos(st, paging)
  {
    var r := FindNextAsWritten(st, paging, NextPagePos(st, paging), 1, false, 0);
    r
  }

  /** `decrementPage`: a both-ways search from `PrevPagePos`, upwards
      first, scrolled to its page. */
  function DecrementPage(st: ListState, paging: Paging): (r: Result<(ListState, bool)>)
    ensures r.Err? ==> st.kind.Menu? && r.error == ArrayIndexOutOfBounds
    ensures r.Ok? ==> r.value.0 == st.(startIndex := r.value.0.startIndex, trackedIndex := r.value.0.trackedIndex)
    ensures r.Ok? && !r.value.1 ==> r.value.0 == st
    ensures r.Ok? && r.value.1 ==> r.value.0.startIndex == SearchRange(st, paging, PrevPagePos(st, paging)).0
    ensures r.Ok? && r.value.1 && st.kind.Menu? ==> IsSelectable(st, r.value.0.trackedIndex)
    ensures st.kind.PlainList? && |st.items| > 0 ==>
      r.Ok? && r.value.1 && r.value.0.trackedIndex == PrevPagePos(st, paging)
  {
    var r := FindNextAsWritten(st, paging, PrevPagePos(st, paging), -1, false, 0);
    r
  }

  /* ---------------------------------------------------------------------
     Cursor movement on the corrected search
     --------------------------------------------------------------------- */

  /** `setTrack` on the corrected search: never throws, and only ever
      tracks a selectable row. */
  function SetTrackCorrected(st: ListState, paging: Paging, pos: int): (r: (ListState, bool))
    ensures r.0 == st.(startIndex := r.0.startIndex, trackedIndex := r.0.trackedIndex)
    ensures !r.1 ==> r.0 == st
    ensures r.1 ==> IsSelectable(st, r.0.trackedIndex)
  {
    FindNext(st, paging, pos, 1, false, 0)
  }

  /** `incrementTrack` on the corrected search. */
  function IncrementTrackCorrected(st: ListState, paging: Paging): (r: (ListState, bool))
    ensures r.0 == st.(startIndex := r.0.startIndex, trackedIndex := r.0.trackedIndex)
    ensures !r.1 ==> r.0 == st
    ensures r.1 ==> r.0.trackedIndex > st.trackedIndex && IsSelectable(st, r.0.trackedIndex)
    ensures r.1 && VisibleSize(st) >= 1 ==> RowVisible(r.0, r.0.trackedIndex)
  {
    if st.trackedIndex < |st.items| - 1 then
      var r := FindNext(st, paging, st.trackedIndex + 1, 1, true, 1);
      assert r.1 ==> r.0.trackedIndex > st.trackedIndex by {
        if r.1 {
          var b := Bounds(st, paging, st.trackedIndex + 1);
          if !IsSelectable(st, st.trackedIndex + 1) {
            var p := Probe(st, st.trackedIndex + 1, 1, b.0, b.1);
          }
        }
      }
      r
    else (st, false)
  }

  /** `decrementTrack` on the corrected search. */
  function DecrementTrackCorrected(st: ListState, paging: Paging): (r: (ListState, bool))
    ensures r.0 == st.(startIndex := r.0.startIndex, trackedIndex := r.0.trackedIndex)
    ensures !r.1 ==> r.0 == st
    ensures r.1 ==> r.0.trackedIndex < st.trackedIndex && IsSelectable(st, r.0.trackedIndex)
    ensures r.1 && VisibleSize(st) >= 1 ==> RowVisible(r.0, r.0.trackedIndex)
  {
    if st.trackedIndex > 0 then
      var r := FindNext(st, paging, st.trackedIndex - 1, -1, true, -1);
      assert r.1 ==> r.0.trackedIndex < st.trackedIndex by {
        if r.1 {
          var b := Bounds(st, paging, st.trackedIndex - 1);
          if !IsSelectable(st, st.trackedIndex - 1) {
            var p := Probe(st, st.trackedIndex - 1, -1, b.0, b.1);
          }
        }
      }
      r
    else (st, false)
  }

  /** `incrementPage` on the corrected search. */
  function IncrementPageCorrected(st: ListState, paging: Paging): (r: (ListState, bool))
    ensures r.0 == st.(startIndex := r.0.startIndex, trackedIndex := r.0.trackedIndex)
    ensures !r.1 ==> r.0 == st
    ensures r.1 ==> IsSelectable(st, r.0.trackedIndex)
  {
    FindNext(st, paging, NextPagePos(st, paging), 1, false, 0)
  }

  /** `decrementPage` on the corrected search. */
  function DecrementPageCorrected(st: ListState, paging: Paging): (r: (ListState, bool))
    ensures r.0 == st.(startIndex := r.0.startIndex, trackedIndex := r.0.trackedIndex)
    ensures !r.1 ==> r.0 == st
    ensures r.1 ==> IsSelectable(st, r.0.trackedIndex)
  {
    FindNext(st, paging, PrevPagePos(st, paging), -1, false, 0)
  }

  /** A plain list whose cursor was left past its last row (see
      `RemoveItemCanStrandCursor`): Up moves it to the position just above,
      which is still no row, and scrolls the display there, while the
      corrected move leaves it where it is. */
  lemma StrandedCursorStepsUp(paging: Paging)
    ensures var st := NewList(PlainList, -1, false).(items := [Text("a"), Text("b"), Text("c")],
                                                     selected := [false, false, false], trackedIndex := 5);
      DecrementTrack(st, paging) == Ok((st.(startIndex := 4, trackedIndex := 4), true))
      && DecrementTrackCorrected(st, paging) == (st, false)
  {
    var st := NewList(PlainList, -1, false).(items := [Text("a"), Text("b"), Text("c")],
                                             selected := [false, false, false], trackedIndex := 5);
    assert Bounds(st, paging, 4) == (0, 2);
    assert !RowVisible(st, 4);
  }

  /* ---------------------------------------------------------------------
     Key handling
     --------------------------------------------------------------------- */

  /** `incrementStartPos` / `decrementStartPos`: scroll the text one column,
      within `0..getMaxStartPos()`. */
  function ScrollRight(st: ListState): (r: (ListState, bool))
    ensures r.1 <==> st.startPos < MaxStartPos(st)
    ensures r.1 ==> r.0 == st.(startPos := st.startPos + 1)
    ensures !r.1 ==> r.0 == st
  {
    if st.startPos < MaxStartPos(st) then (st.(startPos := st.startPos + 1), true) else (st, false)
  }

  function ScrollLeft(st: ListState): (r: (ListState, bool))
    ensures r.1 <==> st.startPos > 0
    ensures r.1 ==> r.0 == st.(startPos := st.startPos - 1)
    ensures !r.1 ==> r.0 == st
  {
    if st.startPos > 0 then (st.(startPos := st.startPos - 1), true) else (st, false)
  }

  /** The horizontal offset stays within `0..getMaxStartPos()`. */
  predicate OffsetInBounds(st: ListState) {
    0 <= st.startPos <= MaxStartPos(st)
  }

  /** The keys that move the cursor or scroll. */
  predicate NavigationKey(k: Keys.Key) {
    k == Keys.Up || k == Keys.Down || k == Keys.Home || k == Keys.End
    || k == Keys.PageDown || k == Keys.PageUp || k == Keys.Left || k == Keys.Right
  }

  /** A cursor move as the key handler reports it: consumed, no item
      event, and the search's exception passed on. */
  function Consumed(m: Result<(ListState, bool)>): (r: Result<(ListState, seq<ItemEvent>, bool)>)
    ensures r.Err? <==> m.Err?
    ensures m.Err? ==> r.error == m.error
    ensures m.Ok? ==> r == Ok((m.value.0, [], true))
  {
    match m
    case Err(e) => Err(e)
    case Ok((s, _)) => Ok((s, [], true))
  }

  /** `handleInput` of a plain list.  Every navigation key is consumed even
      when nothing moves; space toggles the cursor row when rows are
      selectable; Enter calls the cursor row.  Reading a cursor row that is
      no longer a row throws, as the vector does, and so does a menu search
      that probes past the rows. */
  function ListHandleInput(st: ListState, paging: Paging, k: Keys.Key): (r: Result<(ListState, seq<ItemEvent>, bool)>)
    requires Aligned(st)
    ensures |st.items| == 0 ==> r == Ok((st, [], false))
    ensures r.Ok? ==> Aligned(r.value.0) && r.value.0.items == st.items
    ensures r.Ok? && !r.value.2 ==> r.value.0 == st && r.value.1 == []
    ensures r.Ok? && NavigationKey(k) ==> r.value.0.selected == st.selected && r.value.1 == []
    ensures |st.items| > 0 && NavigationKey(k) && r.Err? ==> st.kind.Menu? && r.error == ArrayIndexOutOfBounds
    ensures |st.items| > 0 && (k == Keys.Left || k == Keys.Right) ==>
      (r.Ok? && r.value.2 && r.value.1 == [] && (OffsetInBounds(st) ==> OffsetInBounds(r.value.0)))
    ensures |st.items| > 0 && k == Keys.Up && st.trackedIndex <= 0 ==> r == Ok((st, [], true))
    ensures |st.items| > 0 && k == Keys.Down && st.trackedIndex >= |st.items| - 1 ==> r == Ok((st, [], true))
    ensures |st.items| > 0 && k == Keys.Space && st.selectable && 0 <= st.trackedIndex < |st.items| ==>
      (r.Ok? && r.value.2 && r.value.0.selected[st.trackedIndex] == !st.selected[st.trackedIndex])
    ensures |st.items| > 0 && k == Keys.Enter && !(k == Keys.Space && st.selectable) ==>
      (if 0 <= st.trackedIndex < |st.items| then r == Ok((st, [Called(st.trackedIndex)], true))
       else r == Err(ArrayIndexOutOfBounds))
  {
    if |st.items| == 0 then Ok((st, [], false))
    else if k == Keys.Right then Ok((ScrollRight(st).0, [], true))
    else if k == Keys.Left then Ok((ScrollLeft(st).0, [], true))
    else if k == Keys.Up then Consumed(DecrementTrack(st, paging))
    else if k == Keys.Down then Consumed(IncrementTrack(st, paging))
    else if k == Keys.Home then Consumed(SetTrack(st, paging, 0))
    else if k == Keys.End then Consumed(SetTrack(st, paging, |st.items| - 1))
    else if k == Keys.PageDown then Consumed(IncrementPage(st, paging))
    else if k == Keys.PageUp then Consumed(DecrementPage(st, paging))
    else if k == Keys.Space && st.selectable then
      match IsSelected(st, st.trackedIndex)
      case Err(e) => Err(e)
      case Ok(isSel) =>
        var t := if isSel then Deselect(st, st.trackedIndex) else Select(st, st.trackedIndex);
        match t
        case Err(e) => Err(e)
        case Ok((st1, ev)) => Ok((st1, ev, true))
    else if k == Keys.Enter then
      if 0 <= st.trackedIndex < |st.items| then Ok((st, [Called(st.trackedIndex)], true))
      else Err(ArrayIndexOutOfBounds)
    else Ok((st, [], false))
  }

  /** A menu ending in a separator: End asks to track that separator, the
      search probes past the last row, and the key handler throws. */
  lemma MenuEndKeyThrows(paging: Paging)
    ensures var st := NewList(Menu([]), -1, false).(items := [Text("a"), Separator], selected := [false, false]);
      ListHandleInput(st, paging, Keys.End) == Err(ArrayIndexOutOfBounds)
  {
    SetTrackedItemOnTrailingSeparatorThrows(paging);
  }

  /** In a plain list the cursor keys never throw and move the cursor to
      the position they name, whether or not it is still a row. */
  lemma PlainListNavigation(st: ListState, paging: Paging, k: Keys.Key)
    requires Aligned(st) && st.kind.PlainList? && |st.items| > 0 && NavigationKey(k)
    ensures var r := ListHandleInput(st, paging, k);
      r.Ok? && r.value.2
      && (k == Keys.Up && st.trackedIndex > 0 ==> r.value.0.trackedIndex == st.trackedIndex - 1)
      && (k == Keys.Down && st.trackedIndex < |st.items| - 1 ==> r.value.0.trackedIndex == st.trackedIndex + 1)
      && (k == Keys.Home ==> r.value.0.trackedIndex == 0)
      && (k == Keys.End ==> r.value.0.trackedIndex == |st.items| - 1)
      && (k == Keys.PageDown ==> r.value.0.trackedIndex == NextPagePos(st, paging))
      && (k == Keys.PageUp ==> r.value.0.trackedIndex == PrevPagePos(st, paging))
  {
  }

  /** Only the space key changes the selection: every other key at most
      moves the cursor or scrolls. */
  lemma OnlySpaceSelects(st: ListState, paging: Paging, k: Keys.Key)
    requires Aligned(st) && k != Keys.Space
    ensures var r := ListHandleInput(st, paging, k);
      r.Ok? ==> r.value.0.selected == st.selected
  {
  }

  /** Up and Down keep a displayed, non-negative cursor on a displayed row;
      in a plain list they never throw. */
  lemma StepKeepsCursorVisible(st: ListState, paging: Paging, k: Keys.Key)
    requires Aligned(st) && VisibleSize(st) >= 1 && (k == Keys.Up || k == Keys.Down)
    requires RowVisible(st, st.trackedIndex) && 0 <= st.trackedIndex
    ensures var r := ListHandleInput(st, paging, k);
      (st.kind.PlainList? ==> r.Ok?) && (r.Ok? ==> RowVisible(r.value.0, r.value.0.trackedIndex))
  {
  }
}

/** `MenuList`: a list whose separator rows cannot be tracked or selected,
    sized to its rows, and which ignores the space key. */
module MenuLists {
  import opened Wrappers
  import opened Lists
  import opened ListEdits
  import opened ListCursor
  import Keys

  /** `addSeparator(index)`: a separator row through `add`, so the list is
      reset as well. */
  function AddSeparator(st: ListState, index: int): (r: Result<ListState>)
    requires Aligned(st)
    ensures r.Err? <==> !(0 <= index <= |st.items|)
    ensures r.Ok? ==>
      (0 <= index <= |st.items| && Aligned(r.value) && |r.value.items| == |st.items| + 1
       && r.value.items[index] == Separator)
    ensures r.Ok? ==> r.value.startIndex == 0 && r.value.trackedIndex == 0 && r.value.startPos == 0
  {
    Add(st, index, Separator)
  }

  /** `addSeparator()`: at the end. */
  function AddSeparatorLast(st: ListState): (r: ListState)
    requires Aligned(st)
    ensures Aligned(r) && r.items == st.items + [Separator] && r.selected == st.selected + [false]
    ensures r.startIndex == 0 && r.trackedIndex == 0 && r.startPos == 0
  {
    assert st.items[..|st.items|] == st.items && st.items[|st.items|..] == [];
    assert st.selected[..|st.selected|] == st.selected && st.selected[|st.selected|..] == [];
    AddSeparator(st, |st.items|).value
  }

  /** In a menu, exactly the separator rows are not selectable. */
  lemma MenuSelectableIffNotSeparator(st: ListState, i: int)
    requires st.kind.Menu? && 0 <= i < |st.items|
    ensures IsSelectable(st, i) <==> !st.items[i].Separator?
    ensures SelectableAsWritten(st, i) == Ok(IsSelectable(st, i))
  {
  }

  /** `getItemRepresentation`: a menu shows a separator as its separator
      string; every other row shows as itself. */
  function Representation(kind: Kind, it: Item): (r: string)
    ensures it.Text? ==> r == it.s
    ensures it.Separator? && kind.Menu? ==> r == kind.separatorString
    ensures it.Separator? && kind.PlainList? ==> r == SeparatorChars
  {
    match (kind, it)
    case (Menu(sep), Separator) => sep
    case _ => ItemString(it)
  }

  /** The longest displayed row. */
  function MaxRepresentationLength(kind: Kind, items: seq<Item>): (r: nat)
    ensures forall k :: 0 <= k < |items| ==> |Representation(kind, items[k])| <= r
    ensures |items| > 0 ==> exists k :: 0 <= k < |items| && |Representation(kind, items[k])| == r
    ensures |items| == 0 ==> r == 0
  {
    if |items| == 0 then 0
    else
      var m := MaxRepresentationLength(kind, items[..|items| - 1]);
      var l := |Representation(kind, items[|items| - 1])|;
      assert forall k :: 0 <= k < |items| - 1 ==> items[..|items| - 1][k] == items[k];
      if l > m then l else m
  }

  /** `getPreferredSize`: a plain list wants no particular width and, when a
      visible size was given, that many rows plus the border; a menu wants
      its longest displayed row and all its rows, plus the border. */
  function PreferredSize(st: ListState): (r: (int, int))
    ensures st.kind.PlainList? ==> r == (-1, if st.requestedRows < 0 then -1 else st.requestedRows + 2)
    ensures st.kind.Menu? ==>
      r.1 == |st.items| + 2
      && (forall k :: 0 <= k < |st.items| ==> |Representation(st.kind, st.items[k])| + 2 <= r.0)
      && (|st.items| == 0 ==> r.0 == 2)
    ensures st.kind.Menu? ==> r.0 == MaxRepresentationLength(st.kind, st.items) + 2
  {
    match st.kind
    case PlainList => (-1, if st.requestedRows < 0 then -1 else st.requestedRows + 2)
    case Menu(_) => (MaxRepresentationLength(st.kind, st.items) + 2, |st.items| + 2)
  }

  /** `handleInput` of either class: a menu refuses the space key and hands
      every other key to the list. */
  function HandleInput(st: ListState, paging: Paging, k: Keys.Key): (r: Result<(ListState, seq<ItemEvent>, bool)>)
    requires Aligned(st)
    ensures st.kind.Menu? && k == Keys.Space ==> r == Ok((st, [], false))
    ensures !(st.kind.Menu? && k == Keys.Space) ==> r == ListHandleInput(st, paging, k)
  {
    if st.kind.Menu? && k == Keys.Space then Ok((st, [], false))
    else ListHandleInput(st, paging, k)
  }

  /** Neither a menu's key handling nor its cursor moves ever select a row:
      the selection is what it was. */
  lemma MenuInputNeverSelects(st: ListState, paging: Paging, k: Keys.Key)
    requires Aligned(st) && st.kind.Menu?
    ensures var r := HandleInput(st, paging, k);
      r.Ok? ==> r.value.0.selected == st.selected
  {
    if k != Keys.Space {
      OnlySpaceSelects(st, paging, k);
    }
  }
}

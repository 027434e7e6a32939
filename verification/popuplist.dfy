/** `PopUpList`: a one-line widget showing the chosen entry of a list of
    strings; Enter opens a pop-up menu to choose another.  The menu class is
    not part of this model, so the row it returns is a parameter. */
module PopUpLists {
  import opened Wrappers
  import Keys
  import JavaStrings

  /** `selectedIndex` is the stored index, -1 when none was chosen; `width`
      is the laid-out width. */
  datatype PopUp = PopUp(items: seq<string>, selectedIndex: int, width: int)

  function NewPopUp(): (p: PopUp)
    ensures p.items == [] && p.selectedIndex == -1
  {
    PopUp([], -1, 0)
  }

  /** `setSelectedIndex`: -1 or a row; anything else is rejected with
      `IndexOutOfBoundsException` and changes nothing. */
  function SetSelectedIndex(p: PopUp, i: int): (r: Result<PopUp>)
    ensures r.Err? <==> i < -1 || i >= |p.items|
    ensures r.Err? ==> r.error == IndexOutOfBounds
    ensures r.Ok? ==> r.value == p.(selectedIndex := i)
  {
    if i < -1 || i >= |p.items| then Err(IndexOutOfBounds) else Ok(p.(selectedIndex := i))
  }

  /** `getSelectedIndex`: the stored index, or the first row when none was
      chosen, or -1 for an empty list. */
  function GetSelectedIndex(p: PopUp): (i: int)
    ensures p.selectedIndex != -1 ==> i == p.selectedIndex
    ensures p.selectedIndex == -1 ==> i == (if |p.items| > 0 then 0 else -1)
  {
    if p.selectedIndex != -1 then p.selectedIndex
    else if |p.items| > 0 then 0
    else -1
  }

  /** Choosing a row and reading it back gives the row; choosing -1 falls
      back to the first row. */
  lemma SetThenGetIndex(p: PopUp, i: int)
    requires -1 <= i < |p.items|
    ensures SetSelectedIndex(p, i).Ok?
    ensures i >= 0 ==> GetSelectedIndex(SetSelectedIndex(p, i).value) == i
    ensures i == -1 ==> GetSelectedIndex(SetSelectedIndex(p, i).value) == (if |p.items| > 0 then 0 else -1)
  {
  }

  /** `indexOf(String)` on the rows. */
  function IndexOfItem(items: seq<string>, s: string): (r: int)
    ensures -1 <= r < |items|
    ensures r >= 0 ==> items[r] == s && s !in items[..r]
    ensures r == -1 <==> s !in items
  {
    if |items| == 0 then -1
    else if items[0] == s then 0
    else
      var r := IndexOfItem(items[1..], s);
      assert r >= 0 ==> items[..r + 1] == [items[0]] + items[1..][..r];
      assert items == [items[0]] + items[1..];
      if r == -1 then -1 else r + 1
  }

  /** `setSelectedItem`: an absent string stores -1, which reads back as
      the first row. */
  function SetSelectedItem(p: PopUp, s: string): (r: PopUp)
    ensures s in p.items ==> 0 <= r.selectedIndex < |p.items| && p.items[r.selectedIndex] == s
    ensures s in p.items ==> s !in p.items[..r.selectedIndex]
    ensures s !in p.items ==> r.selectedIndex == -1
    ensures r == p.(selectedIndex := r.selectedIndex)
  {
    SetSelectedIndex(p, IndexOfItem(p.items, s)).value
  }

  /** `getSelectedItem`: the row at `getSelectedIndex`, `null` when that is
      negative.  Edits do not adjust the stored index, so it can point past
      the rows, and reading it then throws. */
  function GetSelectedItem(p: PopUp): (r: Result<Option<string>>)
    ensures r == Ok(None) <==> GetSelectedIndex(p) < 0
    ensures r.Err? <==> GetSelectedIndex(p) >= |p.items|
    ensures r.Ok? && r.value.Some? ==> r.value.value == p.items[GetSelectedIndex(p)]
  {
    var i := GetSelectedIndex(p);
    if i < 0 then Ok(None)
    else if i < |p.items| then Ok(Some(p.items[i]))
    else Err(ArrayIndexOutOfBounds)
  }

  /** `add`, `add(pos, ...)`, `remove(...)`, `clear`: only the rows change;
      the stored index is left as it was. */
  function Add(p: PopUp, s: string): (r: PopUp)
    ensures r.items == p.items + [s] && r.selectedIndex == p.selectedIndex && r.width == p.width
  {
    p.(items := p.items + [s])
  }

  function AddAt(p: PopUp, pos: int, s: string): (r: Result<PopUp>)
    ensures r.Err? <==> !(0 <= pos <= |p.items|)
    ensures r.Ok? ==> r.value.items == p.items[..pos] + [s] + p.items[pos..]
    ensures r.Ok? ==> r.value.selectedIndex == p.selectedIndex && r.value.width == p.width
  {
    if 0 <= pos <= |p.items| then Ok(p.(items := p.items[..pos] + [s] + p.items[pos..]))
    else Err(ArrayIndexOutOfBounds)
  }

  function RemoveAt(p: PopUp, pos: int): (r: Result<PopUp>)
    ensures r.Err? <==> !(0 <= pos < |p.items|)
    ensures r.Ok? ==> r.value.items == p.items[..pos] + p.items[pos + 1..]
    ensures r.Ok? ==> r.value.selectedIndex == p.selectedIndex && r.value.width == p.width
  {
    if 0 <= pos < |p.items| then Ok(p.(items := p.items[..pos] + p.items[pos + 1..]))
    else Err(ArrayIndexOutOfBounds)
  }

  function Remove(p: PopUp, s: string): (r: PopUp)
    ensures s !in p.items ==> r == p
    ensures s in p.items ==> |r.items| == |p.items| - 1
    ensures forall j :: 0 <= j < |p.items| && p.items[j] == s && s !in p.items[..j] ==>
      r.items == p.items[..j] + p.items[j + 1..]
    ensures r.selectedIndex == p.selectedIndex && r.width == p.width
  {
    var i := IndexOfItem(p.items, s);
    if i == -1 then p else p.(items := p.items[..i] + p.items[i + 1..])
  }

  function Clear(p: PopUp): (r: PopUp)
    ensures r.items == [] && r.selectedIndex == p.selectedIndex && r.width == p.width
  {
    p.(items := [])
  }

  /** Inserting a row and removing it again gives the rows back. */
  lemma AddAtThenRemoveAt(p: PopUp, pos: int, s: string)
    requires 0 <= pos <= |p.items|
    ensures RemoveAt(AddAt(p, pos, s).value, pos) == Ok(p)
  {
    var q := AddAt(p, pos, s).value;
    assert q.items[..pos] + q.items[pos + 1..] == p.items;
  }

  /** Removing the chosen last row strands the stored index: reading the
      chosen item then throws. */
  lemma RemoveStrandsSelection()
    ensures var p := PopUp(["a", "b"], 1, 10);
      GetSelectedItem(RemoveAt(p, 1).value).Err?
  {
  }

  /** `getText`: the chosen row, cut or space-padded to the width inside the
      brackets; a width under 2 makes the cut throw. */
  function GetText(p: PopUp): (r: Result<string>)
    ensures r.Err? <==> GetSelectedItem(p).Err? || p.width - 2 < 0
    ensures r.Ok? ==> |r.value| == p.width - 2
    ensures r.Ok? ==>
      (var item := if GetSelectedItem(p).value.Some? then GetSelectedItem(p).value.value else "";
       if |item| > p.width - 2 then r.value == item[..p.width - 2]
       else r.value == item + Spaces(p.width - 2 - |item|))
  {
    match GetSelectedItem(p)
    case Err(e) => Err(e)
    case Ok(sel) =>
      var item := if sel.Some? then sel.value else "";
      var length := p.width - 2;
      if |item| > length then
        if length < 0 then Err(StringIndexOutOfBounds) else Ok(item[..length])
      else Ok(item + Spaces(length - |item|))
  }

  function Spaces(n: nat): (r: string)
    ensures |r| == n && forall k :: 0 <= k < n ==> r[k] == ' '
  {
    seq(n, _ => ' ')
  }

  /** `getPreferredSize`: room for the longest row and the brackets, one
      line high. */
  function PreferredSize(p: PopUp): (r: (int, int))
    ensures r.1 == 1
    ensures forall k :: 0 <= k < |p.items| ==> |p.items[k]| + 2 <= r.0
    ensures |p.items| > 0 ==> exists k :: 0 <= k < |p.items| && |p.items[k]| + 2 == r.0
    ensures |p.items| == 0 ==> r.0 == 2
  {
    (2 + JavaStrings.Longest(p.items), 1)
  }

  /** `handleInput`: Enter is always consumed; with more than one row it
      opens the menu, and a choice that is a row other than the current one
      is stored and reported (the `bool` is the value-changed event).  Other
      keys are not consumed. */
  function HandleInput(p: PopUp, k: Keys.Key, menuChoice: int): (r: (PopUp, bool, bool))
    ensures r.1 <==> k == Keys.Enter
    ensures r.2 <==>
      (k == Keys.Enter && |p.items| > 1 && menuChoice != -1 && menuChoice != GetSelectedIndex(p))
    ensures r.2 ==> r.0 == p.(selectedIndex := menuChoice)
    ensures !r.2 ==> r.0 == p
  {
    if k == Keys.Enter then
      if |p.items| > 1 && menuChoice != -1 && menuChoice != GetSelectedIndex(p) then
        (p.(selectedIndex := menuChoice), true, true)
      else (p, true, false)
    else (p, false, false)
  }

  /** After a change the widget shows the chosen row. */
  lemma ChoiceIsShown(p: PopUp, menuChoice: int)
    requires 0 <= menuChoice < |p.items|
    ensures var r := HandleInput(p, Keys.Enter, menuChoice);
      r.2 ==> GetSelectedItem(r.0) == Ok(Some(p.items[menuChoice]))
  {
  }
}

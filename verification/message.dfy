/** `Message`: a dialog showing a title, a multi-line text and one button
    that closes it.  The dialog is laid out as two cells of one column, the
    text above the button. */
module Messages {
  import opened Wrappers
  import opened Geometry
  import JavaStrings
  import Labels
  import WindowManager
  import WindowOperations

  /** The width the text needs: its longest line and the title, whichever
      is longer, but never more than three columns short of the screen.
      The lines are the tokenizer's, so empty lines are skipped; a `null`
      text or title counts as nothing. */
  function Width(text: Option<string>, title: Option<string>, screenWidth: int): (w: int)
    ensures w <= screenWidth - 3
    ensures w == screenWidth - 3 ||
      ((text.Some? ==> forall k :: 0 <= k < |JavaStrings.Tokens(text.value)| ==> |JavaStrings.Tokens(text.value)[k]| <= w)
       && (title.Some? ==> |title.value| <= w))
    ensures w == screenWidth - 3 || w == 0 || (title.Some? && w == |title.value|) ||
      (text.Some? && exists k :: 0 <= k < |JavaStrings.Tokens(text.value)| && |JavaStrings.Tokens(text.value)[k]| == w)
  {
    var fromText := if text.Some? then JavaStrings.Longest(JavaStrings.Tokens(text.value)) else 0;
    var result := if title.Some? then Max(fromText, |title.value|) else fromText;
    Min(result, screenWidth - 3)
  }

  /** The number of text lines, empty lines not counted. */
  function Height(text: Option<string>): (h: nat)
    ensures text.None? ==> h == 0
    ensures text.Some? ==> h <= |JavaStrings.SplitAll(text.value)|
    ensures text.Some? ==> h == |JavaStrings.Tokens(text.value)|
  {
    if text.Some? then |JavaStrings.Tokens(text.value)| else 0
  }

  /** The dialog's size and the two cells its layout manager is given. */
  datatype Layout = Layout(window: Rect, labelCell: Rect, buttonCell: Rect)

  /** The constructor's layout. */
  function MessageLayout(text: Option<string>, title: Option<string>, screenWidth: int): (r: Layout)
    ensures r.window.width == r.labelCell.width + 2 && r.labelCell.width == r.buttonCell.width
    ensures r.window.height == r.labelCell.height + r.buttonCell.height
    ensures Left(r.labelCell) == Left(r.buttonCell) == 0 && Top(r.labelCell) == 0
    ensures Top(r.buttonCell) == Bottom(r.labelCell) + 1
    ensures r.labelCell.height == Height(text) + 2 && r.buttonCell.height == 5
    ensures r.window.width <= screenWidth + 1
  {
    var w := Width(text, title, screenWidth);
    var h := Height(text);
    Layout(Sized(w + 4, h + 7), Rect(0, 0, w + 2, h + 2), Rect(0, h + 2, w + 2, 5))
  }

  /** The text cell is wide enough for the label when the screen is. */
  lemma LabelFitsCellWidth(text: string, title: Option<string>, screenWidth: int)
    requires |text| <= Labels.MaxInt
    requires JavaStrings.Longest(JavaStrings.Tokens(text)) <= screenWidth - 3
    ensures Labels.PreferredSize(Labels.Label(text)).Ok?
    ensures Labels.PreferredSize(Labels.Label(text)).value.0 <= MessageLayout(Some(text), title, screenWidth).labelCell.width
  {
    Labels.PreferredSizeIsSplitLines(Labels.Label(text));
    JavaStrings.LongestSplitTokens(text);
  }

  /** The pieces of a text with three empty lines between two words. */
  lemma BlankLinesPieces(text: string)
    requires text == "a\n\n\n\nb"
    ensures JavaStrings.SplitAll(text) == ["a", "", "", "", "b"]
  {
    assert JavaStrings.SplitAll(text[5..]) == ["b"] by {
      JavaStrings.SplitAllNoNewline(text[5..]);
    }
    assert JavaStrings.SplitAll(text[4..]) == ["", "b"] by { assert text[4..][1..] == text[5..]; }
    assert JavaStrings.SplitAll(text[3..]) == ["", "", "b"] by { assert text[3..][1..] == text[4..]; }
    assert JavaStrings.SplitAll(text[2..]) == ["", "", "", "b"] by { assert text[2..][1..] == text[3..]; }
    assert JavaStrings.SplitAll(text[1..]) == ["", "", "", "", "b"] by { assert text[1..][1..] == text[2..]; }
    assert [text[0]] + "" == "a";
  }

  lemma BlankLinesTokens(p: seq<string>)
    requires p == ["a", "", "", "", "b"]
    ensures JavaStrings.NonEmpty(p) == ["a", "b"]
  {
    assert JavaStrings.NonEmpty(p[4..]) == ["b"] by {
      assert p[4..] == ["b"] && p[4..][1..] == [];
      assert JavaStrings.NonEmpty(p[4..]) == [p[4..][0]] + JavaStrings.NonEmpty([]);
    }
    assert JavaStrings.NonEmpty(p[3..]) == ["b"] by { assert p[3..][0] == "" && p[3..][1..] == p[4..]; }
    assert JavaStrings.NonEmpty(p[2..]) == ["b"] by { assert p[2..][0] == "" && p[2..][1..] == p[3..]; }
    assert JavaStrings.NonEmpty(p[1..]) == ["b"] by { assert p[1..][0] == "" && p[1..][1..] == p[2..]; }
    assert p[0] == "a" && p[0] != "";
  }

  /** Empty lines count for the label but not for the cell, so enough of
      them make the label taller than its cell. */
  lemma LabelCanOverflowCellHeight()
    ensures var text := "a\n\n\n\nb";
      Labels.PreferredSize(Labels.Label(text)).Ok? &&
      Labels.PreferredSize(Labels.Label(text)).value.1 > MessageLayout(Some(text), None, 80).labelCell.height
  {
    var text := "a\n\n\n\nb";
    Labels.PreferredSizeIsSplitLines(Labels.Label(text));
    BlankLinesPieces(text);
    assert text[1] == '\n';
    var p := ["a", "", "", "", "b"];
    assert JavaStrings.Split(text) == p;
    BlankLinesTokens(p);
  }

  /** `actionPerformed`: pressing the button closes the dialog's window. */
  function Dismiss(rt: WindowManager.Runtime, id: WindowManager.WindowId): (o: WindowManager.Outcome)
    requires WindowManager.Valid(rt) && id in rt.windows
    ensures WindowManager.Valid(o.rt) && id in o.rt.windows
    ensures o.thrown.None? ==> o.rt.windows[id].closed && o.rt.top != Some(id)
  {
    WindowOperations.Close(rt, id)
  }
}

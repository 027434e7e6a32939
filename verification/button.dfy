/** `Button`: a focusable widget drawn as `< label >` that raises an action
    on Enter or on its shortcut character. */
module Buttons {
  import opened Wrappers
  import Keys
  import JavaStrings

  /** `text` is `None` for a `null` label. */
  datatype Button = Button(text: Option<string>, shortCut: Option<char>)

  function NewButton(text: Option<string>): (b: Button)
    ensures b.text == text && b.shortCut.None?
  {
    Button(text, None)
  }

  function SetShortCut(b: Button, c: char): (r: Button)
    ensures r.shortCut == Some(c) && r.text == b.text
  {
    b.(shortCut := Some(c))
  }

  /** `getShortCutsList`: `null` without a shortcut, else just the
      shortcut. */
  function ShortCutsList(b: Button): (r: Option<seq<Keys.Key>>)
    ensures b.shortCut.None? <==> r.None?
    ensures b.shortCut.Some? ==> r == Some([Keys.Char(b.shortCut.value)])
  {
    match b.shortCut
    case None => None
    case Some(c) => Some([Keys.Char(c)])
  }

  /** `handleInput`: Enter or the shortcut raises exactly one action (the
      `nat`) and is consumed; anything else is not. */
  function HandleInput(b: Button, k: Keys.Key): (r: (nat, bool))
    ensures r.1 <==> k == Keys.Enter || (b.shortCut.Some? && k == Keys.Char(b.shortCut.value))
    ensures r.0 == (if r.1 then 1 else 0)
  {
    if k == Keys.Enter || (b.shortCut.Some? && k == Keys.Char(b.shortCut.value)) then (1, true) else (0, false)
  }

  /** A button answers to every key of its own shortcut list. */
  lemma ShortCutKeysAreHandled(b: Button, k: Keys.Key)
    requires ShortCutsList(b).Some? && k in ShortCutsList(b).value
    ensures HandleInput(b, k) == (1, true)
  {
  }

  /** The label as string concatenation prints it, `null` included. */
  function LabelText(b: Button): string {
    match b.text
    case None => "null"
    case Some(s) => s
  }

  /** What is drawn: the label between `< ` and ` >`. */
  function Render(b: Button): (s: string)
    ensures |s| == |LabelText(b)| + 4
    ensures s[..2] == "< " && s[2..|s| - 2] == LabelText(b) && s[|s| - 2..] == " >"
  {
    "< " + LabelText(b) + " >"
  }

  /** `getPreferredSize`: the label plus four, one line; a `null` label
      throws. */
  function PreferredSize(b: Button): (r: Result<(int, int)>)
    ensures r.Err? <==> b.text.None?
    ensures r.Ok? ==> r.value == (|Render(b)|, 1)
  {
    match b.text
    case None => Err(NullPointer)
    case Some(s) => Ok((|s| + 4, 1))
  }

  /** `drawShortCutIfNeeded`: where the shortcut letter is highlighted, as
      an offset from the widget's left edge, and the letter shown: the first
      case-insensitive occurrence of the shortcut in the label, two columns
      in to skip `< `.  Nothing is drawn without a shortcut, a label or an
      occurrence. */
  function ShortCutHighlight(b: Button): (r: Option<(int, char)>)
    ensures r.Some? ==> b.shortCut.Some? && b.text.Some?
    ensures r.Some? ==>
      (var i := r.value.0 - 2; var l := b.text.value;
       0 <= i < |l| && r.value.1 == l[i]
       && JavaStrings.LowerChar(l[i]) == JavaStrings.LowerChar(b.shortCut.value)
       && forall j :: 0 <= j < i ==> JavaStrings.LowerChar(l[j]) != JavaStrings.LowerChar(b.shortCut.value))
    ensures b.shortCut.Some? && b.text.Some? && r.None? ==>
      forall j :: 0 <= j < |b.text.value| ==>
        JavaStrings.LowerChar(b.text.value[j]) != JavaStrings.LowerChar(b.shortCut.value)
    ensures r.Some? ==> Render(b)[r.value.0] == r.value.1
  {
    match (b.shortCut, b.text)
    case (Some(c), Some(l)) =>
      var i := JavaStrings.IndexOfChar(JavaStrings.ToLower(l), JavaStrings.LowerChar(c));
      LowerIndex(l, c);
      if i == -1 then None
      else
        assert Render(b)[i + 2] == l[i];
        Some((i + 2, l[i]))
    case _ => None
  }

  /** Searching the lower-cased label for the lower-cased character finds
      the first case-insensitive occurrence. */
  lemma LowerIndex(l: string, c: char)
    ensures var i := JavaStrings.IndexOfChar(JavaStrings.ToLower(l), JavaStrings.LowerChar(c));
      (i == -1 ==> forall j :: 0 <= j < |l| ==> JavaStrings.LowerChar(l[j]) != JavaStrings.LowerChar(c))
      && (i >= 0 ==>
            (i < |l| && JavaStrings.LowerChar(l[i]) == JavaStrings.LowerChar(c)
             && forall j :: 0 <= j < i ==> JavaStrings.LowerChar(l[j]) != JavaStrings.LowerChar(c)))
  {
    var lower := JavaStrings.ToLower(l);
    var i := JavaStrings.IndexOfChar(lower, JavaStrings.LowerChar(c));
    if i == -1 {
      assert forall j :: 0 <= j < |l| ==> lower[j] != JavaStrings.LowerChar(c);
    } else {
      assert forall j :: 0 <= j < i ==> lower[..i][j] == lower[j];
    }
  }

  predicate IsFocusable(b: Button) { true }
}

/** `Label`: a non-focusable widget showing a fixed, possibly multi-line
    text. */
module Labels {
  import opened Wrappers
  import JavaStrings
  import TextUtils

  /** `Integer.MAX_VALUE`, also the longest possible Java string. */
  const MaxInt: int := 0x7fff_ffff

  /** The text is never `null`: it is replaced by the empty string. */
  datatype Label = Label(text: string)

  /** `setText` (and the constructor): `null` becomes the empty string. */
  function SetText(l: Label, t: Option<string>): (r: Label)
    ensures t.None? ==> r.text == ""
    ensures t.Some? ==> r.text == t.value
  {
    match t
    case None => Label("")
    case Some(s) => Label(s)
  }

  function NewLabel(t: Option<string>): (l: Label)
    ensures l == SetText(Label(""), t)
  {
    SetText(Label(""), t)
  }

  /** `getPreferredSize`: the text wrapped at `Integer.MAX_VALUE` columns,
      as wide as its widest line and as high as its line count. */
  function PreferredSize(l: Label): Result<(int, int)> {
    match TextUtils.WrapLines(Some(l.text), MaxInt)
    case Err(e) => Err(e)
    case Ok(lines) => Ok((JavaStrings.Longest(lines), |lines|))
  }

  /** No Java string is long enough for that wrapping to cut, so the lines
      measured are exactly those of `split("\n")`. */
  lemma PreferredSizeIsSplitLines(l: Label)
    requires |l.text| <= MaxInt
    ensures PreferredSize(l) == Ok((JavaStrings.Longest(JavaStrings.Split(l.text)), |JavaStrings.Split(l.text)|))
  {
    JavaStrings.SplitPiecesShort(l.text);
    TextUtils.WrapLinesShortLines(l.text, MaxInt);
  }

  /** A one-line label is exactly as wide as its text. */
  lemma OneLineLabel(s: string)
    requires '\n' !in s && |s| <= MaxInt
    ensures PreferredSize(Label(s)) == Ok((|s|, 1))
  {
    PreferredSizeIsSplitLines(Label(s));
  }
}

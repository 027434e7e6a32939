/** `TextField`: a one-line text component between two delimiter
    characters.  The editing itself belongs to the `TextComponent` base
    class, which is not part of this model: its answer to a key is a
    parameter. */
module TextFields {
  import opened Wrappers
  import opened Geometry
  import Keys
  import JavaStrings

  /** `delimiter` is `None` until `setDelimiter` is called. */
  datatype TextField = TextField(text: Option<string>, delimiter: Option<string>)

  /** `setText`: `null` passes through; otherwise only the part before the
      first line feed is kept. */
  function SetText(f: TextField, text: Option<string>): (r: TextField)
    ensures r.delimiter == f.delimiter
    ensures text.None? ==> r.text.None?
    ensures text.Some? ==> r.text.Some? && '\n' !in r.text.value
    ensures text.Some? ==> JavaStrings.StartsWith(text.value, r.text.value)
    ensures text.Some? && '\n' !in text.value ==> r.text == text
    ensures text.Some? && '\n' in text.value ==> text.value[|r.text.value|] == '\n'
  {
    match text
    case None => f.(text := None)
    case Some(t) =>
      var i := JavaStrings.IndexOfChar(t, '\n');
      if i == -1 then f.(text := Some(t))
      else
        assert t[..i][..i] == t[..i];
        f.(text := Some(t[..i]))
  }

  /** A stored text is stored again unchanged. */
  lemma SetTextIdempotent(f: TextField, text: Option<string>)
    ensures SetText(SetText(f, text), SetText(f, text).text) == SetText(f, text)
  {
  }

  /** The keys the field refuses before the base class sees them: vertical
      movement, paging, Home/End and a plain line feed or carriage return. */
  predicate Filtered(k: Keys.Key) {
    k == Keys.Up || k == Keys.Down || k == Keys.PageDown || k == Keys.PageUp
    || k == Keys.End || k == Keys.Home || k == Keys.Char('\n') || k == Keys.Char('\r')
  }

  /** `handleInput`: a filtered key is not consumed and not delegated; any
      other key gets the base class's answer. */
  function HandleInput(f: TextField, k: Keys.Key, baseConsumes: bool): (r: bool)
    ensures Filtered(k) ==> !r
    ensures !Filtered(k) ==> r == baseConsumes
  {
    if Filtered(k) then false else baseConsumes
  }

  /** The delimiter drawn at both ends, `|` by default. */
  function DelimiterString(f: TextField): (s: string)
    ensures f.delimiter.None? ==> s == "|"
    ensures f.delimiter.Some? ==> s == f.delimiter.value
  {
    match f.delimiter
    case None => "|"
    case Some(d) => d
  }

  /** `setDelimiter`: the one-character string of c. */
  function SetDelimiter(f: TextField, c: char): (r: TextField)
    ensures DelimiterString(r) == [c] && r.text == f.text
  {
    f.(delimiter := Some([c]))
  }

  /** `getTextRectangle`: the field less one column at each end, on the
      same row, for a field at absolute (x, y). */
  function TextRectangle(x: int, y: int, width: int, height: int): (r: Rect)
    ensures Left(r) == x + 1 && Right(r) == x + width - 2
    ensures r.y == y && r.height == height
  {
    Rect(x + 1, y, width - 2, height)
  }
}

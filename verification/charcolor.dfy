/** Colour attributes of a character cell (`jcurses.system.CharColor`):
    a background and a foreground from the eight curses colours and a
    display attribute for colour and for black-and-white terminals. */
module CharColors {
  import opened Wrappers

  const BLACK: int := 0
  const RED: int := 1
  const GREEN: int := 2
  const YELLOW: int := 3
  const BLUE: int := 4
  const MAGENTA: int := 5
  const CYAN: int := 6
  const WHITE: int := 7

  const NORMAL: int := 0
  const REVERSE: int := 1
  const BOLD: int := 2

  datatype CharColor = CharColor(background: int, foreground: int, blackWhiteAttribute: int, colorAttribute: int)

  predicate ValidColor(c: int) {
    c == BLACK || c == RED || c == GREEN || c == YELLOW || c == BLUE || c == MAGENTA || c == CYAN || c == WHITE
  }

  predicate ValidAttribute(a: int) {
    a == NORMAL || a == REVERSE || a == BOLD
  }

  /** What the constructor guarantees; the attribute setters can break it. */
  predicate Valid(c: CharColor) {
    ValidColor(c.background) && ValidColor(c.foreground)
    && ValidAttribute(c.blackWhiteAttribute) && ValidAttribute(c.colorAttribute)
  }

  lemma ValidColorRange(c: int)
    ensures ValidColor(c) <==> 0 <= c <= 7
  {
  }

  /** The four-argument constructor: every argument is checked, and any
      unknown colour or attribute raises `IllegalArgumentException`. */
  function New(background: int, foreground: int, blackWhiteAttribute: int, colorAttribute: int): (r: Result<CharColor>)
    ensures r.Ok? <==> (ValidColor(background) && ValidColor(foreground)
                        && ValidAttribute(blackWhiteAttribute) && ValidAttribute(colorAttribute))
    ensures r.Err? ==> r.error == IllegalArgument
    ensures r.Ok? ==> (Valid(r.value) && r.value.background == background && r.value.foreground == foreground
                       && r.value.blackWhiteAttribute == blackWhiteAttribute && r.value.colorAttribute == colorAttribute)
  {
    if !ValidColor(background) || !ValidColor(foreground) then Err(IllegalArgument)
    else if !ValidAttribute(colorAttribute) || !ValidAttribute(blackWhiteAttribute) then Err(IllegalArgument)
    else Ok(CharColor(background, foreground, blackWhiteAttribute, colorAttribute))
  }

  /** The shorter constructors default the missing attributes to NORMAL. */
  function NewWithAttribute(background: int, foreground: int, blackWhiteAttribute: int): (r: Result<CharColor>)
    ensures r.Ok? <==> ValidColor(background) && ValidColor(foreground) && ValidAttribute(blackWhiteAttribute)
    ensures r.Ok? ==> r.value.colorAttribute == NORMAL && r.value.blackWhiteAttribute == blackWhiteAttribute
  {
    New(background, foreground, blackWhiteAttribute, NORMAL)
  }

  function NewPlain(background: int, foreground: int): (r: Result<CharColor>)
    ensures r.Ok? <==> ValidColor(background) && ValidColor(foreground)
    ensures r.Ok? ==> r.value == CharColor(background, foreground, NORMAL, NORMAL)
  {
    NewWithAttribute(background, foreground, NORMAL)
  }

  /** `setBackground` checks the colour; on success only the background
      changes. */
  function SetBackground(c: CharColor, background: int): (r: Result<CharColor>)
    ensures r.Ok? <==> ValidColor(background)
    ensures r.Err? ==> r.error == IllegalArgument
    ensures r.Ok? ==> (r.value.background == background && r.value.foreground == c.foreground
                       && r.value.blackWhiteAttribute == c.blackWhiteAttribute && r.value.colorAttribute == c.colorAttribute)
  {
    if ValidColor(background) then Ok(c.(background := background)) else Err(IllegalArgument)
  }

  function SetForeground(c: CharColor, foreground: int): (r: Result<CharColor>)
    ensures r.Ok? <==> ValidColor(foreground)
    ensures r.Err? ==> r.error == IllegalArgument
    ensures r.Ok? ==> (r.value.foreground == foreground && r.value.background == c.background
                       && r.value.blackWhiteAttribute == c.blackWhiteAttribute && r.value.colorAttribute == c.colorAttribute)
  {
    if ValidColor(foreground) then Ok(c.(foreground := foreground)) else Err(IllegalArgument)
  }

  /** The attribute setters store their argument unchecked. */
  function SetBlackWhiteAttribute(c: CharColor, a: int): (r: CharColor)
    ensures r.blackWhiteAttribute == a
    ensures r.background == c.background && r.foreground == c.foreground && r.colorAttribute == c.colorAttribute
  {
    c.(blackWhiteAttribute := a)
  }

  function SetColorAttribute(c: CharColor, a: int): (r: CharColor)
    ensures r.colorAttribute == a
    ensures r.background == c.background && r.foreground == c.foreground && r.blackWhiteAttribute == c.blackWhiteAttribute
  {
    c.(colorAttribute := a)
  }

  /** The colour setters keep a valid colour valid; the attribute setters do
      not, since they skip the check the constructor makes. */
  lemma SettersAndValidity(c: CharColor, x: int)
    requires Valid(c)
    ensures SetBackground(c, x).Ok? ==> Valid(SetBackground(c, x).value)
    ensures SetForeground(c, x).Ok? ==> Valid(SetForeground(c, x).value)
    ensures Valid(SetBlackWhiteAttribute(c, x)) <==> ValidAttribute(x)
    ensures Valid(SetColorAttribute(c, x)) <==> ValidAttribute(x)
  {
  }

  /** The name printed for a colour index. */
  function ColorName(index: int): (name: string)
    ensures ValidColor(index) <==> name != "UNKNOWN COLOR"
  {
    if index == BLACK then "BLACK"
    else if index == WHITE then "WHITE"
    else if index == GREEN then "GREEN"
    else if index == YELLOW then "YELLOW"
    else if index == MAGENTA then "MAGENTA"
    else if index == CYAN then "CYAN"
    else if index == BLUE then "BLUE"
    else if index == RED then "RED"
    else "UNKNOWN COLOR"
  }

  /** The name printed for a display attribute. */
  function ModusName(index: int): (name: string)
    ensures ValidAttribute(index) <==> name != "UNKNOWN MODUS"
  {
    if index == NORMAL then "NORMAL"
    else if index == REVERSE then "REVERSE"
    else if index == BOLD then "BOLD"
    else "UNKNOWN MODUS"
  }

  /** Distinct colours have distinct names, so a name identifies its colour. */
  lemma ColorNamesDistinct(a: int, b: int)
    requires ValidColor(a) && ValidColor(b) && a != b
    ensures ColorName(a) != ColorName(b)
  {
  }

  lemma ModusNamesDistinct(a: int, b: int)
    requires ValidAttribute(a) && ValidAttribute(b) && a != b
    ensures ModusName(a) != ModusName(b)
  {
  }
}

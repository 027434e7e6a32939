/** Named colour schemes (`jcurses.themes`).  A base theme answers every
    key, falling back to its "default" entry and then to black on white;
    an override answers from its own entries, then from its base theme if
    it has one, then from the global theme. */
module Themes {
  import opened Wrappers
  import opened CharColors

  const COLOR_DEFAULT: string := "default"
  const COLOR_WINDOW_BORDER: string := "window.border"
  const COLOR_WINDOW_TITLE: string := "window.title"
  const COLOR_WIDGET_TEXT: string := "widget.text"
  const COLOR_WIDGET_SELECTED: string := "widget.selected"
  const COLOR_WIDGET_SHORTCUT: string := "widget.shortcut"

  /** The colour of last resort. */
  const Fallback: CharColor := CharColor(BLACK, WHITE, NORMAL, NORMAL)

  /** Storing a null colour under a key is indistinguishable, for lookups,
      from never storing one, so entries map only to real colours. */
  datatype Theme =
    | Base(keys: map<string, CharColor>)
    | Override(keys: map<string, CharColor>, base: Option<Theme>)

  /** `setColor`: a null colour removes the key. */
  function SetColor(t: Theme, key: string, color: Option<CharColor>): (r: Theme)
    ensures color.Some? ==> key in r.keys && r.keys[key] == color.value
    ensures color.None? ==> key !in r.keys
    ensures forall k :: k != key ==> (k in r.keys <==> k in t.keys)
    ensures forall k :: k != key && k in t.keys ==> r.keys[k] == t.keys[k]
    ensures r.Override? <==> t.Override?
    ensures r.Override? ==> r.base == t.base
  {
    var keys := match color
      case Some(c) => t.keys[key := c]
      case None => t.keys - {key};
    t.(keys := keys)
  }

  /** `BaseTheme.getColor`. */
  function BaseColor(keys: map<string, CharColor>, key: string): (c: CharColor)
    ensures key in keys ==> c == keys[key]
    ensures key !in keys && COLOR_DEFAULT in keys ==> c == keys[COLOR_DEFAULT]
    ensures key !in keys && COLOR_DEFAULT !in keys ==> c == Fallback
  {
    if key in keys then keys[key]
    else if COLOR_DEFAULT in keys then keys[COLOR_DEFAULT]
    else Fallback
  }

  /** `getColor` of either kind of theme.  `global` is the key map of the
      theme the window manager holds: its default theme is a base theme, and
      a theme installed with `WindowManager.setTheme` is taken to be one as
      well. */
  function GetColor(t: Theme, key: string, global: map<string, CharColor>): CharColor {
    match t
    case Base(keys) => BaseColor(keys, key)
    case Override(keys, base) =>
      if key in keys then keys[key]
      else match base
        case Some(b) => GetColor(b, key, global)
        case None => BaseColor(global, key)
  }

  /** The override entries met walking from t towards its innermost base. */
  function Layers(t: Theme): seq<map<string, CharColor>> {
    match t
    case Base(_) => []
    case Override(keys, base) =>
      [keys] + match base
        case Some(b) => Layers(b)
        case None => []
  }

  /** The base theme that ends the chain, if any. */
  function Terminal(t: Theme): Option<map<string, CharColor>> {
    match t
    case Base(keys) => Some(keys)
    case Override(_, base) =>
      match base
      case Some(b) => Terminal(b)
      case None => None
  }

  /** Index of the first layer that defines the key, or |layers|. */
  function FirstDefining(layers: seq<map<string, CharColor>>, key: string): (i: nat)
    ensures i <= |layers|
    ensures i < |layers| ==> key in layers[i]
    ensures forall j :: 0 <= j < i ==> key !in layers[j]
  {
    if |layers| == 0 || key in layers[0] then 0
    else 1 + FirstDefining(layers[1..], key)
  }

  /** Reference resolution: the first override layer that defines the key
      wins; otherwise the terminal base theme, or the global theme when the
      chain ends without one, resolves it with its own fallbacks. */
  function ResolveByLayers(t: Theme, key: string, global: map<string, CharColor>): CharColor {
    var layers := Layers(t);
    var i := FirstDefining(layers, key);
    if i < |layers| then layers[i][key]
    else match Terminal(t)
      case Some(keys) => BaseColor(keys, key)
      case None => BaseColor(global, key)
  }

  lemma {:induction false} GetColorResolvesByLayers(t: Theme, key: string, global: map<string, CharColor>)
    ensures GetColor(t, key, global) == ResolveByLayers(t, key, global)
  {
    match t
    case Base(_) =>
    case Override(keys, base) =>
      if key !in keys {
        match base
        case Some(b) =>
          GetColorResolvesByLayers(b, key, global);
          assert Layers(t)[1..] == Layers(b);
        case None =>
      }
  }

  /** What is set can be read back, from a theme of either kind. */
  lemma SetThenGet(t: Theme, key: string, c: CharColor, global: map<string, CharColor>)
    ensures GetColor(SetColor(t, key, Some(c)), key, global) == c
  {
  }

  /** Setting a key on an override leaves every other key's colour alone;
      on a base theme the "default" entry also feeds other keys, so only
      keys with an entry of their own are certainly unaffected. */
  lemma SetLeavesOtherKeys(t: Theme, key: string, other: string, c: Option<CharColor>, global: map<string, CharColor>)
    requires other != key
    requires t.Base? ==> other in t.keys || key != COLOR_DEFAULT
    ensures GetColor(SetColor(t, key, c), other, global) == GetColor(t, other, global)
  {
  }

  /** On a base theme, re-setting "default" changes every key that has no
      entry of its own. */
  lemma DefaultFeedsMissingKeys(keys: map<string, CharColor>, other: string, c: CharColor, global: map<string, CharColor>)
    requires other !in keys && other != COLOR_DEFAULT
    ensures GetColor(SetColor(Base(keys), COLOR_DEFAULT, Some(c)), other, global) == c
  {
  }

  /** A widget's own theme is an override without a base: anything it does
      not define comes straight from the global theme. */
  lemma WidgetThemeFallsBackToGlobal(keys: map<string, CharColor>, key: string, global: map<string, CharColor>)
    requires key !in keys
    ensures GetColor(Override(keys, None), key, global) == BaseColor(global, key)
  {
  }
}

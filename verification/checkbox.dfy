/** `CheckBox`: a focusable two-state widget drawn as `[X]` or `[ ]` and
    toggled by the space key. */
module CheckBoxes {
  import Keys

  datatype CheckBox = CheckBox(checked: bool)

  /** The no-argument constructor starts unchecked. */
  function NewCheckBox(): (c: CheckBox)
    ensures !c.checked
  {
    CheckBox(false)
  }

  /** `setValue`: the new value is stored; the count of value-changed
      events is one when it differs from the old value, none otherwise. */
  function SetValue(c: CheckBox, v: bool): (r: (CheckBox, nat))
    ensures r.0.checked == v
    ensures r.1 == (if v != c.checked then 1 else 0)
  {
    (CheckBox(v), if v != c.checked then 1 else 0)
  }

  /** Setting the same value twice fires at most one event in all. */
  lemma SetValueTwice(c: CheckBox, v: bool)
    ensures var (c1, n1) := SetValue(c, v);
            var (c2, n2) := SetValue(c1, v);
            c2 == c1 && n2 == 0
  {
  }

  /** `handleInput`: space toggles (with exactly one event) and is
      consumed; every other key is left alone. */
  function HandleInput(c: CheckBox, k: Keys.Key): (r: (CheckBox, nat, bool))
    ensures r.2 <==> k == Keys.Space
    ensures r.2 ==> r.0.checked == !c.checked && r.1 == 1
    ensures !r.2 ==> r.0 == c && r.1 == 0
  {
    if k == Keys.Space then
      var (c1, n) := SetValue(c, !c.checked);
      (c1, n, true)
    else (c, 0, false)
  }

  /** Two presses of space restore the value. */
  lemma ToggleTwice(c: CheckBox)
    ensures HandleInput(HandleInput(c, Keys.Space).0, Keys.Space).0 == c
  {
  }

  /** What is drawn: `[X]` when checked, `[ ]` otherwise. */
  function Render(c: CheckBox): (s: string)
    ensures |s| == 3 && s[0] == '[' && s[2] == ']'
    ensures s[1] == (if c.checked then 'X' else ' ')
  {
    "[" + (if c.checked then "X" else " ") + "]"
  }

  /** `getPreferredSize` fits the rendering exactly. */
  function PreferredSize(c: CheckBox): (r: (int, int))
    ensures r.0 == |Render(c)| && r.1 == 1
  {
    (3, 1)
  }

  predicate IsFocusable(c: CheckBox) { true }
}

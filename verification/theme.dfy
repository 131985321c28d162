/** The light/dark theme switch: the `dark-mode` class on the document root,
    the `themeToggle` checkbox, and the preference kept in local storage under
    the key "theme". Storage is an abstract map from key to string. */
module Theme {

  const ThemeKey: string := "theme"

  /** `darkMode`: the root carries `dark-mode`; `checked`: the checkbox state */
  datatype Theme = Theme(darkMode: bool, checked: bool, storage: map<string, string>)

  /** The stored preference asks for the dark theme: exactly "dark" */
  predicate StoredDark(storage: map<string, string>)
  {
    ThemeKey in storage && storage[ThemeKey] == "dark"
  }

  /** The value the change handler writes for a given class state */
  function StoredValue(darkMode: bool): string
  {
    if darkMode then "dark" else "light"
  }

  /** Page load: a stored "dark" turns the theme on and ticks the checkbox;
      any other stored value, or none, leaves the markup as it is. */
  function Init(t: Theme): (r: Theme)
    ensures r.darkMode <==> t.darkMode || StoredDark(t.storage)
    ensures r.checked <==> t.checked || StoredDark(t.storage)
    ensures !StoredDark(t.storage) ==> r == t
    ensures r.storage == t.storage
  {
    if StoredDark(t.storage) then t.(darkMode := true, checked := true) else t
  }

  /** The checkbox's change handler: flip `dark-mode`, then store the mode now
      in effect. Other storage keys are untouched. */
  function OnChange(t: Theme): (r: Theme)
    ensures r.darkMode == !t.darkMode
    ensures r.checked == t.checked
    ensures ThemeKey in r.storage
    ensures r.storage[ThemeKey] == "dark" <==> r.darkMode
    ensures r.storage[ThemeKey] == "light" <==> !r.darkMode
    ensures forall k :: k in t.storage && k != ThemeKey ==> k in r.storage && r.storage[k] == t.storage[k]
    ensures forall k :: k in r.storage && k != ThemeKey ==> k in t.storage
  {
    var dark := !t.darkMode;
    t.(darkMode := dark, storage := t.storage[ThemeKey := StoredValue(dark)])
  }

  /** A user click on the checkbox: the browser flips `checked`, then
      dispatches `change`. */
  function Click(t: Theme): Theme
  {
    OnChange(t.(checked := !t.checked))
  }

  /** The checkbox shows the theme in effect. */
  predicate InSync(t: Theme)
  {
    t.darkMode == t.checked
  }

  /** The stored preference names the theme in effect. */
  predicate Persisted(t: Theme)
  {
    ThemeKey in t.storage && t.storage[ThemeKey] == StoredValue(t.darkMode)
  }

  /** Loading with a stored "dark", or with markup already in sync, leaves the
      checkbox in sync with the class. */
  lemma InitInSync(t: Theme)
    requires InSync(t) || StoredDark(t.storage)
    ensures InSync(Init(t))
  {
  }

  /** Every click keeps the checkbox in sync and leaves the preference
      persisted. */
  lemma ClickKeepsInSync(t: Theme)
    requires InSync(t)
    ensures InSync(Click(t))
    ensures Persisted(Click(t))
  {
  }

  /** Two clicks restore the class and the checkbox; the stored preference then
      names the original theme, whatever was stored before. */
  lemma ClickTwice(t: Theme)
    ensures Click(Click(t)).darkMode == t.darkMode
    ensures Click(Click(t)).checked == t.checked
    ensures Persisted(Click(Click(t)))
    ensures Persisted(t) ==> Click(Click(t)) == t
  {
    var r := Click(Click(t));
    if Persisted(t) {
      assert r.storage == t.storage;
    }
  }

  /** The preference survives a reload: loading a fresh page, whose markup is
      light, with the storage a click left behind shows the theme that click
      chose. */
  lemma ReloadRestoresTheme(t: Theme)
    ensures var after := Click(t);
            Init(Theme(false, false, after.storage)).darkMode == after.darkMode
  {
  }
}

/** The mobile menu: the hamburger icon and the menu panel each carry an
    `active` class. The hamburger toggles both; a click outside both, the Escape
    key, or a followed navigation link clears both. */
module Menu {

  datatype Menu = Menu(hamburgerActive: bool, panelActive: bool)

  /** Where a click on the document landed, relative to the two elements */
  datatype ClickTarget = InHamburger | InPanel | Elsewhere

  /** The hamburger's click handler: toggle `active` on both elements */
  function OnHamburgerClick(m: Menu): (r: Menu)
    ensures r.hamburgerActive == !m.hamburgerActive
    ensures r.panelActive == !m.panelActive
  {
    Menu(!m.hamburgerActive, !m.panelActive)
  }

  /** closeMobileMenu: remove `active` from both elements */
  function Close(m: Menu): (r: Menu)
    ensures !r.hamburgerActive && !r.panelActive
  {
    Menu(false, false)
  }

  /** The document's click handler: close unless the click landed inside the
      hamburger or the panel. */
  function OnDocumentClick(m: Menu, target: ClickTarget): (r: Menu)
    ensures target == Elsewhere ==> !r.hamburgerActive && !r.panelActive
    ensures target != Elsewhere ==> r == m
  {
    if target == Elsewhere then Close(m) else m
  }

  /** The document's keydown handler: Escape closes, other keys do nothing. */
  function OnKeydown(m: Menu, key: string): (r: Menu)
    ensures key == "Escape" ==> !r.hamburgerActive && !r.panelActive
    ensures key != "Escape" ==> r == m
  {
    if key == "Escape" then Close(m) else m
  }

  /** A full click on the hamburger: its own handler runs, then the event
      bubbles to the document, whose handler sees a target inside the hamburger. */
  function ClickHamburger(m: Menu): Menu
  {
    OnDocumentClick(OnHamburgerClick(m), InHamburger)
  }

  /** Icon and panel agree: both active or neither */
  predicate InSync(m: Menu)
  {
    m.hamburgerActive == m.panelActive
  }

  /** The bubbling document handler does not undo the hamburger's toggle, and
      two clicks on the hamburger restore the menu. */
  lemma ClickHamburgerToggles(m: Menu)
    ensures ClickHamburger(m) == Menu(!m.hamburgerActive, !m.panelActive)
    ensures ClickHamburger(ClickHamburger(m)) == m
  {
  }

  /** Closing is idempotent. */
  lemma CloseIdempotent(m: Menu)
    ensures Close(Close(m)) == Close(m)
  {
  }

  /** Every handler keeps the icon and the panel in step. */
  lemma HandlersKeepInSync(m: Menu, target: ClickTarget, key: string)
    requires InSync(m)
    ensures InSync(ClickHamburger(m))
    ensures InSync(Close(m))
    ensures InSync(OnDocumentClick(m, target))
    ensures InSync(OnKeydown(m, key))
  {
  }
}

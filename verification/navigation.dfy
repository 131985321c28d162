/** In-page navigation: a click on a navigation link whose href holds a `#`
    scrolls to the element named after it and closes the mobile menu. */
module Navigation {
  import opened Optional
  import opened Text
  import Menu

  /** The id a link's href points at, or None for a link the handler ignores.
      The handler tests `startsWith('#') || includes('#')` and then takes the
      second `#`-piece, with a fallback (everything after the first character)
      for an href without `#`. The outer test already implies `includes('#')`,
      so the fallback is dead code. */
  function HashTarget(href: string): (r: Option<string>)
    ensures r.Some? <==> '#' in href
    ensures r.Some? ==> '#' !in r.value
  {
    ContainsChar(href, '#');
    assert StartsWith(href, "#") ==> href[0] == '#';
    if StartsWith(href, "#") || Contains(href, "#") then
      Some(if Contains(href, "#") then
             ContainsChar(href, '#');
             CountZero(href, '#');
             Split(href, '#')[1]
           else assert false; href)
    else None
  }

  /** A link is followed exactly when its href holds a `#`; the target is then
      the text after the first `#`, up to the next `#` or the end. The
      fallback to the text after the first character is never taken. */
  lemma HashTargetIsFirstFragment(href: string)
    ensures HashTarget(href).Some? <==> '#' in href
    ensures HashTarget(href).Some? ==>
      var t := HashTarget(href).value;
      && '#' !in t
      && exists k :: 0 <= k < |href| && href[k] == '#' && '#' !in href[..k]
           && StartsWith(href[k + 1..], t)
           && (k + 1 + |t| == |href| || href[k + 1 + |t|] == '#')
  {
    ContainsChar(href, '#');
    assert StartsWith(href, "#") ==> href[0] == '#';
    if '#' in href {
      var k := FirstOccurrence(href, '#');
      var p, x := href[..k], href[k + 1..];
      assert href == p + ['#'] + x;
      SplitAfterPiece(p, '#', x);
      SplitFirstPiece(x, '#');
      var t := Split(x, '#')[0];
      assert HashTarget(href) == Some(t);
      assert x[|t|..] == href[k + 1 + |t|..];
    }
  }

  /** getElementById: an empty id finds nothing */
  predicate HasElement(ids: set<string>, id: string)
  {
    id != "" && id in ids
  }

  /** What a click on a navigation link does: the id scrolled to (with the
      default action prevented), if any, and the mobile menu afterwards. */
  datatype LinkClick = LinkClick(scrolledTo: Option<string>, menu: Menu.Menu)

  /** The link's click handler, for a page whose element ids are `ids` */
  function OnLinkClick(href: string, ids: set<string>, m: Menu.Menu): (r: LinkClick)
    ensures r.scrolledTo.Some? <==> HashTarget(href).Some? && HasElement(ids, HashTarget(href).value)
    ensures r.scrolledTo.Some? ==> r.scrolledTo == HashTarget(href) && r.menu == Menu.Close(m)
    ensures r.scrolledTo.None? ==> r.menu == m
  {
    match HashTarget(href)
    case Some(target) =>
      if HasElement(ids, target) then LinkClick(Some(target), Menu.Close(m))
      else LinkClick(None, m)
    case None => LinkClick(None, m)
  }

  /** A link to an existing section, written `#id` or `page.html#id`, scrolls
      to that section and closes the menu. */
  lemma FollowsSectionLink(page: string, id: string, ids: set<string>, m: Menu.Menu)
    requires '#' !in page && '#' !in id
    requires HasElement(ids, id)
    ensures OnLinkClick(page + "#" + id, ids, m) == LinkClick(Some(id), Menu.Close(m))
  {
    var href := page + "#" + id;
    assert href == page + ['#'] + id;
    assert href[|page|] == '#';
    ContainsChar(href, '#');
    SplitAfterPiece(page, '#', id);
    SplitWithoutSeparator(id, '#');
    assert HashTarget(href) == Some(id);
  }
}

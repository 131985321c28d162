# Portfolio page behaviour, modelled in Dafny

A model of the interactive logic in `script.js`, the script of a static portfolio
page. The document is abstracted to plain values. Each element becomes a record of
its marker classes (`active`, `is-open`, `is-hidden`, `is-initially-hidden`,
`hidden`, `dark-mode`) plus the few attribute and style strings the handlers read
or write. Each event handler becomes a pure transition function over those
records.

Modules, one per file:

- `Optional` (optional.dfy): `Option`, for attributes and elements that may be absent.
- `Text` (text.dfy): JavaScript `split` with a one-character separator, and
  `includes`. Split is proved to invert `Join` in both directions, and its pieces
  are characterised independently as the separator-free substrings that sit
  between separators. `includes` is proved to mean "occurs at some index".
- `Theme` (theme.dfy): the `dark-mode` class, the theme checkbox, and the `theme`
  entry of local storage. Storage is a map from key to string.
- `Menu` (menu.dfy): the hamburger icon and the mobile menu panel. It covers the
  toggle, `closeMobileMenu`, the outside-click handler and the Escape key.
- `Navigation` (navigation.dfy): which id a navigation link's href targets, and
  what a click on the link does.
- `Timeline` (timeline.dfy): the `is-open` toggle on work-timeline entries.
- `ShowMore` (show_more.dfy): the two-button "show more" controller. The pending
  `transitionend` listeners are a count, and `transitionend` is an explicit event
  with a target and a property name.
- `SoftwareFilter` (software_filter.dfy): the category filter buttons and the
  software items.
- `ScrollSpy` (scroll_spy.dfy): picking the current section on scroll and marking
  navigation links.

Behaviour of the code worth knowing:

- An item without `data-categories` makes the click handler throw, because it
  calls `split` on `null` (script.js:215). So `SoftwareFilter.Select` requires
  every item to carry the attribute (`WellFormed`).
- Categories are split on a single space (script.js:215). Tabs are not
  separators, and repeated, leading or trailing spaces give empty categories,
  which the empty tag then selects (`SoftwareFilter.EmptyTagExample`).
- `transitionend` listeners can pile up. The code adds one on every collapse
  (script.js:163) and removes one only when it fires. The count stays at most
  one when every click lands on a visible button (`ShowMore.RunKeepsSteady`).
  `ShowMore.ListenersAccumulate` and `ShowMore.HiddenClickShowsBothButtons`
  show what the script alone allows.
- The theme handler always writes "dark" or "light" (script.js:30-34). After
  two clicks the stored value names the original theme, "light" on a light
  page, whatever the key held before, an absent key included. Two clicks
  restore the stored value itself only if it already named the theme in
  effect (`Theme.ClickTwice`).

## Model

| member | source | states |
|---|---|---|
| Text.Split | script.js:215 | `split(' ')` yields one more piece than there are separators, and no piece contains the separator |
| Text.JoinSplit | script.js:215 | joining the pieces with the separator gives back the original string |
| Text.SplitJoin | script.js:215 | splitting a join of separator-free pieces gives back exactly those pieces, so empty pieces are kept |
| Text.SplitPieceIff | script.js:215-217 | a string is a piece of the split iff it has no separator and occurs in the input with a separator or an end on each side |
| Text.SplitFirstPiece | script.js:50 | the first piece is the prefix up to the first separator, or the whole string when there is none |
| Text.ContainsIff | script.js:300 | `includes` succeeds iff the needle occurs at some index |
| Text.ContainsEmpty | script.js:300 | every string includes the empty string |
| Text.ContainsChar | script.js:49-50 | a one-character `includes` succeeds iff the character is present |
| Theme.Init | script.js:21-27 | at load, `dark-mode` is added and the checkbox ticked only when the stored value is exactly "dark"; otherwise nothing changes |
| Theme.OnChange | script.js:30-34 | the change handler flips `dark-mode` and stores "dark" iff the class is now present, else "light", touching no other key |
| Theme.InitInSync | script.js:24-27 | after load the checkbox agrees with the class, if it did in the markup or the stored value was "dark" |
| Theme.ClickKeepsInSync | script.js:30-34 | each checkbox click keeps the checkbox and class in agreement and leaves the stored value naming the theme in effect |
| Theme.ClickTwice | script.js:30-34 | two clicks restore the class and the checkbox; the stored value then names the original theme, and the whole state is unchanged when it already did |
| Theme.ReloadRestoresTheme | script.js:21-34 | loading a fresh light page with the storage a click left behind shows the theme that click chose |
| Navigation.HashTarget | script.js:49-50 | a link is handled iff its href holds a `#`, and the target it picks holds no `#` |
| Navigation.HashTargetIsFirstFragment | script.js:49-50 | a link is handled iff its href holds a `#`; the target is the text after the first `#` up to the next `#` or the end; the `substring(1)` fallback is never reached |
| Navigation.OnLinkClick | script.js:45-60 | a click scrolls iff the target names an element, and then also closes the mobile menu; otherwise nothing changes |
| Navigation.FollowsSectionLink | script.js:49-58 | an href `page#id` with an existing id scrolls to exactly `id` and closes the menu |
| Menu.OnHamburgerClick | script.js:73-76 | the hamburger click flips `active` on both the icon and the panel |
| Menu.Close | script.js:86-92 | closing clears `active` on both elements |
| Menu.OnDocumentClick | script.js:79-83 | a click outside both elements closes the menu; a click inside either changes nothing |
| Menu.OnKeydown | script.js:324-329 | Escape closes the menu; every other key changes nothing |
| Menu.ClickHamburgerToggles | script.js:73-83 | the bubbling document handler does not undo the hamburger's toggle, and two hamburger clicks restore the menu |
| Menu.CloseIdempotent | script.js:86-92 | closing twice is closing once |
| Menu.HandlersKeepInSync | script.js:73-92 | every handler keeps the icon and the panel both active or both inactive |
| Timeline.OnCardClick | script.js:102-108 | a card click flips `is-open` on its enclosing entry only, and does nothing when there is none |
| Timeline.ClickTwice | script.js:105-108 | two clicks on the same card restore every entry |
| Timeline.ClicksCommute | script.js:101-108 | clicks on cards of two entries commute |
| ShowMore.Init | script.js:117-177 | if any of the three elements is missing nothing changes and nothing is installed; otherwise exactly one button is visible, the top one iff the container has `is-hidden`, with no listener pending |
| ShowMore.Toggle | script.js:142-165 | from hidden: removes `is-hidden`, hides the top button, shows the bottom one, adds no listener; from shown: adds `is-hidden`, hides the bottom button, leaves the top one as it was, adds exactly one listener |
| ShowMore.RunListener | script.js:155-161 | one listener ignores any event but the container's own `max-height` and stays registered; on that event it shows the top button and removes itself |
| ShowMore.RunListeners | script.js:155-163 | running n registered listeners on a completing event shows the top button and removes those n; any other event changes nothing |
| ShowMore.OnTransitionEnd | script.js:155-163 | a non-matching `transitionend`, or one with no listener pending, changes nothing; a matching one shows the top button and removes every pending listener, leaving the container and bottom button alone |
| ShowMore.InitSteady | script.js:170-176 | initialisation yields a steady state |
| ShowMore.StepKeepsSteady | script.js:142-165 | a click on a visible button, or any `transitionend`, keeps the state steady |
| ShowMore.RunKeepsSteady | script.js:142-176 | along any run whose clicks hit visible buttons, at most one button is visible and at most one listener is pending |
| ShowMore.ListenersAccumulate | script.js:151-163 | the script itself does not bound listeners: three toggles before a transition ends, which need a click on a hidden button, leave two pending, and the next `max-height` end removes both |
| ShowMore.HiddenClickShowsBothButtons | script.js:145-163 | a click during a collapse re-expands with the collapse's listener still pending, and the next `max-height` end then shows both buttons |
| SoftwareFilter.ShowItem | script.js:227-232 | showing removes `hidden` and sets display "flex", keeping the categories |
| SoftwareFilter.HideItem | script.js:234-237 | hiding adds `hidden` and sets display "none", keeping the categories |
| SoftwareFilter.Select | script.js:204-224 | afterwards exactly the clicked button is `active`; an item is shown iff the tag is "all" or a piece of `categories.split(' ')`; a shown item has display "flex" and a hidden one display "none" |
| SoftwareFilter.Selects | script.js:215-217 | a missing tag selects nothing; any tag but "all" selects iff it has no space and sits in the category list between spaces or ends of the list |
| SoftwareFilter.SelectsIff | script.js:214-217 | a tag selects an item iff it is "all", or it has no space and sits in the category list between spaces or ends of the list |
| SoftwareFilter.LastClickWins | script.js:204-224 | the state after two clicks is the state after the second alone |
| SoftwareFilter.SelectIdempotent | script.js:204-224 | clicking the same button twice gives the state of one click |
| SoftwareFilter.AllAndMissingTag | script.js:211-221 | "all" shows every item; a button without `data-filter` hides every item |
| SoftwareFilter.FilterExample | script.js:204-224 | with items tagged "a b", "b" and "c", the tag "b" shows the first two, hides the third, and only its button is `active` |
| SoftwareFilter.EmptyTagExample | script.js:215-217 | the empty tag selects "a  b", which has a doubled space, but not "a b" |
| ScrollSpy.CurrentSection | script.js:287-296 | the current id is that of the last section with `scrollY >= offsetTop - 200`, or "" when there is none |
| ScrollSpy.MarkLinks | script.js:298-303 | a link is `active` afterwards iff the current id occurs in its href; hrefs are untouched |
| ScrollSpy.OnScroll | script.js:283-304 | after a scroll each link is active iff its href contains the last reached section's id, every link is active when no section is reached, and every href is left as it was |
| ScrollSpy.EmptyCurrentMarksAll | script.js:298-303 | with an empty current id every link becomes active |

## Left out

- Fade-in on scroll (script.js:244-264): it relies on browser observer callbacks and the observer's threshold and margin geometry.
- Smooth scrolling itself (`scrollIntoView`, `window.scrollTo`, script.js:55, 270-280): a pure browser effect. The model records only which id a navigation click scrolls to. The logo's `#top` handler is not modelled.
- `debounce` (script.js:311-317): it is timer-based and nothing calls it.
- Project-card clicks (script.js:183-194): they only write to the console.
- DOM querying, event dispatch and listener registration: these become explicit inputs. Examples are the index of the clicked button, the click target's position relative to the menu, and the `transitionend` target and property.
- Inline `flexDirection` and `alignItems` (script.js:230-231): presentation only. Only the `display` value is modelled.
- `clientHeight` (script.js:291): it is read but never used. `offsetTop` and `scrollY` are integers here.
- Elements the script assumes present without checking: the theme checkbox, the hamburger and the panel (script.js:20, 70-71, 87-88). Without them the script throws. The model takes them as present.
- Attributes whose absence throws: an item without `data-categories` (script.js:215) and a link without `href` (script.js:49, 300). `SoftwareFilter.Select` requires the categories, and hrefs are plain strings. What a throw half-way through a handler leaves behind is not modelled.
- The checkbox flip that precedes the `change` event is done by the browser. `Theme.Click` models it; the handler itself (`Theme.OnChange`) leaves `checked` alone.
- ShowMore.RunKeepsSteady: assumes that every click lands on a visible button. The stylesheet that hides `is-initially-hidden` elements is not part of this model.
- Theme.ClickTwice: promises the stored value back only when it already named the theme in effect; otherwise it states that the value then names the original theme. Restoring any stored value would be false of the code.

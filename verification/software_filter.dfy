/** The software category filter: clicking a filter button makes it the only
    `active` one and shows exactly the software items whose space-separated
    `data-categories` list holds the button's `data-filter` tag (every item for
    the tag "all"). A shown item loses the `hidden` class and gets inline
    display "flex"; a hidden one gains `hidden` and gets display "none". */
module SoftwareFilter {
  import opened Optional
  import opened Text

  /** A filter button: its `active` class and its `data-filter` attribute */
  datatype FilterButton = FilterButton(active: bool, filter: Option<string>)

  /** A software item: its `hidden` class, its inline `display` value and its
      `data-categories` attribute */
  datatype SoftwareItem = SoftwareItem(hidden: bool, display: string, categories: Option<string>)

  datatype Filter = Filter(buttons: seq<FilterButton>, items: seq<SoftwareItem>)

  /** Every item carries `data-categories`; reading the categories of one that
      does not would throw in the click handler. */
  predicate WellFormed(f: Filter)
  {
    forall i :: 0 <= i < |f.items| ==> f.items[i].categories.Some?
  }

  /** showItem */
  function ShowItem(item: SoftwareItem): (r: SoftwareItem)
    ensures !r.hidden && r.display == "flex"
    ensures r.categories == item.categories
  {
    item.(hidden := false, display := "flex")
  }

  /** hideItem */
  function HideItem(item: SoftwareItem): (r: SoftwareItem)
    ensures r.hidden && r.display == "none"
    ensures r.categories == item.categories
  {
    item.(hidden := true, display := "none")
  }

  /** The handler's test: the tag is "all", or it equals one of the pieces of
      `categories.split(' ')`. A button without `data-filter` selects nothing;
      any other tag selects exactly when it is free of spaces and sits in the
      list between spaces or ends of the list. */
  predicate Selects(filter: Option<string>, categories: string)
    ensures filter.None? ==> !Selects(filter, categories)
    ensures filter.Some? && filter.value != "all" ==>
      (Selects(filter, categories) <==>
         ' ' !in filter.value && exists i :: DelimitedAt(categories, filter.value, ' ', i))
  {
    match filter
    case None => false
    case Some(tag) =>
      SplitPieceIff(categories, tag, ' ');
      tag == "all" || tag in Split(categories, ' ')
  }

  function ApplyTo(filter: Option<string>, item: SoftwareItem): SoftwareItem
    requires item.categories.Some?
  {
    if Selects(filter, item.categories.value) then ShowItem(item) else HideItem(item)
  }

  /** The click handler of the button at index `clicked` */
  function Select(f: Filter, clicked: nat): (r: Filter)
    requires clicked < |f.buttons|
    requires WellFormed(f)
    ensures |r.buttons| == |f.buttons|
    ensures forall i :: 0 <= i < |r.buttons| ==>
      && r.buttons[i].filter == f.buttons[i].filter
      && (r.buttons[i].active <==> i == clicked)
    ensures |r.items| == |f.items|
    ensures forall i :: 0 <= i < |r.items| ==>
      && r.items[i].categories == f.items[i].categories
      && (!r.items[i].hidden <==> Selects(f.buttons[clicked].filter, f.items[i].categories.value))
      && (r.items[i].hidden <==> r.items[i].display == "none")
      && (!r.items[i].hidden ==> r.items[i].display == "flex")
    ensures WellFormed(r)
  {
    var filter := f.buttons[clicked].filter;
    Filter(
      seq(|f.buttons|, i requires 0 <= i < |f.buttons| => f.buttons[i].(active := i == clicked)),
      seq(|f.items|, i requires 0 <= i < |f.items| => ApplyTo(filter, f.items[i])))
  }

  /** A tag selects an item exactly when it is "all", or it is free of spaces
      and sits in the category list between spaces or ends of the list. */
  lemma SelectsIff(tag: string, categories: string)
    ensures Selects(Some(tag), categories) <==>
      tag == "all" || (' ' !in tag && exists i :: DelimitedAt(categories, tag, ' ', i))
  {
    SplitPieceIff(categories, tag, ' ');
  }

  /** The state after a click depends only on the button clicked last: in
      particular clicking the same button twice is the same as clicking it
      once. */
  lemma LastClickWins(f: Filter, first: nat, second: nat)
    requires first < |f.buttons| && second < |f.buttons|
    requires WellFormed(f)
    ensures Select(Select(f, first), second) == Select(f, second)
  {
    var once := Select(f, first);
    var r, s := Select(once, second), Select(f, second);
    assert r.buttons == s.buttons;
    assert forall i :: 0 <= i < |r.items| ==> r.items[i] == s.items[i];
    assert r.items == s.items;
  }

  /** Clicking a button twice gives the state of one click. */
  lemma SelectIdempotent(f: Filter, clicked: nat)
    requires clicked < |f.buttons|
    requires WellFormed(f)
    ensures Select(Select(f, clicked), clicked) == Select(f, clicked)
  {
    LastClickWins(f, clicked, clicked);
  }

  /** "all" shows every item; a button without `data-filter` hides every item. */
  lemma AllAndMissingTag(f: Filter, clicked: nat)
    requires clicked < |f.buttons|
    requires WellFormed(f)
    ensures f.buttons[clicked].filter == Some("all") ==>
      forall i :: 0 <= i < |f.items| ==> !Select(f, clicked).items[i].hidden
    ensures f.buttons[clicked].filter.None? ==>
      forall i :: 0 <= i < |f.items| ==> Select(f, clicked).items[i].hidden
  {
  }

  /** "a b" splits on the space into "a" and "b". */
  lemma SplitAB()
    ensures Split("a b", ' ') == ["a", "b"]
  {
    SplitAfterPiece("a", ' ', "b");
    assert "a" + [' '] + "b" == "a b";
    SplitWithoutSeparator("b", ' ');
  }

  /** Items tagged "a b", "b" and "c": the tag "b" shows the first two and hides
      the third. */
  lemma FilterExample(items: seq<SoftwareItem>, buttons: seq<FilterButton>)
    requires |items| == 3 && |buttons| == 2
    requires items[0].categories == Some("a b")
    requires items[1].categories == Some("b")
    requires items[2].categories == Some("c")
    requires buttons[1].filter == Some("b")
    ensures var r := Select(Filter(buttons, items), 1);
            !r.items[0].hidden && !r.items[1].hidden && r.items[2].hidden
            && r.buttons[1].active && !r.buttons[0].active
  {
    SplitAB();
    SplitWithoutSeparator("b", ' ');
    SplitWithoutSeparator("c", ' ');
  }

  /** A doubled space yields an empty category, which the empty tag selects;
      a single space yields none. */
  lemma EmptyTagExample()
    ensures Selects(Some(""), "a  b")
    ensures !Selects(Some(""), "a b")
  {
    SplitAB();
    SplitAfterPiece("a", ' ', " b");
    assert "a" + [' '] + " b" == "a  b";
    SplitAfterPiece("", ' ', "b");
    assert "" + [' '] + "b" == " b";
    SplitWithoutSeparator("b", ' ');
  }
}

/** Scroll-spy: on every scroll, the current section is the last section, in
    document order, whose top the page has scrolled to within 200 pixels of,
    and each desktop navigation link is marked `active` exactly when its href
    contains that section's id. Layout values are given as integers. */
module ScrollSpy {
  import opened Text

  const Lead: int := 200

  /** A `section[id]` element: its id and its `offsetTop` */
  datatype Section = Section(id: string, top: int)

  /** A `.nav-link`: its `active` class and its href */
  datatype NavLink = NavLink(active: bool, href: string)

  /** The page has scrolled far enough to count `s` as reached */
  predicate Reached(s: Section, scrollY: int)
  {
    scrollY >= s.top - Lead
  }

  /** No section before index `end` is reached. */
  predicate NoneReached(sections: seq<Section>, scrollY: int, end: int)
    requires 0 <= end <= |sections|
  {
    forall j :: 0 <= j < end ==> !Reached(sections[j], scrollY)
  }

  /** No section after index `i` and before index `end` is reached. */
  predicate NoneReachedAfter(sections: seq<Section>, scrollY: int, i: int, end: int)
    requires 0 <= i && 0 <= end <= |sections|
  {
    forall j :: i < j < end ==> !Reached(sections[j], scrollY)
  }

  /** The id the scroll handler settles on: it walks the sections in order and
      keeps the id of each reached one, starting from "". */
  method CurrentSection(sections: seq<Section>, scrollY: int) returns (current: string)
    ensures NoneReached(sections, scrollY, |sections|) ==> current == ""
    ensures forall i :: 0 <= i < |sections| && Reached(sections[i], scrollY)
                        && NoneReachedAfter(sections, scrollY, i, |sections|)
                        ==> current == sections[i].id
  {
    current := "";
    var k := 0;
    while k < |sections|
      invariant 0 <= k <= |sections|
      invariant NoneReached(sections, scrollY, k) ==> current == ""
      invariant forall i :: 0 <= i < k && Reached(sections[i], scrollY)
                            && NoneReachedAfter(sections, scrollY, i, k)
                            ==> current == sections[i].id
    {
      if Reached(sections[k], scrollY) {
        current := sections[k].id;
      }
      k := k + 1;
    }
  }

  /** The link update: clear `active` on every link, then set it on those whose
      href contains `current`. */
  function MarkLinks(links: seq<NavLink>, current: string): (r: seq<NavLink>)
    ensures |r| == |links|
    ensures forall i :: 0 <= i < |links| ==>
      && r[i].href == links[i].href
      && (r[i].active <==> exists k :: OccursAt(links[i].href, current, k))
  {
    SearchFindsOccurrences(links, current);
    seq(|links|, i requires 0 <= i < |links| => NavLink(Contains(links[i].href, current), links[i].href))
  }

  /** For every link, the search for `t` in its href succeeds exactly when `t`
      occurs in it. */
  lemma SearchFindsOccurrences(links: seq<NavLink>, t: string)
    ensures forall i :: 0 <= i < |links| ==>
      (Contains(links[i].href, t) <==> exists k :: OccursAt(links[i].href, t, k))
  {
    forall i | 0 <= i < |links| {
      ContainsIff(links[i].href, t);
    }
  }

  /** The scroll handler as a whole */
  method OnScroll(sections: seq<Section>, links: seq<NavLink>, scrollY: int) returns (r: seq<NavLink>)
    ensures |r| == |links|
    ensures forall j :: 0 <= j < |r| ==> r[j].href == links[j].href
    ensures NoneReached(sections, scrollY, |sections|) ==>
      forall i :: 0 <= i < |r| ==> r[i].active
    ensures forall i, j :: 0 <= i < |sections| && Reached(sections[i], scrollY)
                           && NoneReachedAfter(sections, scrollY, i, |sections|)
                           && 0 <= j < |r|
                           ==> (r[j].active <==> Contains(links[j].href, sections[i].id))
  {
    var current := CurrentSection(sections, scrollY);
    r := MarkLinks(links, current);
    forall j | 0 <= j < |links|
      ensures r[j].active <==> Contains(links[j].href, current)
    {
      ContainsIff(links[j].href, current);
    }
    if current == "" {
      forall j | 0 <= j < |links|
        ensures r[j].active
      {
        ContainsEmpty(links[j].href);
      }
    }
  }

  /** With no section reached, or a reached section whose id is empty, the
      current id is "" and every link becomes active, since every href
      contains the empty string. */
  lemma EmptyCurrentMarksAll(links: seq<NavLink>)
    ensures forall i :: 0 <= i < |links| ==> MarkLinks(links, "")[i].active
  {
    forall i | 0 <= i < |links|
      ensures MarkLinks(links, "")[i].active
    {
      ContainsEmpty(links[i].href);
      ContainsIff(links[i].href, "");
    }
  }
}
